/** The MQTT topic scheme of the bridge: devices report on
    `tuya/<device id>/<switch>/state` and take commands on
    `tuya/<device id>/<switch>/set`. */
module Topics {
  import opened Wrappers
  import opened Text

  const Namespace: string := "tuya"

  /** The retained state topic a switch's value is published on. */
  function StateTopic(devId: string, switch: string): string {
    Namespace + "/" + devId + "/" + switch + "/state"
  }

  /** The command topic for a switch, which the subscription `tuya/+/+/set`
      receives. */
  function CommandTopic(devId: string, switch: string): string {
    Namespace + "/" + devId + "/" + switch + "/set"
  }

  /** The topic check of the command handler: the topic must split on `/`
      into exactly four segments, the first `tuya` and the last `set`; the
      middle two are the device id and the switch. */
  function DecodeCommandTopic(topic: string): Option<(string, string)> {
    var parts := Split(topic, '/');
    if |parts| != 4 || parts[0] != Namespace || parts[3] != "set" then None
    else Some((parts[1], parts[2]))
  }

  /** `"/".join` of four segments, written out. */
  lemma JoinFour(parts: seq<string>)
    requires |parts| == 4
    ensures Join(parts, '/') == parts[0] + "/" + parts[1] + "/" + parts[2] + "/" + parts[3]
  {
    var p1, p2 := parts[1..], parts[2..];
    assert p1[1..] == p2;
    assert p2[1..] == [parts[3]];
    assert Join(p2, '/') == parts[2] + "/" + parts[3];
  }

  lemma SplitFourSegments(a: string, b: string, c: string, d: string)
    requires '/' !in a && '/' !in b && '/' !in c && '/' !in d
    ensures Split(a + "/" + b + "/" + c + "/" + d, '/') == [a, b, c, d]
  {
    JoinFour([a, b, c, d]);
    SplitJoin([a, b, c, d], '/');
  }

  lemma SplitThreeSegments(a: string, b: string, c: string)
    requires '/' !in a && '/' !in b && '/' !in c
    ensures Split(a + "/" + b + "/" + c, '/') == [a, b, c]
  {
    var parts := [a, b, c];
    assert parts[1..] == [b, c];
    assert parts[1..][1..] == [c];
    assert Join([b, c], '/') == b + "/" + c;
    assert Join(parts, '/') == a + "/" + b + "/" + c;
    SplitJoin(parts, '/');
  }

  /** Decoding the command topic of a slash-free device id and switch gives
      them back. Empty segments are accepted, as `str.split` keeps them. */
  lemma DecodeCommandTopicRoundTrip(devId: string, switch: string)
    requires '/' !in devId && '/' !in switch
    ensures DecodeCommandTopic(CommandTopic(devId, switch)) == Some((devId, switch))
  {
    SplitFourSegments(Namespace, devId, switch, "set");
    assert CommandTopic(devId, switch) == Namespace + "/" + devId + "/" + switch + "/" + "set";
  }

  /** Every accepted topic is the command topic of the slash-free pair it
      decodes to, so a topic of any other shape is dropped. */
  lemma DecodeCommandTopicSound(topic: string)
    ensures DecodeCommandTopic(topic).Some? ==>
      var (devId, switch) := DecodeCommandTopic(topic).value;
      && '/' !in devId && '/' !in switch
      && topic == CommandTopic(devId, switch)
  {
    var parts := Split(topic, '/');
    JoinSplit(topic, '/');
    SplitSeparatorFree(topic, '/');
    if |parts| == 4 {
      JoinFour(parts);
      assert '/' !in parts[1] && '/' !in parts[2];
      if parts[0] == Namespace && parts[3] == "set" {
        assert topic == Namespace + "/" + parts[1] + "/" + parts[2] + "/" + "set";
        assert CommandTopic(parts[1], parts[2]) == Namespace + "/" + parts[1] + "/" + parts[2] + "/" + "set";
      }
    }
  }

  /** The last segment of a state topic is `state`, so the command handler
      never acts on a state topic, whatever the device id and switch hold. */
  lemma StateTopicIsNotCommand(devId: string, switch: string)
    ensures DecodeCommandTopic(StateTopic(devId, switch)) == None
  {
    var prefix := Namespace + "/" + devId + "/" + switch;
    assert StateTopic(devId, switch) == prefix + ['/'] + "state";
    SplitAtSeparator(prefix, "state", '/');
    SplitWithoutSeparator("state", '/');
    var parts := Split(StateTopic(devId, switch), '/');
    assert parts[|parts| - 1] == "state";
  }

  /** The state topics of two different switches of one device differ, even
      when the switch names contain slashes. */
  lemma StateTopicInjective(devId: string, s1: string, s2: string)
    requires StateTopic(devId, s1) == StateTopic(devId, s2)
    ensures s1 == s2
  {
    var prefix := Namespace + "/" + devId + "/";
    assert StateTopic(devId, s1) == prefix + s1 + "/state";
    assert StateTopic(devId, s2) == prefix + s2 + "/state";
    assert |s1| == |s2|;
    assert s1 == StateTopic(devId, s1)[|prefix|..|prefix| + |s1|];
    assert s2 == StateTopic(devId, s2)[|prefix|..|prefix| + |s2|];
  }

  /** Example: `tuya/dev1/2/set` names switch "2" of device "dev1". */
  lemma DecodeCommandTopicAccepts()
    ensures DecodeCommandTopic("tuya/dev1/2/set") == Some(("dev1", "2"))
  {
    assert "tuya/dev1/2/set" == "tuya" + "/" + "dev1" + "/" + "2" + "/" + "set";
    SplitFourSegments("tuya", "dev1", "2", "set");
  }

  /** Example: a `get` suffix is rejected. */
  lemma DecodeCommandTopicRejectsSuffix()
    ensures DecodeCommandTopic("tuya/dev1/2/get") == None
  {
    assert "tuya/dev1/2/get" == "tuya" + "/" + "dev1" + "/" + "2" + "/" + "get";
    SplitFourSegments("tuya", "dev1", "2", "get");
  }

  /** Example: a topic with a missing segment is rejected. */
  lemma DecodeCommandTopicRejectsShortTopic()
    ensures DecodeCommandTopic("tuya/dev1/set") == None
  {
    assert "tuya/dev1/set" == "tuya" + "/" + "dev1" + "/" + "set";
    SplitThreeSegments("tuya", "dev1", "set");
  }
}
