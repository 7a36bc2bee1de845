/** The MQTT command handler (`on_message`): decides, for one inbound
    message, whether to switch a relay of a registered device on or off, or
    to drop the message. */
module Commands {
  import opened Wrappers
  import opened Text
  import opened Topics
  import opened Devices

  /** Why a message makes no device call. */
  datatype DropReason =
    | NotACommandTopic
    | UnknownDevice(devId: string)
    | UnknownCommand(command: string)
    | InvalidSwitch(switch: string)

  /** The outcome of one message: a drop, `turn_on(switch)` or
      `turn_off(switch)` on the device registered under `devId`. */
  datatype Action =
    | Drop(reason: DropReason)
    | TurnOn(devId: string, switch: int)
    | TurnOff(devId: string, switch: int)
  {
    predicate IsDeviceCall() { TurnOn? || TurnOff? }
  }

  /** The decision `on_message` makes for a message with this topic and
      payload, given the registry. The switch segment is converted with
      `int()` only on the `on` and `off` paths, where a conversion error is
      caught. */
  function OnMessage(topic: string, payload: string, devices: Registry): Action {
    match DecodeCommandTopic(topic)
    case None => Drop(NotACommandTopic)
    case Some((devId, switch)) =>
      var command := Lower(payload);
      if Get(devices, Some(devId)).None? then Drop(UnknownDevice(devId))
      else if command == "on" then
        match ParseInt(switch)
        case None => Drop(InvalidSwitch(switch))
        case Some(n) => TurnOn(devId, n)
      else if command == "off" then
        match ParseInt(switch)
        case None => Drop(InvalidSwitch(switch))
        case Some(n) => TurnOff(devId, n)
      else Drop(UnknownCommand(command))
  }

  /** A device is called only for a message on the command topic of a
      registered device, whose switch segment `int()` converts to the switch
      number called and whose payload is some casing of "on" or "off". */
  lemma OnMessageCallsOnlyOnCommands(topic: string, payload: string, devices: Registry)
    ensures
      var a := OnMessage(topic, payload, devices);
      a.IsDeviceCall() ==>
        && Get(devices, Some(a.devId)).Some?
        && Lower(payload) == (if a.TurnOn? then "on" else "off")
        && '/' !in a.devId
        && exists switch :: '/' !in switch && topic == CommandTopic(a.devId, switch) && ParseInt(switch) == Some(a.switch)
  {
    DecodeCommandTopicSound(topic);
  }

  /** `turn_on(n)` is called on `devId` exactly when the topic is the
      command topic of a switch `int()` reads as `n`, the device is
      registered, and the payload is "on" in any casing. */
  lemma OnMessageTurnOnIff(topic: string, payload: string, devices: Registry, devId: string, n: int)
    ensures OnMessage(topic, payload, devices) == TurnOn(devId, n) <==>
      && Get(devices, Some(devId)).Some?
      && payload in {"on", "oN", "On", "ON"}
      && '/' !in devId
      && exists switch :: '/' !in switch && topic == CommandTopic(devId, switch) && ParseInt(switch) == Some(n)
  {
    LowerIsOn(payload);
    OnMessageCallsOnlyOnCommands(topic, payload, devices);
    if exists switch :: '/' !in switch && topic == CommandTopic(devId, switch) && ParseInt(switch) == Some(n) {
      var switch :| '/' !in switch && topic == CommandTopic(devId, switch) && ParseInt(switch) == Some(n);
      if '/' !in devId {
        DecodeCommandTopicRoundTrip(devId, switch);
      }
    }
  }

  /** `turn_off(n)` is called on `devId` exactly when the topic is the
      command topic of a switch `int()` reads as `n`, the device is
      registered, and the payload is "off" in any casing. */
  lemma OnMessageTurnOffIff(topic: string, payload: string, devices: Registry, devId: string, n: int)
    ensures OnMessage(topic, payload, devices) == TurnOff(devId, n) <==>
      && Get(devices, Some(devId)).Some?
      && payload in {"off", "ofF", "oFf", "oFF", "Off", "OfF", "OFf", "OFF"}
      && '/' !in devId
      && exists switch :: '/' !in switch && topic == CommandTopic(devId, switch) && ParseInt(switch) == Some(n)
  {
    LowerIsOff(payload);
    OnMessageCallsOnlyOnCommands(topic, payload, devices);
    if exists switch :: '/' !in switch && topic == CommandTopic(devId, switch) && ParseInt(switch) == Some(n) {
      var switch :| '/' !in switch && topic == CommandTopic(devId, switch) && ParseInt(switch) == Some(n);
      if '/' !in devId {
        DecodeCommandTopicRoundTrip(devId, switch);
      }
    }
  }

  /** A message gets past the topic check exactly when its topic is the
      command topic of some slash-free device id and switch; every topic of
      another shape is dropped before the registry is consulted. */
  lemma OnMessageTopicShape(topic: string, payload: string, devices: Registry)
    ensures OnMessage(topic, payload, devices) != Drop(NotACommandTopic) <==>
      exists d, s :: '/' !in d && '/' !in s && topic == CommandTopic(d, s)
  {
    DecodeCommandTopicSound(topic);
    if exists d, s :: '/' !in d && '/' !in s && topic == CommandTopic(d, s) {
      var d, s :| '/' !in d && '/' !in s && topic == CommandTopic(d, s);
      DecodeCommandTopicRoundTrip(d, s);
    }
  }

  /** A command for a device missing from the registry is dropped before
      its payload or switch are looked at. */
  lemma OnMessageUnknownDevice(devId: string, switch: string, payload: string, devices: Registry)
    requires '/' !in devId && '/' !in switch
    requires Get(devices, Some(devId)).None?
    ensures OnMessage(CommandTopic(devId, switch), payload, devices) == Drop(UnknownDevice(devId))
  {
    DecodeCommandTopicRoundTrip(devId, switch);
  }

  /** An "on" or "off" command whose switch segment `int()` rejects is
      dropped; any other payload is dropped as an unknown command. */
  lemma OnMessageRejections(devId: string, switch: string, payload: string, devices: Registry)
    requires '/' !in devId && '/' !in switch
    requires Get(devices, Some(devId)).Some?
    ensures Lower(payload) in {"on", "off"} && ParseInt(switch).None? ==>
      OnMessage(CommandTopic(devId, switch), payload, devices) == Drop(InvalidSwitch(switch))
    ensures Lower(payload) !in {"on", "off"} ==>
      OnMessage(CommandTopic(devId, switch), payload, devices) == Drop(UnknownCommand(Lower(payload)))
  {
    DecodeCommandTopicRoundTrip(devId, switch);
  }

  /** The payload matters only through its lower-case form. */
  lemma OnMessageCaseInsensitive(topic: string, p: string, q: string, devices: Registry)
    requires Lower(p) == Lower(q)
    ensures OnMessage(topic, p, devices) == OnMessage(topic, q, devices)
  {
  }

  /** The bridge's own state publications are never taken for commands. */
  lemma OnMessageIgnoresStateTopics(devId: string, switch: string, payload: string, devices: Registry)
    ensures OnMessage(StateTopic(devId, switch), payload, devices) == Drop(NotACommandTopic)
  {
    StateTopicIsNotCommand(devId, switch);
  }

  /** Example: "ON" on `tuya/d1/1/set` switches relay 1 of a registered
      "d1" on, just as "on" does. */
  lemma OnMessageExample(devices: Registry)
    requires Get(devices, Some("d1")).Some?
    ensures OnMessage("tuya/d1/1/set", "ON", devices) == TurnOn("d1", 1)
    ensures OnMessage("tuya/d1/1/set", "on", devices) == TurnOn("d1", 1)
  {
    ExampleTopic();
    ExampleSwitch();
    ExamplePayloads();
  }

  /** The example's topic names switch "1" of device "d1". */
  lemma ExampleTopic()
    ensures DecodeCommandTopic("tuya/d1/1/set") == Some(("d1", "1"))
  {
    assert "tuya/d1/1/set" == CommandTopic("d1", "1");
    DecodeCommandTopicRoundTrip("d1", "1");
  }

  /** `int("1") == 1`. */
  lemma ExampleSwitch()
    ensures ParseInt("1") == Some(1)
  {
    ParseIntShow(1);
    assert IntToString(1) == "1";
  }

  /** Both payloads of the example lower-case to "on". */
  lemma ExamplePayloads()
    ensures Lower("ON") == "on" && Lower("on") == "on"
  {
    LowerIsOn("ON");
    LowerIsOn("on");
  }
}
