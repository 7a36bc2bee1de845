/** The change-detecting poller (`poll_devices`): on each tick it asks every
    registered device for its status, publishes a retained `on`/`off`
    message for each data point whose value changed since the last
    successful reply, and then stores the reply as that device's last
    known state. */
module Polling {
  import opened Wrappers
  import opened Topics
  import opened Devices

  /** A data-point value as a status reply carries it. */
  datatype Value = Null | Bool(b: bool) | Int(i: int) | Str(s: string)

  function AsNumber(v: Value): int
    requires v.Bool? || v.Int?
  {
    if v.Bool? then (if v.b then 1 else 0) else v.i
  }

  /** Python's `==` on these values: `True == 1`, `False == 0`, and `None`
      equals only `None`. */
  predicate PyEq(x: Value, y: Value) {
    if x.Null? || y.Null? then x.Null? && y.Null?
    else if x.Str? || y.Str? then x.Str? && y.Str? && x.s == y.s
    else AsNumber(x) == AsNumber(y)
  }

  /** Python's truth value of a data-point value. */
  predicate Truthy(v: Value) {
    match v
    case Null => false
    case Bool(b) => b
    case Int(i) => i != 0
    case Str(s) => s != ""
  }

  /** The payload published for a value: `"on" if value else "off"`. */
  function OnOff(v: Value): string {
    if Truthy(v) then "on" else "off"
  }

  /** One entry of a status reply's `dps` dictionary. */
  datatype DataPoint = DataPoint(switch: string, value: Value)

  /** A `dps` dictionary in its iteration order. */
  type Dps = seq<DataPoint>

  /** Dictionary keys are unique. */
  ghost predicate SwitchesDistinct(dps: Dps) {
    forall i, j :: 0 <= i < j < |dps| ==> dps[i].switch != dps[j].switch
  }

  /** `dps.get(switch)`, with an absent switch reading as `None`. */
  function Lookup(dps: Dps, switch: string): Value {
    if dps == [] then Null
    else if dps[0].switch == switch then dps[0].value
    else Lookup(dps[1..], switch)
  }

  /** One `client.publish(topic, payload, retain=...)` call. */
  datatype Publish = Publish(topic: string, payload: string, retain: bool)

  /** `last_dps.get(switch) != value`. */
  predicate IsChange(last: Dps, p: DataPoint) {
    !PyEq(Lookup(last, p.switch), p.value)
  }

  /** The retained state message for a data point of a device. */
  function PublishFor(devId: DeviceId, p: DataPoint): Publish {
    Publish(StateTopic(IdText(devId), p.switch), OnOff(p.value), true)
  }

  /** The publications of one device's diff, in `dps` order. */
  function Changes(devId: DeviceId, last: Dps, dps: Dps): seq<Publish>
    decreases |dps|
  {
    if dps == [] then []
    else
      var p := dps[|dps| - 1];
      Changes(devId, last, dps[..|dps| - 1]) + (if IsChange(last, p) then [PublishFor(devId, p)] else [])
  }

  /** The outcome of `device.status()`: it raised, or it returned a reply
      whose `dps` entry may be missing. */
  datatype StatusResult = Failed | Reply(dps: Option<Dps>)

  /** `data.get('dps', {})`. */
  function NewDps(r: StatusResult): Dps
    requires r.Reply?
  {
    r.dps.GetOr([])
  }

  /** `last_states.get(dev_id, {})`. */
  function LastDps(states: map<DeviceId, Dps>, devId: DeviceId): Dps {
    if devId in states then states[devId] else []
  }

  /** The stored states after polling one device. */
  function StepStates(states: map<DeviceId, Dps>, devId: DeviceId, r: StatusResult): map<DeviceId, Dps> {
    if r.Failed? then states else states[devId := NewDps(r)]
  }

  /** The publications of polling one device. */
  function StepPublishes(states: map<DeviceId, Dps>, devId: DeviceId, r: StatusResult): seq<Publish> {
    if r.Failed? then [] else Changes(devId, LastDps(states, devId), NewDps(r))
  }

  /** The stored states after one pass over the devices `ids`, where
      `status` gives each device's reply in this pass. */
  function TickStates(states: map<DeviceId, Dps>, ids: seq<DeviceId>, status: DeviceId -> StatusResult): map<DeviceId, Dps>
    decreases |ids|
  {
    if ids == [] then states
    else
      var n := |ids|;
      StepStates(TickStates(states, ids[..n - 1], status), ids[n - 1], status(ids[n - 1]))
  }

  /** The publications of one pass over the devices `ids`, device by device. */
  function TickPublishes(states: map<DeviceId, Dps>, ids: seq<DeviceId>, status: DeviceId -> StatusResult): seq<Publish>
    decreases |ids|
  {
    if ids == [] then []
    else
      var n := |ids|;
      TickPublishes(states, ids[..n - 1], status)
        + StepPublishes(TickStates(states, ids[..n - 1], status), ids[n - 1], status(ids[n - 1]))
  }

  /** The poller's state: the last known `dps` of each device and the
      messages handed to the MQTT client so far. */
  class Poller {
    var lastStates: map<DeviceId, Dps>
    var published: seq<Publish>

    constructor ()
      ensures lastStates == map[] && published == []
    {
      lastStates := map[];
      published := [];
    }

    /** The body of the `try` block for one device. A failed status fetch
        publishes nothing and keeps the stored state; a reply publishes the
        changed data points and then replaces the stored state wholesale. */
    method PollDevice(devId: DeviceId, result: StatusResult)
      modifies this
      ensures lastStates == StepStates(old(lastStates), devId, result)
      ensures published == old(published) + StepPublishes(old(lastStates), devId, result)
    {
      if result.Failed? {
        return;
      }
      var dps := NewDps(result);
      var lastDps := LastDps(lastStates, devId);
      var i := 0;
      while i < |dps|
        invariant 0 <= i <= |dps|
        invariant lastStates == old(lastStates)
        invariant published == old(published) + Changes(devId, lastDps, dps[..i])
      {
        var p := dps[i];
        assert dps[..i + 1][..i] == dps[..i];
        if !PyEq(Lookup(lastDps, p.switch), p.value) {
          published := published + [Publish(StateTopic(IdText(devId), p.switch), OnOff(p.value), true)];
        }
        i := i + 1;
      }
      assert dps[..|dps|] == dps;
      lastStates := lastStates[devId := dps];
    }

    /** One pass of the polling loop over the registry, in registry order;
        `status` gives the reply each device returns in this pass. */
    method PollAll(devices: Registry, status: DeviceId -> StatusResult)
      modifies this
      ensures lastStates == TickStates(old(lastStates), Ids(devices), status)
      ensures published == old(published) + TickPublishes(old(lastStates), Ids(devices), status)
    {
      ghost var ids := Ids(devices);
      ghost var initial, sent := lastStates, published;
      var k := 0;
      while k < |devices|
        invariant 0 <= k <= |devices|
        invariant lastStates == TickStates(initial, ids[..k], status)
        invariant published == sent + TickPublishes(initial, ids[..k], status)
      {
        var devId := devices[k].id;
        assert ids[k] == devId;
        TickPrefixStep(initial, ids, k, status, sent);
        PollDevice(devId, status(devId));
        k := k + 1;
      }
      assert ids[..|devices|] == ids;
    }
  }

  /** One more device of a pass: the pass over `ids[..k + 1]` is the pass
      over `ids[..k]` followed by polling `ids[k]`, also when its messages
      are appended to the messages `sent` before the pass. */
  lemma TickPrefixStep(states: map<DeviceId, Dps>, ids: seq<DeviceId>, k: nat, status: DeviceId -> StatusResult, sent: seq<Publish>)
    requires k < |ids|
    ensures TickStates(states, ids[..k + 1], status)
      == StepStates(TickStates(states, ids[..k], status), ids[k], status(ids[k]))
    ensures TickPublishes(states, ids[..k + 1], status)
      == TickPublishes(states, ids[..k], status) + StepPublishes(TickStates(states, ids[..k], status), ids[k], status(ids[k]))
    ensures sent + TickPublishes(states, ids[..k + 1], status)
      == (sent + TickPublishes(states, ids[..k], status)) + StepPublishes(TickStates(states, ids[..k], status), ids[k], status(ids[k]))
  {
    assert ids[..k + 1][..k] == ids[..k];
  }

  // ---------------------------------------------------------------------
  // Properties of one device's diff
  // ---------------------------------------------------------------------

  /** The diff of a concatenation is the concatenation of the diffs: the
      publications follow the `dps` iteration order. */
  lemma {:induction false} ChangesAppend(devId: DeviceId, last: Dps, a: Dps, b: Dps)
    ensures Changes(devId, last, a + b) == Changes(devId, last, a) + Changes(devId, last, b)
    decreases |b|
  {
    if b != [] {
      var ab := a + b;
      assert ab[..|ab| - 1] == a + b[..|b| - 1];
      assert ab[|ab| - 1] == b[|b| - 1];
      ChangesAppend(devId, last, a, b[..|b| - 1]);
    } else {
      assert a + b == a;
    }
  }

  lemma {:induction false} LookupFound(dps: Dps, i: nat)
    requires SwitchesDistinct(dps) && i < |dps|
    ensures Lookup(dps, dps[i].switch) == dps[i].value
  {
    if i > 0 {
      assert dps[1..][i - 1] == dps[i];
      LookupFound(dps[1..], i - 1);
    }
  }

  lemma {:induction false} LookupAbsent(dps: Dps, switch: string)
    requires forall i :: 0 <= i < |dps| ==> dps[i].switch != switch
    ensures Lookup(dps, switch) == Null
  {
    if dps != [] {
      LookupAbsent(dps[1..], switch);
    }
  }

  lemma {:induction false} ChangesNone(devId: DeviceId, last: Dps, dps: Dps)
    requires forall i :: 0 <= i < |dps| ==> !IsChange(last, dps[i])
    ensures Changes(devId, last, dps) == []
    decreases |dps|
  {
    if dps != [] {
      ChangesNone(devId, last, dps[..|dps| - 1]);
    }
  }

  /** Diffing a reply against itself publishes nothing. */
  lemma ChangesAgainstItself(devId: DeviceId, dps: Dps)
    requires SwitchesDistinct(dps)
    ensures Changes(devId, dps, dps) == []
  {
    forall i | 0 <= i < |dps| ensures !IsChange(dps, dps[i]) {
      LookupFound(dps, i);
    }
    ChangesNone(devId, dps, dps);
  }

  /** A message is published exactly for each data point whose value is
      changed, and it is that data point's retained `on`/`off` message. */
  lemma {:induction false} ChangesMembers(devId: DeviceId, last: Dps, dps: Dps, m: Publish)
    ensures m in Changes(devId, last, dps) <==>
      exists i :: 0 <= i < |dps| && IsChange(last, dps[i]) && m == PublishFor(devId, dps[i])
    decreases |dps|
  {
    if dps != [] {
      var n := |dps|;
      var prefix := dps[..n - 1];
      ChangesMembers(devId, last, prefix, m);
      if exists i :: 0 <= i < n && IsChange(last, dps[i]) && m == PublishFor(devId, dps[i]) {
        var i :| 0 <= i < n && IsChange(last, dps[i]) && m == PublishFor(devId, dps[i]);
        if i < n - 1 {
          assert prefix[i] == dps[i];
        }
      }
      if exists i :: 0 <= i < n - 1 && IsChange(last, prefix[i]) && m == PublishFor(devId, prefix[i]) {
        var i :| 0 <= i < n - 1 && IsChange(last, prefix[i]) && m == PublishFor(devId, prefix[i]);
        assert dps[i] == prefix[i];
      }
    }
  }

  /** How many messages go to `topic`. */
  function CountTopic(pubs: seq<Publish>, topic: string): nat {
    if pubs == [] then 0 else (if pubs[0].topic == topic then 1 else 0) + CountTopic(pubs[1..], topic)
  }

  lemma {:induction false} CountTopicAppend(a: seq<Publish>, b: seq<Publish>, topic: string)
    ensures CountTopic(a + b, topic) == CountTopic(a, topic) + CountTopic(b, topic)
  {
    if a != [] {
      assert (a + b)[1..] == a[1..] + b;
      CountTopicAppend(a[1..], b, topic);
    } else {
      assert a + b == b;
    }
  }

  /** A switch absent from the reply gets no message. */
  lemma {:induction false} ChangesSilentForAbsent(devId: DeviceId, last: Dps, dps: Dps, switch: string)
    requires forall i :: 0 <= i < |dps| ==> dps[i].switch != switch
    ensures CountTopic(Changes(devId, last, dps), StateTopic(IdText(devId), switch)) == 0
    decreases |dps|
  {
    if dps != [] {
      var n := |dps|;
      var p := dps[n - 1];
      var topic := StateTopic(IdText(devId), switch);
      ChangesSilentForAbsent(devId, last, dps[..n - 1], switch);
      var tail := if IsChange(last, p) then [PublishFor(devId, p)] else [];
      CountTopicAppend(Changes(devId, last, dps[..n - 1]), tail, topic);
      assert p.switch != switch;
      if PublishFor(devId, p).topic == topic {
        StateTopicInjective(IdText(devId), p.switch, switch);
      }
      assert CountTopic(tail, topic) == 0;
    }
  }

  /** Every switch of the reply gets exactly one message when its value
      changed and none otherwise. */
  lemma {:induction false} ChangesExactlyOnce(devId: DeviceId, last: Dps, dps: Dps, i: nat)
    requires SwitchesDistinct(dps) && i < |dps|
    ensures CountTopic(Changes(devId, last, dps), StateTopic(IdText(devId), dps[i].switch)) ==
      if IsChange(last, dps[i]) then 1 else 0
    decreases |dps|
  {
    var n := |dps|;
    var prefix := dps[..n - 1];
    var p := dps[n - 1];
    var topic := StateTopic(IdText(devId), dps[i].switch);
    var tail := if IsChange(last, p) then [PublishFor(devId, p)] else [];
    CountTopicAppend(Changes(devId, last, prefix), tail, topic);
    if i == n - 1 {
      ChangesSilentForAbsent(devId, last, prefix, p.switch);
    } else {
      assert prefix[i] == dps[i];
      ChangesExactlyOnce(devId, last, prefix, i);
      if StateTopic(IdText(devId), p.switch) == topic {
        StateTopicInjective(IdText(devId), p.switch, dps[i].switch);
      }
    }
  }

  /** Against an empty last state every non-null data point is published,
      in `dps` order. */
  lemma {:induction false} FirstPollPublishesAll(devId: DeviceId, dps: Dps)
    requires forall i :: 0 <= i < |dps| ==> !dps[i].value.Null?
    ensures Changes(devId, [], dps) == seq(|dps|, i requires 0 <= i < |dps| => PublishFor(devId, dps[i]))
    decreases |dps|
  {
    if dps != [] {
      FirstPollPublishesAll(devId, dps[..|dps| - 1]);
    }
  }

  /** Python's `!=` decides what is a change: a switch that is new in the
      reply with value `None` is not published, and `True` followed by `1`
      is no change. */
  lemma ChangeUsesPythonEquality(last: Dps, switch: string)
    ensures Lookup(last, switch) == Null ==> !IsChange(last, DataPoint(switch, Null))
    ensures !IsChange([DataPoint(switch, Bool(true))], DataPoint(switch, Int(1)))
    ensures !IsChange([DataPoint(switch, Bool(false))], DataPoint(switch, Int(0)))
  {
  }

  // ---------------------------------------------------------------------
  // Properties of a whole pass over the devices
  // ---------------------------------------------------------------------

  /** After a pass, a device that replied holds exactly its reply's `dps`
      (an empty one when the reply had none); every other device, polled
      with a failed fetch or not polled at all, holds what it held before. */
  lemma {:induction false} TickStatesAt(states: map<DeviceId, Dps>, ids: seq<DeviceId>, status: DeviceId -> StatusResult, id: DeviceId)
    ensures
      var after := TickStates(states, ids, status);
      id in ids && status(id).Reply? ==> id in after && after[id] == NewDps(status(id))
    ensures
      var after := TickStates(states, ids, status);
      !(id in ids && status(id).Reply?) ==> (id in after <==> id in states) && (id in states ==> after[id] == states[id])
    decreases |ids|
  {
    if ids != [] {
      var n := |ids|;
      var prefix := ids[..n - 1];
      TickStatesAt(states, prefix, status, id);
      assert ids == prefix + [ids[n - 1]];
    }
  }

  /** Every replying device of `ids` already holds its reply. */
  ghost predicate Settled(states: map<DeviceId, Dps>, ids: seq<DeviceId>, status: DeviceId -> StatusResult) {
    forall id :: id in ids && status(id).Reply? ==>
      id in states && states[id] == NewDps(status(id)) && SwitchesDistinct(NewDps(status(id)))
  }

  /** Polling settled devices with the same replies publishes nothing and
      changes nothing. */
  lemma {:induction false} TickSettledIsQuiet(states: map<DeviceId, Dps>, ids: seq<DeviceId>, status: DeviceId -> StatusResult)
    requires Settled(states, ids, status)
    ensures TickPublishes(states, ids, status) == []
    ensures TickStates(states, ids, status) == states
    decreases |ids|
  {
    if ids != [] {
      var n := |ids|;
      var prefix := ids[..n - 1];
      var id := ids[n - 1];
      assert forall x :: x in prefix ==> x in ids;
      TickSettledIsQuiet(states, prefix, status);
      if status(id).Reply? {
        ChangesAgainstItself(id, NewDps(status(id)));
        assert states[id := NewDps(status(id))] == states;
      }
    }
  }

  /** Idempotence: running a pass a second time with the same replies
      publishes nothing and leaves the stored states as they are. */
  lemma TickIdempotent(states: map<DeviceId, Dps>, ids: seq<DeviceId>, status: DeviceId -> StatusResult)
    requires forall id :: id in ids && status(id).Reply? ==> SwitchesDistinct(NewDps(status(id)))
    ensures
      var after := TickStates(states, ids, status);
      TickPublishes(after, ids, status) == [] && TickStates(after, ids, status) == after
  {
    var after := TickStates(states, ids, status);
    forall id | id in ids && status(id).Reply?
      ensures id in after && after[id] == NewDps(status(id))
    {
      TickStatesAt(states, ids, status, id);
    }
    TickSettledIsQuiet(after, ids, status);
  }

  /** A failed fetch keeps the stored state, so when the device comes back
      with the state it had before the outage nothing is published. */
  lemma OutageThenRecoveryIsQuiet(states: map<DeviceId, Dps>, devId: DeviceId, dps: Dps)
    requires devId in states && states[devId] == dps && SwitchesDistinct(dps)
    ensures StepStates(states, devId, Failed) == states
    ensures StepPublishes(StepStates(states, devId, Failed), devId, Reply(Some(dps))) == []
  {
    ChangesAgainstItself(devId, dps);
  }

  /** A reply without `dps` (an error reply) is not an outage: the stored
      state becomes `{}`, so the next reply publishes every non-null data
      point again, even an unchanged one. */
  lemma ReplyWithoutDpsForgetsState(states: map<DeviceId, Dps>, devId: DeviceId, dps: Dps)
    requires forall i :: 0 <= i < |dps| ==> !dps[i].value.Null?
    ensures StepStates(states, devId, Reply(None)) == states[devId := []]
    ensures StepPublishes(StepStates(states, devId, Reply(None)), devId, Reply(Some(dps)))
      == seq(|dps|, i requires 0 <= i < |dps| => PublishFor(devId, dps[i]))
  {
    assert LastDps(StepStates(states, devId, Reply(None)), devId) == [];
    FirstPollPublishesAll(devId, dps);
  }

  /** The stored state is replaced, not merged: a switch missing from a
      reply is forgotten, so when it comes back with a non-null value it is
      published again, even with the value it had before. */
  lemma ForgottenSwitchIsRepublished(states: map<DeviceId, Dps>, devId: DeviceId, dps1: Dps, dps2: Dps, k: nat)
    requires k < |dps2| && !dps2[k].value.Null?
    requires forall i :: 0 <= i < |dps1| ==> dps1[i].switch != dps2[k].switch
    ensures
      var mid := StepStates(states, devId, Reply(Some(dps1)));
      PublishFor(devId, dps2[k]) in StepPublishes(mid, devId, Reply(Some(dps2)))
  {
    var mid := StepStates(states, devId, Reply(Some(dps1)));
    assert LastDps(mid, devId) == dps1;
    LookupAbsent(dps1, dps2[k].switch);
    ChangesMembers(devId, dps1, dps2, PublishFor(devId, dps2[k]));
  }

  /** Example: device "d1" with relay "1" last seen off replies `{"1": true}`;
      one retained "on" message goes to `tuya/d1/1/state` and the stored
      state becomes the reply. */
  lemma SwitchTurnedOnExample()
    ensures
      var states := map[Some("d1") := [DataPoint("1", Bool(false))]];
      var reply := Reply(Some([DataPoint("1", Bool(true))]));
      && StepPublishes(states, Some("d1"), reply) == [Publish("tuya/d1/1/state", "on", true)]
      && StepStates(states, Some("d1"), reply)[Some("d1")] == [DataPoint("1", Bool(true))]
  {
    var dps := [DataPoint("1", Bool(true))];
    assert dps[..0] == [];
    assert StateTopic("d1", "1") == "tuya/d1/1/state";
  }
}
