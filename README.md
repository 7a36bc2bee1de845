# tuya_mqtt bridge core in Dafny

A model of the core of `tuya_mqtt.py`, a bridge between Tuya smart plugs on
the local network and an MQTT broker. It covers three things:

- **Command handling** (`on_message`). An inbound message on
  `tuya/<device id>/<switch>/set` whose payload is `on` or `off` in any casing
  becomes a `turn_on(int(switch))` or `turn_off(int(switch))` call on the
  registered device. Every other message is dropped. Module `Commands` models
  the decision as the function `OnMessage`, which returns an `Action`:
  `Drop(reason)`, `TurnOn(dev, n)` or `TurnOff(dev, n)`. Module `Topics` holds
  the topic scheme. Module `Text` models the three Python string built-ins the
  handler relies on: `str.split`, `str.lower` and `int()`.
- **Registry construction** (the start-up loop over the device list). Module
  `Devices` models it as the loop method `BuildRegistry`, proved equal to the
  fold `Load`. The registry is a sequence in dictionary insertion order,
  because the poller walks it in that order.
- **Change-detecting polling** (`poll_devices`). Module `Polling` has a class
  `Poller` with two fields. `lastStates` is the `last_states` dictionary.
  `published` is the list of messages handed to the MQTT client. `PollDevice`
  is the body of the per-device `try` block: a loop over the reply's `dps`
  that appends retained `on`/`off` messages, then replaces the stored state.
  `PollAll` is one pass over the registry. Both are proved against the pure
  functions `Changes`, `StepStates`/`StepPublishes` and
  `TickStates`/`TickPublishes`. The lemmas about these functions state the
  properties.

Status replies keep their `dps` order (`seq<DataPoint>`). Values are JSON
null, booleans, integers and strings. They are compared with Python's `==`,
where `True == 1`, and published using Python truthiness.

Behaviours of the code that are easy to miss, all kept by the model:

- The stored state is replaced wholesale after each successful reply
  (tuya_mqtt.py:85). It is not updated in place. So a switch missing from a
  reply is forgotten, and it is published again when it comes back
  (`Polling.ForgottenSwitchIsRepublished`). A reply without `dps` stores `{}`
  (tuya_mqtt.py:76), so the next reply publishes every non-null switch again
  (`Polling.ReplyWithoutDpsForgetsState`).
- A change is `last_dps.get(switch) != value` (tuya_mqtt.py:81). So a switch
  that is new in the reply with value null is not published
  (`Polling.ChangeUsesPythonEquality`).
- Records without an address are skipped (tuya_mqtt.py:51-53) and leave no
  trace in the registry.
- A record without an `id` field stops start-up whatever else it holds
  (tuya_mqtt.py:49). A record without a `key` field stops it only when the
  record has an address (tuya_mqtt.py:63). Both are the `KeyError` of
  `dev[...]`, so a field that is present but null raises nothing. A null `id`
  becomes the dictionary key `None`, rendered as `None` in topics. A null
  `key` is handed on as a `None` local key. A record field is therefore
  `Missing` or `Present(value)`, where the value is `None` or a string.

Outside effects become parameters and values:

- The device's `status()` becomes a `StatusResult` argument (`Failed` or
  `Reply(dps)`). For a whole pass it is a function from device id to reply.
- `turn_on`/`turn_off` become the returned `Action`.
- `client.publish` appends to `published`.
- `float()` on the version string is the parameter `parse`.

## Model

| member | source | states |
|---|---|---|
| Text.JoinSplit | tuya_mqtt.py:18 | joining the pieces of `topic.split('/')` with `/` gives back the topic |
| Text.SplitSeparatorFree | tuya_mqtt.py:18 | no piece of a split contains the separator |
| Text.SplitJoin | tuya_mqtt.py:18 | splitting `/`-joined slash-free pieces gives back exactly those pieces |
| Text.LowerMatchesCasings | tuya_mqtt.py:24 | `p.lower()` equals a lower-case word exactly when `p` is some casing of that word |
| Text.LowerIsOn | tuya_mqtt.py:24-32 | `p.lower() == 'on'` holds exactly for `on`, `oN`, `On`, `ON` |
| Text.LowerIsOff | tuya_mqtt.py:24-34 | `p.lower() == 'off'` holds exactly for the eight casings of `off` |
| Text.ParseIntShow | tuya_mqtt.py:33 | `int()` reads back every integer's decimal form, negative ones included |
| Topics.DecodeCommandTopicRoundTrip | tuya_mqtt.py:18-23 | the topic check accepts `tuya/d/s/set` for any slash-free `d`, `s`, empty ones included, and yields `(d, s)` |
| Topics.DecodeCommandTopicSound | tuya_mqtt.py:18-23 | any topic the check accepts is the command topic of the slash-free device id and switch it yields |
| Topics.StateTopicIsNotCommand | tuya_mqtt.py:20 | no state topic `tuya/{dev_id}/{switch}/state` passes the command topic check, whatever it contains |
| Topics.StateTopicInjective | tuya_mqtt.py:82 | two switches of one device never share a state topic |
| Topics.DecodeCommandTopicAccepts | tuya_mqtt.py:18-23 | `tuya/dev1/2/set` yields device `dev1`, switch `2` |
| Topics.DecodeCommandTopicRejectsSuffix | tuya_mqtt.py:20-21 | `tuya/dev1/2/get` is rejected |
| Topics.DecodeCommandTopicRejectsShortTopic | tuya_mqtt.py:20-21 | `tuya/dev1/set` (three segments) is rejected |
| Devices.GetPut | tuya_mqtt.py:60 | after `devices[id] = dev`, `id` finds `dev` and every other id finds what it found before |
| Devices.PutIds | tuya_mqtt.py:60 | assignment keeps insertion order: a known id stays in place, a new id is appended |
| Devices.BuildRegistry | tuya_mqtt.py:47-65 | the registry loop returns exactly `Load(records)`: the registry or the start-up error |
| Devices.LoadFailsIff | tuya_mqtt.py:48-63 | start-up fails exactly when some record has no `id` field, or has an address but no `key` field; a null `id` or `key` raises nothing |
| Devices.LoadFirstError | tuya_mqtt.py:48-63 | the error names the first such record: `MissingId(index)` or `MissingKey(id)` |
| Devices.NullFieldsExample | tuya_mqtt.py:48-65 | `[{"id": null}]` builds an empty registry, `{"id": "a", "ip": "x", "key": null}` registers `a` with local key `None`, and a record with an address but no `id` field fails with `MissingId(0)` |
| Devices.LoadMembership | tuya_mqtt.py:48-53 | an id (a string or the null id `None`) is registered exactly when some record carries it with a non-empty `ip`; a record without one is skipped |
| Devices.LoadLastWins | tuya_mqtt.py:54-65 | a registered id holds the last such record's `ip` and `key`, and its parsed version, or 3.3 when the version is missing, empty or unparsable |
| Devices.LoadOrder | tuya_mqtt.py:47-60 | the registry's order is the order in which address-bearing ids first appear among the records |
| Devices.LoadIdsDistinct | tuya_mqtt.py:60 | each registered id appears once |
| Commands.OnMessageCallsOnlyOnCommands | tuya_mqtt.py:17-39 | a device call happens only for a command topic of a registered device, with a switch `int()` accepts and an `on`/`off` payload in any casing |
| Commands.OnMessageTurnOnIff | tuya_mqtt.py:17-33 | `turn_on(n)` on `d` happens if and only if the topic is `tuya/d/s/set` with `int(s) == n`, `d` is registered and the payload is a casing of `on` |
| Commands.OnMessageTurnOffIff | tuya_mqtt.py:17-35 | `turn_off(n)` on `d` happens if and only if the topic is `tuya/d/s/set` with `int(s) == n`, `d` is registered and the payload is a casing of `off` |
| Commands.OnMessageTopicShape | tuya_mqtt.py:18-23 | a message gets past the topic check if and only if its topic is `tuya/d/s/set` for some slash-free `d` and `s` |
| Commands.OnMessageUnknownDevice | tuya_mqtt.py:26-28 | a command for an unregistered device is dropped, whatever its payload and switch |
| Commands.OnMessageRejections | tuya_mqtt.py:31-39 | an `on`/`off` command whose switch `int()` rejects is dropped (the caught error); any other payload is dropped as an unknown command |
| Commands.OnMessageCaseInsensitive | tuya_mqtt.py:24 | two payloads with the same lower-case form lead to the same outcome |
| Commands.OnMessageIgnoresStateTopics | tuya_mqtt.py:20-21 | a message on a state topic is always dropped |
| Commands.OnMessageExample | tuya_mqtt.py:17-33 | `ON` and `on` on `tuya/d1/1/set` both switch relay 1 of a registered `d1` on |
| Polling.Poller.constructor | tuya_mqtt.py:68 | polling starts with no stored states and nothing published |
| Polling.Poller.PollDevice | tuya_mqtt.py:74-87 | a failed fetch publishes nothing and keeps `last_states`; a reply appends `Changes` against the stored state and then stores the reply's `dps` (`{}` if absent) for this device only |
| Polling.Poller.PollAll | tuya_mqtt.py:73-87 | one pass polls the devices in registry order; its publications and final states are `TickPublishes` and `TickStates` |
| Polling.ChangesAppend | tuya_mqtt.py:80-83 | the messages follow the `dps` iteration order: the diff of `a + b` is the diff of `a` followed by the diff of `b` |
| Polling.ChangesMembers | tuya_mqtt.py:80-83 | a message is published if and only if it is the retained message (topic `tuya/{dev}/{switch}/state`, `on` if truthy else `off`) of a data point whose value differs from the stored one |
| Polling.ChangesExactlyOnce | tuya_mqtt.py:80-83 | each switch of the reply gets exactly one message if it changed and none if not |
| Polling.ChangesSilentForAbsent | tuya_mqtt.py:80-83 | a switch missing from the reply gets no message |
| Polling.ChangesAgainstItself | tuya_mqtt.py:80-85 | diffing a reply against itself publishes nothing |
| Polling.FirstPollPublishesAll | tuya_mqtt.py:77-83 | with no stored state, every non-null data point is published, in `dps` order |
| Polling.ChangeUsesPythonEquality | tuya_mqtt.py:81 | the change test is Python's `!=`: a new switch with value null is not a change, and `True` then `1` is no change |
| Polling.TickStatesAt | tuya_mqtt.py:73-87 | after a pass, a device that replied holds its reply's `dps`; a device whose fetch failed, or any device not polled, holds what it held before |
| Polling.TickSettledIsQuiet | tuya_mqtt.py:73-85 | polling devices that already hold their replies publishes nothing and changes nothing |
| Polling.TickIdempotent | tuya_mqtt.py:73-85 | a second pass with the same replies publishes nothing and leaves the states unchanged |
| Polling.OutageThenRecoveryIsQuiet | tuya_mqtt.py:74-87 | a failed fetch keeps the state, so a device that comes back unchanged causes no message |
| Polling.ReplyWithoutDpsForgetsState | tuya_mqtt.py:76-85 | a reply without `dps` (an error reply) is not an outage: it stores `{}`, so the next reply publishes every non-null data point again |
| Polling.ForgottenSwitchIsRepublished | tuya_mqtt.py:85 | the stored state is replaced, not merged: a switch missing from one reply is published again when it returns with a non-null value |
| Polling.SwitchTurnedOnExample | tuya_mqtt.py:76-85 | `d1` with relay `1` off, replying `{"1": true}`, publishes one retained `on` on `tuya/d1/1/state` and stores the reply |

## Left out

- `alarm_mqtt.py`: a GPIO-to-MQTT script outside this core.
- Reading and JSON-parsing of `devices.json` (tuya_mqtt.py:9-10): the records are an input sequence.
- MQTT client setup, connection, subscription and `loop_start` (tuya_mqtt.py:13-15, 41-44): transport. A publish is an entry appended to `published`.
- tinytuya device construction and the `status`, `turn_on` and `turn_off` calls: foreign code. Their outcomes are a `StatusResult` argument and the returned `Action`. An error raised by `turn_on`/`turn_off` is caught and only logged, so it changes nothing that is modelled.
- The poll thread, `time.sleep`, the endless loops and the main loop (tuya_mqtt.py:71-72, 89, 92-98): concurrency and timing. One pass and one message are modelled at a time. This includes the race in which a message arrives before the registry exists: the handler is installed at tuya_mqtt.py:41-44, before the registry is built at 47.
- `print` logging.
- Payload decoding (`msg.payload.decode()`, tuya_mqtt.py:24): the payload is taken as an already-decoded string. A decoding error is raised outside the `try` and is not modelled.
- Text.Lower: only ASCII letters are lower-cased. Python's case mapping of other characters is not modelled.
- Text.ParseInt: only ASCII digits are accepted. Python also accepts other Unicode decimal digits, and recent versions limit the number of digits; neither is modelled.
- Devices.VersionOf: `float()` is the abstract parameter `parse`, and versions are reals, not binary floats. A version given as a JSON number is represented by its text, so the falsy number 0 is not modelled.
- Devices.DeviceRecord: field values other than strings and null (a numeric `id`, say) are not modelled. The optional `name` field is not modelled because it is only logged.
- Polling.Value: float, list and object values in `dps` are not modelled. A `dps` that is not a dictionary makes the `try` fail; it is represented as `Failed`.
- Polling.Poller.PollDevice: an exception raised part-way through the publish loop is not modelled. In that case the messages sent before it stay sent, and `last_states` is not updated.
