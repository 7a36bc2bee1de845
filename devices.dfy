/** The device registry: the `devices` dictionary built once at start-up
    from the records of the device list, keyed by device id. */
module Devices {
  import opened Wrappers

  /** A field of a device record: missing from the record, or present with
      a value that is JSON null (`None`) or a string. */
  datatype Field = Missing | Present(value: Option<string>)

  /** One record of the device list. */
  datatype DeviceRecord = DeviceRecord(id: Field, ip: Field, key: Field, version: Field)

  /** A `dev_id` as a dictionary key: a string, or `None` when the record's
      `id` is null. */
  type DeviceId = Option<string>

  /** How an f-string renders a device id: `None` as the text "None". */
  function IdText(id: DeviceId): string {
    match id
    case None => "None"
    case Some(s) => s
  }

  /** The connection settings of one registered device; the local key is
      `None` when the record's `key` is null. */
  datatype DeviceConfig = DeviceConfig(id: DeviceId, address: string, localKey: Option<string>, version: real)

  /** The registry in the dictionary's insertion order. */
  type Registry = seq<DeviceConfig>

  /** Start-up failures, the `KeyError` of `dev['id']` or `dev['key']`: the
      record at `index` has no `id` field, or the record with this id has an
      address but no `key` field. Either stops the program. A field that is
      present but null raises nothing. */
  datatype ConfigError = MissingId(index: nat) | MissingKey(id: DeviceId)

  /** The protocol version used when a record gives none or an unreadable one. */
  const DefaultVersion: real := 3.3

  function Ids(reg: Registry): seq<DeviceId> {
    seq(|reg|, i requires 0 <= i < |reg| => reg[i].id)
  }

  ghost predicate IdsDistinct(reg: Registry) {
    forall i, j :: 0 <= i < j < |reg| ==> reg[i].id != reg[j].id
  }

  /** `devices.get(id)`. */
  function Get(reg: Registry, id: DeviceId): Option<DeviceConfig> {
    if reg == [] then None
    else if reg[0].id == id then Some(reg[0])
    else Get(reg[1..], id)
  }

  /** `devices[dev.id] = dev`: an existing entry is replaced where it
      stands, a new one goes at the end. */
  function Put(reg: Registry, dev: DeviceConfig): Registry {
    if reg == [] then [dev]
    else if reg[0].id == dev.id then [dev] + reg[1..]
    else [reg[0]] + Put(reg[1..], dev)
  }

  lemma {:induction false} GetIds(reg: Registry, id: DeviceId)
    ensures Get(reg, id).Some? <==> id in Ids(reg)
    ensures Get(reg, id).Some? ==> Get(reg, id).value.id == id
  {
    if reg != [] {
      GetIds(reg[1..], id);
      assert Ids(reg) == [reg[0].id] + Ids(reg[1..]);
    }
  }

  /** After `Put`, the new entry is found under its id and every other id
      finds what it found before. */
  lemma {:induction false} GetPut(reg: Registry, dev: DeviceConfig, id: DeviceId)
    ensures Get(Put(reg, dev), id) == if id == dev.id then Some(dev) else Get(reg, id)
  {
    if reg != [] && reg[0].id != dev.id {
      GetPut(reg[1..], dev, id);
    }
  }

  /** `Put` keeps the ids in insertion order: a known id keeps its place,
      a new id is appended. */
  lemma {:induction false} PutIds(reg: Registry, dev: DeviceConfig)
    ensures Ids(Put(reg, dev)) == if dev.id in Ids(reg) then Ids(reg) else Ids(reg) + [dev.id]
  {
    if reg != [] {
      assert Ids(reg) == [reg[0].id] + Ids(reg[1..]);
      if reg[0].id != dev.id {
        PutIds(reg[1..], dev);
        assert Ids(Put(reg, dev)) == [reg[0].id] + Ids(Put(reg[1..], dev));
      } else {
        assert Ids(Put(reg, dev)) == [dev.id] + Ids(reg[1..]);
      }
    }
  }

  /** The truth value of `dev.get(field, '')`: present, not null and not
      empty. */
  predicate Filled(f: Field) {
    f.Present? && f.value.Some? && f.value.value != ""
  }

  /** `if not ip: continue`: only records with a non-empty address are
      registered. */
  predicate Listed(rec: DeviceRecord) {
    Filled(rec.ip)
  }

  /** `float(version_str) if version_str else 3.3`, with `ValueError`
      also giving 3.3; `parse` stands for `float` on strings. */
  function VersionOf(version: Field, parse: string -> Option<real>): real {
    if Filled(version) then parse(version.value.value).GetOr(DefaultVersion) else DefaultVersion
  }

  /** A record that stops the start-up: no `id` field, or an address but no
      `key` field. */
  predicate Faulty(rec: DeviceRecord) {
    rec.id.Missing? || (Listed(rec) && rec.key.Missing?)
  }

  function ErrorOf(rec: DeviceRecord, index: nat): ConfigError
    requires Faulty(rec)
  {
    if rec.id.Missing? then MissingId(index) else MissingKey(rec.id.value)
  }

  /** One pass of the registry loop over the record at `index`. */
  function AddRecord(reg: Registry, rec: DeviceRecord, index: nat, parse: string -> Option<real>): Result<Registry, ConfigError> {
    if Faulty(rec) then Failure(ErrorOf(rec, index))
    else if !Listed(rec) then Success(reg)
    else Success(Put(reg, DeviceConfig(rec.id.value, rec.ip.value.value, rec.key.value, VersionOf(rec.version, parse))))
  }

  /** The registry the start-up loop builds from `records`, or the error
      that stops it. */
  function Load(records: seq<DeviceRecord>, parse: string -> Option<real>): Result<Registry, ConfigError>
    decreases |records|
  {
    if records == [] then Success([])
    else
      match Load(records[..|records| - 1], parse)
      case Failure(e) => Failure(e)
      case Success(reg) => AddRecord(reg, records[|records| - 1], |records| - 1, parse)
  }

  /** The registry loop: walks the records in order, skips those without
      an address and stops at the first record that has no `id` field, or
      has an address but no `key` field. */
  method BuildRegistry(records: seq<DeviceRecord>, parse: string -> Option<real>)
    returns (result: Result<Registry, ConfigError>)
    ensures result == Load(records, parse)
  {
    var devices: Registry := [];
    for i := 0 to |records|
      invariant Load(records[..i], parse) == Success(devices)
    {
      var dev := records[i];
      assert records[..i + 1][..i] == records[..i];
      if dev.id.Missing? {
        LoadPrefixFailure(records, parse, i + 1);
        return Failure(MissingId(i));
      }
      var devId := dev.id.value;
      var ip := if dev.ip.Present? then dev.ip.value else Some("");
      if ip.None? || ip.value == "" {
        continue;
      }
      var version := VersionOf(dev.version, parse);
      if dev.key.Missing? {
        LoadPrefixFailure(records, parse, i + 1);
        return Failure(MissingKey(devId));
      }
      devices := Put(devices, DeviceConfig(devId, ip.value, dev.key.value, version));
    }
    assert records[..|records|] == records;
    result := Success(devices);
  }

  /** Once a prefix of the records fails, the whole list fails the same way. */
  lemma {:induction false} LoadPrefixFailure(records: seq<DeviceRecord>, parse: string -> Option<real>, m: nat)
    requires m <= |records|
    requires Load(records[..m], parse).Failure?
    ensures Load(records, parse) == Load(records[..m], parse)
    decreases |records|
  {
    if m == |records| {
      assert records[..m] == records;
    } else {
      var prefix := records[..|records| - 1];
      assert prefix[..m] == records[..m];
      LoadPrefixFailure(prefix, parse, m);
    }
  }

  /** Start-up fails exactly when some record is faulty. */
  lemma {:induction false} LoadFailsIff(records: seq<DeviceRecord>, parse: string -> Option<real>)
    ensures Load(records, parse).Failure? <==> exists i :: 0 <= i < |records| && Faulty(records[i])
    decreases |records|
  {
    if records != [] {
      var n := |records|;
      var prefix := records[..n - 1];
      LoadFailsIff(prefix, parse);
      if exists i :: 0 <= i < |prefix| && Faulty(prefix[i]) {
        var i :| 0 <= i < |prefix| && Faulty(prefix[i]);
        assert Faulty(records[i]);
      }
      if exists i :: 0 <= i < n && Faulty(records[i]) {
        var i :| 0 <= i < n && Faulty(records[i]);
        if i < n - 1 {
          assert Faulty(prefix[i]);
        }
      }
    }
  }

  /** The reported error names the first faulty record. */
  lemma LoadFirstError(records: seq<DeviceRecord>, parse: string -> Option<real>, k: nat)
    requires k < |records| && Faulty(records[k])
    requires forall j :: 0 <= j < k ==> !Faulty(records[j])
    ensures Load(records, parse) == Failure(ErrorOf(records[k], k))
  {
    var prefix := records[..k];
    LoadFailsIff(prefix, parse);
    assert records[..k + 1][..k] == prefix;
    LoadPrefixFailure(records, parse, k + 1);
  }

  /** The ids of the address-bearing records, in record order. */
  function ListedIds(records: seq<DeviceRecord>): seq<DeviceId>
    decreases |records|
  {
    if records == [] then []
    else
      var rec := records[|records| - 1];
      ListedIds(records[..|records| - 1]) + (if rec.id.Present? && Listed(rec) then [rec.id.value] else [])
  }

  /** The first occurrence of each element, in order. */
  function FirstOccurrences<T(==)>(xs: seq<T>): seq<T>
    decreases |xs|
  {
    if xs == [] then []
    else
      var d := FirstOccurrences(xs[..|xs| - 1]);
      if xs[|xs| - 1] in d then d else d + [xs[|xs| - 1]]
  }

  lemma {:induction false} FirstOccurrencesDistinct<T>(xs: seq<T>)
    ensures forall i, j :: 0 <= i < j < |FirstOccurrences(xs)| ==> FirstOccurrences(xs)[i] != FirstOccurrences(xs)[j]
    ensures forall x :: x in FirstOccurrences(xs) <==> x in xs
    decreases |xs|
  {
    if xs != [] {
      var prefix := xs[..|xs| - 1];
      FirstOccurrencesDistinct(prefix);
      assert xs == prefix + [xs[|xs| - 1]];
    }
  }

  /** A successful start-up registers each address-bearing id once, in the
      order in which such ids first appear among the records. */
  lemma {:induction false} LoadOrder(records: seq<DeviceRecord>, parse: string -> Option<real>)
    requires Load(records, parse).Success?
    ensures Ids(Load(records, parse).value) == FirstOccurrences(ListedIds(records))
    decreases |records|
  {
    if records != [] {
      var n := |records|;
      var prefix := records[..n - 1];
      var rec := records[n - 1];
      LoadOrder(prefix, parse);
      var reg0 := Load(prefix, parse).value;
      if rec.id.Present? && Listed(rec) {
        var dev := DeviceConfig(rec.id.value, rec.ip.value.value, rec.key.value, VersionOf(rec.version, parse));
        PutIds(reg0, dev);
        var xs := ListedIds(records);
        assert xs == ListedIds(prefix) + [rec.id.value];
        assert xs[..|xs| - 1] == ListedIds(prefix);
      } else {
        assert ListedIds(records) == ListedIds(prefix) + [];
        assert ListedIds(prefix) + [] == ListedIds(prefix);
      }
    }
  }

  /** A successful start-up registers each id at most once. */
  lemma LoadIdsDistinct(records: seq<DeviceRecord>, parse: string -> Option<real>)
    requires Load(records, parse).Success?
    ensures IdsDistinct(Load(records, parse).value)
  {
    var reg := Load(records, parse).value;
    LoadOrder(records, parse);
    FirstOccurrencesDistinct(ListedIds(records));
    forall i, j | 0 <= i < j < |reg| ensures reg[i].id != reg[j].id {
      assert Ids(reg)[i] == reg[i].id && Ids(reg)[j] == reg[j].id;
    }
  }

  lemma {:induction false} ListedIdsMembers(records: seq<DeviceRecord>, id: DeviceId)
    ensures id in ListedIds(records) <==> exists i :: 0 <= i < |records| && records[i].id == Present(id) && Listed(records[i])
    decreases |records|
  {
    if records != [] {
      var n := |records|;
      var prefix := records[..n - 1];
      ListedIdsMembers(prefix, id);
      if exists i :: 0 <= i < n && records[i].id == Present(id) && Listed(records[i]) {
        var i :| 0 <= i < n && records[i].id == Present(id) && Listed(records[i]);
        if i < n - 1 {
          assert prefix[i] == records[i];
        }
      }
      if exists i :: 0 <= i < n - 1 && prefix[i].id == Present(id) && Listed(prefix[i]) {
        var i :| 0 <= i < n - 1 && prefix[i].id == Present(id) && Listed(prefix[i]);
        assert records[i] == prefix[i];
      }
    }
  }

  /** A device id is registered exactly when some record carries it together
      with a non-empty address: an address-less record is skipped. */
  lemma {:induction false} LoadMembership(records: seq<DeviceRecord>, parse: string -> Option<real>, id: DeviceId)
    requires Load(records, parse).Success?
    ensures Get(Load(records, parse).value, id).Some? <==>
      exists i :: 0 <= i < |records| && records[i].id == Present(id) && Listed(records[i])
  {
    var reg := Load(records, parse).value;
    GetIds(reg, id);
    LoadOrder(records, parse);
    FirstOccurrencesDistinct(ListedIds(records));
    ListedIdsMembers(records, id);
  }

  /** The entry of a registered id comes from the LAST record with that id
      and an address: its address, its key as the local key, and the parsed
      version, or 3.3 when the version is missing, empty or unreadable. */
  lemma {:induction false} LoadLastWins(records: seq<DeviceRecord>, parse: string -> Option<real>, k: nat)
    requires Load(records, parse).Success?
    requires k < |records| && records[k].id.Present? && Listed(records[k])
    requires forall j :: k < j < |records| && records[j].id == records[k].id ==> !Listed(records[j])
    ensures records[k].key.Present?
    ensures
      var rec := records[k];
      var v := rec.version;
      Get(Load(records, parse).value, rec.id.value) ==
        Some(DeviceConfig(rec.id.value, rec.ip.value.value, rec.key.value,
          if v.Present? && v.value.Some? && v.value.value != "" && parse(v.value.value).Some?
          then parse(v.value.value).value else DefaultVersion))
    decreases |records|
  {
    var n := |records|;
    var prefix := records[..n - 1];
    var rec := records[n - 1];
    var id := records[k].id.value;
    assert Load(prefix, parse).Success?;
    var reg0 := Load(prefix, parse).value;
    if k == n - 1 {
      assert !Faulty(rec);
      GetPut(reg0, DeviceConfig(id, rec.ip.value.value, rec.key.value, VersionOf(rec.version, parse)), id);
    } else {
      assert prefix[k] == records[k];
      LoadLastWins(prefix, parse, k);
      if !Faulty(rec) && Listed(rec) {
        GetPut(reg0, DeviceConfig(rec.id.value, rec.ip.value.value, rec.key.value, VersionOf(rec.version, parse)), id);
      }
    }
  }

  /** Examples: a record whose `id` is null and which has no address is
      skipped like any address-less record, and a null `key` is handed on as
      `None`; neither stops the start-up. Only a missing field does. */
  lemma NullFieldsExample(parse: string -> Option<real>)
    ensures Load([DeviceRecord(Present(None), Missing, Missing, Missing)], parse) == Success([])
    ensures Load([DeviceRecord(Present(Some("a")), Present(Some("x")), Present(None), Missing)], parse)
      == Success([DeviceConfig(Some("a"), "x", None, DefaultVersion)])
    ensures Load([DeviceRecord(Missing, Present(Some("x")), Present(Some("k")), Missing)], parse)
      == Failure(MissingId(0))
  {
    var r1 := [DeviceRecord(Present(None), Missing, Missing, Missing)];
    var r2 := [DeviceRecord(Present(Some("a")), Present(Some("x")), Present(None), Missing)];
    var r3 := [DeviceRecord(Missing, Present(Some("x")), Present(Some("k")), Missing)];
    assert r1[..0] == [] && r2[..0] == [] && r3[..0] == [];
  }
}
