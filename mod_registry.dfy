// The bundle registry of src/core/mod.py: an ordered list of `ModInfo` records kept in a
// JSON file. The file is a field of the manager; reading and writing it are assignments.
module ModRegistry {
  import opened Common
  import opened IsoDate
  import opened Models

  /** What the mods file holds. `Unreadable` is a file `json.load` or `ModInfo(**d)` rejects. */
  datatype ModsFile =
    | Absent
    | Unreadable
    | Saved(records: seq<ModRecord>)

  /** A record whose date `isoformat` can write: every `datetime` object is a valid one. */
  predicate Writable(m: ModRecord)
  {
    m.installedDate.Dated? ==> Valid(m.installedDate.date)
  }

  predicate AllWritable(ms: seq<ModRecord>)
  {
    forall k :: 0 <= k < |ms| ==> Writable(ms[k])
  }

  /** A record as a load leaves it: a valid `datetime`, or the falsy string that is kept as it is. */
  predicate Settled(m: ModRecord)
  {
    Writable(m) && (m.installedDate.Text? ==> m.installedDate.text == "")
  }

  // ----- Reading and writing one record -----

  /** One entry of the file made into a record: a non-empty date string is parsed, and `now` replaces one that does not parse. */
  function LoadOne(r: ModRecord, now: DateTime): (m: ModRecord)
    requires Valid(now)
    ensures m.name == r.name && m.files == r.files && m.metadata == r.metadata
    ensures m.sourceUrl == r.sourceUrl && m.version == r.version
    ensures r.installedDate.Text? ==> Settled(m)
    ensures r.installedDate.Text? && r.installedDate.text != "" && FromIsoFormat(r.installedDate.text).Some? ==>
              m.installedDate == Dated(FromIsoFormat(r.installedDate.text).value)
    ensures r.installedDate.Text? && r.installedDate.text != "" && FromIsoFormat(r.installedDate.text).None? ==>
              m.installedDate == Dated(now)
  {
    match r.installedDate
    case Text(s) =>
      if s != "" then
        match FromIsoFormat(s)
        case Some(d) => r.(installedDate := Dated(d))
        case None => r.(installedDate := Dated(now))
      else r
    case Dated(_) => r
  }

  /** One record as `_save_mods` writes it: a `datetime` becomes its `isoformat` text. */
  function SaveOne(m: ModRecord): (r: ModRecord)
    requires Writable(m)
    ensures r.name == m.name && r.files == m.files && r.metadata == m.metadata
    ensures r.sourceUrl == m.sourceUrl && r.version == m.version
    ensures r.installedDate.Text?
  {
    match m.installedDate
    case Dated(d) => m.(installedDate := Text(IsoFormat(d)))
    case Text(_) => m
  }

  /** A settled record survives being written and read back. */
  lemma {:induction false} LoadSaveOne(m: ModRecord, now: DateTime)
    requires Valid(now) && Settled(m)
    ensures LoadOne(SaveOne(m), now) == m
  {
    match m.installedDate
    case Dated(d) =>
      IsoRoundTrip(d);
      assert |IsoFormat(d)| >= 19;
    case Text(s) =>
  }

  // ----- The whole list -----

  /** The loop of `get_all_mods` over the entries of the file. */
  function LoadAll(rs: seq<ModRecord>, now: DateTime): (ms: seq<ModRecord>)
    requires Valid(now)
    ensures |ms| == |rs|
    ensures forall k :: 0 <= k < |rs| ==> ms[k] == LoadOne(rs[k], now)
    decreases |rs|
  {
    if rs == [] then [] else [LoadOne(rs[0], now)] + LoadAll(rs[1..], now)
  }

  /** The list of dictionaries `_save_mods` dumps. */
  function SaveAll(ms: seq<ModRecord>): (rs: seq<ModRecord>)
    requires AllWritable(ms)
    ensures |rs| == |ms|
    ensures forall k :: 0 <= k < |ms| ==> rs[k] == SaveOne(ms[k])
    decreases |ms|
  {
    if ms == [] then [] else [SaveOne(ms[0])] + SaveAll(ms[1..])
  }

  /** `get_all_mods` once the path is set: nothing for a missing or unreadable file. */
  function Loaded(f: ModsFile, now: DateTime): (ms: seq<ModRecord>)
    requires Valid(now)
    ensures f.Saved? ==> ms == LoadAll(f.records, now)
    ensures !f.Saved? ==> ms == []
  {
    match f
    case Saved(rs) => LoadAll(rs, now)
    case _ => []
  }

  predicate AllSettled(ms: seq<ModRecord>)
  {
    AllWritable(ms) && forall k :: 0 <= k < |ms| ==> Settled(ms[k])
  }

  /** Writing settled records and reading them back gives them back, in order. */
  lemma {:induction false} LoadSaveAll(ms: seq<ModRecord>, now: DateTime)
    requires Valid(now) && AllSettled(ms)
    ensures LoadAll(SaveAll(ms), now) == ms
  {
    var rs := SaveAll(ms);
    var back := LoadAll(rs, now);
    forall k | 0 <= k < |ms| ensures back[k] == ms[k] {
      LoadSaveOne(ms[k], now);
    }
  }

  lemma {:induction false} SettledWritable(ms: seq<ModRecord>)
    requires forall k :: 0 <= k < |ms| ==> Settled(ms[k])
    ensures AllWritable(ms)
  {
  }

  /** Removing records keeps the rest writable. */
  lemma {:induction false} RemoveWritable(ms: seq<ModRecord>, name: string)
    requires AllWritable(ms)
    ensures AllWritable(RemoveNamed(ms, name))
  {
    var r := RemoveNamed(ms, name);
    RemoveNamedSpec(ms, name);
    forall k | 0 <= k < |r| ensures Writable(r[k]) {
      var j :| 0 <= j < |ms| && ms[j] == r[k];
    }
  }

  /** What a load returns is settled, so it can be written again and read back unchanged. */
  lemma {:induction false} LoadedSettled(f: ModsFile, now: DateTime)
    requires Valid(now)
    requires f.Saved? ==> forall k :: 0 <= k < |f.records| ==> f.records[k].installedDate.Text?
    ensures forall k :: 0 <= k < |Loaded(f, now)| ==> Settled(Loaded(f, now)[k])
  {
  }

  // ----- Lookups and updates by name -----

  /** The first record with exactly that name. */
  function FindByName(ms: seq<ModRecord>, name: string): (r: Option<ModRecord>)
    ensures r.Some? ==> r.value in ms && r.value.name == name
    ensures r.None? <==> forall k :: 0 <= k < |ms| ==> ms[k].name != name
    decreases |ms|
  {
    if ms == [] then None
    else if ms[0].name == name then Some(ms[0])
    else FindByName(ms[1..], name)
  }

  /** The for/else of `save_mod_info`: the first record with the same name is replaced, or the record is appended. */
  function Upsert(ms: seq<ModRecord>, m: ModRecord): (r: seq<ModRecord>)
    decreases |ms|
  {
    if ms == [] then [m]
    else if ms[0].name == m.name then [m] + ms[1..]
    else [ms[0]] + Upsert(ms[1..], m)
  }

  /** `[mod for mod in mods if mod.name != name]`. */
  function RemoveNamed(ms: seq<ModRecord>, name: string): (r: seq<ModRecord>)
    ensures |r| <= |ms|
    decreases |ms|
  {
    if ms == [] then []
    else if ms[0].name == name then RemoveNamed(ms[1..], name)
    else [ms[0]] + RemoveNamed(ms[1..], name)
  }

  /** Every record the filter keeps is one of the records given, and none has that name. */
  lemma {:induction false} RemoveNamedSpec(ms: seq<ModRecord>, name: string)
    ensures forall k :: 0 <= k < |RemoveNamed(ms, name)| ==>
              RemoveNamed(ms, name)[k].name != name && RemoveNamed(ms, name)[k] in ms
    decreases |ms|
  {
    if ms != [] {
      RemoveNamedSpec(ms[1..], name);
      var rest := RemoveNamed(ms[1..], name);
      forall k | 0 <= k < |rest| ensures rest[k] in ms {
        assert rest[k] in ms[1..];
      }
    }
  }

  /** The index of the first record named `name`, or `|ms|` when there is none. */
  function IndexOf(ms: seq<ModRecord>, name: string): (i: nat)
    ensures i <= |ms| && (i < |ms| ==> ms[i].name == name)
    ensures forall k :: 0 <= k < i ==> ms[k].name != name
    decreases |ms|
  {
    if ms == [] then 0
    else if ms[0].name == name then 0
    else 1 + IndexOf(ms[1..], name)
  }

  /** The upsert replaces the first record of that name in place, or appends when there is none. */
  lemma {:induction false} UpsertShape(ms: seq<ModRecord>, m: ModRecord)
    ensures IndexOf(ms, m.name) < |ms| ==> Upsert(ms, m) == ms[IndexOf(ms, m.name) := m]
    ensures IndexOf(ms, m.name) == |ms| ==> Upsert(ms, m) == ms + [m]
    decreases |ms|
  {
    if ms != [] && ms[0].name != m.name {
      UpsertShape(ms[1..], m);
      var i := IndexOf(ms[1..], m.name);
      if i < |ms| - 1 {
        assert [ms[0]] + ms[1..][i := m] == ms[i + 1 := m];
      } else {
        assert [ms[0]] + (ms[1..] + [m]) == ms + [m];
      }
    } else if ms != [] {
      assert [m] + ms[1..] == ms[0 := m];
    }
  }

  /** After the upsert, looking the record's name up finds the record. */
  lemma {:induction false} UpsertFinds(ms: seq<ModRecord>, m: ModRecord)
    ensures FindByName(Upsert(ms, m), m.name) == Some(m)
    decreases |ms|
  {
    if ms != [] && ms[0].name != m.name {
      UpsertFinds(ms[1..], m);
      assert (Upsert(ms, m))[1..] == Upsert(ms[1..], m);
    }
  }

  /** The upsert changes no lookup of another name. */
  lemma {:induction false} UpsertOthers(ms: seq<ModRecord>, m: ModRecord, name: string)
    requires name != m.name
    ensures FindByName(Upsert(ms, m), name) == FindByName(ms, name)
    decreases |ms|
  {
    if ms == [] {
      assert FindByName([m][1..], name) == None;
    } else if ms[0].name == m.name {
      assert (Upsert(ms, m))[1..] == ms[1..];
    } else if ms[0].name != name {
      UpsertOthers(ms[1..], m, name);
      assert (Upsert(ms, m))[1..] == Upsert(ms[1..], m);
    }
  }

  /** The filter works record by record, so it keeps the other records in their order. */
  lemma {:induction false} RemoveNamedConcat(a: seq<ModRecord>, b: seq<ModRecord>, name: string)
    ensures RemoveNamed(a + b, name) == RemoveNamed(a, name) + RemoveNamed(b, name)
    decreases |a|
  {
    if a == [] {
      assert a + b == b;
    } else {
      var ab := a + b;
      assert ab[0] == a[0];
      assert ab[1..] == a[1..] + b;
      RemoveNamedConcat(a[1..], b, name);
    }
  }

  /** The filter keeps exactly the records not named `name`. */
  lemma {:induction false} RemoveNamedMembers(ms: seq<ModRecord>, name: string)
    ensures forall m :: m in RemoveNamed(ms, name) <==> m in ms && m.name != name
    decreases |ms|
  {
    if ms != [] {
      RemoveNamedMembers(ms[1..], name);
      assert ms == [ms[0]] + ms[1..];
    }
  }

  lemma {:induction false} RemoveNamedOne(x: ModRecord, name: string)
    ensures RemoveNamed([x], name) == if x.name == name then [] else [x]
  {
    assert [x][1..] == [];
  }

  /** After removal no record of that name is found, and every other name is found as before. */
  lemma {:induction false} RemoveNamedFind(ms: seq<ModRecord>, name: string, other: string)
    ensures FindByName(RemoveNamed(ms, name), name) == None
    ensures other != name ==> FindByName(RemoveNamed(ms, name), other) == FindByName(ms, other)
    decreases |ms|
  {
    if ms != [] {
      RemoveNamedFind(ms[1..], name, other);
      if ms[0].name != name {
        assert ([ms[0]] + RemoveNamed(ms[1..], name))[1..] == RemoveNamed(ms[1..], name);
      }
    }
  }

  /** Loading keeps names, so a lookup in the loaded list is the loaded form of the stored lookup. */
  lemma {:induction false} FindLoaded(rs: seq<ModRecord>, name: string, now: DateTime)
    requires Valid(now)
    ensures FindByName(LoadAll(rs, now), name) == if FindByName(rs, name).Some? then Some(LoadOne(FindByName(rs, name).value, now)) else None
    decreases |rs|
  {
    if rs != [] {
      var ms := LoadAll(rs, now);
      assert ms[0] == LoadOne(rs[0], now);
      assert ms[1..] == LoadAll(rs[1..], now);
      FindLoaded(rs[1..], name, now);
    }
  }

  /** Saving keeps names, so a lookup in the saved list is the saved form of the lookup. */
  lemma {:induction false} FindSaved(ms: seq<ModRecord>, name: string)
    requires AllWritable(ms)
    ensures FindByName(SaveAll(ms), name) == if FindByName(ms, name).Some? then Some(SaveOne(FindByName(ms, name).value)) else None
    decreases |ms|
  {
    if ms != [] {
      var rs := SaveAll(ms);
      assert rs[0] == SaveOne(ms[0]);
      assert rs[1..] == SaveAll(ms[1..]);
      FindSaved(ms[1..], name);
    }
  }

  /** The for/else loop of `save_mod_info`: overwrite the first record of that name, else append. */
  method UpsertRecord(ms: seq<ModRecord>, m: ModRecord) returns (r: seq<ModRecord>)
    ensures r == Upsert(ms, m)
  {
    r := ms;
    var i := 0;
    var found := false;
    while i < |r|
      invariant i <= |r| && IndexOf(ms, m.name) >= i
      invariant r == ms
    {
      if r[i].name == m.name {
        r := r[i := m];
        found := true;
        break;
      }
      i := i + 1;
    }
    UpsertShape(ms, m);
    if !found {
      r := r + [m];
    }
  }

  lemma {:induction false} UpsertWritable(ms: seq<ModRecord>, m: ModRecord)
    requires AllWritable(ms) && Writable(m)
    ensures AllWritable(Upsert(ms, m))
  {
    UpsertShape(ms, m);
  }

  /** `save_mod_info(m)` followed by `get_mod_info(m.name)` gives `m` back (for a settled `m`). */
  lemma {:induction false} SaveThenGet(ms: seq<ModRecord>, m: ModRecord, now: DateTime)
    requires Valid(now) && AllWritable(ms) && Settled(m)
    ensures AllWritable(Upsert(ms, m))
    ensures FindByName(LoadAll(SaveAll(Upsert(ms, m)), now), m.name) == Some(m)
  {
    UpsertWritable(ms, m);
    var u := Upsert(ms, m);
    UpsertFinds(ms, m);
    FindSaved(u, m.name);
    FindLoaded(SaveAll(u), m.name, now);
    LoadSaveOne(m, now);
  }

  /** `not self.mods_file`: no path, or the empty one. */
  predicate Unset(path: Option<string>)
  {
    path.None? || path.value == ""
  }

  function NotSet<T>(): (r: Result<T>)
    ensures r.Err? && r.error.kind == FileOperationError
  {
    Fail(FileOperationError, "Mods file path not set")
  }

  class ModManager {
    var modsFile: Option<string>
    var disk: ModsFile

    /** A manager with no path set, over a mods file with the given content. */
    constructor (disk: ModsFile)
      ensures modsFile == None && this.disk == disk
    {
      modsFile := None;
      this.disk := disk;
    }

    method SetModsFile(path: string)
      modifies this
      ensures modsFile == Some(path) && disk == old(disk)
    {
      modsFile := Some(path);
    }

    /** `get_all_mods`; `now` is the value of `datetime.now()` a bad date string falls back to. */
    method GetAllMods(now: DateTime) returns (r: Result<seq<ModRecord>>)
      requires Valid(now)
      ensures Unset(modsFile) ==> r == NotSet()
      ensures !Unset(modsFile) ==> r == Ok(Loaded(disk, now))
    {
      if Unset(modsFile) {
        return NotSet();
      }
      if !disk.Saved? {
        return Ok([]);
      }
      var data := disk.records;
      var mods: seq<ModRecord> := [];
      var i := 0;
      while i < |data|
        invariant i <= |data| && |mods| == i
        invariant forall k :: 0 <= k < i ==> mods[k] == LoadOne(data[k], now)
      {
        mods := mods + [LoadOne(data[i], now)];
        i := i + 1;
      }
      assert mods == LoadAll(data, now);
      return Ok(mods);
    }

    /** `get_mod_info`: the first record with exactly that name. */
    method GetModInfo(name: string, now: DateTime) returns (r: Result<Option<ModRecord>>)
      requires Valid(now)
      ensures Unset(modsFile) ==> r == NotSet()
      ensures !Unset(modsFile) ==> r == Ok(FindByName(Loaded(disk, now), name))
    {
      var all := GetAllMods(now);
      if all.Err? {
        return Err(all.error);
      }
      var mods := all.value;
      var i := 0;
      while i < |mods|
        invariant i <= |mods|
        invariant FindByName(mods, name) == FindByName(mods[i..], name)
      {
        if mods[i].name == name {
          return Ok(Some(mods[i]));
        }
        assert mods[i..][1..] == mods[i + 1..];
        i := i + 1;
      }
      return Ok(None);
    }

    /** `save_mod_info`: the registry as read, with `m` upserted, written back. */
    method SaveModInfo(m: ModRecord, now: DateTime) returns (r: Result<bool>)
      requires Valid(now) && Writable(m)
      requires disk.Saved? ==> forall k :: 0 <= k < |disk.records| ==> disk.records[k].installedDate.Text?
      modifies this
      ensures Unset(old(modsFile)) ==> r == NotSet() && disk == old(disk)
      ensures !Unset(old(modsFile)) ==>
                r == Ok(true) && AllWritable(Upsert(Loaded(old(disk), now), m))
                && disk == Saved(SaveAll(Upsert(Loaded(old(disk), now), m)))
      ensures modsFile == old(modsFile)
    {
      var all := GetAllMods(now);
      if all.Err? {
        return Err(all.error);
      }
      LoadedSettled(disk, now);
      SettledWritable(all.value);
      var mods := UpsertRecord(all.value, m);
      UpsertWritable(all.value, m);
      r := SaveMods(mods);
    }

    /** `remove_mod`: every record of that name is dropped and the rest written back. */
    method RemoveMod(name: string, now: DateTime) returns (r: Result<bool>)
      requires Valid(now)
      requires disk.Saved? ==> forall k :: 0 <= k < |disk.records| ==> disk.records[k].installedDate.Text?
      modifies this
      ensures Unset(old(modsFile)) ==> r == NotSet() && disk == old(disk)
      ensures !Unset(old(modsFile)) ==>
                r == Ok(true) && AllWritable(RemoveNamed(Loaded(old(disk), now), name))
                && disk == Saved(SaveAll(RemoveNamed(Loaded(old(disk), now), name)))
      ensures modsFile == old(modsFile)
    {
      var all := GetAllMods(now);
      if all.Err? {
        return Err(all.error);
      }
      LoadedSettled(disk, now);
      SettledWritable(all.value);
      RemoveWritable(all.value, name);
      var mods := RemoveNamed(all.value, name);
      r := SaveMods(mods);
    }

    /** `_save_mods`: each record's date is written with `isoformat`. Write errors are not modelled. */
    method SaveMods(mods: seq<ModRecord>) returns (r: Result<bool>)
      requires AllWritable(mods)
      modifies this
      ensures r == Ok(true) && disk == Saved(SaveAll(mods)) && modsFile == old(modsFile)
    {
      var dicts: seq<ModRecord> := [];
      var i := 0;
      while i < |mods|
        invariant i <= |mods| && |dicts| == i
        invariant forall k :: 0 <= k < i ==> dicts[k] == SaveOne(mods[k])
      {
        dicts := dicts + [SaveOne(mods[i])];
        i := i + 1;
      }
      disk := Saved(dicts);
      return Ok(true);
    }
  }
}
