/** The peer-to-peer replication manager: which remote datasets are
    missing locally, which local ones have been withdrawn, which of those
    are forgotten, the name a superseded dataset is renamed to, the
    supersede rule applied while ingesting, the rule for leaving an old file
    row alone, the keying of catalog files by checksum and the `-f
    facet=value` option. Search results and database rows are inputs. */
module P2pManager {
  import opened Wrappers
  import opened PyStr
  import RM = ReplicaManager

  /** A dataset as `(name, version)`. */
  type NameVersion = (Str, int)

  // ---------------------------------------------------------------------
  // find_missing
  // ---------------------------------------------------------------------

  /** `find_missing`: the remote datasets not already in the database. */
  function FindMissing(remote: set<NameVersion>, db: seq<NameVersion>): (r: set<NameVersion>)
    ensures forall d :: d in r <==> d in remote && forall i :: 0 <= i < |db| ==> db[i] != d
  {
    remote - set i | 0 <= i < |db| :: db[i]
  }

  // ---------------------------------------------------------------------
  // find_withdrawn
  // ---------------------------------------------------------------------

  /** A search value: one text, or a list as in the basic search. */
  datatype SearchValue = Text(s: Str) | Many(items: seq<Str>)

  /** The facet positions of `drsdict`. */
  function DrsIndex(key: Str): Option<nat> {
    if key == "project" then Some(0)
    else if key == "product" then Some(1)
    else if key == "institute" then Some(2)
    else if key == "model" then Some(3)
    else if key == "experiment" then Some(4)
    else if key == "time_frequency" then Some(5)
    else if key == "realm" then Some(6)
    else if key == "cmor_table" then Some(7)
    else if key == "ensemble" then Some(8)
    else None
  }

  /** The value compared: the project is lowercased, which a list cannot
      be. */
  function SearchedValue(key: Str, v: SearchValue): Result<SearchValue, PyError> {
    if key == "project" then
      match v
      case Text(s) => Success(Text(Lower(s)))
      case Many(_) => Failure(AttributeError)
    else Success(v)
  }

  /** `pp[kk] == search[k]` with `len(pp) >= 8` tested first, as written:
      index 8 of a name with exactly eight components raises. */
  function FacetMatchesAsWritten(name: Str, kk: nat, v: SearchValue): Result<bool, PyError> {
    var pp := Split(name, ".");
    if |pp| < 8 then Success(false)
    else if kk >= |pp| then Failure(IndexError)
    else Success(v == Text(pp[kk]))
  }

  /** The comparison with the length test the index needs. */
  function FacetMatches(name: Str, kk: nat, v: SearchValue): (r: Result<bool, PyError>)
    ensures r.Success?
    ensures r.value <==> kk < |Split(name, ".")| && |Split(name, ".")| >= 8 && v == Text(Split(name, ".")[kk])
  {
    var pp := Split(name, ".");
    Success(|pp| >= 8 && kk < |pp| && v == Text(pp[kk]))
  }

  /** The comprehension over the database rows for one search key. */
  function FilterRows(db: seq<NameVersion>, kk: nat, v: SearchValue, asWritten: bool): (r: Result<seq<NameVersion>, PyError>)
    ensures !asWritten ==> r.Success? && forall d :: d in r.value <==> d in db && FacetMatches(d.0, kk, v).value
    decreases |db|
  {
    if |db| == 0 then Success([])
    else
      var keep :- if asWritten then FacetMatchesAsWritten(db[0].0, kk, v) else FacetMatches(db[0].0, kk, v);
      var rest :- FilterRows(db[1..], kk, v, asWritten);
      assert forall d :: d in db <==> d == db[0] || d in db[1..];
      Success(if keep then [db[0]] + rest else rest)
  }

  /** Whether a row passes every key of the search, in `search.keys()`
      order. */
  predicate MatchesSearch(name: Str, search: seq<(Str, SearchValue)>) {
    forall i :: 0 <= i < |search| ==>
      DrsIndex(search[i].0).Some? && SearchedValue(search[i].0, search[i].1).Success? &&
      FacetMatches(name, DrsIndex(search[i].0).value, SearchedValue(search[i].0, search[i].1).value).value
  }

  /** The filter loop of `find_withdrawn`; an unknown key is a KeyError. */
  function FilterBySearch(db: seq<NameVersion>, search: seq<(Str, SearchValue)>, asWritten: bool): (r: Result<seq<NameVersion>, PyError>)
    decreases |search|
  {
    if |search| == 0 then Success(db)
    else
      var (k, v0) := search[0];
      var v :- SearchedValue(k, v0);
      var kk :- match DrsIndex(k) case None => Failure(KeyError) case Some(kk) => Success(kk);
      var db' :- FilterRows(db, kk, v, asWritten);
      FilterBySearch(db', search[1..], asWritten)
  }

  /** When no row matches, the comprehension is empty. */
  lemma FilterRowsNone(db: seq<NameVersion>, kk: nat, v: SearchValue)
    requires forall i :: 0 <= i < |db| ==> !FacetMatches(db[i].0, kk, v).value
    ensures FilterRows(db, kk, v, false) == Success([])
    decreases |db|
  {
    if |db| > 0 {
      FilterRowsNone(db[1..], kk, v);
    }
  }

  /** With the corrected comparison the filter keeps exactly the rows that
      match every key. */
  lemma {:induction false} FilterBySearchKeeps(db: seq<NameVersion>, search: seq<(Str, SearchValue)>)
    requires FilterBySearch(db, search, false).Success?
    ensures forall d :: d in FilterBySearch(db, search, false).value <==> d in db && MatchesSearch(d.0, search)
    decreases |search|
  {
    if |search| > 0 {
      var (k, v0) := search[0];
      var v := SearchedValue(k, v0).value;
      var kk := DrsIndex(k).value;
      var db' := FilterRows(db, kk, v, false).value;
      FilterBySearchKeeps(db', search[1..]);
      forall d: NameVersion
        ensures MatchesSearch(d.0, search) <==>
                  FacetMatches(d.0, kk, v).value && MatchesSearch(d.0, search[1..])
      {
        if MatchesSearch(d.0, search) {
          forall i | 0 <= i < |search[1..]|
            ensures DrsIndex(search[1..][i].0).Some? && SearchedValue(search[1..][i].0, search[1..][i].1).Success? &&
                    FacetMatches(d.0, DrsIndex(search[1..][i].0).value,
                                 SearchedValue(search[1..][i].0, search[1..][i].1).value).value
          {
            assert search[1..][i] == search[i + 1];
          }
          assert search[0] == (k, v0);
        }
        if FacetMatches(d.0, kk, v).value && MatchesSearch(d.0, search[1..]) {
          forall i | 0 <= i < |search|
            ensures DrsIndex(search[i].0).Some? && SearchedValue(search[i].0, search[i].1).Success? &&
                    FacetMatches(d.0, DrsIndex(search[i].0).value, SearchedValue(search[i].0, search[i].1).value).value
          {
            if i > 0 {
              assert search[i] == search[1..][i - 1];
            }
          }
        }
      }
    }
  }

  /** `find_withdrawn`: empty when both the given and the basic search
      found nothing, else the filtered database rows not found now. */
  function FindWithdrawn(knownNow: set<NameVersion>, knownBasic: set<NameVersion>, db: seq<NameVersion>,
                         search: seq<(Str, SearchValue)>): (r: Result<set<NameVersion>, PyError>)
    ensures |knownNow| == 0 && |knownBasic| == 0 ==> r == Success({})
    ensures r.Success? ==> r.value !! knownNow
  {
    if |knownNow| < 1 && |knownBasic| < 1 then Success({})
    else
      var rows :- FilterBySearch(db, search, false);
      Success((set d | d in rows) - knownNow)
  }

  /** `find_withdrawn` with the written comparison. */
  function FindWithdrawnAsWritten(knownNow: set<NameVersion>, knownBasic: set<NameVersion>, db: seq<NameVersion>,
                                  search: seq<(Str, SearchValue)>): Result<set<NameVersion>, PyError>
  {
    if |knownNow| < 1 && |knownBasic| < 1 then Success({})
    else
      var rows :- FilterBySearch(db, search, true);
      Success((set d | d in rows) - knownNow)
  }

  /** A withdrawn dataset is exactly a database row matching every search
      key that the current search did not find. */
  lemma FindWithdrawnExactly(knownNow: set<NameVersion>, knownBasic: set<NameVersion>, db: seq<NameVersion>,
                             search: seq<(Str, SearchValue)>)
    requires |knownNow| > 0
    requires FindWithdrawn(knownNow, knownBasic, db, search).Success?
    ensures forall d :: d in FindWithdrawn(knownNow, knownBasic, db, search).value <==>
                          d in db && MatchesSearch(d.0, search) && d !in knownNow
  {
    FilterBySearchKeeps(db, search);
  }

  /** A list-valued search value never equals a name component, so the
      basic search (whose values are lists) withdraws nothing. */
  lemma ListSearchWithdrawsNothing(knownNow: set<NameVersion>, db: seq<NameVersion>, key: Str, items: seq<Str>)
    requires |knownNow| > 0 && DrsIndex(key).Some? && key != "project"
    ensures FindWithdrawn(knownNow, {}, db, [(key, Many(items))]) == Success({})
  {
    var search := [(key, Many(items))];
    var kk := DrsIndex(key).value;
    var rows := FilterRows(db, kk, Many(items), false).value;
    assert search[1..] == [];
    assert FilterBySearch(db, search, false) == Success(rows);
    FilterRowsNone(db, kk, Many(items));
    var empty: set<NameVersion> := {};
    var none: seq<NameVersion> := [];
    assert (set d | d in none) == empty;
    assert FilterBySearch(db, search, false) == Success(none);
    assert FindWithdrawn(knownNow, {}, db, search) == Success(empty - knownNow);
    assert empty - knownNow == empty;
  }

  /** A name with eight components and a search on the ensemble (index 8)
      raise IndexError as written; with the corrected test the row simply
      does not match. */
  lemma EightComponentsAsWritten(knownNow: set<NameVersion>, parts: seq<Str>, version: int, ens: Str)
    requires |knownNow| > 0 && |parts| == 8
    requires forall k :: 0 <= k < 8 ==> '.' !in parts[k]
    ensures FindWithdrawnAsWritten(knownNow, {}, [(Join(parts, "."), version)], [("ensemble", Text(ens))]) == Failure(IndexError)
    ensures FindWithdrawn(knownNow, {}, [(Join(parts, "."), version)], [("ensemble", Text(ens))]) == Success({})
  {
    var name := Join(parts, ".");
    SplitJoinChar(parts, '.');
    assert |Split(name, ".")| == 8;
    var search := [("ensemble", Text(ens))];
    assert DrsIndex("ensemble") == Some(8);
    assert SearchedValue("ensemble", Text(ens)) == Success(Text(ens));
    assert FacetMatchesAsWritten(name, 8, Text(ens)) == Failure(IndexError);
    assert FilterRows([(name, version)], 8, Text(ens), true) == Failure(IndexError);
    assert FilterBySearch([(name, version)], search, true) == Failure(IndexError);
    assert !FacetMatches(name, 8, Text(ens)).value;
    FilterRowsNone([(name, version)], 8, Text(ens));
    assert search[1..] == [];
    assert FilterBySearch([(name, version)], search, false) == Success([]);
    var empty: set<NameVersion> := {};
    var none: seq<NameVersion> := [];
    assert (set d | d in none) == empty;
    assert FindWithdrawn(knownNow, {}, [(name, version)], search) == Success(empty - knownNow);
    assert empty - knownNow == empty;
  }

  // ---------------------------------------------------------------------
  // forget_withdrawn
  // ---------------------------------------------------------------------

  /** The statuses `forget_withdrawn` leaves alone: withdrawn, obsolete,
      and anything from VERIFYING up. */
  predicate LeftAlone(status: int) {
    status == RM.WITHDRAWN || status == RM.OBSOLETE || status >= RM.VERIFYING
  }

  /** The rows pushed aside (renamed with status WITHDRAWN). */
  function Forgotten(statuses: seq<int>): (r: seq<nat>)
    ensures forall k :: 0 <= k < |r| ==> r[k] < |statuses| && statuses[r[k]] < RM.VERIFYING
    ensures forall i :: 0 <= i < |statuses| && statuses[i] < RM.VERIFYING ==> i in r
    decreases |statuses|
  {
    if |statuses| == 0 then []
    else
      var rest := Forgotten(statuses[..|statuses| - 1]);
      if LeftAlone(statuses[|statuses| - 1]) then rest else rest + [|statuses| - 1]
  }

  // ---------------------------------------------------------------------
  // push_dataset_aside: the name of the obsolete copy
  // ---------------------------------------------------------------------

  function BaseObsoleteName(version: int, name: Str): Str {
    "old_" + IntToStr(version) + "_" + name
  }

  function SlotName(i: nat, version: int, name: Str): Str {
    "old_" + NatToStr(i) + "_" + IntToStr(version) + "_" + name
  }

  /** The `for i in range(99)` loop from slot `i`: the first free slot, or
      the last slot tried. */
  function SlotSearch(i: nat, version: int, name: Str, taken: set<Str>): (r: nat)
    requires i <= 98
    ensures i <= r <= 98
    ensures forall j :: i <= j < r ==> SlotName(j, version, name) in taken
    ensures r < 98 ==> SlotName(r, version, name) !in taken
    decreases 98 - i
  {
    if SlotName(i, version, name) !in taken || i == 98 then i
    else SlotSearch(i + 1, version, name, taken)
  }

  /** The name as written: raising whenever the loop ended on slot 98,
      even when slot 98 was free. */
  function ObsoleteNameAsWritten(version: int, name: Str, taken: set<Str>): Result<Str, PyError> {
    var base := BaseObsoleteName(version, name);
    if base !in taken then Success(base)
    else
      var i := SlotSearch(0, version, name, taken);
      if i >= 98 then Failure(GenericException("Can't build a name for obsolete version of dataset"))
      else Success(SlotName(i, version, name))
  }

  /** The name as intended: the base name, else the first free slot, and
      an exception only when all 99 slots are taken. */
  function ObsoleteName(version: int, name: Str, taken: set<Str>): (r: Result<Str, PyError>)
    ensures r.Success? ==> r.value !in taken
    ensures r.Success? && r.value != BaseObsoleteName(version, name) ==>
              BaseObsoleteName(version, name) in taken &&
              exists i :: 0 <= i <= 98 && r.value == SlotName(i, version, name) &&
                          forall j :: 0 <= j < i ==> SlotName(j, version, name) in taken
    ensures r.Failure? <==> BaseObsoleteName(version, name) in taken &&
                            forall j :: 0 <= j <= 98 ==> SlotName(j, version, name) in taken
  {
    var base := BaseObsoleteName(version, name);
    if base !in taken then Success(base)
    else
      var i := SlotSearch(0, version, name, taken);
      if SlotName(i, version, name) in taken then
        assert i == 98;
        Failure(GenericException("Can't build a name for obsolete version of dataset"))
      else Success(SlotName(i, version, name))
  }

  /** With the base name and slots 0..97 taken but slot 98 free, the code
      as written raises and the intended rule uses slot 98. */
  lemma SlotNinetyEightAsWritten(version: int, name: Str, taken: set<Str>)
    requires BaseObsoleteName(version, name) in taken
    requires forall j :: 0 <= j < 98 ==> SlotName(j, version, name) in taken
    requires SlotName(98, version, name) !in taken
    ensures ObsoleteNameAsWritten(version, name, taken).Failure?
    ensures ObsoleteName(version, name, taken) == Success(SlotName(98, version, name))
  {
    var i := SlotSearch(0, version, name, taken);
    assert i == 98;
  }

  // ---------------------------------------------------------------------
  // ingest_dataset: the supersede rule
  // ---------------------------------------------------------------------

  /** Python 2 ordering of an int against a version that may be None:
      None is below every int. */
  predicate VersionBelow(stored: int, version: Option<int>) {
    version.Some? && stored < version.value
  }

  /** The stored version is superseded: older than the new one, or a CSIRO
      version inside the window of restarted version numbers. */
  predicate Supersedes(dataset: Str, stored: int, version: Option<int>) {
    VersionBelow(stored, version) || (Find(dataset, "CSIRO") > 0 && 20110100 < stored < 20120701)
  }

  /** A database row of the same dataset name. */
  datatype StoredDataset = StoredDataset(version: int, status: int)

  /** What the loop over the stored rows decided. */
  datatype Ingest = Ingest(rows: seq<StoredDataset>, pushedAside: Option<nat>, getNew: bool)

  /** The loop over the stored rows from row `i` on, with the decision
      so far. */
  function IngestFrom(dataset: Str, version: Option<int>, rows: seq<StoredDataset>, i: nat, getNew: bool): (r: Ingest)
    requires i <= |rows|
    ensures |r.rows| == |rows|
    ensures forall k :: 0 <= k < i ==> r.rows[k] == rows[k]
    ensures r.pushedAside.Some? ==> i <= r.pushedAside.value < |rows|
    decreases |rows| - i
  {
    if i == |rows| then Ingest(rows, None, getNew)
    else if Supersedes(dataset, rows[i].version, version) then Ingest(rows, Some(i), true)
    else if rows[i].status == RM.WITHDRAWN || rows[i].status == RM.UNAVAILABLE then
      IngestFrom(dataset, version, rows[i := rows[i].(status := RM.INIT)], i + 1, false)
    else IngestFrom(dataset, version, rows, i + 1, false)
  }

  /** The supersede rule of `ingest_dataset`. */
  function IngestRows(dataset: Str, version: Option<int>, rows: seq<StoredDataset>): Ingest {
    IngestFrom(dataset, version, rows, 0, true)
  }

  /** The first superseded row is pushed aside and the new version is
      fetched; the rows before it that were withdrawn or unavailable go back
      to INIT, and nothing else changes. Without a superseded row the new
      version is fetched only when there was no row at all. */
  lemma IngestFromSpec(dataset: Str, version: Option<int>, rows: seq<StoredDataset>, i: nat, getNew: bool)
    requires i <= |rows|
    ensures var r := IngestFrom(dataset, version, rows, i, getNew);
            (r.pushedAside.Some? ==>
               i <= r.pushedAside.value < |rows| && Supersedes(dataset, rows[r.pushedAside.value].version, version) &&
               forall k :: i <= k < r.pushedAside.value ==> !Supersedes(dataset, rows[k].version, version)) &&
            (r.pushedAside.None? ==> forall k :: i <= k < |rows| ==> !Supersedes(dataset, rows[k].version, version)) &&
            (r.getNew <==> r.pushedAside.Some? || (i == |rows| && getNew)) &&
            (forall k :: 0 <= k < |rows| ==> r.rows[k].version == rows[k].version) &&
            (forall k :: 0 <= k < |rows| ==>
               r.rows[k].status == (if i <= k && (r.pushedAside.None? || k < r.pushedAside.value) &&
                                       (rows[k].status == RM.WITHDRAWN || rows[k].status == RM.UNAVAILABLE)
                                    then RM.INIT else rows[k].status))
  {
    IngestFromDecision(dataset, version, rows, i, getNew);
    IngestFromRows(dataset, version, rows, i, getNew);
  }

  /** One turn of the loop past a row that is not superseded. */
  lemma IngestFromNext(dataset: Str, version: Option<int>, rows: seq<StoredDataset>, i: nat, getNew: bool)
    requires i < |rows| && !Supersedes(dataset, rows[i].version, version)
    ensures var rows' := if rows[i].status == RM.WITHDRAWN || rows[i].status == RM.UNAVAILABLE
                         then rows[i := rows[i].(status := RM.INIT)] else rows;
            && |rows'| == |rows|
            && (forall k :: 0 <= k < |rows| ==> rows'[k].version == rows[k].version)
            && (forall k :: 0 <= k < |rows| && k != i ==> rows'[k] == rows[k])
            && IngestFrom(dataset, version, rows, i, getNew) == IngestFrom(dataset, version, rows', i + 1, false)
  {
  }

  lemma {:induction false} IngestFromDecision(dataset: Str, version: Option<int>, rows: seq<StoredDataset>, i: nat, getNew: bool)
    requires i <= |rows|
    ensures var r := IngestFrom(dataset, version, rows, i, getNew);
            (r.pushedAside.Some? ==>
               i <= r.pushedAside.value < |rows| && Supersedes(dataset, rows[r.pushedAside.value].version, version) &&
               forall k :: i <= k < r.pushedAside.value ==> !Supersedes(dataset, rows[k].version, version)) &&
            (r.pushedAside.None? ==> forall k :: i <= k < |rows| ==> !Supersedes(dataset, rows[k].version, version)) &&
            (r.getNew <==> r.pushedAside.Some? || (i == |rows| && getNew))
    decreases |rows| - i
  {
    if i < |rows| && !Supersedes(dataset, rows[i].version, version) {
      var rows' := if rows[i].status == RM.WITHDRAWN || rows[i].status == RM.UNAVAILABLE
                   then rows[i := rows[i].(status := RM.INIT)] else rows;
      IngestFromNext(dataset, version, rows, i, getNew);
      IngestFromDecision(dataset, version, rows', i + 1, false);
    }
  }

  lemma {:induction false} IngestFromRows(dataset: Str, version: Option<int>, rows: seq<StoredDataset>, i: nat, getNew: bool)
    requires i <= |rows|
    ensures var r := IngestFrom(dataset, version, rows, i, getNew);
            (forall k :: 0 <= k < |rows| ==> r.rows[k].version == rows[k].version) &&
            (forall k :: 0 <= k < |rows| ==>
               r.rows[k].status == (if i <= k && (r.pushedAside.None? || k < r.pushedAside.value) &&
                                       (rows[k].status == RM.WITHDRAWN || rows[k].status == RM.UNAVAILABLE)
                                    then RM.INIT else rows[k].status))
    decreases |rows| - i
  {
    if i < |rows| && !Supersedes(dataset, rows[i].version, version) {
      var rows' := if rows[i].status == RM.WITHDRAWN || rows[i].status == RM.UNAVAILABLE
                   then rows[i := rows[i].(status := RM.INIT)] else rows;
      IngestFromNext(dataset, version, rows, i, getNew);
      IngestFromRows(dataset, version, rows', i + 1, false);
    }
  }

  /** The whole rule from the start of the loop. */
  lemma IngestRowsSpec(dataset: Str, version: Option<int>, rows: seq<StoredDataset>)
    ensures var r := IngestRows(dataset, version, rows);
            (r.getNew <==> |rows| == 0 || exists k :: 0 <= k < |rows| && Supersedes(dataset, rows[k].version, version)) &&
            (r.pushedAside.Some? ==> forall k :: 0 <= k < r.pushedAside.value ==> !Supersedes(dataset, rows[k].version, version))
  {
    IngestFromSpec(dataset, version, rows, 0, true);
  }

  // ---------------------------------------------------------------------
  // ingest_dataset: keying catalog files, and leaving old file rows alone
  // ---------------------------------------------------------------------

  /** A file entry of the catalog metadata. */
  datatype MetaFile = MetaFile(checksum: Option<Str>, checksumType: Option<Str>, size: Str)

  /** The key of a file with a checksum: both parts lowercased; a checksum
      without a type is a KeyError. */
  function FileKey(f: MetaFile): (r: Result<Option<(Str, Str)>, PyError>)
    ensures r.Success? && r.value.Some? ==> Lower(r.value.value.0) == r.value.value.0 && Lower(r.value.value.1) == r.value.value.1
  {
    match f.checksum
    case None => Success(None)
    case Some(c) =>
      match f.checksumType
      case None => Failure(KeyError)
      case Some(t) =>
        LowerIdempotent(c);
        LowerIdempotent(t);
        Success(Some((Lower(c), Lower(t))))
  }

  /** `current_files`: every file with a checksum under its lowercased key;
      a later file with the same key replaces an earlier one. */
  function CurrentFiles(files: seq<MetaFile>): (r: Result<map<(Str, Str), MetaFile>, PyError>)
    decreases |files|
  {
    if |files| == 0 then Success(map[])
    else
      var m :- CurrentFiles(files[..|files| - 1]);
      var last := files[|files| - 1];
      var key :- FileKey(last);
      match key
      case None => Success(m)
      case Some(k) =>
        Success(m[k := last.(checksum := Some(k.0), checksumType := Some(k.1))])
  }

  /** Every key is lowercase, and every file with a checksum can be found
      under its lowercased key, holding the last such file. */
  lemma {:induction false} CurrentFilesSpec(files: seq<MetaFile>)
    requires CurrentFiles(files).Success?
    ensures var m := CurrentFiles(files).value;
            (forall k :: k in m ==> Lower(k.0) == k.0 && Lower(k.1) == k.1) &&
            (forall i :: 0 <= i < |files| && files[i].checksum.Some? ==>
               FileKey(files[i]).Success? && FileKey(files[i]).value.value in m)
    decreases |files|
  {
    if |files| > 0 {
      var init := files[..|files| - 1];
      CurrentFilesSpec(init);
      forall i | 0 <= i < |files| - 1
        ensures files[i] == init[i]
      {
      }
    }
  }

  /** A checksum matches a key regardless of case. */
  lemma KeyIgnoresCase(f: MetaFile, g: MetaFile)
    requires f.checksum.Some? && f.checksumType.Some? && g.checksum.Some? && g.checksumType.Some?
    requires Lower(f.checksum.value) == Lower(g.checksum.value)
    requires Lower(f.checksumType.value) == Lower(g.checksumType.value)
    ensures FileKey(f) == FileKey(g) && FileKey(f).value.Some?
  {
  }

  /** The existing row of a file. */
  datatype OldFile = OldFile(status: int, checksum: Str, checksumType: Str, size: int)

  /** Whether an incoming file leaves the database alone: no path, an
      existing row that is retrieved, or one being verified with the same
      checksum, type and size (`long()` of the catalog size). */
  function SkipOldFile(absPath: Option<Str>, oldFiles: seq<OldFile>, checksum: Str, checksumType: Str,
                       size: Str): (r: Result<bool, PyError>)
    ensures absPath.None? || (absPath.Some? && |absPath.value| == 0) ==> r == Success(true)
    ensures absPath.Some? && |absPath.value| > 0 && |oldFiles| == 0 ==> r == Success(false)
    ensures absPath.Some? && |absPath.value| > 0 && |oldFiles| > 0 && oldFiles[0].status >= RM.RETRIEVED ==> r == Success(true)
    ensures absPath.Some? && |absPath.value| > 0 && |oldFiles| > 0 && oldFiles[0].status < RM.VERIFYING ==> r == Success(false)
    ensures r == Success(true) && absPath.Some? && |absPath.value| > 0 ==>
              |oldFiles| > 0 && oldFiles[0].status >= RM.VERIFYING
  {
    if absPath.None? || |absPath.value| < 1 then Success(true)
    else if |oldFiles| == 0 then Success(false)
    else
      var prev := oldFiles[0];
      if prev.status >= RM.RETRIEVED then Success(true)
      else if prev.status >= RM.VERIFYING && prev.checksum == checksum && prev.checksumType == checksumType then
        match ParseInt(size)
        case None => Failure(ValueError)
        case Some(n) => Success(n == prev.size)
      else Success(false)
  }

  /** A row being verified (below RETRIEVED) is kept exactly when checksum,
      type and size all agree. */
  lemma SkipVerifyingRow(path: Str, row: OldFile, rest: seq<OldFile>, checksum: Str, checksumType: Str, size: nat)
    requires |path| > 0 && RM.VERIFYING <= row.status < RM.RETRIEVED
    ensures SkipOldFile(Some(path), [row] + rest, checksum, checksumType, IntToStr(size)) ==
            Success(row.checksum == checksum && row.checksumType == checksumType && row.size == size)
  {
    ParseIntToStr(size);
  }

  // ---------------------------------------------------------------------
  // main: the -f facet=value option
  // ---------------------------------------------------------------------

  /** `=` at `k` can end group 1 of `(.*[^\\])=(.*)`: group 1 is at least
      one character, its last is not a backslash, and the characters before
      that are not newlines. */
  predicate FacetSplitAt(arg: Str, k: int) {
    1 <= k < |arg| && arg[k] == '=' && arg[k - 1] != '\\' && '\n' !in arg[..k - 1]
  }

  /** The greedy choice: the last split point below `k`. */
  function LastFacetSplit(arg: Str, k: nat): (r: Option<nat>)
    requires k <= |arg|
    ensures r.Some? ==> r.value < k && FacetSplitAt(arg, r.value) &&
                        forall j :: r.value < j < k ==> !FacetSplitAt(arg, j)
    ensures r.None? ==> forall j :: 0 <= j < k ==> !FacetSplitAt(arg, j)
    decreases k
  {
    if k <= 1 then None
    else if FacetSplitAt(arg, k - 1) then Some(k - 1)
    else LastFacetSplit(arg, k - 1)
  }

  /** `.*` from a position: the text up to the first newline. */
  function UpToNewline(s: Str): (r: Str)
    ensures '\n' !in r && r <= s
    ensures |r| < |s| ==> s[|r|] == '\n'
  {
    var i := Find(s, "\n");
    FindChar(s, '\n');
    if i < 0 then s else s[..i]
  }

  /** `facet, value = facet_pat.match(arg).groups()`; no match is an
      AttributeError on None. */
  function ParseFacet(arg: Str): (r: Result<(Str, Str), PyError>)
    ensures r.Failure? <==> forall j :: 0 <= j < |arg| ==> !FacetSplitAt(arg, j)
    ensures r.Success? ==> |r.value.0| >= 1 && r.value.0[|r.value.0| - 1] != '\\' && '\n' !in r.value.1
  {
    match LastFacetSplit(arg, |arg|)
    case None => Failure(AttributeError)
    case Some(k) => Success((arg[..k], UpToNewline(arg[k + 1..])))
  }

  /** `facet=value` reads back as the pair when the value has no `=` and
      neither part a newline, and the facet does not end in a backslash. */
  lemma ParseFacetPair(facet: Str, value: Str)
    requires |facet| > 0 && facet[|facet| - 1] != '\\' && '\n' !in facet
    requires '=' !in value && '\n' !in value
    ensures ParseFacet(facet + "=" + value) == Success((facet, value))
  {
    var arg := facet + "=" + value;
    var n := |facet|;
    assert arg[..n - 1] == facet[..n - 1];
    assert FacetSplitAt(arg, n);
    var r := LastFacetSplit(arg, |arg|);
    assert r.Some?;
    assert r.value == n;
    assert arg[..n] == facet;
    assert arg[n + 1..] == value;
  }

  /** The option flags `main` reads for the search. */
  datatype Flag = FacetFlag(arg: Str) | DefaultSearch | OtherFlag

  /** `BASIC_SEARCH` */
  const BasicSearch: map<Str, SearchValue> := map[
    "time_frequency" := Many(["fx", "yr", "mon"]),
    "experiment" := Many(["amip", "historical", "piControl", "rcp26", "rcp45", "rcp60", "rcp85"])
  ]

  /** The facets of the search after the option loop: each `-f` sets one
      facet, `--default-search` overrides with the basic search. */
  function SearchFacets(flags: seq<Flag>): (r: Result<map<Str, SearchValue>, PyError>)
    decreases |flags|
  {
    if |flags| == 0 then Success(map[])
    else
      var facets :- SearchFacets(flags[..|flags| - 1]);
      match flags[|flags| - 1]
      case FacetFlag(arg) =>
        var (k, v) :- ParseFacet(arg);
        Success(facets[k := Text(v)])
      case DefaultSearch => Success(facets + BasicSearch)
      case OtherFlag => Success(facets)
  }

  /** The last `-f` for a facet wins, unless `--default-search` comes after
      it and covers that facet. */
  lemma {:induction false} SearchFacetsLastWins(flags: seq<Flag>, facet: Str, value: Str)
    requires |facet| > 0 && facet[|facet| - 1] != '\\' && '\n' !in facet
    requires '=' !in value && '\n' !in value
    requires SearchFacets(flags).Success?
    ensures var r := SearchFacets(flags + [FacetFlag(facet + "=" + value)]);
            r.Success? && facet in r.value && r.value[facet] == Text(value)
    ensures SearchFacets(flags + [DefaultSearch]).Success? &&
            SearchFacets(flags + [DefaultSearch]).value["experiment"] == BasicSearch["experiment"]
  {
    ParseFacetPair(facet, value);
    assert (flags + [FacetFlag(facet + "=" + value)])[..|flags|] == flags;
    assert (flags + [DefaultSearch])[..|flags|] == flags;
  }
}
