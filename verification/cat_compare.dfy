/** The comparison of a master data node's THREDDS catalogs with a
    replica's: the key-set partition both levels use, the file-id
    normalisation that undoes the TDS uniqueness suffix, the comparison
    of the file lists of one dataset version, and the walk over the
    datasets and versions of two top catalogs. Fetching the catalogs and
    printing are left out; the catalogs are inputs, and comparing the two
    catalogs of one version is a parameter. */
module CatCompare {
  import opened Wrappers
  import opened PyStr
  import Catalog

  // ---------------------------------------------------------------------
  // The key partition
  // ---------------------------------------------------------------------

  /** `compare_keys`: the keys in both maps, only in the first, only in
      the second. */
  function CompareKeys<K, V, W>(a: map<K, V>, b: map<K, W>): (r: (set<K>, set<K>, set<K>))
    ensures r.0 + r.1 + r.2 == a.Keys + b.Keys
    ensures r.0 !! r.1 && r.0 !! r.2 && r.1 !! r.2
    ensures r.0 <= a.Keys && r.0 <= b.Keys && r.1 <= a.Keys && r.2 <= b.Keys
  {
    (a.Keys * b.Keys, a.Keys - b.Keys, b.Keys - a.Keys)
  }

  // ---------------------------------------------------------------------
  // File ids
  // ---------------------------------------------------------------------

  /** `tds_fix_re.match(t)`, the pattern `(.*\.nc)_[0-9]*$`: the first
      group, or no match. The `_` before the digits is the last one
      before `$`, since digits hold none, and `.` matches no newline. */
  function MatchTds(t: Str): Option<Str> {
    var e := DollarEnd(t);
    var q := RFind(t[..e], "_");
    if q >= 3 && t[q - 3..q] == ".nc" && AllDigits(t[q + 1..e]) && '\n' !in t[..q] then Some(t[..q]) else None
  }

  /** The language of the pattern: a name without newline ending in
      `.nc`, `_`, digits and an optional final newline. */
  predicate TdsShape(t: Str, g: Str, digits: Str) {
    EndsWith(g, ".nc") && '\n' !in g && AllDigits(digits)
    && (t == g + "_" + digits || t == g + "_" + digits + "\n")
  }

  /** The file id a record is keyed by: the TDS suffix `_<digits>` after
      `.nc` is dropped. */
  function TdsFix(fid: Str): Str {
    match MatchTds(fid)
    case Some(g) => g
    case None => fid
  }

  /** A text of the form `<g>_<digits>` has its last `_` right after
      `g`. */
  lemma LastUnderscore(g: Str, digits: Str)
    requires AllDigits(digits)
    ensures RFind(g + "_" + digits, "_") == |g|
  {
    var s := g + "_" + digits;
    assert s[|g|..|g| + 1] == "_";
    forall j | |g| < j <= |s|
      ensures !OccursAt(s, "_", j)
    {
      if j + 1 <= |s| {
        assert s[j] == digits[j - |g| - 1];
        assert s[j..j + 1][0] == s[j];
      }
    }
    assert OccursAt(s, "_", |g|);
  }

  /** Every text of the pattern's shape matches, with the name as group. */
  lemma MatchTdsComplete(t: Str, g: Str, digits: Str)
    requires TdsShape(t, g, digits)
    ensures MatchTds(t) == Some(g)
  {
    var s := g + "_" + digits;
    var e := DollarEnd(t);
    if t == s + "\n" {
      assert e == |s|;
    } else {
      assert t == s;
      if |digits| > 0 {
        assert t[|t| - 1] == digits[|digits| - 1];
      } else {
        assert t[|t| - 1] == '_';
      }
      assert e == |s|;
    }
    assert t[..e] == s;
    LastUnderscore(g, digits);
    assert RFind(t[..e], "_") == |g|;
    assert t[..|g|] == s[..|g|] == g;
    assert t[|g| + 1..e] == s[|g| + 1..] == digits;
    assert t[|g| - 3..|g|] == g[|g| - 3..] == ".nc";
  }

  /** Every match is of the pattern's shape. */
  lemma MatchTdsSound(t: Str)
    requires MatchTds(t).Some?
    ensures exists digits :: TdsShape(t, MatchTds(t).value, digits)
  {
    var e := DollarEnd(t);
    var q := RFind(t[..e], "_");
    var g := t[..q];
    var digits := t[q + 1..e];
    assert EndsWith(g, ".nc") by {
      assert g[|g| - 3..] == t[q - 3..q];
    }
    UnderscoreAround(t[..e], q);
    assert t[..e][..q] == g && t[..e][q + 1..] == digits;
    DollarParts(t);
    assert TdsShape(t, g, digits);
  }

  /** A text is its part before an `_` at `q`, the `_`, and the rest. */
  lemma UnderscoreAround(s: Str, q: int)
    requires OccursAt(s, "_", q)
    ensures s == s[..q] + "_" + s[q + 1..]
  {
    assert s[q..q + 1] == "_";
  }

  /** A TDS-suffixed id and the plain id are keyed alike. */
  lemma TdsFixStrips(g: Str, digits: Str)
    requires EndsWith(g, ".nc") && '\n' !in g && AllDigits(digits)
    ensures TdsFix(g + "_" + digits) == g
    ensures TdsFix(g) == g
  {
    MatchTdsComplete(g + "_" + digits, g, digits);
    TdsFixPlain(g);
  }

  /** A name ending in `.nc` has no suffix to strip. */
  lemma TdsFixPlain(g: Str)
    requires EndsWith(g, ".nc")
    ensures MatchTds(g) == None
  {
    var e := DollarEnd(g);
    assert g[|g| - 1] == g[|g| - 3..][2] == 'c';
    assert e == |g|;
    assert g[..e] == g;
    var q := RFind(g, "_");
    if q >= 0 {
      assert OccursAt(g, "_", q);
      assert g[q..q + 1][0] == g[q] == '_';
      assert q < |g| - 1;
      assert g[q + 1..e][|g| - q - 2] == 'c';
      assert !IsDigit('c');
    }
  }

  /** Normalising twice is normalising once. */
  lemma TdsFixIdempotent(fid: Str)
    ensures TdsFix(TdsFix(fid)) == TdsFix(fid)
  {
    if MatchTds(fid).Some? {
      var g := MatchTds(fid).value;
      MatchTdsSound(fid);
      var digits :| TdsShape(fid, g, digits);
      TdsFixPlain(g);
    }
  }

  // ---------------------------------------------------------------------
  // Comparing the files of one dataset version
  // ---------------------------------------------------------------------

  type Props = Catalog.Props

  /** The loop building `m_att` (or `r_att`): each record under its
      normalised file id, a later record replacing an earlier one with
      the same id; a record without `file_id` fails with `KeyError`. */
  function Index(list: seq<Props>): Result<map<Str, Props>, PyError> {
    IndexBy(list, TdsFix)
  }

  /** The same loop for any normalisation of the file id. */
  function IndexBy(list: seq<Props>, key: Str -> Str): Result<map<Str, Props>, PyError>
    decreases |list|
  {
    if |list| == 0 then Success(map[])
    else
      var m :- IndexBy(list[..|list| - 1], key);
      var last := list[|list| - 1];
      if "file_id" !in last then Failure(KeyError)
      else Success(m[key(last["file_id"]) := last])
  }

  /** Whether record `i` has a file id normalising to `k`. */
  predicate KeyedAt(list: seq<Props>, key: Str -> Str, k: Str, i: int) {
    0 <= i < |list| && "file_id" in list[i] && key(list[i]["file_id"]) == k
  }

  /** The index is built exactly when every record has a file id. */
  lemma {:induction false} IndexDefined(list: seq<Props>, key: Str -> Str)
    ensures IndexBy(list, key).Success? <==> forall i :: 0 <= i < |list| ==> "file_id" in list[i]
    decreases |list|
  {
    if |list| > 0 {
      var n := |list| - 1;
      IndexDefined(list[..n], key);
      assert forall i :: 0 <= i < n ==> list[..n][i] == list[i];
    }
  }

  /** A built index holds a key exactly when some record normalises to
      it. */
  lemma {:induction false} IndexIn(list: seq<Props>, key: Str -> Str, k: Str)
    requires IndexBy(list, key).Success?
    ensures k in IndexBy(list, key).value <==> exists i :: KeyedAt(list, key, k, i)
    decreases |list|
  {
    if |list| > 0 {
      var n := |list| - 1;
      var init := list[..n];
      IndexIn(init, key, k);
      if KeyedAt(list, key, k, n) {
      } else if k in IndexBy(init, key).value {
        var i :| KeyedAt(init, key, k, i);
        assert init[i] == list[i];
        assert KeyedAt(list, key, k, i);
      }
      if exists i :: KeyedAt(list, key, k, i) {
        var i :| KeyedAt(list, key, k, i);
        if i < n {
          assert init[i] == list[i];
          assert KeyedAt(init, key, k, i);
        }
      }
    }
  }

  /** The last record normalising to a key is the one stored under it. */
  lemma {:induction false} IndexLast(list: seq<Props>, key: Str -> Str, k: Str, i: int)
    requires IndexBy(list, key).Success?
    requires KeyedAt(list, key, k, i)
    requires forall j :: i < j < |list| ==> !KeyedAt(list, key, k, j)
    ensures k in IndexBy(list, key).value && IndexBy(list, key).value[k] == list[i]
    decreases |list|
  {
    var n := |list| - 1;
    var init := list[..n];
    if i < n {
      assert init[i] == list[i];
      forall j | i < j < |init| ensures !KeyedAt(init, key, k, j) {
        assert init[j] == list[j];
        assert !KeyedAt(list, key, k, j);
      }
      IndexLast(init, key, k, i);
      assert !KeyedAt(list, key, k, n);
    }
  }

  /** The keys of `m` no key of `other` matches, in the order of `ids`. */
  function Only(ids: seq<Str>, other: map<Str, Props>): (r: seq<Str>)
    ensures forall k :: k in r <==> k in ids && k !in other
    decreases |ids|
  {
    if |ids| == 0 then []
    else
      var rest := Only(ids[1..], other);
      assert forall k :: k in ids <==> k == ids[0] || k in ids[1..];
      if ids[0] in other then rest else [ids[0]] + rest
  }

  /** The index keys of a list whose records all have a file id. */
  function Ids(list: seq<Props>): (r: seq<Str>)
    requires forall i :: 0 <= i < |list| ==> "file_id" in list[i]
    ensures |r| == |list| && forall i :: 0 <= i < |list| ==> r[i] == TdsFix(list[i]["file_id"])
  {
    seq(|list|, i requires 0 <= i < |list| => TdsFix(list[i]["file_id"]))
  }

  /** Both records carry the compared attributes. */
  predicate Comparable(x: Props, y: Props) {
    "size" in x && "size" in y && "checksum" in x && "checksum" in y
  }

  /** Whether the compared attributes differ. */
  predicate Differs(x: Props, y: Props)
    requires Comparable(x, y)
  {
    x["size"] != y["size"] || x["checksum"] != y["checksum"]
  }

  /** The differing attributes, each with its master and replica value. */
  function DiffAtts(x: Props, y: Props): (r: map<Str, (Str, Str)>)
    requires Comparable(x, y)
    ensures forall att :: att in r <==> (att == "size" || att == "checksum") && x[att] != y[att]
    ensures forall att :: att in r ==> r[att] == (x[att], y[att])
  {
    var s := if x["size"] != y["size"] then map["size" := (x["size"], y["size"])] else map[];
    if x["checksum"] != y["checksum"] then s["checksum" := (x["checksum"], y["checksum"])] else s
  }

  /** The differing keys among `keys`, each with its differing
      attributes. */
  function DiffOf(m: map<Str, Props>, r: map<Str, Props>, keys: set<Str>): (d: map<Str, map<Str, (Str, Str)>>)
    requires forall k :: k in keys ==> k in m && k in r && Comparable(m[k], r[k])
    ensures forall k :: k in d <==> k in keys && Differs(m[k], r[k])
  {
    map k | k in keys && Differs(m[k], r[k]) :: DiffAtts(m[k], r[k])
  }

  /** Adding one comparable key to the compared ones adds its entry if
      it differs. */
  lemma DiffOfAdd(m: map<Str, Props>, r: map<Str, Props>, keys: set<Str>, k: Str)
    requires forall j :: j in keys ==> j in m && j in r && Comparable(m[j], r[j])
    requires k in m && k in r && Comparable(m[k], r[k]) && k !in keys
    ensures DiffOf(m, r, keys + {k}) ==
            if Differs(m[k], r[k]) then DiffOf(m, r, keys)[k := DiffAtts(m[k], r[k])] else DiffOf(m, r, keys)
  {
  }

  /** Moving one key from the keys to do to the keys done keeps them a
      partition of the same set. */
  lemma MoveOne<K>(todo: set<K>, done: set<K>, all: set<K>, k: K)
    requires todo + done == all && todo !! done && k in todo
    ensures (todo - {k}) + (done + {k}) == all && (todo - {k}) !! (done + {k})
  {
  }

  /** The loop over the keys in both indexes: a record missing a compared
      attribute fails with `KeyError`; otherwise every key whose records
      differ is listed with the differing attributes. */
  method Differences(m: map<Str, Props>, r: map<Str, Props>, both: set<Str>)
    returns (res: Result<map<Str, map<Str, (Str, Str)>>, PyError>)
    requires both <= m.Keys && both <= r.Keys
    ensures res.Failure? <==> exists k :: k in both && !Comparable(m[k], r[k])
    ensures res.Failure? ==> res.error == KeyError
    ensures res.Success? ==> forall k :: k in both ==> Comparable(m[k], r[k])
    ensures res.Success? ==> forall k :: k in res.value <==> k in both && Differs(m[k], r[k])
    ensures res.Success? ==> forall k :: k in res.value ==> res.value[k] == DiffAtts(m[k], r[k])
  {
    var todo := both;
    var done: set<Str> := {};
    var diff: map<Str, map<Str, (Str, Str)>> := map[];
    while todo != {}
      invariant todo + done == both && todo !! done
      invariant forall k :: k in done ==> Comparable(m[k], r[k])
      invariant diff == DiffOf(m, r, done)
      decreases |todo|
    {
      var k :| k in todo;
      var x, y := m[k], r[k];
      if !Comparable(x, y) {
        assert k in both;
        return Failure(KeyError);
      }
      DiffOfAdd(m, r, done, k);
      if Differs(x, y) {
        diff := diff[k := DiffAtts(x, y)];
      }
      MoveOne(todo, done, both, k);
      todo := todo - {k};
      done := done + {k};
    }
    assert done == both;
    return Success(diff);
  }

  /** What `compare_files` returns. An empty one-sided list stands for
      the empty set the source returns in that case. */
  datatype Comparison = Comparison(both: set<Str>, mOnly: seq<Str>, rOnly: seq<Str>,
                                   difference: map<Str, map<Str, (Str, Str)>>)

  /** `compare_files`: index both lists, partition the keys, sort the
      one-sided ones and list the differences. */
  method CompareFiles(master: seq<Props>, replica: seq<Props>) returns (res: Result<Comparison, PyError>)
    ensures res.Failure? ==> res.error == KeyError
    ensures res.Success? ==> Index(master).Success? && Index(replica).Success?
    ensures res.Success? ==>
              var m, r, c := Index(master).value, Index(replica).value, res.value;
              && c.both == m.Keys * r.Keys
              && (forall k :: k in c.both ==> Comparable(m[k], r[k]))
              && StrSorted(c.mOnly) && (forall k :: k in c.mOnly <==> k in m && k !in r)
              && StrSorted(c.rOnly) && (forall k :: k in c.rOnly <==> k in r && k !in m)
              && (forall k :: k in c.difference <==> k in c.both && Differs(m[k], r[k]))
              && (forall k :: k in c.difference ==> c.difference[k] == DiffAtts(m[k], r[k]))
    ensures Index(master).Success? && Index(replica).Success? ==>
              (res.Failure? <==> exists k :: k in Index(master).value && k in Index(replica).value
                                             && !Comparable(Index(master).value[k], Index(replica).value[k]))
  {
    var mi := Index(master);
    if mi.Failure? {
      return Failure(KeyError);
    }
    var ri := Index(replica);
    if ri.Failure? {
      return Failure(KeyError);
    }
    var m, r := mi.value, ri.value;
    var keys := CompareKeys(m, r);
    IndexKeys(master);
    IndexKeys(replica);
    var mOnly := SortStrs(Only(Ids(master), r));
    var rOnly := SortStrs(Only(Ids(replica), m));
    SortStrsSorted(Only(Ids(master), r));
    SortStrsSorted(Only(Ids(replica), m));
    var diff := Differences(m, r, keys.0);
    if diff.Failure? {
      return Failure(KeyError);
    }
    return Success(Comparison(keys.0, mOnly, rOnly, diff.value));
  }

  /** The keys of a built index are the normalised ids of its records. */
  lemma IndexKeys(list: seq<Props>)
    requires Index(list).Success?
    ensures forall i :: 0 <= i < |list| ==> "file_id" in list[i]
    ensures forall k :: k in Index(list).value <==> k in Ids(list)
  {
    IndexDefined(list, TdsFix);
    forall k ensures k in Index(list).value <==> k in Ids(list) {
      IndexIn(list, TdsFix, k);
      if k in Ids(list) {
        var i :| 0 <= i < |list| && Ids(list)[i] == k;
        assert KeyedAt(list, TdsFix, k, i);
      }
      if exists i :: KeyedAt(list, TdsFix, k, i) {
        var i :| KeyedAt(list, TdsFix, k, i);
        assert Ids(list)[i] == k;
      }
    }
  }

  /** `compare_catalogs` on the read catalogs of one version: `None` (the
      source's `False`) when nothing differs and no file is one-sided. */
  method CompareCatalogs(master: Catalog.Metadata<Str>, replica: Catalog.Metadata<Str>)
    returns (res: Result<Option<Comparison>, PyError>)
    ensures res.Failure? ==> res.error == KeyError
    ensures res.Success? && res.value.Some? ==>
              var c := res.value.value;
              |c.difference| > 0 || |c.mOnly| > 0 || |c.rOnly| > 0
    ensures res.Success? && res.value.None? ==>
              Index(master.files).Success? && Index(replica.files).Success?
              && var m, r := Index(master.files).value, Index(replica.files).value;
                 && m.Keys == r.Keys
                 && forall k :: k in m ==> Comparable(m[k], r[k]) && !Differs(m[k], r[k])
  {
    var cmp := CompareFiles(master.files, replica.files);
    if cmp.Failure? {
      return Failure(KeyError);
    }
    var c := cmp.value;
    if |c.difference| > 0 || |c.mOnly| > 0 || |c.rOnly| > 0 {
      return Success(Some(c));
    }
    assert c.mOnly == [] && c.rOnly == [] && c.difference == map[];
    return Success(None);
  }

  // ---------------------------------------------------------------------
  // Comparing two top catalogs
  // ---------------------------------------------------------------------

  /** Dataset id to version to catalog URL, as `getAllCatalogs` builds. */
  type Catalogs = Catalog.Catalogs

  /** The outcome for one dataset version: only in the master, only in
      the replica, or the result of comparing the two catalogs. */
  datatype Entry<C> = MasterOnly | ReplicaOnly | Checked(result: C)

  type Results<C> = map<Str, map<int, Entry<C>>>

  /** The datasets whose id the data pattern accepts. */
  function Filter(c: Catalogs, keep: Str -> bool): (r: Catalogs)
    ensures forall d :: d in r <==> d in c && keep(d)
    ensures forall d :: d in r ==> r[d] == c[d]
  {
    map d | d in c && keep(d) :: c[d]
  }

  /** Whether a result holds an entry for this dataset and version. */
  predicate Has<C>(res: Results<C>, d: Str, v: int) {
    d in res && v in res[d]
  }

  /** The loop over the one-sided (dataset, version) pairs as written:
      every pair replaces the whole entry of `stale`, the variable left
      over from the filter loops, with that one version. */
  function OneSidedAsWritten<C>(res: Results<C>, stale: Str, pairs: seq<(Str, int)>, e: Entry<C>): Results<C>
    decreases |pairs|
  {
    if |pairs| == 0 then res
    else
      var before := OneSidedAsWritten(res, stale, pairs[..|pairs| - 1], e);
      before[stale := map[pairs[|pairs| - 1].1 := e]]
  }

  /** The same loop keyed by its own dataset, `d`, adding the version to
      that dataset's entry. */
  function OneSided<C>(res: Results<C>, pairs: seq<(Str, int)>, e: Entry<C>): Results<C>
    decreases |pairs|
  {
    if |pairs| == 0 then res
    else
      var before := OneSided(res, pairs[..|pairs| - 1], e);
      var p := pairs[|pairs| - 1];
      var versions := if p.0 in before then before[p.0] else map[];
      before[p.0 := versions[p.1 := e]]
  }

  /** The entries of a dataset found in both catalogs: versions on one
      side only are marked so, versions on both are compared. */
  function BothEntry<C>(mv: map<int, Str>, rv: map<int, Str>, cmp: (Str, Str) -> C): (r: map<int, Entry<C>>)
    ensures forall v :: v in r <==> v in mv || v in rv
    ensures forall v :: v in mv && v in rv ==> r[v] == Checked(cmp(mv[v], rv[v]))
    ensures forall v :: v in mv && v !in rv ==> r[v] == MasterOnly
    ensures forall v :: v !in mv && v in rv ==> r[v] == ReplicaOnly
  {
    map v | v in mv.Keys + rv.Keys ::
      if v in mv && v in rv then Checked(cmp(mv[v], rv[v])) else if v in mv then MasterOnly else ReplicaOnly
  }

  /** The loop over the datasets in both catalogs: each gets a fresh
      entry, replacing whatever was stored under its id. */
  function BothPhase<C>(res: Results<C>, m: Catalogs, r: Catalogs, cmp: (Str, Str) -> C): Results<C> {
    res + map d | d in m.Keys * r.Keys :: BothEntry(m[d], r[d], cmp)
  }

  /** Whether `pairs` lists exactly the versions of the datasets `keys`. */
  ghost predicate Enumerates(pairs: seq<(Str, int)>, c: Catalogs, keys: set<Str>) {
    (forall p :: p in pairs ==> p.0 in keys && p.0 in c && p.1 in c[p.0])
    && (forall d, v :: d in keys && d in c && v in c[d] ==> (d, v) in pairs)
  }

  /** `compare_root_catalogs` as written. `stale` is the dataset id the
      filter loops left in `dataset`; `mPairs` and `rPairs` are the
      one-sided pairs in the order the loops visit them. */
  function CompareRootAsWritten<C>(master: Catalogs, replica: Catalogs, keep: Str -> bool, cmp: (Str, Str) -> C,
                                   stale: Str, mPairs: seq<(Str, int)>, rPairs: seq<(Str, int)>): Results<C>
  {
    var m, r := Filter(master, keep), Filter(replica, keep);
    var res := OneSidedAsWritten(map[], stale, mPairs, MasterOnly);
    var res := OneSidedAsWritten(res, stale, rPairs, ReplicaOnly);
    BothPhase(res, m, r, cmp)
  }

  /** `compare_root_catalogs` with the one-sided loops keyed by `d`. */
  function CompareRoot<C>(master: Catalogs, replica: Catalogs, keep: Str -> bool, cmp: (Str, Str) -> C,
                          mPairs: seq<(Str, int)>, rPairs: seq<(Str, int)>): Results<C>
  {
    var m, r := Filter(master, keep), Filter(replica, keep);
    var res := OneSided(map[], mPairs, MasterOnly);
    var res := OneSided(res, rPairs, ReplicaOnly);
    BothPhase(res, m, r, cmp)
  }

  /** As written, a dataset found in one catalog only is reported only
      if it is the stale id, so at most one such dataset is reported,
      whatever the order of the loops. */
  lemma {:induction false} AsWrittenKeys<C>(res: Results<C>, stale: Str, pairs: seq<(Str, int)>, e: Entry<C>)
    ensures forall d :: d in OneSidedAsWritten(res, stale, pairs, e) ==> d in res || d == stale
    decreases |pairs|
  {
    if |pairs| > 0 {
      AsWrittenKeys(res, stale, pairs[..|pairs| - 1], e);
    }
  }

  /** The as-written walk reports no dataset outside the common ones
      except the stale id. */
  lemma AsWrittenLosesOneSided<C>(master: Catalogs, replica: Catalogs, keep: Str -> bool, cmp: (Str, Str) -> C,
                                  stale: Str, mPairs: seq<(Str, int)>, rPairs: seq<(Str, int)>)
    ensures forall d :: d in CompareRootAsWritten(master, replica, keep, cmp, stale, mPairs, rPairs) ==>
              d == stale || (d in master && d in replica && keep(d))
  {
    var none: Results<C> := map[];
    var res := OneSidedAsWritten(none, stale, mPairs, MasterOnly);
    AsWrittenKeys(none, stale, mPairs, MasterOnly);
    AsWrittenKeys(res, stale, rPairs, ReplicaOnly);
  }

  /** Any accepted dataset present in the master only, other than the
      stale id, is missing from the as-written report while the intended
      walk reports each of its versions. */
  lemma AsWrittenDropsMasterOnly<C>(master: Catalogs, replica: Catalogs, keep: Str -> bool, cmp: (Str, Str) -> C,
                                    stale: Str, mPairs: seq<(Str, int)>, rPairs: seq<(Str, int)>, d: Str, v: int)
    requires Enumerates(mPairs, Filter(master, keep), Filter(master, keep).Keys - Filter(replica, keep).Keys)
    requires Enumerates(rPairs, Filter(replica, keep), Filter(replica, keep).Keys - Filter(master, keep).Keys)
    requires d in master && keep(d) && d !in replica && d != stale && v in master[d]
    ensures d !in CompareRootAsWritten(master, replica, keep, cmp, stale, mPairs, rPairs)
    ensures Has(CompareRoot(master, replica, keep, cmp, mPairs, rPairs), d, v)
    ensures CompareRoot(master, replica, keep, cmp, mPairs, rPairs)[d][v] == MasterOnly
  {
    AsWrittenLosesOneSided(master, replica, keep, cmp, stale, mPairs, rPairs);
    CompareRootSpec(master, replica, keep, cmp, mPairs, rPairs, d, v);
  }

  /** The intended loop holds an entry for a pair exactly when the start
      did or the pair is listed; listed pairs carry the loop's mark and
      others keep their entry. */
  lemma {:induction false} OneSidedHas<C>(res: Results<C>, pairs: seq<(Str, int)>, e: Entry<C>, d: Str, v: int)
    ensures Has(OneSided(res, pairs, e), d, v) <==> Has(res, d, v) || (d, v) in pairs
    ensures (d, v) in pairs ==> OneSided(res, pairs, e)[d][v] == e
    ensures (d, v) !in pairs && Has(res, d, v) ==> OneSided(res, pairs, e)[d][v] == res[d][v]
    decreases |pairs|
  {
    if |pairs| > 0 {
      var init := pairs[..|pairs| - 1];
      OneSidedHas(res, init, e, d, v);
      assert forall p :: p in pairs <==> p in init || p == pairs[|pairs| - 1];
    }
  }

  /** The intended walk reports every version of every accepted dataset:
      a version found in one catalog only is marked with its side, and
      one found in both is compared. */
  lemma CompareRootSpec<C>(master: Catalogs, replica: Catalogs, keep: Str -> bool, cmp: (Str, Str) -> C,
                           mPairs: seq<(Str, int)>, rPairs: seq<(Str, int)>, d: Str, v: int)
    requires Enumerates(mPairs, Filter(master, keep), Filter(master, keep).Keys - Filter(replica, keep).Keys)
    requires Enumerates(rPairs, Filter(replica, keep), Filter(replica, keep).Keys - Filter(master, keep).Keys)
    ensures var res := CompareRoot(master, replica, keep, cmp, mPairs, rPairs);
            var m, r := Filter(master, keep), Filter(replica, keep);
            && (Has(res, d, v) <==> (d in m && v in m[d]) || (d in r && v in r[d]))
            && (d in m && d !in r && v in m[d] ==> res[d][v] == MasterOnly)
            && (d !in m && d in r && v in r[d] ==> res[d][v] == ReplicaOnly)
            && (d in m && d in r && v in m[d] && v in r[d] ==> res[d][v] == Checked(cmp(m[d][v], r[d][v])))
            && (d in m && d in r && v in m[d] && v !in r[d] ==> res[d][v] == MasterOnly)
            && (d in m && d in r && v !in m[d] && v in r[d] ==> res[d][v] == ReplicaOnly)
  {
    var m, r := Filter(master, keep), Filter(replica, keep);
    var none: Results<C> := map[];
    var res1 := OneSided(none, mPairs, MasterOnly);
    OneSidedHas(none, mPairs, MasterOnly, d, v);
    OneSidedHas(res1, rPairs, ReplicaOnly, d, v);
    if (d, v) in mPairs {
      assert (d, v) !in rPairs;
    }
  }
}
