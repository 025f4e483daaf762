/** Marking the older copies of a file obsolete within one dataset: the
    rows of `replica.files` with the dataset's name are grouped by file
    name, and in every group of two or more rows each row but the one of
    the latest version (by the version component of its path, compared as
    text) gets status 50. The database query and update are left out; the
    rows are the input and the updated rows the output. */
module MarkObsolete {
  import opened Wrappers
  import opened PyStr
  import RM = ReplicaManager

  /** A row of `replica.files`; `abs_path` is its primary key. */
  datatype Row = Row(absPath: Str, status: int, datasetName: Str)

  /** `filename`: the last `/`-component of the path. */
  function FileName(absPath: Str): (r: Str)
    ensures '/' !in r
  {
    var c := Split(absPath, "/");
    SplitPiecesFree(absPath, '/');
    c[|c| - 1]
  }

  /** `rowversion`: the tenth `/`-component of the path, an `IndexError`
      for a shorter path. */
  function RowVersion(absPath: Str): (r: Result<Str, PyError>)
    ensures r.Failure? <==> |Split(absPath, "/")| < 10
    ensures r.Failure? ==> r.error == IndexError
    ensures r.Success? ==> '/' !in r.value
  {
    var c := Split(absPath, "/");
    SplitPiecesFree(absPath, '/');
    if |c| < 10 then Failure(IndexError) else Success(c[9])
  }

  /** What the grouping and the sort read off a row: its file name and
      its version. */
  datatype Key = Key(name: Str, version: Result<Str, PyError>)

  /** The keys of the rows, in order. */
  function KeysOf(rows: seq<Row>): (r: seq<Key>)
    ensures |r| == |rows|
    ensures forall i :: 0 <= i < |rows| ==> r[i] == Key(FileName(rows[i].absPath), RowVersion(rows[i].absPath))
  {
    seq(|rows|, i requires 0 <= i < |rows| => Key(FileName(rows[i].absPath), RowVersion(rows[i].absPath)))
  }

  /** A path of plain components names its last component as file and
      its tenth as version. */
  lemma PathFields(cs: seq<Str>)
    requires |cs| >= 10
    requires forall k :: 0 <= k < |cs| ==> '/' !in cs[k]
    ensures FileName(Join(cs, "/")) == cs[|cs| - 1]
    ensures RowVersion(Join(cs, "/")) == Success(cs[9])
  {
    SplitJoinChar(cs, '/');
  }

  // ---------------------------------------------------------------------
  // The rule
  // ---------------------------------------------------------------------

  /** Rows `i` and `j` are distinct rows of the same file. */
  predicate SameFile(keys: seq<Key>, i: int, j: int) {
    0 <= i < |keys| && 0 <= j < |keys| && i != j && keys[i].name == keys[j].name
  }

  /** Row `i` shares its file with another row. */
  predicate Duplicated(keys: seq<Key>, i: int) {
    exists j :: 0 <= j < |keys| && SameFile(keys, i, j)
  }

  /** Row `j` supersedes row `i`: same file, and a later version, or the
      same version and later in the listing (the stable sort keeps the
      last of equals at the end). */
  predicate Supersedes(keys: seq<Key>, j: int, i: int) {
    && SameFile(keys, i, j)
    && keys[i].version.Success? && keys[j].version.Success?
    && var vi, vj := keys[i].version.value, keys[j].version.value;
       StrLess(vi, vj) || (vi == vj && i < j)
  }

  /** Row `i` is superseded by some other row of its file. */
  predicate Superseded(keys: seq<Key>, i: int) {
    exists j :: 0 <= j < |keys| && Supersedes(keys, j, i)
  }

  // ---------------------------------------------------------------------
  // Grouping and sorting, as the loops do
  // ---------------------------------------------------------------------

  /** The indices of the first `n` rows with file name `fn`, in order:
      `srf[fn]` after `n` rows. */
  function GroupUpTo(keys: seq<Key>, fn: Str, n: nat): (r: seq<nat>)
    requires n <= |keys|
    ensures forall m :: 0 <= m < |r| ==> r[m] < n && keys[r[m]].name == fn
    ensures forall i :: 0 <= i < n && keys[i].name == fn ==> i in r
    ensures forall a, b :: 0 <= a < b < |r| ==> r[a] < r[b]
  {
    if n == 0 then []
    else
      var g := GroupUpTo(keys, fn, n - 1);
      if keys[n - 1].name == fn then g + [n - 1] else g
  }

  /** The group of a file name. */
  function Group(keys: seq<Key>, fn: Str): seq<nat> {
    GroupUpTo(keys, fn, |keys|)
  }

  /** The row `rows.sort(key=rowversion)` leaves last: the latest
      version, the later row among equals. Every row's version is
      needed for the sort. */
  function Keeper(keys: seq<Key>, idx: seq<nat>): (r: Result<nat, PyError>)
    requires |idx| >= 1 && forall m :: 0 <= m < |idx| ==> idx[m] < |keys|
    ensures r.Success? ==> r.value in idx && keys[r.value].version.Success?
    decreases |idx|
  {
    var n := |idx| - 1;
    var v :- keys[idx[n]].version;
    if n == 0 then Success(idx[0])
    else
      var best :- Keeper(keys, idx[..n]);
      if StrLess(v, keys[best].version.value) then Success(best) else Success(idx[n])
  }

  /** The sort fails exactly when a row of the group has no version;
      otherwise the row kept is of the group and every other row of the
      group has an earlier version, or the same version and an earlier
      place. */
  lemma KeeperSpec(keys: seq<Key>, idx: seq<nat>)
    requires |idx| >= 1 && forall m :: 0 <= m < |idx| ==> idx[m] < |keys|
    requires forall a, b :: 0 <= a < b < |idx| ==> idx[a] < idx[b]
    ensures Keeper(keys, idx).Failure? <==> exists m :: 0 <= m < |idx| && keys[idx[m]].version.Failure?
    ensures Keeper(keys, idx).Success? ==>
              var k := Keeper(keys, idx).value;
              forall m :: 0 <= m < |idx| && idx[m] != k ==>
                var vm, vk := keys[idx[m]].version.value, keys[k].version.value;
                StrLess(vm, vk) || (vm == vk && idx[m] < k)
  {
    KeeperFailure(keys, idx);
    KeeperLatest(keys, idx);
  }

  lemma {:induction false} KeeperFailure(keys: seq<Key>, idx: seq<nat>)
    requires |idx| >= 1 && forall m :: 0 <= m < |idx| ==> idx[m] < |keys|
    ensures Keeper(keys, idx).Failure? <==> exists m :: 0 <= m < |idx| && keys[idx[m]].version.Failure?
    decreases |idx|
  {
    var n := |idx| - 1;
    if n > 0 {
      var pre := idx[..n];
      KeeperFailure(keys, pre);
      assert forall m :: 0 <= m < n ==> pre[m] == idx[m];
    }
  }

  /** Every row of the group is in range and has a version. */
  predicate AllVersioned(keys: seq<Key>, idx: seq<nat>) {
    forall m :: 0 <= m < |idx| ==> idx[m] < |keys| && keys[idx[m]].version.Success?
  }

  /** Row `k` is the latest of the group: every other row of it has an
      earlier version, or the same version and an earlier place. */
  predicate Latest(keys: seq<Key>, idx: seq<nat>, k: nat)
    requires AllVersioned(keys, idx) && k < |keys| && keys[k].version.Success?
  {
    forall m :: 0 <= m < |idx| && idx[m] != k ==>
      var vm, vk := keys[idx[m]].version.value, keys[k].version.value;
      StrLess(vm, vk) || (vm == vk && idx[m] < k)
  }

  lemma {:induction false} KeeperLatest(keys: seq<Key>, idx: seq<nat>)
    requires |idx| >= 1 && forall m :: 0 <= m < |idx| ==> idx[m] < |keys|
    requires forall a, b :: 0 <= a < b < |idx| ==> idx[a] < idx[b]
    ensures Keeper(keys, idx).Success? ==>
              AllVersioned(keys, idx) && Latest(keys, idx, Keeper(keys, idx).value)
    decreases |idx|
  {
    KeeperFailure(keys, idx);
    var n := |idx| - 1;
    if n > 0 && Keeper(keys, idx).Success? {
      var pre := idx[..n];
      KeeperLatest(keys, pre);
      KeeperFailure(keys, pre);
      var best := Keeper(keys, pre).value;
      if StrLess(keys[idx[n]].version.value, keys[best].version.value) {
        KeeperKeepsBest(keys, idx, best);
      } else {
        KeeperTakesLast(keys, idx, best);
      }
    }
  }

  /** A last row older than the best so far leaves the best in place. */
  lemma KeeperKeepsBest(keys: seq<Key>, idx: seq<nat>, best: nat)
    requires |idx| >= 2 && AllVersioned(keys, idx) && best in idx[..|idx| - 1]
    requires forall a, b :: 0 <= a < b < |idx| ==> idx[a] < idx[b]
    requires AllVersioned(keys, idx[..|idx| - 1]) && keys[best].version.Success?
    requires Latest(keys, idx[..|idx| - 1], best)
    requires StrLess(keys[idx[|idx| - 1]].version.value, keys[best].version.value)
    ensures Latest(keys, idx, best)
  {
    var n := |idx| - 1;
    assert forall m :: 0 <= m < n ==> idx[..n][m] == idx[m];
  }

  /** A last row not older than the best so far becomes the best. */
  lemma KeeperTakesLast(keys: seq<Key>, idx: seq<nat>, best: nat)
    requires |idx| >= 2 && AllVersioned(keys, idx) && best in idx[..|idx| - 1]
    requires forall a, b :: 0 <= a < b < |idx| ==> idx[a] < idx[b]
    requires AllVersioned(keys, idx[..|idx| - 1]) && keys[best].version.Success?
    requires Latest(keys, idx[..|idx| - 1], best)
    requires !StrLess(keys[idx[|idx| - 1]].version.value, keys[best].version.value)
    ensures Latest(keys, idx, idx[|idx| - 1])
  {
    var n := |idx| - 1;
    var pre := idx[..n];
    var vn := keys[idx[n]].version.value;
    var vb := keys[best].version.value;
    var m0 :| 0 <= m0 < n && pre[m0] == best;
    if vn != vb {
      StrLessTotal(vn, vb);
    }
    forall m | 0 <= m < n
      ensures var vm := keys[idx[m]].version.value;
              StrLess(vm, vn) || (vm == vn && idx[m] < idx[n])
    {
      assert pre[m] == idx[m];
      var vm := keys[idx[m]].version.value;
      if idx[m] != best && StrLess(vm, vb) && StrLess(vb, vn) {
        StrLessTrans(vm, vb, vn);
      }
    }
  }

  // ---------------------------------------------------------------------
  // mark_obsolete_in_dataset
  // ---------------------------------------------------------------------

  /** Whether row `i` is marked: its group has two or more rows and the
      sort does not keep it. */
  function Marked(keys: seq<Key>, i: nat): Result<bool, PyError>
    requires i < |keys|
  {
    var g := Group(keys, keys[i].name);
    if |g| <= 1 then Success(false)
    else
      var k :- Keeper(keys, g);
      Success(k != i)
  }

  /** A row is marked exactly when another row of its file supersedes it,
      and its sort fails exactly when a row of its file, itself included,
      has no version. */
  lemma MarkedSpec(keys: seq<Key>, i: nat)
    requires i < |keys|
    ensures Marked(keys, i).Failure? <==>
              exists j :: 0 <= j < |keys| && (j == i || SameFile(keys, i, j)) && Duplicated(keys, i)
                          && keys[j].version.Failure?
    ensures Marked(keys, i).Success? ==> (Marked(keys, i).value <==> Superseded(keys, i))
  {
    MarkedFailure(keys, i);
    MarkedValue(keys, i);
  }

  /** Row `i`'s group holds it and every other row of its file, and has
      more than one row exactly when the file is duplicated. */
  lemma GroupOf(keys: seq<Key>, i: nat)
    requires i < |keys|
    ensures var g := Group(keys, keys[i].name);
            i in g && (forall j :: SameFile(keys, i, j) ==> j in g) && (|g| > 1 <==> Duplicated(keys, i))
            && forall m :: 0 <= m < |g| ==> g[m] == i || SameFile(keys, i, g[m])
  {
    var g := Group(keys, keys[i].name);
    assert i in g;
    var a :| 0 <= a < |g| && g[a] == i;
    if |g| > 1 {
      var other := if a == 0 then g[1] else g[0];
      assert other != i && SameFile(keys, i, other);
    } else {
      forall j | SameFile(keys, i, j) ensures false {
      }
    }
  }

  /** The sort of row `i`'s group fails exactly when the file is
      duplicated and a row of it has no version. */
  lemma MarkedFailure(keys: seq<Key>, i: nat)
    requires i < |keys|
    ensures Marked(keys, i).Failure? <==>
              exists j :: 0 <= j < |keys| && (j == i || SameFile(keys, i, j)) && Duplicated(keys, i)
                          && keys[j].version.Failure?
  {
    var g := Group(keys, keys[i].name);
    GroupOf(keys, i);
    if |g| > 1 {
      KeeperSpec(keys, g);
      if Marked(keys, i).Failure? {
        var m :| 0 <= m < |g| && keys[g[m]].version.Failure?;
        assert g[m] == i || SameFile(keys, i, g[m]);
      } else {
        forall j | 0 <= j < |keys| && (j == i || SameFile(keys, i, j)) ensures keys[j].version.Success? {
          assert j in g;
        }
      }
    }
  }

  /** A row with a mark is marked exactly when it is superseded. */
  lemma MarkedValue(keys: seq<Key>, i: nat)
    requires i < |keys|
    ensures Marked(keys, i).Success? ==> (Marked(keys, i).value <==> Superseded(keys, i))
  {
    var g := Group(keys, keys[i].name);
    GroupOf(keys, i);
    if |g| > 1 {
      KeeperSpec(keys, g);
      if Keeper(keys, g).Success? {
        var k := Keeper(keys, g).value;
        if k != i {
          assert Supersedes(keys, k, i);
        } else {
          forall j | Supersedes(keys, j, i) ensures false {
            assert j in g;
            var vi, vj := keys[i].version.value, keys[j].version.value;
            if StrLess(vj, vi) && StrLess(vi, vj) {
              StrLessTrans(vi, vj, vi);
              StrLessIrreflexive(vi);
            } else if StrLess(vj, vi) {
              StrLessIrreflexive(vi);
            } else if StrLess(vi, vj) {
              StrLessIrreflexive(vi);
            }
          }
        }
      }
    }
  }

  /** The marks of the rows, in order. */
  function MarksOf(keys: seq<Key>): (r: seq<Result<bool, PyError>>)
    ensures |r| == |keys| && forall i :: 0 <= i < |keys| ==> r[i] == Marked(keys, i)
  {
    seq(|keys|, i requires 0 <= i < |keys| => Marked(keys, i))
  }

  /** The paths of the marked rows among the first `n`, failing at the
      first row whose mark fails. */
  function ObsoletePaths(rows: seq<Row>, marks: seq<Result<bool, PyError>>, n: nat): (r: Result<set<Str>, PyError>)
    requires |marks| == |rows| && n <= |rows|
    ensures r.Failure? <==> exists i :: 0 <= i < n && marks[i].Failure?
    ensures r.Success? ==> forall p :: p in r.value <==>
              exists i :: 0 <= i < n && marks[i] == Success(true) && rows[i].absPath == p
  {
    if n == 0 then Success({})
    else
      var paths :- ObsoletePaths(rows, marks, n - 1);
      var m :- marks[n - 1];
      Success(if m then paths + {rows[n - 1].absPath} else paths)
  }

  /** `mark_obsolete_in_dataset`: every row whose path is marked gets
      status 50; nothing else about any row changes. */
  function MarkObsoleteInDataset(rows: seq<Row>): (r: Result<seq<Row>, PyError>)
    ensures r.Success? ==> |r.value| == |rows|
    ensures r.Success? ==> forall i :: 0 <= i < |rows| ==>
              r.value[i].absPath == rows[i].absPath && r.value[i].datasetName == rows[i].datasetName
  {
    var paths :- ObsoletePaths(rows, MarksOf(KeysOf(rows)), |rows|);
    Success(seq(|rows|, i requires 0 <= i < |rows| =>
                          if rows[i].absPath in paths then rows[i].(status := RM.OBSOLETE) else rows[i]))
  }

  /** Marking fails exactly when a row sharing its file with another has
      no version. Otherwise a row gets status 50 exactly when its path is
      the path of a superseded row, and every other row is unchanged. */
  lemma MarkObsoleteSpec(rows: seq<Row>)
    ensures var r := MarkObsoleteInDataset(rows);
            var keys := KeysOf(rows);
            && (r.Failure? <==> exists i :: 0 <= i < |rows| && Duplicated(keys, i) && keys[i].version.Failure?)
            && (r.Success? ==> forall i :: 0 <= i < |rows| ==>
                  r.value[i] == (if exists j :: 0 <= j < |rows| && Superseded(keys, j) && rows[j].absPath == rows[i].absPath
                                 then rows[i].(status := RM.OBSOLETE) else rows[i]))
  {
    MarkObsoleteFails(rows);
    MarkObsoleteRows(rows);
  }

  lemma MarkObsoleteFails(rows: seq<Row>)
    ensures var keys := KeysOf(rows);
            MarkObsoleteInDataset(rows).Failure? <==>
              exists i :: 0 <= i < |rows| && Duplicated(keys, i) && keys[i].version.Failure?
  {
    var keys := KeysOf(rows);
    var marks := MarksOf(keys);
    assert MarkObsoleteInDataset(rows).Failure? <==> ObsoletePaths(rows, marks, |rows|).Failure?;
    if ObsoletePaths(rows, marks, |rows|).Failure? {
      var i :| 0 <= i < |rows| && marks[i].Failure?;
      MarkedFailure(keys, i);
      var j :| 0 <= j < |keys| && (j == i || SameFile(keys, i, j)) && Duplicated(keys, i) && keys[j].version.Failure?;
      if j != i {
        assert SameFile(keys, j, i);
      }
      assert Duplicated(keys, j) && keys[j].version.Failure?;
    } else {
      forall i | 0 <= i < |rows| && Duplicated(keys, i) ensures keys[i].version.Success? {
        MarkedFailure(keys, i);
        assert marks[i].Success?;
      }
    }
  }

  lemma MarkObsoleteRows(rows: seq<Row>)
    ensures var r := MarkObsoleteInDataset(rows);
            var keys := KeysOf(rows);
            r.Success? ==> forall i :: 0 <= i < |rows| ==>
              r.value[i] == (if exists j :: 0 <= j < |rows| && Superseded(keys, j) && rows[j].absPath == rows[i].absPath
                             then rows[i].(status := RM.OBSOLETE) else rows[i])
  {
    var keys := KeysOf(rows);
    forall i | 0 <= i < |rows| {
      MarkedValue(keys, i);
    }
  }

  /** Of two rows of one file with versions, one supersedes the other. */
  lemma OneSupersedes(keys: seq<Key>, i: int, j: int)
    requires SameFile(keys, i, j) && keys[i].version.Success? && keys[j].version.Success?
    ensures Supersedes(keys, j, i) || Supersedes(keys, i, j)
  {
    var vi, vj := keys[i].version.value, keys[j].version.value;
    if vi != vj {
      StrLessTotal(vi, vj);
    }
  }

  /** With distinct paths, as the primary key makes them, a row gets
      status 50 exactly when it is superseded, and of two rows of one
      file at least one is superseded. */
  lemma MarkObsoleteKeepsOne(rows: seq<Row>, i: nat, j: nat)
    requires forall a, b :: 0 <= a < b < |rows| ==> rows[a].absPath != rows[b].absPath
    requires MarkObsoleteInDataset(rows).Success?
    requires SameFile(KeysOf(rows), i, j)
    ensures Superseded(KeysOf(rows), i) || Superseded(KeysOf(rows), j)
    ensures !Superseded(KeysOf(rows), i) ==> MarkObsoleteInDataset(rows).value[i] == rows[i]
    ensures Superseded(KeysOf(rows), i) ==> MarkObsoleteInDataset(rows).value[i] == rows[i].(status := RM.OBSOLETE)
  {
    var keys := KeysOf(rows);
    MarkObsoleteSpec(rows);
    assert SameFile(keys, j, i);
    assert keys[i].version.Success? && keys[j].version.Success?;
    OneSupersedes(keys, i, j);
    var same := exists k :: 0 <= k < |rows| && Superseded(keys, k) && rows[k].absPath == rows[i].absPath;
    assert same <==> Superseded(keys, i) by {
      if same {
        var k :| 0 <= k < |rows| && Superseded(keys, k) && rows[k].absPath == rows[i].absPath;
        assert k == i;
      }
    }
  }
}
