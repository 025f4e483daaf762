/** The scratch garbage collector: version strings taken from file paths,
    the tests that a directory name is a version, the lists of good and bad
    files with their per-reason counters, the classification of each file
    found under `scratch/_gc/` and the check that a facets directory ends in
    an ensemble. Database queries are inputs: the status of the file's own
    row, the rows of the same file under other versions, and the paths of the
    verified rows at any version. */
module CmipGc {
  import opened Wrappers
  import opened PyStr

  // ---------------------------------------------------------------------
  // Versions
  // ---------------------------------------------------------------------

  /** `abspath2vers`: path component 9, or None for a short path. */
  function Abspath2Vers(abspath: Str): (r: Option<Str>)
    ensures r.None? <==> |Split(abspath, "/")| <= 9
  {
    var fdirs := Split(abspath, "/");
    if |fdirs| <= 9 then None else Some(fdirs[9])
  }

  /** On a path built from components, the version is component 9. */
  lemma Abspath2VersOfJoin(comps: seq<Str>)
    requires |comps| >= 1
    requires forall k :: 0 <= k < |comps| ==> '/' !in comps[k]
    ensures Abspath2Vers(Join(comps, "/")) == if |comps| <= 9 then None else Some(comps[9])
  {
    SplitJoinChar(comps, '/');
  }

  /** `verskey`: one leading `v` dropped, then `int()`; the empty string is
      an IndexError and anything `int()` refuses a ValueError. */
  function Verskey(verstr: Str): (r: Result<int, PyError>)
    ensures |verstr| == 0 ==> r == Failure(IndexError)
  {
    if |verstr| == 0 then Failure(IndexError)
    else
      match ParseInt(if verstr[0] == 'v' then verstr[1..] else verstr)
      case None => Failure(ValueError)
      case Some(n) => Success(n)
  }

  /** `v<n>` and `<n>` have the same key, the number itself. */
  lemma VerskeyOfNumber(n: nat)
    ensures Verskey(NatToStr(n)) == Success(n)
    ensures Verskey("v" + NatToStr(n)) == Success(n)
  {
    ParseIntToStr(n);
    assert ("v" + NatToStr(n))[1..] == NatToStr(n);
  }

  /** The character classes of `^201\d[0,1]\d[0,1,2,3]\d$` as written: a
      comma inside brackets is one more accepted character. */
  predicate DrsDigitsAsWritten(d: Str) {
    |d| == 8 && d[..3] == "201" && IsDigit(d[3]) && d[4] in "0,1" && IsDigit(d[5]) &&
    d[6] in "0,1,2,3" && IsDigit(d[7])
  }

  /** The pattern as evidently intended: year 201x, month digit 0-1, day
      digit 0-3. */
  predicate DrsDigits(d: Str) {
    |d| == 8 && d[..3] == "201" && IsDigit(d[3]) && d[4] in "01" && IsDigit(d[5]) &&
    d[6] in "0123" && IsDigit(d[7])
  }

  /** Eight characters, or nine with a leading `v`. */
  function DrsBody(versd: Str): Option<Str> {
    if |versd| < 8 || |versd| > 9 then None
    else if |versd| == 9 && versd[0] != 'v' then None
    else if |versd| == 9 then Some(versd[1..])
    else Some(versd)
  }

  /** `check_drsversiondir` as written. */
  predicate CheckDrsVersionDirAsWritten(versd: Str) {
    var d := DrsBody(versd);
    d.Some? && DrsDigitsAsWritten(d.value)
  }

  /** `check_drsversiondir` with the intended character classes. */
  predicate CheckDrsVersionDir(versd: Str) {
    var d := DrsBody(versd);
    d.Some? && DrsDigits(d.value)
  }

  /** A DRS version directory is eight characters, or nine with a leading
      `v`, and the `v` is optional: an eight-character name is accepted
      with it exactly when it is accepted without. */
  lemma DrsVersionOptionalV(d: Str)
    ensures CheckDrsVersionDir(d) ==> |d| == 8 || (|d| == 9 && d[0] == 'v')
    ensures |d| == 8 ==> (CheckDrsVersionDir("v" + d) <==> CheckDrsVersionDir(d))
  {
    if |d| == 8 {
      assert ("v" + d)[1..] == d;
    }
  }

  /** The written pattern admits commas, and such a "version" then makes
      `verskey` raise, which `existing_versions` calls right after. */
  lemma CommaAdmitted(y: char, m: char, d: char)
    requires IsDigit(y) && IsDigit(m) && IsDigit(d)
    ensures var s := "201" + [y, ',', m, ',', d];
            CheckDrsVersionDirAsWritten(s) && !CheckDrsVersionDir(s) &&
            Verskey(s) == Failure(ValueError)
  {
    CommaPassesAsWritten(y, m, d);
    CommaFailsIntended(y, m, d);
    CommaNoInt(y, m, d);
  }

  lemma CommaPassesAsWritten(y: char, m: char, d: char)
    requires IsDigit(y) && IsDigit(m) && IsDigit(d)
    ensures CheckDrsVersionDirAsWritten("201" + [y, ',', m, ',', d])
  {
    var s := "201" + [y, ',', m, ',', d];
    assert DrsBody(s) == Some(s);
    assert s[..3] == "201";
    assert s[4] == ',' && ',' in "0,1";
    assert s[6] == ',' && ',' in "0,1,2,3";
  }

  lemma CommaFailsIntended(y: char, m: char, d: char)
    ensures !CheckDrsVersionDir("201" + [y, ',', m, ',', d])
  {
    var s := "201" + [y, ',', m, ',', d];
    assert DrsBody(s) == Some(s);
    assert s[4] == ',' && ',' !in "01";
  }

  lemma CommaNoInt(y: char, m: char, d: char)
    requires IsDigit(y) && IsDigit(m) && IsDigit(d)
    ensures Verskey("201" + [y, ',', m, ',', d]) == Failure(ValueError)
  {
    var s := "201" + [y, ',', m, ',', d];
    assert s[0] == '2' && s[|s| - 1] == d;
    StripNoSpace(s);
    assert !AllDigits(s) by {
      assert s[4] == ',' && !IsDigit(s[4]);
    }
    assert ParseInt(s).None?;
  }

  lemma AllDigitsOfDrs(d: Str)
    requires DrsDigits(d)
    ensures AllDigits(d)
  {
    assert forall k :: 0 <= k < 3 ==> d[k] == d[..3][k];
  }

  /** Powers of ten. */
  function Pow10(n: nat): (r: nat)
    ensures r >= 1
  {
    if n == 0 then 1 else 10 * Pow10(n - 1)
  }

  /** A digit string without a leading zero is at least the power of ten
      of its length. */
  lemma {:induction false} DigitsValueLower(s: Str)
    requires |s| >= 1 && AllDigits(s) && s[0] != '0'
    ensures DigitsValue(s) >= Pow10(|s| - 1)
    decreases |s|
  {
    if |s| > 1 {
      var h := s[..|s| - 1];
      assert h[0] == s[0];
      DigitsValueLower(h);
    }
  }

  /** Every accepted DRS version has a key, at least 10^7. */
  lemma DrsVersionKey(versd: Str)
    requires CheckDrsVersionDir(versd)
    ensures Verskey(versd).Success? && Verskey(versd).value >= 10000000
  {
    var d := DrsBody(versd).value;
    AllDigitsOfDrs(d);
    assert d[0] == d[..3][0] == '2';
    assert d == (if versd[0] == 'v' then versd[1..] else versd);
    StripNoSpace(d);
    DigitsValueLower(d);
    assert Pow10(7) == 10000000;
  }

  /** `check_versiondir`: a DRS version, or one digit with an optional `v`. */
  function CheckVersionDir(versd: Str): (r: bool)
    ensures r <==> CheckDrsVersionDir(versd) || (|versd| == 1 && IsDigit(versd[0])) ||
                   (|versd| == 2 && versd[0] == 'v' && IsDigit(versd[1]))
  {
    if CheckDrsVersionDir(versd) then true
    else if |versd| > 2 then false
    else if |versd| == 2 && versd[0] != 'v' then false
    else
      var d := if |versd| == 2 then versd[1..] else versd;
      |d| == 1 && IsDigit(d[0])
  }

  /** A single-digit version. */
  predicate SingleDigitVersion(versd: Str) {
    (|versd| == 1 && IsDigit(versd[0])) || (|versd| == 2 && versd[0] == 'v' && IsDigit(versd[1]))
  }

  /** A single-digit version has its digit as key. */
  lemma SingleDigitKey(a: Str)
    requires SingleDigitVersion(a)
    ensures Verskey(a).Success? && 0 <= Verskey(a).value <= 9
  {
    var d := if a[0] == 'v' then a[1..] else a;
    assert |d| == 1 && IsDigit(d[0]) && AllDigits(d);
    StripNoSpace(d);
    assert DigitsValue(d) == d[0] as int - '0' as int by {
      assert d[..0] == [];
    }
    assert Verskey(a) == Success(DigitsValue(d));
  }

  /** Every accepted version has a key, and a single-digit version sorts
      below every DRS date version. */
  lemma SingleDigitBelowDrs(a: Str, b: Str)
    requires SingleDigitVersion(a) && CheckDrsVersionDir(b)
    ensures CheckVersionDir(a) && CheckVersionDir(b)
    ensures Verskey(a).Success? && Verskey(b).Success? && Verskey(a).value < Verskey(b).value
  {
    DrsVersionKey(b);
    SingleDigitKey(a);
  }

  // ---------------------------------------------------------------------
  // listgood / listbad
  // ---------------------------------------------------------------------

  /** The keys of `whys`. */
  datatype Why =
    | Good
    | NotDbNoLater        // not in database, but there is no known later version
    | NotDbHaveLatest     // not in database, obsolete, have latest version
    | NotDbLackLatest     // not in database, obsolete, do not have the latest version
    | LaterVersion        // we have a later version
    | StatusSaysNo        // db status says we do not have it
    | ZeroLength          // zero length

  /** The count of one reason; the counters start at zero for every
      reason. */
  function Count(m: map<Why, nat>, w: Why): nat {
    if w in m then m[w] else 0
  }

  /** The sum of all counters. */
  function Total(m: map<Why, nat>): nat {
    Count(m, Good) + Count(m, NotDbNoLater) + Count(m, NotDbHaveLatest) + Count(m, NotDbLackLatest) +
    Count(m, LaterVersion) + Count(m, StatusSaysNo) + Count(m, ZeroLength)
  }

  /** `whys[why] += 1` */
  function Bump(m: map<Why, nat>, w: Why): (r: map<Why, nat>)
    ensures Count(r, w) == Count(m, w) + 1
    ensures forall v :: v != w ==> Count(r, v) == Count(m, v)
    ensures Total(r) == Total(m) + 1
  {
    var r := m[w := Count(m, w) + 1];
    assert forall v :: v != w ==> Count(r, v) == Count(m, v);
    TotalOneMore(m, r, w);
    r
  }

  /** Raising one counter by one raises the sum by one. */
  lemma TotalOneMore(m: map<Why, nat>, r: map<Why, nat>, w: Why)
    requires Count(r, w) == Count(m, w) + 1
    requires forall v :: v != w ==> Count(r, v) == Count(m, v)
    ensures Total(r) == Total(m) + 1
  {
    match w
    case Good =>
    case NotDbNoLater =>
    case NotDbHaveLatest =>
    case NotDbLackLatest =>
    case LaterVersion =>
    case StatusSaysNo =>
    case ZeroLength =>
  }

  datatype Lists = Lists(good: seq<Str>, bad: seq<Str>, whys: map<Why, nat>)

  /** `list.remove(x)` when `x` is present: drops its first occurrence. */
  function RemoveFirst(s: seq<Str>, x: Str): (r: seq<Str>)
    requires x in s
    ensures multiset(r) == multiset(s) - multiset{x}
    ensures |r| == |s| - 1
  {
    if s[0] == x then
      assert s == [s[0]] + s[1..];
      s[1..]
    else
      assert s == [s[0]] + s[1..];
      [s[0]] + RemoveFirst(s[1..], x)
  }

  /** `listgood(filename)` */
  function ListGood(l: Lists, filename: Str): (r: Lists)
    ensures multiset(r.good) == multiset(l.good) + multiset{filename}
    ensures multiset(r.bad) == multiset(l.bad) - multiset{filename}
    ensures r.whys == Bump(l.whys, Good)
  {
    var bad := if filename in l.bad then RemoveFirst(l.bad, filename) else l.bad;
    Lists(l.good + [filename], bad, Bump(l.whys, Good))
  }

  /** `listbad(filename, why)` */
  function ListBad(l: Lists, filename: Str, why: Why): (r: Lists)
    ensures filename in r.bad
    ensures multiset(r.bad) == if filename in l.bad then multiset(l.bad) else multiset(l.bad) + multiset{filename}
    ensures multiset(r.good) == multiset(l.good) - multiset{filename}
    ensures r.whys == Bump(l.whys, why)
  {
    var bad := if filename !in l.bad then l.bad + [filename] else l.bad;
    var good := if filename in l.good then RemoveFirst(l.good, filename) else l.good;
    Lists(good, bad, Bump(l.whys, why))
  }

  /** No name is listed twice. */
  predicate NoDup(s: seq<Str>) {
    forall i, j :: 0 <= i < j < |s| ==> s[i] != s[j]
  }

  /** Removing the first occurrence drops one position, that of `x`. */
  lemma {:induction false} RemoveFirstAt(s: seq<Str>, x: Str) returns (i: nat)
    requires x in s
    ensures i < |s| && s[i] == x && RemoveFirst(s, x) == s[..i] + s[i + 1..]
    decreases |s|
  {
    if s[0] == x {
      i := 0;
    } else {
      var t := s[1..];
      assert s == [s[0]] + t;
      var i' := RemoveFirstAt(t, x);
      i := i' + 1;
      assert RemoveFirst(s, x) == [s[0]] + RemoveFirst(t, x);
      assert s[..i] == [s[0]] + t[..i'];
      assert s[i + 1..] == t[i' + 1..];
      ConcatAssoc([s[0]], t[..i'], t[i' + 1..]);
    }
  }

  /** Removing the first occurrence keeps a list duplicate-free, and then
      removes the name altogether. */
  lemma RemoveFirstNoDup(s: seq<Str>, x: Str)
    requires x in s && NoDup(s)
    ensures NoDup(RemoveFirst(s, x)) && x !in RemoveFirst(s, x)
  {
    var i := RemoveFirstAt(s, x);
    DropKeepsNoDup(s, i);
    DropRemovesIt(s, i);
  }

  /** Dropping one position of a duplicate-free list keeps it duplicate-free. */
  lemma DropKeepsNoDup(s: seq<Str>, i: nat)
    requires i < |s| && NoDup(s)
    ensures NoDup(s[..i] + s[i + 1..])
  {
    var r := s[..i] + s[i + 1..];
    DropAt(s, i);
    forall p, q | 0 <= p < q < |r|
      ensures r[p] != r[q]
    {
      var p' := if p < i then p else p + 1;
      var q' := if q < i then q else q + 1;
      assert r[p] == s[p'] && r[q] == s[q'] && p' < q';
    }
  }

  /** In a duplicate-free list, the dropped element occurs nowhere else. */
  lemma DropRemovesIt(s: seq<Str>, i: nat)
    requires i < |s| && NoDup(s)
    ensures s[i] !in s[..i] + s[i + 1..]
  {
    var r := s[..i] + s[i + 1..];
    DropAt(s, i);
    forall k | 0 <= k < |r|
      ensures r[k] != s[i]
    {
      if k < i {
        assert r[k] == s[k];
      } else {
        assert r[k] == s[k + 1];
      }
    }
  }

  /** Dropping position `i` shifts the later elements down by one. */
  lemma DropAt(s: seq<Str>, i: nat)
    requires i < |s|
    ensures var r := s[..i] + s[i + 1..];
            |r| == |s| - 1 && forall k :: 0 <= k < |r| ==> r[k] == if k < i then s[k] else s[k + 1]
  {
  }

  /** The bad list never holds a name twice, and a name just listed good is
      no longer in it. Every call bumps exactly one counter. */
  lemma ListsKeepBadUnique(l: Lists, filename: Str, why: Why)
    ensures NoDup(l.bad) ==> NoDup(ListBad(l, filename, why).bad)
    ensures NoDup(l.bad) ==> NoDup(ListGood(l, filename).bad) && filename !in ListGood(l, filename).bad
  {
    if NoDup(l.bad) {
      var b1 := ListBad(l, filename, why).bad;
      if filename !in l.bad {
        assert b1 == l.bad + [filename];
        forall i, j | 0 <= i < j < |b1|
          ensures b1[i] != b1[j]
        {
          if j == |l.bad| {
            assert b1[i] == l.bad[i];
          } else {
            assert b1[i] == l.bad[i] && b1[j] == l.bad[j];
          }
        }
      }
      if filename in l.bad {
        RemoveFirstNoDup(l.bad, filename);
      }
    }
  }

  // ---------------------------------------------------------------------
  // Classification in mvgood2scratch
  // ---------------------------------------------------------------------

  /** The trash directory of a reason; None for a file that is moved back
      to scratch or deleted. */
  function TrashDir(w: Why): Option<Str> {
    match w
    case Good => None
    case ZeroLength => None
    case NotDbHaveLatest => Some("notdb_hv_latest")
    case NotDbLackLatest => Some("notdb_donthv_latest")
    case NotDbNoLater => Some("notdb_no_later")
    case LaterVersion => Some("old_hv_latest")
    case StatusSaysNo => Some("status10")
  }

  /** A row the collector counts as a version we hold. */
  predicate Held(status: int) {
    status >= 100 || status == 30
  }

  /** The key of the version of a database row:
      `verskey(v[1:] if v[0]=='v' else v)` with `v = abspath2vers(path)`. */
  function RowKey(path: Str): Result<int, PyError> {
    match Abspath2Vers(path)
    case None => Failure(TypeError)
    case Some(v) =>
      if |v| == 0 then Failure(IndexError)
      else Verskey(if v[0] == 'v' then v[1..] else v)
  }

  /** The keys of the rows that are held (or, with `held` false, that are
      below 30), in row order. */
  function RowKeys(rows: seq<(Str, int)>, held: bool): Result<seq<int>, PyError>
    decreases |rows|
  {
    if |rows| == 0 then Success([])
    else
      var rest :- RowKeys(rows[1..], held);
      var picked := if held then Held(rows[0].1) else rows[0].1 < 30;
      if picked then
        var k :- RowKey(rows[0].0);
        Success([k] + rest)
      else Success(rest)
  }

  predicate Picked(row: (Str, int), held: bool) {
    if held then Held(row.1) else row.1 < 30
  }

  /** Some picked row has a key above `k`. */
  predicate SomeLater(rows: seq<(Str, int)>, held: bool, k: int) {
    exists j :: 0 <= j < |rows| && Picked(rows[j], held) && RowKey(rows[j].0).Success? && RowKey(rows[j].0).value > k
  }

  /** The greatest element. */
  function MaxOf(ks: seq<int>): (m: int)
    requires |ks| > 0
    ensures forall i :: 0 <= i < |ks| ==> ks[i] <= m
    ensures exists i :: 0 <= i < |ks| && ks[i] == m
  {
    if |ks| == 1 then ks[0]
    else
      var m := MaxOf(ks[1..]);
      assert forall i :: 1 <= i < |ks| ==> ks[i] == ks[1..][i - 1];
      if ks[0] > m then ks[0] else m
  }

  /** The key list holds exactly the keys of the picked rows. */
  lemma RowKeysSpec(rows: seq<(Str, int)>, held: bool, k: int)
    requires RowKeys(rows, held).Success?
    ensures var ks := RowKeys(rows, held).value;
            (|ks| == 0 <==> forall j :: 0 <= j < |rows| ==> !Picked(rows[j], held)) &&
            (|ks| > 0 ==> (MaxOf(ks) > k <==> SomeLater(rows, held, k)))
  {
    RowKeysEmpty(rows, held);
    if |RowKeys(rows, held).value| > 0 {
      RowKeysMax(rows, held, k);
    }
  }

  /** No row is picked exactly when neither the first nor any later one is. */
  lemma NonePickedCons(rows: seq<(Str, int)>, held: bool)
    requires |rows| > 0
    ensures (forall j :: 0 <= j < |rows| ==> !Picked(rows[j], held)) <==>
            !Picked(rows[0], held) && forall j :: 0 <= j < |rows| - 1 ==> !Picked(rows[1..][j], held)
  {
    if !Picked(rows[0], held) && forall j :: 0 <= j < |rows| - 1 ==> !Picked(rows[1..][j], held) {
      forall j | 0 < j < |rows|
        ensures !Picked(rows[j], held)
      {
        assert rows[j] == rows[1..][j - 1];
      }
    }
  }

  /** Some row is a later picked one exactly when the first is or a later
      one is. */
  lemma SomeLaterCons(rows: seq<(Str, int)>, held: bool, k: int)
    requires |rows| > 0
    ensures SomeLater(rows, held, k) <==>
            (Picked(rows[0], held) && RowKey(rows[0].0).Success? && RowKey(rows[0].0).value > k) ||
            SomeLater(rows[1..], held, k)
  {
    var tail := rows[1..];
    if SomeLater(rows, held, k) {
      var j :| 0 <= j < |rows| && Picked(rows[j], held) && RowKey(rows[j].0).Success? && RowKey(rows[j].0).value > k;
      if j > 0 {
        assert tail[j - 1] == rows[j];
      }
    }
    if SomeLater(tail, held, k) {
      var j :| 0 <= j < |tail| && Picked(tail[j], held) && RowKey(tail[j].0).Success? && RowKey(tail[j].0).value > k;
      assert rows[j + 1] == tail[j];
    }
  }

  lemma {:induction false} RowKeysEmpty(rows: seq<(Str, int)>, held: bool)
    requires RowKeys(rows, held).Success?
    ensures |RowKeys(rows, held).value| == 0 <==> forall j :: 0 <= j < |rows| ==> !Picked(rows[j], held)
    decreases |rows|
  {
    if |rows| > 0 {
      RowKeysEmpty(rows[1..], held);
      NonePickedCons(rows, held);
    }
  }

  lemma {:induction false} RowKeysMax(rows: seq<(Str, int)>, held: bool, k: int)
    requires RowKeys(rows, held).Success? && |RowKeys(rows, held).value| > 0
    ensures MaxOf(RowKeys(rows, held).value) > k <==> SomeLater(rows, held, k)
    decreases |rows|
  {
    var tail := rows[1..];
    var ks := RowKeys(rows, held).value;
    var rest := RowKeys(tail, held).value;
    SomeLaterCons(rows, held, k);
    if Picked(rows[0], held) {
      assert ks == [RowKey(rows[0].0).value] + rest;
      if |rest| > 0 {
        RowKeysMax(tail, held, k);
        assert ks[1..] == rest;
      } else {
        RowKeysEmpty(tail, held);
      }
    } else {
      RowKeysMax(tail, held, k);
    }
  }

  /** A file whose own row is missing: compare its version with the latest
      one we hold, then with the latest one we do not hold. */
  function NotInDb(abspath: Str, others: seq<(Str, int)>): (r: Result<Why, PyError>)
    ensures r.Success? ==> r.value in {NotDbHaveLatest, NotDbLackLatest, NotDbNoLater}
  {
    match Abspath2Vers(abspath)
    case None => Failure(TypeError)
    case Some(vers) =>
      var have :- RowKeys(others, true);
      var lack :- RowKeys(others, false);
      var laterHave :- if |have| == 0 then Success(false)
                       else var k :- Verskey(vers); Success(MaxOf(have) > k);
      if laterHave then Success(NotDbHaveLatest)
      else
        var laterLack :- if |lack| == 0 then Success(false)
                         else var k :- Verskey(vers); Success(MaxOf(lack) > k);
        if laterLack then Success(NotDbLackLatest) else Success(NotDbNoLater)
  }

  /** A file without a row goes to `notdb_hv_latest` exactly when a held
      row (status 100 and up, or 30) has a later version, and otherwise to
      `notdb_donthv_latest` exactly when a row below 30 has one. */
  lemma NotInDbLater(abspath: Str, others: seq<(Str, int)>)
    requires NotInDb(abspath, others).Success?
    ensures var vers := Abspath2Vers(abspath).value;
            var r := NotInDb(abspath, others).value;
            (r == NotDbHaveLatest <==> Verskey(vers).Success? && SomeLater(others, true, Verskey(vers).value)) &&
            (r == NotDbLackLatest <==>
               (Verskey(vers).Success? && !SomeLater(others, true, Verskey(vers).value) &&
                SomeLater(others, false, Verskey(vers).value)))
  {
    var vers := Abspath2Vers(abspath).value;
    if Verskey(vers).Success? {
      RowKeysSpec(others, true, Verskey(vers).value);
      RowKeysSpec(others, false, Verskey(vers).value);
    } else {
      assert RowKeys(others, true).value == [] && RowKeys(others, false).value == [];
    }
  }

  /** What `existing_versions` returns, as far as the caller uses it: this
      file's version (None when it is not a version) and the number and the
      greatest key of the verified versions. */
  datatype Existing = Existing(vers: Option<Str>, count: nat, latest: int)

  /** The keys of the verified rows, and whether every version is one. */
  function VerifiedKeys(verified: seq<Str>): (r: Result<(seq<int>, bool), PyError>)
    ensures r.Success? ==> |r.value.0| == |verified|
    decreases |verified|
  {
    if |verified| == 0 then Success(([], true))
    else
      var v :- match Abspath2Vers(verified[0]) case None => Failure(TypeError) case Some(v) => Success(v);
      var k :- Verskey(v);
      var rest :- VerifiedKeys(verified[1..]);
      Success(([k] + rest.0, CheckVersionDir(v) && rest.1))
  }

  /** `existing_versions` as written: when this file's version fails the
      check, the warning prints `fdirs`, a local of `abspath2vers` that is
      not defined here, and raises NameError. */
  function ExistingVersionsAsWritten(abspath: Str, verified: seq<Str>): (r: Result<Existing, PyError>)
    ensures Abspath2Vers(abspath).Some? && !CheckVersionDir(Abspath2Vers(abspath).value) ==> r == Failure(NameError)
  {
    match Abspath2Vers(abspath)
    case None => Failure(TypeError)
    case Some(vers) =>
      if !CheckVersionDir(vers) then Failure(NameError)
      else
        var ks :- VerifiedKeys(verified);
        if |ks.0| > 0 && ks.1 then Success(Existing(Some(vers), |ks.0|, MaxOf(ks.0)))
        else if ks.1 then Success(Existing(Some(vers), 0, 0))
        else Success(Existing(None, 0, 0))
  }

  /** `existing_versions` with the warning path returning `(None, [])` as
      its docstring says. */
  function ExistingVersions(abspath: Str, verified: seq<Str>): (r: Result<Existing, PyError>)
    ensures Abspath2Vers(abspath).Some? && !CheckVersionDir(Abspath2Vers(abspath).value) ==>
              r == Success(Existing(None, 0, 0))
    ensures r.Success? && r.value.vers.Some? ==> r.value.vers == Abspath2Vers(abspath)
    ensures r.Success? && r.value.count > 0 ==> r.value.count == |verified|
  {
    match Abspath2Vers(abspath)
    case None => Failure(TypeError)
    case Some(vers) =>
      if !CheckVersionDir(vers) then Success(Existing(None, 0, 0))
      else
        var ks :- VerifiedKeys(verified);
        if |ks.0| > 0 && ks.1 then Success(Existing(Some(vers), |ks.0|, MaxOf(ks.0)))
        else if ks.1 then Success(Existing(Some(vers), 0, 0))
        else Success(Existing(None, 0, 0))
  }

  /** The keep-or-trash decision as written: any version other than the
      latest verified one is trashed, even a newer one. */
  function KeepDecisionAsWritten(e: Existing): Result<Why, PyError> {
    if e.vers.Some? && e.count > 0 then
      var k :- Verskey(e.vers.value);
      Success(if k != e.latest then LaterVersion else Good)
    else Success(Good)
  }

  /** The decision as its message states it: trash only a version older
      than the latest verified one. */
  function KeepDecision(e: Existing): (r: Result<Why, PyError>)
    ensures r.Success? ==> r.value in {Good, LaterVersion}
    ensures r == Success(LaterVersion) <==>
              e.vers.Some? && e.count > 0 && Verskey(e.vers.value).Success? && Verskey(e.vers.value).value < e.latest
  {
    if e.vers.Some? && e.count > 0 then
      var k :- Verskey(e.vers.value);
      Success(if k < e.latest then LaterVersion else Good)
    else Success(Good)
  }

  /** A file at version `n` whose verified siblings go up to `m < n` is
      trashed as "we have a later version" as written, and kept as
      intended. */
  lemma NewerFileTrashedAsWritten(n: nat, m: nat)
    requires m < n
    ensures KeepDecisionAsWritten(Existing(Some("v" + NatToStr(n)), 1, m)) == Success(LaterVersion)
    ensures KeepDecision(Existing(Some("v" + NatToStr(n)), 1, m)) == Success(Good)
  {
    NewerTrashed(n, m);
    NewerKept(n, m);
  }

  lemma NewerTrashed(n: nat, m: nat)
    requires m < n
    ensures KeepDecisionAsWritten(Existing(Some("v" + NatToStr(n)), 1, m)) == Success(LaterVersion)
  {
    VerskeyOfNumber(n);
  }

  lemma NewerKept(n: nat, m: nat)
    requires m < n
    ensures KeepDecision(Existing(Some("v" + NatToStr(n)), 1, m)) == Success(Good)
  {
    VerskeyOfNumber(n);
  }

  /** A file whose version directory is not a version, listed at a status
      that keeps it, raises as written and is kept as intended. */
  lemma UnknownVersionRaisesAsWritten(comps: seq<Str>)
    requires |comps| > 9 && comps[9] == "latest"
    requires forall k :: 0 <= k < |comps| ==> '/' !in comps[k]
    ensures ExistingVersionsAsWritten(Join(comps, "/"), []) == Failure(NameError)
    ensures ExistingVersions(Join(comps, "/"), []) == Success(Existing(None, 0, 0))
    ensures KeepDecision(ExistingVersions(Join(comps, "/"), []).value) == Success(Good)
  {
    Abspath2VersOfJoin(comps);
    assert !CheckDrsVersionDir("latest");
  }

  /** `mvgood2scratch` up to the moves: the reason a file is listed under.
      `dbStatus` is the status of its own row, None when there is none. */
  function Classify(size: int, abspath: Str, dbStatus: Option<int>, others: seq<(Str, int)>,
                    verified: seq<Str>): (r: Result<Why, PyError>)
    ensures size == 0 ==> r == Success(ZeroLength)
    ensures size != 0 && dbStatus.None? ==> r == NotInDb(abspath, others)
    ensures size != 0 && dbStatus.Some? && 0 <= dbStatus.value < 20 ==> r == Success(StatusSaysNo)
    ensures r.Success? && r.value in {Good, LaterVersion} ==>
              size != 0 && dbStatus.Some? && (dbStatus.value >= 20 || dbStatus.value < 0)
  {
    if size == 0 then Success(ZeroLength)
    else match dbStatus
      case None => NotInDb(abspath, others)
      case Some(status) =>
        if status >= 20 || status < 0 then
          var e :- ExistingVersions(abspath, verified);
          KeepDecision(e)
        else Success(StatusSaysNo)
  }

  /** One file: classified, then listed as good or bad. */
  function Collect(l: Lists, filename: Str, size: int, abspath: Str, dbStatus: Option<int>,
                   others: seq<(Str, int)>, verified: seq<Str>): (r: Result<Lists, PyError>)
    ensures r.Success? ==> Total(r.value.whys) == Total(l.whys) + 1
    ensures r.Success? && NoDup(l.bad) ==> NoDup(r.value.bad)
  {
    var w :- Classify(size, abspath, dbStatus, others, verified);
    ListsKeepBadUnique(l, filename, w);
    Success(if w == Good then ListGood(l, filename) else ListBad(l, filename, w))
  }

  // ---------------------------------------------------------------------
  // check_facetsdir
  // ---------------------------------------------------------------------

  predicate Digits1(s: Str) {
    |s| > 0 && AllDigits(s)
  }

  /** `s` matches `r\d+i\d+p\d+` completely. */
  predicate IsEnsemble(s: Str) {
    |s| > 0 && s[0] == 'r' &&
    var a := Split(s[1..], "i");
    |a| == 2 && Digits1(a[0]) &&
    var b := Split(a[1], "p");
    |b| == 2 && Digits1(b[0]) && Digits1(b[1])
  }

  /** `re.findall('r\d+i\d+p\d+.*withdrawn', s)` is not empty: an ensemble,
      then anything but a newline, then `withdrawn`. */
  predicate HasWithdrawnEnsemble(s: Str) {
    exists i, j, k :: 0 <= i < j <= k && k + 9 <= |s| && IsEnsemble(s[i..j]) &&
      '\n' !in s[j..k] && s[k..k + 9] == "withdrawn"
  }

  /** The sanity check on one source directory: nine facets, the last an
      ensemble (or a withdrawn one). */
  function CheckFacetsDir(topdir: Str, sdir: Str): (r: Result<seq<Str>, PyError>)
    ensures r.Success? ==> |r.value| == 9 && (IsEnsemble(r.value[8]) || HasWithdrawnEnsemble(r.value[8]))
  {
    var facets := SliceFrom(Split(sdir, "/"), 1 + |Split(topdir, "/")|);
    if |facets| != 9 then Failure(GenericException("should have 9 facets"))
    else if !IsEnsemble(facets[8]) && !HasWithdrawnEnsemble(facets[8]) then
      Failure(GenericException("should be an ensemble facet"))
    else Success(facets)
  }

  /** `topdir/sub/f1/.../fn` splits into the pieces of `topdir`, then
      `sub`, then the facets. */
  lemma SubDirSplit(topdir: Str, sub: Str, fs: seq<Str>)
    requires '/' !in sub
    requires |fs| > 0 && forall k :: 0 <= k < |fs| ==> '/' !in fs[k]
    ensures Split(topdir + ['/'] + sub + ['/'] + Join(fs, "/"), "/") == Split(topdir, "/") + [sub] + fs
  {
    var j := Join(fs, "/");
    var tail := sub + ['/'] + j;
    assert Split(tail, "/") == [sub] + fs by {
      SplitJoinChar(fs, '/');
      FindAbsentChar(sub, '/');
      SplitConcatChar(sub, j, '/');
    }
    ConcatAssoc(topdir + ['/'], sub, ['/']);
    ConcatAssoc(topdir + ['/'], sub + ['/'], j);
    SplitConcatChar(topdir, tail, '/');
  }

  /** For `topdir/scratch/f1/.../f9` (here with any one directory in place
      of `scratch`) the facets read back are `f1..f9`, so the check passes
      exactly when `f9` is an ensemble. */
  lemma ScratchDirFacets(topdir: Str, sub: Str, fs: seq<Str>)
    requires '/' !in sub
    requires |fs| == 9 && forall k :: 0 <= k < 9 ==> '/' !in fs[k]
    ensures var r := CheckFacetsDir(topdir, topdir + ['/'] + sub + ['/'] + Join(fs, "/"));
            (r.Success? <==> IsEnsemble(fs[8]) || HasWithdrawnEnsemble(fs[8])) &&
            (r.Success? ==> r.value == fs)
  {
    SubDirSplit(topdir, sub, fs);
    var t := Split(topdir, "/");
    var parts := Split(topdir + ['/'] + sub + ['/'] + Join(fs, "/"), "/");
    assert SliceFrom(parts, 1 + |t|) == fs;
  }
}
