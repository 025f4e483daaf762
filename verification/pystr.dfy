/** Python 2 `str` operations on `seq<char>`, with the exact edge cases the
    modelled code relies on: `find`/`rfind` return -1, `split` keeps empty
    pieces, slices clamp and accept negative bounds, `int()` strips
    whitespace and accepts a sign, `lower`/`upper` are ASCII-only. */
module PyStr {
  import opened Wrappers

  type Str = seq<char>

  /** `sub` occurs in `s` starting at index `i`. */
  predicate OccursAt(s: Str, sub: Str, i: int) {
    0 <= i && i + |sub| <= |s| && s[i..i + |sub|] == sub
  }

  /** `s.startswith(p)` */
  predicate StartsWith(s: Str, p: Str) {
    |p| <= |s| && s[..|p|] == p
  }

  /** `s.endswith(p)` */
  predicate EndsWith(s: Str, p: Str) {
    |p| <= |s| && s[|s| - |p|..] == p
  }

  /** The first occurrence of `sub` at or after `i`, or -1. */
  function FindFrom(s: Str, sub: Str, i: nat): (r: int)
    requires i <= |s|
    ensures r == -1 || (i <= r && OccursAt(s, sub, r))
    ensures r == -1 ==> forall j :: i <= j <= |s| ==> !OccursAt(s, sub, j)
    ensures r != -1 ==> forall j :: i <= j < r ==> !OccursAt(s, sub, j)
    decreases |s| - i
  {
    if OccursAt(s, sub, i) then i
    else if i == |s| then -1
    else FindFrom(s, sub, i + 1)
  }

  /** `s.find(sub)`: the least index where `sub` occurs, or -1. */
  function Find(s: Str, sub: Str): (r: int)
    ensures r == -1 || OccursAt(s, sub, r)
    ensures r == -1 ==> forall j :: 0 <= j <= |s| ==> !OccursAt(s, sub, j)
    ensures r != -1 ==> forall j :: 0 <= j < r ==> !OccursAt(s, sub, j)
  {
    FindFrom(s, sub, 0)
  }

  /** Python's `sub in s`. */
  predicate Contains(s: Str, sub: Str) {
    Find(s, sub) >= 0
  }

  /** The last occurrence of `sub` at or before `i`, or -1. */
  function RFindFrom(s: Str, sub: Str, i: int): (r: int)
    requires -1 <= i <= |s|
    ensures r == -1 || (r <= i && OccursAt(s, sub, r))
    ensures forall j :: r < j <= i ==> !OccursAt(s, sub, j)
    decreases i + 1
  {
    if i < 0 then -1
    else if OccursAt(s, sub, i) then i
    else RFindFrom(s, sub, i - 1)
  }

  /** `s.rfind(sub)`: the greatest index where `sub` occurs, or -1. */
  function RFind(s: Str, sub: Str): (r: int)
    ensures r == -1 || OccursAt(s, sub, r)
    ensures forall j :: r < j <= |s| ==> !OccursAt(s, sub, j)
  {
    RFindFrom(s, sub, |s|)
  }

  /** A single-character needle occurs exactly where that character is. */
  lemma OccursAtChar(s: Str, c: char, i: int)
    ensures OccursAt(s, [c], i) <==> 0 <= i < |s| && s[i] == c
  {
    if 0 <= i < |s| {
      assert s[i..i + 1] == [s[i]];
    }
  }

  /** `find` of a character that is absent is -1. */
  lemma FindAbsentChar(s: Str, c: char)
    requires c !in s
    ensures Find(s, [c]) == -1
  {
    var r := Find(s, [c]);
    if r != -1 {
      OccursAtChar(s, c, r);
    }
  }

  /** `find` returns the first occurrence it is shown. */
  /** Finding one character: -1 exactly when it is absent, else its
      first position. */
  lemma FindChar(s: Str, c: char)
    ensures var i := Find(s, [c]);
            (i == -1 <==> c !in s) && (i != -1 ==> 0 <= i < |s| && s[i] == c && c !in s[..i])
  {
    var i := Find(s, [c]);
    forall j | 0 <= j < |s|
      ensures OccursAt(s, [c], j) <==> s[j] == c
    {
      OccursAtChar(s, c, j);
    }
    if i != -1 {
      OccursAtChar(s, c, i);
    }
  }

  lemma FindIsFirst(s: Str, sub: Str, i: int)
    requires OccursAt(s, sub, i)
    requires forall j :: 0 <= j < i ==> !OccursAt(s, sub, j)
    ensures Find(s, sub) == i
  {
  }

  /** `s.split(sep)` for a non-empty separator; empty pieces are kept. */
  function Split(s: Str, sep: Str): (parts: seq<Str>)
    requires |sep| > 0
    ensures |parts| >= 1
    decreases |s|
  {
    var i := Find(s, sep);
    if i < 0 then [s] else [s[..i]] + Split(s[i + |sep|..], sep)
  }

  /** `sep.join(parts)` */
  function Join(parts: seq<Str>, sep: Str): (r: Str)
    decreases |parts|
  {
    if |parts| == 0 then []
    else if |parts| == 1 then parts[0]
    else parts[0] + sep + Join(parts[1..], sep)
  }

  /** Joining the pieces of a split with the same separator restores the string. */
  lemma {:induction false} JoinSplit(s: Str, sep: Str)
    requires |sep| > 0
    ensures Join(Split(s, sep), sep) == s
    decreases |s|
  {
    var i := Find(s, sep);
    if i < 0 {
      SplitNone(s, sep);
    } else {
      var rest := s[i + |sep|..];
      var tail := Split(rest, sep);
      SplitStep(s, sep);
      calc {
        Join(Split(s, sep), sep);
        { JoinCons(s[..i], tail, sep); }
        s[..i] + sep + Join(tail, sep);
        { JoinSplit(rest, sep); }
        s[..i] + sep + rest;
        { SplitAround(s, sep, i); }
        s;
      }
    }
  }

  /** Without an occurrence of the separator, a split is the string alone. */
  lemma SplitNone(s: Str, sep: Str)
    requires |sep| > 0 && Find(s, sep) < 0
    ensures Split(s, sep) == [s] && Join(Split(s, sep), sep) == s
  {
  }

  /** One step of a split at the first occurrence of the separator. */
  lemma SplitStep(s: Str, sep: Str)
    requires |sep| > 0 && Find(s, sep) >= 0
    ensures var i := Find(s, sep);
            Split(s, sep) == [s[..i]] + Split(s[i + |sep|..], sep)
  {
  }

  /** Joining a head onto a non-empty list puts one separator between. */
  lemma JoinCons(a: Str, tail: seq<Str>, sep: Str)
    requires |tail| >= 1
    ensures Join([a] + tail, sep) == a + sep + Join(tail, sep)
  {
    assert ([a] + tail)[1..] == tail;
  }

  /** A string is the text before an occurrence, the occurrence and the rest. */
  /** A text is what comes before `$`, with or without a final newline. */
  lemma DollarParts(t: Str)
    ensures t == t[..DollarEnd(t)] || t == t[..DollarEnd(t)] + "\n"
  {
    var e := DollarEnd(t);
    if e < |t| {
      assert t[e..] == "\n";
      assert t == t[..e] + t[e..];
    } else {
      assert t == t[..e];
    }
  }

  /** `$` matches right after a text not ending in a newline, whether or
      not one follows. */
  lemma DollarEndOf(s: Str, t: Str)
    requires t == s || t == s + "\n"
    requires |s| == 0 || s[|s| - 1] != '\n'
    ensures DollarEnd(t) == |s| && t[..|s|] == s
  {
    if t != s {
      assert t[|t| - 1] == '\n';
    }
  }

  /** Concatenation regroups. */
  lemma ConcatAssoc<T>(a: seq<T>, b: seq<T>, c: seq<T>)
    ensures a + (b + c) == (a + b) + c
  {
  }

  /** The outer parts of `a + m + b`, taken back by slicing. */
  lemma SliceAround<T>(a: seq<T>, m: seq<T>, b: seq<T>)
    ensures (a + m + b)[..|a|] == a
    ensures (a + m + b)[|a| + |m|..] == b
  {
  }

  /** Cutting a sequence and gluing the halves gives it back. */
  lemma TakeDrop<T>(s: seq<T>, n: int)
    requires 0 <= n <= |s|
    ensures s[..n] + s[n..] == s
  {
  }

  lemma AppendNil<T>(xs: seq<T>)
    ensures xs + [] == xs
  {
  }

  /** A text splits into one part exactly when the separator is absent. */
  lemma SplitOne(s: Str, sep: Str)
    requires |sep| > 0
    ensures |Split(s, sep)| == 1 <==> Find(s, sep) == -1
  {
    if Find(s, sep) >= 0 {
      SplitStep(s, sep);
    }
  }

  /** Before the first occurrence there is none. */
  lemma FindBeforeFirst(s: Str, sub: Str, i: int)
    requires |sub| > 0 && i == Find(s, sub) && i >= 0
    ensures Find(s[..i], sub) == -1
  {
    forall j | 0 <= j <= i
      ensures !OccursAt(s[..i], sub, j)
    {
      if OccursAt(s[..i], sub, j) {
        assert s[j..j + |sub|] == s[..i][j..j + |sub|];
        assert OccursAt(s, sub, j);
      }
    }
  }

  lemma SplitAround(s: Str, sep: Str, i: int)
    requires OccursAt(s, sep, i)
    ensures s == s[..i] + sep + s[i + |sep|..]
  {
    assert s == s[..i] + s[i..i + |sep|] + s[i + |sep|..];
  }

  /** Splitting on one character undoes a join of pieces free of it. */
  lemma {:induction false} SplitJoinChar(parts: seq<Str>, c: char)
    requires |parts| >= 1
    requires forall k :: 0 <= k < |parts| ==> c !in parts[k]
    ensures Split(Join(parts, [c]), [c]) == parts
    decreases |parts|
  {
    if |parts| == 1 {
      FindAbsentChar(parts[0], c);
    } else {
      var p := parts[0];
      var rest := Join(parts[1..], [c]);
      var s := p + [c] + rest;
      assert Join(parts, [c]) == s;
      OccursAtChar(s, c, |p|);
      forall j | 0 <= j < |p|
        ensures !OccursAt(s, [c], j)
      {
        OccursAtChar(s, c, j);
        assert s[j] == p[j];
      }
      FindIsFirst(s, [c], |p|);
      assert s[..|p|] == p;
      assert s[|p| + 1..] == rest;
      SplitJoinChar(parts[1..], c);
      assert parts == [p] + parts[1..];
    }
  }

  /** No piece of a split on one character contains that character. */
  lemma {:induction false} SplitPiecesFree(s: Str, c: char)
    ensures forall k :: 0 <= k < |Split(s, [c])| ==> c !in Split(s, [c])[k]
    decreases |s|
  {
    var i := Find(s, [c]);
    if i < 0 {
      if c in s {
        var j :| 0 <= j < |s| && s[j] == c;
        OccursAtChar(s, c, j);
      }
    } else {
      SplitPiecesFree(s[i + 1..], c);
      var parts := Split(s, [c]);
      assert parts == [s[..i]] + Split(s[i + 1..], [c]);
      if c in s[..i] {
        var j :| 0 <= j < i && s[..i][j] == c;
        OccursAtChar(s, c, j);
      }
      forall k | 0 <= k < |parts|
        ensures c !in parts[k]
      {
        if k > 0 {
          assert parts[k] == Split(s[i + 1..], [c])[k - 1];
        }
      }
    }
  }

  /** A join of pieces free of a character, with a separator free of it,
      is free of it. */
  lemma {:induction false} JoinFree(parts: seq<Str>, sep: Str, c: char)
    requires c !in sep
    requires forall k :: 0 <= k < |parts| ==> c !in parts[k]
    ensures c !in Join(parts, sep)
    decreases |parts|
  {
    if |parts| > 1 {
      JoinFree(parts[1..], sep, c);
      assert Join(parts, sep) == parts[0] + sep + Join(parts[1..], sep);
    }
  }

  /** Every piece of a join free of a character is free of it. */
  lemma {:induction false} JoinFreeParts(parts: seq<Str>, sep: Str, c: char)
    requires c !in Join(parts, sep)
    ensures forall k :: 0 <= k < |parts| ==> c !in parts[k]
    decreases |parts|
  {
    if |parts| > 1 {
      assert Join(parts, sep) == parts[0] + sep + Join(parts[1..], sep);
      JoinFreeParts(parts[1..], sep, c);
      forall k | 1 <= k < |parts| ensures c !in parts[k] {
        assert parts[k] == parts[1..][k - 1];
      }
    }
  }

  /** Splitting at the first occurrence of a character. */
  lemma SplitLead(a: Str, c: char, b: Str)
    requires c !in a
    ensures Split(a + [c] + b, [c]) == [a] + Split(b, [c])
  {
    var s := a + [c] + b;
    OccursAtChar(s, c, |a|);
    forall j | 0 <= j < |a|
      ensures !OccursAt(s, [c], j)
    {
      OccursAtChar(s, c, j);
      assert s[j] == a[j];
    }
    FindIsFirst(s, [c], |a|);
    assert s[..|a|] == a;
    assert s[|a| + 1..] == b;
  }

  /** Splitting on one character distributes over a join at that character. */
  lemma SplitConcatChar(a: Str, b: Str, c: char)
    ensures Split(a + [c] + b, [c]) == Split(a, [c]) + Split(b, [c])
  {
    var xs, ys := Split(a, [c]), Split(b, [c]);
    JoinSplit(a, [c]);
    JoinSplit(b, [c]);
    JoinAppend(xs, ys, [c]);
    SplitPiecesFree(a, c);
    SplitPiecesFree(b, c);
    SplitJoinChar(xs + ys, c);
  }

  /** Joining two non-empty lists of pieces joins the two joins. */
  lemma {:induction false} JoinAppend(xs: seq<Str>, ys: seq<Str>, sep: Str)
    requires |xs| >= 1 && |ys| >= 1
    ensures Join(xs + ys, sep) == Join(xs, sep) + sep + Join(ys, sep)
    decreases |xs|
  {
    if |xs| == 1 {
      assert (xs + ys)[1..] == ys;
    } else {
      JoinAppend(xs[1..], ys, sep);
      assert (xs + ys)[1..] == xs[1..] + ys;
    }
  }

  /** `s.replace(pat, repl)`: every non-overlapping occurrence, scanning left to right. */
  function Replace(s: Str, pat: Str, repl: Str): Str
    requires |pat| > 0
  {
    Join(Split(s, pat), repl)
  }

  /** An occurrence past the first part of a concatenation is an
      occurrence in the second part. */
  lemma OccursShift(x: Str, y: Str, sub: Str, j: int)
    requires j >= 0
    ensures OccursAt(x + y, sub, |x| + j) <==> OccursAt(y, sub, j)
  {
    if j + |sub| <= |y| {
      assert (x + y)[|x| + j..|x| + j + |sub|] == y[j..j + |sub|];
    }
  }

  /** No occurrence in `x + y` when none starts inside `x` and `y` has none. */
  lemma FindNoneConcat(x: Str, y: Str, sub: Str)
    requires forall j :: 0 <= j < |x| ==> !OccursAt(x + y, sub, j)
    requires Find(y, sub) == -1
    ensures Find(x + y, sub) == -1
  {
    forall j | 0 <= j <= |x + y|
      ensures !OccursAt(x + y, sub, j)
    {
      if j >= |x| {
        OccursShift(x, y, sub, j - |x|);
      }
    }
  }

  /** A text without the pattern is left alone by `replace`. */
  lemma ReplaceAbsent(s: Str, pat: Str, repl: Str)
    requires |pat| > 0 && Find(s, pat) == -1
    ensures Replace(s, pat, repl) == s
  {
  }

  /** A text without the separator's first character holds no
      occurrence of it. */
  lemma FindAbsentLead(s: Str, sep: Str)
    requires |sep| > 0 && sep[0] !in s
    ensures Find(s, sep) == -1
  {
    forall j | 0 <= j <= |s| ensures !OccursAt(s, sep, j) {
      if j + |sep| <= |s| {
        assert s[j..j + |sep|][0] == s[j];
      }
    }
  }

  /** Splitting undoes a join of pieces free of the separator's first
      character. */
  lemma {:induction false} SplitJoinLead(parts: seq<Str>, sep: Str)
    requires |sep| > 0 && |parts| >= 1
    requires forall k :: 0 <= k < |parts| ==> sep[0] !in parts[k]
    ensures Split(Join(parts, sep), sep) == parts
    decreases |parts|
  {
    if |parts| == 1 {
      FindAbsentLead(parts[0], sep);
    } else {
      var a := parts[0];
      var rest := Join(parts[1..], sep);
      var s := a + sep + rest;
      assert Join(parts, sep) == s;
      forall j | 0 <= j < |a| ensures !OccursAt(s, sep, j) {
        if j + |sep| <= |s| {
          assert s[j] == a[j];
          assert s[j..j + |sep|][0] == s[j];
        }
      }
      assert s[|a|..|a| + |sep|] == sep;
      FindIsFirst(s, sep, |a|);
      assert s[..|a|] == a;
      assert s[|a| + |sep|..] == rest;
      SplitJoinLead(parts[1..], sep);
      assert parts == [a] + parts[1..];
    }
  }

  /** `split` of `a + sep + b` when the first occurrence is the one after
      `a` and `b` holds none: the two pieces. */
  lemma SplitOnce(a: Str, sep: Str, b: Str)
    requires |sep| > 0
    requires forall j :: 0 <= j < |a| ==> !OccursAt(a + sep + b, sep, j)
    requires Find(b, sep) == -1
    ensures Split(a + sep + b, sep) == [a, b]
  {
    var s := a + sep + b;
    assert s[|a|..|a| + |sep|] == sep;
    FindIsFirst(s, sep, |a|);
    assert s[..|a|] == a;
    assert s[|a| + |sep|..] == b;
    assert Split(b, sep) == [b];
  }

  /** `replace` on `a + pat + b` when the first occurrence is the one after
      `a` and `b` holds none. */
  lemma ReplaceOnce(a: Str, pat: Str, b: Str, repl: Str)
    requires |pat| > 0
    requires forall j :: 0 <= j < |a| ==> !OccursAt(a + pat + b, pat, j)
    requires Find(b, pat) == -1
    ensures Replace(a + pat + b, pat, repl) == a + repl + b
  {
    SplitOnce(a, pat, b);
    assert [a, b][1..] == [b];
    assert Join([a, b], repl) == a + repl + Join([b], repl);
  }

  /** Python whitespace as `str.strip()` sees it. */
  predicate IsSpace(c: char) {
    c == ' ' || (9 <= c as int <= 13)
  }

  /** Drop leading whitespace. */
  function LStrip(s: Str): (r: Str)
    ensures |r| <= |s| && r == s[|s| - |r|..]
    ensures |r| > 0 ==> !IsSpace(r[0])
    decreases |s|
  {
    if |s| > 0 && IsSpace(s[0]) then LStrip(s[1..]) else s
  }

  /** Drop trailing whitespace. */
  function RStrip(s: Str): (r: Str)
    ensures |r| <= |s| && r == s[..|r|]
    ensures |r| > 0 ==> !IsSpace(r[|r| - 1])
    decreases |s|
  {
    if |s| > 0 && IsSpace(s[|s| - 1]) then RStrip(s[..|s| - 1]) else s
  }

  /** `s.strip()` */
  function Strip(s: Str): Str {
    RStrip(LStrip(s))
  }

  /** `s.rstrip(c)` for one character `c`. */
  function RStripChar(s: Str, c: char): (r: Str)
    ensures |r| <= |s| && r == s[..|r|]
    ensures |r| > 0 ==> r[|r| - 1] != c
    decreases |s|
  {
    if |s| > 0 && s[|s| - 1] == c then RStripChar(s[..|s| - 1], c) else s
  }

  /** `s.lstrip(c)` for one character `c`. */
  function LStripChar(s: Str, c: char): (r: Str)
    ensures |r| <= |s| && r == s[|s| - |r|..]
    ensures |r| > 0 ==> r[0] != c
    decreases |s|
  {
    if |s| > 0 && s[0] == c then LStripChar(s[1..], c) else s
  }

  /** `s.strip(c)` for one character `c`. */
  function StripChar(s: Str, c: char): Str {
    RStripChar(LStripChar(s, c), c)
  }

  function LowerChar(c: char): char {
    if 'A' <= c <= 'Z' then (c as int + 32) as char else c
  }

  function UpperChar(c: char): char {
    if 'a' <= c <= 'z' then (c as int - 32) as char else c
  }

  /** `s.lower()` on ASCII letters, as Python 2 byte strings do. */
  function Lower(s: Str): (r: Str)
    ensures |r| == |s|
  {
    seq(|s|, i requires 0 <= i < |s| => LowerChar(s[i]))
  }

  /** `s.upper()` on ASCII letters. */
  function Upper(s: Str): (r: Str)
    ensures |r| == |s|
  {
    seq(|s|, i requires 0 <= i < |s| => UpperChar(s[i]))
  }

  lemma LowerIdempotent(s: Str)
    ensures Lower(Lower(s)) == Lower(s)
  {
  }

  predicate IsDigit(c: char) {
    '0' <= c <= '9'
  }

  predicate AllDigits(s: Str) {
    forall i :: 0 <= i < |s| ==> IsDigit(s[i])
  }

  /** The value of a string of decimal digits. */
  function DigitsValue(s: Str): nat
    requires AllDigits(s)
    decreases |s|
  {
    if |s| == 0 then 0
    else DigitsValue(s[..|s| - 1]) * 10 + (s[|s| - 1] as int - '0' as int)
  }

  function DigitChar(d: nat): char
    requires d < 10
  {
    ('0' as int + d) as char
  }

  /** `str(n)` for a natural number. */
  function NatToStr(n: nat): (r: Str)
    ensures |r| > 0 && AllDigits(r)
    decreases n
  {
    if n < 10 then [DigitChar(n)] else NatToStr(n / 10) + [DigitChar(n % 10)]
  }

  /** `str(n)` for an integer. */
  function IntToStr(n: int): (r: Str)
    ensures |r| > 0 && (r[0] == '-' <==> n < 0)
    ensures forall k :: 0 <= k < |r| ==> r[k] == '-' || IsDigit(r[k])
  {
    if n < 0 then "-" + NatToStr(-n) else NatToStr(n)
  }

  /** Python 2 `int(s)`: surrounding whitespace, an optional sign and at
      least one decimal digit; anything else is a ValueError (None). */
  function ParseInt(s: Str): Option<int> {
    var t := Strip(s);
    if |t| > 0 && (t[0] == '-' || t[0] == '+') then
      var d := t[1..];
      if |d| > 0 && AllDigits(d) then
        var v: int := DigitsValue(d);
        Some(if t[0] == '-' then -v else v)
      else None
    else if |t| > 0 && AllDigits(t) then Some(DigitsValue(t))
    else None
  }

  /** A stripped text starting with neither a sign nor a digit is no integer. */
  lemma ParseIntNoDigit(s: Str)
    requires var t := Strip(s); |t| > 0 && t[0] != '-' && t[0] != '+' && !IsDigit(t[0])
    ensures ParseInt(s).None?
  {
    var t := Strip(s);
    assert !AllDigits(t) by {
      assert !IsDigit(t[0]);
    }
  }

  lemma {:induction false} DigitsOfNat(n: nat)
    ensures DigitsValue(NatToStr(n)) == n
    decreases n
  {
    var r := NatToStr(n);
    if n >= 10 {
      DigitsOfNat(n / 10);
      assert r[..|r| - 1] == NatToStr(n / 10);
    }
  }

  lemma StripNoSpace(s: Str)
    requires |s| > 0 && !IsSpace(s[0]) && !IsSpace(s[|s| - 1])
    ensures Strip(s) == s
  {
  }

  /** Digits, with or without a newline after them, strip to the digits. */
  lemma StripDigits(digits: Str, tail: Str)
    requires |digits| > 0 && AllDigits(digits)
    requires tail == "" || tail == "\n"
    ensures Strip(digits + tail) == digits
  {
    var s := digits + tail;
    assert s[0] == digits[0];
    assert LStrip(s) == s;
    if tail == "" {
      assert s == digits;
      StripNoSpace(digits);
    } else {
      assert s[..|s| - 1] == digits;
      assert RStrip(s) == RStrip(digits);
      assert !IsSpace(digits[|digits| - 1]);
    }
  }

  /** `int(str(n)) == n` */
  lemma ParseIntToStr(n: int)
    ensures ParseInt(IntToStr(n)) == Some(n)
  {
    var t := IntToStr(n);
    StripNoSpace(t);
    if n < 0 {
      DigitsOfNat(-n);
      assert t[1..] == NatToStr(-n);
    } else {
      DigitsOfNat(n);
    }
  }

  /** `s.split()` with no separator: runs of whitespace separate fields,
      and no field is empty. */
  function SplitWs(s: Str): (r: seq<Str>)
    ensures forall k :: 0 <= k < |r| ==> |r[k]| > 0
    decreases |s|
  {
    var t := LStrip(s);
    if |t| == 0 then []
    else
      var n := WordLen(t, 0);
      [t[..n]] + SplitWs(t[n..])
  }

  /** Length of the leading run of non-whitespace characters from `i`. */
  function WordLen(t: Str, i: nat): (n: nat)
    requires i <= |t|
    ensures i <= n <= |t|
    ensures n < |t| ==> IsSpace(t[n])
    ensures forall k :: i <= k < n ==> !IsSpace(t[k])
    decreases |t| - i
  {
    if i == |t| || IsSpace(t[i]) then i else WordLen(t, i + 1)
  }

  /** Clamp a Python slice bound (negative counts from the end). */
  function ClampIndex(i: int, n: nat): (r: nat)
    ensures r <= n
  {
    if i < 0 then (if i + n < 0 then 0 else i + n)
    else if i > n then n
    else i
  }

  /** `s[i:j]` with Python's negative and out-of-range bounds. */
  function Slice<T>(s: seq<T>, i: int, j: int): (r: seq<T>)
    ensures |r| <= |s|
  {
    var a := ClampIndex(i, |s|);
    var b := ClampIndex(j, |s|);
    if a <= b then s[a..b] else []
  }

  /** `s[i:]` */
  function SliceFrom<T>(s: seq<T>, i: int): seq<T> {
    Slice(s, i, |s|)
  }

  /** `s[:j]` */
  function SliceTo<T>(s: seq<T>, j: int): seq<T> {
    Slice(s, 0, j)
  }

  /** `s[i]` with a negative index counted from the end; None is an IndexError. */
  function Index<T>(s: seq<T>, i: int): (r: Option<T>)
    ensures r.Some? <==> -|s| <= i < |s|
  {
    if 0 <= i < |s| then Some(s[i])
    else if -|s| <= i < 0 then Some(s[|s| + i])
    else None
  }

  /** Python 2 string comparison: byte-wise lexicographic order. */
  predicate StrLess(a: Str, b: Str)
    decreases |a|
  {
    |b| > 0 && (|a| == 0 || a[0] < b[0] || (a[0] == b[0] && StrLess(a[1..], b[1..])))
  }

  lemma {:induction false} StrLessIrreflexive(a: Str)
    ensures !StrLess(a, a)
    decreases |a|
  {
    if |a| > 0 {
      StrLessIrreflexive(a[1..]);
    }
  }

  lemma {:induction false} StrLessTrans(a: Str, b: Str, c: Str)
    requires StrLess(a, b) && StrLess(b, c)
    ensures StrLess(a, c)
    decreases |a|
  {
    if |a| > 0 && a[0] == b[0] && b[0] == c[0] {
      StrLessTrans(a[1..], b[1..], c[1..]);
    }
  }

  lemma {:induction false} StrLessTotal(a: Str, b: Str)
    requires a != b
    ensures StrLess(a, b) || StrLess(b, a)
    decreases |a|
  {
    if |a| > 0 && |b| > 0 && a[0] == b[0] {
      assert a == [a[0]] + a[1..] && b == [b[0]] + b[1..];
      StrLessTotal(a[1..], b[1..]);
    }
  }

  /** Strictly ascending in Python 2 string order. */
  predicate StrSorted(s: seq<Str>) {
    forall i, j :: 0 <= i < j < |s| ==> StrLess(s[i], s[j])
  }

  /** Add a text to an ascending list unless it is already there. */
  function InsertStr(x: Str, s: seq<Str>): (r: seq<Str>)
    ensures forall y :: y in r <==> y == x || y in s
    decreases |s|
  {
    if |s| == 0 then [x]
    else if x == s[0] then s
    else if StrLess(x, s[0]) then [x] + s
    else [s[0]] + InsertStr(x, s[1..])
  }

  lemma {:induction false} InsertStrSorted(x: Str, s: seq<Str>)
    requires StrSorted(s)
    ensures StrSorted(InsertStr(x, s))
    decreases |s|
  {
    if |s| > 0 && x != s[0] {
      if StrLess(x, s[0]) {
        var r := [x] + s;
        forall i, j | 0 <= i < j < |r|
          ensures StrLess(r[i], r[j])
        {
          if i == 0 && j > 1 {
            StrLessTrans(x, s[0], s[j - 1]);
          }
        }
      } else {
        StrLessTotal(x, s[0]);
        InsertStrSorted(x, s[1..]);
        var t := InsertStr(x, s[1..]);
        var r := [s[0]] + t;
        forall i, j | 0 <= i < j < |r|
          ensures StrLess(r[i], r[j])
        {
          if i == 0 {
            var y := r[j];
            assert y == t[j - 1];
            assert y in t;
            if y != x {
              var m :| 0 <= m < |s| - 1 && s[1..][m] == y;
              assert s[m + 1] == y;
            }
          } else {
            assert r[i] == t[i - 1] && r[j] == t[j - 1];
          }
        }
      }
    }
  }

  /** `l = list(set(xs)); l.sort()`: the distinct texts in ascending order. */
  function SortStrs(xs: seq<Str>): (r: seq<Str>)
    ensures forall y :: y in r <==> y in xs
    decreases |xs|
  {
    if |xs| == 0 then []
    else
      var n := |xs|;
      assert xs == xs[..n - 1] + [xs[n - 1]];
      InsertStr(xs[n - 1], SortStrs(xs[..n - 1]))
  }

  lemma {:induction false} SortStrsSorted(xs: seq<Str>)
    ensures StrSorted(SortStrs(xs))
    decreases |xs|
  {
    if |xs| > 0 {
      SortStrsSorted(xs[..|xs| - 1]);
      InsertStrSorted(xs[|xs| - 1], SortStrs(xs[..|xs| - 1]));
    }
  }

  /** Where a regular expression's `$` can match: before a final newline
      if there is one, else at the end. */
  function DollarEnd(t: Str): (e: nat)
    ensures e <= |t|
  {
    if |t| > 0 && t[|t| - 1] == '\n' then |t| - 1 else |t|
  }
}
