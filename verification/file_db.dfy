/** The local file database: how a file record splits its location into
    root, path and name, the check of a record against the file on disk,
    the map-file line a record writes and the map-file reader, the root
    trim of the database, the flags a checksum run leaves, and the
    classification of directories against the directory cache. What the
    disk holds (sizes, times, digests, listings) is given as values. */
module FileDb {
  import opened Wrappers
  import opened PyStr
  import opened PyPath
  import Drs

  // ---------------------------------------------------------------------
  // Float texts
  // ---------------------------------------------------------------------

  /** A modification time, kept as the text Python's `repr` gives it;
      two times are equal exactly when their texts are. */
  type FloatText = Str

  function DigitRun(s: Str, i: nat): (n: nat)
    requires i <= |s|
    ensures i <= n <= |s| && forall k :: i <= k < n ==> IsDigit(s[k])
    ensures n < |s| ==> !IsDigit(s[n])
    decreases |s| - i
  {
    if i < |s| && IsDigit(s[i]) then DigitRun(s, i + 1) else i
  }

  /** The literals `float()` accepts after stripping: a sign, digits with
      at most one point and at least one digit, an exponent; or `inf`,
      `infinity` and `nan` in any case. */
  predicate FloatLiteral(s: Str) {
    var i := if |s| > 0 && (s[0] == '+' || s[0] == '-') then 1 else 0;
    var word := Lower(s[i..]);
    word == "inf" || word == "infinity" || word == "nan" ||
    (var a := DigitRun(s, i);
     var b := if a < |s| && s[a] == '.' then DigitRun(s, a + 1) else a;
     var digits := (a - i) + (if b > a then b - a - 1 else 0);
     digits > 0 &&
     (b == |s| ||
      (b < |s| - 1 && (s[b] == 'e' || s[b] == 'E') &&
       var c := if s[b + 1] == '+' || s[b + 1] == '-' then b + 2 else b + 1;
       c < |s| && DigitRun(s, c) == |s|)))
  }

  /** `float(s)`: None is a ValueError. */
  function ParseFloat(s: Str): (r: Option<FloatText>)
    ensures r.Some? <==> FloatLiteral(Strip(s))
  {
    if FloatLiteral(Strip(s)) then Some(Strip(s)) else None
  }

  // ---------------------------------------------------------------------
  // File records
  // ---------------------------------------------------------------------

  /** A row of `local_files` with the two values kept outside the table:
      the full location once known, and the root all rows hang from. */
  datatype FileDao = FileDao(
    root: Str, file: Option<Str>, path: Option<Str>, name: Option<Str>, size: Option<int>,
    mtime: Option<FloatText>, checked: Option<bool>, checksumType: Option<Str>, checksumValue: Option<Str>)

  /** `FileDB.__init__`: one trailing `/` is dropped from the root. */
  function TrimRoot(root: Str): (r: Str)
    ensures EndsWith(root, "/") ==> root == r + "/"
    ensures !EndsWith(root, "/") ==> r == root
  {
    if EndsWith(root, "/") then root[..|root| - 1] else root
  }

  /** The location a record is built from, split against the root: a
      location that already starts with the root is made relative by
      cutting the root and one more character; any other is joined to
      the root. Returns the full location and the relative one. */
  function RootSplitAsWritten(root: Str, file: Str): (r: (Str, Str))
  {
    if |root| > 0 && StartsWith(file, root) then (file, SliceFrom(file, |root| + 1))
    else (PathJoin(root, file), file)
  }

  /** The same split when the location must start with the root followed
      by `/`, so that a sibling directory whose name merely extends the
      root's is not cut. */
  function RootSplit(root: Str, file: Str): (r: (Str, Str))
  {
    if |root| > 0 && StartsWith(file, root + "/") then (file, file[|root| + 1..])
    else (PathJoin(root, file), file)
  }

  /** `FileDAO(**kwargs)`: an absent keyword is None. The name and path
      default to the base name and directory of the relative location. */
  function NewFileDaoWith(split: (Str, Str) -> (Str, Str), classRoot: Str, root: Option<Str>, file: Option<Str>,
                          path: Option<Str>, name: Option<Str>, size: Option<int>, mtime: Option<FloatText>,
                          checksumType: Option<Str>, checksumValue: Option<Str>): (d: FileDao)
    ensures d.root == root.GetOr(classRoot) && d.size == size && d.mtime == mtime
    ensures d.checksumType == checksumType && d.checksumValue == checksumValue && d.checked.None?
    ensures file.None? ==> d.file.None? && d.path == path && d.name == name
    ensures file.Some? ==> d.file == Some(split(d.root, file.value).0)
    ensures file.Some? ==> d.path == Some(path.GetOr(Dirname(split(d.root, file.value).1)))
    ensures file.Some? ==> d.name == Some(name.GetOr(Basename(split(d.root, file.value).1)))
  {
    var r := root.GetOr(classRoot);
    if file.None? then FileDao(r, None, path, name, size, mtime, None, checksumType, checksumValue)
    else
      var (full, rel) := split(r, file.value);
      FileDao(r, Some(full), Some(path.GetOr(Dirname(rel))), Some(name.GetOr(Basename(rel))),
              size, mtime, None, checksumType, checksumValue)
  }

  function NewFileDaoAsWritten(classRoot: Str, root: Option<Str>, file: Option<Str>, path: Option<Str>, name: Option<Str>,
                               size: Option<int>, mtime: Option<FloatText>, checksumType: Option<Str>,
                               checksumValue: Option<Str>): FileDao
  {
    NewFileDaoWith(RootSplitAsWritten, classRoot, root, file, path, name, size, mtime, checksumType, checksumValue)
  }

  function NewFileDao(classRoot: Str, root: Option<Str>, file: Option<Str>, path: Option<Str>, name: Option<Str>,
                      size: Option<int>, mtime: Option<FloatText>, checksumType: Option<Str>,
                      checksumValue: Option<Str>): FileDao
  {
    NewFileDaoWith(RootSplit, classRoot, root, file, path, name, size, mtime, checksumType, checksumValue)
  }

  /** `getLocalFile`: the stored location, else root, path and name
      joined; a record without path or name cannot be joined. */
  function LocalFile(d: FileDao): (r: Result<Str, PyError>)
    ensures d.file.Some? && d.file.value != "" ==> r == Success(d.file.value)
    ensures r.Failure? <==> (d.file.None? || d.file.value == "") && (d.path.None? || d.name.None?)
  {
    if d.file.Some? && d.file.value != "" then Success(d.file.value)
    else if d.path.None? || d.name.None? then Failure(AttributeError)
    else Success(PathJoinAll(d.root, [d.path.value, d.name.value]))
  }

  /** A relative location: no leading `/`, no `//`, and a file name. */
  predicate RelPath(rel: Str) {
    !StartsWith(rel, "/") && NoDoubleSlash(rel) && !EndsWith(rel, "/") && |rel| > 0
  }

  /** A root as the database keeps it: not empty, no trailing `/`. */
  predicate CleanRoot(root: Str) {
    |root| > 0 && !EndsWith(root, "/")
  }

  /** Joining a path that does not start with `/` to a clean root puts
      one `/` between them. */
  lemma PathJoinClean(root: Str, x: Str)
    requires CleanRoot(root) && (|x| == 0 || x[0] != '/')
    ensures PathJoin(root, x) == root + "/" + x
  {
  }

  lemma PathJoinRel(root: Str, rel: Str)
    requires CleanRoot(root) && RelPath(rel)
    ensures PathJoinAll(root, [Dirname(rel), Basename(rel)]) == root + "/" + rel
  {
    JoinDirnameBasename(rel);
    var d := Dirname(rel);
    var b := Basename(rel);
    PathJoinTwo(root, d, b);
    RelFirst(rel, d);
    PathJoinClean(root, d);
    PathJoinParts(root, rel, d, b);
  }

  lemma PathJoinTwo(a: Str, x: Str, y: Str)
    ensures PathJoinAll(a, [x, y]) == PathJoin(PathJoin(a, x), y)
  {
    assert [x, y][1..] == [y];
    assert [y][1..] == [];
    var ax := PathJoin(a, x);
    assert PathJoinAll(a, [x, y]) == PathJoinAll(ax, [y]);
    assert PathJoinAll(ax, [y]) == PathJoinAll(PathJoin(ax, y), []);
  }

  /** A prefix of a relative location does not start with `/`. */
  lemma RelFirst(rel: Str, d: Str)
    requires RelPath(rel) && StartsWith(rel, d)
    ensures |d| == 0 || d[0] != '/'
  {
  }

  lemma SlashEnds(x: Str)
    ensures EndsWith(x, "/") <==> |x| > 0 && x[|x| - 1] == '/'
    ensures StartsWith(x, "/") <==> |x| > 0 && x[0] == '/'
  {
    if |x| > 0 {
      assert x[|x| - 1..] == [x[|x| - 1]];
      assert x[..1] == [x[0]];
    }
  }

  /** Joining the directory part, then the name, to a clean root. */
  lemma PathJoinParts(root: Str, rel: Str, d: Str, b: Str)
    requires CleanRoot(root) && PathJoin(d, b) == rel && '/' !in b
    requires |d| == 0 || d[0] != '/'
    ensures PathJoin(root + "/" + d, b) == root + "/" + rel
  {
    var rd := root + "/" + d;
    assert !StartsWith(b, "/") by {
      SlashEnds(b);
    }
    SlashAfter(root, d);
    if |d| == 0 || EndsWith(d, "/") {
      assert rel == d + b;
      assert PathJoin(rd, b) == rd + b;
      ConcatAssoc(root + "/", d, b);
    } else {
      assert rel == d + "/" + b;
      assert PathJoin(rd, b) == rd + "/" + b;
      ConcatAssoc(root + "/", d + "/", b);
      ConcatAssoc(root + "/", d, "/");
    }
  }

  /** `root/d` ends with `/` exactly when `d` is empty or ends with one. */
  lemma SlashAfter(root: Str, d: Str)
    ensures EndsWith(root + "/" + d, "/") <==> |d| == 0 || EndsWith(d, "/")
  {
    var rd := root + "/" + d;
    SlashEnds(d);
    SlashEnds(rd);
    assert rd[|rd| - 1] == if |d| == 0 then '/' else d[|d| - 1];
  }

  lemma RootSplitUnder(root: Str, rel: Str)
    ensures RootSplit(root, root + "/" + rel) == (root + "/" + rel, rel) || |root| == 0
  {
    var f := root + "/" + rel;
    assert f[..|root| + 1] == root + "/";
    assert f[|root| + 1..] == rel;
  }

  lemma RootSplitRelative(root: Str, rel: Str)
    requires CleanRoot(root) && root[0] == '/' && RelPath(rel)
    ensures RootSplit(root, rel) == (root + "/" + rel, rel)
  {
    SlashEnds(rel);
    PathJoinClean(root, rel);
  }

  /** A record made from a location under an absolute root, given
      absolute or relative, is the same record, and its path and name
      joined to the root give the location back. */
  lemma NewFileDaoRooted(root: Str, rel: Str, size: Option<int>, mtime: Option<FloatText>)
    requires CleanRoot(root) && root[0] == '/' && RelPath(rel)
    ensures var a := NewFileDao(root, None, Some(root + "/" + rel), None, None, size, mtime, None, None);
            var b := NewFileDao(root, None, Some(rel), None, None, size, mtime, None, None);
            a == b && a.path == Some(Dirname(rel)) && a.name == Some(Basename(rel)) &&
            a.file == Some(root + "/" + rel) &&
            PathJoinAll(root, [a.path.value, a.name.value]) == root + "/" + rel
  {
    PathJoinRel(root, rel);
    RootSplitUnder(root, rel);
    RootSplitRelative(root, rel);
  }

  /** The full location a record was made from is what its root, path
      and name join back to, for every location under the root. */
  lemma NewFileDaoJoins(root: Str, file: Str)
    requires CleanRoot(root) && root[0] == '/' && StartsWith(file, root + "/") && RelPath(file[|root| + 1..])
    ensures var d := NewFileDao(root, None, Some(file), None, None, None, None, None, None);
            d.file == Some(file) && PathJoinAll(root, [d.path.value, d.name.value]) == file
  {
    var rel := file[|root| + 1..];
    assert file == root + "/" + rel by {
      assert file[..|root| + 1] == root + "/";
    }
    NewFileDaoRooted(root, rel, None, None);
  }

  /** The intended split keeps `/a/rx/f.nc` whole under root `/a/r`, and
      root, path and name join back to it. */
  lemma RootSiblingKept()
    ensures var e := NewFileDao("/a/r", None, Some("/a/rx/f.nc"), None, None, None, None, None, None);
            e.file == Some("/a/rx/f.nc") && PathJoinAll("/a/r", [e.path.value, e.name.value]) == "/a/rx/f.nc"
  {
    SiblingSplit();
    SiblingParts();
    SiblingJoin();
  }

  lemma SiblingSplit()
    ensures RootSplit("/a/r", "/a/rx/f.nc") == ("/a/rx/f.nc", "/a/rx/f.nc")
  {
    var f := "/a/rx/f.nc";
    assert !StartsWith(f, "/a/r/") by {
      assert f[..5][4] != "/a/r/"[4];
    }
    assert StartsWith(f, "/") by {
      assert f[..1] == "/";
    }
  }

  lemma SiblingRFind()
    ensures RFind("/a/rx/f.nc", "/") == 5
  {
    var f := "/a/rx/f.nc";
    assert OccursAt(f, "/", 5);
    forall j | 5 < j <= |f|
      ensures !OccursAt(f, "/", j)
    {
      if j < |f| {
        assert f[j] != '/';
      }
    }
  }

  lemma SiblingParts()
    ensures Dirname("/a/rx/f.nc") == "/a/rx" && Basename("/a/rx/f.nc") == "f.nc"
  {
    var f := "/a/rx/f.nc";
    SiblingRFind();
    assert f[..6] == "/a/rx/";
    assert !AllSlashes("/a/rx/") by {
      assert "/a/rx/"[1] != '/';
    }
    assert RStripChar("/a/rx/", '/') == "/a/rx";
  }

  lemma SiblingJoin()
    ensures PathJoinAll("/a/r", ["/a/rx", "f.nc"]) == "/a/rx/f.nc"
  {
    assert PathJoin("/a/r", "/a/rx") == "/a/rx" by {
      assert StartsWith("/a/rx", "/") by {
        assert "/a/rx"[..1] == "/";
      }
    }
    assert PathJoin("/a/rx", "f.nc") == "/a/rx/f.nc" by {
      assert !StartsWith("f.nc", "/") by {
        assert "f.nc"[..1][0] != "/"[0];
      }
      assert !EndsWith("/a/rx", "/") by {
        assert "/a/rx"[4..][0] != "/"[0];
      }
      assert "/a/rx" + "/" + "f.nc" == "/a/rx/f.nc";
    }
    PathJoinTwo("/a/r", "/a/rx", "f.nc");
  }

  /** With the check as written, a file in a sibling directory whose name
      extends the root's is cut one character too far: under root `/a/r`
      the file `/a/rx/f.nc` gets path `/`, so root, path and name join to
      `/f.nc`. */
  lemma RootPrefixCutAsWritten()
    ensures var d := NewFileDaoAsWritten("/a/r", None, Some("/a/rx/f.nc"), None, None, None, None, None, None);
            d.path == Some("/") && d.name == Some("f.nc") &&
            PathJoinAll("/a/r", [d.path.value, d.name.value]) == "/f.nc"
  {
    CutSplit();
    CutParts();
    CutJoin();
  }

  lemma CutSplit()
    ensures RootSplitAsWritten("/a/r", "/a/rx/f.nc") == ("/a/rx/f.nc", "/f.nc")
  {
    var f := "/a/rx/f.nc";
    assert StartsWith(f, "/a/r") by {
      assert f[..4] == "/a/r";
    }
    assert SliceFrom(f, 5) == "/f.nc";
  }

  lemma CutParts()
    ensures Dirname("/f.nc") == "/" && Basename("/f.nc") == "f.nc"
  {
    assert RFind("/f.nc", "/") == 0 by {
      assert OccursAt("/f.nc", "/", 0);
      forall j | 0 < j < 5
        ensures !OccursAt("/f.nc", "/", j)
      {
        assert "/f.nc"[j] != '/';
      }
    }
    assert AllSlashes("/");
  }

  lemma CutJoin()
    ensures PathJoinAll("/a/r", ["/", "f.nc"]) == "/f.nc"
  {
    assert PathJoin("/a/r", "/") == "/";
    assert PathJoin("/", "f.nc") == "/f.nc" by {
      assert !StartsWith("f.nc", "/") by {
        assert "f.nc"[..1][0] != "/"[0];
      }
      assert EndsWith("/", "/");
    }
    PathJoinTwo("/a/r", "/", "f.nc");
  }

  // ---------------------------------------------------------------------
  // Checking a record against the disk
  // ---------------------------------------------------------------------

  /** What the disk says about a file: its size and modification time. */
  datatype Stat = Stat(size: int, mtime: FloatText)

  /** `not value`: None and the empty string are false. */
  predicate Falsy(v: Option<Str>) {
    v.None? || v.value == ""
  }

  /** The outcome of `check`: the verdict and the record as the call
      leaves it (its location filled in, and with `update` the observed
      values written back). */
  datatype Checked = Checked(ok: bool, dao: FileDao)

  /** `FileDAO.check`. `disk` is None when the location is not a file;
      `digests` maps an algorithm name to the file's digest under it, and
      an algorithm missing from it is the KeyError of the lookup. */
  function Check(d: FileDao, update: bool, skipChecksum: bool, checksumValue: Option<Str>,
                 disk: Option<Stat>, digests: map<Str, Str>): (r: Result<Checked, PyError>)
  {
    var f :- LocalFile(d);
    var d1 := d.(file := Some(f));
    if disk.None? then Success(Checked(false, d1))
    else
      var st := disk.value;
      var sizeOk := d.size == Some(st.size);
      var d2 := if !sizeOk && update then d1.(size := Some(st.size)) else d1;
      var d3 := if d.mtime != Some(st.mtime) && update then d2.(mtime := Some(st.mtime)) else d2;
      if skipChecksum || !sizeOk then Success(Checked(sizeOk, d3))
      else
        var sum :- if !Falsy(checksumValue) then Success(checksumValue.value)
                   else if d.checksumType.Some? && d.checksumType.value in digests then Success(digests[d.checksumType.value])
                   else Failure(KeyError);
        if Some(sum) != d.checksumValue then
          Success(Checked(false, if update then d3.(checksumValue := Some(sum)) else d3))
        else Success(Checked(true, d3))
  }

  /** The checksum `check` compares against: the caller's, else the
      digest under the record's algorithm. */
  function Checksum(d: FileDao, checksumValue: Option<Str>, digests: map<Str, Str>): Option<Str> {
    if !Falsy(checksumValue) then Some(checksumValue.value)
    else if d.checksumType.Some? && d.checksumType.value in digests then Some(digests[d.checksumType.value])
    else None
  }

  /** A record passes exactly when the file exists, its size is the
      recorded one, and, unless skipped, its checksum is the recorded one;
      a missing file or a wrong size fails without a checksum, and the
      only error is a location that cannot be joined or an unknown
      algorithm. */
  lemma CheckVerdict(d: FileDao, update: bool, skipChecksum: bool, checksumValue: Option<Str>,
                     disk: Option<Stat>, digests: map<Str, Str>)
    ensures LocalFile(d).Failure? ==>
              Check(d, update, skipChecksum, checksumValue, disk, digests) == Failure(LocalFile(d).error)
    ensures LocalFile(d).Success? ==>
            var r := Check(d, update, skipChecksum, checksumValue, disk, digests);
            var compared := disk.Some? && d.size == Some(disk.value.size) && !skipChecksum;
            (r.Failure? <==> compared && Checksum(d, checksumValue, digests).None?) &&
            (r.Failure? ==> r.error == KeyError) &&
            (r.Success? ==> (r.value.ok <==> disk.Some? && d.size == Some(disk.value.size) &&
                                               (skipChecksum || Checksum(d, checksumValue, digests) == d.checksumValue)))
  {
  }

  /** The modification time never decides the verdict, and the digests are
      not looked at unless the size matched and the checksum is not
      skipped. */
  lemma CheckIgnores(d: FileDao, update: bool, skipChecksum: bool, checksumValue: Option<Str>,
                     size: int, m1: FloatText, m2: FloatText, t: Option<FloatText>,
                     digests: map<Str, Str>, other: map<Str, Str>)
    ensures var a := Check(d, update, skipChecksum, checksumValue, Some(Stat(size, m1)), digests);
            var b := Check(d.(mtime := t), update, skipChecksum, checksumValue, Some(Stat(size, m2)), digests);
            a.Success? == b.Success? && (a.Success? ==> a.value.ok == b.value.ok)
    ensures skipChecksum || d.size != Some(size) ==>
              Check(d, update, skipChecksum, checksumValue, Some(Stat(size, m1)), digests) ==
              Check(d, update, skipChecksum, checksumValue, Some(Stat(size, m1)), other)
  {
  }

  /** With `update`, the record afterwards holds the observed size and
      time, and the checksum compared when one was; without it, only the
      location is filled in. */
  lemma CheckUpdate(d: FileDao, update: bool, skipChecksum: bool, checksumValue: Option<Str>,
                    st: Stat, digests: map<Str, Str>)
    requires Check(d, update, skipChecksum, checksumValue, Some(st), digests).Success?
    ensures var c := Check(d, update, skipChecksum, checksumValue, Some(st), digests).value;
            var f := LocalFile(d).value;
            (update ==> c.dao.size == Some(st.size) && c.dao.mtime == Some(st.mtime) &&
                        (!skipChecksum && d.size == Some(st.size) ==> c.dao.checksumValue == Checksum(d, checksumValue, digests))) &&
            (!update ==> c.dao == d.(file := Some(f))) &&
            c.dao.path == d.path && c.dao.name == d.name && c.dao.checked == d.checked
  {
  }

  // ---------------------------------------------------------------------
  // Map-file lines
  // ---------------------------------------------------------------------

  /** `str(size)`, None included. */
  function SizeText(size: Option<int>): Str {
    if size.Some? then IntToStr(size.value) else "None"
  }

  /** `%r` of the modification time, None included. */
  function TimeText(mtime: Option<FloatText>): Str {
    if mtime.Some? then mtime.value else "None"
  }

  /** The dataset id of a record: a DRS object made from its path and
      name, asked for its id. */
  function EntryId(d: FileDao): Result<Str, PyError> {
    var o :- Drs.New("", d.path.GetOr(""), d.name.GetOr(""), "", "", map[]);
    var p :- Drs.GetId(o);
    Success(p.0)
  }

  /** `getCMIP5MapEntry`: id, location, size and time, then, when there
      is a checksum, the checksum and its algorithm in upper case, joined
      with ` | `. A checksum without an algorithm fails on `None.upper()`. */
  function MapEntry(d: FileDao): (r: Result<Str, PyError>)
    ensures r.Failure? <==> EntryId(d).Failure? || LocalFile(d).Failure? ||
                            (!Falsy(d.checksumValue) && d.checksumType.None?)
  {
    var id :- EntryId(d);
    var f :- LocalFile(d);
    var atts := [id, f, SizeText(d.size), "mod_time=" + TimeText(d.mtime)];
    if Falsy(d.checksumValue) then Success(Join(atts, " | "))
    else if d.checksumType.None? then Failure(AttributeError)
    else Success(Join(atts + ["checksum=" + d.checksumValue.value, "checksum_type=" + Upper(d.checksumType.value)], " | "))
  }

  /** The values the modifiers of a map line set. */
  datatype Modifiers = Modifiers(mtime: Option<FloatText>, checksumType: Option<Str>, checksum: Option<Str>)

  /** One modifier: `mod_time` must be a float, `checksum_type` is kept in
      lower case, `checksum` as it is, and any other key is skipped. */
  function Modify(acc: Modifiers, key: Str, value: Str): (r: Result<Modifiers, PyError>)
    ensures r.Failure? <==> key == "mod_time" && !FloatLiteral(Strip(value))
    ensures r.Failure? ==> r.error == ValueError
    ensures key !in {"mod_time", "checksum_type", "checksum"} ==> r == Success(acc)
  {
    if key == "mod_time" then
      var t := ParseFloat(value);
      if t.None? then Failure(ValueError) else Success(acc.(mtime := t))
    else if key == "checksum_type" then Success(acc.(checksumType := Some(Lower(value))))
    else if key == "checksum" then Success(acc.(checksum := Some(value)))
    else Success(acc)
  }

  /** The modifier loop of `parseMapFile`: each element, stripped, must
      split at `=` into exactly a key and a value, and a later element
      overrides an earlier one. */
  function ReadModifiers(elems: seq<Str>, acc: Modifiers): (r: Result<Modifiers, PyError>)
    ensures r.Failure? ==> r.error == ValueError
    ensures |elems| > 0 && |Split(Strip(elems[0]), "=")| != 2 ==> r == Failure(ValueError)
    decreases |elems|
  {
    if |elems| == 0 then Success(acc)
    else
      var kv := Split(Strip(elems[0]), "=");
      if |kv| != 2 then Failure(ValueError)
      else
        var next :- Modify(acc, kv[0], kv[1]);
        ReadModifiers(elems[1..], next)
  }

  /** One line of `parseMapFile`: fields separated by `|`; the second is
      the location, cut by `trimRoot` characters when that is not zero;
      the third the size; the rest modifiers. Fewer than three fields is
      an IndexError, a size or modifier that does not parse a ValueError. */
  function ParseMapLine(line: Str, trimRoot: int, classRoot: Str): (r: Result<FileDao, PyError>)
    ensures |Split(line, "|")| < 3 ==> r == Failure(IndexError)
    ensures |Split(line, "|")| >= 3 && ParseInt(Strip(Split(line, "|")[2])).None? ==> r == Failure(ValueError)
    ensures r.Failure? ==> r.error == IndexError || r.error == ValueError
    ensures r.Success? ==> r.value.file.Some? && r.value.size.Some? && r.value.checked.None? && r.value.root == classRoot
    ensures r.Success? && trimRoot == 0 ==> r.value.file == Some(RootSplit(classRoot, Strip(Split(line, "|")[1])).0)
  {
    var elements := Split(line, "|");
    if |elements| < 3 then Failure(IndexError)
    else
      var path := Strip(elements[1]);
      var full := if trimRoot != 0 then SliceFrom(path, trimRoot) else path;
      var size := ParseInt(Strip(elements[2]));
      if size.None? then Failure(ValueError)
      else
        var mods :- ReadModifiers(elements[3..], Modifiers(None, None, None));
        Success(NewFileDao(classRoot, None, Some(full), None, None, size, mods.mtime, mods.checksumType, mods.checksum))
  }

  /** Text one field of a map line can carry unchanged: not empty, no
      `|`, no surrounding whitespace. */
  predicate FieldSafe(x: Str) {
    |x| > 0 && '|' !in x && !IsSpace(x[0]) && !IsSpace(x[|x| - 1])
  }

  lemma JoinPair(a: Str, b: Str, sep: Str)
    ensures Join([a, b], sep) == a + sep + b
  {
    assert [a, b][1..] == [b];
  }

  lemma JoinFour(a: Str, b: Str, c: Str, e: Str, sep: Str)
    ensures Join([a, b, c, e], sep) == a + sep + b + sep + c + sep + e
  {
    assert [a, b, c, e][1..] == [b, c, e];
    assert [b, c, e][1..] == [c, e];
    JoinPair(c, e, sep);
  }

  /** Padding by one space on either side is undone by `strip`. */
  lemma StripPadded(x: Str)
    requires |x| > 0 && !IsSpace(x[0]) && !IsSpace(x[|x| - 1])
    ensures Strip(" " + x + " ") == x && Strip(" " + x) == x && Strip(x + " ") == x
  {
    assert (" " + x + " ")[1..] == x + " ";
    assert (" " + x)[1..] == x;
    assert (x + " ")[..|x|] == x;
    assert LStrip(x) == x && RStrip(x) == x;
    assert LStrip(x + " ") == x + " " by {
      assert (x + " ")[0] == x[0];
    }
    assert RStrip(x + " ") == x;
  }

  lemma SizeTextSafe(size: int)
    ensures FieldSafe(SizeText(Some(size))) && '=' !in SizeText(Some(size))
  {
  }

  lemma UpperSafe(t: Str)
    requires FieldSafe(t) && '=' !in t
    ensures FieldSafe(Upper(t)) && '=' !in Upper(t) && Lower(Upper(t)) == Lower(t)
  {
  }

  /** `key=value` splits at `=` into the key and the value when neither
      holds a `=`. */
  lemma SplitKeyValue(key: Str, value: Str)
    requires '=' !in key && '=' !in value
    ensures Split(key + "=" + value, "=") == [key, value]
  {
    SplitConcatChar(key, value, '=');
    FindAbsentChar(key, '=');
    FindAbsentChar(value, '=');
  }

  /** A line of four attributes splits at `|` into the attributes with
      the spaces of the separators still around them. */
  lemma EntryFieldsFour(id: Str, f: Str, sz: Str, mt: Str)
    requires '|' !in id && '|' !in f && '|' !in sz && '|' !in mt
    ensures Split(Join([id, f, sz, mt], " | "), "|") == [id + " ", " " + f + " ", " " + sz + " "] + [" " + mt]
  {
    var ps := [id + " ", " " + f + " ", " " + sz + " ", " " + mt];
    JoinFour(id, f, sz, mt, " | ");
    JoinFour(ps[0], ps[1], ps[2], ps[3], "|");
    assert Join(ps, "|") == Join([id, f, sz, mt], " | ");
    assert '|' !in ps[0] && '|' !in ps[1] && '|' !in ps[2] && '|' !in ps[3];
    SplitJoinChar(ps, '|');
    assert ps == [id + " ", " " + f + " ", " " + sz + " "] + [" " + mt];
  }

  /** The same for a line of two attributes. */
  lemma EntryFieldsPair(a: Str, b: Str)
    requires '|' !in a && '|' !in b
    ensures Split(Join([a, b], " | "), "|") == [a + " ", " " + b]
  {
    JoinPair(a, b, " | ");
    JoinPair(a + " ", " " + b, "|");
    assert Join([a + " ", " " + b], "|") == Join([a, b], " | ");
    SplitJoinChar([a + " ", " " + b], '|');
  }

  /** The same for a line of six attributes. */
  lemma EntryFieldsSix(id: Str, f: Str, sz: Str, mt: Str, cs: Str, ct: Str)
    requires '|' !in id && '|' !in f && '|' !in sz && '|' !in mt && '|' !in cs && '|' !in ct
    ensures Split(Join([id, f, sz, mt] + [cs, ct], " | "), "|") ==
            [id + " ", " " + f + " ", " " + sz + " "] + ([" " + mt + " "] + ([" " + cs + " "] + [" " + ct]))
  {
    var j4, j2 := Join([id, f, sz, mt], " | "), Join([cs, ct], " | ");
    var k4, k2 := Join([id, f, sz, mt + " "], " | "), Join([" " + cs, ct], " | ");
    JoinAppend([id, f, sz, mt], [cs, ct], " | ");
    assert j4 + " | " + j2 == (j4 + " ") + "|" + (" " + j2);
    assert k4 == j4 + " " by {
      JoinFour(id, f, sz, mt, " | ");
      JoinFour(id, f, sz, mt + " ", " | ");
    }
    assert k2 == " " + j2 by {
      JoinPair(cs, ct, " | ");
      JoinPair(" " + cs, ct, " | ");
    }
    var line := Join([id, f, sz, mt] + [cs, ct], " | ");
    assert line == k4 + "|" + k2;
    SplitConcatChar(k4, k2, '|');
    assert Split(line, "|") == Split(k4, "|") + Split(k2, "|");
    EntryFieldsFour(id, f, sz, mt + " ");
    EntryFieldsPair(" " + cs, ct);
    var p0, p1, p2 := id + " ", " " + f + " ", " " + sz + " ";
    var p3, p4, p5 := " " + (mt + " "), " " + cs + " ", " " + ct;
    assert " " + (mt + " ") == " " + mt + " ";
    assert ([p0, p1, p2] + [p3]) + [p4, p5] == [p0, p1, p2] + ([p3] + ([p4] + [p5]));
  }

  /** `mod_time` with a float literal free of surrounding spaces sets the time to it. */
  lemma ModifyTime(acc: Modifiers, t: Str)
    requires FieldSafe(t) && FloatLiteral(t)
    ensures Modify(acc, "mod_time", t) == Success(acc.(mtime := Some(t)))
  {
    StripNoSpace(t);
  }

  /** `checksum` sets the checksum. */
  lemma ModifyChecksum(acc: Modifiers, c: Str)
    ensures Modify(acc, "checksum", c) == Success(acc.(checksum := Some(c)))
  {
    assert "checksum"[0] != "mod_time"[0];
    assert |"checksum"| != |"checksum_type"|;
  }

  /** `checksum_type` sets the algorithm in lower case. */
  lemma ModifyChecksumType(acc: Modifiers, v: Str)
    ensures Modify(acc, "checksum_type", v) == Success(acc.(checksumType := Some(Lower(v))))
  {
    assert |"checksum_type"| != |"mod_time"|;
  }

  /** The modifier keys hold no `=` and do not begin with a space. */
  lemma KeysFree()
    ensures '=' !in "mod_time" && '=' !in "checksum" && '=' !in "checksum_type"
    ensures !IsSpace("mod_time"[0]) && !IsSpace("checksum"[0]) && !IsSpace("checksum_type"[0])
    ensures "mod_time=" == "mod_time" + "=" && "checksum=" == "checksum" + "=" && "checksum_type=" == "checksum_type" + "="
    ensures '|' !in "mod_time=" && '|' !in "checksum=" && '|' !in "checksum_type="
  {
  }

  /** One padded `key=value` element is read by `Modify`. */
  lemma ReadOne(e: Str, key: Str, value: Str, rest: seq<Str>, acc: Modifiers, next: Modifiers)
    requires Strip(e) == key + "=" + value && '=' !in key && '=' !in value && Modify(acc, key, value) == Success(next)
    ensures ReadModifiers([e] + rest, acc) == ReadModifiers(rest, next)
  {
    SplitKeyValue(key, value);
    assert ([e] + rest)[0] == e;
    assert ([e] + rest)[1..] == rest;
  }

  /** A line whose fields give a location, a size and modifiers reads as
      the record made of them. */
  lemma ParseLineOf(line: Str, classRoot: Str, x: Str, y: Str, z: Str, rest: seq<Str>,
                    f: Str, size: int, mods: Modifiers)
    requires Split(line, "|") == [x, y, z] + rest
    requires Strip(y) == f && ParseInt(Strip(z)) == Some(size)
    requires ReadModifiers(rest, Modifiers(None, None, None)) == Success(mods)
    ensures ParseMapLine(line, 0, classRoot) ==
            Success(NewFileDao(classRoot, None, Some(f), None, None, Some(size), mods.mtime, mods.checksumType, mods.checksum))
  {
    var els := Split(line, "|");
    assert |els| >= 3 && els[1] == y && els[2] == z && els[3..] == rest;
    var mods' := ReadModifiers(els[3..], Modifiers(None, None, None));
    assert mods' == Success(mods);
  }

  /** A size written with `str` and padded reads back with `int`. */
  lemma ParsePaddedInt(n: int)
    ensures ParseInt(Strip(" " + IntToStr(n) + " ")) == Some(n)
  {
    SizeTextSafe(n);
    StripPadded(IntToStr(n));
    ParseIntToStr(n);
  }

  /** A key, `=` and a field-safe value, padded by one space on either
      side, on the left only or not at all, strip back to `key=value`. */
  lemma StripModifier(key: Str, value: Str, e: Str)
    requires |key| > 0 && !IsSpace(key[0]) && FieldSafe(value)
    requires e == " " + (key + "=" + value) + " " || e == " " + (key + "=" + value) || e == key + "=" + value
    ensures Strip(e) == key + "=" + value
  {
    var x := key + "=" + value;
    ModifierEnds(key, value);
    if e == x {
      StripNoSpace(x);
    } else {
      StripPadded(x);
    }
  }

  /** A modifier text begins with its key and ends with its value. */
  lemma ModifierEnds(key: Str, value: Str)
    requires |key| > 0 && |value| > 0
    ensures var x := key + "=" + value; |x| > 0 && x[0] == key[0] && x[|x| - 1] == value[|value| - 1]
  {
  }

  /** A field-safe float literal is read by `float()` as itself. */
  lemma ParseFloatSafe(t: Str)
    requires FieldSafe(t) && FloatLiteral(t)
    ensures ParseFloat(t) == Some(t)
  {
    StripNoSpace(t);
  }

  /** The modifier `mod_time=t`, padded or not, sets the time. */
  lemma ReadTime(t: Str, e: Str, rest: seq<Str>, acc: Modifiers)
    requires FieldSafe(t) && '=' !in t && FloatLiteral(t)
    requires e == " " + ("mod_time" + "=" + t) + " " || e == " " + ("mod_time" + "=" + t) || e == "mod_time" + "=" + t
    ensures ReadModifiers([e] + rest, acc) == ReadModifiers(rest, acc.(mtime := Some(t)))
  {
    KeysFree();
    StripModifier("mod_time", t, e);
    ModifyTime(acc, t);
    ReadOne(e, "mod_time", t, rest, acc, acc.(mtime := Some(t)));
  }

  /** The modifier `checksum=c`, padded on both sides or not at all, sets
      the checksum. */
  lemma ReadChecksum(c: Str, e: Str, rest: seq<Str>, acc: Modifiers)
    requires FieldSafe(c) && '=' !in c
    requires e == " " + ("checksum" + "=" + c) + " " || e == "checksum" + "=" + c
    ensures ReadModifiers([e] + rest, acc) == ReadModifiers(rest, acc.(checksum := Some(c)))
  {
    KeysFree();
    StripModifier("checksum", c, e);
    ModifyChecksum(acc, c);
    ReadOne(e, "checksum", c, rest, acc, acc.(checksum := Some(c)));
  }

  /** The modifier `checksum_type=T`, padded on the left, sets the
      algorithm to `T` in lower case; so does the bare modifier. */
  lemma ReadChecksumType(ty: Str, e: Str, acc: Modifiers)
    requires FieldSafe(ty) && '=' !in ty
    requires e == " " + ("checksum_type" + "=" + Upper(ty)) || e == "checksum_type" + "=" + Upper(ty)
    ensures ReadModifiers([e], acc) == Success(acc.(checksumType := Some(Lower(ty))))
  {
    var u := Upper(ty);
    UpperSafe(ty);
    KeysFree();
    StripModifier("checksum_type", u, e);
    ModifyChecksumType(acc, u);
    ReadLast(e, "checksum_type", u, acc, acc.(checksumType := Some(Lower(ty))));
  }

  /** The last element of the modifiers, read by `Modify`, ends the read. */
  lemma ReadLast(e: Str, key: Str, value: Str, acc: Modifiers, next: Modifiers)
    requires Strip(e) == key + "=" + value && '=' !in key && '=' !in value && Modify(acc, key, value) == Success(next)
    ensures ReadModifiers([e], acc) == Success(next)
  {
    SplitKeyValue(key, value);
    assert [e][1..] == [];
  }

  /** The time alone, after one space, ends the read. */
  lemma PaddedTimeLast(t: Str, acc: Modifiers)
    requires FieldSafe(t) && '=' !in t && FloatLiteral(t)
    ensures ReadModifiers([" " + ("mod_time=" + t)], acc) == Success(acc.(mtime := Some(t)))
  {
    var e := " " + ("mod_time=" + t);
    KeysFree();
    StripModifier("mod_time", t, e);
    ModifyTime(acc, t);
    ReadLast(e, "mod_time", t, acc, acc.(mtime := Some(t)));
  }

  /** A line of four attributes reads back as the record of its location,
      size and time. */
  lemma ParseFour(id: Str, f: Str, size: int, t: Str, classRoot: Str)
    requires '|' !in id && FieldSafe(f) && FieldSafe(t) && '=' !in t && FloatLiteral(t)
    ensures ParseMapLine(Join([id, f, IntToStr(size), "mod_time=" + t], " | "), 0, classRoot) ==
            Success(NewFileDao(classRoot, None, Some(f), None, None, Some(size), Some(t), None, None))
  {
    var sz, mt := IntToStr(size), "mod_time=" + t;
    var m0 := Modifiers(None, None, None);
    KeysFree();
    SizeTextSafe(size);
    assert '|' !in mt;
    EntryFieldsFour(id, f, sz, mt);
    StripPadded(f);
    ParsePaddedInt(size);
    PaddedTimeLast(t, m0);
    ParseLineOf(Join([id, f, sz, mt], " | "), classRoot, id + " ", " " + f + " ", " " + sz + " ", [" " + mt],
                f, size, m0.(mtime := Some(t)));
  }

  /** A line of six attributes reads back as the record of its location,
      size, time, checksum and algorithm, the algorithm in lower case. */
  lemma ParseSix(id: Str, f: Str, size: int, t: Str, c: Str, ty: Str, classRoot: Str)
    requires '|' !in id && FieldSafe(f) && FieldSafe(t) && '=' !in t && FloatLiteral(t)
    requires FieldSafe(c) && '=' !in c && FieldSafe(ty) && '=' !in ty
    ensures ParseMapLine(Join([id, f, IntToStr(size), "mod_time=" + t] + ["checksum=" + c, "checksum_type=" + Upper(ty)], " | "),
                         0, classRoot) ==
            Success(NewFileDao(classRoot, None, Some(f), None, None, Some(size), Some(t), Some(Lower(ty)), Some(c)))
  {
    var sz, mt := IntToStr(size), "mod_time=" + t;
    var cs, ct := "checksum=" + c, "checksum_type=" + Upper(ty);
    assert mt == "mod_time" + "=" + t;
    assert cs == "checksum" + "=" + c;
    assert ct == "checksum_type" + "=" + Upper(ty);
    var m0 := Modifiers(None, None, None);
    var m1 := m0.(mtime := Some(t));
    var m2 := m1.(checksum := Some(c));
    SizeTextSafe(size);
    UpperSafe(ty);
    EntryFieldsSix(id, f, sz, mt, cs, ct);
    StripPadded(f);
    ParsePaddedInt(size);
    ReadTime(t, " " + mt + " ", [" " + cs + " "] + [" " + ct], m0);
    ReadChecksum(c, " " + cs + " ", [" " + ct], m1);
    ReadChecksumType(ty, " " + ct, m2);
    ParseLineOf(Join([id, f, sz, mt] + [cs, ct], " | "), classRoot, id + " ", " " + f + " ", " " + sz + " ",
                [" " + mt + " "] + ([" " + cs + " "] + [" " + ct]), f, size, m2.(checksumType := Some(Lower(ty))));
  }

  /** Fields free of `|` joined with a bare `|` split back into themselves. */
  lemma SplitBare(id: Str, full: Str, sz: Str, tail: seq<Str>)
    requires '|' !in id && '|' !in full && '|' !in sz && forall k :: 0 <= k < |tail| ==> '|' !in tail[k]
    ensures Split(Join([id, full, sz] + tail, "|"), "|") == [id, full, sz] + tail
  {
    BarFree(id, full, sz, tail);
    SplitJoinChar([id, full, sz] + tail, '|');
  }

  lemma BarFree(id: Str, full: Str, sz: Str, tail: seq<Str>)
    requires '|' !in id && '|' !in full && '|' !in sz && forall k :: 0 <= k < |tail| ==> '|' !in tail[k]
    ensures var xs := [id, full, sz] + tail; forall k :: 0 <= k < |xs| ==> '|' !in xs[k]
  {
    var xs := [id, full, sz] + tail;
    forall k | 0 <= k < |xs| ensures '|' !in xs[k] {
      if k >= 3 {
        assert xs[k] == tail[k - 3];
      }
    }
  }

  /** A line joined with a bare `|`, as the replica store writes it,
      whose fields are an id, a location, a size and modifiers, reads
      back as the record of the location and size with what the
      modifiers set. */
  lemma ReadBareHead(id: Str, full: Str, size: int, tail: seq<Str>, classRoot: Str, mods: Modifiers)
    requires '|' !in id && FieldSafe(full) && forall k :: 0 <= k < |tail| ==> '|' !in tail[k]
    requires ReadModifiers(tail, Modifiers(None, None, None)) == Success(mods)
    ensures ParseMapLine(Join([id, full, IntToStr(size)] + tail, "|"), 0, classRoot) ==
            Success(NewFileDao(classRoot, None, Some(full), None, None, Some(size), mods.mtime,
                                      mods.checksumType, mods.checksum))
  {
    var sz := IntToStr(size);
    SizeTextSafe(size);
    assert SizeText(Some(size)) == sz;
    StripNoSpace(full);
    StripNoSpace(sz);
    ParseIntToStr(size);
    var xs := [id, full, sz] + tail;
    SplitBare(id, full, sz, tail);
    ParseLineOf(Join(xs, "|"), classRoot, id, full, sz, tail, full, size, mods);
  }

  /** The modifiers of a bare line of four attributes are free of `|`
      and set the time. */
  lemma TailFour(t: Str)
    requires FieldSafe(t) && '=' !in t && FloatLiteral(t)
    ensures var tail := ["mod_time=" + t];
            (forall k :: 0 <= k < |tail| ==> '|' !in tail[k]) &&
            ReadModifiers(tail, Modifiers(None, None, None)) == Success(Modifiers(Some(t), None, None))
  {
    KeysFree();
    var m0 := Modifiers(None, None, None);
    ModifyTime(m0, t);
    StripNoSpace("mod_time" + "=" + t);
    ReadLast("mod_time=" + t, "mod_time", t, m0, m0.(mtime := Some(t)));
  }

  /** The modifiers a bare line carries are free of `|`. */
  lemma TailBarFree(t: Str, c: Str, ty: Str)
    requires '|' !in t && '|' !in c && FieldSafe(ty) && '=' !in ty
    ensures '|' !in "mod_time=" + t && '|' !in "checksum=" + c && '|' !in "checksum_type=" + Upper(ty)
  {
    KeysFree();
    UpperSafe(ty);
  }

  /** The modifiers of a bare line of six attributes are free of `|` and
      set the time, the checksum and the algorithm in lower case. */
  lemma TailSix(t: Str, c: Str, ty: Str)
    requires FieldSafe(t) && '=' !in t && FloatLiteral(t)
    requires FieldSafe(c) && '=' !in c && FieldSafe(ty) && '=' !in ty
    ensures var tail := ["mod_time=" + t, "checksum=" + c, "checksum_type=" + Upper(ty)];
            (forall k :: 0 <= k < |tail| ==> '|' !in tail[k]) &&
            ReadModifiers(tail, Modifiers(None, None, None)) == Success(Modifiers(Some(t), Some(Lower(ty)), Some(c)))
  {
    TailBarFree(t, c, ty);
    ListThreeFree("mod_time=" + t, "checksum=" + c, "checksum_type=" + Upper(ty), '|');
    TailSixRead(t, c, ty);
  }

  lemma ListThreeFree(a: Str, b: Str, c: Str, x: char)
    requires x !in a && x !in b && x !in c
    ensures var l := [a, b, c]; forall k :: 0 <= k < |l| ==> x !in l[k]
  {
  }

  lemma TailSixRead(t: Str, c: Str, ty: Str)
    requires FieldSafe(t) && '=' !in t && FloatLiteral(t)
    requires FieldSafe(c) && '=' !in c && FieldSafe(ty) && '=' !in ty
    ensures ReadModifiers(["mod_time=" + t, "checksum=" + c, "checksum_type=" + Upper(ty)], Modifiers(None, None, None))
            == Success(Modifiers(Some(t), Some(Lower(ty)), Some(c)))
  {
    KeysFree();
    var mt, cs, ct := "mod_time=" + t, "checksum=" + c, "checksum_type=" + Upper(ty);
    var m0 := Modifiers(None, None, None);
    var m1 := m0.(mtime := Some(t));
    var m2 := m1.(checksum := Some(c));
    ReadChecksumType(ty, ct, m2);
    ReadChecksum(c, cs, [ct], m1);
    ReadTime(t, mt, [cs, ct], m0);
    ListThree(mt, cs, ct);
  }

  /** A three-element list is its head followed by the other two, and
      those two are the second followed by the last. */
  lemma ListThree<T>(a: T, b: T, c: T)
    ensures [a, b, c] == [a] + [b, c] && [b, c] == [b] + [c]
  {
  }

  /** A bare line of four attributes reads back as the record of its
      location, size and time. */
  lemma ReadBareFour(id: Str, full: Str, size: int, t: Str, classRoot: Str)
    requires '|' !in id && FieldSafe(full)
    requires FieldSafe(t) && '=' !in t && FloatLiteral(t)
    ensures ParseMapLine(Join([id, full, IntToStr(size)] + ["mod_time=" + t], "|"), 0, classRoot) ==
            Success(NewFileDao(classRoot, None, Some(full), None, None, Some(size), Some(t), None, None))
  {
    TailFour(t);
    ReadBareHead(id, full, size, ["mod_time=" + t], classRoot, Modifiers(Some(t), None, None));
  }

  /** A bare line of six attributes reads back as the record of its
      location, size, time, checksum and algorithm in lower case. */
  lemma ReadBareSix(id: Str, full: Str, size: int, t: Str, c: Str, ty: Str, classRoot: Str)
    requires '|' !in id && FieldSafe(full)
    requires FieldSafe(t) && '=' !in t && FloatLiteral(t)
    requires FieldSafe(c) && '=' !in c && FieldSafe(ty) && '=' !in ty
    ensures ParseMapLine(Join([id, full, IntToStr(size)] + ["mod_time=" + t, "checksum=" + c, "checksum_type=" + Upper(ty)],
                              "|"), 0, classRoot) ==
            Success(NewFileDao(classRoot, None, Some(full), None, None, Some(size), Some(t), Some(Lower(ty)), Some(c)))
  {
    TailSix(t, c, ty);
    ReadBareHead(id, full, size, ["mod_time=" + t, "checksum=" + c, "checksum_type=" + Upper(ty)], classRoot,
                 Modifiers(Some(t), Some(Lower(ty)), Some(c)));
  }

  /** A map line a record writes reads back as the record made from its
      full location with the same size, time and checksum, the algorithm
      in lower case; a record without a checksum reads back without an
      algorithm. The fields must survive the format: no `|`, no
      surrounding whitespace, no `=` in a modifier's value. */
  lemma MapEntryRoundTrip(d: FileDao, classRoot: Str)
    requires MapEntry(d).Success? && '|' !in EntryId(d).value && FieldSafe(LocalFile(d).value)
    requires d.size.Some? && d.mtime.Some? && FieldSafe(d.mtime.value) && '=' !in d.mtime.value && FloatLiteral(d.mtime.value)
    requires !Falsy(d.checksumValue) ==> FieldSafe(d.checksumValue.value) && '=' !in d.checksumValue.value &&
                                         FieldSafe(d.checksumType.value) && '=' !in d.checksumType.value
    ensures var keep := !Falsy(d.checksumValue);
            ParseMapLine(MapEntry(d).value, 0, classRoot) ==
            Success(NewFileDao(classRoot, None, Some(LocalFile(d).value), None, None, d.size, d.mtime,
                               if keep then Some(Lower(d.checksumType.value)) else None,
                               if keep then d.checksumValue else None))
  {
    var id, f, t := EntryId(d).value, LocalFile(d).value, d.mtime.value;
    if Falsy(d.checksumValue) {
      ParseFour(id, f, d.size.value, t, classRoot);
    } else {
      ParseSix(id, f, d.size.value, t, d.checksumValue.value, d.checksumType.value, classRoot);
    }
  }

  /** The texts of a record's map line hold no `|` of their own. */
  predicate EntrySafe(d: FileDao) {
    MapEntry(d).Success? && '|' !in EntryId(d).value && '|' !in LocalFile(d).value && '|' !in TimeText(d.mtime) &&
    (!Falsy(d.checksumValue) ==> '|' !in d.checksumValue.value && '|' !in d.checksumType.value)
  }

  lemma MapEntryFour(d: FileDao)
    requires EntrySafe(d) && Falsy(d.checksumValue)
    ensures MapEntry(d).value == Join([EntryId(d).value, LocalFile(d).value, SizeText(d.size), "mod_time=" + TimeText(d.mtime)], " | ")
  {
  }

  lemma MapEntrySix(d: FileDao)
    requires EntrySafe(d) && !Falsy(d.checksumValue)
    ensures MapEntry(d).value == Join([EntryId(d).value, LocalFile(d).value, SizeText(d.size), "mod_time=" + TimeText(d.mtime)] +
                                      ["checksum=" + d.checksumValue.value, "checksum_type=" + Upper(d.checksumType.value)], " | ")
  {
  }

  lemma UpperKeepsBar(t: Str)
    requires '|' !in t
    ensures '|' !in Upper(t)
  {
  }

  lemma NoneStrip()
    ensures Strip("None") == "None"
  {
    assert "None"[0] == 'N' && "None"[3] == 'e';
    StripNoSpace("None");
  }

  lemma NoneWord()
    ensures Lower("None"[0..]) == "none"
    ensures "none" != "inf" && "none" != "infinity" && "none" != "nan"
  {
    assert "None"[0..] == "None";
    assert |"none"| == 4 && |"inf"| == 3 && |"infinity"| == 8 && |"nan"| == 3;
  }

  lemma NoneDigits()
    ensures DigitRun("None", 0) == 0
  {
    assert !IsDigit("None"[0]);
  }

  lemma NoneNotInt()
    ensures ParseInt("None").None?
  {
    NoneStrip();
    assert "None"[0] == 'N';
    ParseIntNoDigit("None");
  }

  lemma NoneNotFloatLiteral()
    ensures !FloatLiteral("None")
  {
    assert "None"[0] == 'N';
    NoneWord();
    NoneDigits();
  }

  lemma NoneNotFloat()
    ensures ParseFloat("None").None?
  {
    NoneStrip();
    NoneNotFloatLiteral();
  }

  /** `None` is neither an integer nor a float literal, and fits a field. */
  lemma NoneFacts()
    ensures FieldSafe("None") && '=' !in "None" && ParseInt("None").None? && ParseFloat("None").None?
  {
    NoneNotFloat();
    NoneNotInt();
    NoneChars();
  }

  lemma NoneChars()
    ensures FieldSafe("None") && '=' !in "None"
  {
    assert "None"[0] == 'N' && "None"[3] == 'e';
  }

  /** A modifier `mod_time=v` whose value is not a float stops the read. */
  lemma ReadBadTime(e: Str, v: Str, rest: seq<Str>, acc: Modifiers)
    requires Strip(e) == "mod_time" + "=" + v && '=' !in v && ParseFloat(v).None?
    ensures ReadModifiers([e] + rest, acc) == Failure(ValueError)
  {
    SplitKeyValue("mod_time", v);
    assert ([e] + rest)[0] == e;
  }

  /** A line whose size field does not parse is a ValueError. */
  lemma ParseBadSize(line: Str, classRoot: Str, x: Str, y: Str, z: Str, rest: seq<Str>)
    requires Split(line, "|") == [x, y, z] + rest && ParseInt(Strip(z)).None?
    ensures ParseMapLine(line, 0, classRoot) == Failure(ValueError)
  {
    assert Split(line, "|")[2] == z;
  }

  /** A line whose first modifier is a time that does not parse is a
      ValueError. */
  lemma ParseBadTime(line: Str, classRoot: Str, x: Str, y: Str, z: Str, e: Str, v: Str, rest: seq<Str>)
    requires Split(line, "|") == [x, y, z] + ([e] + rest) && ParseInt(Strip(z)).Some?
    requires Strip(e) == "mod_time" + "=" + v && '=' !in v && ParseFloat(v).None?
    ensures ParseMapLine(line, 0, classRoot) == Failure(ValueError)
  {
    var els := Split(line, "|");
    assert els[2] == z && els[3..] == [e] + rest;
    ReadBadTime(e, v, rest, Modifiers(None, None, None));
  }

  lemma LineBadSizeFour(id: Str, f: Str, sz: Str, mt: Str, classRoot: Str)
    requires '|' !in id && '|' !in f && '|' !in mt && FieldSafe(sz) && ParseInt(sz).None?
    ensures ParseMapLine(Join([id, f, sz, mt], " | "), 0, classRoot) == Failure(ValueError)
  {
    EntryFieldsFour(id, f, sz, mt);
    StripPadded(sz);
    ParseBadSize(Join([id, f, sz, mt], " | "), classRoot, id + " ", " " + f + " ", " " + sz + " ", [" " + mt]);
  }

  lemma LineBadSizeSix(id: Str, f: Str, sz: Str, mt: Str, cs: Str, ct: Str, classRoot: Str)
    requires '|' !in id && '|' !in f && '|' !in mt && '|' !in cs && '|' !in ct && FieldSafe(sz) && ParseInt(sz).None?
    ensures ParseMapLine(Join([id, f, sz, mt] + [cs, ct], " | "), 0, classRoot) == Failure(ValueError)
  {
    EntryFieldsSix(id, f, sz, mt, cs, ct);
    StripPadded(sz);
    ParseBadSize(Join([id, f, sz, mt] + [cs, ct], " | "), classRoot, id + " ", " " + f + " ", " " + sz + " ",
                 [" " + mt + " "] + ([" " + cs + " "] + [" " + ct]));
  }

  /** The time modifier as written: key, `=`, value, without a `|`. */
  lemma TimeField(v: Str)
    requires '|' !in v
    ensures "mod_time=" + v == "mod_time" + "=" + v && '|' !in "mod_time=" + v
    ensures |"mod_time"| > 0 && !IsSpace("mod_time"[0])
  {
    KeysFree();
  }

  lemma LineBadTimeFour(id: Str, f: Str, size: int, v: Str, classRoot: Str)
    requires '|' !in id && '|' !in f && FieldSafe(v) && '=' !in v && ParseFloat(v).None?
    ensures ParseMapLine(Join([id, f, IntToStr(size), "mod_time=" + v], " | "), 0, classRoot) == Failure(ValueError)
  {
    var sz, mt := IntToStr(size), "mod_time=" + v;
    var line := Join([id, f, sz, mt], " | ");
    TimeField(v);
    SizeTextSafe(size);
    EntryFieldsFour(id, f, sz, mt);
    ParsePaddedInt(size);
    StripModifier("mod_time", v, " " + mt);
    AppendNil([" " + mt]);
    ParseBadTime(line, classRoot, id + " ", " " + f + " ", " " + sz + " ", " " + mt, v, []);
  }

  lemma LineBadTimeSix(id: Str, f: Str, size: int, v: Str, cs: Str, ct: Str, classRoot: Str)
    requires '|' !in id && '|' !in f && '|' !in cs && '|' !in ct && FieldSafe(v) && '=' !in v && ParseFloat(v).None?
    ensures ParseMapLine(Join([id, f, IntToStr(size), "mod_time=" + v] + [cs, ct], " | "), 0, classRoot) == Failure(ValueError)
  {
    var sz, mt := IntToStr(size), "mod_time=" + v;
    KeysFree();
    SizeTextSafe(size);
    assert '|' !in mt;
    EntryFieldsSix(id, f, sz, mt, cs, ct);
    ParsePaddedInt(size);
    StripModifier("mod_time", v, " " + mt + " ");
    ParseBadTime(Join([id, f, sz, mt] + [cs, ct], " | "), classRoot, id + " ", " " + f + " ", " " + sz + " ",
                 " " + mt + " ", v, [" " + cs + " "] + [" " + ct]);
  }

  /** A record without a size writes `None` as its size, which the reader
      rejects: such a line does not read back. */
  lemma MapEntryNoSize(d: FileDao, classRoot: Str)
    requires EntrySafe(d) && d.size.None?
    ensures ParseMapLine(MapEntry(d).value, 0, classRoot) == Failure(ValueError)
  {
    if Falsy(d.checksumValue) {
      NoSizeFour(d, classRoot);
    } else {
      NoSizeSix(d, classRoot);
    }
  }

  lemma NoSizeFour(d: FileDao, classRoot: Str)
    requires EntrySafe(d) && d.size.None? && Falsy(d.checksumValue)
    ensures ParseMapLine(MapEntry(d).value, 0, classRoot) == Failure(ValueError)
  {
    var mt := "mod_time=" + TimeText(d.mtime);
    NoneFacts();
    KeysFree();
    assert '|' !in mt;
    MapEntryFour(d);
    LineBadSizeFour(EntryId(d).value, LocalFile(d).value, SizeText(d.size), mt, classRoot);
  }

  lemma NoSizeSix(d: FileDao, classRoot: Str)
    requires EntrySafe(d) && d.size.None? && !Falsy(d.checksumValue)
    ensures ParseMapLine(MapEntry(d).value, 0, classRoot) == Failure(ValueError)
  {
    var ty := d.checksumType.value;
    var mt, cs, ct := "mod_time=" + TimeText(d.mtime), "checksum=" + d.checksumValue.value, "checksum_type=" + Upper(ty);
    NoneFacts();
    KeysFree();
    UpperKeepsBar(ty);
    assert '|' !in mt && '|' !in cs && '|' !in ct;
    MapEntrySix(d);
    LineBadSizeSix(EntryId(d).value, LocalFile(d).value, SizeText(d.size), mt, cs, ct, classRoot);
  }

  /** A record with a size but without a time writes `mod_time=None`,
      which the reader rejects: such a line does not read back either. */
  lemma MapEntryNoTime(d: FileDao, classRoot: Str)
    requires EntrySafe(d) && d.size.Some? && d.mtime.None?
    ensures ParseMapLine(MapEntry(d).value, 0, classRoot) == Failure(ValueError)
  {
    if Falsy(d.checksumValue) {
      NoTimeFour(d, classRoot);
    } else {
      NoTimeSix(d, classRoot);
    }
  }

  lemma NoTimeFour(d: FileDao, classRoot: Str)
    requires EntrySafe(d) && d.size.Some? && d.mtime.None? && Falsy(d.checksumValue)
    ensures ParseMapLine(MapEntry(d).value, 0, classRoot) == Failure(ValueError)
  {
    NoneFacts();
    MapEntryFour(d);
    LineBadTimeFour(EntryId(d).value, LocalFile(d).value, d.size.value, TimeText(d.mtime), classRoot);
  }

  lemma NoTimeSix(d: FileDao, classRoot: Str)
    requires EntrySafe(d) && d.size.Some? && d.mtime.None? && !Falsy(d.checksumValue)
    ensures ParseMapLine(MapEntry(d).value, 0, classRoot) == Failure(ValueError)
  {
    var ty := d.checksumType.value;
    var cs, ct := "checksum=" + d.checksumValue.value, "checksum_type=" + Upper(ty);
    NoneFacts();
    KeysFree();
    UpperKeepsBar(ty);
    assert '|' !in cs && '|' !in ct;
    MapEntrySix(d);
    LineBadTimeSix(EntryId(d).value, LocalFile(d).value, d.size.value, TimeText(d.mtime), cs, ct, classRoot);
  }

  /** A record written under an absolute root with a size, a parseable
      time and either no checksum or a checksum with a lower-case
      algorithm reads back from its map line as the same record. */
  lemma MapRecordRoundTrip(root: Str, rel: Str, size: int, t: FloatText, checksumType: Option<Str>, checksumValue: Option<Str>)
    requires CleanRoot(root) && root[0] == '/' && RelPath(rel) && FieldSafe(root + "/" + rel)
    requires FieldSafe(t) && '=' !in t && FloatLiteral(t)
    requires (checksumValue.None? && checksumType.None?) ||
             (checksumValue.Some? && checksumType.Some? && FieldSafe(checksumValue.value) && '=' !in checksumValue.value &&
              FieldSafe(checksumType.value) && '=' !in checksumType.value && Lower(checksumType.value) == checksumType.value)
    requires var d := NewFileDao(root, None, Some(root + "/" + rel), None, None, Some(size), Some(t), checksumType, checksumValue);
             MapEntry(d).Success? && '|' !in EntryId(d).value
    ensures var d := NewFileDao(root, None, Some(root + "/" + rel), None, None, Some(size), Some(t), checksumType, checksumValue);
            ParseMapLine(MapEntry(d).value, 0, root) == Success(d)
  {
    var f := root + "/" + rel;
    var d := NewFileDao(root, None, Some(f), None, None, Some(size), Some(t), checksumType, checksumValue);
    assert d.file == Some(f) by {
      RootSplitUnder(root, rel);
    }
    assert LocalFile(d) == Success(f);
    assert d.size == Some(size) && d.mtime == Some(t);
    assert d.checksumType == checksumType && d.checksumValue == checksumValue;
    MapEntryRoundTrip(d, root);
    if checksumValue.Some? {
      assert !Falsy(d.checksumValue);
    }
  }

  // ---------------------------------------------------------------------
  // The checksum run over the database
  // ---------------------------------------------------------------------

  /** The `checked` flag of a record; a record the map does not hold has
      never been checked. */
  function FlagOf(flags: map<Str, Option<bool>>, n: Str): Option<bool> {
    if n in flags then flags[n] else None
  }

  /** Set the flag of every named record to `v`. */
  function MarkAll(flags: map<Str, Option<bool>>, names: seq<Str>, v: bool): map<Str, Option<bool>>
    decreases |names|
  {
    if |names| == 0 then flags else MarkAll(flags[names[0] := Some(v)], names[1..], v)
  }

  /** After marking, a named record carries `v` and every other record
      keeps its flag. */
  lemma {:induction false} MarkAllFlag(flags: map<Str, Option<bool>>, names: seq<Str>, v: bool, n: Str)
    ensures FlagOf(MarkAll(flags, names, v), n) == if n in names then Some(v) else FlagOf(flags, n)
    decreases |names|
  {
    if |names| > 0 {
      MarkAllFlag(flags[names[0] := Some(v)], names[1..], v, n);
      assert n in names <==> n == names[0] || n in names[1..];
    }
  }

  /** The names of a list, as a set. */
  function NameSet(names: seq<Str>): set<Str>
    decreases |names|
  {
    if |names| == 0 then {} else {names[0]} + NameSet(names[1..])
  }

  lemma {:induction false} NameSetIn(names: seq<Str>, n: Str)
    ensures n in NameSet(names) <==> n in names
    decreases |names|
  {
    if |names| > 0 {
      NameSetIn(names[1..], n);
      assert n in names <==> n == names[0] || n in names[1..];
    }
  }

  /** The records of `files` whose check passes (`want`) or fails. */
  function Keep(files: seq<Str>, good: set<Str>, want: bool): (r: seq<Str>)
    ensures |r| <= |files|
  {
    if |files| == 0 then []
    else (if (files[0] in good) == want then [files[0]] else []) + Keep(files[1..], good, want)
  }

  lemma {:induction false} KeepIn(files: seq<Str>, good: set<Str>, want: bool, n: Str)
    ensures n in Keep(files, good, want) <==> n in files && (n in good) == want
  {
    if |files| > 0 {
      KeepIn(files[1..], good, want, n);
      assert n in files <==> n == files[0] || n in files[1..];
    }
  }

  /** Whether the query of a run selects a record: under `onlyNew` the
      never-checked ones, otherwise every one not known to pass. */
  predicate Pending(flag: Option<bool>, onlyNew: bool) {
    if onlyNew then flag.None? else flag != Some(true)
  }

  /** The records the query selects, in table order, leaving out those in
      `exclude`. */
  function PendingNames(order: seq<Str>, flags: map<Str, Option<bool>>, onlyNew: bool, exclude: set<Str>): (r: seq<Str>)
    ensures |r| <= |order|
  {
    if |order| == 0 then []
    else
      var n := order[0];
      (if Pending(FlagOf(flags, n), onlyNew) && n !in exclude then [n] else []) +
      PendingNames(order[1..], flags, onlyNew, exclude)
  }

  lemma {:induction false} PendingIn(order: seq<Str>, flags: map<Str, Option<bool>>, onlyNew: bool, exclude: set<Str>, n: Str)
    ensures n in PendingNames(order, flags, onlyNew, exclude) <==>
            n in order && Pending(FlagOf(flags, n), onlyNew) && n !in exclude
  {
    if |order| > 0 {
      PendingIn(order[1..], flags, onlyNew, exclude, n);
      assert n in order <==> n == order[0] || n in order[1..];
    }
  }

  /** The state of the run: the flags, the running totals, the lists of
      the last batch, and the records checked so far. */
  datatype CompareState = CompareState(flags: map<Str, Option<bool>>, okNum: nat, failedNum: nat,
                                       ok: seq<Str>, failed: seq<Str>, seen: set<Str>)

  /** One pass of the loop: select a batch with `query[:batch_size]`, stop
      at once when nothing is selected on the first pass, check the batch
      and mark its records; a batch shorter than `batch_size` ends the
      loop. `exclude` says whether records already checked in this run
      are left out of the selection. Returns the state and whether the
      loop goes on. */
  function CompareBatch(order: seq<Str>, good: set<Str>, onlyNew: bool, batchSize: int, exclude: bool,
                        s: CompareState): (r: (CompareState, bool))
  {
    var files := SliceTo(PendingNames(order, s.flags, onlyNew, if exclude then s.seen else {}), batchSize);
    if |files| == 0 && s.okNum + s.failedNum == 0 then (s.(ok := [], failed := []), false)
    else
      var ok := Keep(files, good, true);
      var failed := Keep(files, good, false);
      var flags := MarkAll(MarkAll(s.flags, ok, true), failed, onlyNew);
      (CompareState(flags, s.okNum + |ok|, s.failedNum + |failed|, ok, failed, s.seen + NameSet(files)),
       !(|files| < batchSize))
  }

  /** The loop, given at most `fuel` passes; None when they run out. */
  function CompareLoop(fuel: nat, order: seq<Str>, good: set<Str>, onlyNew: bool, batchSize: int, exclude: bool,
                       s: CompareState): Option<CompareState>
    decreases fuel
  {
    if fuel == 0 then None
    else
      var b := CompareBatch(order, good, onlyNew, batchSize, exclude, s);
      if b.1 then CompareLoop(fuel - 1, order, good, onlyNew, batchSize, exclude, b.0) else Some(b.0)
  }

  function StartState(flags: map<Str, Option<bool>>): CompareState {
    CompareState(flags, 0, 0, [], [], {})
  }

  /** `compareWithLocal` as written: the selection does not leave out the
      records already checked in this run, and after the loop the lists of
      the last batch are marked again, its failures as not passed whatever
      `onlyNew` says, and counted again. `good` is the set of records whose
      check passes. Returns the final flags and `failed_num == 0`. */
  function CompareWithLocalAsWritten(fuel: nat, order: seq<Str>, good: set<Str>, onlyNew: bool, batchSize: int,
                                     flags: map<Str, Option<bool>>): Option<(map<Str, Option<bool>>, bool)>
  {
    match CompareLoop(fuel, order, good, onlyNew, batchSize, false, StartState(flags))
    case None => None
    case Some(s) =>
      var final := MarkAll(MarkAll(s.flags, s.ok, true), s.failed, false);
      Some((final, s.failedNum + |s.failed| == 0))
  }

  /** `compareWithLocal` as evidently intended: each record is checked at
      most once per run and keeps the mark its batch gave it. */
  function CompareWithLocal(fuel: nat, order: seq<Str>, good: set<Str>, onlyNew: bool, batchSize: int,
                            flags: map<Str, Option<bool>>): Option<(map<Str, Option<bool>>, bool)>
  {
    match CompareLoop(fuel, order, good, onlyNew, batchSize, true, StartState(flags))
    case None => None
    case Some(s) => Some((s.flags, s.failedNum == 0))
  }

  /** What a run keeps true from its start state with flags `flags0`:
      the total of failures is zero exactly when every record checked so
      far passed; a checked record is marked passed when it passed or the
      run is `onlyNew`, and not passed otherwise; every other record keeps
      its flag; and only records the query could select were checked. */
  ghost predicate RunInv(s: CompareState, order: seq<Str>, good: set<Str>, onlyNew: bool, flags0: map<Str, Option<bool>>) {
    (s.failedNum == 0 <==> forall n :: n in s.seen ==> n in good) &&
    (forall n :: FlagOf(s.flags, n) == if n in s.seen then Some(n in good || onlyNew) else FlagOf(flags0, n)) &&
    (forall n :: n in s.seen ==> n in order && Pending(FlagOf(flags0, n), onlyNew)) &&
    (forall n :: n in s.ok ==> n in s.seen && n in good) &&
    (forall n :: n in s.failed ==> n in s.seen && n !in good)
  }

  /** Every record the query selected at the start of the run has been
      checked. */
  ghost predicate Done(s: CompareState, order: seq<Str>, onlyNew: bool, flags0: map<Str, Option<bool>>) {
    forall n :: n in order && Pending(FlagOf(flags0, n), onlyNew) ==> n in s.seen
  }

  lemma SliceToIn(p: seq<Str>, j: int)
    ensures forall n :: n in SliceTo(p, j) ==> n in p
  {
  }

  /** One pass keeps the run's invariant, with or without leaving out
      records already checked. */
  lemma CompareBatchKeeps(order: seq<Str>, good: set<Str>, onlyNew: bool, batchSize: int, exclude: bool,
                          s: CompareState, flags0: map<Str, Option<bool>>)
    requires RunInv(s, order, good, onlyNew, flags0)
    ensures RunInv(CompareBatch(order, good, onlyNew, batchSize, exclude, s).0, order, good, onlyNew, flags0)
  {
    var ex := if exclude then s.seen else {};
    var p := PendingNames(order, s.flags, onlyNew, ex);
    var files := SliceTo(p, batchSize);
    SliceToIn(p, batchSize);
    if !(|files| == 0 && s.okNum + s.failedNum == 0) {
      var ok := Keep(files, good, true);
      var failed := Keep(files, good, false);
      var flags := MarkAll(MarkAll(s.flags, ok, true), failed, onlyNew);
      var t := CompareBatch(order, good, onlyNew, batchSize, exclude, s).0;
      assert t.seen == s.seen + NameSet(files) && t.flags == flags;
      forall n
        ensures n in t.seen <==> n in s.seen || n in files
        ensures FlagOf(flags, n) == if n in files then Some(n in good || onlyNew) else FlagOf(s.flags, n)
        ensures n in failed <==> n in files && n !in good
        ensures n in ok <==> n in files && n in good
        ensures n in files ==> n in order && Pending(FlagOf(s.flags, n), onlyNew)
      {
        NameSetIn(files, n);
        KeepIn(files, good, true, n);
        KeepIn(files, good, false, n);
        MarkAllFlag(s.flags, ok, true, n);
        MarkAllFlag(MarkAll(s.flags, ok, true), failed, onlyNew, n);
        PendingIn(order, s.flags, onlyNew, ex, n);
      }
      assert |failed| == 0 <==> forall n :: n in files ==> n in good by {
        if |failed| > 0 {
          assert failed[0] in failed;
        }
      }
    }
  }

  /** A pass that ends the loop leaves no record the query selected at the
      start unchecked: the batch was all the query still selected. */
  lemma CompareBatchCompletes(order: seq<Str>, good: set<Str>, onlyNew: bool, batchSize: int, exclude: bool,
                              s: CompareState, flags0: map<Str, Option<bool>>)
    requires batchSize >= 1 && RunInv(s, order, good, onlyNew, flags0)
    ensures var b := CompareBatch(order, good, onlyNew, batchSize, exclude, s);
            !b.1 ==> Done(b.0, order, onlyNew, flags0)
  {
    var ex := if exclude then s.seen else {};
    var p := PendingNames(order, s.flags, onlyNew, ex);
    var files := SliceTo(p, batchSize);
    var b := CompareBatch(order, good, onlyNew, batchSize, exclude, s);
    if !b.1 {
      assert files == p;
      forall n | n in order && Pending(FlagOf(flags0, n), onlyNew)
        ensures n in b.0.seen
      {
        if n !in s.seen {
          PendingIn(order, s.flags, onlyNew, ex, n);
          NameSetIn(files, n);
        }
      }
    }
  }

  /** One unfolding of the loop, keeping the run's invariant: the state
      after the pass and whether the loop goes on. */
  lemma CompareLoopStep(fuel: nat, order: seq<Str>, good: set<Str>, onlyNew: bool, batchSize: int,
                        exclude: bool, s: CompareState, flags0: map<Str, Option<bool>>) returns (t: CompareState, more: bool)
    requires fuel > 0 && RunInv(s, order, good, onlyNew, flags0)
    ensures RunInv(t, order, good, onlyNew, flags0)
    ensures !more && batchSize >= 1 ==> Done(t, order, onlyNew, flags0)
    ensures CompareLoop(fuel, order, good, onlyNew, batchSize, exclude, s) ==
            if more then CompareLoop(fuel - 1, order, good, onlyNew, batchSize, exclude, t) else Some(t)
  {
    var b := CompareBatch(order, good, onlyNew, batchSize, exclude, s);
    CompareBatchKeeps(order, good, onlyNew, batchSize, exclude, s, flags0);
    if batchSize >= 1 {
      CompareBatchCompletes(order, good, onlyNew, batchSize, exclude, s, flags0);
    }
    t, more := b.0, b.1;
  }

  /** The loop keeps the run's invariant. */
  lemma {:induction false} CompareLoopKeeps(fuel: nat, order: seq<Str>, good: set<Str>, onlyNew: bool, batchSize: int,
                                            exclude: bool, s: CompareState, flags0: map<Str, Option<bool>>)
    requires RunInv(s, order, good, onlyNew, flags0)
    ensures var r := CompareLoop(fuel, order, good, onlyNew, batchSize, exclude, s);
            r.Some? ==> RunInv(r.value, order, good, onlyNew, flags0) &&
                        (batchSize >= 1 ==> Done(r.value, order, onlyNew, flags0))
    decreases fuel
  {
    if fuel > 0 {
      var t, more := CompareLoopStep(fuel, order, good, onlyNew, batchSize, exclude, s, flags0);
      var r := CompareLoop(fuel, order, good, onlyNew, batchSize, exclude, s);
      if more {
        CompareLoopKeeps(fuel - 1, order, good, onlyNew, batchSize, exclude, t, flags0);
        assert r == CompareLoop(fuel - 1, order, good, onlyNew, batchSize, exclude, t);
      } else {
        assert r == Some(t);
      }
    }
  }

  /** The records of the table not yet checked in the run. */
  function Unseen(order: seq<Str>, seen: set<Str>): set<Str> {
    set n | n in order && n !in seen
  }

  lemma {:induction false} UnseenBound(order: seq<Str>, seen: set<Str>)
    ensures |Unseen(order, seen)| <= |order|
    decreases |order|
  {
    if |order| > 0 {
      UnseenBound(order[1..], seen);
      assert Unseen(order, seen) <= Unseen(order[1..], seen) + {order[0]} by {
        forall n | n in Unseen(order, seen) ensures n in Unseen(order[1..], seen) + {order[0]} {
          assert n in order;
          assert n == order[0] || n in order[1..];
        }
      }
      SubsetSize(Unseen(order, seen), Unseen(order[1..], seen) + {order[0]});
    }
  }

  lemma {:induction false} SubsetSize<T>(a: set<T>, b: set<T>)
    requires a <= b
    ensures |a| <= |b|
    decreases |b|
  {
    if |a| > 0 {
      var x :| x in a;
      SubsetSize(a - {x}, b - {x});
    }
  }

  /** With a positive batch size and records already checked left out, a
      pass that lets the loop go on checks at least one record not checked
      before. */
  lemma CompareBatchShrinks(order: seq<Str>, good: set<Str>, onlyNew: bool, batchSize: int, s: CompareState)
    requires batchSize >= 1
    ensures var b := CompareBatch(order, good, onlyNew, batchSize, true, s);
            b.1 ==> |Unseen(order, b.0.seen)| < |Unseen(order, s.seen)|
  {
    var p := PendingNames(order, s.flags, onlyNew, s.seen);
    var files := SliceTo(p, batchSize);
    var b := CompareBatch(order, good, onlyNew, batchSize, true, s);
    if b.1 {
      assert files == p[..|files|];
      var x := files[0];
      PendingIn(order, s.flags, onlyNew, s.seen, x);
      NameSetIn(files, x);
      assert b.0.seen == s.seen + NameSet(files);
      assert x in Unseen(order, s.seen) && x !in Unseen(order, b.0.seen);
      SubsetSize(Unseen(order, b.0.seen), Unseen(order, s.seen) - {x});
    }
  }

  /** With a positive batch size and records already checked left out,
      the loop ends once it has more passes than there are unchecked
      records. */
  lemma {:induction false} CompareTerminates(fuel: nat, order: seq<Str>, good: set<Str>, onlyNew: bool, batchSize: int,
                                             s: CompareState)
    requires batchSize >= 1 && fuel > |Unseen(order, s.seen)|
    ensures CompareLoop(fuel, order, good, onlyNew, batchSize, true, s).Some?
    decreases fuel
  {
    var b := CompareBatch(order, good, onlyNew, batchSize, true, s);
    CompareBatchShrinks(order, good, onlyNew, batchSize, s);
    if b.1 {
      CompareTerminates(fuel - 1, order, good, onlyNew, batchSize, b.0);
    }
  }

  /** The records the query selects at the start of a run. */
  ghost predicate Selected(n: Str, order: seq<Str>, onlyNew: bool, flags: map<Str, Option<bool>>) {
    n in order && Pending(FlagOf(flags, n), onlyNew)
  }

  /** `compareWithLocal` as intended, with a positive batch size: it ends
      within one pass more than there are records; then it has checked
      exactly the records the query selected at the start, marking each
      one passed when its check passed or the run is `onlyNew`, and not
      passed otherwise; every other record keeps its flag; and it returns
      True exactly when every selected record passed. */
  lemma CompareWithLocalCorrect(fuel: nat, order: seq<Str>, good: set<Str>, onlyNew: bool, batchSize: int,
                                flags: map<Str, Option<bool>>)
    requires batchSize >= 1
    ensures fuel > |order| ==> CompareWithLocal(fuel, order, good, onlyNew, batchSize, flags).Some?
    ensures var r := CompareWithLocal(fuel, order, good, onlyNew, batchSize, flags);
            r.Some? ==>
              (forall n :: FlagOf(r.value.0, n) ==
                 if Selected(n, order, onlyNew, flags) then Some(n in good || onlyNew) else FlagOf(flags, n)) &&
              (r.value.1 <==> forall n :: Selected(n, order, onlyNew, flags) ==> n in good)
  {
    var s0 := StartState(flags);
    UnseenBound(order, s0.seen);
    if fuel > |order| {
      CompareTerminates(fuel, order, good, onlyNew, batchSize, s0);
    }
    CompareLoopKeeps(fuel, order, good, onlyNew, batchSize, true, s0, flags);
  }

  /** `compareWithLocal` as written, when not `onlyNew` and when it ends,
      does what is intended: the final pass marks the last batch as it was
      already marked, and counting its failures again does not change
      whether there were any. */
  lemma CompareAsWrittenNotOnlyNew(fuel: nat, order: seq<Str>, good: set<Str>, batchSize: int,
                                   flags: map<Str, Option<bool>>)
    requires batchSize >= 1
    ensures var r := CompareWithLocalAsWritten(fuel, order, good, false, batchSize, flags);
            r.Some? ==>
              (forall n :: FlagOf(r.value.0, n) ==
                 if Selected(n, order, false, flags) then Some(n in good) else FlagOf(flags, n)) &&
              (r.value.1 <==> forall n :: Selected(n, order, false, flags) ==> n in good)
  {
    var s0 := StartState(flags);
    CompareLoopKeeps(fuel, order, good, false, batchSize, false, s0, flags);
    var r := CompareLoop(fuel, order, good, false, batchSize, false, s0);
    if r.Some? {
      var s := r.value;
      var final := MarkAll(MarkAll(s.flags, s.ok, true), s.failed, false);
      forall n
        ensures FlagOf(final, n) == FlagOf(s.flags, n)
      {
        MarkAllFlag(s.flags, s.ok, true, n);
        MarkAllFlag(MarkAll(s.flags, s.ok, true), s.failed, false, n);
      }
      if |s.failed| > 0 {
        assert s.failed[0] in s.failed;
      }
    }
  }

  /** Under `onlyNew` the final pass of `compareWithLocal` as written marks
      a failed record of the last batch as not passed, where the loop had
      marked it passed: one new record whose check fails ends up with
      `checked == False`. */
  lemma CompareFinalPassRemarks()
    ensures var r := CompareWithLocalAsWritten(1, ["a"], {}, true, 5, map[]);
            r.Some? && FlagOf(r.value.0, "a") == Some(false)
    ensures var r := CompareWithLocal(1, ["a"], {}, true, 5, map[]);
            r.Some? && FlagOf(r.value.0, "a") == Some(true)
  {
    var s0 := StartState(map[]);
    assert PendingNames(["a"], map[], true, {}) == ["a"];
    assert Keep(["a"], {}, true) == [] && Keep(["a"], {}, false) == ["a"];
    MarkAllFlag(map[], [], true, "a");
    MarkAllFlag(MarkAll(map[], [], true), ["a"], true, "a");
    var s1 := CompareBatch(["a"], {}, true, 5, false, s0).0;
    MarkAllFlag(s1.flags, [], true, "a");
    MarkAllFlag(MarkAll(s1.flags, [], true), ["a"], false, "a");
  }

  /** Not under `onlyNew`, a record that keeps failing its check is
      selected again by every pass: with a batch size of one the loop of
      `compareWithLocal` as written never ends. */
  lemma {:induction false} CompareLoopNeverEnds(fuel: nat, s: CompareState)
    requires FlagOf(s.flags, "a") != Some(true)
    ensures CompareLoop(fuel, ["a"], {}, false, 1, false, s) == None
    decreases fuel
  {
    if fuel > 0 {
      assert PendingNames(["a"], s.flags, false, {}) == ["a"];
      assert Keep(["a"], {}, true) == [] && Keep(["a"], {}, false) == ["a"];
      var b := CompareBatch(["a"], {}, false, 1, false, s);
      MarkAllFlag(s.flags, [], true, "a");
      MarkAllFlag(MarkAll(s.flags, [], true), ["a"], false, "a");
      CompareLoopNeverEnds(fuel - 1, b.0);
    }
  }

  /** However many passes it is given, `compareWithLocal` as written does
      not return on one record that fails its check with a batch size of
      one, where the intended version returns after two passes. */
  lemma CompareAsWrittenNeverEnds(fuel: nat)
    ensures CompareWithLocalAsWritten(fuel, ["a"], {}, false, 1, map[]) == None
    ensures CompareWithLocal(2, ["a"], {}, false, 1, map[]).Some?
  {
    CompareLoopNeverEnds(fuel, StartState(map[]));
    CompareWithLocalCorrect(2, ["a"], {}, false, 1, map[]);
  }

  // ---------------------------------------------------------------------
  // Directory cache (updateFromDir)
  // ---------------------------------------------------------------------

  /** A directory on disk: its modification time and its subdirectories by
      name, in listing order. Plain files are not listed: the walk keeps
      only the entries that are directories. */
  datatype Dir = Dir(mtime: FloatText, subdirs: seq<(Str, Dir)>)

  function DirSize(d: Dir): nat
    decreases d, |d.subdirs| + 1
  {
    1 + SizeFrom(d, 0)
  }

  /** The total size of the subdirectories of `d` from the `i`-th on. */
  function SizeFrom(d: Dir, i: nat): nat
    decreases d, |d.subdirs| - i
  {
    if i >= |d.subdirs| then 0 else DirSize(d.subdirs[i].1) + SizeFrom(d, i + 1)
  }

  /** The total size of the directories waiting on the walk's stack. */
  function StackSize(st: seq<(Str, Dir)>): nat {
    if |st| == 0 then 0 else StackSize(st[..|st| - 1]) + DirSize(st[|st| - 1].1)
  }

  lemma {:induction false} StackSizeAppend(a: seq<(Str, Dir)>, b: seq<(Str, Dir)>)
    ensures StackSize(a + b) == StackSize(a) + StackSize(b)
    decreases |b|
  {
    if |b| > 0 {
      assert (a + b)[..|a + b| - 1] == a + b[..|b| - 1];
      assert (a + b)[|a + b| - 1] == b[|b| - 1];
      StackSizeAppend(a, b[..|b| - 1]);
    } else {
      assert a + b == a;
    }
  }

  /** The absolute paths of the subdirectories of `abs`, in listing order:
      `os.path.join(dir, entry)`. */
  function Children(abs: Str, es: seq<(Str, Dir)>): (r: seq<(Str, Dir)>)
    ensures |r| == |es|
  {
    if |es| == 0 then [] else [(PathJoin(abs, es[0].0), es[0].1)] + Children(abs, es[1..])
  }

  lemma {:induction false} ChildrenSize(abs: Str, d: Dir, i: nat)
    requires i <= |d.subdirs|
    ensures StackSize(Children(abs, d.subdirs[i..])) == SizeFrom(d, i)
    decreases |d.subdirs| - i
  {
    if i < |d.subdirs| {
      ChildrenSize(abs, d, i + 1);
      var es := d.subdirs[i..];
      assert es[1..] == d.subdirs[i + 1..];
      var c := [(PathJoin(abs, es[0].0), es[0].1)];
      StackSizeAppend(c, Children(abs, es[1..]));
      assert StackSize(c) == DirSize(es[0].1) by {
        assert c[..0] == [];
      }
    }
  }

  /** What the walk has found so far: the cache of directory times by
      path, the new directories (`missing`), the changed ones with their
      new time (`partially_missing`) and the last unchanged one
      (`unchanged`, here `same`). */
  datatype DirScan = DirScan(cache: map<Str, FloatText>, missing: seq<(Str, FloatText)>,
                             changed: seq<(Str, FloatText)>, same: Option<Str>)

  /** The path of a directory in the cache: `dir[offset:]`. */
  function CachePath(abs: Str, offset: int): Str {
    SliceFrom(abs, offset)
  }

  /** The walk of `updateFromDir`: pop the last directory from the stack;
      one not in the cache is new and its subdirectories are not visited;
      one whose time differs from the cache is changed and the cache takes
      the new time; otherwise it becomes the unchanged one (the variable is
      assigned, not appended to). Both of the latter push their
      subdirectories. */
  function Walk(stack: seq<(Str, Dir)>, offset: int, sc: DirScan): (r: DirScan)
    ensures r.cache.Keys == sc.cache.Keys
    ensures sc.missing <= r.missing && sc.changed <= r.changed
    decreases StackSize(stack)
  {
    if |stack| == 0 then sc
    else
      var rest := stack[..|stack| - 1];
      var abs := stack[|stack| - 1].0;
      var d := stack[|stack| - 1].1;
      var path := CachePath(abs, offset);
      if path !in sc.cache then
        Walk(rest, offset, sc.(missing := sc.missing + [(path, d.mtime)]))
      else
        var next := if d.mtime != sc.cache[path]
                    then sc.(cache := sc.cache[path := d.mtime], changed := sc.changed + [(path, d.mtime)])
                    else sc.(same := Some(path));
        StackSizeAppend(rest, Children(abs, d.subdirs));
        ChildrenSize(abs, d, 0);
        assert d.subdirs[0..] == d.subdirs;
        Walk(rest + Children(abs, d.subdirs), offset, next)
  }

  /** The directories a walk from `abs` reaches, as (cache path, time)
      pairs: the directory itself, and below it only when its path is in
      the cache. */
  function Reach(abs: Str, d: Dir, keys: set<Str>, offset: int): set<(Str, FloatText)>
    decreases d, |d.subdirs| + 1
  {
    {(CachePath(abs, offset), d.mtime)} +
    (if CachePath(abs, offset) in keys then ReachFrom(abs, d, 0, keys, offset) else {})
  }

  /** What a walk reaches from the subdirectories of `d` from the `i`-th on. */
  function ReachFrom(abs: Str, d: Dir, i: nat, keys: set<Str>, offset: int): set<(Str, FloatText)>
    decreases d, |d.subdirs| - i
  {
    if i >= |d.subdirs| then {}
    else Reach(PathJoin(abs, d.subdirs[i].0), d.subdirs[i].1, keys, offset) + ReachFrom(abs, d, i + 1, keys, offset)
  }

  /** What a walk reaches from every directory on the stack. */
  function ReachStack(st: seq<(Str, Dir)>, keys: set<Str>, offset: int): set<(Str, FloatText)> {
    if |st| == 0 then {}
    else ReachStack(st[..|st| - 1], keys, offset) + Reach(st[|st| - 1].0, st[|st| - 1].1, keys, offset)
  }

  lemma {:induction false} ReachStackAppend(a: seq<(Str, Dir)>, b: seq<(Str, Dir)>, keys: set<Str>, offset: int)
    ensures ReachStack(a + b, keys, offset) == ReachStack(a, keys, offset) + ReachStack(b, keys, offset)
    decreases |b|
  {
    if |b| > 0 {
      assert (a + b)[..|a + b| - 1] == a + b[..|b| - 1];
      assert (a + b)[|a + b| - 1] == b[|b| - 1];
      ReachStackAppend(a, b[..|b| - 1], keys, offset);
    } else {
      assert a + b == a;
    }
  }

  lemma ReachOne(e: (Str, Dir), keys: set<Str>, offset: int)
    ensures ReachStack([e], keys, offset) == Reach(e.0, e.1, keys, offset)
  {
    assert [e][..0] == [];
  }

  lemma {:induction false} ReachChildren(abs: Str, d: Dir, i: nat, keys: set<Str>, offset: int)
    requires i <= |d.subdirs|
    ensures ReachStack(Children(abs, d.subdirs[i..]), keys, offset) == ReachFrom(abs, d, i, keys, offset)
    decreases |d.subdirs| - i
  {
    if i < |d.subdirs| {
      var es := d.subdirs[i..];
      var tail := Children(abs, d.subdirs[i + 1..]);
      var c := [(PathJoin(abs, d.subdirs[i].0), d.subdirs[i].1)];
      assert Children(abs, es) == c + tail by {
        assert es[1..] == d.subdirs[i + 1..];
      }
      ReachChildren(abs, d, i + 1, keys, offset);
      ReachStackAppend(c, tail, keys, offset);
      ReachOne(c[0], keys, offset);
    }
  }

  /** The cache paths of a list of (path, time) entries. */
  function PathsOf(es: seq<(Str, FloatText)>): seq<Str> {
    seq(|es|, i requires 0 <= i < |es| => es[i].0)
  }

  /** One pass of the walk's loop: the directory on top of the stack is
      classified and the walk goes on with the rest of the stack and, for
      a cached directory, its subdirectories. */
  lemma WalkStep(stack: seq<(Str, Dir)>, offset: int, sc: DirScan) returns (next: seq<(Str, Dir)>, nsc: DirScan)
    requires |stack| > 0
    ensures var abs := stack[|stack| - 1].0;
            var m := stack[|stack| - 1].1.mtime;
            var path := CachePath(abs, offset);
            var isNew := path !in sc.cache;
            var isChanged := !isNew && m != sc.cache[path];
            Walk(stack, offset, sc) == Walk(next, offset, nsc) &&
            StackSize(next) < StackSize(stack) &&
            ReachStack(stack, sc.cache.Keys, offset) == ReachStack(next, sc.cache.Keys, offset) + {(path, m)} &&
            nsc.missing == sc.missing + (if isNew then [(path, m)] else []) &&
            nsc.changed == sc.changed + (if isChanged then [(path, m)] else []) &&
            nsc.cache == (if isChanged then sc.cache[path := m] else sc.cache) &&
            nsc.same == (if !isNew && !isChanged then Some(path) else sc.same)
  {
    var rest := stack[..|stack| - 1];
    var abs := stack[|stack| - 1].0;
    var d := stack[|stack| - 1].1;
    var path := CachePath(abs, offset);
    var keys := sc.cache.Keys;
    if path !in sc.cache {
      next, nsc := rest, sc.(missing := sc.missing + [(path, d.mtime)]);
    } else {
      nsc := if d.mtime != sc.cache[path]
             then sc.(cache := sc.cache[path := d.mtime], changed := sc.changed + [(path, d.mtime)])
             else sc.(same := Some(path));
      next := rest + Children(abs, d.subdirs);
      StackSizeAppend(rest, Children(abs, d.subdirs));
      ChildrenSize(abs, d, 0);
      assert d.subdirs[0..] == d.subdirs;
      ReachStackAppend(rest, Children(abs, d.subdirs), keys, offset);
      ReachChildren(abs, d, 0, keys, offset);
    }
  }

  /** A reached directory is reported new exactly when its path is not in
      the cache. */
  lemma {:induction false} WalkMissing(stack: seq<(Str, Dir)>, offset: int, sc: DirScan)
    ensures var r := Walk(stack, offset, sc);
            forall e :: e in r.missing <==>
                        e in sc.missing || (e in ReachStack(stack, sc.cache.Keys, offset) && e.0 !in sc.cache)
    decreases StackSize(stack)
  {
    if |stack| > 0 {
      var next, nsc := WalkStep(stack, offset, sc);
      WalkMissing(next, offset, nsc);
    }
  }

  /** A directory reported changed was reached and is in the cache. */
  lemma {:induction false} WalkChangedReached(stack: seq<(Str, Dir)>, offset: int, sc: DirScan)
    ensures var r := Walk(stack, offset, sc);
            forall e :: e in r.changed ==>
                        e in sc.changed || (e in ReachStack(stack, sc.cache.Keys, offset) && e.0 in sc.cache)
    decreases StackSize(stack)
  {
    if |stack| > 0 {
      var next, nsc := WalkStep(stack, offset, sc);
      WalkChangedReached(next, offset, nsc);
    }
  }

  /** A reached cached directory whose time differs from the cache is
      reported changed. */
  lemma {:induction false} WalkChangedFound(stack: seq<(Str, Dir)>, offset: int, sc: DirScan)
    ensures var r := Walk(stack, offset, sc);
            forall e :: e in ReachStack(stack, sc.cache.Keys, offset) && e.0 in sc.cache && e.1 != sc.cache[e.0] ==>
                        e.0 in PathsOf(r.changed)
    decreases StackSize(stack)
  {
    if |stack| > 0 {
      var next, nsc := WalkStep(stack, offset, sc);
      WalkChangedFound(next, offset, nsc);
      var r := Walk(stack, offset, sc);
      var abs := stack[|stack| - 1].0;
      var m := stack[|stack| - 1].1.mtime;
      var path := CachePath(abs, offset);
      if path in sc.cache && m != sc.cache[path] {
        assert (path, m) in nsc.changed;
        var i :| 0 <= i < |nsc.changed| && nsc.changed[i] == (path, m);
        assert r.changed[i] == (path, m);
        assert PathsOf(r.changed)[i] == path;
      }
    }
  }

  /** The walk keeps the cache's paths, and a path whose time the cache no
      longer holds was reported changed with the time it now holds. */
  lemma {:induction false} WalkCache(stack: seq<(Str, Dir)>, offset: int, sc: DirScan)
    ensures var r := Walk(stack, offset, sc);
            forall p :: p in sc.cache ==> r.cache[p] == sc.cache[p] || (p, r.cache[p]) in r.changed
    decreases StackSize(stack)
  {
    if |stack| > 0 {
      var next, nsc := WalkStep(stack, offset, sc);
      WalkCache(next, offset, nsc);
      var r := Walk(stack, offset, sc);
      forall p | p in sc.cache
        ensures r.cache[p] == sc.cache[p] || (p, r.cache[p]) in r.changed
      {
        if nsc.cache[p] != sc.cache[p] {
          var i := |sc.changed|;
          assert nsc.changed[i] == (p, nsc.cache[p]);
          assert r.changed[i] == nsc.changed[i];
        }
      }
    }
  }

  /** The unchanged directory the walk ends with, when the walk found one,
      was reached and is in the cache. */
  lemma {:induction false} WalkSame(stack: seq<(Str, Dir)>, offset: int, sc: DirScan)
    ensures var r := Walk(stack, offset, sc);
            r.same == sc.same ||
            (r.same.Some? && r.same.value in sc.cache &&
             exists m :: (r.same.value, m) in ReachStack(stack, sc.cache.Keys, offset))
    decreases StackSize(stack)
  {
    if |stack| > 0 {
      var next, nsc := WalkStep(stack, offset, sc);
      WalkSame(next, offset, nsc);
    }
  }

  /** Where `updateFromDir` starts: the root when no start is given, the
      start itself when it begins with the root, and otherwise the start
      joined to the root. */
  function StartDir(root: Str, startFrom: Str): (r: Str)
    ensures startFrom != [] && !StartsWith(startFrom, root) && !StartsWith(startFrom, "/") ==> StartsWith(r, root)
  {
    if startFrom == [] then root
    else if StartsWith(startFrom, root) then startFrom
    else PathJoin(root, startFrom)
  }

  /** The classification of `updateFromDir`, on the directory tree `top`
      found at the start directory and the cached times `cache`: the
      changed directories with their new times followed by the new ones,
      and the cache after the walk. */
  function UpdateFromDir(root: Str, startFrom: Str, top: Dir, cache: map<Str, FloatText>)
    : (r: (seq<(Str, FloatText)>, map<Str, FloatText>))
    ensures r.1.Keys == cache.Keys
  {
    var w := Walk([(StartDir(root, startFrom), top)], |root| + 1, DirScan(cache, [], [], None));
    (w.changed + w.missing, w.cache)
  }

  /** `updateFromDir` reports exactly the reached directories that are not
      cached, only reached ones, every reached cached directory whose time
      differs from the cache, and leaves in the cache either the old time
      or a time it reports. */
  lemma UpdateFromDirClassifies(root: Str, startFrom: Str, top: Dir, cache: map<Str, FloatText>)
    ensures var r := UpdateFromDir(root, startFrom, top, cache);
            var reach := Reach(StartDir(root, startFrom), top, cache.Keys, |root| + 1);
            (forall e :: e in r.0 ==> e in reach) &&
            (forall e :: e in reach && e.0 !in cache ==> e in r.0) &&
            (forall e :: e in reach && e.0 in cache && e.1 != cache[e.0] ==> e.0 in PathsOf(r.0)) &&
            (forall p :: p in cache ==> r.1[p] == cache[p] || (p, r.1[p]) in r.0)
  {
    var stack := [(StartDir(root, startFrom), top)];
    var offset := |root| + 1;
    var sc := DirScan(cache, [], [], None);
    var w := Walk(stack, offset, sc);
    assert ReachStack(stack, cache.Keys, offset) == Reach(StartDir(root, startFrom), top, cache.Keys, offset) by {
      assert stack[..0] == [];
    }
    WalkMissing(stack, offset, sc);
    WalkChangedReached(stack, offset, sc);
    WalkChangedFound(stack, offset, sc);
    WalkCache(stack, offset, sc);
    forall e | e in PathsOf(w.changed) ensures e in PathsOf(w.changed + w.missing) {
      var i :| 0 <= i < |w.changed| && PathsOf(w.changed)[i] == e;
      assert PathsOf(w.changed + w.missing)[i] == e;
    }
  }

  /** The unchanged directory is assigned, not collected: with a cached
      directory `a` holding a cached subdirectory `a/b`, both unchanged,
      the walk ends with `a/b` only, and reports nothing. */
  lemma UpdateFromDirSameIsLast()
    ensures var top := Dir("1.0", [("b", Dir("2.0", []))]);
            var cache := map["a" := "1.0", "a/b" := "2.0"];
            var w := Walk([("/r/a", top)], 3, DirScan(cache, [], [], None));
            w.same == Some("a/b") && w.changed == [] && w.missing == []
  {
    var top := Dir("1.0", [("b", Dir("2.0", []))]);
    var cache := map["a" := "1.0", "a/b" := "2.0"];
    var sc := DirScan(cache, [], [], None);
    assert CachePath("/r/a", 3) == "a";
    assert !StartsWith("b", "/") by { assert "b"[..1][0] != "/"[0]; }
    assert !EndsWith("/r/a", "/") by { assert "/r/a"[3..] != "/"; }
    assert "/r/a" + "/" + "b" == "/r/a/b";
    assert PathJoin("/r/a", "b") == "/r/a/b";
    assert CachePath("/r/a/b", 3) == "a/b";
    var kids := [("/r/a/b", Dir("2.0", []))];
    assert [("/r/a", top)][..0] == [];
    assert Children("/r/a", top.subdirs) == kids;
    assert [] + kids == kids;
    assert Walk([("/r/a", top)], 3, sc) == Walk(kids, 3, sc.(same := Some("a")));
    assert kids[..0] == [];
    assert Children("/r/a/b", []) == [];
    assert Walk(kids, 3, sc.(same := Some("a"))) == Walk([], 3, sc.(same := Some("a/b")));
  }
}
