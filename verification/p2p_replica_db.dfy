/** The P2P replica database's helpers: a dataset's DRS facets read off
    its name, its cached directory, the priority order of well-known
    repositories, the lines a repository listing is imported from, and
    the dialect rewrite of the database URL. Sessions, queries and the
    filesystem are left out; the stored rows and the file's lines are
    inputs. */
module P2pReplicaDb {
  import opened Wrappers
  import opened PyStr

  // ---------------------------------------------------------------------
  // DRS facets of a dataset name
  // ---------------------------------------------------------------------

  /** The position of each facet in a dotted dataset name; aliases share
      a position. */
  const DrsElem: map<Str, nat> := map[
    "activity" := 0, "project" := 0, "product" := 1, "institute" := 2, "institution" := 2,
    "model" := 3, "experiment" := 4, "frequency" := 5, "realm" := 6, "cmor_table" := 7,
    "ensemble" := 8, "rip" := 8]

  /** Every facet position is one of the nine name pieces. */
  lemma DrsElemBound()
    ensures forall k :: k in DrsElem ==> DrsElem[k] < 9
  {
  }

  /** `ReplicaDataset.DRS.__getattr__` against a facet table: the facet's
      `.`-piece of a non-empty dataset name; an unknown facet or a missing
      name is a `NameError`, a name with too few pieces an `IndexError`. */
  function FacetIn(elems: map<Str, nat>, name: Option<Str>, item: Str): (r: Result<Str, PyError>)
    ensures r.Failure? && r.error == NameError <==> name.None? || name.value == "" || item !in elems
    ensures r.Success? ==> '.' !in r.value
  {
    if name.Some? && name.value != "" && item in elems then
      var parts := Split(name.value, ".");
      var i := elems[item];
      SplitPiecesFree(name.value, '.');
      if i < |parts| then Success(parts[i]) else Failure(IndexError)
    else Failure(NameError)
  }

  /** A facet of a dataset by the DRS positions. */
  function Facet(name: Option<Str>, item: Str): (r: Result<Str, PyError>)
    ensures r.Failure? && r.error == NameError <==> name.None? || name.value == "" || item !in DrsElem
  {
    FacetIn(DrsElem, name, item)
  }

  /** A name of dot-free pieces, at least as many as the table needs,
      gives each known facet its own piece and an unknown facet a
      `NameError`. */
  lemma FacetInOfName(elems: map<Str, nat>, parts: seq<Str>, item: Str)
    requires |parts| >= 2 && forall k :: k in elems ==> elems[k] < |parts|
    requires forall k :: 0 <= k < |parts| ==> '.' !in parts[k]
    ensures item in elems ==> FacetIn(elems, Some(Join(parts, ".")), item) == Success(parts[elems[item]])
    ensures item !in elems ==> FacetIn(elems, Some(Join(parts, ".")), item) == Failure(NameError)
  {
    SplitJoinChar(parts, '.');
    var name := Join(parts, ".");
    assert name == parts[0] + "." + Join(parts[1..], ".");
  }

  /** A dataset name of nine or more dot-free pieces gives each DRS facet
      its own piece, aliases alike. */
  lemma FacetOfName(parts: seq<Str>, item: Str)
    requires |parts| >= 9
    requires forall k :: 0 <= k < |parts| ==> '.' !in parts[k]
    ensures item in DrsElem ==> Facet(Some(Join(parts, ".")), item) == Success(parts[DrsElem[item]])
    ensures item !in DrsElem ==> Facet(Some(Join(parts, ".")), item) == Failure(NameError)
  {
    DrsElemBound();
    FacetInOfName(DrsElem, parts, item);
  }

  // ---------------------------------------------------------------------
  // The dataset's directory
  // ---------------------------------------------------------------------

  /** The first ten `/`-components of a path, or all of them if fewer. */
  function FirstTen(absPath: Str): Str {
    var comps := Split(absPath, "/");
    Join(comps[..if |comps| < 10 then |comps| else 10], "/")
  }

  /** `getPath`: a cached (non-empty) path is kept; otherwise, when the
      dataset has files, the first ten components of its first file's
      path (files in path order) become the cached value. */
  function GetPath(cached: Option<Str>, files: seq<Str>): (r: Option<Str>)
    ensures cached.Some? && cached.value != "" ==> r == cached
    ensures |files| == 0 ==> r == cached
  {
    if (cached.None? || cached.value == "") && |files| > 0 then Some(FirstTen(files[0]))
    else cached
  }

  /** The directory is the whole first path when it has at most ten
      components, and otherwise the part before its tenth `/`. */
  lemma FirstTenPrefix(absPath: Str)
    ensures var comps := Split(absPath, "/");
            && (|comps| <= 10 ==> FirstTen(absPath) == absPath)
            && (|comps| > 10 ==> absPath == FirstTen(absPath) + "/" + Join(comps[10..], "/"))
  {
    var comps := Split(absPath, "/");
    JoinSplit(absPath, "/");
    if |comps| > 10 {
      JoinAppend(comps[..10], comps[10..], "/");
      assert comps[..10] + comps[10..] == comps;
    } else {
      assert comps[..|comps|] == comps;
    }
  }

  /** A file below a directory of ten components yields that directory. */
  lemma FirstTenOfDrs(dir: seq<Str>, rest: seq<Str>)
    requires |dir| == 10 && |rest| >= 1
    requires forall k :: 0 <= k < |dir| ==> '/' !in dir[k]
    requires forall k :: 0 <= k < |rest| ==> '/' !in rest[k]
    ensures FirstTen(Join(dir + rest, "/")) == Join(dir, "/")
  {
    var all := dir + rest;
    forall k | 0 <= k < |all| ensures '/' !in all[k] {
      if k >= |dir| { assert all[k] == rest[k - |dir|]; }
    }
    SplitJoinChar(all, '/');
    assert all[..10] == dir;
  }

  /** Asking again returns what the first call returned. */
  lemma GetPathIdempotent(cached: Option<Str>, files: seq<Str>)
    ensures GetPath(GetPath(cached, files), files) == GetPath(cached, files)
  {
  }

  // ---------------------------------------------------------------------
  // Priority of well-known repositories
  // ---------------------------------------------------------------------

  /** The repositories in order of preference. */
  const RepoOrder: seq<Str> := ["badc", "pcmdi", "ncar", "nci"]

  /** `list.index`: the first position of `x`, or nothing (a `ValueError`). */
  function IndexOf(xs: seq<Str>, x: Str): (r: Option<nat>)
    ensures r.None? <==> x !in xs
    ensures r.Some? ==> r.value < |xs| && xs[r.value] == x && forall j :: 0 <= j < r.value ==> xs[j] != x
  {
    if |xs| == 0 then None
    else if xs[0] == x then Some(0)
    else match IndexOf(xs[1..], x)
      case None => None
      case Some(i) => Some(i + 1)
  }

  /** `ReplicaRepo.__cmp__` against a given order: the difference of the
      two positions when the other repository is listed, 999 (lower
      priority) when it is not, and a `ValueError` when only this one is
      unlisted. */
  function Cmp(order: seq<Str>, self: Str, other: Str): (r: Result<int, PyError>)
    ensures other !in order ==> r == Success(999)
    ensures other in order && self !in order ==> r == Failure(ValueError)
  {
    match IndexOf(order, other)
    case None => Success(999)
    case Some(j) =>
      match IndexOf(order, self)
      case None => Failure(ValueError)
      case Some(i) => Success(i - j)
  }

  /** Comparison of two repositories by the fixed preference order. */
  function RepoCmp(self: Str, other: Str): Result<int, PyError> {
    Cmp(RepoOrder, self, other)
  }

  /** Between listed repositories the comparison is a total order that
      follows the list: negative exactly when this one comes first, zero
      exactly for the same repository, and reversing the arguments
      negates it. */
  lemma CmpListed(order: seq<Str>, a: Str, b: Str)
    requires forall i, j :: 0 <= i < j < |order| ==> order[i] != order[j]
    requires a in order && b in order
    ensures Cmp(order, a, b).Success? && Cmp(order, b, a).Success?
    ensures Cmp(order, a, b).value == -Cmp(order, b, a).value
    ensures Cmp(order, a, b).value == 0 <==> a == b
    ensures Cmp(order, a, b).value < 0 <==>
              exists i, j :: 0 <= i < j < |order| && order[i] == a && order[j] == b
  {
    var i, j := IndexOf(order, a).value, IndexOf(order, b).value;
    if i < j {
      assert order[i] == a && order[j] == b;
    }
    if exists i', j' :: 0 <= i' < j' < |order| && order[i'] == a && order[j'] == b {
      var i', j' :| 0 <= i' < j' < |order| && order[i'] == a && order[j'] == b;
      assert i' == i && j' == j;
    }
  }

  /** The fixed order puts BADC before PCMDI before NCAR before NCI. */
  lemma RepoOrderRanks()
    ensures RepoCmp("badc", "pcmdi") == Success(-1)
    ensures RepoCmp("pcmdi", "ncar") == Success(-1)
    ensures RepoCmp("ncar", "nci") == Success(-1)
    ensures RepoCmp("nci", "badc") == Success(3)
  {
    assert RepoOrder[0] == "badc" && RepoOrder[1] == "pcmdi" && RepoOrder[2] == "ncar" && RepoOrder[3] == "nci";
    assert RepoOrder[1..] == ["pcmdi", "ncar", "nci"];
    assert RepoOrder[1..][1..] == ["ncar", "nci"];
    assert RepoOrder[1..][1..][1..] == ["nci"];
  }

  // ---------------------------------------------------------------------
  // Importing a repository listing
  // ---------------------------------------------------------------------

  /** A row of the `repos` table. */
  datatype RepoRow = RepoRow(repo: Str, dataset: Str, version: int, mtime: int)

  /** One line of a listing: the dataset before the last `.v` and the
      version after it; no `.v` or no integer is a `ValueError`. */
  function ParseRepoLine(line: Str): (r: Result<(Str, int), PyError>)
    ensures r.Failure? ==> r.error == ValueError
    ensures r.Success? ==> OccursAt(line, ".v", |r.value.0|) && line[..|r.value.0|] == r.value.0
  {
    var split := RFind(line, ".v");
    if split < 0 then Failure(ValueError)
    else
      match ParseInt(line[split + 2..])
      case None => Failure(ValueError)
      case Some(v) => Success((line[..split], v))
  }

  /** What an import did. */
  datatype Import = NoSuchFile | UnknownRepo | Imported(rows: seq<RepoRow>, skipped: nat)

  /** How a listing line is read. */
  type LineParser = Str -> Result<(Str, int), PyError>

  /** The rows parsed from the lines, with the number of lines skipped. */
  function ParseLinesWith(parse: LineParser, lines: seq<Str>, repo: Str, mtime: int): (r: (seq<RepoRow>, nat))
    decreases |lines|
  {
    if |lines| == 0 then ([], 0)
    else
      var (rows, skipped) := ParseLinesWith(parse, lines[..|lines| - 1], repo, mtime);
      match parse(lines[|lines| - 1])
      case Success((d, v)) => (rows + [RepoRow(repo, d, v, mtime)], skipped)
      case Failure(_) => (rows, skipped + 1)
  }

  /** The rows of the listing lines, read by `ParseRepoLine`. */
  function ParseLines(lines: seq<Str>, repo: Str, mtime: int): (r: (seq<RepoRow>, nat)) {
    ParseLinesWith(ParseRepoLine, lines, repo, mtime)
  }

  /** `import_from_file`: nothing for a missing file or an unknown
      repository; otherwise, after removing the repository's rows when
      replacing, one row per parseable line, the others counted. */
  function ImportFromFile(exists_: bool, known: set<Str>, repo: Str, replace: bool, mtime: int,
                          lines: seq<Str>, db: seq<RepoRow>): (r: Import)
    ensures !exists_ ==> r == NoSuchFile
    ensures exists_ && repo !in known ==> r == UnknownRepo
  {
    if !exists_ then NoSuchFile
    else if repo !in known then UnknownRepo
    else
      var kept := if replace then Others(db, repo) else db;
      var (added, skipped) := ParseLines(lines, repo, mtime);
      Imported(kept + added, skipped)
  }

  /** The rows of other repositories. */
  function Others(db: seq<RepoRow>, repo: Str): (r: seq<RepoRow>)
    ensures forall x :: x in r <==> x in db && x.repo != repo
  {
    if |db| == 0 then []
    else (if db[0].repo == repo then [] else [db[0]]) + Others(db[1..], repo)
  }

  /** Every line either adds a row of the repository, stamped with the
      file's time, or is counted as skipped. */
  lemma {:induction false} ParseLinesCount(parse: LineParser, lines: seq<Str>, repo: Str, mtime: int)
    ensures var (rows, skipped) := ParseLinesWith(parse, lines, repo, mtime);
            && |rows| + skipped == |lines|
            && forall k :: 0 <= k < |rows| ==> rows[k].repo == repo && rows[k].mtime == mtime
    decreases |lines|
  {
    if |lines| > 0 {
      ParseLinesCount(parse, lines[..|lines| - 1], repo, mtime);
    }
  }

  /** The rows added are exactly the datasets and versions the lines
      parse to. */
  lemma {:induction false} ParseLinesRows(parse: LineParser, lines: seq<Str>, repo: Str, mtime: int, x: RepoRow)
    ensures x in ParseLinesWith(parse, lines, repo, mtime).0 <==>
              x.repo == repo && x.mtime == mtime &&
              exists k :: 0 <= k < |lines| && parse(lines[k]) == Success((x.dataset, x.version))
    decreases |lines|
  {
    if |lines| > 0 {
      var n := |lines| - 1;
      var init := lines[..n];
      ParseLinesRows(parse, init, repo, mtime, x);
      assert forall k :: 0 <= k < n ==> init[k] == lines[k];
      if exists k :: 0 <= k < |lines| && parse(lines[k]) == Success((x.dataset, x.version)) {
        var k :| 0 <= k < |lines| && parse(lines[k]) == Success((x.dataset, x.version));
        if k < n {
          assert parse(init[k]) == Success((x.dataset, x.version));
        }
      }
    }
  }

  /** The last `.v` of `<dataset>.v<digits>` followed by at most a
      newline is the one after the dataset. */
  lemma LastVersionMark(dataset: Str, digits: Str, tail: Str)
    requires AllDigits(digits) && (tail == "" || tail == "\n")
    ensures RFind(dataset + ".v" + digits + tail, ".v") == |dataset|
  {
    var line := dataset + ".v" + digits + tail;
    var at := |dataset|;
    assert line[at..at + 2] == ".v";
    assert OccursAt(line, ".v", at);
    forall j | at < j <= |line| ensures !OccursAt(line, ".v", j) {
      if j + 2 <= |line| {
        assert line[j..j + 2][0] == line[j];
        if j - at - 2 < |digits| && j >= at + 2 {
          assert line[j] == digits[j - at - 2];
        }
      }
    }
  }

  /** Digits followed by at most a newline read as their value. */
  lemma ParseDigits(version: nat, tail: Str)
    requires tail == "" || tail == "\n"
    ensures ParseInt(NatToStr(version) + tail) == Some(version)
  {
    var digits := NatToStr(version);
    StripDigits(digits, tail);
    assert IsDigit(digits[0]);
    DigitsOfNat(version);
  }

  /** A listing line `<dataset>.v<version>`, with or without its newline,
      reads back as that dataset and version. */
  lemma ParseRepoLineRoundTrip(dataset: Str, version: nat, nl: bool)
    ensures ParseRepoLine(dataset + ".v" + NatToStr(version) + (if nl then "\n" else "")) == Success((dataset, version))
  {
    var digits := NatToStr(version);
    var tail := if nl then "\n" else "";
    var line := dataset + ".v" + digits + tail;
    LastVersionMark(dataset, digits, tail);
    ParseDigits(version, tail);
    ConcatAssoc(dataset + ".v", digits, tail);
    SliceAround(dataset, ".v", digits + tail);
  }

  /** After the import the table holds the earlier rows (without the
      repository's own when replacing) and one row of the repository per
      line that parses, stamped with the file's time; the skipped lines
      are the rest. */
  lemma ImportFromFileSpec(known: set<Str>, repo: Str, replace: bool, mtime: int, lines: seq<Str>, db: seq<RepoRow>)
    requires repo in known
    ensures var r := ImportFromFile(true, known, repo, replace, mtime, lines, db);
            && r.Imported?
            && r.skipped <= |lines|
            && |r.rows| == |if replace then Others(db, repo) else db| + |lines| - r.skipped
            && forall x :: x in r.rows <==>
                 (x in db && (!replace || x.repo != repo))
                 || (x.repo == repo && x.mtime == mtime &&
                     exists k :: 0 <= k < |lines| && ParseRepoLine(lines[k]) == Success((x.dataset, x.version)))
  {
    ParseLinesCount(ParseRepoLine, lines, repo, mtime);
    forall x: RepoRow {
      ParseLinesRows(ParseRepoLine, lines, repo, mtime, x);
    }
  }

  // ---------------------------------------------------------------------
  // Database URL
  // ---------------------------------------------------------------------

  /** The module-level dialect choice: `postgres` and `postgresql` both
      become `postgresql`, `mysql` and `sqllite` stay, anything else is
      rejected. */
  function Dialect(database: Str): (r: Result<Str, PyError>)
    ensures r.Success? <==> database in {"postgres", "postgresql", "mysql", "sqllite"}
  {
    if database == "postgres" || database == "postgresql" then Success("postgresql")
    else if database == "mysql" || database == "sqllite" then Success(database)
    else Failure(GenericException("No database defined in model/__init__.py"))
  }

  /** `getSession`'s rewrite of the configured URL: when the text before
      its first `:` does not contain the dialect, that text is replaced by
      the dialect. */
  function DialectUrl(dbString: Str, dialect: Str): Str {
    var tmp := Split(dbString, ":");
    if Find(tmp[0], dialect) == -1 then dialect + ":" + Join(tmp[1..], ":") else dbString
  }

  /** A URL `<scheme>:<rest>` keeps everything after its scheme; its
      scheme is replaced by the dialect unless it already contains it. */
  lemma DialectUrlSpec(scheme: Str, rest: Str, dialect: Str)
    requires ':' !in scheme
    ensures DialectUrl(scheme + ":" + rest, dialect) ==
              if Contains(scheme, dialect) then scheme + ":" + rest else dialect + ":" + rest
  {
    var s := scheme + ":" + rest;
    SplitConcatChar(scheme, rest, ':');
    FindAbsentChar(scheme, ':');
    assert Split(s, ":") == [scheme] + Split(rest, ":");
    JoinSplit(rest, ":");
    assert (([scheme] + Split(rest, ":"))[1..]) == Split(rest, ":");
  }

  /** Rewriting twice is rewriting once, for a dialect without `:`. */
  lemma DialectUrlIdempotent(dbString: Str, dialect: Str)
    requires ':' !in dialect
    ensures DialectUrl(DialectUrl(dbString, dialect), dialect) == DialectUrl(dbString, dialect)
  {
    var tmp := Split(dbString, ":");
    if Find(tmp[0], dialect) == -1 {
      var rest := Join(tmp[1..], ":");
      DialectUrlSpec(dialect, rest, dialect);
      if |dialect| > 0 {
        assert dialect[0..|dialect|] == dialect;
      }
      FindIsFirst(dialect, dialect, 0);
    }
  }
}
