/** Listing a GridFTP repository with `globus-url-copy -list`: parsing
    one listing, naming the known repositories, the depth base case of
    the recursive scan, and turning the scanned directories into dataset
    names. The scan itself (parallel subprocesses) is a parameter. */
module Globus {
  import opened Wrappers
  import opened PyStr

  // ---------------------------------------------------------------------
  // One listing
  // ---------------------------------------------------------------------

  /** What separates the entries of a listing from the listed URL and
      from each other. */
  const Sep: Str := "\n    "

  /** A subdirectory entry that is not hidden. An empty entry has no
      last character and is never asked about; see `ParseListing`. */
  predicate IsDirEntry(e: Str) {
    |e| > 0 && e[|e| - 1] == '/' && e[0] != '.'
  }

  /** The `filter` of the entries: the visible subdirectories in order. */
  function DirEntries(entries: seq<Str>): (r: seq<Str>)
    ensures |r| <= |entries|
    ensures forall e :: e in r <==> e in entries && IsDirEntry(e)
    ensures (forall e :: e in entries ==> !IsDirEntry(e)) ==> r == []
    decreases |entries|
  {
    if |entries| == 0 then []
    else
      var rest := DirEntries(entries[1..]);
      assert forall e :: e in entries <==> e == entries[0] || e in entries[1..];
      if IsDirEntry(entries[0]) then [entries[0]] + rest else rest
  }

  /** Each name prefixed with `base`. */
  function Prefixed(base: Str, names: seq<Str>): (r: seq<Str>)
    ensures |r| == |names| && forall i :: 0 <= i < |names| ==> r[i] == base + names[i]
  {
    seq(|names|, i requires 0 <= i < |names| => base + names[i])
  }

  /** `__parse_globus_listing`: the text without its last two
      characters, split on the separator; the first piece is the listed
      URL and the rest are entries. The result is the URL joined with
      each visible subdirectory, or the URL alone if there is none. An
      empty entry fails with `IndexError`, as its last character is
      looked at first. */
  function ParseListing(answer: Str): Result<seq<Str>, PyError> {
    var parts := Split(SliceTo(answer, -2), Sep);
    var base, entries := parts[0], parts[1..];
    if "" in entries then Failure(IndexError)
    else
      var dirs := DirEntries(entries);
      Success(if |dirs| > 0 then Prefixed(base, dirs) else [base])
  }

  /** The text `globus-url-copy -list` prints for `base` with `entries`,
      ending with two characters the parser drops. */
  function Listing(base: Str, entries: seq<Str>, end: Str): Str {
    Join([base] + entries, Sep) + end
  }

  /** The parser sees the listed URL and the entries of a listing. */
  lemma ListingParts(base: Str, entries: seq<Str>, end: Str)
    requires |end| == 2
    requires '\n' !in base && forall k :: 0 <= k < |entries| ==> '\n' !in entries[k]
    ensures Split(SliceTo(Listing(base, entries, end), -2), Sep) == [base] + entries
  {
    var parts := [base] + entries;
    var body := Join(parts, Sep);
    var t := Listing(base, entries, end);
    assert t[..|t| - 2] == body;
    assert SliceTo(t, -2) == body;
    forall k | 0 <= k < |parts| ensures Sep[0] !in parts[k] {
      if k > 0 {
        assert parts[k] == entries[k - 1];
      }
    }
    SplitJoinLead(parts, Sep);
  }

  /** The URLs of a parsed listing with a visible subdirectory are the
      base joined with exactly those subdirectories. */
  lemma PrefixedDirs(base: Str, entries: seq<Str>, x: Str)
    ensures x in Prefixed(base, DirEntries(entries)) <==> exists e :: e in entries && IsDirEntry(e) && x == base + e
  {
    var dirs := DirEntries(entries);
    var r := Prefixed(base, dirs);
    if x in r {
      var i :| 0 <= i < |dirs| && r[i] == x;
      assert dirs[i] in dirs;
    }
    if exists e :: e in entries && IsDirEntry(e) && x == base + e {
      var e :| e in entries && IsDirEntry(e) && x == base + e;
      var i :| 0 <= i < |dirs| && dirs[i] == e;
      assert r[i] == x;
    }
  }

  /** Parsing a listing recovers it: an empty entry fails; otherwise the
      result names the base joined with exactly the visible
      subdirectories, or the base alone when there is none. */
  lemma ParseListingRoundTrip(base: Str, entries: seq<Str>, end: Str)
    requires |end| == 2
    requires '\n' !in base && forall k :: 0 <= k < |entries| ==> '\n' !in entries[k]
    ensures var r := ParseListing(Listing(base, entries, end));
            && (r.Failure? <==> "" in entries)
            && (r.Failure? ==> r.error == IndexError)
            && (r.Success? && (exists e :: e in entries && IsDirEntry(e)) ==>
                  forall x :: x in r.value <==> exists e :: e in entries && IsDirEntry(e) && x == base + e)
            && (r.Success? && (forall e :: e in entries ==> !IsDirEntry(e)) ==> r.value == [base])
  {
    ListingParts(base, entries, end);
    assert ([base] + entries)[1..] == entries;
    var r := ParseListing(Listing(base, entries, end));
    var dirs := DirEntries(entries);
    if r.Success? && exists e :: e in entries && IsDirEntry(e) {
      var e0 :| e0 in entries && IsDirEntry(e0);
      assert e0 in dirs;
      assert r.value == Prefixed(base, dirs);
      forall x ensures x in r.value <==> exists e :: e in entries && IsDirEntry(e) && x == base + e {
        PrefixedDirs(base, entries, x);
      }
    }
  }

  // ---------------------------------------------------------------------
  // Repositories
  // ---------------------------------------------------------------------

  const Scheme: Str := "gsiftp://"

  /** A GridFTP URL of a host and path, with the trailing `/`. */
  function GridFtp(hostPath: Str): Str {
    Scheme + hostPath + "/"
  }

  /** The repositories known by name. */
  const Repos: map<Str, Str> := map[
    "badc" := GridFtp("capuchin.badc.rl.ac.uk:2812/badc/cmip5/data"),
    "pcmdi" := GridFtp("pcmdi7.llnl.gov:2812"),
    "dkrz" := GridFtp("cmip2.dkrz.de:2812"),
    "nci" := GridFtp("esgnode1.nci.org.au:2812/"),
    "ncar" := GridFtp("vetsman.ucar.edu:2811//datazone")]

  predicate IsRepoUrl(u: Str) {
    StartsWith(u, Scheme) && EndsWith(u, "/")
  }

  /** Every GridFTP URL built this way is a repository URL. */
  lemma GridFtpIsRepoUrl(hostPath: Str)
    ensures IsRepoUrl(GridFtp(hostPath))
  {
    var u := GridFtp(hostPath);
    assert u[..|Scheme|] == Scheme;
    assert u[|u| - 1..] == "/";
  }

  /** Every known repository is a GridFTP URL with a trailing `/`. */
  lemma ReposAreUrls()
    ensures forall n :: n in Repos ==> IsRepoUrl(Repos[n])
  {
    GridFtpIsRepoUrl("capuchin.badc.rl.ac.uk:2812/badc/cmip5/data");
    GridFtpIsRepoUrl("pcmdi7.llnl.gov:2812");
    GridFtpIsRepoUrl("cmip2.dkrz.de:2812");
    GridFtpIsRepoUrl("esgnode1.nci.org.au:2812/");
    GridFtpIsRepoUrl("vetsman.ucar.edu:2811//datazone");
  }

  /** `get_repo_url`: a GridFTP URL is used as given, with a trailing
      `/` added; any other text is looked up by its lower-cased form. */
  function GetRepoUrl(repo: Str): (r: Option<Str>)
    ensures r.Some? ==> StartsWith(r.value, Scheme) && EndsWith(r.value, "/")
    ensures StartsWith(repo, Scheme) ==> r.Some? && StartsWith(r.value, repo) && |r.value| <= |repo| + 1
    ensures !StartsWith(repo, Scheme) ==> (r.Some? <==> Lower(repo) in Repos)
  {
    ReposAreUrls();
    if StartsWith(repo, Scheme) then
      Some(if repo[|repo| - 1] == '/' then repo else repo + "/")
    else if Lower(repo) in Repos then Some(Repos[Lower(repo)])
    else None
  }

  /** A repository URL names itself. */
  lemma GetRepoUrlIdempotent(repo: Str)
    requires GetRepoUrl(repo).Some?
    ensures GetRepoUrl(GetRepoUrl(repo).value) == GetRepoUrl(repo)
  {
    var u := GetRepoUrl(repo).value;
    assert u[|u| - 1] == u[|u| - 1..][0] == '/';
  }

  // ---------------------------------------------------------------------
  // The scan's start
  // ---------------------------------------------------------------------

  /** Where `find` stands before any listing: done with the start itself,
      or about to list a URL down to a remaining depth. */
  datatype Scan = Listed(dirs: seq<Str>) | Scanning(url: Str, depth: int)

  /** The part of `find` before its loop: a depth of zero or less returns
      the start; otherwise the start gets a trailing `/` (an empty start
      fails with `IndexError`) and is listed with one level used. */
  function FindStart(start: Str, maxDepth: int): Result<Scan, PyError> {
    if maxDepth <= 0 then Success(Listed([start]))
    else if |start| == 0 then Failure(IndexError)
    else Success(Scanning(if start[|start| - 1] == '/' then start else start + "/", maxDepth - 1))
  }

  /** The depth base case returns the start unlisted; a positive depth
      lists the start, with a trailing `/` and nothing else changed, one
      level down, and fails only for an empty start. */
  lemma FindStartSpec(start: Str, maxDepth: int)
    ensures maxDepth <= 0 ==> FindStart(start, maxDepth) == Success(Listed([start]))
    ensures maxDepth > 0 ==> (FindStart(start, maxDepth).Failure? <==> start == "")
    ensures maxDepth > 0 && FindStart(start, maxDepth).Success? ==>
              var s := FindStart(start, maxDepth).value;
              && s.Scanning? && s.depth == maxDepth - 1 && s.depth >= 0
              && EndsWith(s.url, "/") && StartsWith(s.url, start) && |s.url| <= |start| + 1
              && FindStart(s.url, maxDepth) == FindStart(start, maxDepth)
  {
    if maxDepth > 0 && start != "" {
      var u := FindStart(start, maxDepth).value.url;
      assert u[|u| - 1] == '/';
      assert u[..|start|] == start;
    }
  }

  // ---------------------------------------------------------------------
  // Dataset names
  // ---------------------------------------------------------------------

  /** The number of DRS components a dataset name has without version. */
  const DrsLevels := 9

  /** Python's truth of `components`: absent or zero is false. */
  predicate Given(components: Option<int>) {
    components.Some? && components.value != 0
  }

  /** The scan depth of `list_datasets` for a start ending in `/`: the
      given component count, or the DRS levels left below the start,
      one more when versions are wanted and no count was given. */
  function Level(start: Str, includeVersion: bool, components: Option<int>): int {
    var level := if Given(components) then components.value else DrsLevels - (|Split(start, "/")| - 1);
    if includeVersion && !Given(components) then level + 1 else level
  }

  /** Without a given count, the depth is the DRS levels below the
      start's components, plus one for the version. */
  lemma LevelCountsComponents(comps: seq<Str>, includeVersion: bool, components: Option<int>)
    requires |comps| >= 1 && forall k :: 0 <= k < |comps| ==> '/' !in comps[k]
    requires !Given(components)
    ensures Level(Join(comps, "/") + "/", includeVersion, components)
              == DrsLevels - |comps| + (if includeVersion then 1 else 0)
  {
    JoinAppend(comps, [""], "/");
    assert Join(comps + [""], "/") == Join(comps, "/") + "/";
    SplitJoinChar(comps + [""], '/');
  }

  /** Listed directories of file versions or of the `latest` link. */
  predicate Skipped(r: Str) {
    EndsWith(r, "files/") || EndsWith(r, "latest/")
  }

  /** The dataset name of a scanned directory: its trailing character
      and the repository URL dropped, `/` turned into `.`. */
  function DatasetName(base: Str, r: Str): Str {
    Replace(SliceFrom(SliceTo(r, -1), |base|), "/", ".")
  }

  /** The names of the scanned directories that are not skipped. */
  function Datasets(base: Str, found: seq<Str>): (ds: seq<Str>)
    ensures |ds| <= |found|
    decreases |found|
  {
    if |found| == 0 then []
    else
      var rest := Datasets(base, found[1..]);
      if Skipped(found[0]) then rest else [DatasetName(base, found[0])] + rest
  }

  /** A name is listed exactly when some scanned directory that is not
      skipped has it. */
  lemma {:induction false} DatasetsIn(base: Str, found: seq<Str>, x: Str)
    ensures x in Datasets(base, found) <==> exists r :: r in found && !Skipped(r) && x == DatasetName(base, r)
    decreases |found|
  {
    if |found| > 0 {
      DatasetsIn(base, found[1..], x);
      assert forall r :: r in found <==> r == found[0] || r in found[1..];
    }
  }

  /** The directory of a dataset below the repository is named by its
      components joined with `.`. */
  lemma DatasetNameOf(base: Str, comps: seq<Str>)
    requires |comps| >= 1 && forall k :: 0 <= k < |comps| ==> '/' !in comps[k]
    ensures DatasetName(base, base + Join(comps, "/") + "/") == Join(comps, ".")
  {
    var p := Join(comps, "/");
    var r := base + p + "/";
    assert SliceTo(r, -1) == base + p;
    assert SliceFrom(base + p, |base|) == p;
    SplitJoinChar(comps, '/');
  }

  /** `list_datasets` once the repository URL `base` is known: an empty
      start fails with `IndexError`; otherwise the start gets a trailing
      `/`, the repository is scanned from it to the computed depth by
      `scan`, and the names of the directories found are returned. */
  function ListFrom(base: Str, startFrom: Str, includeVersion: bool, components: Option<int>,
                    scan: (Str, int) -> seq<Str>): (r: Result<seq<Str>, PyError>)
    ensures r.Failure? <==> startFrom == ""
    ensures r.Failure? ==> r.error == IndexError
  {
    if |startFrom| == 0 then Failure(IndexError)
    else
      var start := if startFrom[|startFrom| - 1] == '/' then startFrom else startFrom + "/";
      var level := Level(start, includeVersion, components);
      Success(Datasets(base, scan(base + start, level)))
  }

  /** `list_datasets`: an unknown repository gives no datasets; a known
      one is listed from its URL. */
  function ListDatasets(repo: Str, startFrom: Str, includeVersion: bool, components: Option<int>,
                        scan: (Str, int) -> seq<Str>): (r: Result<seq<Str>, PyError>)
    ensures GetRepoUrl(repo).None? ==> r == Success([])
    ensures GetRepoUrl(repo).Some? ==> (r.Failure? <==> startFrom == "")
  {
    match GetRepoUrl(repo)
    case None => Success([])
    case Some(base) => ListFrom(base, startFrom, includeVersion, components, scan)
  }

  /** The default start is two components deep. */
  lemma DefaultLevel(includeVersion: bool)
    ensures Level("cmip5/output1/", includeVersion, None) == if includeVersion then 8 else 7
  {
    assert "cmip5/output1/" == Join(["cmip5", "output1"], "/") + "/";
    LevelCountsComponents(["cmip5", "output1"], includeVersion, None);
  }

  /** A dataset directory found below the repository, and not named
      like a `files` or `latest` directory, is listed under its DRS
      name. */
  lemma NameListed(base: Str, found: seq<Str>, comps: seq<Str>)
    requires |comps| >= 1 && forall k :: 0 <= k < |comps| ==> '/' !in comps[k]
    requires base + Join(comps, "/") + "/" in found
    requires !Skipped(base + Join(comps, "/") + "/")
    ensures Join(comps, ".") in Datasets(base, found)
  {
    DatasetNameOf(base, comps);
    DatasetsIn(base, found, Join(comps, "."));
  }

  /** Scanning from the components `pre` (with a trailing `/`) goes
      down the DRS levels left below them, plus one for the version. */
  lemma ListDatasetsFrom(base: Str, pre: seq<Str>, includeVersion: bool, scan: (Str, int) -> seq<Str>)
    requires |pre| >= 1 && forall k :: 0 <= k < |pre| ==> '/' !in pre[k]
    ensures var start := Join(pre, "/") + "/";
            var level := DrsLevels - |pre| + (if includeVersion then 1 else 0);
            ListFrom(base, start, includeVersion, None, scan) == Success(Datasets(base, scan(base + start, level)))
  {
    var start := Join(pre, "/") + "/";
    assert start[|start| - 1] == '/';
    LevelCountsComponents(pre, includeVersion, None);
  }

  /** Every dataset directory found below the components `pre`, and not
      named like a `files` or `latest` directory, is listed under its DRS
      name. */
  lemma NameListedBelow(base: Str, found: seq<Str>, pre: seq<Str>, comps: seq<Str>)
    requires |pre| >= 1 && forall k :: 0 <= k < |pre| ==> '/' !in pre[k]
    requires |comps| >= 1 && forall k :: 0 <= k < |comps| ==> '/' !in comps[k]
    requires base + Join(pre, "/") + "/" + Join(comps, "/") + "/" in found
    requires !Skipped(base + Join(pre, "/") + "/" + Join(comps, "/") + "/")
    ensures Join(pre + comps, ".") in Datasets(base, found)
  {
    var all := pre + comps;
    forall k | 0 <= k < |all| ensures '/' !in all[k] {
      if k >= |pre| {
        assert all[k] == comps[k - |pre|];
      }
    }
    JoinAppend(pre, comps, "/");
    var d := base + Join(pre, "/") + "/" + Join(comps, "/") + "/";
    assert Join(all, "/") == Join(pre, "/") + "/" + Join(comps, "/");
    assert base + Join(all, "/") + "/" == d;
    NameListed(base, found, all);
  }

  /** The default start `cmip5/output1` is scanned eight levels down
      with versions and seven without. */
  lemma ListDatasetsDefault(base: Str, includeVersion: bool, scan: (Str, int) -> seq<Str>)
    ensures ListFrom(base, "cmip5/output1", includeVersion, None, scan)
              == Success(Datasets(base, scan(base + "cmip5/output1/", if includeVersion then 8 else 7)))
  {
    DefaultLevel(includeVersion);
    var start: Str := "cmip5/output1";
    assert start[|start| - 1] == '1';
    var t: Str := "cmip5/output1/";
    assert forall i :: 0 <= i < |t| ==> (start + "/")[i] == t[i];
    assert start + "/" == t;
  }
}
