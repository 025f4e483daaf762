/** Versions of files published at PCMDI: a published path
    `/<root>/data/<project>/<product>/.../<file>` names its file's
    location below the data directory and its dataset, and the version
    is read off the identifiers of the search results whose URLs contain
    that location. The search service is an input: a function from a
    query's text to the (id, field, value) triples it answers with. */
module Pubpath {
  import opened Wrappers
  import opened PyStr

  /** A search answer row: identifier, field name, field value. */
  type Triple = (Str, Str, Str)

  /** A file identifier and one of its URLs. */
  type IdUrl = (Str, Str)

  // ---------------------------------------------------------------------
  // The published path
  // ---------------------------------------------------------------------

  /** The directory published data lies below. */
  const Data: Str := "data"

  /** The location below the data directory and the dotted dataset name
      of a published path. */
  datatype Published = Published(absPath: Str, dataset: Str)

  /** The shared preamble of the entry points: a path whose third
      `/`-piece is not `data` is not a published path (nothing), one with
      fewer than three pieces an `IndexError`; otherwise the pieces after
      `data` are the location and the first nine of them the dataset. */
  function ParsePubpath(pubpath: Str): (r: Result<Option<Published>, PyError>)
    ensures r.Failure? <==> |Split(pubpath, "/")| < 3
    ensures r.Failure? ==> r.error == IndexError
    ensures r.Success? ==> (r.value.None? <==> Split(pubpath, "/")[2] != Data)
  {
    var sppath := Split(pubpath, "/");
    if |sppath| < 3 then Failure(IndexError)
    else if sppath[2] != Data then Success(None)
    else
      var comps := sppath[3..];
      Success(Some(Published(Join(comps, "/"), Join(comps[..if |comps| < 9 then |comps| else 9], "."))))
  }

  /** The pieces of `/<root>/<rest>`. */
  lemma RootPieces(root: Str, rest: Str)
    requires '/' !in root
    ensures Split("/" + root + "/" + rest, "/") == ["", root] + Split(rest, "/")
  {
    var t2 := root + "/" + rest;
    SplitLead(root, '/', rest);
    SplitLead("", '/', t2);
    RootSlash(root, rest);
    RootRegroup(root, Split(rest, "/"));
  }

  lemma RootSlash(root: Str, rest: Str)
    ensures "" + "/" + (root + "/" + rest) == "/" + root + "/" + rest
  {
  }

  lemma RootRegroup(root: Str, tail: seq<Str>)
    ensures [""] + ([root] + tail) == ["", root] + tail
  {
  }

  /** The pieces of `/<root>/<mid>/<rest>`. */
  lemma LeadingPieces(root: Str, mid: Str, rest: Str)
    requires '/' !in root && '/' !in mid
    ensures Split("/" + root + "/" + mid + "/" + rest, "/") == ["", root, mid] + Split(rest, "/")
  {
    var t1 := mid + "/" + rest;
    RootPieces(root, t1);
    SplitLead(mid, '/', rest);
    SlashRegroup(root, mid, rest);
    PiecesRegroup(root, mid, Split(rest, "/"));
  }

  lemma SlashRegroup(root: Str, mid: Str, rest: Str)
    ensures "/" + root + "/" + (mid + "/" + rest) == "/" + root + "/" + mid + "/" + rest
  {
  }

  lemma PiecesRegroup(root: Str, mid: Str, tail: seq<Str>)
    ensures ["", root] + ([mid] + tail) == ["", root, mid] + tail
  {
  }

  /** The pieces of `/<root>/data/<comps>`. */
  lemma PubpathPieces(root: Str, comps: seq<Str>)
    requires '/' !in root && |comps| >= 1
    requires forall k :: 0 <= k < |comps| ==> '/' !in comps[k]
    ensures Split("/" + root + "/" + Data + "/" + Join(comps, "/"), "/") == ["", root, Data] + comps
  {
    SplitJoinChar(comps, '/');
    assert '/' !in Data by {
      assert Data == ['d', 'a', 't', 'a'];
    }
    LeadingPieces(root, Data, Join(comps, "/"));
  }

  /** A published path `/<root>/data/<comps>` with at least nine
      components below `data` has those components as its location and
      the first nine as its dataset. */
  lemma ParsePubpathOf(root: Str, comps: seq<Str>)
    requires '/' !in root && |comps| >= 9
    requires forall k :: 0 <= k < |comps| ==> '/' !in comps[k]
    ensures ParsePubpath("/" + root + "/" + Data + "/" + Join(comps, "/"))
              == Success(Some(Published(Join(comps, "/"), Join(comps[..9], "."))))
  {
    PubpathPieces(root, comps);
    var sppath := ["", root, Data] + comps;
    assert sppath[2] == "data";
    assert sppath[3..] == comps;
  }

  // ---------------------------------------------------------------------
  // Versions of identifiers
  // ---------------------------------------------------------------------

  /** `id.split('.')[9]`: the version piece of a file identifier; an
      identifier of fewer than ten pieces is an `IndexError`. */
  function IdVersion(id: Str): (r: Result<Str, PyError>)
    ensures r.Failure? ==> r.error == IndexError
    ensures r.Success? ==> '.' !in r.value
  {
    var parts := Split(id, ".");
    SplitPiecesFree(id, '.');
    if |parts| < 10 then Failure(IndexError) else Success(parts[9])
  }

  /** The versions of the identifiers, in order; the first malformed
      identifier fails. */
  function Versions(ids: seq<Str>): (r: Result<seq<Str>, PyError>)
    ensures r.Success? ==> |r.value| == |ids| && forall k :: 0 <= k < |ids| ==> IdVersion(ids[k]) == Success(r.value[k])
    ensures r.Failure? <==> exists k :: 0 <= k < |ids| && IdVersion(ids[k]).Failure?
  {
    if |ids| == 0 then Success([])
    else
      var init :- Versions(ids[..|ids| - 1]);
      var v :- IdVersion(ids[|ids| - 1]);
      Success(init + [v])
  }

  /** The single value all entries share, if there is exactly one
      distinct value; nothing when there are none or two differ. */
  function Unique(vs: seq<Str>): (r: Option<Str>)
    ensures r.Some? ==> (set k | 0 <= k < |vs| :: vs[k]) == {r.value}
    ensures r.None? ==> |vs| == 0 || exists k :: 0 <= k < |vs| && vs[k] != vs[0]
  {
    if |vs| > 0 && forall k :: 0 <= k < |vs| ==> vs[k] == vs[0] then
      assert (set k | 0 <= k < |vs| :: vs[k]) == {vs[0]};
      Some(vs[0])
    else None
  }

  /** The identifiers whose URL contains the location. */
  function Matching(idurls: seq<IdUrl>, absPath: Str): (r: seq<Str>)
    ensures forall a :: a in r <==> exists k :: 0 <= k < |idurls| && idurls[k].0 == a && Contains(idurls[k].1, absPath)
    decreases |idurls|
  {
    if |idurls| == 0 then []
    else
      var rest := Matching(idurls[1..], absPath);
      assert forall k :: 1 <= k < |idurls| ==> idurls[1..][k - 1] == idurls[k];
      (if Contains(idurls[0].1, absPath) then [idurls[0].0] else []) + rest
  }

  /** `pubpath2version` with the dataset's (id, url) pairs supplied: the
      one version the identifiers of the matching URLs share, or nothing
      when they have none or several. */
  function Pubpath2Version(pubpath: Str, idurls: seq<IdUrl>): (r: Result<Option<Str>, PyError>)
  {
    var p :- ParsePubpath(pubpath);
    match p
    case None => Success(None)
    case Some(pub) =>
      var vs :- Versions(Matching(idurls, pub.absPath));
      Success(Unique(vs))
  }

  /** The versions of the matching identifiers are the versions of the
      pairs whose URL contains the location. */
  lemma MatchingVersions(idurls: seq<IdUrl>, absPath: Str)
    requires forall k :: 0 <= k < |idurls| ==> IdVersion(idurls[k].0).Success?
    ensures var ids := Matching(idurls, absPath);
            && Versions(ids).Success?
            && (set k | 0 <= k < |ids| :: Versions(ids).value[k])
               == set k | 0 <= k < |idurls| && Contains(idurls[k].1, absPath) :: IdVersion(idurls[k].0).value
  {
    MatchingVersioned(idurls, absPath);
    var ids := Matching(idurls, absPath);
    var vs := Versions(ids).value;
    ValuesFoundBy(ids, idurls, absPath, vs, IdVersion);
    FoundValuesBy(ids, idurls, absPath, vs, IdVersion);
    assert Values(vs) == FoundBy(idurls, absPath, IdVersion);
  }

  /** The versions of the pairs whose URL contains the location. */
  function FoundBy(idurls: seq<IdUrl>, absPath: Str, ver: Str -> Result<Str, PyError>): set<Str> {
    set k | 0 <= k < |idurls| && Contains(idurls[k].1, absPath) && ver(idurls[k].0).Success? :: ver(idurls[k].0).value
  }

  /** The distinct entries of a list. */
  function Values(vs: seq<Str>): set<Str> {
    set k | 0 <= k < |vs| :: vs[k]
  }

  lemma MatchingVersioned(idurls: seq<IdUrl>, absPath: Str)
    requires forall k :: 0 <= k < |idurls| ==> IdVersion(idurls[k].0).Success?
    ensures Versions(Matching(idurls, absPath)).Success?
  {
    var ids := Matching(idurls, absPath);
    forall k | 0 <= k < |ids| ensures IdVersion(ids[k]).Success? {
      assert ids[k] in ids;
    }
  }

  /** Each version of a kept identifier is the version of a matching pair. */
  lemma ValuesFoundBy(ids: seq<Str>, idurls: seq<IdUrl>, absPath: Str, vs: seq<Str>, ver: Str -> Result<Str, PyError>)
    requires |vs| == |ids| && forall k :: 0 <= k < |ids| ==> ver(ids[k]) == Success(vs[k])
    requires forall a :: a in ids ==> exists k :: 0 <= k < |idurls| && idurls[k].0 == a && Contains(idurls[k].1, absPath)
    ensures Values(vs) <= FoundBy(idurls, absPath, ver)
  {
    forall v | v in Values(vs) ensures v in FoundBy(idurls, absPath, ver) {
      var j :| 0 <= j < |vs| && vs[j] == v;
      assert ids[j] in ids;
      var k :| 0 <= k < |idurls| && idurls[k].0 == ids[j] && Contains(idurls[k].1, absPath);
    }
  }

  /** The version of each matching pair is the version of a kept identifier. */
  lemma FoundValuesBy(ids: seq<Str>, idurls: seq<IdUrl>, absPath: Str, vs: seq<Str>, ver: Str -> Result<Str, PyError>)
    requires |vs| == |ids| && forall k :: 0 <= k < |ids| ==> ver(ids[k]) == Success(vs[k])
    requires forall k :: 0 <= k < |idurls| && Contains(idurls[k].1, absPath) ==> idurls[k].0 in ids
    ensures FoundBy(idurls, absPath, ver) <= Values(vs)
  {
    forall v | v in FoundBy(idurls, absPath, ver) ensures v in Values(vs) {
      var k :| 0 <= k < |idurls| && Contains(idurls[k].1, absPath) && ver(idurls[k].0).Success? && ver(idurls[k].0).value == v;
      var j :| 0 <= j < |ids| && ids[j] == idurls[k].0;
      assert vs[j] in Values(vs);
    }
  }

  /** For a published path, the version found is exactly the single
      version shared by the identifiers whose URLs contain its location;
      with no such identifier, or two versions among them, none is. */
  lemma Pubpath2VersionSpec(pubpath: Str, idurls: seq<IdUrl>, pub: Published)
    requires ParsePubpath(pubpath) == Success(Some(pub))
    requires forall k :: 0 <= k < |idurls| ==> IdVersion(idurls[k].0).Success?
    ensures var r := Pubpath2Version(pubpath, idurls);
            var found := set k | 0 <= k < |idurls| && Contains(idurls[k].1, pub.absPath) :: IdVersion(idurls[k].0).value;
            && r.Success?
            && (r.value.Some? <==> |found| == 1)
            && (r.value.Some? ==> found == {r.value.value})
  {
    MatchingVersions(idurls, pub.absPath);
    var vs := Versions(Matching(idurls, pub.absPath)).value;
    assert Pubpath2Version(pubpath, idurls) == Success(Unique(vs));
    UniqueCount(vs);
  }

  /** A list has one value exactly when its distinct entries are one. */
  lemma UniqueCount(vs: seq<Str>)
    ensures Unique(vs).Some? <==> |Values(vs)| == 1
  {
    if Unique(vs).None? && |vs| > 0 {
      var k :| 0 <= k < |vs| && vs[k] != vs[0];
      assert {vs[0], vs[k]} <= Values(vs);
      SubsetSize({vs[0], vs[k]}, Values(vs));
    }
  }

  /** A subset is no larger than its superset. */
  lemma SubsetSize(a: set<Str>, b: set<Str>)
    requires a <= b
    ensures |a| <= |b|
  {
    assert b == a + (b - a);
  }

  // ---------------------------------------------------------------------
  // Asking the search service
  // ---------------------------------------------------------------------

  /** The servers asked, in order. */
  const PcmdiServers: seq<Str> := ["pcmdi7.llnl.gov", "pcmdi9.llnl.gov"]

  /** The query for the files of a dataset at one server. */
  function DatasetQuery(dataset: Str, server: Str): Str {
    "drs_id=" + dataset + ",data_node=" + server
  }

  /** The (id, url) pairs of the `url` rows of an answer. */
  function UrlRows(rows: seq<Triple>): (r: seq<IdUrl>)
    ensures forall p :: p in r <==> exists k :: 0 <= k < |rows| && rows[k].1 == "url" && p == (rows[k].0, rows[k].2)
    decreases |rows|
  {
    if |rows| == 0 then []
    else
      var rest := UrlRows(rows[1..]);
      assert forall k :: 1 <= k < |rows| ==> rows[1..][k - 1] == rows[k];
      (if rows[0].1 == "url" then [(rows[0].0, rows[0].2)] else []) + rest
  }

  /** `get_idurls_from_dataset`: the url rows of every server's answer,
      in server order; an answer that is not well-formed XML (`None`)
      gives nothing. */
  function IdUrlsFromDataset(dataset: Str, search: Str -> Option<seq<Triple>>): (r: Option<seq<IdUrl>>)
    ensures r.Some? <==> forall k :: 0 <= k < |PcmdiServers| ==> search(DatasetQuery(dataset, PcmdiServers[k])).Some?
    ensures r.Some? ==> forall p :: p in r.value <==>
              exists k :: 0 <= k < |PcmdiServers| && p in UrlRows(search(DatasetQuery(dataset, PcmdiServers[k])).value)
  {
    IdUrlsFrom(dataset, PcmdiServers, search)
  }

  /** The url rows of the answers of the given servers. */
  function IdUrlsFrom(dataset: Str, servers: seq<Str>, search: Str -> Option<seq<Triple>>): (r: Option<seq<IdUrl>>)
    ensures r.Some? <==> forall k :: 0 <= k < |servers| ==> search(DatasetQuery(dataset, servers[k])).Some?
    ensures r.Some? ==> forall p :: p in r.value <==>
              exists k :: 0 <= k < |servers| && p in UrlRows(search(DatasetQuery(dataset, servers[k])).value)
    decreases |servers|
  {
    if |servers| == 0 then Some([])
    else
      var rest := IdUrlsFrom(dataset, servers[1..], search);
      assert forall k :: 1 <= k < |servers| ==> servers[1..][k - 1] == servers[k];
      match search(DatasetQuery(dataset, servers[0]))
      case None => None
      case Some(rows) =>
        match rest
        case None => None
        case Some(more) => Some(UrlRows(rows) + more)
  }

  /** `get_idurls_from_pubpath`: the pairs of the path's dataset, nothing
      for a path that is not published data. */
  function IdUrlsFromPubpath(pubpath: Str, search: Str -> Option<seq<Triple>>): (r: Result<Option<seq<IdUrl>>, PyError>)
    ensures r.Success? && r.value.Some? ==>
              ParsePubpath(pubpath).Success? && ParsePubpath(pubpath).value.Some?
              && r.value == IdUrlsFromDataset(ParsePubpath(pubpath).value.value.dataset, search)
  {
    var p :- ParsePubpath(pubpath);
    match p
    case None => Success(None)
    case Some(pub) => Success(IdUrlsFromDataset(pub.dataset, search))
  }

  // ---------------------------------------------------------------------
  // The third attempt
  // ---------------------------------------------------------------------

  /** The (id, url) pairs of the url rows whose URL contains the location. */
  function UrlMatches(rows: seq<Triple>, absPath: Str): (r: seq<IdUrl>)
    ensures forall p :: p in r <==> exists k :: 0 <= k < |rows| && rows[k].1 == "url" &&
                                      Contains(rows[k].2, absPath) && p == (rows[k].0, rows[k].2)
    decreases |rows|
  {
    if |rows| == 0 then []
    else
      var rest := UrlMatches(rows[1..], absPath);
      assert forall k :: 1 <= k < |rows| ==> rows[1..][k - 1] == rows[k];
      (if rows[0].1 == "url" && Contains(rows[0].2, absPath) then [(rows[0].0, rows[0].2)] else []) + rest
  }

  /** The matches of the first server with any, or the last server's
      (empty) ones. */
  function FirstMatches(dataset: Str, absPath: Str, servers: seq<Str>, search: Str -> Result<seq<Triple>, PyError>)
    : (r: Result<seq<IdUrl>, PyError>)
    requires |servers| > 0
    decreases |servers|
  {
    var rows :- search(DatasetQuery(dataset, servers[0]));
    var idurl := UrlMatches(rows, absPath);
    if |idurl| > 0 || |servers| == 1 then Success(idurl)
    else FirstMatches(dataset, absPath, servers[1..], search)
  }

  /** The identifiers of (id, url) pairs. */
  function IdsOf(idurl: seq<IdUrl>): (r: seq<Str>)
    ensures |r| == |idurl| && forall k :: 0 <= k < |idurl| ==> r[k] == idurl[k].0
  {
    seq(|idurl|, k requires 0 <= k < |idurl| => idurl[k].0)
  }

  /** `try3_pubpath2version`: the versions of the matches at the first
      server with any (every identifier must have one); the version of
      the single match, and nothing when no server has one or the first
      has several, even of one version. */
  function Try3(pubpath: Str, search: Str -> Result<seq<Triple>, PyError>): (r: Result<Option<Str>, PyError>)
  {
    var p :- ParsePubpath(pubpath);
    match p
    case None => Success(None)
    case Some(pub) =>
      var idurl :- FirstMatches(pub.dataset, pub.absPath, PcmdiServers, search);
      var versions :- Versions(IdsOf(idurl));
      if |versions| == 1 then Success(Some(versions[0])) else Success(None)
  }

  /** The servers are tried in order: a server is used only when every
      earlier one answered without a match, and the result is its
      matches, non-empty unless it is the last. */
  lemma {:induction false} FirstMatchesSpec(dataset: Str, absPath: Str, servers: seq<Str>,
                                           search: Str -> Result<seq<Triple>, PyError>)
    requires |servers| > 0
    requires forall k :: 0 <= k < |servers| ==> search(DatasetQuery(dataset, servers[k])).Success?
    ensures var r := FirstMatches(dataset, absPath, servers, search);
            && r.Success?
            && exists i :: 0 <= i < |servers|
                 && r.value == UrlMatches(search(DatasetQuery(dataset, servers[i])).value, absPath)
                 && (|r.value| > 0 || i == |servers| - 1)
                 && forall j :: 0 <= j < i ==> UrlMatches(search(DatasetQuery(dataset, servers[j])).value, absPath) == []
    decreases |servers|
  {
    var rows := search(DatasetQuery(dataset, servers[0])).value;
    if |UrlMatches(rows, absPath)| == 0 && |servers| > 1 {
      var tail := servers[1..];
      forall k | 0 <= k < |tail| ensures search(DatasetQuery(dataset, tail[k])).Success? {
        assert tail[k] == servers[k + 1];
      }
      FirstMatchesSpec(dataset, absPath, tail, search);
      var i :| 0 <= i < |tail|
                 && FirstMatches(dataset, absPath, tail, search).value
                      == UrlMatches(search(DatasetQuery(dataset, tail[i])).value, absPath)
                 && (|FirstMatches(dataset, absPath, tail, search).value| > 0 || i == |tail| - 1)
                 && forall j :: 0 <= j < i ==> UrlMatches(search(DatasetQuery(dataset, tail[j])).value, absPath) == [];
      assert servers[i + 1] == tail[i];
      forall j | 0 <= j < i + 1
        ensures UrlMatches(search(DatasetQuery(dataset, servers[j])).value, absPath) == []
      {
        if j > 0 { assert servers[j] == tail[j - 1]; }
      }
    } else {
      assert servers[0] == servers[0];
    }
  }

  /** With every server answering: a single match yields its
      identifier's version, several matches or none at any server yield
      nothing, and any match with a malformed identifier fails. */
  lemma Try3Spec(pubpath: Str, search: Str -> Result<seq<Triple>, PyError>, pub: Published)
    requires ParsePubpath(pubpath) == Success(Some(pub))
    requires forall k :: 0 <= k < |PcmdiServers| ==> search(DatasetQuery(pub.dataset, PcmdiServers[k])).Success?
    ensures var m := FirstMatches(pub.dataset, pub.absPath, PcmdiServers, search);
            && m.Success?
            && ((exists k :: 0 <= k < |m.value| && IdVersion(m.value[k].0).Failure?) <==> Try3(pubpath, search).Failure?)
            && (Try3(pubpath, search).Success? ==>
                  && (|m.value| != 1 ==> Try3(pubpath, search) == Success(None))
                  && (|m.value| == 1 ==> Try3(pubpath, search) == Success(Some(IdVersion(m.value[0].0).value))))
  {
    FirstMatchesSpec(pub.dataset, pub.absPath, PcmdiServers, search);
    var m := FirstMatches(pub.dataset, pub.absPath, PcmdiServers, search).value;
    var ids := IdsOf(m);
    if exists k :: 0 <= k < |m| && IdVersion(m[k].0).Failure? {
      var k :| 0 <= k < |m| && IdVersion(m[k].0).Failure?;
      assert IdVersion(ids[k]).Failure?;
    }
  }

  // ---------------------------------------------------------------------
  // The second attempt
  // ---------------------------------------------------------------------

  /** The version of the single identifier an answer names, nothing when
      it names none or several. */
  /** The identifiers of (id, url, dataset) rows. */
  function TripleIds(rows: seq<Triple>): (r: seq<Str>)
    ensures |r| == |rows| && forall k :: 0 <= k < |rows| ==> r[k] == rows[k].0
  {
    seq(|rows|, k requires 0 <= k < |rows| => rows[k].0)
  }

  function Decide(rows: seq<Triple>): (r: Result<Option<Str>, PyError>)
    ensures var ids := set k | 0 <= k < |rows| :: rows[k].0;
            && (r.Success? && r.value.Some? ==> exists id :: ids == {id} && IdVersion(id) == Success(r.value.value))
            && (r.Failure? ==> exists id :: ids == {id} && IdVersion(id).Failure?)
  {
    var ids := TripleIds(rows);
    assert (set k | 0 <= k < |ids| :: ids[k]) == (set k | 0 <= k < |rows| :: rows[k].0);
    match Unique(ids)
    case None => Success(None)
    case Some(id) =>
      var v :- IdVersion(id);
      Success(Some(v))
  }

  /** An answer naming one identifier, however often, decides its
      version (or fails with it). */
  lemma DecideOne(rows: seq<Triple>, id: Str)
    requires (set k | 0 <= k < |rows| :: rows[k].0) == {id}
    ensures Decide(rows) == (match IdVersion(id)
                             case Success(v) => Success(Some(v))
                             case Failure(e) => Failure(e))
  {
    var ids := TripleIds(rows);
    var s := set k | 0 <= k < |ids| :: ids[k];
    assert s == (set k | 0 <= k < |rows| :: rows[k].0);
    assert id in s;
    forall k | 0 <= k < |ids| ensures ids[k] == ids[0] {
      assert ids[k] in s && ids[0] in s;
    }
  }

  /** An answer naming no identifier, or several, decides nothing. */
  lemma DecideNone(rows: seq<Triple>)
    requires |set k | 0 <= k < |rows| :: rows[k].0| != 1
    ensures Decide(rows) == Success(None)
  {
    var ids := TripleIds(rows);
    var s := set k | 0 <= k < |ids| :: ids[k];
    assert s == (set k | 0 <= k < |rows| :: rows[k].0);
  }

  // ---------------------------------------------------------------------
  // The second attempt's URLs
  // ---------------------------------------------------------------------

  const HttpSuffixEscaped: Str := "\\|application/netcdf\\|HTTPServer"
  const Pcmdi9: Str := "http://pcmdi9.llnl.gov"
  const Pcmdi7: Str := "http://pcmdi7.llnl.gov"
  const Css02Fallback: Str := "/thredds/fileServer//cmip5_css02/data/"
  const HttpSuffix: Str := "|application/netcdf|HTTPServer"
  const Cmip5Data: Str := "/thredds/fileServer/cmip5_data/"
  const Css02Data: Str := "/thredds/fileServer/cmip5_css02_data/"

  /** `try2_pubpath2version`'s first URL: the data directory of the root
      (`cmip5` or `css02-cmip5`) at pcmdi9, the location, and the
      endpoint suffix as the source spells it (with backslashes); nothing
      for another root. */
  function Try2Url(pubpath: Str): (r: Result<Option<Str>, PyError>)
  {
    var sppath := Split(pubpath, "/");
    if |sppath| < 3 then Failure(IndexError)
    else if sppath[2] != Data then Success(None)
    else
      var url2 := if sppath[1] == "cmip5" then Some(Cmip5Data)
                  else if sppath[1] == "css02-cmip5" then Some(Css02Data)
                  else None;
      match url2
      case None => Success(None)
      case Some(u2) => Success(Some(Pcmdi9 + u2 + Join(sppath[3..], "/") + HttpSuffixEscaped))
  }

  /** The first URL of a path `/cmip5/data/<comps>` is the location below
      the `cmip5_data` directory; a root other than the two known ones
      gives none. */
  lemma Try2UrlOf(root: Str, comps: seq<Str>)
    requires '/' !in root && |comps| >= 1
    requires forall k :: 0 <= k < |comps| ==> '/' !in comps[k]
    ensures root == "cmip5" ==>
              Try2Url("/" + root + "/" + Data + "/" + Join(comps, "/"))
                == Success(Some(Pcmdi9 + Cmip5Data + Join(comps, "/") + HttpSuffixEscaped))
    ensures root != "cmip5" && root != "css02-cmip5" ==>
              Try2Url("/" + root + "/" + Data + "/" + Join(comps, "/")) == Success(None)
  {
    PubpathPieces(root, comps);
    Try2UrlFromPieces("/" + root + "/" + Data + "/" + Join(comps, "/"), root, comps);
  }

  lemma Try2UrlFromPieces(pubpath: Str, root: Str, comps: seq<Str>)
    requires Split(pubpath, "/") == ["", root, Data] + comps
    ensures root == "cmip5" ==>
              Try2Url(pubpath) == Success(Some(Pcmdi9 + Cmip5Data + Join(comps, "/") + HttpSuffixEscaped))
    ensures root != "cmip5" && root != "css02-cmip5" ==> Try2Url(pubpath) == Success(None)
  {
    var sppath := ["", root, Data] + comps;
    assert sppath[1] == root && sppath[2] == "data";
    assert sppath[3..] == comps;
  }

  /** The three URLs `try2_pubpath2version` asks for in turn: at pcmdi9
      and at pcmdi7 below the root's data directory, then at pcmdi7 below
      the css02 directory, the last with the suffix unescaped. */
  function Try2Urls(u2: Str, location: Str): seq<Str> {
    [ Pcmdi9 + u2 + location + HttpSuffixEscaped,
      Pcmdi7 + u2 + location + HttpSuffixEscaped,
      Pcmdi7 + Css02Fallback + location + HttpSuffix ]
  }

  /** The first non-empty answer among the URLs, or the last answer;
      nothing once an answer is not well-formed XML. */
  function FirstAnswer(urls: seq<Str>, search: Str -> Option<seq<Triple>>): (r: Option<seq<Triple>>)
    requires |urls| > 0
    ensures r.Some? ==> exists i :: 0 <= i < |urls| && search(urls[i]) == r
                          && (|r.value| > 0 || i == |urls| - 1)
                          && forall j :: 0 <= j < i ==> search(urls[j]) == Some([])
    ensures r.None? ==> exists i :: 0 <= i < |urls| && search(urls[i]).None?
                          && forall j :: 0 <= j < i ==> search(urls[j]) == Some([])
    decreases |urls|
  {
    match search(urls[0])
    case None => None
    case Some(rows) =>
      if |rows| > 0 || |urls| == 1 then Some(rows)
      else
        var r := FirstAnswer(urls[1..], search);
        assert forall j :: 1 <= j < |urls| ==> urls[1..][j - 1] == urls[j];
        r
  }

  /** `try2_pubpath2version`, the search answering each URL query (or
      nothing when its answer is not well-formed XML). */
  function Try2(pubpath: Str, search: Str -> Option<seq<Triple>>): (r: Result<Option<Str>, PyError>)
  {
    var url :- Try2Url(pubpath);
    match url
    case None => Success(None)
    case Some(_) =>
      var sppath := Split(pubpath, "/");
      var u2 := if sppath[1] == "cmip5" then Cmip5Data else Css02Data;
      match FirstAnswer(Try2Urls(u2, Join(sppath[3..], "/")), search)
      case None => Success(None)
      case Some(rows) => Decide(rows)
  }

  /** The version is decided by the first URL answered with any rows; an
      answer that is not XML, or rows naming no or several identifiers,
      give nothing. */
  lemma Try2Spec(pubpath: Str, search: Str -> Option<seq<Triple>>)
    requires Try2Url(pubpath).Success? && Try2Url(pubpath).value.Some?
    ensures var sppath := Split(pubpath, "/");
            var u2 := if sppath[1] == "cmip5" then Cmip5Data else Css02Data;
            var urls := Try2Urls(u2, Join(sppath[3..], "/"));
            && urls[0] == Try2Url(pubpath).value.value
            && (search(urls[0]).Some? && |search(urls[0]).value| > 0 ==> Try2(pubpath, search) == Decide(search(urls[0]).value))
            && (search(urls[0]).None? ==> Try2(pubpath, search) == Success(None))
            && (Try2(pubpath, search).Success? && Try2(pubpath, search).value.Some? ==>
                  exists i :: 0 <= i < 3 && search(urls[i]).Some? && Decide(search(urls[i]).value) == Try2(pubpath, search))
  {
    var sppath := Split(pubpath, "/");
    var u2 := if sppath[1] == "cmip5" then Cmip5Data else Css02Data;
    var urls := Try2Urls(u2, Join(sppath[3..], "/"));
    var a := FirstAnswer(urls, search);
    if a.Some? {
      var i :| 0 <= i < |urls| && search(urls[i]) == a && (|a.value| > 0 || i == |urls| - 1)
               && forall j :: 0 <= j < i ==> search(urls[j]) == Some([]);
    }
  }
}
