/** Access to ESG gateways and P2P index nodes: the single collection a
    P2P index node offers, attribute dictionaries of gateway XML, the
    trimmed service URL, the decomposition of a P2P file endpoint, the
    institutes a collection stands for, and resolving a gateway named on
    the command line. The Hessian and search calls themselves are left
    out; their answers are inputs. */
module Gateway {
  import opened Wrappers
  import opened PyStr
  import PyPath

  // ---------------------------------------------------------------------
  // Collections of a P2P index node
  // ---------------------------------------------------------------------

  /** A collection as the gateway system describes it. */
  datatype Collection = Collection(state: Str, sourceCatalogUri: Str, id: Str, name: Str)

  /** `listCollections_P2P`: no index node, no collections; otherwise one
      collection named after the URL's host (its third `/`-piece), which
      a URL with fewer pieces lacks (`IndexError`). */
  function ListCollectionsP2P(indexNodeUrl: Option<Str>): (r: Result<seq<Collection>, PyError>)
    ensures indexNodeUrl.None? ==> r == Success([])
    ensures r.Failure? ==> r.error == IndexError
    ensures r.Success? && indexNodeUrl.Some? ==> |r.value| == 1 && r.value[0].state == "published"
  {
    match indexNodeUrl
    case None => Success([])
    case Some(url) =>
      var parts := Split(url, "/");
      if |parts| < 3 then Failure(IndexError)
      else
        var host := parts[2];
        Success([Collection("published", "", host + ".ALL", host + " All Publications")])
  }

  /** The collection of an index node at `<scheme>//<host>/<rest>` is
      `<host>.ALL`. */
  lemma ListCollectionsHost(scheme: Str, host: Str, rest: Str)
    requires '/' !in scheme && '/' !in host
    ensures ListCollectionsP2P(Some(scheme + "//" + host + "/" + rest))
              == Success([Collection("published", "", host + ".ALL", host + " All Publications")])
  {
    var url := scheme + "//" + host + "/" + rest;
    assert url == scheme + "/" + ("/" + host + "/" + rest);
    SplitLead(scheme, '/', "/" + host + "/" + rest);
    assert "/" + host + "/" + rest == "" + "/" + (host + "/" + rest);
    SplitLead("", '/', host + "/" + rest);
    SplitLead(host, '/', rest);
    assert Split(url, "/") == [scheme, "", host] + Split(rest, "/");
  }

  // ---------------------------------------------------------------------
  // Attribute dictionaries
  // ---------------------------------------------------------------------

  /** `__attToDict`: the attributes of an XML node in document order,
      copied by name, except that `MD5` becomes `checksum_type` `md5`
      and `checksum_value`; a later write replaces an earlier one. */
  function AttToDict(atts: seq<(Str, Str)>): map<Str, Str>
    decreases |atts|
  {
    if |atts| == 0 then map[]
    else
      var res := AttToDict(atts[..|atts| - 1]);
      var a := atts[|atts| - 1];
      if a.0 == "MD5" then res["checksum_type" := "md5"]["checksum_value" := a.1]
      else res[a.0 := a.1]
  }

  /** Whether some attribute is named `name`. */
  predicate Named(atts: seq<(Str, Str)>, name: Str) {
    exists i :: 0 <= i < |atts| && atts[i].0 == name
  }

  /** A key is present exactly when an attribute other than `MD5` has
      that name, or it is a checksum key and an `MD5` attribute exists. */
  lemma {:induction false} AttToDictIn(atts: seq<(Str, Str)>, k: Str)
    ensures k in AttToDict(atts) <==>
              (k != "MD5" && Named(atts, k)) || ((k == "checksum_type" || k == "checksum_value") && Named(atts, "MD5"))
    decreases |atts|
  {
    if |atts| > 0 {
      var n := |atts| - 1;
      var init := atts[..n];
      AttToDictIn(init, k);
      assert forall i :: 0 <= i < n ==> init[i] == atts[i];
      if Named(atts, k) && !Named(init, k) {
        var i :| 0 <= i < |atts| && atts[i].0 == k;
        assert i == n;
      }
      if Named(atts, "MD5") && !Named(init, "MD5") {
        var i :| 0 <= i < |atts| && atts[i].0 == "MD5";
        assert i == n;
      }
      if Named(init, k) {
        var i :| 0 <= i < n && init[i].0 == k;
        assert atts[i].0 == k;
      }
      if Named(init, "MD5") {
        var i :| 0 <= i < n && init[i].0 == "MD5";
        assert atts[i].0 == "MD5";
      }
    }
  }

  /** Distinct names, none of them a checksum key: what a gateway's file
      element carries. */
  predicate Plain(atts: seq<(Str, Str)>) {
    (forall i, j :: 0 <= i < j < |atts| ==> atts[i].0 != atts[j].0)
    && forall i :: 0 <= i < |atts| ==> atts[i].0 != "checksum_type" && atts[i].0 != "checksum_value"
  }

  /** For plain attributes every value is kept, under its own name or,
      for `MD5`, as the md5 checksum. */
  lemma {:induction false} AttToDictValue(atts: seq<(Str, Str)>, i: int)
    requires Plain(atts) && 0 <= i < |atts|
    ensures atts[i].0 == "MD5" ==>
              && "checksum_type" in AttToDict(atts) && AttToDict(atts)["checksum_type"] == "md5"
              && "checksum_value" in AttToDict(atts) && AttToDict(atts)["checksum_value"] == atts[i].1
    ensures atts[i].0 != "MD5" ==> atts[i].0 in AttToDict(atts) && AttToDict(atts)[atts[i].0] == atts[i].1
    decreases |atts|
  {
    var n := |atts| - 1;
    var init := atts[..n];
    if i < n {
      assert forall j :: 0 <= j < n ==> init[j] == atts[j];
      AttToDictValue(init, i);
      assert atts[n].0 != atts[i].0;
    }
  }

  // ---------------------------------------------------------------------
  // The service URL
  // ---------------------------------------------------------------------

  /** `Gateway.__init__`: the URL with its trailing slashes dropped. */
  function GatewayUrl(url: Option<Str>): Option<Str> {
    match url
    case None => None
    case Some(u) => Some(RStripChar(u, '/'))
  }

  /** The kept URL is the given one up to a run of trailing slashes, ends
      in no slash, and trailing slashes make no difference. */
  lemma {:induction false} GatewayUrlSpec(u: Str)
    ensures var r := GatewayUrl(Some(u)).value;
            && StartsWith(u, r) && (forall k :: |r| <= k < |u| ==> u[k] == '/')
            && (|r| > 0 ==> r[|r| - 1] != '/')
            && GatewayUrl(Some(u + "/")) == GatewayUrl(Some(u))
            && GatewayUrl(Some(r)) == Some(r)
    decreases |u|
  {
    assert (u + "/")[..|u|] == u;
    if |u| > 0 && u[|u| - 1] == '/' {
      GatewayUrlSpec(u[..|u| - 1]);
    }
  }

  // ---------------------------------------------------------------------
  // Endpoints of a P2P file
  // ---------------------------------------------------------------------

  /** One access point of a file. */
  datatype Endpoint = Endpoint(name: Str, kind: Str, protocol: Str, server: Str, port: Option<Str>,
                               root: Str, path: Str, url: Str)

  const Marker: Str := "/cmip5/output"

  /** The directory of a URL's path, split where the DRS part begins:
      after the `/` before `cmip5/output`, or at the start if there is
      none. */
  function SplitRoot(fullpath: Str): (Str, Str) {
    var nroot := Find(fullpath, Marker) + 1;
    (fullpath[..nroot], fullpath[nroot..])
  }

  /** The root and the path make up the directory; the root is empty
      exactly when the directory has no `cmip5/output` part, and
      otherwise is everything up to its first `/cmip5/output`. */
  lemma SplitRootSpec(fullpath: Str)
    ensures var (root, path) := SplitRoot(fullpath);
            && root + path == fullpath
            && (root == "" <==> !Contains(fullpath, Marker))
            && (root != "" ==> EndsWith(root, "/") && StartsWith(path, "cmip5/output")
                               && !Contains(root[..|root| - 1], Marker))
  {
    var i := Find(fullpath, Marker);
    TakeDrop(fullpath, i + 1);
    assert |SplitRoot(fullpath).0| == i + 1;
    if i >= 0 {
      SplitRootFound(fullpath, i);
      assert SplitRoot(fullpath).0[..i] == fullpath[..i];
    }
  }

  /** Where `/cmip5/output` is first found, the root ends with its `/`,
      the path starts with the rest, and the root holds no earlier one. */
  lemma SplitRootFound(fullpath: Str, i: int)
    requires i == Find(fullpath, Marker) && i >= 0
    ensures EndsWith(fullpath[..i + 1], "/")
    ensures StartsWith(fullpath[i + 1..], "cmip5/output")
    ensures !Contains(fullpath[..i], Marker)
  {
    var root := fullpath[..i + 1];
    assert fullpath[i..i + |Marker|] == Marker;
    assert fullpath[i] == fullpath[i..i + |Marker|][0];
    assert root[i..] == "/";
    assert fullpath[i + 1..][..12] == Marker[1..];
    var head := fullpath[..i];
    forall j | 0 <= j <= |head| ensures !OccursAt(head, Marker, j) {
      if j + |Marker| <= |head| {
        assert head[j..j + |Marker|] == fullpath[j..j + |Marker|];
        assert !OccursAt(fullpath, Marker, j);
      }
    }
  }

  /** `url[:url.find('://')]`: the text before the first `://`, or all
      but the last character when there is none. */
  function Protocol(url: Str): Str {
    SliceTo(url, Find(url, "://"))
  }

  /** The server and the optional port of a `host[:port]` piece. */
  function ServerPort(hostport: Str): (Str, Option<Str>) {
    var serverport := Split(hostport, ":");
    (serverport[0], if |serverport| == 1 then None else Some(serverport[1]))
  }

  /** The root and path of the directory of the URL path made of the
      `/`-pieces after the host. */
  function RootPath(pieces: seq<Str>): (Str, Str) {
    SplitRoot(PyPath.Dirname("/" + Join(pieces, "/")))
  }

  /** The endpoint of a URL and a service name; a URL with fewer than
      three `/`-pieces fails with `IndexError`. */
  function EndpointOf(url: Str, name: Str): (r: Result<Endpoint, PyError>)
    ensures r.Failure? ==> r.error == IndexError
  {
    var urlsplit := Split(url, "/");
    if |urlsplit| < 3 then Failure(IndexError)
    else
      var (server, port) := ServerPort(urlsplit[2]);
      var (root, path) := RootPath(urlsplit[3..]);
      Success(Endpoint(name, name, Protocol(url), server, port, root, path, url))
  }

  /** `listFiles`' decomposition of an endpoint `url|mime|name`: fewer
      than three `|`-pieces fails with `IndexError`. */
  function ParseEndpoint(ep: Str): (r: Result<Endpoint, PyError>)
    ensures r.Failure? ==> r.error == IndexError
  {
    var epl := Split(ep, "|");
    if |epl| < 3 then Failure(IndexError) else EndpointOf(epl[0], epl[2])
  }

  /** The fields of an endpoint text. */
  lemma EndpointFields(url: Str, mime: Str, name: Str)
    requires '|' !in url && '|' !in mime && '|' !in name
    ensures Split(Join([url, mime, name], "|"), "|") == [url, mime, name]
  {
    SplitJoinChar([url, mime, name], '|');
  }

  /** The protocol of `<proto>://<rest>` is `proto` when it holds no `:`. */
  lemma ProtocolOf(proto: Str, rest: Str)
    requires ':' !in proto
    ensures Protocol(proto + "://" + rest) == proto
  {
    var url := proto + "://" + rest;
    assert url[|proto|..|proto| + 3] == "://";
    forall j | 0 <= j < |proto| ensures !OccursAt(url, "://", j) {
      if j + 3 <= |url| {
        assert url[j] == proto[j];
        assert url[j..j + 3][0] == url[j];
      }
    }
    FindIsFirst(url, "://", |proto|);
    assert url[..|proto|] == proto;
  }

  /** A `server:port` piece gives both; a bare server gives no port. */
  lemma ServerPortOf(server: Str, port: Str)
    requires ':' !in server && ':' !in port
    ensures ServerPort(server + ":" + port) == (server, Some(port))
    ensures ServerPort(server) == (server, None)
  {
    SplitJoinChar([server, port], ':');
    assert Join([server, port], ":") == server + ":" + port;
    FindAbsentChar(server, ':');
  }

  /** The `/`-pieces of `<proto>://<hostport>/<rest>`. */
  lemma UrlPieces(proto: Str, hostport: Str, rest: Str)
    requires '/' !in proto && '/' !in hostport
    ensures Split(proto + "://" + hostport + "/" + rest, "/") == [proto + ":", "", hostport] + Split(rest, "/")
  {
    var url := proto + "://" + hostport + "/" + rest;
    assert url == (proto + ":") + "/" + ("/" + hostport + "/" + rest);
    SplitLead(proto + ":", '/', "/" + hostport + "/" + rest);
    assert "/" + hostport + "/" + rest == "" + "/" + (hostport + "/" + rest);
    SplitLead("", '/', hostport + "/" + rest);
    SplitLead(hostport, '/', rest);
  }

  /** A URL `<proto>://<hostport>/<rest>` gives its protocol and its
      host piece's server and port. */
  lemma EndpointOfUrl(proto: Str, hostport: Str, rest: Str, name: Str)
    requires ':' !in proto && '/' !in proto && '/' !in hostport
    ensures var url := proto + "://" + hostport + "/" + rest;
            var r := EndpointOf(url, name);
            && r.Success? && r.value.name == name && r.value.kind == name && r.value.url == url
            && r.value.protocol == proto && (r.value.server, r.value.port) == ServerPort(hostport)
  {
    var url := proto + "://" + hostport + "/" + rest;
    ProtocolOf(proto, hostport + "/" + rest);
    assert proto + "://" + (hostport + "/" + rest) == url;
    UrlPieces(proto, hostport, rest);
  }

  /** An endpoint `<proto>://<server>:<port>/<rest>|<mime>|<name>` gives
      back its name, protocol, server and port, and its URL; without
      `:<port>` it gives no port. */
  lemma ParseEndpointOf(proto: Str, server: Str, port: Option<Str>, rest: Str, mime: Str, name: Str)
    requires ':' !in proto && '/' !in proto && '|' !in proto
    requires ':' !in server && '/' !in server && '|' !in server
    requires port.Some? ==> ':' !in port.value && '/' !in port.value && '|' !in port.value
    requires '|' !in rest && '|' !in mime && '|' !in name
    ensures var hostport := if port.Some? then server + ":" + port.value else server;
            var url := proto + "://" + hostport + "/" + rest;
            var r := ParseEndpoint(Join([url, mime, name], "|"));
            && r.Success? && r.value.name == name && r.value.kind == name && r.value.url == url
            && r.value.protocol == proto && r.value.server == server && r.value.port == port
  {
    var hostport := if port.Some? then server + ":" + port.value else server;
    var url := proto + "://" + hostport + "/" + rest;
    assert '|' !in hostport;
    assert '|' !in url;
    EndpointFields(url, mime, name);
    EndpointOfUrl(proto, hostport, rest, name);
    ServerPortOf(server, if port.Some? then port.value else "");
  }

  /** Every endpoint's root and path make up the directory of its URL's
      path, split before the first `cmip5/output`. */
  lemma ParseEndpointPath(ep: Str)
    requires ParseEndpoint(ep).Success?
    ensures var e := ParseEndpoint(ep).value;
            var fullpath := PyPath.Dirname("/" + Join(Split(e.url, "/")[3..], "/"));
            && e.root + e.path == fullpath
            && (e.root == "" <==> !Contains(fullpath, Marker))
            && (e.root != "" ==> EndsWith(e.root, "/") && StartsWith(e.path, "cmip5/output"))
  {
    var e := ParseEndpoint(ep).value;
    var epl := Split(ep, "|");
    assert e == EndpointOf(epl[0], epl[2]).value;
    EndpointOfPath(epl[0], epl[2]);
    RootPathSpec(Split(e.url, "/")[3..]);
  }

  /** The endpoint of a URL keeps the URL, and its root and path are
      those of the URL's path pieces after the host. */
  lemma EndpointOfPath(url: Str, name: Str)
    requires EndpointOf(url, name).Success?
    ensures var e := EndpointOf(url, name).value;
            e.url == url && (e.root, e.path) == RootPath(Split(url, "/")[3..])
  {
  }

  /** The root and path of URL path pieces split the directory of their
      path before its first `cmip5/output`. */
  lemma RootPathSpec(pieces: seq<Str>)
    ensures var (root, path) := RootPath(pieces);
            var fullpath := PyPath.Dirname("/" + Join(pieces, "/"));
            && root + path == fullpath
            && (root == "" <==> !Contains(fullpath, Marker))
            && (root != "" ==> EndsWith(root, "/") && StartsWith(path, "cmip5/output"))
  {
    SplitRootSpec(PyPath.Dirname("/" + Join(pieces, "/")));
  }

  // ---------------------------------------------------------------------
  // Files of a P2P dataset
  // ---------------------------------------------------------------------

  /** What the search service reports for one file: its endpoint texts,
      its checksum and checksum type if it has one, its title and size. */
  datatype P2PFile = P2PFile(urls: seq<Str>, checksum: Option<(Str, Str)>, title: Str, size: Str)

  /** The attribute dictionary `listFiles` builds for a file. */
  datatype FileAtts = FileAtts(endpoints: seq<Endpoint>, path: Str, checksumValue: Str,
                               checksumType: Str, name: Str, size: Str)

  /** The endpoints of a file, in order, as `parse` reads each text; the
      first malformed one fails. */
  function ParseAll(urls: seq<Str>, parse: Str -> Result<Endpoint, PyError>): (r: Result<seq<Endpoint>, PyError>)
    ensures r.Success? ==> |r.value| == |urls| && forall k :: 0 <= k < |urls| ==> parse(urls[k]) == Success(r.value[k])
    ensures r.Failure? <==> exists k :: 0 <= k < |urls| && parse(urls[k]).Failure?
  {
    if |urls| == 0 then Success([])
    else
      var init :- ParseAll(urls[..|urls| - 1], parse);
      var last :- parse(urls[|urls| - 1]);
      Success(init + [last])
  }

  /** A file's checksum, or `DUMMY` of type `md5` when the server has none. */
  function ChecksumOf(checksum: Option<(Str, Str)>): (Str, Str) {
    if checksum.Some? then checksum.value else ("DUMMY", "md5")
  }

  /** `listFiles`' per-file loop. `path` is the variable the endpoint loop
      assigns last; a file without endpoints keeps the previous file's
      value, and before any assignment reading it is a `NameError`. */
  function ListFileAtts(files: seq<P2PFile>, prev: Option<Str>, parse: Str -> Result<Endpoint, PyError>)
    : (r: Result<seq<FileAtts>, PyError>)
    decreases |files|
  {
    if |files| == 0 then Success([])
    else
      var f := files[0];
      var eps :- ParseAll(f.urls, parse);
      var path :- if |eps| > 0 then Success(eps[|eps| - 1].path)
                  else if prev.Some? then Success(prev.value)
                  else Failure(NameError);
      var (value, kind) := ChecksumOf(f.checksum);
      var rest :- ListFileAtts(files[1..], Some(path), parse);
      Success([FileAtts(eps, path, value, kind, f.title, f.size)] + rest)
  }

  /** Whether the listing stops at file `k`: one of its endpoints is
      malformed, or no path has been assigned by then. */
  predicate StopsAt(files: seq<P2PFile>, prev: Option<Str>, parse: Str -> Result<Endpoint, PyError>, k: int)
    requires 0 <= k < |files|
  {
    ParseAll(files[k].urls, parse).Failure?
    || (prev.None? && forall j :: 0 <= j <= k ==> |files[j].urls| == 0)
  }

  /** The record of one file: its parsed endpoints, its own checksum or
      the `DUMMY`/`md5` default, its title and size, and, when it has
      endpoints, the path of its last one. */
  predicate FileRecord(f: P2PFile, a: FileAtts, parse: Str -> Result<Endpoint, PyError>) {
    && ParseAll(f.urls, parse) == Success(a.endpoints)
    && (a.checksumValue, a.checksumType) == ChecksumOf(f.checksum)
    && a.name == f.title && a.size == f.size
    && (|f.urls| > 0 ==> a.path == a.endpoints[|f.urls| - 1].path)
  }

  /** A listing that succeeds starts with the first file's record, whose
      path is its last endpoint's or else the carried-in one, followed by
      the listing of the other files carrying that path. */
  lemma ListFileAttsHead(files: seq<P2PFile>, prev: Option<Str>, parse: Str -> Result<Endpoint, PyError>)
    requires |files| > 0 && ListFileAtts(files, prev, parse).Success?
    ensures var r := ListFileAtts(files, prev, parse).value;
            var rest := ListFileAtts(files[1..], Some(r[0].path), parse);
            && FileRecord(files[0], r[0], parse)
            && (|files[0].urls| == 0 ==> prev == Some(r[0].path))
            && rest.Success? && r == [r[0]] + rest.value
  {
  }

  /** One record per file, as `FileRecord` says; a file without endpoints
      takes the previous record's path (the carried-in one for the
      first). */
  lemma {:induction false} ListFileAttsRecords(files: seq<P2PFile>, prev: Option<Str>,
                                               parse: Str -> Result<Endpoint, PyError>)
    requires ListFileAtts(files, prev, parse).Success?
    ensures var r := ListFileAtts(files, prev, parse).value;
            && |r| == |files|
            && forall k :: 0 <= k < |files| ==>
                 && FileRecord(files[k], r[k], parse)
                 && (|files[k].urls| == 0 && k > 0 ==> r[k].path == r[k - 1].path)
                 && (|files[k].urls| == 0 && k == 0 ==> prev == Some(r[k].path))
    decreases |files|
  {
    if |files| > 0 {
      var r := ListFileAtts(files, prev, parse).value;
      ListFileAttsHead(files, prev, parse);
      var tail := files[1..];
      var rt := ListFileAtts(tail, Some(r[0].path), parse).value;
      ListFileAttsRecords(tail, Some(r[0].path), parse);
      assert r == [r[0]] + rt;
      forall k | 0 < k < |files|
        ensures && FileRecord(files[k], r[k], parse)
                && (|files[k].urls| == 0 ==> r[k].path == r[k - 1].path)
      {
        assert files[k] == tail[k - 1] && r[k] == rt[k - 1];
        if k == 1 {
          assert r[k - 1].path == r[0].path;
        } else {
          assert r[k - 1] == rt[k - 2];
        }
      }
    }
  }

  /** The listing fails exactly when some file stops it. */
  lemma {:induction false} ListFileAttsFails(files: seq<P2PFile>, prev: Option<Str>,
                                             parse: Str -> Result<Endpoint, PyError>)
    ensures ListFileAtts(files, prev, parse).Failure? <==>
              exists k :: 0 <= k < |files| && StopsAt(files, prev, parse, k)
    decreases |files|
  {
    if |files| > 0 {
      var eps := ParseAll(files[0].urls, parse);
      var tail := files[1..];
      if eps.Success? && (|eps.value| > 0 || prev.Some?) {
        var path := if |eps.value| > 0 then eps.value[|eps.value| - 1].path else prev.value;
        ListFileAttsFails(tail, Some(path), parse);
        assert ListFileAtts(files, prev, parse).Failure? <==> ListFileAtts(tail, Some(path), parse).Failure?;
        assert !StopsAt(files, prev, parse, 0);
        forall k | 0 <= k < |tail| ensures StopsAt(tail, Some(path), parse, k) <==> StopsAt(files, prev, parse, k + 1) {
          assert tail[k] == files[k + 1];
          if prev.None? {
            assert |files[0].urls| > 0;
          }
        }
        if exists k :: 0 <= k < |files| && StopsAt(files, prev, parse, k) {
          var k :| 0 <= k < |files| && StopsAt(files, prev, parse, k);
          assert StopsAt(tail, Some(path), parse, k - 1);
        }
      } else {
        assert StopsAt(files, prev, parse, 0);
      }
    }
  }

  /** `listFiles` over the files of the searched datasets, reading each
      endpoint with `ParseEndpoint`. */
  function ListFiles(files: seq<P2PFile>): (r: Result<seq<FileAtts>, PyError>)
    ensures r.Success? ==> |r.value| == |files|
  {
    var r := ListFileAtts(files, None, ParseEndpoint);
    if r.Success? then ListFileAttsRecords(files, None, ParseEndpoint); r else r
  }

  // ---------------------------------------------------------------------
  // Institutes of a collection
  // ---------------------------------------------------------------------

  /** A table of collections and the institutes each one restricts the
      search to, as a dictionary literal: a repeated key keeps its last
      value. */
  type Table = seq<(Str, seq<Str>)>

  /** The value of the last entry for `key`, if any. */
  function Lookup(t: Table, key: Str): (r: Option<seq<Str>>)
    ensures r.None? <==> forall i :: 0 <= i < |t| ==> t[i].0 != key
    ensures r.Some? ==> exists i :: 0 <= i < |t| && t[i] == (key, r.value)
                                   && forall j :: i < j < |t| ==> t[j].0 != key
    decreases |t|
  {
    if |t| == 0 then None
    else if t[|t| - 1].0 == key then Some(t[|t| - 1].1)
    else Lookup(t[..|t| - 1], key)
  }

  /** The institutes of a parent collection: those of its last entry, or
      `ALL` (any institute) for a collection the table does not list. */
  function Institutes(t: Table, parent: Str): (r: seq<Str>)
    ensures (forall i :: 0 <= i < |t| ==> t[i].0 != parent) ==> r == ["ALL"]
    ensures forall i :: 0 <= i < |t| && t[i].0 == parent && (forall j :: i < j < |t| ==> t[j].0 != parent) ==>
              r == t[i].1
  {
    match Lookup(t, parent)
    case Some(insts) => insts
    case None => ["ALL"]
  }

  /** A character of an institute name as the DRS writes it. */
  predicate IdChar(c: char) {
    ('A' <= c <= 'Z') || ('a' <= c <= 'z') || ('0' <= c <= '9') || c == '-'
  }

  /** An institute name the search service can match. */
  predicate IsInstituteId(s: Str) {
    |s| > 0 && forall i :: 0 <= i < |s| ==> IdChar(s[i])
  }

  /** The name of a collection of one model's `output1` runs. */
  function DrsCollection(inst: Str, model: Str): Str {
    "cmip5.output1." + inst + "." + model
  }

  /** The collection whose institute the table misspells. */
  const BomCollection: Str := DrsCollection("CSIRO-BOM", "ACCESS1-0")

  /** `coll_inst` as written, with `CSIRO-B)M` for the ACCESS1-0 runs of
      CSIRO-BOM. */
  const CollInstAsWritten: Table := CollInstWith("CSIRO-B)M")

  /** `coll_inst` with the institute spelled `CSIRO-BOM`. */
  const CollInst: Table := CollInstWith("CSIRO-BOM")

  /** The dictionary literal, with the disputed institute as a parameter. */
  function CollInstWith(bom: Str): (t: Table)
    ensures |t| == 23 && t[2] == (BomCollection, [bom])
    ensures t[1] == (DrsCollection("CAWCR", "ACCESS1-0"), ["CAWCR"])
    ensures t[3] == (DrsCollection("CSIRO-QCCCE", "CSIRO-Mk3-6-0"), ["CSIRO-QCCCE"])
  {
    [ ("cmip5", ["MOHC"]),
      (DrsCollection("CAWCR", "ACCESS1-0"), ["CAWCR"]),
      (BomCollection, [bom]),
      (DrsCollection("CSIRO-QCCCE", "CSIRO-Mk3-6-0"), ["CSIRO-QCCCE"]),
      ("cmip5_ichec", ["ICHEC"]),
      ("cmip5_ipsl", ["IPSL"]),
      ("ornl.cmip5.data", ["ALL"]),
      ("pcmdi.BCC", ["BCC"]),
      ("pcmdi.CCCMA", ["CCCma", "CCCMA"]),
      ("pcmdi.CMCC", ["CMCC"]),
      ("pcmdi.CNRM", ["CNRM-CERFACS"]),
      ("pcmdi.DIAS", ["MRI", "MIROC", "NICAM"]),
      ("pcmdi.GFDL", ["NOAA-GFDL"]),
      ("pcmdi.IAP", ["LASG-CESS", "LASG-IAP", "PCMDI"]),
      ("pcmdi.IPSL", ["IPSL"]),
      ("pcmdi.LUCID", ["LUCID"]),
      ("pcmdi.NCC", ["NCC"]),
      ("pcmdi.NCCS", ["COLA-CFS", "NASA-GISS", "NASA-GMAO"]),
      ("pcmdi.PCMDI", ["BNU", "FIO", "INM", "IPSL", "MOHC", "NIMR-KMA"]),
      ("pcmdi.PNNL", ["PNNL"]),
      ("ucar.cgd.ccsm4.cmip5.output", ["NCAR", "NSF-DOE-NCAR"]),
      ("wdcc.MPI-M", ["MPI-M"]),
      ("wdcc.replicas", ["CCCma", "CNRM-CERFACS", "CSIRO-QCCCE", "INM", "IPSL", "MOHC", "NCAR", "NCC"]) ]
  }

  /** The only entry for the ACCESS1-0 runs of CSIRO-BOM is the third. */
  lemma BomEntryLast(bom: Str)
    ensures forall j :: 2 < j < 23 ==> CollInstWith(bom)[j].0 != BomCollection
  {
  }

  /** The ACCESS1-0 runs of CSIRO-BOM are searched under the table's
      spelling of their institute. */
  lemma BomInstitutes(bom: Str)
    ensures Institutes(CollInstWith(bom), BomCollection) == [bom]
  {
    var t := CollInstWith(bom);
    BomEntryLast(bom);
    assert t[2].0 == BomCollection && t[2].1 == [bom];
    assert forall j :: 2 < j < |t| ==> t[j].0 != BomCollection;
  }

  /** As written, the ACCESS1-0 runs of CSIRO-BOM are searched under an
      institute name with a `)` in it, which no institute has, instead of
      the institute their collection is named after. */
  lemma BomAsWritten()
    ensures Institutes(CollInstAsWritten, BomCollection) == ["CSIRO-B)M"]
    ensures Institutes(CollInstAsWritten, BomCollection) != ["CSIRO-BOM"]
    ensures !IsInstituteId(Institutes(CollInstAsWritten, BomCollection)[0])
  {
    BomInstitutes("CSIRO-B)M");
    assert "CSIRO-B)M"[7] == ')';
  }

  /** Spelled `CSIRO-BOM`, each collection of one model's runs is searched
      under exactly the institute it is named after, a name the search
      can match. */
  lemma CollInstNamed()
    ensures Institutes(CollInst, BomCollection) == ["CSIRO-BOM"]
    ensures IsInstituteId("CSIRO-BOM")
    ensures forall i, inst, model :: 1 <= i <= 3 && '.' !in inst && CollInst[i].0 == DrsCollection(inst, model) ==>
              CollInst[i].1 == [inst]
  {
    BomInstitutes("CSIRO-BOM");
    assert CollInst == CollInstWith("CSIRO-BOM");
    BomIsInstituteId();
    CollInstOwnNames();
  }

  /** `CSIRO-BOM` is a name the search can match. */
  lemma BomIsInstituteId()
    ensures IsInstituteId("CSIRO-BOM")
  {
    var x := "CSIRO-BOM";
    assert x == ['C', 'S', 'I', 'R', 'O', '-', 'B', 'O', 'M'];
  }

  /** The three collections of one model's runs each list exactly the
      institute they are named after. */
  lemma CollInstOwnNames()
    ensures forall i, inst, model :: 1 <= i <= 3 && '.' !in inst && CollInst[i].0 == DrsCollection(inst, model) ==>
              CollInst[i].1 == [inst]
  {
    forall i, inst, model | 1 <= i <= 3 && '.' !in inst && CollInst[i].0 == DrsCollection(inst, model)
      ensures CollInst[i].1 == [inst]
    {
      var t := CollInst;
      var known := if i == 1 then "CAWCR" else if i == 2 then "CSIRO-BOM" else "CSIRO-QCCCE";
      var m := if i == 1 then "ACCESS1-0" else if i == 2 then "ACCESS1-0" else "CSIRO-Mk3-6-0";
      assert t[i] == (DrsCollection(known, m), [known]);
      DrsCollectionInjective(known, m, inst, model);
    }
  }

  /** Institute names without `.` are told apart by their collections. */
  lemma DrsCollectionInjective(inst: Str, model: Str, inst': Str, model': Str)
    requires '.' !in inst && '.' !in inst'
    requires DrsCollection(inst, model) == DrsCollection(inst', model')
    ensures inst' == inst
  {
    var pre := "cmip5.output1.";
    var s := DrsCollection(inst, model);
    assert s[|pre|..] == inst + "." + model;
    assert s[|pre|..] == inst' + "." + model';
    var x := inst + "." + model;
    SplitConcatChar(inst, model, '.');
    SplitConcatChar(inst', model', '.');
    FindAbsentChar(inst, '.');
    FindAbsentChar(inst', '.');
    assert Split(inst, ".") == [inst];
    assert Split(inst', ".") == [inst'];
    assert Split(x, ".")[0] == inst;
    assert Split(inst' + "." + model', ".")[0] == inst';
  }

  // ---------------------------------------------------------------------
  // Gateways named on the command line
  // ---------------------------------------------------------------------

  /** A gateway known by name, with its service URL. */
  datatype Gw = Gw(name: Str, url: Str)

  /** The `GW` table. */
  const GwTable: seq<Gw> := [
    Gw("WDCC", "http://ipcc-ar5.dkrz.de"),
    Gw("BADC", "http://cmip-gw.badc.rl.ac.uk"),
    Gw("JPL", "http://esg-gateway.jpl.nasa.gov"),
    Gw("PCMDI", "http://pcmdi3.llnl.gov/esgcet"),
    Gw("NCAR", "http://www.earthsystemgrid.org"),
    Gw("NERSC", "http://esg.nersc.gov/esgcet"),
    Gw("ORNL", "http://esg2-gw.ccs.ornl.gov/esgcet"),
    Gw("NCI", "http://esg.nci.org.au/esgcet"),
    Gw("WDCC2", "http://albedo2.dkrz.de/esgcet") ]

  const HttpPrefix: Str := "http://"

  /** `re.match('http://([^/]*)', url).group(1)`: the host after
      `http://`, or nothing when the URL does not start that way. */
  function HostOf(url: Str): (r: Option<Str>)
    ensures r.Some? <==> StartsWith(url, HttpPrefix)
    ensures r.Some? ==> '/' !in r.value && StartsWith(url[|HttpPrefix|..], r.value)
  {
    if StartsWith(url, HttpPrefix) then
      var host := Split(url[|HttpPrefix|..], "/")[0];
      JoinSplit(url[|HttpPrefix|..], "/");
      SplitPiecesFree(url[|HttpPrefix|..], '/');
      Some(host)
    else None
  }

  /** The host of `http://<host>/<rest>` or of `http://<host>`. */
  lemma HostOfSpec(host: Str, rest: Str)
    requires '/' !in host
    ensures HostOf(HttpPrefix + host + "/" + rest) == Some(host)
    ensures HostOf(HttpPrefix + host) == Some(host)
  {
    var u := HttpPrefix + host + "/" + rest;
    assert u[..|HttpPrefix|] == HttpPrefix;
    assert u[|HttpPrefix|..] == host + "/" + rest;
    SplitLead(host, '/', rest);
    var v := HttpPrefix + host;
    assert v[..|HttpPrefix|] == HttpPrefix;
    assert v[|HttpPrefix|..] == host;
    FindAbsentChar(host, '/');
  }

  /** Whether `server` is the host of a gateway's URL. */
  predicate ServedBy(g: Gw, server: Str) {
    HostOf(g.url) == Some(server)
  }

  /** The first gateway whose host is `server`. */
  function ByServer(gws: seq<Gw>, server: Str): (r: Option<Gw>)
    ensures r.None? <==> forall i :: 0 <= i < |gws| ==> !ServedBy(gws[i], server)
    ensures r.Some? ==> r.value in gws && ServedBy(r.value, server)
  {
    if |gws| == 0 then None
    else if ServedBy(gws[0], server) then Some(gws[0])
    else ByServer(gws[1..], server)
  }

  /** The URL of the last gateway called `name`. */
  function ByName(gws: seq<Gw>, name: Str): (r: Option<Str>)
    ensures r.None? <==> forall i :: 0 <= i < |gws| ==> gws[i].name != name
    ensures r.Some? ==> exists i :: 0 <= i < |gws| && gws[i] == Gw(name, r.value)
    decreases |gws|
  {
    if |gws| == 0 then None
    else if gws[|gws| - 1].name == name then Some(gws[|gws| - 1].url)
    else ByName(gws[..|gws| - 1], name)
  }

  /** `main`'s handling of `-g arg`: an argument with a `.` that is a
      gateway's host stands for that gateway; the gateway's name and URL
      result, or exit status 2 for an unknown gateway. */
  function ResolveGateway(gws: seq<Gw>, arg: Str): (r: Result<(Str, Str), int>)
    ensures r.Failure? ==> r.error == 2
  {
    var name := if Contains(arg, ".") && ByServer(gws, arg).Some? then ByServer(gws, arg).value.name
                else arg;
    match ByName(gws, name)
    case Some(url) => Success((name, url))
    case None => Failure(2)
  }

  /** Names and hosts are each distinct. */
  predicate Distinct(gws: seq<Gw>) {
    forall i, j :: 0 <= i < j < |gws| ==>
      gws[i].name != gws[j].name && (HostOf(gws[i].url).Some? ==> HostOf(gws[i].url) != HostOf(gws[j].url))
  }

  /** In a table of distinct gateways, a gateway's name resolves to it,
      and so does its host when that has a `.`; any other argument that
      no gateway carries as a name or host is unknown. */
  lemma ResolveGatewaySpec(gws: seq<Gw>, arg: Str)
    requires Distinct(gws)
    ensures forall i :: 0 <= i < |gws| && gws[i].name == arg && !Contains(arg, ".") ==>
              ResolveGateway(gws, arg) == Success((arg, gws[i].url))
    ensures forall i :: 0 <= i < |gws| && ServedBy(gws[i], arg) && Contains(arg, ".") ==>
              ResolveGateway(gws, arg) == Success((gws[i].name, gws[i].url))
    ensures ResolveGateway(gws, arg).Failure? <==>
              (forall i :: 0 <= i < |gws| ==> gws[i].name != arg)
              && (!Contains(arg, ".") || forall i :: 0 <= i < |gws| ==> !ServedBy(gws[i], arg))
  {
    forall i | 0 <= i < |gws| && gws[i].name == arg ensures ByName(gws, arg) == Some(gws[i].url) {
      var k :| 0 <= k < |gws| && gws[k] == Gw(arg, ByName(gws, arg).value);
      assert k == i;
    }
    forall i | 0 <= i < |gws| && ServedBy(gws[i], arg) && Contains(arg, ".")
      ensures ResolveGateway(gws, arg) == Success((gws[i].name, gws[i].url))
    {
      var g := ByServer(gws, arg).value;
      var m :| 0 <= m < |gws| && gws[m] == g;
      assert m == i;
      var k :| 0 <= k < |gws| && gws[k] == Gw(g.name, ByName(gws, g.name).value);
      assert k == i;
    }
    if Contains(arg, ".") && ByServer(gws, arg).Some? {
      var g := ByServer(gws, arg).value;
      var m :| 0 <= m < |gws| && gws[m] == g;
    }
  }

  /** `-g` on the command line, against the `GW` table. */
  function ResolveGatewayArg(arg: Str): (r: Result<(Str, Str), int>)
    ensures r.Failure? ==> r.error == 2
  {
    ResolveGateway(GwTable, arg)
  }
}
