/** The THREDDS catalog reader of the P2P replication model: the
    properties and access URLs of a dataset node, resolved against the
    catalog's services; the link a top catalog holds to each dataset
    catalog, read with a regular expression; the root catalog of a
    dataset catalog URL; and the classification of a dataset catalog's
    nodes. Fetching and parsing the XML are left out: the fetched
    document's first node, or its absence, is an input. */
module CatalogP2P {
  import opened Wrappers
  import opened PyStr
  import opened XmlNode
  import Catalog

  // ---------------------------------------------------------------------
  // Link titles
  // ---------------------------------------------------------------------

  /** `re.match('^(.*)\.v([0-9]*)$', t)`: the two groups, or no match.
      `.` matches anything but a newline and is greedy, so the `.v` is
      the last one before `$`; the last item, `[0-9]*`, never consumes a
      newline, so `$` can only match at `DollarEnd(t)`. */
  function MatchDatasetPat(t: Str): Option<(Str, Str)> {
    var e := DollarEnd(t);
    var p := RFind(t[..e], ".v");
    if p >= 0 && AllDigits(t[p + 2..e]) && '\n' !in t[..p] then Some((t[..p], t[p + 2..e])) else None
  }

  /** The language of the pattern, written out: an id without newline,
      `.v`, a run of digits and an optional final newline. */
  predicate PatternMatches(t: Str, id: Str, digits: Str) {
    AllDigits(digits) && '\n' !in id && (t == id + ".v" + digits || t == id + ".v" + digits + "\n")
  }

  /** A text of the form `<id>.v<digits>` has its last `.v` right after
      the id. */
  lemma LastDotV(id: Str, digits: Str)
    requires AllDigits(digits)
    ensures RFind(id + ".v" + digits, ".v") == |id|
  {
    var s := id + ".v" + digits;
    assert s[|id|..|id| + 2] == ".v";
    forall j | |id| < j <= |s|
      ensures !OccursAt(s, ".v", j)
    {
      if j + 2 <= |s| {
        if j == |id| + 1 {
          assert s[j] == 'v';
        } else {
          assert s[j] == digits[j - |id| - 2];
        }
        assert s[j..j + 2][0] == s[j];
      }
    }
    assert OccursAt(s, ".v", |id|);
  }

  /** The matcher finds exactly the decompositions the pattern allows,
      so the id may itself contain `.v`. */
  lemma MatchDatasetPatSpec(t: Str, id: Str, digits: Str)
    ensures MatchDatasetPat(t) == Some((id, digits)) <==> PatternMatches(t, id, digits)
  {
    if PatternMatches(t, id, digits) {
      MatchDatasetPatComplete(t, id, digits);
    }
    if MatchDatasetPat(t) == Some((id, digits)) {
      MatchDatasetPatSound(t, id, digits);
    }
  }

  lemma MatchDatasetPatComplete(t: Str, id: Str, digits: Str)
    requires PatternMatches(t, id, digits)
    ensures MatchDatasetPat(t) == Some((id, digits))
  {
    var s := id + ".v" + digits;
    assert s[|s| - 1] != '\n' by {
      if |digits| > 0 {
        assert s[|s| - 1] == digits[|digits| - 1];
      } else {
        assert s[|s| - 1] == 'v';
      }
    }
    DollarEndOf(s, t);
    LastDotV(id, digits);
    assert t[..|id|] == s[..|id|] == id;
    assert t[|id| + 2..|s|] == s[|id| + 2..] == digits;
  }

  lemma MatchDatasetPatSound(t: Str, id: Str, digits: Str)
    requires MatchDatasetPat(t) == Some((id, digits))
    ensures PatternMatches(t, id, digits)
  {
    var e := DollarEnd(t);
    var p := RFind(t[..e], ".v");
    SplitAround(t[..e], ".v", p);
    assert t[..e][..p] == id && t[..e][p + 2..] == digits;
    DollarParts(t);
  }

  /** `parseCatalogLinknode`: no match gives no link (the source's
      `(None, None, None)`); a match with an empty version fails `int()`
      with `ValueError`. */
  function ParseLinknode(n: Node): (r: Result<Option<Catalog.Link>, PyError>)
    ensures r.Failure? ==> r.error == ValueError
    ensures r.Success? && r.value.Some? ==> r.value.value.href == Attr(n, "xlink:href") && r.value.value.version >= 0
  {
    match MatchDatasetPat(Attr(n, "xlink:title"))
    case None => Success(None)
    case Some(groups) =>
      if |groups.1| == 0 then Failure(ValueError)
      else Success(Some(Catalog.Link(groups.0, DigitsValue(groups.1), Attr(n, "xlink:href"))))
  }

  /** A link titled `<id>.v<version>`, for any id without newline, reads
      back as that id and version. */
  lemma ParseLinknodeRoundTrip(id: Str, v: nat, href: Str, attrs: map<Str, Str>, children: seq<Node>)
    requires '\n' !in id
    requires "xlink:title" in attrs && attrs["xlink:title"] == id + ".v" + NatToStr(v)
    requires "xlink:href" in attrs && attrs["xlink:href"] == href
    ensures ParseLinknode(Element("catalogRef", attrs, children)) == Success(Some(Catalog.Link(id, v, href)))
  {
    MatchDatasetPatSpec(id + ".v" + NatToStr(v), id, NatToStr(v));
    DigitsOfNat(v);
  }

  /** The two catalog readers disagree on an id holding `.v`: the older
      one fails to unpack three pieces, this one takes the last `.v`. */
  lemma LinkReadersDiffer(href: Str)
    ensures var n := Element("catalogRef", map["xlink:title" := "a.v1.v2", "xlink:href" := href], []);
            && Catalog.ParseLinknode(n).Failure?
            && ParseLinknode(n) == Success(Some(Catalog.Link("a.v1", 2, href)))
  {
    var n := Element("catalogRef", map["xlink:title" := "a.v1.v2", "xlink:href" := href], []);
    var t := "a.v1.v2";
    assert Attr(n, "xlink:title") == t;
    ThreePieces();
    TitleOfTwo();
    ParseLinknodeRoundTrip("a.v1", 2, href, n.attrs, []);
  }

  lemma TitleOfTwo()
    ensures "a.v1" + ".v" + NatToStr(2) == "a.v1.v2" && '\n' !in "a.v1"
  {
    assert NatToStr(2) == "2";
  }

  /** `"a.v1.v2".split(".v")` has three pieces. */
  lemma ThreePieces()
    ensures |Split("a.v1.v2", ".v")| == 3
  {
    var t := "a.v1.v2";
    assert t[0..2] == "a.";
    FindIsFirst(t, ".v", 1);
    var u := t[3..];
    assert u == "1.v2";
    assert u[0..2] == "1.";
    FindIsFirst(u, ".v", 1);
    var w := u[3..];
    assert w == "2";
    assert Find(w, ".v") == -1;
  }

  // ---------------------------------------------------------------------
  // The root catalog
  // ---------------------------------------------------------------------

  /** `findRootCatalog`: a URL of seven `/`-parts with `thredds` and
      `esgcet` as parts 3 and 4 has its root catalog at the first five
      parts followed by `catalog.xml`; any other URL raises. */
  function FindRootCatalog(url: Str): (r: Result<Str, PyError>)
    ensures r.Failure? ==> r.error == GenericException("Can't infer root catalog. Unknown format.")
  {
    var parts := Split(url, "/");
    if |parts| == 7 && parts[3] == "thredds" && parts[4] == "esgcet" then
      Success(Join(parts[..5] + ["catalog.xml"], "/"))
    else Failure(GenericException("Can't infer root catalog. Unknown format."))
  }

  /** The root catalog lives on the same server, in the directory two
      levels above the dataset catalog: the URL starts with the root
      catalog's URL less its file name. */
  lemma RootCatalogPrefix(url: Str)
    requires FindRootCatalog(url).Success?
    ensures var r := FindRootCatalog(url).value;
            && EndsWith(r, "/catalog.xml")
            && StartsWith(url, r[..|r| - |"catalog.xml"|])
  {
    var parts := Split(url, "/");
    var r := Join(parts[..5] + ["catalog.xml"], "/");
    assert FindRootCatalog(url).value == r;
    JoinSplit(url, "/");
    assert parts == parts[..5] + parts[5..];
    ReplaceTail(parts[..5], parts[5..], "catalog.xml");
    assert "/catalog.xml" == "/" + "catalog.xml";
  }

  /** Joining a head then a file name at `/` gives a text ending in the
      file name, whose part before the file name starts the head joined
      with any tail. */
  lemma ReplaceTail(head: seq<Str>, tail: seq<Str>, file: Str)
    requires |head| >= 1 && |tail| >= 1
    ensures var r := Join(head + [file], "/");
            && EndsWith(r, "/" + file)
            && StartsWith(Join(head + tail, "/"), r[..|r| - |file|])
  {
    var h := Join(head, "/");
    JoinAppend(head, [file], "/");
    JoinAppend(head, tail, "/");
    assert Join([file], "/") == file;
    var r := h + "/" + file;
    ConcatAssoc(h, "/", file);
    assert r[..|r| - |file|] == h + "/";
    assert r[|h|..] == "/" + file;
  }

  /** A catalog URL built from seven `/`-free parts with `thredds` and
      `esgcet` in place has its root catalog in place of the last two. */
  lemma RootCatalogOf(scheme: Str, empty: Str, host: Str, dir: Str, file: Str)
    requires '/' !in scheme && '/' !in empty && '/' !in host && '/' !in dir && '/' !in file
    ensures FindRootCatalog(Join([scheme, empty, host, "thredds", "esgcet", dir, file], "/"))
            == Success(Join([scheme, empty, host, "thredds", "esgcet", "catalog.xml"], "/"))
  {
    var parts := [scheme, empty, host, "thredds", "esgcet", dir, file];
    forall k | 0 <= k < |parts| ensures '/' !in parts[k] {}
    SplitJoinChar(parts, '/');
    assert parts[..5] + ["catalog.xml"] == [scheme, empty, host, "thredds", "esgcet", "catalog.xml"];
  }

  // ---------------------------------------------------------------------
  // Services and dataset nodes
  // ---------------------------------------------------------------------

  /** A resolved service: its type and absolute base URL. */
  datatype Service = Service(kind: Str, base: Str)

  /** One way to fetch a dataset or file. The type is absent when the
      default service's name element starts with an element rather than
      text (`nodeValue` is then `None`). */
  datatype Access = Access(url: Str, kind: Option<Str>, format: Str)

  /** A value of a node's dictionary: a property's text, or the list of
      access entries under `access`. */
  datatype Value = VText(text: Str) | VAccess(list: seq<Access>)

  type Props = map<Str, Value>

  /** The access entry for a service name: a known service gives its
      base and type; an unknown one gives the empty base and the name as
      type. */
  function ResolveAccess(services: map<Str, Service>, name: Option<Str>, urlPath: Str, format: Str): (a: Access)
    ensures name.Some? && name.value in services ==>
              a == Access(services[name.value].base + urlPath, Some(services[name.value].kind), format)
    ensures !(name.Some? && name.value in services) ==> a == Access(urlPath, name, format)
  {
    if name.Some? && name.value in services then
      Access(services[name.value].base + urlPath, Some(services[name.value].kind), format)
    else Access("" + urlPath, name, format)
  }

  /** `if 'access' not in result: result['access'] = []` then append: a
      property that happened to be named `access` holds text, and text
      has no `append`. */
  function AddAccess(result: Props, a: Access): (r: Result<Props, PyError>)
    ensures r.Failure? <==> "access" in result && result["access"].VText?
    ensures r.Success? ==> r.value.Keys == result.Keys + {"access"}
    ensures r.Success? ==> forall j :: j in result && j != "access" ==> r.value[j] == result[j]
  {
    if "access" !in result then Success(result["access" := VAccess([a])])
    else match result["access"]
      case VText(_) => Failure(AttributeError)
      case VAccess(l) => Success(result["access" := VAccess(l + [a])])
  }

  /** One child of a dataset node: a `property` sets its name, an
      `access` adds an entry, anything else is skipped. */
  function Step(acc: Props, c: Node, services: map<Str, Service>): Result<Props, PyError> {
    if Catalog.IsProperty(c) then Success(acc[Attr(c, "name") := VText(Attr(c, "value"))])
    else if IsTag(c, "access") then
      AddAccess(acc, ResolveAccess(services, Some(Attr(c, "serviceName")), Attr(c, "urlPath"), Attr(c, "dataFormat")))
    else Success(acc)
  }

  /** The loop over a dataset node's children, from `start`. */
  function Children(ns: seq<Node>, services: map<Str, Service>, start: Props): Result<Props, PyError>
    decreases |ns|
  {
    if |ns| == 0 then Success(start)
    else
      var acc :- Children(ns[..|ns| - 1], services, start);
      Step(acc, ns[|ns| - 1], services)
  }

  /** Names other than `access` end up exactly as the older reader
      stores them: the text of the last property of each name. */
  lemma {:induction false} ChildrenProperties(ns: seq<Node>, services: map<Str, Service>, start: Props, k: Str)
    requires k != "access"
    requires Children(ns, services, start).Success?
    ensures var r := Children(ns, services, start).value;
            && (k in r <==> k in start || k in Catalog.PropsOf(ns))
            && (k in Catalog.PropsOf(ns) ==> r[k] == VText(Catalog.PropsOf(ns)[k]))
            && (k !in Catalog.PropsOf(ns) && k in start ==> r[k] == start[k])
    decreases |ns|
  {
    if |ns| > 0 {
      var n := |ns| - 1;
      var init := ns[..n];
      var c := ns[n];
      assert Children(init, services, start).Success?;
      ChildrenProperties(init, services, start, k);
      var acc := Children(init, services, start).value;
      var r := Children(ns, services, start).value;
      assert Catalog.PropsOf(ns) == if Catalog.IsProperty(c) then Catalog.PropsOf(init)[Attr(c, "name") := Attr(c, "value")]
                                    else Catalog.PropsOf(init);
      if Catalog.IsProperty(c) {
        assert r == acc[Attr(c, "name") := VText(Attr(c, "value"))];
      } else if !IsTag(c, "access") {
        assert r == acc;
      }
    }
  }

  /** The access entries of the `access` children, in order. */
  function AccessesOf(ns: seq<Node>, services: map<Str, Service>): seq<Access>
    decreases |ns|
  {
    if |ns| == 0 then []
    else
      var c := ns[|ns| - 1];
      var before := AccessesOf(ns[..|ns| - 1], services);
      if !Catalog.IsProperty(c) && IsTag(c, "access") then
        before + [ResolveAccess(services, Some(Attr(c, "serviceName")), Attr(c, "urlPath"), Attr(c, "dataFormat"))]
      else before
  }

  /** The entries already listed in `start`. */
  function Prior(start: Props): seq<Access> {
    if "access" in start && start["access"].VAccess? then start["access"].list else []
  }

  /** Without a property named `access` the loop cannot fail, and the
      `access` list is the earlier entries followed by one entry per
      `access` child, in document order. */
  lemma {:induction false} ChildrenAccesses(ns: seq<Node>, services: map<Str, Service>, start: Props)
    requires forall i :: 0 <= i < |ns| ==> !Catalog.NamesAt(ns, "access", i)
    requires "access" in start ==> start["access"].VAccess?
    ensures Children(ns, services, start).Success?
    ensures var r := Children(ns, services, start).value;
            && ("access" in r <==> "access" in start || |AccessesOf(ns, services)| > 0)
            && ("access" in r ==> r["access"] == VAccess(Prior(start) + AccessesOf(ns, services)))
    decreases |ns|
  {
    if |ns| > 0 {
      var n := |ns| - 1;
      forall i | 0 <= i < n ensures !Catalog.NamesAt(ns[..n], "access", i) {
        assert !Catalog.NamesAt(ns, "access", i);
      }
      ChildrenAccesses(ns[..n], services, start);
      assert !Catalog.NamesAt(ns, "access", n);
      var c := ns[n];
      if !Catalog.IsProperty(c) && IsTag(c, "access") {
        var a := ResolveAccess(services, Some(Attr(c, "serviceName")), Attr(c, "urlPath"), Attr(c, "dataFormat"));
        ConcatAssoc(Prior(start), AccessesOf(ns[..n], services), [a]);
        assert Prior(start) + AccessesOf(ns[..n], services) == [] ==> [a] == Prior(start) + AccessesOf(ns, services);
      }
    }
  }

  /** A node with no first child. */
  predicate Childless(n: Node) {
    n.Text? || |n.children| == 0
  }

  /** The default access of a node with a `urlPath` attribute: its
      service name is the text of the first `serviceName` element below
      it; none fails with `IndexError`, an empty one has no first child
      and fails with `AttributeError`. */
  function DefaultAccess(node: Node, services: map<Str, Service>): (r: Result<Access, PyError>)
    requires node.Element?
    ensures r.Failure? <==> |Under(node.children, "serviceName")| == 0
                            || Childless(Under(node.children, "serviceName")[0])
  {
    var names := Under(node.children, "serviceName");
    if |names| == 0 then Failure(IndexError)
    else if Childless(names[0]) then Failure(AttributeError)
    else
      var first := names[0].children[0];
      var name := if first.Text? then Some(first.value) else None;
      Success(ResolveAccess(services, name, Attr(node, "urlPath"), ""))
  }

  /** `parseNode(node, services)`. */
  function ParseNode(node: Node, services: map<Str, Service>): Result<Props, PyError> {
    if node.Text? then Failure(AttributeError)
    else if "urlPath" in node.attrs then
      var a :- DefaultAccess(node, services);
      Children(node.children, services, map["access" := VAccess([a])])
    else Children(node.children, services, map[])
  }

  /** A dataset node with a `urlPath`, a known service and no property
      named `access` lists its default access first, as the service's
      base followed by the path, then its `access` children. */
  lemma ParseNodeDefaultFirst(node: Node, services: map<Str, Service>, a: Access)
    requires node.Element? && "urlPath" in node.attrs
    requires DefaultAccess(node, services) == Success(a)
    requires forall i :: 0 <= i < |node.children| ==> !Catalog.NamesAt(node.children, "access", i)
    ensures ParseNode(node, services).Success?
    ensures "access" in ParseNode(node, services).value
    ensures ParseNode(node, services).value["access"] == VAccess([a] + AccessesOf(node.children, services))
  {
    ChildrenAccesses(node.children, services, map["access" := VAccess([a])]);
  }

  // ---------------------------------------------------------------------
  // The dataset catalog
  // ---------------------------------------------------------------------

  /** `catalog_url[:catalog_url.index('/', 10)]`: the URL up to the first
      `/` from position 10; none there fails with `ValueError`. */
  function ServerRoot(url: Str): (r: Result<Str, PyError>)
    ensures r.Failure? ==> r.error == ValueError
  {
    if |url| < 10 then Failure(ValueError)
    else
      var i := FindFrom(url, "/", 10);
      if i < 0 then Failure(ValueError) else Success(url[..i])
  }

  /** The server root is the URL up to the first `/` at or after
      position 10, and there is one exactly when such a `/` exists. */
  lemma ServerRootSpec(url: Str)
    ensures ServerRoot(url).Success? <==> exists j :: 10 <= j < |url| && url[j] == '/'
    ensures ServerRoot(url).Success? ==>
              var root := ServerRoot(url).value;
              && |root| >= 10 && StartsWith(url, root + "/")
              && forall j :: 10 <= j < |root| ==> url[j] != '/'
  {
    if |url| >= 10 {
      var i := FindFrom(url, "/", 10);
      forall j | 10 <= j < |url| && (i < 0 || j < i)
        ensures url[j] != '/'
      {
        assert !OccursAt(url, "/", j);
        assert url[j..j + 1] == [url[j]];
      }
      if i >= 0 {
        assert url[i..i + 1] == "/";
        assert 10 <= i < |url| && url[i] == '/';
        assert url[..i + 1] == url[..i] + "/";
      }
    }
  }

  /** One `service` element: a compound service (its type compared in
      lower case) is skipped, an empty base fails `base[0]` with
      `IndexError`, and a base starting with `/` is made absolute with
      the server root. */
  function Resolved(s: Node, root: Str): (r: Result<Option<(Str, Service)>, PyError>)
    ensures r.Success? && r.value.None? <==> Lower(Attr(s, "serviceType")) == "compound"
    ensures r.Failure? <==> Lower(Attr(s, "serviceType")) != "compound" && |Attr(s, "base")| == 0
    ensures r.Success? && r.value.Some? ==>
              var base := Attr(s, "base");
              r.value.value == (Attr(s, "name"), Service(Attr(s, "serviceType"), if base[0] == '/' then root + base else base))
  {
    var kind := Attr(s, "serviceType");
    if Lower(kind) == "compound" then Success(None)
    else
      var base := Attr(s, "base");
      if |base| == 0 then Failure(IndexError)
      else Success(Some((Attr(s, "name"), Service(kind, if base[0] == '/' then root + base else base))))
  }

  /** The loop over the `service` elements; a later service of the same
      name replaces an earlier one. */
  function Services(svcs: seq<Node>, root: Str): Result<map<Str, Service>, PyError>
    decreases |svcs|
  {
    if |svcs| == 0 then Success(map[])
    else
      var m :- Services(svcs[..|svcs| - 1], root);
      var e :- Resolved(svcs[|svcs| - 1], root);
      if e.None? then Success(m) else Success(m[e.value.0 := e.value.1])
  }

  /** Whether service element `i` resolves under the name `k`. */
  predicate ServesAt(svcs: seq<Node>, root: Str, k: Str, i: int) {
    0 <= i < |svcs| && Resolved(svcs[i], root).Success? && Resolved(svcs[i], root).value.Some?
    && Resolved(svcs[i], root).value.value.0 == k
  }

  /** The loop succeeds exactly when no non-compound service has an
      empty base, and a name is then resolved exactly when some
      non-compound service has it. */
  lemma ServicesIn(svcs: seq<Node>, root: Str, k: Str)
    ensures Services(svcs, root).Success? <==> forall i :: 0 <= i < |svcs| ==> Resolved(svcs[i], root).Success?
    ensures Services(svcs, root).Success? ==> (k in Services(svcs, root).value <==> exists i :: ServesAt(svcs, root, k, i))
  {
    ServicesSucceed(svcs, root);
    if Services(svcs, root).Success? {
      ServicesHas(svcs, root, k);
    }
  }

  lemma {:induction false} ServicesSucceed(svcs: seq<Node>, root: Str)
    ensures Services(svcs, root).Success? <==> forall i :: 0 <= i < |svcs| ==> Resolved(svcs[i], root).Success?
    decreases |svcs|
  {
    if |svcs| > 0 {
      var n := |svcs| - 1;
      var init := svcs[..n];
      ServicesSucceed(init, root);
      forall i | 0 <= i < n ensures init[i] == svcs[i] {}
    }
  }

  lemma {:induction false} ServicesHas(svcs: seq<Node>, root: Str, k: Str)
    requires Services(svcs, root).Success?
    ensures k in Services(svcs, root).value <==> exists i :: ServesAt(svcs, root, k, i)
    decreases |svcs|
  {
    if |svcs| > 0 {
      var n := |svcs| - 1;
      var init := svcs[..n];
      assert Services(init, root).Success?;
      ServicesHas(init, root, k);
      ServesAtInit(svcs, init, root, k);
      var m := Services(init, root).value;
      var e := Resolved(svcs[n], root).value;
      assert Services(svcs, root).value == if e.None? then m else m[e.value.0 := e.value.1];
    }
  }

  /** Some service serves the name exactly when one before the last does
      or the last does. */
  lemma ServesAtInit(svcs: seq<Node>, init: seq<Node>, root: Str, k: Str)
    requires |svcs| > 0 && init == svcs[..|svcs| - 1]
    ensures (exists i :: ServesAt(svcs, root, k, i)) <==>
            (exists i :: ServesAt(init, root, k, i)) || ServesAt(svcs, root, k, |svcs| - 1)
  {
    var n := |svcs| - 1;
    if exists i :: ServesAt(svcs, root, k, i) {
      var i :| ServesAt(svcs, root, k, i);
      if i < n {
        assert init[i] == svcs[i];
        assert ServesAt(init, root, k, i);
      }
    }
    if exists i :: ServesAt(init, root, k, i) {
      var i :| ServesAt(init, root, k, i);
      assert init[i] == svcs[i];
      assert ServesAt(svcs, root, k, i);
    }
  }

  /** A name resolves to the last non-compound service of that name. */
  lemma {:induction false} ServicesLast(svcs: seq<Node>, root: Str, k: Str, i: int)
    requires Services(svcs, root).Success?
    requires ServesAt(svcs, root, k, i)
    requires forall j :: i < j < |svcs| ==> !ServesAt(svcs, root, k, j)
    ensures k in Services(svcs, root).value
    ensures Services(svcs, root).value[k] == Resolved(svcs[i], root).value.value.1
    decreases |svcs|
  {
    var n := |svcs| - 1;
    var init := svcs[..n];
    assert Services(init, root).Success?;
    if i < n {
      assert ServesAt(init, root, k, i);
      forall j | i < j < |init| ensures !ServesAt(init, root, k, j) {
        assert !ServesAt(svcs, root, k, j);
      }
      ServicesLast(init, root, k, i);
      assert !ServesAt(svcs, root, k, n);
    }
  }

  /** Every dataset node read in order; the first that fails stops it. */
  function ReadAll(ps: seq<(Node, bool)>, services: map<Str, Service>): (r: Result<seq<(Props, bool)>, PyError>)
    ensures r.Success? ==> |r.value| == |ps| && forall i :: 0 <= i < |ps| ==> r.value[i].1 == ps[i].1
    decreases |ps|
  {
    if |ps| == 0 then Success([])
    else
      var init :- ReadAll(ps[..|ps| - 1], services);
      var last := ps[|ps| - 1];
      var d :- ParseNode(last.0, services);
      Success(init + [(d, last.1)])
  }

  /** `getDatasetMetadata`: a failed fetch gives `None`; otherwise the
      services are resolved and the dataset nodes classified as the
      older reader does. */
  function DatasetMetadata(url: Str, fetched: Option<Node>): (r: Result<Option<Catalog.Metadata<Value>>, PyError>)
    ensures fetched.None? ==> r == Success(None)
    ensures fetched.Some? && r.Success? ==> r.value.Some?
  {
    if fetched.None? then Success(None)
    else
      var root :- ServerRoot(url);
      var children :- Catalog.Children(fetched.value);
      var services :- Services(Under(children, "service"), root);
      var read :- ReadAll(Tagged(children, "dataset"), services);
      Success(Some(Catalog.Classify(read)))
  }

  /** A read catalog has at most one dataset, which exists exactly when a
      child of the catalog is a `dataset` element; every listed file has
      a `file_id`, and every aggregation an `aggregation_id` and no
      `file_id`. */
  lemma DatasetMetadataSpec(url: Str, tag: Str, attrs: map<Str, Str>, children: seq<Node>)
    requires DatasetMetadata(url, Some(Element(tag, attrs, children))).Success?
    ensures var m := DatasetMetadata(url, Some(Element(tag, attrs, children))).value.value;
            && (m.dataset.None? <==> forall n :: n in children ==> !IsTag(n, "dataset"))
            && (forall d :: d in m.files ==> "file_id" in d)
            && (forall d :: d in m.aggregations ==> "aggregation_id" in d && "file_id" !in d)
  {
    var root := ServerRoot(url).value;
    var services := Services(Under(children, "service"), root).value;
    var rs := ReadAll(Tagged(children, "dataset"), services).value;
    assert DatasetMetadata(url, Some(Element(tag, attrs, children))) == Success(Some(Catalog.Classify(rs)));
    Catalog.ClassifiedChildren(children, rs);
  }
}
