/** The THREDDS catalog reader of the original replication tools: the
    properties of a dataset node, the link a top catalog holds to each
    dataset catalog, the classification of the nodes of a dataset
    catalog, and the map from dataset id and version to catalog URL.
    Fetching and parsing the XML are left out: the document's first node
    is an input. */
module Catalog {
  import opened Wrappers
  import opened PyStr
  import opened XmlNode

  /** The name to value map a dataset node carries. */
  type Props = map<Str, Str>

  predicate IsProperty(n: Node) {
    IsTag(n, "property")
  }

  /** Whether child `i` of `ns` is a property named `k`. */
  predicate NamesAt(ns: seq<Node>, k: Str, i: int) {
    0 <= i < |ns| && IsProperty(ns[i]) && Attr(ns[i], "name") == k
  }

  /** The `property` children of a node, read in order, a later one
      with the same name overwriting an earlier one. */
  function PropsOf(ns: seq<Node>): Props
    decreases |ns|
  {
    if |ns| == 0 then map[]
    else
      var last := ns[|ns| - 1];
      var before := PropsOf(ns[..|ns| - 1]);
      if IsProperty(last) then before[Attr(last, "name") := Attr(last, "value")] else before
  }

  /** `parseNode`. A text node has no children, so no properties. */
  function ParseNode(n: Node): (r: Props)
    ensures n.Text? ==> r == map[]
  {
    if n.Element? then PropsOf(n.children) else map[]
  }

  /** A name is in the map exactly when some child is a property of that
      name. */
  lemma {:induction false} PropsOfIn(ns: seq<Node>, k: Str)
    ensures k in PropsOf(ns) <==> exists i :: NamesAt(ns, k, i)
    decreases |ns|
  {
    if |ns| > 0 {
      var n := |ns| - 1;
      var init := ns[..n];
      PropsOfIn(init, k);
      assert PropsOf(ns) == if IsProperty(ns[n]) then PropsOf(init)[Attr(ns[n], "name") := Attr(ns[n], "value")]
                            else PropsOf(init);
      if k in PropsOf(ns) && k !in PropsOf(init) {
        assert NamesAt(ns, k, n);
      }
      if k in PropsOf(init) {
        var i :| NamesAt(init, k, i);
        assert NamesAt(ns, k, i);
      }
      if exists i :: NamesAt(ns, k, i) {
        var i :| NamesAt(ns, k, i);
        if i < n {
          assert NamesAt(init, k, i);
        }
      }
    }
  }

  /** The value a name maps to is the one of the last property of that
      name. */
  lemma {:induction false} PropsOfLast(ns: seq<Node>, k: Str, i: int)
    requires NamesAt(ns, k, i)
    requires forall j :: i < j < |ns| ==> !NamesAt(ns, k, j)
    ensures k in PropsOf(ns) && PropsOf(ns)[k] == Attr(ns[i], "value")
    decreases |ns|
  {
    var n := |ns| - 1;
    if i < n {
      var init := ns[..n];
      assert NamesAt(init, k, i);
      forall j | i < j < |init|
        ensures !NamesAt(init, k, j)
      {
        assert !NamesAt(ns, k, j);
      }
      PropsOfLast(init, k, i);
      assert !NamesAt(ns, k, n);
    }
  }

  // ---------------------------------------------------------------------
  // Links of a top catalog
  // ---------------------------------------------------------------------

  /** A `catalogRef`: the dataset id, its version and the relative URL of
      the dataset's catalog. */
  datatype Link = Link(id: Str, version: int, href: Str)

  /** `parseCatalogLinknode`. The title is split on `.v`: anything but
      two pieces fails to unpack, and a second piece `int()` rejects
      fails; both are `ValueError`. */
  function ParseLinknode(n: Node): (r: Result<Link, PyError>)
    ensures r.Failure? ==> r.error == ValueError
    ensures r.Success? ==> r.value.href == Attr(n, "xlink:href")
  {
    var parts := Split(Attr(n, "xlink:title"), ".v");
    if |parts| != 2 then Failure(ValueError)
    else
      match ParseInt(parts[1])
      case None => Failure(ValueError)
      case Some(v) => Success(Link(parts[0], v, Attr(n, "xlink:href")))
  }

  /** A split into exactly two pieces puts the one separator between
      them, and the first piece holds no separator. */
  lemma SplitTwo(s: Str, sep: Str)
    requires |sep| > 0
    requires |Split(s, sep)| == 2
    ensures s == Split(s, sep)[0] + sep + Split(s, sep)[1]
    ensures Find(Split(s, sep)[0], sep) == -1
    ensures Find(Split(s, sep)[1], sep) == -1
  {
    SplitOne(s, sep);
    var i := Find(s, sep);
    var rest := s[i + |sep|..];
    SplitStep(s, sep);
    SplitOne(rest, sep);
    SplitNone(rest, sep);
    SplitAround(s, sep, i);
    FindBeforeFirst(s, sep, i);
  }

  /** A parsed link comes from a title with exactly one `.v`, between the
      id and a text `int()` reads as the version. */
  lemma ParseLinknodeSuccess(n: Node)
    requires ParseLinknode(n).Success?
    ensures exists t :: Attr(n, "xlink:title") == ParseLinknode(n).value.id + ".v" + t
                        && ParseInt(t) == Some(ParseLinknode(n).value.version)
                        && Find(t, ".v") == -1
    ensures Find(ParseLinknode(n).value.id, ".v") == -1
  {
    SplitTwo(Attr(n, "xlink:title"), ".v");
  }

  /** No `.v` straddles the end of an id free of `.v` and the `.v`
      appended to it. */
  lemma NoStraddle(id: Str, t: Str)
    requires Find(id, ".v") == -1
    ensures forall j :: 0 <= j < |id| ==> !OccursAt(id + ".v" + t, ".v", j)
  {
    var s := id + ".v" + t;
    forall j | 0 <= j < |id|
      ensures !OccursAt(s, ".v", j)
    {
      if j + 2 <= |id| {
        assert id[j..j + 2] == s[j..j + 2];
        assert !OccursAt(id, ".v", j);
      } else if j + 2 <= |s| {
        assert s[j + 1] == '.';
        assert s[j..j + 2][1] == s[j + 1];
      }
    }
  }

  /** The text of an integer holds no `.v`. */
  lemma IntTextNoDotV(v: int)
    ensures Find(IntToStr(v), ".v") == -1
  {
    var t := IntToStr(v);
    forall j | 0 <= j <= |t|
      ensures !OccursAt(t, ".v", j)
    {
      if j + 2 <= |t| {
        assert t[j] != '.';
        assert t[j..j + 2][0] == t[j];
      }
    }
  }

  /** A link titled `<id>.v<version>`, for an id free of `.v`, reads
      back as that id and version. */
  lemma ParseLinknodeRoundTrip(id: Str, v: int, href: Str, attrs: map<Str, Str>, children: seq<Node>)
    requires Find(id, ".v") == -1
    requires "xlink:title" in attrs && attrs["xlink:title"] == id + ".v" + IntToStr(v)
    requires "xlink:href" in attrs && attrs["xlink:href"] == href
    ensures ParseLinknode(Element("catalogRef", attrs, children)) == Success(Link(id, v, href))
  {
    NoStraddle(id, IntToStr(v));
    IntTextNoDotV(v);
    SplitOnce(id, ".v", IntToStr(v));
    ParseIntToStr(v);
  }

  /** The first node of a document with no children (a text node has
      none) fails `getElementsByTagName` with `AttributeError`. */
  function Children(root: Node): Result<seq<Node>, PyError> {
    if root.Element? then Success(root.children) else Failure(AttributeError)
  }

  // ---------------------------------------------------------------------
  // The nodes of a dataset catalog
  // ---------------------------------------------------------------------

  /** What `getDatasetMetadata` returns: the top dataset, if any, the
      file nodes and the aggregation nodes, each as the name to value map
      of its node. */
  datatype Metadata<V> = Metadata(dataset: Option<map<Str, V>>, files: seq<map<Str, V>>,
                                  aggregations: seq<map<Str, V>>)

  /** The loop of `getDatasetMetadata` over the read `dataset` nodes, each
      flagged with whether its parent is the catalog. */
  function Classify<V>(ps: seq<(map<Str, V>, bool)>): Metadata<V>
    decreases |ps|
  {
    if |ps| == 0 then Metadata(None, [], [])
    else
      var m := Classify(ps[..|ps| - 1]);
      var last := ps[|ps| - 1];
      var ds := last.0;
      if last.1 then m.(dataset := Some(ds))
      else if "file_id" in ds then m.(files := m.files + [ds])
      else if "aggregation_id" in ds then m.(aggregations := m.aggregations + [ds])
      else m
  }

  /** Whether entry `i` is a node directly under the catalog. */
  predicate DirectAt<V>(ps: seq<(map<Str, V>, bool)>, i: int) {
    0 <= i < |ps| && ps[i].1
  }

  /** Whether entry `i` is a nested node whose properties are `d` and
      hold a `file_id`. */
  predicate FileAt<V(==)>(ps: seq<(map<Str, V>, bool)>, d: map<Str, V>, i: int) {
    0 <= i < |ps| && !ps[i].1 && ps[i].0 == d && "file_id" in d
  }

  /** Whether entry `i` is a nested node whose properties are `d` and
      hold an `aggregation_id` but no `file_id`. */
  predicate AggregationAt<V(==)>(ps: seq<(map<Str, V>, bool)>, d: map<Str, V>, i: int) {
    0 <= i < |ps| && !ps[i].1 && ps[i].0 == d && "file_id" !in d && "aggregation_id" in d
  }

  /** Files and aggregations are exactly the nested nodes of each kind;
      no entry is counted twice. */
  lemma {:induction false} ClassifySpec<V>(ps: seq<(map<Str, V>, bool)>)
    ensures forall d :: d in Classify(ps).files <==> exists i :: FileAt(ps, d, i)
    ensures forall d :: d in Classify(ps).aggregations <==> exists i :: AggregationAt(ps, d, i)
    ensures |Classify(ps).files| + |Classify(ps).aggregations| <= |ps|
    decreases |ps|
  {
    if |ps| > 0 {
      var n := |ps| - 1;
      var init := ps[..n];
      ClassifySpec(init);
      var m := Classify(init);
      var ds := ps[n].0;
      assert Classify(ps) == if ps[n].1 then m.(dataset := Some(ds))
                             else if "file_id" in ds then m.(files := m.files + [ds])
                             else if "aggregation_id" in ds then m.(aggregations := m.aggregations + [ds])
                             else m;
      forall d
        ensures d in Classify(ps).files <==> exists i :: FileAt(ps, d, i)
      {
        if exists i :: FileAt(ps, d, i) {
          var i :| FileAt(ps, d, i);
          if i < n {
            assert FileAt(init, d, i);
          }
        }
        if exists i :: FileAt(init, d, i) {
          var i :| FileAt(init, d, i);
          assert FileAt(ps, d, i);
        }
        if d in Classify(ps).files && d !in m.files {
          assert FileAt(ps, d, n);
        }
      }
      forall d
        ensures d in Classify(ps).aggregations <==> exists i :: AggregationAt(ps, d, i)
      {
        if exists i :: AggregationAt(ps, d, i) {
          var i :| AggregationAt(ps, d, i);
          if i < n {
            assert AggregationAt(init, d, i);
          }
        }
        if exists i :: AggregationAt(init, d, i) {
          var i :| AggregationAt(init, d, i);
          assert AggregationAt(ps, d, i);
        }
        if d in Classify(ps).aggregations && d !in m.aggregations {
          assert AggregationAt(ps, d, n);
        }
      }
    }
  }

  /** The dataset is that of the last node directly under the catalog,
      and there is none when no node is. */
  lemma {:induction false} ClassifyDataset<V>(ps: seq<(map<Str, V>, bool)>)
    ensures Classify(ps).dataset.None? <==> forall i :: 0 <= i < |ps| ==> !DirectAt(ps, i)
    ensures forall i :: DirectAt(ps, i) && (forall j :: i < j < |ps| ==> !DirectAt(ps, j))
                        ==> Classify(ps).dataset == Some(ps[i].0)
    decreases |ps|
  {
    if |ps| > 0 {
      var n := |ps| - 1;
      var init := ps[..n];
      ClassifyDataset(init);
      var m := Classify(init);
      assert Classify(ps).dataset == if ps[n].1 then Some(ps[n].0) else m.dataset;
      forall i | 0 <= i < n ensures DirectAt(init, i) == DirectAt(ps, i) {}
      if ps[n].1 {
        assert DirectAt(ps, n);
      } else if m.dataset.Some? {
        var i :| 0 <= i < |init| && DirectAt(init, i);
        assert DirectAt(ps, i);
      } else {
        forall i | 0 <= i < |ps| ensures !DirectAt(ps, i) {
          if i < n {
            assert !DirectAt(init, i);
          }
        }
      }
    }
  }

  /** The properties of each flagged node, keeping its flag. */
  function ReadAll(ps: seq<(Node, bool)>): (r: seq<(Props, bool)>)
    ensures |r| == |ps| && forall i :: 0 <= i < |ps| ==> r[i] == (ParseNode(ps[i].0), ps[i].1)
  {
    seq(|ps|, i requires 0 <= i < |ps| => (ParseNode(ps[i].0), ps[i].1))
  }

  /** `getDatasetMetadata` on the catalog document's first node. */
  function DatasetMetadata(catalog: Node): (r: Result<Metadata<Str>, PyError>)
    ensures r.Failure? <==> catalog.Text?
  {
    var children :- Children(catalog);
    Success(Classify(ReadAll(Tagged(children, "dataset"))))
  }

  /** The dataset is the last `dataset` child of the catalog element, and
      every file the result lists is a nested `dataset` node. */
  lemma DatasetMetadataSpec(tag: Str, attrs: map<Str, Str>, children: seq<Node>)
    ensures var m := DatasetMetadata(Element(tag, attrs, children)).value;
            && (m.dataset.None? <==> forall n :: n in children ==> !IsTag(n, "dataset"))
            && (forall d :: d in m.files ==> "file_id" in d)
            && (forall d :: d in m.aggregations ==> "aggregation_id" in d && "file_id" !in d)
  {
    ClassifiedChildren(children, ReadAll(Tagged(children, "dataset")));
  }

  /** The classification of nodes read from a catalog's `dataset` query,
      whatever their values: the dataset is absent exactly when no child
      of the catalog is a `dataset`, files carry a `file_id`, and
      aggregations an `aggregation_id` and no `file_id`. */
  lemma ClassifiedChildren<V>(children: seq<Node>, rs: seq<(map<Str, V>, bool)>)
    requires |rs| == |Tagged(children, "dataset")|
    requires forall i :: 0 <= i < |rs| ==> rs[i].1 == Tagged(children, "dataset")[i].1
    ensures var m := Classify(rs);
            && (m.dataset.None? <==> forall n :: n in children ==> !IsTag(n, "dataset"))
            && (forall d :: d in m.files ==> "file_id" in d)
            && (forall d :: d in m.aggregations ==> "aggregation_id" in d && "file_id" !in d)
  {
    DirectChildren(children, rs);
    ClassifyDataset(rs);
    ClassifyKinds(rs);
  }

  /** Every listed file has a `file_id`, and every aggregation an
      `aggregation_id` and no `file_id`. */
  lemma ClassifyKinds<V>(rs: seq<(map<Str, V>, bool)>)
    ensures forall d :: d in Classify(rs).files ==> "file_id" in d
    ensures forall d :: d in Classify(rs).aggregations ==> "aggregation_id" in d && "file_id" !in d
  {
    ClassifySpec(rs);
  }

  /** Nodes read from the `dataset` query keep its flags, so some read
      node is direct exactly when some child of the catalog is a
      `dataset` element. */
  lemma DirectChildren<V>(children: seq<Node>, rs: seq<(map<Str, V>, bool)>)
    requires |rs| == |Tagged(children, "dataset")|
    requires forall i :: 0 <= i < |rs| ==> rs[i].1 == Tagged(children, "dataset")[i].1
    ensures (forall i :: 0 <= i < |rs| ==> !DirectAt(rs, i)) <==> forall n :: n in children ==> !IsTag(n, "dataset")
  {
    var ps := Tagged(children, "dataset");
    TaggedSpec(children, "dataset");
    if exists n :: n in children && IsTag(n, "dataset") {
      var n :| n in children && IsTag(n, "dataset");
      assert (n, true) in ps;
      var i :| 0 <= i < |ps| && ps[i] == (n, true);
      assert DirectAt(rs, i);
    }
    if exists i :: 0 <= i < |rs| && DirectAt(rs, i) {
      var i :| 0 <= i < |rs| && DirectAt(rs, i);
      assert (ps[i].0, true) in ps;
    }
  }

  // ---------------------------------------------------------------------
  // The map of a top catalog
  // ---------------------------------------------------------------------

  /** Dataset id to version to catalog URL. */
  type Catalogs = map<Str, map<int, Str>>

  /** Whether the map holds an entry for this id and version. */
  predicate Holds(c: Catalogs, id: Str, v: int) {
    id in c && v in c[id]
  }

  /** `if id not in c: c[id] = {}` followed by `c[id][v] = url`. */
  function Put(c: Catalogs, id: Str, v: int, url: Str): (r: Catalogs)
    ensures forall id2, v2 :: Holds(r, id2, v2) <==> (id2 == id && v2 == v) || Holds(c, id2, v2)
    ensures Holds(r, id, v) && r[id][v] == url
    ensures forall id2, v2 :: Holds(c, id2, v2) && (id2 != id || v2 != v) ==> Holds(r, id2, v2) && r[id2][v2] == c[id2][v2]
  {
    var versions := if id in c then c[id] else map[];
    c[id := versions[v := url]]
  }

  /** Each `catalogRef` node read as a link. */
  function Parsed(ns: seq<Node>): (r: seq<Result<Link, PyError>>)
    ensures |r| == |ns| && forall i :: 0 <= i < |ns| ==> r[i] == ParseLinknode(ns[i])
  {
    seq(|ns|, i requires 0 <= i < |ns| => ParseLinknode(ns[i]))
  }

  /** The loop of `getAllCatalogs` over the parsed `catalogRef` nodes:
      the first link that failed to parse stops it. */
  function Collect(base: Str, ls: seq<Result<Link, PyError>>): Result<Catalogs, PyError>
    decreases |ls|
  {
    if |ls| == 0 then Success(map[])
    else
      var before :- Collect(base, ls[..|ls| - 1]);
      var link :- ls[|ls| - 1];
      Success(Put(before, link.id, link.version, base + "/" + link.href))
  }

  /** Whether link `i` names dataset `id` in version `v`. */
  predicate LinksAt(ls: seq<Result<Link, PyError>>, id: Str, v: int, i: int) {
    0 <= i < |ls| && ls[i].Success? && ls[i].value.id == id && ls[i].value.version == v
  }

  /** The loop succeeds exactly when every link parsed; an id and version
      are then present exactly when some link names them. */
  lemma {:induction false} CollectSpec(base: Str, ls: seq<Result<Link, PyError>>)
    ensures Collect(base, ls).Success? <==> forall i :: 0 <= i < |ls| ==> ls[i].Success?
    ensures Collect(base, ls).Success? ==>
              forall id, v :: Holds(Collect(base, ls).value, id, v) <==> exists i :: LinksAt(ls, id, v, i)
    decreases |ls|
  {
    if |ls| > 0 {
      var n := |ls| - 1;
      var init := ls[..n];
      CollectSpec(base, init);
      forall i | 0 <= i < n ensures ls[i] == init[i] {}
      if Collect(base, init).Success? && ls[n].Success? {
        var before := Collect(base, init).value;
        var link := ls[n].value;
        var m := Put(before, link.id, link.version, base + "/" + link.href);
        assert Collect(base, ls) == Success(m);
        assert LinksAt(ls, link.id, link.version, n);
        forall id, v
          ensures Holds(m, id, v) <==> exists i :: LinksAt(ls, id, v, i)
        {
          if exists i :: LinksAt(ls, id, v, i) {
            var i :| LinksAt(ls, id, v, i);
            if i < n {
              assert LinksAt(init, id, v, i);
            }
          }
          if exists i :: LinksAt(init, id, v, i) {
            var i :| LinksAt(init, id, v, i);
            assert LinksAt(ls, id, v, i);
          }
        }
      }
    }
  }

  /** The URL an id and version map to is the base joined to the href of
      the last link naming them. */
  lemma {:induction false} CollectLast(base: Str, ls: seq<Result<Link, PyError>>, id: Str, v: int, i: int)
    requires Collect(base, ls).Success?
    requires LinksAt(ls, id, v, i)
    requires forall j :: i < j < |ls| ==> !LinksAt(ls, id, v, j)
    ensures Holds(Collect(base, ls).value, id, v)
    ensures Collect(base, ls).value[id][v] == base + "/" + ls[i].value.href
    decreases |ls|
  {
    var n := |ls| - 1;
    var init := ls[..n];
    assert Collect(base, init).Success?;
    var before := Collect(base, init).value;
    var link := ls[n].value;
    assert Collect(base, ls).value == Put(before, link.id, link.version, base + "/" + link.href);
    if i < n {
      assert LinksAt(init, id, v, i);
      forall j | i < j < |init| ensures !LinksAt(init, id, v, j) {
        assert !LinksAt(ls, id, v, j);
      }
      CollectLast(base, init, id, v, i);
      assert !LinksAt(ls, id, v, n);
    }
  }

  /** `getAllCatalogs`: the base is the URL up to its last `/`, a URL
      with none fails `rindex` with `ValueError`; `root` is the first
      node of the fetched document. */
  function AllCatalogs(url: Str, root: Node): (r: Result<Catalogs, PyError>)
    ensures RFind(url, "/") == -1 ==> r == Failure(ValueError)
  {
    var cut := RFind(url, "/");
    if cut < 0 then Failure(ValueError)
    else
      var children :- Children(root);
      Collect(url[..cut], Parsed(Under(children, "catalogRef")))
  }

  /** In `dir/file` with no `/` in `file`, the last `/` is the one
      after `dir`. */
  lemma LastSlashBeforeFile(dir: Str, file: Str)
    requires Find(file, "/") == -1
    ensures RFind(dir + "/" + file, "/") == |dir| && (dir + "/" + file)[..|dir|] == dir
  {
    var url := dir + "/" + file;
    var cut := |dir|;
    assert OccursAt(url, "/", cut);
    forall j | cut < j <= |url| ensures !OccursAt(url, "/", j) {
      if j + 1 <= |url| {
        var k := j - cut - 1;
        assert url[j] == file[k];
        assert !OccursAt(file, "/", k);
        assert file[k..k + 1] == [file[k]];
        assert url[j..j + 1] == [url[j]];
      }
    }
  }

  /** A top catalog whose one link is `<id>.v<version>` maps that id and
      version to the URL's directory joined to the link's href. */
  lemma AllCatalogsOne(dir: Str, file: Str, id: Str, v: int, href: Str, attrs: map<Str, Str>)
    requires Find(id, ".v") == -1
    requires Find(file, "/") == -1
    requires "xlink:title" in attrs && attrs["xlink:title"] == id + ".v" + IntToStr(v)
    requires "xlink:href" in attrs && attrs["xlink:href"] == href
    ensures AllCatalogs(dir + "/" + file, Element("catalog", map[], [Element("catalogRef", attrs, [])]))
            == Success(map[id := map[v := dir + "/" + href]])
  {
    LastSlashBeforeFile(dir, file);
    var node := Element("catalogRef", attrs, []);
    ParseLinknodeRoundTrip(id, v, href, attrs, []);
    assert Under([node], "catalogRef") == [node];
    assert Parsed([node]) == [Success(Link(id, v, href))];
    assert Collect(dir, [Success(Link(id, v, href))]) == Success(Put(map[], id, v, dir + "/" + href));
  }
}
