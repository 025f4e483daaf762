/** The harvester of the global dataset table: turning a search response
    into a dataset row, handing a batch of responses to the database
    session, trimming search constraints, deciding per data node whether
    its datasets must be harvested again, splitting the gateways whose
    feed is broken from the others, and choosing the row style of the
    status page. The search service, the database session and the wiki
    text itself are left out; their answers are inputs. */
module HarvestCmip5 {
  import opened Wrappers
  import opened PyStr

  // ---------------------------------------------------------------------
  // A dataset row from a search response
  // ---------------------------------------------------------------------

  /** A value of a search response. */
  datatype Value = Text(s: Str) | Texts(items: seq<Str>) | Num(n: int) | Flag(b: bool) | Nothing

  /** The names of a response's fields; every other name is `Other`. */
  datatype Field =
    | DataNode | IndexNode | MasterId | Version | Url | Timestamp | Size | NumberOfFiles | Replica | Id
    | Other(name: Str)

  type Response = map<Field, Value>

  /** The fields a response must hold (`Dataset.FIELDS`). */
  const Fields: set<Field> := {DataNode, IndexNode, MasterId, Version, Url, Timestamp, Size, NumberOfFiles, Replica}

  /** The fields a response must hold itself, the others having defaults. */
  const Required: set<Field> := {DataNode, IndexNode, MasterId, Version, Url, Timestamp, Replica}

  /** The exception `instance` raises for a response lacking a field. */
  const MissingFields: PyError := GenericException("Cannot create object from the given attributes")

  /** A row of the dataset table. */
  datatype DatasetRow = DatasetRow(
    catalog: Option<Str>, id: Value, version: int, dataNode: Value, indexNode: Value,
    replica: Value, size: Value, filecount: Value, creationtime: Value)

  /** The response over the defaults: file count and size are None unless given. */
  function WithDefaults(resp: Response): (r: Response)
    ensures forall k :: k in r <==> k in resp || k == NumberOfFiles || k == Size
    ensures forall k :: k in resp ==> r[k] == resp[k]
    ensures NumberOfFiles !in resp ==> r[NumberOfFiles] == Nothing
    ensures Size !in resp ==> r[Size] == Nothing
  {
    map[NumberOfFiles := Nothing, Size := Nothing] + resp
  }

  /** `c[-7:] == 'Catalog'` */
  predicate IsCatalogUrl(c: Str) {
    SliceFrom(c, -7) == "Catalog"
  }

  /** The seven-character slice test is `endswith`. */
  lemma IsCatalogUrlEndsWith(c: Str)
    ensures IsCatalogUrl(c) <==> EndsWith(c, "Catalog")
  {
    if |c| >= 7 {
      assert ClampIndex(-7, |c|) == |c| - 7;
    }
  }

  /** The URLs of a response that name a catalog, in order. */
  function Candidates(urls: seq<Str>): (r: seq<Str>)
    ensures forall c :: c in r <==> c in urls && IsCatalogUrl(c)
    ensures |r| <= |urls|
    decreases |urls|
  {
    if |urls| == 0 then []
    else
      var n := |urls| - 1;
      var init := Candidates(urls[..n]);
      assert forall c :: c in urls <==> c in urls[..n] || c == urls[n];
      if IsCatalogUrl(urls[n]) then init + [urls[n]] else init
  }

  /** The catalog link: set only when exactly one URL names a catalog,
      and then cut after its first `.xml`. A single string is iterated
      by its characters, none of which names a catalog; a value that
      cannot be iterated raises TypeError. */
  function CatalogOf(url: Value): (r: Result<Option<Str>, PyError>)
    ensures r.Failure? <==> !(url.Texts? || url.Text?)
    ensures r.Success? && r.value.Some? ==> url.Texts? && |Candidates(url.items)| == 1 && EndsWith(r.value.value, ".xml")
  {
    match url
    case Texts(items) =>
      var cs := Candidates(items);
      if |cs| == 1 then Success(Some(Split(cs[0], ".xml")[0] + ".xml")) else Success(None)
    case Text(_) => Success(None)
    case _ => Failure(TypeError)
  }

  /** `int(v)` for the version. */
  function IntOf(v: Value): (r: Result<int, PyError>)
    ensures v.Num? ==> r == Success(v.n)
    ensures v.Text? ==> (r.Success? <==> ParseInt(v.s).Some?)
  {
    match v
    case Num(n) => Success(n)
    case Flag(b) => Success(if b then 1 else 0)
    case Text(s) => if ParseInt(s).Some? then Success(ParseInt(s).value) else Failure(ValueError)
    case _ => Failure(TypeError)
  }

  /** `Dataset.instance(p2p_response)` */
  function Instance(resp: Response): Result<DatasetRow, PyError> {
    var res := WithDefaults(resp);
    if !(Fields <= res.Keys) then Failure(MissingFields)
    else
      var catalog :- CatalogOf(res[Url]);
      var version :- IntOf(res[Version]);
      Success(DatasetRow(catalog, res[MasterId], version, res[DataNode], res[IndexNode],
                         res[Replica], res[Size], res[NumberOfFiles], res[Timestamp]))
  }

  /** `instance` fails for a missing field exactly when one of the fields
      without a default is absent; otherwise the row carries the
      response's values, file count and size defaulting to None, the
      version converted, and a catalog exactly when one URL names one. */
  lemma InstanceSpec(resp: Response)
    ensures Instance(resp) == Failure(MissingFields) <==> !(Required <= resp.Keys)
    ensures Instance(resp).Success? <==>
              Required <= resp.Keys && (resp[Url].Texts? || resp[Url].Text?) && IntOf(resp[Version]).Success?
    ensures Instance(resp).Success? ==>
              var ds := Instance(resp).value;
              ds.id == resp[MasterId] && ds.dataNode == resp[DataNode] && ds.indexNode == resp[IndexNode]
              && ds.replica == resp[Replica] && ds.creationtime == resp[Timestamp]
              && ds.version == IntOf(resp[Version]).value
              && ds.size == (if Size in resp then resp[Size] else Nothing)
              && ds.filecount == (if NumberOfFiles in resp then resp[NumberOfFiles] else Nothing)
              && (ds.catalog.Some? <==> resp[Url].Texts? && |Candidates(resp[Url].items)| == 1)
  {
    var res := WithDefaults(resp);
    assert Fields <= res.Keys <==> Required <= resp.Keys;
  }

  /** The catalog link is the unique catalog URL up to its first `.xml`,
      with `.xml` put back. */
  lemma CatalogLink(items: seq<Str>)
    requires |Candidates(items)| == 1
    ensures var c := Candidates(items)[0];
            CatalogOf(Texts(items)) == Success(Some(Split(c, ".xml")[0] + ".xml"))
            && c in items && EndsWith(c, "Catalog")
            && StartsWith(c, Split(c, ".xml")[0])
            && (Contains(c, ".xml") ==> StartsWith(c, Split(c, ".xml")[0] + ".xml"))
  {
    var c := Candidates(items)[0];
    assert c in Candidates(items);
    IsCatalogUrlEndsWith(c);
    var i := Find(c, ".xml");
    if i >= 0 {
      assert c[..i + 4] == c[..i] + ".xml";
    }
  }

  // ---------------------------------------------------------------------
  // Handing a batch to the session
  // ---------------------------------------------------------------------

  /** `p2p_results`: one response, or a list of them. */
  datatype Batch = One(resp: Response) | Many(resps: seq<Response>)

  function Items(b: Batch): seq<Response> {
    match b
    case One(r) => [r]
    case Many(rs) => rs
  }

  /** Whether a value is true in Python. */
  predicate Truthy(v: Value) {
    match v
    case Text(s) => |s| > 0
    case Texts(xs) => |xs| > 0
    case Num(n) => n != 0
    case Flag(b) => b
    case Nothing => false
  }

  /** The text logged for a skipped response: `'id' in dataset and
      dataset['id'] or 'dataset'`, added to a string, which raises
      TypeError for a true value that is not a string. */
  function SkipName(resp: Response): (r: Result<Str, PyError>)
    ensures r.Failure? <==> Id in resp && Truthy(resp[Id]) && !resp[Id].Text?
  {
    if Id in resp && Truthy(resp[Id]) then
      if resp[Id].Text? then Success(resp[Id].s) else Failure(TypeError)
    else Success("dataset")
  }

  /** What a batch gives the session: the rows added (or merged), and the
      log lines of the responses skipped. */
  datatype Handed = Handed(rows: seq<DatasetRow>, skipped: seq<Str>)

  /** `insert` and `update`: each response whose row can be made is
      handed on; one that fails is logged and skipped. Only the logging
      itself can end the batch early. */
  function Ingest(resps: seq<Response>): (r: Result<Handed, PyError>)
    ensures r.Success? ==> |r.value.rows| + |r.value.skipped| == |resps|
    decreases |resps|
  {
    if |resps| == 0 then Success(Handed([], []))
    else
      var n := |resps| - 1;
      var h :- Ingest(resps[..n]);
      match Instance(resps[n])
      case Success(ds) => Success(h.(rows := h.rows + [ds]))
      case Failure(_) =>
        var name :- SkipName(resps[n]);
        Success(h.(skipped := h.skipped + ["Skipping dataset: " + name]))
  }

  /** `Dataset.insert`: the rows are added to the session. */
  function Insert(b: Batch): Result<Handed, PyError> {
    Ingest(Items(b))
  }

  /** `Dataset.update`: the rows are merged into the session. */
  function Update(b: Batch): Result<Handed, PyError> {
    Ingest(Items(b))
  }

  /** The rows a batch yields: those of the responses that make one, in order. */
  function Made(resps: seq<Response>): seq<DatasetRow>
    decreases |resps|
  {
    if |resps| == 0 then []
    else
      var n := |resps| - 1;
      match Instance(resps[n])
      case Success(ds) => Made(resps[..n]) + [ds]
      case Failure(_) => Made(resps[..n])
  }

  /** A failing response never ends the batch unless its logged id is a
      true non-string; a completed batch hands on exactly the rows of the
      responses that make one, in order, and skips the others. */
  lemma IngestSpec(resps: seq<Response>)
    ensures Ingest(resps).Success? <==>
              forall k :: 0 <= k < |resps| && Instance(resps[k]).Failure? ==> SkipName(resps[k]).Success?
    ensures Ingest(resps).Success? ==> Ingest(resps).value.rows == Made(resps)
  {
    IngestSucceeds(resps);
    IngestRows(resps);
  }

  /** Every failing response of the batch has a loggable id. */
  predicate Loggable(resps: seq<Response>) {
    forall k :: 0 <= k < |resps| && Instance(resps[k]).Failure? ==> SkipName(resps[k]).Success?
  }

  lemma LoggableSnoc(resps: seq<Response>)
    requires |resps| > 0
    ensures var n := |resps| - 1;
            Loggable(resps) <==>
              Loggable(resps[..n]) && (Instance(resps[n]).Failure? ==> SkipName(resps[n]).Success?)
  {
    var n := |resps| - 1;
    assert forall k :: 0 <= k < n ==> resps[..n][k] == resps[k];
  }

  lemma {:induction false} IngestSucceeds(resps: seq<Response>)
    ensures Ingest(resps).Success? <==> Loggable(resps)
    decreases |resps|
  {
    if |resps| > 0 {
      IngestSucceeds(resps[..|resps| - 1]);
      LoggableSnoc(resps);
    }
  }

  lemma {:induction false} IngestRows(resps: seq<Response>)
    ensures Ingest(resps).Success? ==> Ingest(resps).value.rows == Made(resps)
    decreases |resps|
  {
    if |resps| > 0 {
      IngestRows(resps[..|resps| - 1]);
    }
  }

  // ---------------------------------------------------------------------
  // Trimming the search constraints
  // ---------------------------------------------------------------------

  /** `__trim_dict(d, *keys)`: each listed key is removed if present. */
  function TrimDict<V>(d: map<Str, V>, keys: seq<Str>): (r: map<Str, V>)
    decreases |keys|
  {
    if |keys| == 0 then d
    else TrimDict(if keys[0] in d then d - {keys[0]} else d, keys[1..])
  }

  /** The trimmed map keeps exactly the unlisted keys, with their values. */
  lemma {:induction false} TrimDictSpec<V>(d: map<Str, V>, keys: seq<Str>)
    ensures forall k :: k in TrimDict(d, keys) <==> k in d && k !in keys
    ensures forall k :: k in TrimDict(d, keys) ==> TrimDict(d, keys)[k] == d[k]
    decreases |keys|
  {
    if |keys| > 0 {
      var d' := if keys[0] in d then d - {keys[0]} else d;
      TrimDictSpec(d', keys[1..]);
      assert forall k :: k in keys <==> k == keys[0] || k in keys[1..];
    }
  }

  /** The constraints kept for the per-node searches: a copy without
      `data_node`, `limit`, `fields` and `distrib`. */
  function NodeConstraints<V>(constraints: map<Str, V>): map<Str, V> {
    if |constraints| == 0 then constraints
    else TrimDict(constraints, ["data_node", "limit", "fields", "distrib"])
  }

  /** The search constraints lose exactly the four keys the harvester sets itself. */
  lemma NodeConstraintsSpec<V>(constraints: map<Str, V>)
    ensures forall k :: k in NodeConstraints(constraints) <==>
              k in constraints && k != "data_node" && k != "limit" && k != "fields" && k != "distrib"
    ensures forall k :: k in NodeConstraints(constraints) ==> NodeConstraints(constraints)[k] == constraints[k]
  {
    TrimDictSpec(constraints, ["data_node", "limit", "fields", "distrib"]);
  }

  // ---------------------------------------------------------------------
  // Which data nodes to harvest
  // ---------------------------------------------------------------------

  /** A row of the per-node summary of the table. */
  datatype NodeInfo = NodeInfo(dataNode: Str, indexNode: Str, total: int)

  /** `db_info`: the summary by data node, a later row replacing an earlier one. */
  function DbInfo(rows: seq<NodeInfo>): (r: map<Str, NodeInfo>)
    ensures forall n :: n in r <==> exists k :: 0 <= k < |rows| && rows[k].dataNode == n
    ensures forall n :: n in r ==> r[n].dataNode == n
    decreases |rows|
  {
    if |rows| == 0 then map[]
    else
      var m := |rows| - 1;
      var init := DbInfo(rows[..m]);
      assert forall k :: 0 <= k < m ==> rows[..m][k] == rows[k];
      init[rows[m].dataNode := rows[m]]
  }

  /** What is done for a data node the search reports. */
  datatype NodeStep =
    | Unchanged                          // known, with the same count
    | Reharvest(indexNode: Str)          // known, count changed: delete its rows, ingest again
    | Harvest(indexNode: Str)            // new, its index node found
    | NoIndex                            // new, no index node found

  /** The decision for one data node with `count` datasets remotely;
      `findIndex` answers the one-result search for the node's index node. */
  function NodeDecision(db: map<Str, NodeInfo>, dataNode: Str, count: int, findIndex: Str -> Option<Str>): NodeStep {
    if dataNode in db then
      if count != db[dataNode].total then Reharvest(db[dataNode].indexNode) else Unchanged
    else match findIndex(dataNode)
      case Some(i) => Harvest(i)
      case None => NoIndex
  }

  /** The plan for every reported node, in the order given. */
  function Plan(db: map<Str, NodeInfo>, nodes: seq<(Str, int)>, findIndex: Str -> Option<Str>): (r: seq<NodeStep>)
    ensures |r| == |nodes|
    ensures forall k :: 0 <= k < |nodes| ==> r[k] == NodeDecision(db, nodes[k].0, nodes[k].1, findIndex)
  {
    seq(|nodes|, k requires 0 <= k < |nodes| => NodeDecision(db, nodes[k].0, nodes[k].1, findIndex))
  }

  /** The data nodes the table knows that the search no longer reports. */
  function MissingNodes(db: map<Str, NodeInfo>, nodes: seq<(Str, int)>): (r: set<Str>)
    ensures forall n :: n in r <==> n in db && forall k :: 0 <= k < |nodes| ==> nodes[k].0 != n
  {
    set n | n in db && forall k :: 0 <= k < |nodes| ==> nodes[k].0 != n
  }

  /** A node is left alone exactly when the table knows it with the same
      count; its old rows are deleted before ingesting exactly when the
      table knows it; a new node is harvested from the index node the
      search names, and skipped when none is named. */
  lemma NodeDecisionSpec(rows: seq<NodeInfo>, dataNode: Str, count: int, findIndex: Str -> Option<Str>)
    ensures var st := NodeDecision(DbInfo(rows), dataNode, count, findIndex);
            var known := exists k :: 0 <= k < |rows| && rows[k].dataNode == dataNode;
            (st.Unchanged? <==> known && count == DbInfo(rows)[dataNode].total)
            && (st.Reharvest? <==> known && count != DbInfo(rows)[dataNode].total)
            && (st.Harvest? <==> !known && findIndex(dataNode).Some?)
            && (st.Harvest? ==> st.indexNode == findIndex(dataNode).value)
            && (st.NoIndex? <==> !known && findIndex(dataNode).None?)
  {
  }

  // ---------------------------------------------------------------------
  // The gateways with a broken feed
  // ---------------------------------------------------------------------

  const DefaultGateways: seq<Str> := ["PCMDI", "WDCC", "ORNL", "NCI", "BADC", "NCAR"]
  const BrokenFeed: set<Str> := {"PCMDI", "NCI", "BADC"}

  /** `gateways.remove(g)`: the first occurrence goes. */
  function RemoveFirst<T(==)>(xs: seq<T>, x: T): (r: seq<T>)
    requires x in xs
    ensures |r| == |xs| - 1
    decreases |xs|
  {
    if xs[0] == x then xs[1..]
    else [xs[0]] + RemoveFirst(xs[1..], x)
  }

  /** `remove` takes away exactly one occurrence. */
  lemma {:induction false} RemoveFirstMultiset<T>(xs: seq<T>, x: T)
    requires x in xs
    ensures multiset(RemoveFirst(xs, x)) == multiset(xs) - multiset{x}
    decreases |xs|
  {
    assert xs == [xs[0]] + xs[1..];
    if xs[0] != x {
      RemoveFirstMultiset(xs[1..], x);
    }
  }

  /** The work-around loop as written: iterating over the list by
      position while removing from it, so the element that moves into
      the current position is never looked at. */
  function SplitFrom<T(==)>(gs: seq<T>, i: nat, broken: set<T>, work: seq<T>): (r: (seq<T>, seq<T>))
    requires i <= |gs|
    decreases |gs| - i
  {
    if i == |gs| then (gs, work)
    else if gs[i] in broken then
      var g := gs[i];
      assert g in gs;
      var gs' := RemoveFirst(gs, g);
      if i + 1 <= |gs'| then SplitFrom(gs', i + 1, broken, work + [g])
      else (gs', work + [g])
    else SplitFrom(gs, i + 1, broken, work)
  }

  /** As written the loop loses and invents no gateway, and only broken
      feeds are split off; but a broken one may stay. */
  lemma SplitFromSpec<T>(gs: seq<T>, i: nat, broken: set<T>, work: seq<T>)
    requires i <= |gs|
    ensures var r := SplitFrom(gs, i, broken, work);
            multiset(r.0) + multiset(r.1) == multiset(gs) + multiset(work)
    ensures forall g :: g in SplitFrom(gs, i, broken, work).1 ==> g in work || g in broken
  {
    SplitFromCount(gs, i, broken, work);
    SplitFromBroken(gs, i, broken, work);
  }

  lemma {:induction false} SplitFromCount<T>(gs: seq<T>, i: nat, broken: set<T>, work: seq<T>)
    requires i <= |gs|
    ensures var r := SplitFrom(gs, i, broken, work);
            multiset(r.0) + multiset(r.1) == multiset(gs) + multiset(work)
    decreases |gs| - i
  {
    if i < |gs| {
      if gs[i] in broken {
        var g := gs[i];
        var gs' := RemoveFirst(gs, g);
        RemoveFirstMultiset(gs, g);
        assert multiset(work + [g]) == multiset(work) + multiset{g};
        if i + 1 <= |gs'| {
          SplitFromCount(gs', i + 1, broken, work + [g]);
        }
      } else {
        SplitFromCount(gs, i + 1, broken, work);
      }
    }
  }

  lemma {:induction false} SplitFromBroken<T>(gs: seq<T>, i: nat, broken: set<T>, work: seq<T>)
    requires i <= |gs|
    ensures forall g :: g in SplitFrom(gs, i, broken, work).1 ==> g in work || g in broken
    decreases |gs| - i
  {
    if i < |gs| {
      if gs[i] in broken {
        var g := gs[i];
        var gs' := RemoveFirst(gs, g);
        if i + 1 <= |gs'| {
          SplitFromBroken(gs', i + 1, broken, work + [g]);
        }
      } else {
        SplitFromBroken(gs, i + 1, broken, work);
      }
    }
  }

  /** `updateDB`'s split as written: no gateways (None or empty) means
      the six defaults; without the work-around nothing is split off. */
  function WorkAroundAsWritten(gateways: seq<Str>, workAround: bool): (r: (seq<Str>, seq<Str>))
  {
    var gs := if |gateways| == 0 then DefaultGateways else gateways;
    if workAround then SplitFrom(gs, 0, BrokenFeed, []) else (gs, [])
  }

  /** As written, of six gateways whose first, fourth and fifth feeds are
      broken, the fifth is never looked at: it moves into the place of
      the fourth as that is removed. */
  lemma SplitSkipsFollower<T>(a: T, b: T, c: T, d: T, e: T, f: T, broken: set<T>)
    requires a in broken && b !in broken && c !in broken && d in broken && e in broken && f !in broken
    ensures SplitFrom([a, b, c, d, e, f], 0, broken, []).0 == [b, c, e, f]
    ensures SplitFrom([a, b, c, d, e, f], 0, broken, []).1 == [a, d]
  {
    var gs0 := [a, b, c, d, e, f];
    var gs1 := [b, c, d, e, f];
    var gs2 := [b, c, e, f];
    RemoveFirstSix(a, b, c, d, e, f, broken);
    assert [] + [a] == [a];
    assert [a] + [d] == [a, d];
    SplitStep(gs0, 0, broken, []);
    SplitStep(gs1, 1, broken, [a]);
    SplitStep(gs1, 2, broken, [a]);
    SplitStep(gs2, 3, broken, [a, d]);
    SplitStep(gs2, 4, broken, [a, d]);
  }

  /** As written, with the default gateways BADC, whose feed is broken,
      follows NCI and so stays with the gateways harvested the new way. */
  lemma WorkAroundKeepsBadc()
    ensures WorkAroundAsWritten([], true).0 == ["WDCC", "ORNL", "BADC", "NCAR"]
    ensures WorkAroundAsWritten([], true).1 == ["PCMDI", "NCI"]
    ensures "BADC" in BrokenFeed && "BADC" in WorkAroundAsWritten([], true).0
  {
    SplitSkipsFollower("PCMDI", "WDCC", "ORNL", "NCI", "BADC", "NCAR", BrokenFeed);
    assert WorkAroundAsWritten([], true).0[2] == "BADC";
  }

  /** One step of the loop as written. */
  lemma SplitStep<T>(gs: seq<T>, i: nat, broken: set<T>, work: seq<T>)
    requires i <= |gs|
    ensures i == |gs| ==> SplitFrom(gs, i, broken, work) == (gs, work)
    ensures i < |gs| && gs[i] !in broken ==> SplitFrom(gs, i, broken, work) == SplitFrom(gs, i + 1, broken, work)
    ensures i < |gs| - 1 && gs[i] in broken ==>
              SplitFrom(gs, i, broken, work) == SplitFrom(RemoveFirst(gs, gs[i]), i + 1, broken, work + [gs[i]])
  {
  }

  /** The two removals of the loop as written over six gateways. */
  lemma RemoveFirstSix<T>(a: T, b: T, c: T, d: T, e: T, f: T, broken: set<T>)
    requires a in broken && b !in broken && c !in broken && d in broken
    ensures RemoveFirst([a, b, c, d, e, f], a) == [b, c, d, e, f]
    ensures RemoveFirst([b, c, d, e, f], d) == [b, c, e, f]
  {
    RemoveFirstHead(a, [b, c, d, e, f]);
    RemoveThird(b, c, d, e, f, broken);
  }

  lemma RemoveFirstHead<T>(a: T, xs: seq<T>)
    ensures RemoveFirst([a] + xs, a) == xs
  {
    RemoveFirstCons(a, xs, a);
  }

  lemma RemoveThird<T>(b: T, c: T, d: T, e: T, f: T, broken: set<T>)
    requires b !in broken && c !in broken && d in broken
    ensures RemoveFirst([b, c, d, e, f], d) == [b, c, e, f]
  {
    RemoveFirstPast(c, d, [e, f]);
    RemoveFirstCons(b, [c, d, e, f], d);
    assert [b, c, d, e, f] == [b] + [c, d, e, f];
    assert [b] + [c, e, f] == [b, c, e, f];
  }

  lemma RemoveFirstPast<T>(c: T, d: T, xs: seq<T>)
    requires c != d
    ensures RemoveFirst([c, d] + xs, d) == [c] + xs
  {
    RemoveFirstCons(d, xs, d);
    RemoveFirstCons(c, [d] + xs, d);
    assert [c, d] + xs == [c] + ([d] + xs);
  }

  /** `remove` looks at the head first. */
  lemma RemoveFirstCons<T>(x: T, xs: seq<T>, y: T)
    requires y in [x] + xs
    ensures x == y ==> RemoveFirst([x] + xs, y) == xs
    ensures x != y ==> y in xs && RemoveFirst([x] + xs, y) == [x] + RemoveFirst(xs, y)
  {
    assert ([x] + xs)[0] == x && ([x] + xs)[1..] == xs;
  }

  /** The evidently intended split: every gateway with a broken feed is
      harvested the old way, every other one the new way, each in its
      order. */
  function Partition<T(==)>(gs: seq<T>, broken: set<T>): (r: (seq<T>, seq<T>))
    decreases |gs|
  {
    if |gs| == 0 then ([], [])
    else
      var n := |gs| - 1;
      var p := Partition(gs[..n], broken);
      if gs[n] in broken then (p.0, p.1 + [gs[n]]) else (p.0 + [gs[n]], p.1)
  }

  /** The corrected split in `updateDB`. */
  function WorkAround(gateways: seq<Str>, workAround: bool): (r: (seq<Str>, seq<Str>))
  {
    var gs := if |gateways| == 0 then DefaultGateways else gateways;
    if workAround then Partition(gs, BrokenFeed) else (gs, [])
  }

  /** The corrected split loses and invents no gateway, and separates
      exactly the broken feeds. */
  lemma {:induction false} PartitionSpec<T>(gs: seq<T>, broken: set<T>)
    ensures multiset(Partition(gs, broken).0) + multiset(Partition(gs, broken).1) == multiset(gs)
    ensures forall g :: g in Partition(gs, broken).0 <==> g in gs && g !in broken
    ensures forall g :: g in Partition(gs, broken).1 <==> g in gs && g in broken
    decreases |gs|
  {
    if |gs| > 0 {
      var n := |gs| - 1;
      PartitionSpec(gs[..n], broken);
      assert gs == gs[..n] + [gs[n]];
    }
  }

  /** The corrected split of six gateways whose first, fourth and fifth
      feeds are broken. */
  lemma PartitionSix<T>(a: T, b: T, c: T, d: T, e: T, f: T, broken: set<T>)
    requires a in broken && b !in broken && c !in broken && d in broken && e in broken && f !in broken
    ensures Partition([a, b, c, d, e, f], broken).0 == [b, c, f]
    ensures Partition([a, b, c, d, e, f], broken).1 == [a, d, e]
  {
    PartitionSnoc([], a, broken);
    assert [] + [a] == [a];
    PartitionSnoc([a], b, broken);
    assert [a] + [b] == [a, b];
    PartitionSnoc([a, b], c, broken);
    assert [a, b] + [c] == [a, b, c];
    assert [b] + [c] == [b, c];
    PartitionSnoc([a, b, c], d, broken);
    assert [a, b, c] + [d] == [a, b, c, d];
    assert [a] + [d] == [a, d];
    PartitionSnoc([a, b, c, d], e, broken);
    assert [a, b, c, d] + [e] == [a, b, c, d, e];
    assert [a, d] + [e] == [a, d, e];
    PartitionSnoc([a, b, c, d, e], f, broken);
    assert [a, b, c, d, e] + [f] == [a, b, c, d, e, f];
    assert [b, c] + [f] == [b, c, f];
  }

  /** One more gateway goes to the side its feed decides. */
  lemma PartitionSnoc<T>(gs: seq<T>, x: T, broken: set<T>)
    ensures Partition(gs + [x], broken).0 == if x in broken then Partition(gs, broken).0 else Partition(gs, broken).0 + [x]
    ensures Partition(gs + [x], broken).1 == if x in broken then Partition(gs, broken).1 + [x] else Partition(gs, broken).1
  {
    assert (gs + [x])[..|gs|] == gs;
  }

  /** With the defaults the corrected split sends BADC the old way too. */
  lemma WorkAroundDefaults()
    ensures WorkAround([], true).0 == ["WDCC", "ORNL", "NCAR"]
    ensures WorkAround([], true).1 == ["PCMDI", "NCI", "BADC"]
  {
    PartitionSix("PCMDI", "WDCC", "ORNL", "NCI", "BADC", "NCAR", BrokenFeed);
  }

  // ---------------------------------------------------------------------
  // Row styles of the status page
  // ---------------------------------------------------------------------

  /** `table_styles[i][j]`: two palettes of two shades. */
  function TableStyle(palette: nat, shade: nat): Str
    requires palette < 2 && shade < 2
  {
    if palette == 0 then
      if shade == 0 then "<rowstyle=\"background-color:#fafafa\">" else "<rowstyle=\"background-color:#f0f0f0\">"
    else
      if shade == 0 then "<rowstyle=\"background-color:#fff9e9\">" else "<rowstyle=\"background-color:#f4efdf\">"
  }

  /** The style counters after a number of rows grouped by a key (the
      institute, or the data node): the group count goes up whenever the
      key differs from the previous row's (and at the first row), the row
      count at every row. */
  function Counters(keys: seq<Str>): (r: (nat, nat))
    ensures r.1 == |keys|
    ensures |keys| > 0 ==> r.0 >= 1
    decreases |keys|
  {
    if |keys| == 0 then (0, 0)
    else
      var n := |keys| - 1;
      var c := Counters(keys[..n]);
      (if n == 0 || keys[n] != keys[n - 1] then c.0 + 1 else c.0, c.1 + 1)
  }

  /** The style of each row: `table_styles[style_nr % 2][row_nr % 2]`. */
  function RowStyles(keys: seq<Str>): (r: seq<Str>)
    ensures |r| == |keys|
  {
    seq(|keys|, k requires 0 <= k < |keys| =>
      var c := Counters(keys[..k + 1]);
      TableStyle(c.0 % 2, c.1 % 2))
  }

  /** Consecutive rows of one group keep the palette and alternate the
      shade; a row starting a new group switches the palette. */
  lemma RowStylesAlternate(keys: seq<Str>, k: nat)
    requires 0 < k < |keys|
    ensures var a := Counters(keys[..k]);
            var b := Counters(keys[..k + 1]);
            b.1 % 2 != a.1 % 2
            && (keys[k] == keys[k - 1] ==> b.0 % 2 == a.0 % 2)
            && (keys[k] != keys[k - 1] ==> b.0 % 2 != a.0 % 2)
  {
    assert keys[..k + 1][..k] == keys[..k];
  }

  /** Different counters give different styles. */
  lemma TableStyleDistinct(p: nat, s: nat, p': nat, s': nat)
    requires p < 2 && s < 2 && p' < 2 && s' < 2
    ensures TableStyle(p, s) == TableStyle(p', s') <==> p == p' && s == s'
  {
    if (p, s) != (p', s') {
      var t, t' := TableStyle(p, s), TableStyle(p', s');
      assert t[|t| - 3] != t'[|t'| - 3];
    }
  }
}
