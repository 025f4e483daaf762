/** The index-node query script: column widths for pretty printing, the
    search URL, the reading of a response document, the wide pivot of
    (id, field, value) triples, the command-line options and the paging
    loop. The HTTP reads and the printing are left to the caller: a response
    is a document tree given as a value, and the server's answers to the
    paged requests are a sequence. */
module EsgqueryIndex {
  import opened Wrappers
  import opened PyStr

  const DEFAULT_CHUNKSIZE: int := 1000
  const MAX_RECORDS: int := 10000000

  /** The three kinds of record a search returns. */
  datatype ObjType = Dataset | File | Model

  /** `typeName` */
  function TypeName(t: ObjType): Str {
    match t
    case Dataset => "Dataset"
    case File => "File"
    case Model => "Model"
  }

  /** `typeCode[c]`, None for an unknown code. */
  function TypeCode(c: Str): (r: Option<ObjType>)
    ensures r.Some? <==> c in {"d", "f", "m"}
  {
    if c == "d" then Some(Dataset) else if c == "f" then Some(File) else if c == "m" then Some(Model) else None
  }

  function Max(a: int, b: int): int {
    if a >= b then a else b
  }

  function Min(a: int, b: int): int {
    if a <= b then a else b
  }

  // ---------------------------------------------------------------------
  // Column widths
  // ---------------------------------------------------------------------

  /** `leng`: the length of a value, or 4 for None, the width of its text. */
  function Leng(item: Option<Str>): nat {
    if item.Some? then |item.value| else 4
  }

  function Lengs(t: seq<Option<Str>>): (r: seq<int>)
    ensures |r| == |t| && forall i :: 0 <= i < |t| ==> r[i] == Leng(t[i])
  {
    seq(|t|, i requires 0 <= i < |t| => Leng(t[i]))
  }

  /** Python 2 `map(max, a, b)`: the shorter list is padded with None,
      which is below every number. */
  function MaxPad(a: seq<int>, b: seq<int>): (r: seq<int>)
    ensures |r| == Max(|a|, |b|)
    ensures forall i :: 0 <= i < |r| ==> (i < |a| ==> a[i] <= r[i]) && (i < |b| ==> b[i] <= r[i])
    ensures forall i :: 0 <= i < |r| ==> (i < |a| && r[i] == a[i]) || (i < |b| && r[i] == b[i])
  {
    seq(Max(|a|, |b|), i requires 0 <= i < Max(|a|, |b|) =>
      if i < |a| && i < |b| then Max(a[i], b[i]) else if i < |a| then a[i] else b[i])
  }

  /** `getItemCount`: fold the tuples' widths into the header's. */
  function ItemCount(header: seq<Str>, tuples: seq<seq<Option<Str>>>): (r: seq<int>)
    decreases |tuples|
  {
    if |tuples| == 0 then seq(|header|, i requires 0 <= i < |header| => |header[i]|)
    else MaxPad(ItemCount(header, tuples[..|tuples| - 1]), Lengs(tuples[|tuples| - 1]))
  }

  /** The widest row, header included. */
  function MaxLen(header: seq<Str>, tuples: seq<seq<Option<Str>>>): (r: nat)
    ensures |header| <= r && forall k :: 0 <= k < |tuples| ==> |tuples[k]| <= r
    decreases |tuples|
  {
    if |tuples| == 0 then |header|
    else Max(MaxLen(header, tuples[..|tuples| - 1]), |tuples[|tuples| - 1]|)
  }

  /** Every column is as wide as the widest cell in it, header included,
      and no wider; ragged tuples widen the list. */
  lemma {:induction false} ItemCountIsMax(header: seq<Str>, tuples: seq<seq<Option<Str>>>)
    ensures var r := ItemCount(header, tuples);
            |r| == MaxLen(header, tuples) &&
            (forall i :: 0 <= i < |header| ==> |header[i]| <= r[i]) &&
            (forall k, i :: 0 <= k < |tuples| && 0 <= i < |tuples[k]| ==> Leng(tuples[k][i]) <= r[i]) &&
            (forall i :: 0 <= i < |r| ==>
               (i < |header| && r[i] == |header[i]|) ||
               exists k :: 0 <= k < |tuples| && i < |tuples[k]| && r[i] == Leng(tuples[k][i]))
    decreases |tuples|
  {
    if |tuples| > 0 {
      var n := |tuples|;
      var init := tuples[..n - 1];
      ItemCountIsMax(header, init);
      var r0 := ItemCount(header, init);
      var r := ItemCount(header, tuples);
      var last := Lengs(tuples[n - 1]);
      assert r == MaxPad(r0, last);
      forall k, i | 0 <= k < n && 0 <= i < |tuples[k]|
        ensures Leng(tuples[k][i]) <= r[i]
      {
        if k < n - 1 {
          assert tuples[k] == init[k];
        }
      }
      forall i | 0 <= i < |r|
        ensures (i < |header| && r[i] == |header[i]|) ||
                exists k :: 0 <= k < n && i < |tuples[k]| && r[i] == Leng(tuples[k][i])
      {
        if i < |r0| && r[i] == r0[i] {
          if !(i < |header| && r[i] == |header[i]|) {
            var k :| 0 <= k < |init| && i < |init[k]| && r0[i] == Leng(init[k][i]);
            assert tuples[k] == init[k];
          }
        } else {
          assert i < |last| && r[i] == last[i];
        }
      }
    }
  }

  // ---------------------------------------------------------------------
  // The search URL
  // ---------------------------------------------------------------------

  /** The caller's field list after `formulateQuery`: `id` is appended to
      a non-empty list that lacks it. */
  function QueryFields(fields: seq<Str>): (r: seq<Str>)
    ensures |fields| > 0 <==> "id" in r
    ensures |fields| <= |r| <= |fields| + 1 && r[..|fields|] == fields
  {
    if |fields| > 0 && "id" !in fields then fields + ["id"] else fields
  }

  /** The query parameters of `formulateQuery`, in order. */
  function QueryParams(facets: seq<(Str, Str)>, fields: seq<Str>, freetext: Option<Str>, objtype: ObjType,
                       offset: int, limit: int, facetValues: Option<seq<Str>>): seq<(Str, Str)>
  {
    var fs := QueryFields(fields);
    [("type", TypeName(objtype))] +
    (if facetValues.Some? then [("facets", Join(facetValues.value, ","))] else []) +
    (if freetext.Some? then [("query", freetext.value)] else []) +
    (if |fs| > 0 then [("fields", Join(fs, ","))] else []) +
    facets +
    [("offset", IntToStr(offset)), ("limit", IntToStr(limit))]
  }

  /** `key=value` */
  function Param(p: (Str, Str)): Str {
    p.0 + "=" + p.1
  }

  /** The result of `formulateQuery`: the URL, and the caller's field list
      as the call leaves it. */
  datatype Formulated = Formulated(url: Str, fields: seq<Str>)

  /** `formulateQuery` */
  function FormulateQuery(facets: seq<(Str, Str)>, fields: seq<Str>, freetext: Option<Str>, objtype: ObjType,
                          service: Str, offset: int, limit: int, facetValues: Option<seq<Str>>): (r: Formulated)
    ensures r.fields == QueryFields(fields)
    ensures StartsWith(r.url, service + "?")
  {
    var ps := QueryParams(facets, fields, freetext, objtype, offset, limit, facetValues);
    var url := service + "?" + Join(seq(|ps|, i requires 0 <= i < |ps| => Param(ps[i])), "&");
    assert url[..|service + "?"|] == service + "?";
    Formulated(url, QueryFields(fields))
  }

  /** Formulating again with the list the first call left behind does not
      change it any further. */
  lemma QueryFieldsSettle(fields: seq<Str>)
    ensures QueryFields(QueryFields(fields)) == QueryFields(fields)
  {
  }

  /** `s.split('=', 1)` */
  function SplitParam(s: Str): (r: (Str, Str))
  {
    var i := Find(s, "=");
    if i < 0 then (s, "") else (s[..i], s[i + 1..])
  }

  /** Reading a URL's parameters back: the text after the first `?`, split
      at `&`, each piece split at its first `=`. */
  function ReadParams(url: Str): seq<(Str, Str)>
  {
    var q := Find(url, "?");
    var pieces := Split(if q < 0 then [] else url[q + 1..], "&");
    seq(|pieces|, i requires 0 <= i < |pieces| => SplitParam(pieces[i]))
  }

  /** Parameters the URL syntax carries unchanged. */
  predicate ParamsClean(ps: seq<(Str, Str)>) {
    forall i :: 0 <= i < |ps| ==> '=' !in ps[i].0 && '&' !in ps[i].0 && '&' !in ps[i].1
  }

  lemma ParamRoundTrip(p: (Str, Str))
    requires '=' !in p.0
    ensures SplitParam(Param(p)) == p
  {
    var s := Param(p);
    FindChar(s, '=');
    assert s[|p.0|] == '=';
    assert '=' !in s[..|p.0|] by {
      assert s[..|p.0|] == p.0;
    }
    assert s[..|p.0|] == p.0 && s[|p.0| + 1..] == p.1;
  }

  /** A URL built from clean parameters reads back as those parameters. */
  lemma {:induction false} ReadParamsOfUrl(service: Str, ps: seq<(Str, Str)>)
    requires '?' !in service && |ps| >= 1 && ParamsClean(ps)
    ensures ReadParams(service + "?" + Join(seq(|ps|, i requires 0 <= i < |ps| => Param(ps[i])), "&")) == ps
  {
    var parts := seq(|ps|, i requires 0 <= i < |ps| => Param(ps[i]));
    var url := service + "?" + Join(parts, "&");
    FindChar(url, '?');
    assert url[|service|] == '?';
    assert url[..|service|] == service;
    assert url[|service| + 1..] == Join(parts, "&");
    forall k | 0 <= k < |parts|
      ensures '&' !in parts[k]
    {
      assert parts[k] == ps[k].0 + "=" + ps[k].1;
    }
    SplitJoinChar(parts, '&');
    forall k | 0 <= k < |ps|
      ensures SplitParam(parts[k]) == ps[k]
    {
      ParamRoundTrip(ps[k]);
    }
  }

  /** The search URL reads back as: the type, the facet list when asked
      for, the free text, the fields with `id`, the facet constraints in
      order, then the offset and limit, which parse back as numbers. */
  lemma FormulateQueryParams(facets: seq<(Str, Str)>, fields: seq<Str>, freetext: Option<Str>, objtype: ObjType,
                             service: Str, offset: int, limit: int, facetValues: Option<seq<Str>>)
    requires '?' !in service
    requires ParamsClean(QueryParams(facets, fields, freetext, objtype, offset, limit, facetValues))
    ensures var ps := ReadParams(FormulateQuery(facets, fields, freetext, objtype, service, offset, limit, facetValues).url);
            ps == QueryParams(facets, fields, freetext, objtype, offset, limit, facetValues) &&
            ps[0] == ("type", TypeName(objtype)) &&
            ps[|ps| - 2].0 == "offset" && ParseInt(ps[|ps| - 2].1) == Some(offset) &&
            ps[|ps| - 1].0 == "limit" && ParseInt(ps[|ps| - 1].1) == Some(limit) &&
            ps[|ps| - 2 - |facets|..|ps| - 2] == facets
  {
    var ps := QueryParams(facets, fields, freetext, objtype, offset, limit, facetValues);
    ReadParamsOfUrl(service, ps);
    ParseIntToStr(offset);
    ParseIntToStr(limit);
  }

  // ---------------------------------------------------------------------
  // Reading a response
  // ---------------------------------------------------------------------

  /** An XML element: its tag, its attributes, its text (None when the
      element has none) and its children in document order. */
  datatype Node = Node(tag: Str, attrs: map<Str, Str>, text: Option<Str>, children: seq<Node>)

  /** `elem.get(name)` */
  function Attr(n: Node, name: Str): (r: Option<Str>)
    ensures r.Some? <==> name in n.attrs
    ensures r.Some? ==> r.value == n.attrs[name]
  {
    if name in n.attrs then Some(n.attrs[name]) else None
  }

  /** One parsed value: the record's id, the field and the value, each None
      where the document leaves it out. */
  datatype Triple = Triple(objid: Option<Str>, field: Option<Str>, value: Option<Str>)

  type Pair = (Option<Str>, Option<Str>)

  predicate IsIdElem(e: Node) {
    Attr(e, "name") == Some("id")
  }

  /** The `str` children of an array, each as a value of the array's field. */
  function StrPairs(name: Option<Str>, subs: seq<Node>): (r: seq<Pair>)
    ensures |r| <= |subs|
    ensures forall k :: 0 <= k < |r| ==> r[k].0 == name
    ensures forall j :: 0 <= j < |subs| && subs[j].tag == "str" ==> (name, subs[j].text) in r
    decreases |subs|
  {
    if |subs| == 0 then []
    else
      var last := subs[|subs| - 1];
      StrPairs(name, subs[..|subs| - 1]) + (if last.tag == "str" then [(name, last.text)] else [])
  }

  /** The (field, value) pairs one element of a record contributes. */
  function ElemPairs(e: Node, includeId: bool): seq<Pair> {
    if IsIdElem(e) then (if includeId then [(Some("id"), e.text)] else [])
    else if e.tag == "arr" then StrPairs(Attr(e, "name"), e.children)
    else [(Attr(e, "name"), e.text)]
  }

  /** The loop over one record's elements: the id seen last (`''` before
      any `id` element) and the pairs gathered so far. */
  datatype DocState = DocState(objid: Option<Str>, pairs: seq<Pair>)

  function DocWalk(elems: seq<Node>, includeId: bool): (r: DocState)
    decreases |elems|
  {
    if |elems| == 0 then DocState(Some(""), [])
    else
      var st := DocWalk(elems[..|elems| - 1], includeId);
      var e := elems[|elems| - 1];
      DocState(if IsIdElem(e) then e.text else st.objid, st.pairs + ElemPairs(e, includeId))
  }

  /** The triples of one record: every pair, stamped with the record's id. */
  function DocTriples(doc: Node, includeId: bool): (r: seq<Triple>)
    ensures var st := DocWalk(doc.children, includeId);
            |r| == |st.pairs| &&
            forall k :: 0 <= k < |r| ==> r[k] == Triple(st.objid, st.pairs[k].0, st.pairs[k].1)
  {
    var st := DocWalk(doc.children, includeId);
    seq(|st.pairs|, k requires 0 <= k < |st.pairs| => Triple(st.objid, st.pairs[k].0, st.pairs[k].1))
  }

  /** The id after one more element: its text if it is an `id` element,
      the id so far otherwise. */
  lemma DocWalkIdStep(elems: seq<Node>, includeId: bool)
    requires |elems| > 0
    ensures var e := elems[|elems| - 1];
            DocWalk(elems, includeId).objid
              == if IsIdElem(e) then e.text else DocWalk(elems[..|elems| - 1], includeId).objid
  {
  }

  /** A record without an `id` element has the id `''`. */
  lemma {:induction false} DocWalkNoId(elems: seq<Node>, includeId: bool)
    requires forall i :: 0 <= i < |elems| ==> !IsIdElem(elems[i])
    ensures DocWalk(elems, includeId).objid == Some("")
    decreases |elems|
  {
    if |elems| > 0 {
      var init := elems[..|elems| - 1];
      forall i | 0 <= i < |init|
        ensures !IsIdElem(init[i])
      {
        assert init[i] == elems[i];
      }
      DocWalkNoId(init, includeId);
      DocWalkIdStep(elems, includeId);
    }
  }

  /** A record's id is the text of its last `id` element, whatever comes
      after it. */
  lemma {:induction false} DocWalkLastId(elems: seq<Node>, includeId: bool, i: int)
    requires 0 <= i < |elems| && IsIdElem(elems[i])
    requires forall j :: i < j < |elems| ==> !IsIdElem(elems[j])
    ensures DocWalk(elems, includeId).objid == elems[i].text
    decreases |elems|
  {
    var n := |elems|;
    DocWalkIdStep(elems, includeId);
    if i < n - 1 {
      var init := elems[..n - 1];
      assert !IsIdElem(elems[n - 1]);
      assert init[i] == elems[i];
      forall j | i < j < n - 1
        ensures !IsIdElem(init[j])
      {
        assert init[j] == elems[j];
      }
      DocWalkLastId(init, includeId, i);
    }
  }

  /** Without `includeId`, no pair is an `id` pair. */
  lemma {:induction false} DocWalkNoIdPair(elems: seq<Node>)
    ensures forall k :: 0 <= k < |DocWalk(elems, false).pairs| ==> DocWalk(elems, false).pairs[k].0 != Some("id")
    decreases |elems|
  {
    if |elems| > 0 {
      var n := |elems|;
      var init := elems[..n - 1];
      DocWalkNoIdPair(init);
      var ps0 := DocWalk(init, false).pairs;
      var e := elems[n - 1];
      var extra := ElemPairs(e, false);
      var ps := DocWalk(elems, false).pairs;
      assert ps == ps0 + extra;
      forall k | 0 <= k < |extra|
        ensures extra[k].0 != Some("id")
      {
        if !IsIdElem(e) && e.tag != "arr" {
          assert extra == [(Attr(e, "name"), e.text)];
        }
      }
    }
  }

  /** Every element's pairs end up in the record's pairs. */
  lemma {:induction false} DocWalkContains(elems: seq<Node>, includeId: bool, i: int)
    requires 0 <= i < |elems|
    ensures forall x :: x in ElemPairs(elems[i], includeId) ==> x in DocWalk(elems, includeId).pairs
    decreases |elems|
  {
    var n := |elems|;
    var init := elems[..n - 1];
    var ps0 := DocWalk(init, includeId).pairs;
    var extra := ElemPairs(elems[n - 1], includeId);
    DocWalkPairsStep(elems, includeId);
    if i < n - 1 {
      assert elems[i] == init[i];
      DocWalkContains(init, includeId, i);
    }
    forall x | x in ElemPairs(elems[i], includeId)
      ensures x in ps0 + extra
    {
      if i < n - 1 {
        assert x in ps0;
      }
    }
  }

  /** The pairs after one more element: those so far, then its own. */
  lemma DocWalkPairsStep(elems: seq<Node>, includeId: bool)
    requires |elems| > 0
    ensures DocWalk(elems, includeId).pairs
              == DocWalk(elems[..|elems| - 1], includeId).pairs + ElemPairs(elems[|elems| - 1], includeId)
  {
  }

  /** Every scalar element gives its (name, text) pair, every `str` child
      of an array its (array name, text) pair, and every `id` element its
      pair when asked for. */
  lemma DocWalkPairs(elems: seq<Node>, includeId: bool)
    ensures var ps := DocWalk(elems, includeId).pairs;
            (forall i :: 0 <= i < |elems| && !IsIdElem(elems[i]) && elems[i].tag != "arr" ==>
               (Attr(elems[i], "name"), elems[i].text) in ps) &&
            (forall i, j ::
               (0 <= i < |elems| && !IsIdElem(elems[i]) && elems[i].tag == "arr" &&
                0 <= j < |elems[i].children| && elems[i].children[j].tag == "str") ==>
               (Attr(elems[i], "name"), elems[i].children[j].text) in ps) &&
            (includeId ==> forall i :: 0 <= i < |elems| && IsIdElem(elems[i]) ==> (Some("id"), elems[i].text) in ps)
  {
    forall i | 0 <= i < |elems|
      ensures forall x :: x in ElemPairs(elems[i], includeId) ==> x in DocWalk(elems, includeId).pairs
    {
      DocWalkContains(elems, includeId, i);
    }
  }

  /** The outcome of `parseResponse`: the triples, the server's total and
      the number of records in this chunk. */
  datatype Response = Response(results: seq<Triple>, numFound: int, numDocs: nat)

  /** `int(elem.get(name))`: a missing attribute is a TypeError, text that
      is not a number a ValueError. */
  function IntAttr(n: Node, name: Str): (r: Result<int, PyError>)
    ensures name !in n.attrs ==> r == Failure(TypeError)
    ensures name in n.attrs ==> (r.Success? <==> ParseInt(n.attrs[name]).Some?)
    ensures r.Success? ==> ParseInt(n.attrs[name]) == Some(r.value)
    ensures r.Failure? ==> r.error in {TypeError, ValueError}
  {
    match Attr(n, name)
    case None => Failure(TypeError)
    case Some(s) =>
      match ParseInt(s)
      case None => Failure(ValueError)
      case Some(v) => Success(v)
  }

  /** The triples of the records in order. */
  function AllTriples(docs: seq<Node>, includeId: bool): seq<Triple>
    decreases |docs|
  {
    if |docs| == 0 then [] else AllTriples(docs[..|docs| - 1], includeId) + DocTriples(docs[|docs| - 1], includeId)
  }

  /** `parseResponse`: the second child of the root holds the records and
      the `numFound` and `start` attributes. */
  function ParseResponse(root: Node, includeId: bool): (r: Result<Response, PyError>)
    ensures |root.children| < 2 ==> r == Failure(IndexError)
    ensures |root.children| >= 2 ==>
              var result := root.children[1];
              (r.Success? <==> IntAttr(result, "numFound").Success? && IntAttr(result, "start").Success?) &&
              (IntAttr(result, "numFound").Failure? ==> r == Failure(IntAttr(result, "numFound").error)) &&
              (r.Success? ==> r.value.numFound == IntAttr(result, "numFound").value &&
                              r.value.numDocs == |result.children|)
  {
    if |root.children| < 2 then Failure(IndexError)
    else
      var result := root.children[1];
      var numFound :- IntAttr(result, "numFound");
      var start :- IntAttr(result, "start");
      Success(Response(AllTriples(result.children, includeId), numFound, |result.children|))
  }

  /** Every record's triples are in the response, and every triple carries
      a record's id; without `includeId` no triple is an `id` triple. */
  lemma AllTriplesSpec(docs: seq<Node>, includeId: bool)
    ensures var ts := AllTriples(docs, includeId);
            (forall d, k :: 0 <= d < |docs| && 0 <= k < |DocTriples(docs[d], includeId)| ==> DocTriples(docs[d], includeId)[k] in ts) &&
            (forall t :: t in ts ==> exists d :: 0 <= d < |docs| && t.objid == DocWalk(docs[d].children, includeId).objid) &&
            (!includeId ==> forall t :: t in ts ==> t.field != Some("id"))
  {
    AllTriplesHas(docs, includeId);
    AllTriplesIds(docs, includeId);
    if !includeId {
      AllTriplesNoId(docs);
    }
  }

  /** Every record's triples are in the response. */
  lemma {:induction false} AllTriplesHas(docs: seq<Node>, includeId: bool)
    ensures forall d, k :: 0 <= d < |docs| && 0 <= k < |DocTriples(docs[d], includeId)| ==>
              DocTriples(docs[d], includeId)[k] in AllTriples(docs, includeId)
    decreases |docs|
  {
    if |docs| > 0 {
      var n := |docs|;
      var init := docs[..n - 1];
      AllTriplesHas(init, includeId);
      var ts0 := AllTriples(init, includeId);
      var last := DocTriples(docs[n - 1], includeId);
      assert AllTriples(docs, includeId) == ts0 + last;
      forall d, k | 0 <= d < n && 0 <= k < |DocTriples(docs[d], includeId)|
        ensures DocTriples(docs[d], includeId)[k] in ts0 + last
      {
        if d < n - 1 {
          assert docs[d] == init[d];
          assert DocTriples(init[d], includeId)[k] in ts0;
        } else {
          assert DocTriples(docs[d], includeId)[k] == last[k];
        }
      }
    }
  }

  /** Every triple of the response carries a record's id. */
  lemma {:induction false} AllTriplesIds(docs: seq<Node>, includeId: bool)
    ensures forall t :: t in AllTriples(docs, includeId) ==>
              exists d :: 0 <= d < |docs| && t.objid == DocWalk(docs[d].children, includeId).objid
    decreases |docs|
  {
    if |docs| > 0 {
      var n := |docs|;
      var init := docs[..n - 1];
      AllTriplesIds(init, includeId);
      var last := DocTriples(docs[n - 1], includeId);
      assert AllTriples(docs, includeId) == AllTriples(init, includeId) + last;
      forall t | t in AllTriples(docs, includeId)
        ensures exists d :: 0 <= d < n && t.objid == DocWalk(docs[d].children, includeId).objid
      {
        if t in last {
          var k :| 0 <= k < |last| && last[k] == t;
          assert t.objid == DocWalk(docs[n - 1].children, includeId).objid;
        } else {
          var d :| 0 <= d < n - 1 && t.objid == DocWalk(init[d].children, includeId).objid;
          assert init[d] == docs[d];
        }
      }
    }
  }

  /** Without `includeId` no triple of the response is an `id` triple. */
  lemma {:induction false} AllTriplesNoId(docs: seq<Node>)
    ensures forall t :: t in AllTriples(docs, false) ==> t.field != Some("id")
    decreases |docs|
  {
    if |docs| > 0 {
      var n := |docs|;
      var init := docs[..n - 1];
      AllTriplesNoId(init);
      var last := DocTriples(docs[n - 1], false);
      DocWalkNoIdPair(docs[n - 1].children);
      assert AllTriples(docs, false) == AllTriples(init, false) + last;
      forall t | t in last
        ensures t.field != Some("id")
      {
        var k :| 0 <= k < |last| && last[k] == t;
      }
    }
  }

  // ---------------------------------------------------------------------
  // The wide pivot
  // ---------------------------------------------------------------------

  /** An id or a field name as the pivot sees it. */
  type Key = Option<Str>

  /** Python 2 ordering of keys: None sorts before every string. */
  predicate KeyLess(a: Key, b: Key) {
    b.Some? && (a.None? || StrLess(a.value, b.value))
  }

  lemma KeyLessIrreflexive(a: Key)
    ensures !KeyLess(a, a)
  {
    if a.Some? {
      StrLessIrreflexive(a.value);
    }
  }

  lemma KeyLessTrans(a: Key, b: Key, c: Key)
    requires KeyLess(a, b) && KeyLess(b, c)
    ensures KeyLess(a, c)
  {
    if a.Some? {
      StrLessTrans(a.value, b.value, c.value);
    }
  }

  lemma KeyLessTotal(a: Key, b: Key)
    requires a != b
    ensures KeyLess(a, b) || KeyLess(b, a)
  {
    if a.Some? && b.Some? {
      StrLessTotal(a.value, b.value);
    }
  }

  predicate StrictlySorted(s: seq<Key>) {
    forall i, j :: 0 <= i < j < |s| ==> KeyLess(s[i], s[j])
  }

  /** Add a key to an ascending list unless it is already there. */
  function Insert(x: Key, s: seq<Key>): (r: seq<Key>)
    ensures forall y :: y in r <==> y == x || y in s
    decreases |s|
  {
    if |s| == 0 then [x]
    else if x == s[0] then s
    else if KeyLess(x, s[0]) then [x] + s
    else [s[0]] + Insert(x, s[1..])
  }

  lemma {:induction false} InsertSorted(x: Key, s: seq<Key>)
    requires StrictlySorted(s)
    ensures StrictlySorted(Insert(x, s))
    decreases |s|
  {
    if |s| > 0 && x != s[0] {
      if KeyLess(x, s[0]) {
        var r := [x] + s;
        forall i, j | 0 <= i < j < |r|
          ensures KeyLess(r[i], r[j])
        {
          if i == 0 && j > 1 {
            KeyLessTrans(x, s[0], s[j - 1]);
          }
        }
      } else {
        KeyLessTotal(x, s[0]);
        InsertSorted(x, s[1..]);
        var t := Insert(x, s[1..]);
        var r := [s[0]] + t;
        forall i, j | 0 <= i < j < |r|
          ensures KeyLess(r[i], r[j])
        {
          if i == 0 {
            var y := r[j];
            assert y == t[j - 1];
            assert y in t;
            if y != x {
              var m :| 0 <= m < |s| - 1 && s[1..][m] == y;
              assert s[m + 1] == y;
            }
          } else {
            assert r[i] == t[i - 1] && r[j] == t[j - 1];
          }
        }
      }
    }
  }

  /** `l = list(set(keys)); l.sort()` */
  function SortKeys(keys: seq<Key>): (r: seq<Key>)
    ensures forall y :: y in r <==> y in keys
    decreases |keys|
  {
    if |keys| == 0 then []
    else
      var n := |keys|;
      assert keys == keys[..n - 1] + [keys[n - 1]];
      Insert(keys[n - 1], SortKeys(keys[..n - 1]))
  }

  lemma {:induction false} SortKeysSorted(keys: seq<Key>)
    ensures StrictlySorted(SortKeys(keys))
    decreases |keys|
  {
    if |keys| > 0 {
      SortKeysSorted(keys[..|keys| - 1]);
      InsertSorted(keys[|keys| - 1], SortKeys(keys[..|keys| - 1]));
    }
  }

  /** Two ascending lists with the same members are the same list: the
      order in which a set hands out its members does not show. */
  lemma {:induction false} SortedUnique(a: seq<Key>, b: seq<Key>)
    requires StrictlySorted(a) && StrictlySorted(b)
    requires forall y :: y in a <==> y in b
    ensures a == b
    decreases |a|
  {
    if |b| > 0 {
      assert b[0] in a;
    }
    if |a| > 0 {
      assert a[0] in b;
      if a[0] != b[0] {
        var i :| 0 <= i < |a| && a[i] == b[0];
        var j :| 0 <= j < |b| && b[j] == a[0];
        KeyLessTrans(a[0], b[0], a[0]);
        KeyLessIrreflexive(a[0]);
        assert false;
      }
      forall y
        ensures y in a[1..] <==> y in b[1..]
      {
        if y in a[1..] {
          var i :| 0 <= i < |a| - 1 && a[1..][i] == y;
          assert KeyLess(a[0], a[i + 1]);
          KeyLessIrreflexive(y);
          assert y in b && y != b[0];
          var j :| 0 <= j < |b| && b[j] == y;
          assert b[1..][j - 1] == y;
        }
        if y in b[1..] {
          var j :| 0 <= j < |b| - 1 && b[1..][j] == y;
          assert KeyLess(b[0], b[j + 1]);
          KeyLessIrreflexive(y);
          assert y in a && y != a[0];
          var i :| 0 <= i < |a| && a[i] == y;
          assert a[1..][i - 1] == y;
        }
      }
      SortedUnique(a[1..], b[1..]);
      assert a == [a[0]] + a[1..] && b == [b[0]] + b[1..];
    }
  }

  /** The cell a triple fills: (id, field). */
  function CellOf(t: Triple): (Key, Key) {
    (t.objid, t.field)
  }

  /** `valueDict[(objid, field)] = value`, triple by triple. */
  function ValueDict(results: seq<Triple>): map<(Key, Key), Option<Str>>
    decreases |results|
  {
    if |results| == 0 then map[]
    else
      var last := results[|results| - 1];
      ValueDict(results[..|results| - 1])[CellOf(last) := last.value]
  }

  /** The table holds a cell exactly when some triple fills it, and then
      the value of the last triple that fills it. */
  lemma ValueDictLastWins(results: seq<Triple>)
    ensures var d := ValueDict(results);
            (forall c :: c in d ==> exists k :: 0 <= k < |results| && CellOf(results[k]) == c) &&
            forall k :: 0 <= k < |results| && (forall m :: k < m < |results| ==> CellOf(results[m]) != CellOf(results[k])) ==>
              CellOf(results[k]) in d && d[CellOf(results[k])] == results[k].value
  {
    ValueDictCells(results);
    ValueDictLast(results);
  }

  /** Every cell of the table is filled by some triple. */
  lemma {:induction false} ValueDictCells(results: seq<Triple>)
    ensures forall c :: c in ValueDict(results) ==> exists k :: 0 <= k < |results| && CellOf(results[k]) == c
    decreases |results|
  {
    if |results| > 0 {
      var n := |results|;
      var init := results[..n - 1];
      ValueDictCells(init);
      var d := ValueDict(results);
      assert d == ValueDict(init)[CellOf(results[n - 1]) := results[n - 1].value];
      forall c | c in d
        ensures exists k :: 0 <= k < n && CellOf(results[k]) == c
      {
        if c != CellOf(results[n - 1]) {
          var k :| 0 <= k < n - 1 && CellOf(init[k]) == c;
          assert results[k] == init[k];
        }
      }
    }
  }

  /** A triple that no later triple overwrites leaves its value in its
      cell. */
  lemma {:induction false} ValueDictLast(results: seq<Triple>)
    ensures forall k :: 0 <= k < |results| && (forall m :: k < m < |results| ==> CellOf(results[m]) != CellOf(results[k])) ==>
              CellOf(results[k]) in ValueDict(results) && ValueDict(results)[CellOf(results[k])] == results[k].value
    decreases |results|
  {
    if |results| > 0 {
      var n := |results|;
      var init := results[..n - 1];
      ValueDictLast(init);
      var d := ValueDict(results);
      assert d == ValueDict(init)[CellOf(results[n - 1]) := results[n - 1].value];
      forall k | 0 <= k < n && (forall m :: k < m < n ==> CellOf(results[m]) != CellOf(results[k]))
        ensures CellOf(results[k]) in d && d[CellOf(results[k])] == results[k].value
      {
        if k < n - 1 {
          assert results[k] == init[k];
          forall m | k < m < n - 1
            ensures CellOf(init[m]) != CellOf(init[k])
          {
            assert init[m] == results[m];
          }
          assert CellOf(results[n - 1]) != CellOf(results[k]);
        }
      }
    }
  }

  /** The ids of the triples. */
  function Ids(results: seq<Triple>): (r: seq<Key>)
    ensures forall y :: y in r <==> exists k :: 0 <= k < |results| && results[k].objid == y
  {
    var ks := seq(|results|, k requires 0 <= k < |results| => results[k].objid);
    assert forall y :: y in ks <==> exists k :: 0 <= k < |results| && results[k].objid == y by {
      forall y | y in ks
        ensures exists k :: 0 <= k < |results| && results[k].objid == y
      {
        var k :| 0 <= k < |ks| && ks[k] == y;
      }
      forall y | exists k :: 0 <= k < |results| && results[k].objid == y
        ensures y in ks
      {
        var k :| 0 <= k < |results| && results[k].objid == y;
        assert ks[k] == y;
      }
    }
    SortKeys(ks)
  }

  /** The field names of the triples other than `id`. */
  function FieldNames(results: seq<Triple>): (r: seq<Key>)
    ensures forall y :: y in r <==> y != Some("id") && exists k :: 0 <= k < |results| && results[k].field == y
    decreases |results|
  {
    if |results| == 0 then []
    else
      var n := |results|;
      var init := FieldNames(results[..n - 1]);
      var f := results[n - 1].field;
      assert forall k :: 0 <= k < n - 1 ==> results[..n - 1][k] == results[k];
      if f == Some("id") then init else init + [f]
  }

  /** The columns: the sorted field names, `id` left out. */
  function FieldList(results: seq<Triple>): (r: seq<Key>)
    ensures forall y :: y in r <==> y != Some("id") && exists k :: 0 <= k < |results| && results[k].field == y
  {
    SortKeys(FieldNames(results))
  }

  /** A cell of the wide table: the value, or `''` when no triple fills it. */
  function CellValue(d: map<(Key, Key), Option<Str>>, obj: Key, field: Key): Option<Str> {
    if (obj, field) in d then d[(obj, field)] else Some("")
  }

  /** The header of the wide table. */
  function WideHeader(results: seq<Triple>): (r: seq<Key>)
    ensures |r| >= 1 && r[0] == Some("id") && r[1..] == FieldList(results)
  {
    [Some("id")] + FieldList(results)
  }

  /** The rows of the wide table: one per id, the id first, then one cell
      per column. */
  function WideRows(results: seq<Triple>): (rows: seq<seq<Option<Str>>>)
    ensures |rows| == |Ids(results)|
    ensures forall i :: 0 <= i < |rows| ==> |rows[i]| == 1 + |FieldList(results)| && rows[i][0] == Ids(results)[i]
  {
    var d := ValueDict(results);
    var objs := Ids(results);
    var fs := FieldList(results);
    seq(|objs|, i requires 0 <= i < |objs| =>
      [objs[i]] + seq(|fs|, j requires 0 <= j < |fs| => CellValue(d, objs[i], fs[j])))
  }

  /** The wide table has one row per distinct id in ascending order and one
      column per distinct field other than `id` in ascending order; a cell
      holds the value of the last triple for its (id, field) and `''` when
      there is none. */
  lemma WidePivot(results: seq<Triple>)
    ensures StrictlySorted(Ids(results)) && StrictlySorted(FieldList(results))
    ensures var rows := WideRows(results);
            var objs := Ids(results);
            var fs := FieldList(results);
            (forall i, j, k ::
               (0 <= i < |rows| && 0 <= j < |fs| && 0 <= k < |results| &&
                CellOf(results[k]) == (objs[i], fs[j]) &&
                (forall m :: k < m < |results| ==> CellOf(results[m]) != CellOf(results[k]))) ==>
               rows[i][j + 1] == results[k].value) &&
            (forall i, j ::
               (0 <= i < |rows| && 0 <= j < |fs| &&
                (forall k :: 0 <= k < |results| ==> CellOf(results[k]) != (objs[i], fs[j]))) ==>
               rows[i][j + 1] == Some(""))
  {
    var ks := seq(|results|, k requires 0 <= k < |results| => results[k].objid);
    SortKeysSorted(ks);
    SortKeysSorted(FieldNames(results));
    WideCells(results);
    ValueDictLastWins(results);
  }

  /** A cell of the wide table is the table entry of its id and field,
      or `''` when the entry is missing. */
  lemma WideCells(results: seq<Triple>)
    ensures var rows := WideRows(results);
            var objs := Ids(results);
            var fs := FieldList(results);
            var d := ValueDict(results);
            (forall i, j ::
               (0 <= i < |rows| && 0 <= j < |fs| && (objs[i], fs[j]) in d) ==> rows[i][j + 1] == d[(objs[i], fs[j])]) &&
            (forall i, j ::
               (0 <= i < |rows| && 0 <= j < |fs| && (objs[i], fs[j]) !in d) ==> rows[i][j + 1] == Some(""))
  {
    var rows := WideRows(results);
    var objs := Ids(results);
    var fs := FieldList(results);
    var d := ValueDict(results);
    forall i, j | 0 <= i < |rows| && 0 <= j < |fs|
      ensures rows[i][j + 1] == CellValue(d, objs[i], fs[j])
    {
      assert rows[i] == [objs[i]] + seq(|fs|, j requires 0 <= j < |fs| => CellValue(d, objs[i], fs[j]));
    }
  }

  // ---------------------------------------------------------------------
  // Command-line options
  // ---------------------------------------------------------------------

  datatype Format = Narrow | Wide

  /** The settings `preoutput` gathers from its options. */
  datatype Options = Options(
    countOnly: bool, delim: Option<Str>, facets: seq<(Str, Str)>, facetValues: Option<seq<Str>>,
    allFacets: bool, fields: seq<Str>, format: Format, freetext: Option<Str>, includeId: bool,
    objtype: ObjType, outpath: Option<Str>, prettyPrint: bool, service: Str, userLimit: int, verbose: bool)

  /** The settings before any option; `service` is the configured search URL. */
  function Defaults(service: Str): (o: Options)
    ensures !o.includeId && o.format == Narrow && o.userLimit == MAX_RECORDS && o.facets == [] && o.fields == []
  {
    Options(false, None, [], None, false, [], Narrow, None, false, Dataset, None, false, service, MAX_RECORDS, false)
  }

  /** Where option handling ends: the settings, the usage text (`-h`), or
      an exception. */
  datatype Outcome = Run(opts: Options) | Usage | Raised(error: PyError)

  /** `[item.strip() for item in arg.split(',')]` */
  function CommaList(arg: Str): (r: seq<Str>)
    ensures |r| == |Split(arg, ",")| && |r| >= 1
    ensures forall k :: 0 <= k < |r| ==> r[k] == Strip(Split(arg, ",")[k])
  {
    var parts := Split(arg, ",");
    seq(|parts|, k requires 0 <= k < |parts| => Strip(parts[k]))
  }

  /** The constraints of one `-q` argument, given its comma-separated
      pieces: each piece must split at `=` into exactly two parts, which
      are stripped; otherwise the unpacking raises ValueError. */
  function FacetQuery(pieces: seq<Str>): (r: Result<seq<(Str, Str)>, PyError>)
    ensures r.Success? <==> forall k :: 0 <= k < |pieces| ==> |Split(pieces[k], "=")| == 2
    ensures r.Failure? ==> r.error == ValueError
    ensures r.Success? ==>
              |r.value| == |pieces| &&
              forall k :: 0 <= k < |pieces| ==>
                r.value[k] == (Strip(Split(pieces[k], "=")[0]), Strip(Split(pieces[k], "=")[1]))
    decreases |pieces|
  {
    if |pieces| == 0 then Success([])
    else
      var fv := Split(pieces[0], "=");
      if |fv| != 2 then Failure(ValueError)
      else
        var rest := FacetQuery(pieces[1..]);
        assert forall k :: 1 <= k < |pieces| ==> pieces[k] == pieces[1..][k - 1];
        if rest.Failure? then Failure(rest.error)
        else Success([(Strip(fv[0]), Strip(fv[1]))] + rest.value)
  }

  /** One option as `getopt` hands it over. */
  function ApplyFlag(o: Options, flag: Str, arg: Str): (r: Outcome)
    ensures r.Run? ==> r.opts.includeId == o.includeId
  {
    if flag == "--count" then Run(o.(countOnly := true))
    else if flag == "-d" || flag == "--delimiter" then Run(o.(delim := Some(arg), prettyPrint := false))
    else if flag == "--facets" then
      var fv := CommaList(arg);
      Run(o.(facetValues := Some(fv), allFacets := fv[0] == "*"))
    else if flag == "--fields" then Run(o.(fields := CommaList(arg)))
    else if flag == "--format" then
      if arg == "narrow" then Run(o.(format := Narrow))
      else if arg == "wide" then Run(o.(format := Wide))
      else Raised(RuntimeError)
    else if flag == "-h" || flag == "--help" then Usage
    else if flag == "--limit" then
      match ParseInt(arg)
      case Some(n) => Run(o.(userLimit := n))
      case None => Raised(RuntimeError)
    else if flag == "-o" then Run(o.(outpath := Some(arg)))
    else if flag == "-p" || flag == "--pretty-print" then Run(o.(prettyPrint := true))
    else if flag == "-q" || flag == "--facet-query" then
      match FacetQuery(Split(arg, ","))
      case Success(fs) => Run(o.(facets := o.facets + fs))
      case Failure(e) => Raised(e)
    else if flag == "--service-url" then Run(o.(service := arg))
    else if flag == "-t" || flag == "--free-text" then Run(o.(freetext := Some(arg)))
    else if flag == "--type" then
      match TypeCode(arg)
      case Some(t) => Run(o.(objtype := t))
      case None => Raised(RuntimeError)
    else if flag == "-v" || flag == "--verbose" then Run(o.(verbose := true))
    else Run(o)
  }

  /** The options in order; the first that stops the script decides. */
  function ApplyFlags(o: Options, flags: seq<(Str, Str)>): Outcome
    decreases |flags|
  {
    if |flags| == 0 then Run(o)
    else
      match ApplyFlag(o, flags[0].0, flags[0].1)
      case Run(o1) => ApplyFlags(o1, flags[1..])
      case other => other
  }

  /** After the options: an id-only field list and a facet-value query
      both force the wide format, and the former asks for `id` triples. */
  function FinishOptions(o: Options): (r: Options)
    ensures r.format == (if o.fields == ["id"] || o.facetValues.Some? then Wide else o.format)
    ensures r.includeId == (o.includeId || o.fields == ["id"])
    ensures r == o.(format := r.format, includeId := r.includeId)
  {
    var o1 := if o.fields == ["id"] then o.(format := Wide, includeId := true) else o;
    if o1.facetValues.Some? then o1.(format := Wide) else o1
  }

  /** The option handling of `preoutput`. */
  function ParseOptions(service: Str, flags: seq<(Str, Str)>): Outcome {
    match ApplyFlags(Defaults(service), flags)
    case Run(o) => Run(FinishOptions(o))
    case other => other
  }

  lemma {:induction false} ApplyFlagsAppend(o: Options, a: seq<(Str, Str)>, b: seq<(Str, Str)>)
    ensures ApplyFlags(o, a + b) == match ApplyFlags(o, a) case Run(o1) => ApplyFlags(o1, b) case other => other
    decreases |a|
  {
    if |a| > 0 {
      assert (a + b)[0] == a[0] && (a + b)[1..] == a[1..] + b;
      match ApplyFlag(o, a[0].0, a[0].1)
      case Run(o1) => ApplyFlagsAppend(o1, a[1..], b);
      case other =>
    } else {
      assert a + b == b;
    }
  }

  /** `-h` ends option handling with the usage text, whatever follows it. */
  lemma HelpStops(service: Str, pre: seq<(Str, Str)>, arg: Str, post: seq<(Str, Str)>)
    requires ApplyFlags(Defaults(service), pre).Run?
    ensures ParseOptions(service, pre + [("-h", arg)] + post) == Usage
    ensures ParseOptions(service, pre + [("--help", arg)] + post) == Usage
  {
    var o := ApplyFlags(Defaults(service), pre).opts;
    ApplyFlagsAppend(Defaults(service), pre, [("-h", arg)] + post);
    ApplyFlagsAppend(Defaults(service), pre, [("--help", arg)] + post);
    assert pre + [("-h", arg)] + post == pre + ([("-h", arg)] + post);
    assert pre + [("--help", arg)] + post == pre + ([("--help", arg)] + post);
  }

  /** No option sets `includeId` by itself. */
  lemma {:induction false} ApplyFlagsKeepIncludeId(o: Options, flags: seq<(Str, Str)>)
    ensures ApplyFlags(o, flags).Run? ==> ApplyFlags(o, flags).opts.includeId == o.includeId
    decreases |flags|
  {
    if |flags| > 0 {
      match ApplyFlag(o, flags[0].0, flags[0].1)
      case Run(o1) => ApplyFlagsKeepIncludeId(o1, flags[1..]);
      case other =>
    }
  }

  /** `--fields id` or any `--facets` forces the wide format, and `id`
      triples are asked for exactly when the field list is just `id`. */
  lemma WideForced(service: Str, flags: seq<(Str, Str)>)
    requires ParseOptions(service, flags).Run?
    ensures var o := ParseOptions(service, flags).opts;
            (o.fields == ["id"] ==> o.format == Wide) &&
            (o.facetValues.Some? ==> o.format == Wide) &&
            (o.includeId <==> o.fields == ["id"])
  {
    ApplyFlagsKeepIncludeId(Defaults(service), flags);
  }

  /** Clean text for a `-q` constraint: no separators, no edge whitespace. */
  predicate QueryText(s: Str) {
    ',' !in s && '=' !in s && (|s| == 0 || (!IsSpace(s[0]) && !IsSpace(s[|s| - 1])))
  }

  /** Clean text strips to itself. */
  lemma QueryTextStrips(s: Str)
    requires QueryText(s)
    ensures Strip(s) == s
  {
    if |s| > 0 {
      StripNoSpace(s);
    }
  }

  /** A `-q` argument written from clean constraints reads back as them. */
  lemma FacetQueryRoundTrip(facets: seq<(Str, Str)>)
    requires |facets| >= 1
    requires forall k :: 0 <= k < |facets| ==> QueryText(facets[k].0) && QueryText(facets[k].1)
    ensures FacetQuery(Split(Join(seq(|facets|, k requires 0 <= k < |facets| => Param(facets[k])), ","), ",")) == Success(facets)
  {
    var parts := seq(|facets|, k requires 0 <= k < |facets| => Param(facets[k]));
    forall k | 0 <= k < |parts|
      ensures ',' !in parts[k]
      ensures Split(parts[k], "=") == [facets[k].0, facets[k].1]
    {
      assert parts[k] == facets[k].0 + "=" + facets[k].1;
      assert Join([facets[k].0, facets[k].1], "=") == parts[k];
      SplitJoinChar([facets[k].0, facets[k].1], '=');
    }
    SplitJoinChar(parts, ',');
    FacetQueryOfParts(parts, facets);
  }

  /** Pieces that each split at `=` into clean text read back as those
      constraints. */
  lemma FacetQueryOfParts(parts: seq<Str>, facets: seq<(Str, Str)>)
    requires |parts| == |facets|
    requires forall k :: 0 <= k < |parts| ==> Split(parts[k], "=") == [facets[k].0, facets[k].1]
    requires forall k :: 0 <= k < |facets| ==> QueryText(facets[k].0) && QueryText(facets[k].1)
    ensures FacetQuery(parts) == Success(facets)
  {
    var r := FacetQuery(parts);
    assert r.Success?;
    forall k | 0 <= k < |parts|
      ensures r.value[k] == facets[k]
    {
      QueryTextStrips(facets[k].0);
      QueryTextStrips(facets[k].1);
    }
    assert |r.value| == |facets|;
    assert r.value == facets;
  }

  /** `-q` adds its constraints after the ones already given. */
  lemma QueryOption(o: Options, facets: seq<(Str, Str)>)
    requires |facets| >= 1
    requires forall k :: 0 <= k < |facets| ==> QueryText(facets[k].0) && QueryText(facets[k].1)
    ensures ApplyFlag(o, "-q", Join(seq(|facets|, k requires 0 <= k < |facets| => Param(facets[k])), ",")) ==
            Run(o.(facets := o.facets + facets))
  {
    var arg := Join(seq(|facets|, k requires 0 <= k < |facets| => Param(facets[k])), ",");
    FacetQueryRoundTrip(facets);
    QueryFlag(o, arg);
  }

  /** `-q` with constraints that parse adds them to the ones given. */
  lemma QueryFlag(o: Options, arg: Str)
    ensures FacetQuery(Split(arg, ",")).Success? ==>
              ApplyFlag(o, "-q", arg) == Run(o.(facets := o.facets + FacetQuery(Split(arg, ",")).value))
  {
  }

  /** `--limit` reads back the number written. */
  lemma LimitOption(o: Options, n: int)
    ensures ApplyFlag(o, "--limit", IntToStr(n)) == Run(o.(userLimit := n))
  {
    ParseIntToStr(n);
  }

  // ---------------------------------------------------------------------
  // Paging
  // ---------------------------------------------------------------------

  /** What the server reports for one request: the records in the chunk
      and the total number of matches. */
  datatype Answer = Answer(numResults: int, numFound: int)

  /** One request of the paging loop. */
  datatype Request = Request(offset: int, limit: int)

  /** The records a chunk counts as read: none for a facet-value query. */
  function NumResults(a: Answer, facet: bool): int {
    if facet then 0 else a.numResults
  }

  /** The records read over a run of answers. */
  function ReadCount(answers: seq<Answer>, facet: bool): int
    decreases |answers|
  {
    if |answers| == 0 then 0 else NumResults(answers[0], facet) + ReadCount(answers[1..], facet)
  }

  /** The paging loop from the state (`nread`, `nleft`, `offset`); answer
      `k` is the server's reply to request `k`, and the loop stops early if
      the answers run out. `records` is false for count-only and facet
      queries, which ask for no records. */
  function Pages(answers: seq<Answer>, records: bool, facet: bool, userLimit: int,
                 nread: int, nleft: int, offset: int): (r: seq<Request>)
    ensures |r| <= |answers| && (|answers| > 0 ==> |r| >= 1)
    decreases |answers|
  {
    if |answers| == 0 then []
    else
      var limit := if records then Min(nleft, DEFAULT_CHUNKSIZE) else 0;
      var nread1 := nread + NumResults(answers[0], facet);
      var more := NumResults(answers[0], facet) > 0 && nread1 < Min(answers[0].numFound, userLimit);
      [Request(offset, limit)] +
      (if more then Pages(answers[1..], records, facet, userLimit, nread1, nleft - limit, offset + limit) else [])
  }

  /** The requests `preoutput` issues for the given settings. */
  function Paging(o: Options, answers: seq<Answer>): seq<Request> {
    Pages(answers, !(o.countOnly || o.facetValues.Some?), o.facetValues.Some?, o.userLimit, 0, o.userLimit, 0)
  }

  /** Whether the loop goes on after answer `k`. */
  predicate Continues(answers: seq<Answer>, facet: bool, userLimit: int, nread: int, k: int)
    requires 0 <= k < |answers|
  {
    NumResults(answers[k], facet) > 0 &&
    nread + ReadCount(answers[..k + 1], facet) < Min(answers[k].numFound, userLimit)
  }

  lemma ReadCountShift(answers: seq<Answer>, facet: bool, k: int)
    requires 1 <= k < |answers|
    ensures ReadCount(answers[..k + 1], facet) == NumResults(answers[0], facet) + ReadCount(answers[1..][..k], facet)
  {
    assert answers[..k + 1][1..] == answers[1..][..k];
  }

  /** The first request of the loop, and the requests after it. */
  lemma PagesCons(answers: seq<Answer>, records: bool, facet: bool, userLimit: int,
                  nread: int, nleft: int, offset: int)
    requires |answers| > 0
    ensures var limit := if records then Min(nleft, DEFAULT_CHUNKSIZE) else 0;
            var nread1 := nread + NumResults(answers[0], facet);
            var r := Pages(answers, records, facet, userLimit, nread, nleft, offset);
            var rest := Pages(answers[1..], records, facet, userLimit, nread1, nleft - limit, offset + limit);
            && r[0] == Request(offset, limit)
            && (|r| > 1 ==> |r| == 1 + |rest| && forall k :: 1 <= k < |r| ==> r[k] == rest[k - 1])
  {
  }

  /** Offsets start where the loop starts and grow by each request's limit;
      record queries ask for `min(left, 1000)` with `left` what the user's
      limit leaves, other queries for nothing. */
  lemma PagesSteps(answers: seq<Answer>, records: bool, facet: bool, userLimit: int,
                   nread: int, nleft: int, offset: int)
    requires nleft == userLimit - offset
    ensures var r := Pages(answers, records, facet, userLimit, nread, nleft, offset);
            (|r| > 0 ==> r[0].offset == offset) &&
            (forall k :: 0 <= k < |r| - 1 ==> r[k + 1].offset == r[k].offset + r[k].limit) &&
            (forall k :: 0 <= k < |r| ==> r[k].limit == if records then Min(userLimit - r[k].offset, DEFAULT_CHUNKSIZE) else 0)
  {
    PagesOffsets(answers, records, facet, userLimit, nread, nleft, offset);
    PagesLimits(answers, records, facet, userLimit, nread, nleft, offset);
  }

  /** Offsets start where the loop starts and grow by each request's limit. */
  lemma {:induction false} PagesOffsets(answers: seq<Answer>, records: bool, facet: bool, userLimit: int,
                                        nread: int, nleft: int, offset: int)
    ensures var r := Pages(answers, records, facet, userLimit, nread, nleft, offset);
            (|r| > 0 ==> r[0].offset == offset) && OffsetsStep(r)
    decreases |answers|
  {
    if |answers| > 0 {
      var limit := if records then Min(nleft, DEFAULT_CHUNKSIZE) else 0;
      var nread1 := nread + NumResults(answers[0], facet);
      var r := Pages(answers, records, facet, userLimit, nread, nleft, offset);
      var rest := Pages(answers[1..], records, facet, userLimit, nread1, nleft - limit, offset + limit);
      PagesCons(answers, records, facet, userLimit, nread, nleft, offset);
      PagesOffsets(answers[1..], records, facet, userLimit, nread1, nleft - limit, offset + limit);
      OffsetsCons(r, rest);
    }
  }

  /** Whether each request starts where the one before it ends. */
  predicate OffsetsStep(r: seq<Request>) {
    forall k :: 0 <= k < |r| - 1 ==> r[k + 1].offset == r[k].offset + r[k].limit
  }

  /** A first request before requests that start where it ends and each
      start where the one before ends. */
  lemma OffsetsCons(r: seq<Request>, rest: seq<Request>)
    requires |r| > 0 && OffsetsStep(rest)
    requires |r| > 1 ==> |r| == 1 + |rest| && rest[0].offset == r[0].offset + r[0].limit &&
                         forall k :: 1 <= k < |r| ==> r[k] == rest[k - 1]
    ensures OffsetsStep(r)
  {
    forall k | 0 <= k < |r| - 1
      ensures r[k + 1].offset == r[k].offset + r[k].limit
    {
      assert r[k + 1] == rest[k];
      if k > 0 {
        assert r[k] == rest[k - 1];
      }
    }
  }

  /** Record queries ask for `min(left, 1000)` with `left` what the user's
      limit leaves, other queries for nothing. */
  lemma {:induction false} PagesLimits(answers: seq<Answer>, records: bool, facet: bool, userLimit: int,
                                       nread: int, nleft: int, offset: int)
    requires nleft == userLimit - offset
    ensures LimitsOk(Pages(answers, records, facet, userLimit, nread, nleft, offset), records, userLimit)
    decreases |answers|
  {
    if |answers| > 0 {
      var limit := if records then Min(nleft, DEFAULT_CHUNKSIZE) else 0;
      var nread1 := nread + NumResults(answers[0], facet);
      var r := Pages(answers, records, facet, userLimit, nread, nleft, offset);
      var rest := Pages(answers[1..], records, facet, userLimit, nread1, nleft - limit, offset + limit);
      PagesCons(answers, records, facet, userLimit, nread, nleft, offset);
      PagesLimits(answers[1..], records, facet, userLimit, nread1, nleft - limit, offset + limit);
      LimitsCons(r, rest, records, userLimit);
    }
  }

  /** Whether every request asks for what the user's limit leaves, at most
      a chunk, or for nothing when no records are wanted. */
  predicate LimitsOk(r: seq<Request>, records: bool, userLimit: int) {
    forall k :: 0 <= k < |r| ==> r[k].limit == if records then Min(userLimit - r[k].offset, DEFAULT_CHUNKSIZE) else 0
  }

  /** A first request with the right limit before requests with the right
      limits. */
  lemma LimitsCons(r: seq<Request>, rest: seq<Request>, records: bool, userLimit: int)
    requires |r| > 0 && LimitsOk(rest, records, userLimit)
    requires r[0].limit == if records then Min(userLimit - r[0].offset, DEFAULT_CHUNKSIZE) else 0
    requires |r| > 1 ==> |r| == 1 + |rest| && forall k :: 1 <= k < |r| ==> r[k] == rest[k - 1]
    ensures LimitsOk(r, records, userLimit)
  {
    forall k | 0 <= k < |r|
      ensures r[k].limit == if records then Min(userLimit - r[k].offset, DEFAULT_CHUNKSIZE) else 0
    {
      if k > 0 {
        assert r[k] == rest[k - 1];
      }
    }
  }

  /** The loop goes on exactly while a chunk brought records and fewer
      than `min(numFound, userLimit)` have been read. */
  lemma {:induction false} PagesStop(answers: seq<Answer>, records: bool, facet: bool, userLimit: int,
                                     nread: int, nleft: int, offset: int)
    ensures var r := Pages(answers, records, facet, userLimit, nread, nleft, offset);
            (forall k :: 0 <= k < |r| - 1 ==> Continues(answers, facet, userLimit, nread, k)) &&
            (0 < |r| < |answers| ==> !Continues(answers, facet, userLimit, nread, |r| - 1))
    decreases |answers|
  {
    if |answers| > 0 {
      var limit := if records then Min(nleft, DEFAULT_CHUNKSIZE) else 0;
      var n0 := NumResults(answers[0], facet);
      var nread1 := nread + n0;
      var r := Pages(answers, records, facet, userLimit, nread, nleft, offset);
      var rest := Pages(answers[1..], records, facet, userLimit, nread1, nleft - limit, offset + limit);
      assert ReadCount(answers[..1], facet) == n0 by {
        assert answers[..1][1..] == [];
      }
      if n0 > 0 && nread1 < Min(answers[0].numFound, userLimit) {
        PagesStop(answers[1..], records, facet, userLimit, nread1, nleft - limit, offset + limit);
        assert |r| == 1 + |rest|;
        forall k | 1 <= k < |r| - 1 || (k == |r| - 1 && 1 <= k && |r| < |answers|)
          ensures Continues(answers, facet, userLimit, nread, k) <==> Continues(answers[1..], facet, userLimit, nread1, k - 1)
        {
          ReadCountShift(answers, facet, k);
        }
      }
    }
  }

  /** A record query never asks past the user's limit nor for more than a
      chunk; a count-only or facet query asks for nothing, and a facet
      query is answered in one request. */
  lemma PagingBounds(o: Options, answers: seq<Answer>)
    ensures var r := Paging(o, answers);
            var records := !(o.countOnly || o.facetValues.Some?);
            (|r| > 0 ==> r[0].offset == 0) &&
            (records && o.userLimit >= 0 ==> forall k :: 0 <= k < |r| ==>
               0 <= r[k].limit <= DEFAULT_CHUNKSIZE && r[k].offset + r[k].limit <= o.userLimit) &&
            (!records ==> forall k :: 0 <= k < |r| ==> r[k] == Request(0, 0)) &&
            (o.facetValues.Some? && |answers| > 0 ==> |r| == 1)
  {
    var records := !(o.countOnly || o.facetValues.Some?);
    var r := Paging(o, answers);
    PagesSteps(answers, records, o.facetValues.Some?, o.userLimit, 0, o.userLimit, 0);
    if records && o.userLimit >= 0 {
      OffsetsWithinLimit(r, o.userLimit);
    }
    if !records {
      ZeroLimitsStay(r);
    }
  }

  /** Requests whose offsets grow by `min(limit - offset, 1000)` from 0 stay
      within the limit. */
  lemma {:induction false} OffsetsWithinLimit(r: seq<Request>, userLimit: int)
    requires userLimit >= 0
    requires |r| > 0 ==> r[0].offset == 0
    requires forall k :: 0 <= k < |r| - 1 ==> r[k + 1].offset == r[k].offset + r[k].limit
    requires forall k :: 0 <= k < |r| ==> r[k].limit == Min(userLimit - r[k].offset, DEFAULT_CHUNKSIZE)
    ensures forall k :: 0 <= k < |r| ==> 0 <= r[k].offset <= userLimit
    ensures forall k :: 0 <= k < |r| ==> 0 <= r[k].limit <= DEFAULT_CHUNKSIZE && r[k].offset + r[k].limit <= userLimit
    decreases |r|
  {
    if |r| > 0 {
      var init := r[..|r| - 1];
      OffsetsWithinLimit(init, userLimit);
      if |r| > 1 {
        assert r[|r| - 2] == init[|r| - 2];
      }
    }
  }

  /** Zero limits from offset 0 keep every request at (0, 0). */
  lemma {:induction false} ZeroLimitsStay(r: seq<Request>)
    requires |r| > 0 ==> r[0].offset == 0
    requires forall k :: 0 <= k < |r| - 1 ==> r[k + 1].offset == r[k].offset + r[k].limit
    requires forall k :: 0 <= k < |r| ==> r[k].limit == 0
    ensures forall k :: 0 <= k < |r| ==> r[k] == Request(0, 0)
    decreases |r|
  {
    if |r| > 0 {
      var init := r[..|r| - 1];
      ZeroLimitsStay(init);
      if |r| > 1 {
        assert r[|r| - 2] == init[|r| - 2];
      }
    }
  }
}
