/** A parsed XML document as an immutable tree: elements with a tag,
    attributes and children, and text nodes. Two DOM queries the catalog
    harvesters use are modelled on it: `getAttribute`, which gives the
    empty text for an absent attribute, and `getElementsByTagName`, which
    gives the matching descendants (not the node itself) in document
    order. */
module XmlNode {
  import opened PyStr

  datatype Node = Element(tag: Str, attrs: map<Str, Str>, children: seq<Node>) | Text(value: Str)

  /** `node.getAttribute(name)`: the attribute's value, or `''`. */
  function Attr(n: Node, name: Str): Str {
    if n.Element? && name in n.attrs then n.attrs[name] else ""
  }

  predicate IsTag(n: Node, tag: Str) {
    n.Element? && n.tag == tag
  }

  /** The nodes of the forest `ns` carrying `tag`, each root before its
      descendants and earlier siblings before later ones. */
  function Under(ns: seq<Node>, tag: Str): (r: seq<Node>)
    ensures forall m :: m in r ==> IsTag(m, tag)
    decreases ns
  {
    if |ns| == 0 then []
    else
      var n := ns[0];
      var here := if IsTag(n, tag) then [n] else [];
      var below := if n.Element? then Under(n.children, tag) else [];
      here + below + Under(ns[1..], tag)
  }

  /** Every node of a list, paired with the flag `direct`. */
  function Flagged(xs: seq<Node>, direct: bool): (r: seq<(Node, bool)>)
    ensures |r| == |xs|
    ensures forall i :: 0 <= i < |xs| ==> r[i] == (xs[i], direct)
  {
    seq(|xs|, i requires 0 <= i < |xs| => (xs[i], direct))
  }

  /** `parent.getElementsByTagName(tag)` for a parent with children `ns`,
      each result paired with whether its parent node is `parent`, that
      is, whether it is one of `ns`. */
  function Tagged(ns: seq<Node>, tag: Str): (r: seq<(Node, bool)>)
    decreases |ns|
  {
    if |ns| == 0 then []
    else
      var n := ns[0];
      var here := if IsTag(n, tag) then [(n, true)] else [];
      var below := if n.Element? then Flagged(Under(n.children, tag), false) else [];
      here + below + Tagged(ns[1..], tag)
  }

  /** Every node the query returns carries the tag, and the direct
      children carrying it are exactly the entries flagged direct. */
  lemma {:induction false} TaggedSpec(ns: seq<Node>, tag: Str)
    ensures forall p :: p in Tagged(ns, tag) ==> IsTag(p.0, tag)
    ensures forall n :: (n, true) in Tagged(ns, tag) <==> n in ns && IsTag(n, tag)
    decreases |ns|
  {
    if |ns| > 0 {
      var n := ns[0];
      TaggedSpec(ns[1..], tag);
      var here := if IsTag(n, tag) then [(n, true)] else [];
      var below := if n.Element? then Flagged(Under(n.children, tag), false) else [];
      var rest := Tagged(ns[1..], tag);
      assert Tagged(ns, tag) == here + below + rest;
      assert forall p :: p in below ==> !p.1 && IsTag(p.0, tag);
      assert forall m :: m in ns <==> m == n || m in ns[1..];
    }
  }
}
