/**
 * An abstract HTML node tree with the queries the extraction rules use: the
 * node's inner text, an attribute with an empty-string default, and the
 * descendant searches behind the XPath expressions `.//x[...]` (first match,
 * or all matches in document order, with "no match" reported as a missing
 * node or a missing list).
 */
module Html {
  import opened Wrappers

  /** An element with its name, attributes and ordered children, or a text node. */
  datatype Node =
    | Element(name: string, attributes: map<string, string>, children: seq<Node>)
    | Text(content: string)

  /** `GetAttributeValue(key, string.Empty)`. */
  function Attribute(n: Node, key: string): (v: string)
    ensures n.Element? && key in n.attributes ==> v == n.attributes[key]
    ensures !(n.Element? && key in n.attributes) ==> v == ""
  {
    if n.Element? && key in n.attributes then n.attributes[key] else ""
  }

  /** An element with the given tag name. */
  predicate IsElement(n: Node, name: string) {
    n.Element? && n.name == name
  }

  /** `InnerText`: the text of all text nodes below `n`, in document order. */
  function InnerText(n: Node): string
    decreases n, 1
  {
    match n
    case Text(t) => t
    case Element(_, _, children) => InnerTextOfAll(children)
  }

  /** The inner texts of `ns`, concatenated. */
  function InnerTextOfAll(ns: seq<Node>): string
    decreases ns, 0
  {
    if ns == [] then "" else InnerText(ns[0]) + InnerTextOfAll(ns[1..])
  }

  /** The inner text of consecutive siblings is their inner texts, in order. */
  lemma {:induction false} InnerTextOfAllAppend(xs: seq<Node>, ys: seq<Node>)
    ensures InnerTextOfAll(xs + ys) == InnerTextOfAll(xs) + InnerTextOfAll(ys)
  {
    if xs == [] {
      assert xs + ys == ys;
    } else {
      assert (xs + ys)[0] == xs[0];
      assert (xs + ys)[1..] == xs[1..] + ys;
      InnerTextOfAllAppend(xs[1..], ys);
    }
  }

  /** The nodes strictly below `n`, in document order (pre-order). */
  function Descendants(n: Node): seq<Node>
    decreases n, 1
  {
    match n
    case Text(_) => []
    case Element(_, _, children) => DescendantsOfAll(children)
  }

  /**
   * The descendants of an element are its children together with their
   * descendants: `.//` looks at every level below the node.
   */
  lemma DescendantsBelow(n: Node, c: Node)
    requires n.Element? && c in n.children
    ensures c in Descendants(n)
    ensures forall d :: d in Descendants(c) ==> d in Descendants(n)
  {
    DescendantsOfAllBelow(n.children, c);
  }

  /** Every node of `ns`, and every node below one, is among their descendants. */
  lemma {:induction false} DescendantsOfAllBelow(ns: seq<Node>, c: Node)
    requires c in ns
    ensures c in DescendantsOfAll(ns)
    ensures forall d :: d in Descendants(c) ==> d in DescendantsOfAll(ns)
  {
    if ns[0] != c {
      DescendantsOfAllBelow(ns[1..], c);
    }
  }

  /** Each node of `ns` followed by its descendants. */
  function DescendantsOfAll(ns: seq<Node>): seq<Node>
    decreases ns, 0
  {
    if ns == [] then [] else [ns[0]] + Descendants(ns[0]) + DescendantsOfAll(ns[1..])
  }

  /** The elements of `ns` that satisfy `p`, in their order. */
  function Filter(ns: seq<Node>, p: Node -> bool): (r: seq<Node>)
    ensures |r| <= |ns|
    ensures forall x :: x in r <==> x in ns && p(x)
  {
    if ns == [] then []
    else (if p(ns[0]) then [ns[0]] else []) + Filter(ns[1..], p)
  }

  /** The first element of `ns` that satisfies `p`. */
  function First(ns: seq<Node>, p: Node -> bool): (r: Option<Node>)
    ensures r.None? <==> Filter(ns, p) == []
    ensures r.Some? ==> r.value == Filter(ns, p)[0]
  {
    if ns == [] then None
    else if p(ns[0]) then Some(ns[0])
    else First(ns[1..], p)
  }

  /** `SelectSingleNode(".//x[p]")`: the first descendant in document order that satisfies `p`. */
  function SelectSingleNode(n: Node, p: Node -> bool): (r: Option<Node>)
    ensures r.None? <==> forall x :: x in Descendants(n) ==> !p(x)
    ensures r.Some? ==> r.value in Descendants(n) && p(r.value)
    ensures r.Some? ==> r.value == Filter(Descendants(n), p)[0]
  {
    var all := Filter(Descendants(n), p);
    assert all != [] ==> all[0] in all;
    First(Descendants(n), p)
  }

  /**
   * `SelectNodes(".//x[p]")`: every descendant that satisfies `p`, in
   * document order, or no list at all when none does.
   */
  function SelectNodes(n: Node, p: Node -> bool): (r: Option<seq<Node>>)
    ensures r.None? <==> forall x :: x in Descendants(n) ==> !p(x)
    ensures r.Some? ==> r.value == Filter(Descendants(n), p) && r.value != []
  {
    var all := Filter(Descendants(n), p);
    assert all != [] ==> all[0] in all;
    if all == [] then None else Some(all)
  }
}
