/**
 * The record-extraction rules of `Dejure/DejureOrg.cs`: how a parsed page
 * of dejure.org becomes subject areas (`Rechtsgebiet`), statutes (`Gesetz`),
 * a statute's table of contents (`Inhaltsverzeichnnis`), its paragraph
 * entries (`Paragraph`) and a paragraph's text (`Text`).
 *
 * Every record wraps the node it was made from, and every property is a
 * function of that node, as the source's expression-bodied getters are.
 * A list getter whose query matches nothing has no value (`None`): the
 * source then calls `Select` on a null node list and throws.
 */
module Dejure {
  import opened Wrappers
  import opened Strings
  import opened Html

  /** The site origin every link is resolved against. */
  const Origin: string := "https://dejure.org"

  /** The path under which the site serves its statutes. */
  const StatutePath: string := "/gesetze/"

  /** `//div[contains(@class, 'gesetzesliste')]`: a subject area's block on the start page. */
  predicate IsSubjectAreaBlock(n: Node) {
    IsElement(n, "div") && Contains(Attribute(n, "class"), "gesetzesliste")
  }

  /** `.//h3`: a subject area's heading. */
  predicate IsHeading(n: Node) {
    IsElement(n, "h3")
  }

  /** `.//a`: any anchor. */
  predicate IsAnchor(n: Node) {
    IsElement(n, "a")
  }

  /** `.//a[starts-with(@href, '/gesetze')]`: a link to a statute inside a subject area. */
  predicate IsStatuteLink(n: Node) {
    IsAnchor(n) && StartsWith(Attribute(n, "href"), "/gesetze")
  }

  /** `//div[@id='alphabetisch']`: the alphabetical statute index. */
  predicate IsAlphabeticalIndex(n: Node) {
    IsElement(n, "div") && Attribute(n, "id") == "alphabetisch"
  }

  /** `.//li`: an item of the alphabetical index. */
  predicate IsListItem(n: Node) {
    IsElement(n, "li")
  }

  /** `//div[@id='<id>']`: a designated content block of a statute or paragraph page. */
  predicate IsBlock(n: Node, id: string) {
    IsElement(n, "div") && Attribute(n, "id") == id
  }

  /**
   * `.//a[starts-with(@href, '/gesetze/<kuerzel>/') and not(@class='zu_paragraph')]`:
   * a link into the statute itself that is not a cross-reference annotation.
   */
  predicate IsEntryLink(kuerzel: string, n: Node) {
    IsAnchor(n) && StartsWith(Attribute(n, "href"), StatutePath + kuerzel + "/") &&
    Attribute(n, "class") != "zu_paragraph"
  }

  /**
   * Every entry link of a statute is also a statute link in the sense of the
   * start page, and none of them has the cross-reference class.
   */
  lemma EntryLinkIsStatuteLink(kuerzel: string, n: Node)
    requires IsEntryLink(kuerzel, n)
    ensures IsStatuteLink(n)
    ensures Attribute(n, "class") != "zu_paragraph"
  {
    var href := Attribute(n, "href");
    assert href[..8] == (StatutePath + kuerzel + "/")[..8];
  }

  /** `//p[.//a[...]]`: a paragraph node with an entry link of the statute somewhere below it. */
  predicate IsEntry(kuerzel: string, n: Node) {
    IsElement(n, "p") && exists a :: a in Descendants(n) && IsEntryLink(kuerzel, a)
  }

  /** `IsBlock` with the id fixed, as a node test. */
  function BlockTest(id: string): (test: Node -> bool)
    ensures forall n :: test(n) == IsBlock(n, id)
  {
    n => IsBlock(n, id)
  }

  /** `IsEntry` with the statute code fixed, as a node test. */
  function EntryTest(kuerzel: string): (test: Node -> bool)
    ensures forall n :: test(n) == IsEntry(kuerzel, n)
  {
    n => IsEntry(kuerzel, n)
  }

  /** The text node test of `Where(n => n.NodeType == HtmlNodeType.Text)`. */
  predicate IsTextNode(n: Node) {
    n.Text?
  }

  /** The characters `Trim([' ', '(', ')'])` removes. */
  predicate IsTitleTrimChar(c: char) {
    c == ' ' || c == '(' || c == ')'
  }

  /**
   * The statute code a link target names: every `/gesetze/` removed, then
   * white space trimmed.
   */
  function KuerzelOfHref(href: string): (k: string)
    ensures IsTrimOf(k, RemoveAll(href, StatutePath), IsWhiteSpace)
    ensures |k| <= |href|
  {
    TrimWhiteSpace(RemoveAll(href, StatutePath))
  }

  /**
   * The text of a block, trimmed, or the empty string when the page has no
   * such block (`SelectSingleNode(...)?.InnerText.Trim() ?? string.Empty`).
   */
  function BlockText(page: Node, id: string): (r: string)
    ensures (forall x :: x in Descendants(page) ==> !IsBlock(x, id)) ==> r == ""
    ensures (exists x :: x in Descendants(page) && IsBlock(x, id)) ==>
              IsTrimOf(r, InnerText(Filter(Descendants(page), BlockTest(id))[0]), IsWhiteSpace)
  {
    match SelectSingleNode(page, BlockTest(id))
    case None => ""
    case Some(block) => TrimWhiteSpace(InnerText(block))
  }

  /** A block without any list item below it, on which `SelectNodes(".//li")` yields null. */
  predicate HasNoListItem(b: Node) {
    forall x :: x in Descendants(b) ==> !IsListItem(x)
  }

  /**
   * The page's alphabetical-index items, block by block (`SelectMany`);
   * none at all if one block has no item.
   */
  function ListItemsOfAll(blocks: seq<Node>): Option<seq<Node>> {
    if blocks == [] then Some([])
    else Join(SelectNodes(blocks[0], IsListItem), ListItemsOfAll(blocks[1..]))
  }

  /** Two partial item lists joined; no list if either part has none. */
  function Join(x: Option<seq<Node>>, y: Option<seq<Node>>): (r: Option<seq<Node>>)
    ensures r.Some? <==> x.Some? && y.Some?
    ensures r.Some? ==> r.value == x.value + y.value
  {
    if x.Some? && y.Some? then Some(x.value + y.value) else None
  }

  /** There are no items exactly when some block has no `li` below it. */
  lemma {:induction false} ListItemsNone(blocks: seq<Node>)
    ensures ListItemsOfAll(blocks).None? <==> exists b :: b in blocks && HasNoListItem(b)
  {
    if blocks != [] {
      ListItemsNone(blocks[1..]);
      var head := SelectNodes(blocks[0], IsListItem);
      assert head.None? <==> HasNoListItem(blocks[0]);
      if head.None? {
        assert blocks[0] in blocks;
      } else if ListItemsOfAll(blocks[1..]).None? {
        var b :| b in blocks[1..] && HasNoListItem(b);
        assert b in blocks;
      } else {
        forall b | b in blocks
          ensures !HasNoListItem(b)
        {
          var i :| 0 <= i < |blocks| && blocks[i] == b;
          if i > 0 {
            assert blocks[1..][i - 1] == b;
          }
        }
      }
    }
  }

  /** Every item is an `li` below one of the blocks. */
  lemma {:induction false} ListItemsBelow(blocks: seq<Node>)
    ensures ListItemsOfAll(blocks).Some? ==> forall x :: x in ListItemsOfAll(blocks).value ==>
              (IsListItem(x) && exists b :: b in blocks && x in Descendants(b))
  {
    if blocks != [] {
      ListItemsBelow(blocks[1..]);
      var head, rest := SelectNodes(blocks[0], IsListItem), ListItemsOfAll(blocks[1..]);
      if head.Some? && rest.Some? {
        forall x | x in head.value + rest.value
          ensures IsListItem(x) && exists b :: b in blocks && x in Descendants(b)
        {
          if x in head.value {
            assert blocks[0] in blocks && x in Descendants(blocks[0]);
          } else {
            var b :| b in blocks[1..] && x in Descendants(b);
            assert b in blocks;
          }
        }
      }
    }
  }

  /**
   * The items are collected block by block: those of `a`'s blocks, then
   * those of `b`'s, and none at all if either part has a block without one.
   */
  lemma {:induction false} ListItemsAppend(a: seq<Node>, b: seq<Node>)
    ensures ListItemsOfAll(a + b) == Join(ListItemsOfAll(a), ListItemsOfAll(b))
  {
    if a == [] {
      assert a + b == b;
      var y := ListItemsOfAll(b);
      assert y.Some? ==> [] + y.value == y.value;
    } else {
      var ab := a + b;
      assert ab[0] == a[0] && ab[1..] == a[1..] + b;
      ListItemsAppend(a[1..], b);
      var x, y, z := SelectNodes(a[0], IsListItem), ListItemsOfAll(a[1..]), ListItemsOfAll(b);
      assert x.Some? && y.Some? && z.Some? ==> x.value + (y.value + z.value) == (x.value + y.value) + z.value;
    }
  }

  /** The items of one block are its `li` descendants in document order. */
  lemma ListItemsOfOne(b: Node)
    ensures ListItemsOfAll([b]) ==
              if HasNoListItem(b) then None else Some(Filter(Descendants(b), IsListItem))
  {
    assert [b][0] == b && [b][1..] == [];
    assert ListItemsOfAll([]) == Some([]);
    var items := SelectNodes(b, IsListItem);
    if items.Some? {
      assert items.value + [] == items.value;
    }
  }

  /** The start page of the site (`DejureOrg`). */
  datatype DejureOrg = DejureOrg(html: Node) {

    /** `Rechtsgebiete`: one subject area per `gesetzesliste` block, in document order. */
    function Rechtsgebiete(): (r: Option<seq<Rechtsgebiet>>)
      ensures r.None? <==> forall x :: x in Descendants(html) ==> !IsSubjectAreaBlock(x)
      ensures r.Some? ==>
                var blocks := Filter(Descendants(html), IsSubjectAreaBlock);
                |r.value| == |blocks| && forall i :: 0 <= i < |r.value| ==> r.value[i].node == blocks[i]
    {
      match SelectNodes(html, IsSubjectAreaBlock)
      case None => None
      case Some(blocks) => Some(seq(|blocks|, i requires 0 <= i < |blocks| => Rechtsgebiet(blocks[i])))
    }

    /**
     * `Gesetze`: one statute per item of the alphabetical index, in document
     * order. No list if there is no index block or a block has no item.
     */
    function Gesetze(): (r: Option<seq<Gesetz>>)
      ensures r.None? <==>
                (forall x :: x in Descendants(html) ==> !IsAlphabeticalIndex(x)) ||
                (exists b :: b in Descendants(html) && IsAlphabeticalIndex(b) && HasNoListItem(b))
      ensures r.Some? ==> forall g :: g in r.value ==>
                (IsListItem(g.node) &&
                 exists b :: b in Descendants(html) && IsAlphabeticalIndex(b) && g.node in Descendants(b))
      ensures r.Some? ==>
                var items := ListItemsOfAll(Filter(Descendants(html), IsAlphabeticalIndex));
                items.Some? && |r.value| == |items.value| &&
                forall i :: 0 <= i < |r.value| ==> r.value[i].node == items.value[i]
    {
      match SelectNodes(html, IsAlphabeticalIndex)
      case None => None
      case Some(blocks) =>
        match ListItemsOfAll(blocks)
        case None => ListItemsNone(blocks); None
        case Some(items) =>
          ListItemsNone(blocks);
          ListItemsBelow(blocks);
          var gs := seq(|items|, i requires 0 <= i < |items| => Gesetz(items[i]));
          assert forall g :: g in gs ==> g.node in items;
          Some(gs)
    }
  }

  /** A subject area (`DejureOrg.Rechtsgebiet`), made from its `gesetzesliste` block. */
  datatype Rechtsgebiet = Rechtsgebiet(node: Node) {

    /** `Name`: the trimmed text of the first `h3` inside the block, or the empty string. */
    function Name(): (r: string)
      ensures (forall x :: x in Descendants(node) ==> !IsHeading(x)) ==> r == ""
      ensures (exists x :: x in Descendants(node) && IsHeading(x)) ==>
                IsTrimOf(r, InnerText(Filter(Descendants(node), IsHeading)[0]), IsWhiteSpace)
    {
      match SelectSingleNode(node, IsHeading)
      case None => ""
      case Some(h) => TrimWhiteSpace(InnerText(h))
    }

    /** `Gesetze`: one statute per link into `/gesetze` inside the block, in document order. */
    function Gesetze(): (r: Option<seq<RechtsgebietGesetz>>)
      ensures r.None? <==> forall x :: x in Descendants(node) ==> !IsStatuteLink(x)
      ensures r.Some? ==>
                var links := Filter(Descendants(node), IsStatuteLink);
                |r.value| == |links| && forall i :: 0 <= i < |r.value| ==> r.value[i].node == links[i]
    {
      match SelectNodes(node, IsStatuteLink)
      case None => None
      case Some(links) => Some(seq(|links|, i requires 0 <= i < |links| => RechtsgebietGesetz(links[i])))
    }
  }

  /** A statute listed under a subject area (`Rechtsgebiet.Gesetz`), made from its anchor. */
  datatype RechtsgebietGesetz = RechtsgebietGesetz(node: Node) {

    /** `Name`: the anchor's visible text, trimmed. */
    function Name(): (r: string)
      ensures IsTrimOf(r, InnerText(node), IsWhiteSpace)
    {
      TrimWhiteSpace(InnerText(node))
    }

    /** `Url`: the origin followed by the link target; just the origin without one. */
    function Url(): (r: string)
      ensures StartsWith(r, Origin) && r[|Origin|..] == Attribute(node, "href")
      ensures !(node.Element? && "href" in node.attributes) ==> r == Origin
    {
      Origin + Attribute(node, "href")
    }

    /** `Kürzel`: the statute code named by the link target; empty without one. */
    function Kuerzel(): (r: string)
      ensures !(node.Element? && "href" in node.attributes) ==> r == ""
      ensures IsTrimOf(r, RemoveAll(Attribute(node, "href"), StatutePath), IsWhiteSpace)
    {
      KuerzelOfHref(Attribute(node, "href"))
    }
  }

  /** A statute of the alphabetical index (`DejureOrg.Gesetz`), made from its list item. */
  datatype Gesetz = Gesetz(node: Node) {

    /** The target of the item's first anchor, or nothing without an anchor. */
    function Href(): (r: Option<string>)
      ensures r.None? <==> forall x :: x in Descendants(node) ==> !IsAnchor(x)
      ensures r.Some? ==> r.value == Attribute(Filter(Descendants(node), IsAnchor)[0], "href")
    {
      match SelectSingleNode(node, IsAnchor)
      case None => None
      case Some(a) => Some(Attribute(a, "href"))
    }

    /** `Name`: the item's whole text, trimmed. */
    function Name(): (r: string)
      ensures IsTrimOf(r, InnerText(node), IsWhiteSpace)
    {
      TrimWhiteSpace(InnerText(node))
    }

    /**
     * `Url`: the origin followed by the first anchor's link target. Without
     * an anchor the `?.` yields null and the concatenation leaves the origin.
     */
    function Url(): (r: string)
      ensures StartsWith(r, Origin)
      ensures Href().None? ==> r == Origin
      ensures Href().Some? ==> r[|Origin|..] == Href().value
    {
      Origin + match Href() case None => "" case Some(h) => h
    }

    /** `Kürzel`: the statute code named by the first anchor's link target, or empty. */
    function Kuerzel(): (r: string)
      ensures Href().None? ==> r == ""
      ensures Href().Some? ==> IsTrimOf(r, RemoveAll(Href().value, StatutePath), IsWhiteSpace)
    {
      match Href()
      case None => ""
      case Some(h) => KuerzelOfHref(h)
    }

    /** The item's direct text children, concatenated; text inside child elements is left out. */
    function DirectText(): (r: string)
      ensures node.Text? ==> r == ""
      ensures node.Element? ==> r == InnerTextOfAll(Filter(node.children, IsTextNode))
    {
      match node
      case Text(_) => ""
      case Element(_, _, children) => InnerTextOfAll(Filter(children, IsTextNode))
    }

    /**
     * `Bezeichnung`: the direct text with spaces and parentheses trimmed
     * from both ends, so it neither starts nor ends with one of them.
     */
    function Bezeichnung(): (r: string)
      ensures IsTrimOf(r, DirectText(), IsTitleTrimChar)
      ensures r == [] || (!IsTitleTrimChar(r[0]) && !IsTitleTrimChar(r[|r| - 1]))
    {
      Trim(DirectText(), IsTitleTrimChar)
    }

    /**
     * `LoadInhaltsverzeichnis`: the table of contents of this statute, read
     * from the page at the statute's own address. `fetch` stands for the
     * request and the parsing of its response.
     */
    function LoadInhaltsverzeichnis(fetch: string -> Node): (toc: Inhaltsverzeichnnis)
      ensures toc.gesetz == this
      ensures toc.html == fetch(Url())
      ensures Href().None? ==> toc.html == fetch(Origin)
    {
      Inhaltsverzeichnnis(this, fetch(Url()))
    }
  }

  /** A statute's table of contents (`Gesetz.Inhaltsverzeichnnis`) over the statute's page. */
  datatype Inhaltsverzeichnnis = Inhaltsverzeichnnis(gesetz: Gesetz, html: Node) {

    /** `Intro`: the trimmed text of the `headgesetz` block, or empty. */
    function Intro(): (r: string)
      ensures (forall x :: x in Descendants(html) ==> !IsBlock(x, "headgesetz")) ==> r == ""
      ensures (exists x :: x in Descendants(html) && IsBlock(x, "headgesetz")) ==>
                IsTrimOf(r, InnerText(Filter(Descendants(html), BlockTest("headgesetz"))[0]), IsWhiteSpace)
    {
      BlockText(html, "headgesetz")
    }

    /**
     * `Paragraphen`: one entry per `p` node of the page that holds a link
     * into this statute which is not a `zu_paragraph` cross-reference, in
     * document order; no list if there is none.
     */
    function Paragraphen(): (r: Option<seq<Paragraph>>)
      ensures r.None? <==> forall x :: x in Descendants(html) ==> !IsEntry(gesetz.Kuerzel(), x)
      ensures r.Some? ==>
                var ps := Filter(Descendants(html), EntryTest(gesetz.Kuerzel()));
                |r.value| == |ps| &&
                forall i :: 0 <= i < |r.value| ==> r.value[i].node == ps[i] && r.value[i].toc == this
      ensures r.Some? ==> forall p :: p in r.value ==> p.node in Descendants(html) && IsEntry(gesetz.Kuerzel(), p.node)
    {
      var k := gesetz.Kuerzel();
      match SelectNodes(html, EntryTest(k))
      case None => None
      case Some(ps) =>
        var entries := seq(|ps|, i requires 0 <= i < |ps| => Paragraph(ps[i], this));
        assert forall p :: p in entries ==> p.node in ps;
        Some(entries)
    }
  }

  /** A table-of-contents entry (`Inhaltsverzeichnnis.Paragraph`), made from its `p` node. */
  datatype Paragraph = Paragraph(node: Node, toc: Inhaltsverzeichnnis) {

    /** The entry's first anchor, if it has one. */
    function Anchor(): (r: Option<Node>)
      ensures r.None? <==> forall x :: x in Descendants(node) ==> !IsAnchor(x)
      ensures r.Some? ==> r.value == Filter(Descendants(node), IsAnchor)[0] && IsAnchor(r.value)
    {
      SelectSingleNode(node, IsAnchor)
    }

    /** `Nummer`: the first anchor's visible text, trimmed, or empty without an anchor. */
    function Nummer(): (r: string)
      ensures Anchor().None? ==> r == ""
      ensures Anchor().Some? ==> IsTrimOf(r, InnerText(Anchor().value), IsWhiteSpace)
    {
      match Anchor()
      case None => ""
      case Some(a) => TrimWhiteSpace(InnerText(a))
    }

    /** `Name`: the entry's whole text, trimmed. */
    function Name(): (r: string)
      ensures IsTrimOf(r, InnerText(node), IsWhiteSpace)
    {
      TrimWhiteSpace(InnerText(node))
    }

    /** `Url`: the origin followed by the first anchor's link target, or empty without an anchor. */
    function Url(): (r: string)
      ensures Anchor().None? ==> r == ""
      ensures Anchor().Some? ==> StartsWith(r, Origin) && r[|Origin|..] == Attribute(Anchor().value, "href")
    {
      match Anchor()
      case None => ""
      case Some(a) => Origin + Attribute(a, "href")
    }

    /**
     * `LoadText`: the text of this paragraph, read from the page at the
     * entry's own address, and owned by the entry and its statute.
     */
    function LoadText(fetch: string -> Node): (t: Text)
      ensures t.Owned? && t.gesetz == toc.gesetz && t.paragraph == this
      ensures t.html == fetch(Url())
      ensures Anchor().None? ==> t.html == fetch("")
    {
      Owned(toc.gesetz, this, fetch(Url()))
    }
  }

  /**
   * A paragraph's text (`Paragraph.Text`): either reached from a table-of-contents
   * entry, or made directly from a statute code and a paragraph number.
   */
  datatype Text =
    | Owned(gesetz: Gesetz, paragraph: Paragraph, html: Node)
    | Detached(gesetzesKuerzel: string, paragraphNummer: string, html: Node)
  {
    /** `Intro`: the trimmed text of the `headgesetz` block, or empty. */
    function Intro(): (r: string)
      ensures (forall x :: x in Descendants(html) ==> !IsBlock(x, "headgesetz")) ==> r == ""
      ensures (exists x :: x in Descendants(html) && IsBlock(x, "headgesetz")) ==>
                IsTrimOf(r, InnerText(Filter(Descendants(html), BlockTest("headgesetz"))[0]), IsWhiteSpace)
    {
      BlockText(html, "headgesetz")
    }

    /** `Content`: the trimmed text of the `gesetzestext` block, or empty. */
    function Content(): (r: string)
      ensures (forall x :: x in Descendants(html) ==> !IsBlock(x, "gesetzestext")) ==> r == ""
      ensures (exists x :: x in Descendants(html) && IsBlock(x, "gesetzestext")) ==>
                IsTrimOf(r, InnerText(Filter(Descendants(html), BlockTest("gesetzestext"))[0]), IsWhiteSpace)
    {
      BlockText(html, "gesetzestext")
    }
  }

  /**
   * A link target `/gesetze/<k>` names the statute code `k` itself, for
   * every code that contains no `/` and has no surrounding white space.
   */
  lemma KuerzelOfStatuteHref(k: string)
    requires '/' !in k
    requires k == [] || (!IsWhiteSpace(k[0]) && !IsWhiteSpace(k[|k| - 1]))
    ensures KuerzelOfHref(StatutePath + k) == k
  {
    var href := StatutePath + k;
    assert href[..|StatutePath|] == StatutePath && href[|StatutePath|..] == k;
    assert RemoveAll(href, StatutePath) == RemoveAll(k, StatutePath);
    NotContainsWithoutFirstChar(k, StatutePath);
    RemoveAllChangesIff(k, StatutePath);
    TrimUntrimmed(k, IsWhiteSpace);
  }

  /**
   * The code and the address of an alphabetical-index statute agree: when
   * its first anchor links to `/gesetze/<k>`, its `Kürzel` is `k` and its
   * `Url` is the statute page of `k`, whose table of contents then selects
   * links under `/gesetze/<k>/`.
   */
  lemma GesetzKuerzelAndUrl(g: Gesetz, k: string)
    requires g.Href() == Some(StatutePath + k)
    requires '/' !in k
    requires k == [] || (!IsWhiteSpace(k[0]) && !IsWhiteSpace(k[|k| - 1]))
    ensures g.Kuerzel() == k
    ensures g.Url() == Origin + StatutePath + k
  {
    KuerzelOfStatuteHref(k);
  }

  /**
   * A statute whose first anchor links to `/gesetze/<k>` reads its table of
   * contents from the statute page of `k`, and that table selects the
   * entries linking under `/gesetze/<k>/`.
   */
  lemma StatuteTableOfContents(g: Gesetz, k: string, fetch: string -> Node)
    requires g.Href() == Some(StatutePath + k)
    requires '/' !in k
    requires k == [] || (!IsWhiteSpace(k[0]) && !IsWhiteSpace(k[|k| - 1]))
    ensures g.LoadInhaltsverzeichnis(fetch).html == fetch(Origin + StatutePath + k)
    ensures g.LoadInhaltsverzeichnis(fetch).gesetz.Kuerzel() == k
  {
    GesetzKuerzelAndUrl(g, k);
  }

  /** The same for a statute listed under a subject area. */
  lemma RechtsgebietGesetzKuerzelAndUrl(g: RechtsgebietGesetz, k: string)
    requires Attribute(g.node, "href") == StatutePath + k
    requires '/' !in k
    requires k == [] || (!IsWhiteSpace(k[0]) && !IsWhiteSpace(k[|k| - 1]))
    ensures g.Kuerzel() == k
    ensures g.Url() == Origin + StatutePath + k
  {
    KuerzelOfStatuteHref(k);
  }
}
