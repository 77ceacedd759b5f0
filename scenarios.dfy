/**
 * Small pages shaped like the site's markup, with the records the
 * extraction rules derive from them; the expected values are the ones the
 * repository's own test suite asserts against the live site.
 */
module Scenarios {
  import opened Wrappers
  import opened Strings
  import opened Html
  import opened Dejure

  const Heading: Node := Element("h3", map[], [Text("B\U{FC}rgerliches Recht")])
  const Link: Node := Element("a", map["href" := "/gesetze/BGB"], [Text("B\U{FC}rgerliches Gesetzbuch")])
  const Area: Node := Element("div", map["class" := "gesetzesliste"], [Heading, Link])

  /** A start page with one subject area holding one statute link. */
  const StartPage: Node := Element("#document", map[], [Area])

  lemma AreaDescendants()
    ensures Descendants(Area) == [Heading, Heading.children[0], Link, Link.children[0]]
  {
    assert Descendants(Heading) == [Heading.children[0]];
    assert Descendants(Link) == [Link.children[0]];
    assert DescendantsOfAll([Link]) == [Link, Link.children[0]];
  }

  lemma StartPageDescendants()
    ensures Descendants(StartPage) == [Area] + Descendants(Area)
  {
    assert DescendantsOfAll([Area]) == [Area] + Descendants(Area) + DescendantsOfAll([]);
  }

  /** The only `gesetzesliste` block of the start page is `Area`. */
  lemma StartPageAreaBlocks()
    ensures Filter(Descendants(StartPage), IsSubjectAreaBlock) == [Area]
  {
    AreaDescendants();
    StartPageDescendants();
    assert IsSubjectAreaBlock(Area) by {
      assert StartsWith("gesetzesliste", "gesetzesliste");
    }
    var t1, t2 := Heading.children[0], Link.children[0];
    FilterCons(Area, [Heading, t1, Link, t2], IsSubjectAreaBlock);
    FilterCons(Heading, [t1, Link, t2], IsSubjectAreaBlock);
    FilterCons(t1, [Link, t2], IsSubjectAreaBlock);
    FilterCons(Link, [t2], IsSubjectAreaBlock);
    FilterCons(t2, [], IsSubjectAreaBlock);
  }

  /** The start page's one `gesetzesliste` block is its one subject area. */
  lemma StartPageAreas()
    ensures DejureOrg(StartPage).Rechtsgebiete() == Some([Rechtsgebiet(Area)])
  {
    StartPageAreaBlocks();
    var r := DejureOrg(StartPage).Rechtsgebiete();
    assert Area in Descendants(StartPage) by { StartPageDescendants(); }
    assert |r.value| == 1 && r.value[0].node == Area;
    assert r.value == [r.value[0]];
  }

  lemma HeadingText()
    ensures InnerText(Heading) == "B\U{FC}rgerliches Recht"
  {
  }

  /** The area is named by its heading. */
  lemma AreaName()
    ensures Rechtsgebiet(Area).Name() == "B\U{FC}rgerliches Recht"
  {
    AreaDescendants();
    var t1, t2 := Heading.children[0], Link.children[0];
    assert Descendants(Area) == [Heading] + [t1, Link, t2];
    FilterCons(Heading, [t1, Link, t2], IsHeading);
    assert Heading in Descendants(Area);
    HeadingText();
    TrimUntrimmed("B\U{FC}rgerliches Recht", IsWhiteSpace);
  }

  /** The only statute link inside `Area` is `Link`. */
  lemma AreaStatuteLinks()
    ensures Filter(Descendants(Area), IsStatuteLink) == [Link]
  {
    AreaDescendants();
    assert IsStatuteLink(Link) by {
      assert StartsWith("/gesetze/BGB", "/gesetze");
    }
    var t1, t2 := Heading.children[0], Link.children[0];
    FilterCons(Heading, [t1, Link, t2], IsStatuteLink);
    FilterCons(t1, [Link, t2], IsStatuteLink);
    FilterCons(Link, [t2], IsStatuteLink);
    FilterCons(t2, [], IsStatuteLink);
  }

  /** The area lists the one statute it links to. */
  lemma AreaStatutes()
    ensures Rechtsgebiet(Area).Gesetze() == Some([RechtsgebietGesetz(Link)])
  {
    AreaStatuteLinks();
    var r := Rechtsgebiet(Area).Gesetze();
    assert Link in Descendants(Area) by { AreaDescendants(); }
    assert |r.value| == 1 && r.value[0].node == Link;
    assert r.value == [r.value[0]];
  }

  /**
   * The start page yields exactly one subject area, "Bürgerliches Recht",
   * whose only statute has the code "BGB" and the name "Bürgerliches
   * Gesetzbuch" (the expectations of `Dejure.Test/Rechtsgebiete.cs`).
   */
  lemma StartPageSubjectArea()
    ensures DejureOrg(StartPage).Rechtsgebiete() == Some([Rechtsgebiet(Area)])
    ensures Rechtsgebiet(Area).Name() == "B\U{FC}rgerliches Recht"
    ensures Rechtsgebiet(Area).Gesetze() == Some([RechtsgebietGesetz(Link)])
    ensures RechtsgebietGesetz(Link).Kuerzel() == "BGB"
    ensures RechtsgebietGesetz(Link).Name() == "B\U{FC}rgerliches Gesetzbuch"
  {
    StartPageAreas();
    AreaName();
    AreaStatutes();
    StatuteCode();
    StatuteName();
  }

  /** The statute's code comes from its link target. */
  lemma StatuteCode()
    ensures RechtsgebietGesetz(Link).Kuerzel() == "BGB"
  {
  }

  /** The statute's name is its link's visible text. */
  lemma StatuteName()
    ensures RechtsgebietGesetz(Link).Name() == "B\U{FC}rgerliches Gesetzbuch"
  {
    assert InnerTextOfAll([]) == "";
    assert InnerText(Link) == "B\U{FC}rgerliches Gesetzbuch";
    TrimUntrimmed("B\U{FC}rgerliches Gesetzbuch", IsWhiteSpace);
  }

  /** Filtering a sequence looks at its first node, then at the rest. */
  lemma FilterCons(x: Node, xs: seq<Node>, p: Node -> bool)
    ensures Filter([x] + xs, p) == (if p(x) then [x] else []) + Filter(xs, p)
  {
  }

  /** The descendants of a child list: the first child, its descendants, then the rest. */
  lemma DescendantsCons(x: Node, xs: seq<Node>)
    ensures DescendantsOfAll([x] + xs) == [x] + Descendants(x) + DescendantsOfAll(xs)
  {
  }

  /** An element whose children are all text nodes has exactly those as descendants. */
  lemma TextChildren(n: Node)
    requires n.Element? && forall c :: c in n.children ==> c.Text?
    ensures Descendants(n) == n.children
    decreases |n.children|
  {
    TextList(n.children);
  }

  lemma {:induction false} TextList(cs: seq<Node>)
    requires forall c :: c in cs ==> c.Text?
    ensures DescendantsOfAll(cs) == cs
  {
    if cs != [] {
      assert cs[0] in cs;
      assert forall c :: c in cs[1..] ==> c in cs;
      TextList(cs[1..]);
      DescendantsCons(cs[0], cs[1..]);
      assert [cs[0]] + cs[1..] == cs;
    }
  }

  /** The long title of the first statute of the alphabetical index. */
  const AagTitle: string := "Gesetz" + " \U{FC}ber den Ausgleich der Arbeitgeberaufwendungen f\U{FC}r Entgeltfortzahlung"

  const AagLink: Node := Element("a", map["href" := "/gesetze/AAG"], [Text("AAG")])
  const AagSuffix: Node := Text(" (" + AagTitle + ")")

  /** An alphabetical-index item: the code as a link, then the title in parentheses. */
  const AagItem: Node := Element("li", map[], [AagLink, AagSuffix])

  /** The item's first anchor is its code link. */
  lemma AagHref()
    ensures Gesetz(AagItem).Href() == Some("/gesetze/AAG")
  {
    TextChildren(AagLink);
    TextList([AagSuffix]);
    DescendantsCons(AagLink, [AagSuffix]);
    assert Descendants(AagItem) == [AagLink, AagLink.children[0], AagSuffix];
    FilterCons(AagLink, [AagLink.children[0], AagSuffix], IsAnchor);
  }

  /** The item's direct text is the parenthesised title. */
  lemma AagDirectText()
    ensures Gesetz(AagItem).DirectText() == " (" + AagTitle + ")"
  {
    FilterCons(AagLink, [AagSuffix], IsTextNode);
    FilterCons(AagSuffix, [], IsTextNode);
    assert Filter(AagItem.children, IsTextNode) == [AagSuffix];
    assert InnerTextOfAll([AagSuffix]) == InnerText(AagSuffix) + InnerTextOfAll([]);
  }

  lemma AagText()
    ensures InnerText(AagItem) == "AAG" + InnerText(AagSuffix)
  {
    assert InnerTextOfAll([]) == "";
    assert InnerText(AagLink) == "AAG";
    assert InnerTextOfAll([AagSuffix]) == InnerText(AagSuffix);
    assert AagItem.children[1..] == [AagSuffix];
  }

  /** The item's name is its whole text: the code, then the parenthesised title (`Dejure.Test/Gesetze.cs`). */
  lemma AagName()
    ensures Gesetz(AagItem).Name() == "AAG" + " (" + AagTitle + ")"
  {
    AagText();
    var name := "AAG" + " (" + AagTitle + ")";
    assert InnerText(AagItem) == name;
    assert name[0] == 'A' && name[|name| - 1] == ')';
    TrimUntrimmed(name, IsWhiteSpace);
  }

  /** The item's code comes from its link target (`Dejure.Test/Gesetze.cs`). */
  lemma AagCode()
    ensures Gesetz(AagItem).Kuerzel() == "AAG"
  {
    AagHref();
    assert "/gesetze/AAG" == StatutePath + "AAG";
    GesetzKuerzelAndUrl(Gesetz(AagItem), "AAG");
  }

  /**
   * The item's long title is its direct text without the surrounding space
   * and parentheses, and without the code link's text (`Dejure.Test/Gesetze.cs`).
   */
  lemma AagBezeichnung()
    ensures Gesetz(AagItem).Bezeichnung() == AagTitle
  {
    AagDirectText();
    var t := " (" + AagTitle + ")";
    assert t[2..|t| - 1] == AagTitle;
    assert t[2] == AagTitle[0] == 'G' && t[|t| - 2] == AagTitle[|AagTitle| - 1] == 'g';
    assert t[0] == ' ' && t[1] == '(' && t[|t| - 1] == ')';
    assert TrimBounds(t, IsTitleTrimChar, 2, |t| - 1);
    TrimUnique(AagTitle, t, IsTitleTrimChar);
  }

  /** A table-of-contents entry: the paragraph sign, the number as a link, the heading. */
  const EntryLink: Node := Element("a", map["href" := "/gesetze/BRAO/43e.html"], [Text("43e")])
  const Entry: Node :=
    Element("p", map[], [Text("\U{A7} "), EntryLink, Text(" Inanspruchnahme von Dienstleistungen")])

  /** A cross-reference into the same statute, marked `zu_paragraph`. */
  const CrossLink: Node := Element("a", map["href" := "/gesetze/BRAO/43a.html", "class" := "zu_paragraph"], [Text("43a")])
  const CrossReference: Node := Element("p", map[], [CrossLink])

  /** A link into another statute. */
  const ForeignLink: Node := Element("a", map["href" := "/gesetze/BGB/1.html"], [Text("1")])
  const ForeignReference: Node := Element("p", map[], [ForeignLink])

  lemma EntryDescendants()
    ensures Descendants(Entry) == [Entry.children[0], EntryLink, EntryLink.children[0], Entry.children[2]]
  {
    TextChildren(EntryLink);
    TextList([Entry.children[2]]);
    DescendantsCons(EntryLink, [Entry.children[2]]);
    DescendantsCons(Entry.children[0], [EntryLink, Entry.children[2]]);
  }

  /** The entry links into BRAO and is kept. */
  lemma EntryIsKept()
    ensures IsEntry("BRAO", Entry)
  {
    EntryDescendants();
    assert StartsWith("/gesetze/BRAO/43e.html", StatutePath + "BRAO" + "/");
    assert IsEntryLink("BRAO", EntryLink);
  }

  /** The `zu_paragraph` cross-reference is skipped although it links into BRAO. */
  lemma CrossReferenceIsSkipped()
    ensures !IsEntry("BRAO", CrossReference)
  {
    TextChildren(CrossLink);
    DescendantsCons(CrossLink, []);
    assert [CrossLink] + [] == [CrossLink] && DescendantsOfAll([]) == [];
    assert Descendants(CrossReference) == [CrossLink, CrossLink.children[0]];
    assert Attribute(CrossLink, "class") == "zu_paragraph";
  }

  /** A link into BGB is not an entry of BRAO. */
  lemma ForeignReferenceIsSkipped()
    ensures !IsEntry("BRAO", ForeignReference)
  {
    TextChildren(ForeignLink);
    DescendantsCons(ForeignLink, []);
    assert [ForeignLink] + [] == [ForeignLink] && DescendantsOfAll([]) == [];
    assert Descendants(ForeignReference) == [ForeignLink, ForeignLink.children[0]];
    assert !StartsWith("/gesetze/BGB/1.html", StatutePath + "BRAO" + "/") by {
      assert "/gesetze/BGB/1.html"[10] != (StatutePath + "BRAO" + "/")[10];
    }
  }

  /** The entry's first anchor is its number link. */
  lemma EntryAnchor(toc: Inhaltsverzeichnnis)
    ensures Paragraph(Entry, toc).Anchor() == Some(EntryLink)
  {
    EntryDescendants();
    FilterCons(Entry.children[0], [EntryLink, EntryLink.children[0], Entry.children[2]], IsAnchor);
    FilterCons(EntryLink, [EntryLink.children[0], Entry.children[2]], IsAnchor);
  }

  /** The entry's number is the link's visible text "43e" (`Dejure.Test/Gesetze.cs`). */
  lemma EntryNummer(toc: Inhaltsverzeichnnis)
    ensures Paragraph(Entry, toc).Nummer() == "43e"
  {
    EntryAnchor(toc);
    assert InnerTextOfAll([]) == "";
    assert InnerText(EntryLink) == "43e";
    TrimUntrimmed("43e", IsWhiteSpace);
  }

  /** The entry's address is the link target on the site. */
  lemma EntryUrl(toc: Inhaltsverzeichnnis)
    ensures Paragraph(Entry, toc).Url() == Origin + "/gesetze/BRAO/43e.html"
  {
    EntryAnchor(toc);
    assert Attribute(EntryLink, "href") == "/gesetze/BRAO/43e.html";
  }

  /** The text below the entry, child by child. */
  lemma EntryText()
    ensures InnerText(Entry) == "\U{A7} " + "43e" + " Inanspruchnahme von Dienstleistungen"
  {
    var t0, t2 := Entry.children[0], Entry.children[2];
    assert InnerTextOfAll([]) == "";
    assert InnerText(EntryLink) == "43e";
    assert InnerTextOfAll([t2]) == InnerText(t2);
    assert [EntryLink, t2][1..] == [t2];
    assert InnerTextOfAll([EntryLink, t2]) == "43e" + InnerText(t2);
    assert Entry.children[1..] == [EntryLink, t2];
    assert InnerText(Entry) == InnerText(t0) + InnerTextOfAll([EntryLink, t2]);
  }

  /** The entry's name is its whole text, the paragraph sign included (`Dejure.Test/Gesetze.cs`). */
  lemma EntryName(toc: Inhaltsverzeichnnis)
    ensures Paragraph(Entry, toc).Name() == "\U{A7} " + "43e" + " Inanspruchnahme von Dienstleistungen"
  {
    EntryText();
    var name := "\U{A7} " + "43e" + " Inanspruchnahme von Dienstleistungen";
    assert name[0] == '\U{A7}' && name[|name| - 1] == 'n';
    TrimUntrimmed(name, IsWhiteSpace);
  }
}
