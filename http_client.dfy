/**
 * The two addresses `Dejure/DejureOrgHttpClient.cs` requests besides the
 * start page: the page of one paragraph of a statute, and the site's search
 * endpoint with the percent-encoded query. The requests themselves are not
 * modelled.
 */
module DejureOrgHttpClient {
  import opened Wrappers
  import opened Strings
  import opened Html
  import opened PercentEncoding
  import opened Dejure

  /** Everything of a search address before the encoded query. */
  const SearchPrefix: string := "https://dejure.org/cgi-bin/jquery-suche01.fcgi?term="

  /** Everything of a search address after the encoded query. */
  const SearchSuffix: string := "&korrektur=1"

  /** The page `LoadPragraphText` fetches for a statute code and a paragraph number. */
  function ParagraphTextUrl(kuerzel: string, nummer: string): (url: string)
    ensures StartsWith(url, Origin + StatutePath)
    ensures url[|Origin + StatutePath|..] == kuerzel + "/" + nummer + ".html"
  {
    Origin + StatutePath + kuerzel + "/" + nummer + ".html"
  }

  /**
   * A table-of-contents entry whose first anchor links to the page of
   * paragraph `n` of statute `k` has that page as its `Url`: loading the
   * entry's text and loading the text by code and number fetch the same page.
   */
  lemma EntryUrlIsParagraphTextUrl(p: Paragraph, k: string, n: string)
    requires p.Anchor().Some?
    requires Attribute(p.Anchor().value, "href") == StatutePath + k + "/" + n + ".html"
    ensures p.Url() == ParagraphTextUrl(k, n)
  {
  }

  /**
   * `LoadPragraphText`: the text of paragraph `nummer` of statute `kuerzel`,
   * read from the paragraph page without a table-of-contents entry.
   */
  function LoadPragraphText(kuerzel: string, nummer: string, fetch: string -> Node): (t: Text)
    ensures t.Detached? && t.gesetzesKuerzel == kuerzel && t.paragraphNummer == nummer
    ensures t.html == fetch(ParagraphTextUrl(kuerzel, nummer))
  {
    Detached(kuerzel, nummer, fetch(ParagraphTextUrl(kuerzel, nummer)))
  }

  /**
   * The two ways to a paragraph's text agree: an entry whose first anchor
   * links to the page of paragraph `n` of statute `k` loads the same page,
   * with the same intro and content, as loading the text by `k` and `n`.
   */
  lemma EntryTextIsParagraphText(p: Paragraph, k: string, n: string, fetch: string -> Node)
    requires p.Anchor().Some?
    requires Attribute(p.Anchor().value, "href") == StatutePath + k + "/" + n + ".html"
    ensures p.LoadText(fetch).html == LoadPragraphText(k, n, fetch).html
    ensures p.LoadText(fetch).Intro() == LoadPragraphText(k, n, fetch).Intro()
    ensures p.LoadText(fetch).Content() == LoadPragraphText(k, n, fetch).Content()
  {
    EntryUrlIsParagraphTextUrl(p, k, n);
  }

  /** The address `Suchen` fetches: the search term goes through `Encode`. */
  function SearchUrl(term: string): (url: string)
    requires IsLatin1(term)
    ensures |SearchPrefix| + |SearchSuffix| <= |url|
    ensures StartsWith(url, SearchPrefix) && url[|url| - |SearchSuffix|..] == SearchSuffix
    ensures forall i :: |SearchPrefix| <= i < |url| - |SearchSuffix| ==> IsEncodedChar(url[i])
  {
    var q := Encoded(term);
    var u := SearchPrefix + q + SearchSuffix;
    assert u[|SearchPrefix|..|u| - |SearchSuffix|] == q;
    assert forall i :: |SearchPrefix| <= i < |u| - |SearchSuffix| ==> u[i] in q;
    u
  }

  /**
   * Reads the search term back out of a search address: the text between
   * the fixed prefix and suffix, which must not hold a parameter separator,
   * unescaped byte by byte.
   */
  function SearchTermOf(url: string): (term: Option<string>)
    ensures term.Some? ==> IsLatin1(term.value)
  {
    if |url| < |SearchPrefix| + |SearchSuffix| || !StartsWith(url, SearchPrefix)
      || url[|url| - |SearchSuffix|..] != SearchSuffix
    then None
    else
      var q := url[|SearchPrefix|..|url| - |SearchSuffix|];
      if '&' in q then None else Some(Latin1Unescaped(q))
  }

  /**
   * The search term survives the trip through the address: the encoded
   * query holds no `&`, so it stays one parameter, and unescaping it gives
   * the term back.
   */
  lemma SearchUrlRoundTrip(term: string)
    requires IsLatin1(term)
    ensures SearchTermOf(SearchUrl(term)) == Some(term)
  {
    var url := SearchUrl(term);
    var q := Encoded(term);
    assert url == SearchPrefix + q + SearchSuffix;
    assert url[|SearchPrefix|..|url| - |SearchSuffix|] == q;
    assert '&' !in q;
    FallbackInvertsEncode(term);
  }
}
