# Dejure: the percent codec and the record-extraction rules

This project models the core of a small .NET client for the German legal
information site dejure.org. The model is in Dafny, and it is verified.

The client does three things:

- It reads the site's start page into subject areas (`Rechtsgebiet`) and
  statutes (`Gesetz`).
- It reads a statute's page into its table of contents
  (`Inhaltsverzeichnnis`) and that table's paragraph entries (`Paragraph`).
- It reads a paragraph's page into its text (`Text`).

Its search requests carry the query in a hand-written percent encoding
(`PercentEncoding`).

The project has seven modules:

- `Wrappers` defines `Option`. `None` stands for .NET `null`, and for a
  node-list query that matched nothing.
- `Strings` has the .NET string operations the core uses, over `seq<char>`:
  - ordinal `StartsWith` and `Contains`;
  - `Replace(p, "")`, as `RemoveAll`;
  - `Trim`, as `Trim`, `TrimWhiteSpace` and a characterisation `IsTrimOf`
    with exactly one solution.
- `PercentEncoding` covers the codec:
  - `Encode` and the fallback loop of `Decode` are methods with loops. Each
    is proved against a specification function (`EncodeBytes`,
    `UnescapeBytes`).
  - `NoSpans` is a function.
  - The fallback decoding inverts `Encode` on every Latin-1 string.
- `Html` is an abstract node tree: element name, attributes, ordered
  children, and text nodes. It carries the queries the source writes in
  XPath:
  - `SelectSingleNode(".//x")` is the first matching descendant in document
    order;
  - `SelectNodes` is all matching descendants in document order, or no list
    at all when nothing matches;
  - `InnerText`;
  - `GetAttributeValue` with an empty-string default.
- `Dejure` holds one datatype per record of `Dejure/DejureOrg.cs`. Each
  wraps the node it was made from, and each getter is a member function over
  that node.
- `DejureOrgHttpClient` holds the two request addresses of
  `Dejure/DejureOrgHttpClient.cs` (the paragraph page and the search) and
  the paragraph-text loader. The search address has a round-trip lemma. The
  paragraph address is tied to the address an entry links to.
- `Scenarios` builds small pages shaped like the site's markup. Its lemmas
  show that the records derived from them carry the values the repository's
  test suite expects.

Three details of the code are easy to misread:

- `Paragraph.Nummer` is the visible text of the entry's first anchor, not a
  value parsed from the link target. It therefore leads back to the
  paragraph's page (`.../{code}/{nummer}.html`) only when the anchor's text
  is the number in the link. `DejureOrgHttpClient.EntryUrlIsParagraphTextUrl`
  states the address in terms of the link target.
- A statute's `Kürzel` removes every `/gesetze/` from the link target, then
  trims white space. It does not remove other path separators. It is empty
  for the link target `/gesetze/` itself, although that link exists.
- A paragraph's `Text` has `Intro` and `Content` only. There is no separate
  heading block.

## Model

| member | source | states |
|---|---|---|
| PercentEncoding.Latin1Bytes | Dejure/PercentDecoder.cs:13 | `GetBytes` on Latin-1 code points gives one byte per character, equal to its code. |
| PercentEncoding.Latin1String | Dejure/PercentDecoder.cs:67 | `GetString` gives one character per byte, whose code is the byte, so the result is always Latin-1. |
| PercentEncoding.Latin1RoundTrip | Dejure/PercentDecoder.cs:13 | `GetString` undoes `GetBytes` on Latin-1 strings, and `GetBytes` undoes `GetString` on every byte sequence. |
| PercentEncoding.IsUnreserved | Dejure/PercentDecoder.cs:19-22 | The bytes kept as they are: ASCII letters, digits and `- _ . ~`. None of them is `%` or `&`, and all are below 128. |
| PercentEncoding.Encode | Dejure/PercentDecoder.cs:7-32 | A null or empty input comes back unchanged. Otherwise the result is `Encoded` of the input: its Latin-1 bytes, each percent-encoded in order. The loop invariant ties the partial result to the encoding of the bytes read so far. |
| PercentEncoding.EncodeByte | Dejure/PercentDecoder.cs:19-29 | An unreserved byte (ASCII letter, digit, `- _ . ~`) is written as itself. Every other byte is written as exactly `%` plus two upper-case hex digits whose value is the byte. |
| PercentEncoding.HexDigit | Dejure/PercentDecoder.cs:28 | `X2` formatting writes an upper-case hex digit, and that digit reads back as its value. |
| PercentEncoding.EncodeBytes | Dejure/PercentDecoder.cs:15-31 | The encoding is between n and 3n characters long, and it holds only unreserved characters and `%`. |
| PercentEncoding.Encoded | Dejure/PercentDecoder.cs:13-31 | The same bounds and alphabet for a string of Latin-1 code points. |
| PercentEncoding.EncodeBytesAppend | Dejure/PercentDecoder.cs:16-30 | Byte-by-byte appending: the encoding of a concatenation is the concatenation of the encodings. |
| PercentEncoding.EncodedLength | Dejure/PercentDecoder.cs:15-31 | The length is exactly the input length plus 2 per escaped byte. The output equals the input read as Latin-1 exactly when nothing needs escaping. |
| PercentEncoding.ParseHexPair | Dejure/PercentDecoder.cs:52 | `byte.TryParse(..., HexNumber)` on two characters. Two hex digits give 16·hi+lo, with digits in either case. A pair without any hex digit fails. One hex digit with number white space beside it is also accepted. |
| PercentEncoding.LowByte | Dejure/PercentDecoder.cs:59-64 | `(byte)c` keeps the low eight bits: it is the character's code when that is below 256, and differs from the code by a multiple of 256 otherwise. |
| PercentEncoding.UnescapeBytes | Dejure/PercentDecoder.cs:47-66 | The fallback never yields more bytes than it reads characters. |
| PercentEncoding.UnescapeBytesAt | Dejure/PercentDecoder.cs:48-61 | One loop step at index i. A `%` with two more characters that parse as hex gives that byte and skips the pair. Anything else gives the character's low byte and moves on by one. |
| PercentEncoding.LiteralPercent | Dejure/PercentDecoder.cs:50-60 | A `%` in the last two positions, or one followed by a pair that does not parse, is kept as a literal `%`, and decoding continues with the next character. |
| PercentEncoding.Latin1Unescaped | Dejure/PercentDecoder.cs:67 | The fallback result is never longer than the input, and every character in it is below U+0100. |
| PercentEncoding.Utf8Accepted | Dejure/PercentDecoder.cs:39-44 | The UTF-8 attempt is kept exactly when `UnescapeDataString` does not throw and its result has no `%`. |
| PercentEncoding.Decode | Dejure/PercentDecoder.cs:34-68 | A null or empty input comes back unchanged. A UTF-8 unescape that succeeds and leaves no `%` is returned. Otherwise the result is the byte-wise Latin-1 unescaping of the original input, not of the UTF-8 result. The loop invariant ties the collected bytes to `UnescapeBytes`. |
| PercentEncoding.UnescapeEncodeBytes | Dejure/PercentDecoder.cs:16-30 | The fallback unescaping reads every encoded byte sequence back to itself. |
| PercentEncoding.UnescapeEncodeByte | Dejure/PercentDecoder.cs:19-29 | The fallback reads the encoding of one byte back as that byte, and then carries on with what follows. |
| PercentEncoding.FallbackInvertsEncode | Dejure/PercentDecoder.cs:47-67 | For every string of Latin-1 code points, the fallback decoding of its encoding is the string itself. |
| PercentEncoding.EncodeThenDecode | Dejure/PercentDecoder.cs:34-44 | `Decode(Encode(s)) == s` for every Latin-1 string whose encoding the UTF-8 attempt does not accept. |
| PercentEncoding.NoSpans | Dejure/PercentDecoder.cs:70 | The output is never longer than the input. It equals the input exactly when neither `<span>` nor `</span>` occurs in it. A string without `<` comes back unchanged. |
| Strings.RemoveAll | Dejure/PercentDecoder.cs:70 | `Replace(p, "")` never lengthens a string and introduces no new character. |
| Strings.RemoveAllChangesIff | Dejure/PercentDecoder.cs:70 | `Replace(p, "")` changes a string exactly when `p` occurs in it, and then the string gets shorter. |
| Strings.NotContainsWithoutFirstChar | Dejure/PercentDecoder.cs:70 | A pattern does not occur in a string that lacks the pattern's first character. |
| Strings.IsWhiteSpace | Dejure/DejureOrg.cs:47 | The characters `Trim()` removes: those for which `char.IsWhiteSpace` holds. |
| Strings.Trim | Dejure/DejureOrg.cs:80 | `Trim(chars)` cuts the leading and trailing runs of the given characters and nothing else. |
| Strings.TrimUnique | Dejure/DejureOrg.cs:80 | That characterisation has exactly one solution, `Trim`'s own. |
| Strings.TrimIdempotent | Dejure/DejureOrg.cs:80 | Trimming twice gives the same result as trimming once. |
| Strings.TrimUntrimmed | Dejure/DejureOrg.cs:80 | A string that neither starts nor ends with a trimmed character comes back from `Trim` unchanged. |
| Strings.TrimWhiteSpace | Dejure/DejureOrg.cs:47 | `Trim()` cuts the leading and trailing white space. |
| Html.InnerText | Dejure/DejureOrg.cs:47 | `InnerText` is the text of every text node below the node, in document order. |
| Html.InnerTextOfAllAppend | Dejure/DejureOrg.cs:47 | The inner text of consecutive siblings is their inner texts concatenated in order. |
| Html.Descendants | Dejure/DejureOrg.cs:32 | `.//` ranges over every node below the given one, in document order. |
| Html.DescendantsBelow | Dejure/DejureOrg.cs:32 | A child and everything below it are descendants of its parent: `.//` looks at every level. |
| Html.Attribute | Dejure/DejureOrg.cs:49 | `GetAttributeValue(key, string.Empty)` gives the attribute's value, or the empty string when the node has no such attribute. |
| Html.Filter | Dejure/DejureOrg.cs:78 | `Where` keeps exactly the nodes that satisfy the test, and never more nodes than it was given. |
| Html.First | Dejure/DejureOrg.cs:32 | The first node that satisfies the test, if any. None exactly when no node does. |
| Html.SelectSingleNode | Dejure/DejureOrg.cs:32 | None exactly when no descendant matches. Otherwise the result is a matching descendant, and the first one in document order. |
| Html.SelectNodes | Dejure/DejureOrg.cs:20 | No list exactly when no descendant matches. Otherwise all matching descendants in document order, and never an empty list. |
| Dejure.IsSubjectAreaBlock | Dejure/DejureOrg.cs:20 | A subject area's block is a `div` whose class contains `gesetzesliste`. |
| Dejure.IsStatuteLink | Dejure/DejureOrg.cs:35 | A statute link in a subject area is an anchor whose link target starts with `/gesetze`. |
| Dejure.IsAlphabeticalIndex | Dejure/DejureOrg.cs:56 | The alphabetical index is a `div` with the id `alphabetisch`. |
| Dejure.IsEntryLink | Dejure/DejureOrg.cs:108 | An entry link starts with `/gesetze/{Kürzel}/` and does not have the class `zu_paragraph`. |
| Dejure.IsEntry | Dejure/DejureOrg.cs:108 | An entry is a `p` with an entry link somewhere below it. |
| Dejure.EntryLinkIsStatuteLink | Dejure/DejureOrg.cs:108 | Every entry link is also a statute link in the start page's sense, and never a cross-reference. |
| Dejure.DejureOrg.Rechtsgebiete | Dejure/DejureOrg.cs:19-22 | One subject area per `gesetzesliste` block, in document order. No list (the source throws) when the page has none. |
| Dejure.Rechtsgebiet.Name | Dejure/DejureOrg.cs:32 | The trimmed text of the first `h3` in the block, or the empty string when there is no `h3`. |
| Dejure.Rechtsgebiet.Gesetze | Dejure/DejureOrg.cs:34-37 | One statute per link starting with `/gesetze`, in document order. No list when there is no such link. |
| Dejure.RechtsgebietGesetz.Name | Dejure/DejureOrg.cs:47 | The anchor's text, white space trimmed. |
| Dejure.RechtsgebietGesetz.Url | Dejure/DejureOrg.cs:49 | The origin followed by the link target. Exactly the origin when there is no link target. |
| Dejure.RechtsgebietGesetz.Kuerzel | Dejure/DejureOrg.cs:51 | The link target with every `/gesetze/` removed, then trimmed. Empty when there is no link target. |
| Dejure.KuerzelOfHref | Dejure/DejureOrg.cs:51 | The code is the trim of the link target with `/gesetze/` removed, and never longer than the link target. |
| Dejure.KuerzelOfStatuteHref | Dejure/DejureOrg.cs:51 | The link target `/gesetze/k` gives back the code `k`, for every code without `/` and without white space at its ends. |
| Dejure.RechtsgebietGesetzKuerzelAndUrl | Dejure/DejureOrg.cs:49-51 | When the link target is `/gesetze/k`, the code is `k` and the address is the origin, then `/gesetze/`, then `k`. |
| Dejure.ListItemsOfAll | Dejure/DejureOrg.cs:57 | `SelectMany(b => b.SelectNodes(".//li"))`: the `li` items of the blocks, block by block, and no list when one block has none. |
| Dejure.ListItemsNone | Dejure/DejureOrg.cs:57 | `SelectMany` over the index blocks gives no list exactly when some block has no `li`, because `SelectMany` throws when it enumerates the null list that the selector returns for that block. |
| Dejure.ListItemsBelow | Dejure/DejureOrg.cs:57 | Every collected item is an `li` below one of the index blocks. |
| Dejure.ListItemsAppend | Dejure/DejureOrg.cs:56-57 | Items are collected block by block, in block order. There is no list when either part has a block without items. |
| Dejure.ListItemsOfOne | Dejure/DejureOrg.cs:57 | The items of one block are its `li` descendants in document order. |
| Dejure.DejureOrg.Gesetze | Dejure/DejureOrg.cs:55-59 | One statute per index item, in order. No list exactly when the page has no `alphabetisch` block, or one of them has no item. Every statute is an `li` below such a block. |
| Dejure.Gesetz.Href | Dejure/DejureOrg.cs:73 | The link target of the item's first anchor. None exactly when the item has no anchor. |
| Dejure.Gesetz.Name | Dejure/DejureOrg.cs:71 | The item's whole text, white space trimmed. |
| Dejure.Gesetz.Url | Dejure/DejureOrg.cs:73 | Always starts with the origin, followed by the first anchor's link target. Exactly the origin when the item has no anchor. |
| Dejure.Gesetz.Kuerzel | Dejure/DejureOrg.cs:75 | The first anchor's link target with `/gesetze/` removed, then trimmed. Empty when the item has no anchor. |
| Dejure.GesetzKuerzelAndUrl | Dejure/DejureOrg.cs:73-75 | When the first anchor links to `/gesetze/k`, the code is `k` and the address is the statute page of `k`. |
| Dejure.Gesetz.DirectText | Dejure/DejureOrg.cs:77-79 | Only the item's direct text children, concatenated in order. Text inside child elements is excluded. |
| Dejure.Gesetz.Bezeichnung | Dejure/DejureOrg.cs:77-80 | The direct text with spaces and parentheses trimmed, so the title never starts or ends with one of them. |
| Dejure.Gesetz.LoadInhaltsverzeichnis | Dejure/DejureOrg.cs:85-93 | The table of contents belongs to this statute, and its page is the one fetched from the statute's own `Url`. Without an anchor that is the bare origin. |
| Dejure.StatuteTableOfContents | Dejure/DejureOrg.cs:85-93 | A statute linking to `/gesetze/k` reads its table of contents from the statute page of `k`, and that table selects its entries under code `k`. |
| Dejure.BlockText | Dejure/DejureOrg.cs:105 | The trimmed text of the first block with the given id. The empty string, never a failure, when the page has no such block. |
| Dejure.Inhaltsverzeichnnis.Intro | Dejure/DejureOrg.cs:105 | The trimmed text of the `headgesetz` block, or the empty string when it is absent. |
| Dejure.Inhaltsverzeichnnis.Paragraphen | Dejure/DejureOrg.cs:107-110 | Exactly the `p` nodes, in document order and one entry each, that hold a link starting with `/gesetze/{Kürzel}/` whose class is not `zu_paragraph`. No list when there is none. |
| Dejure.Paragraph.Anchor | Dejure/DejureOrg.cs:122 | The entry's first anchor in document order. None exactly when the entry has no anchor. |
| Dejure.Paragraph.Nummer | Dejure/DejureOrg.cs:122 | The trimmed visible text of the first anchor, or the empty string when there is no anchor. |
| Dejure.Paragraph.Name | Dejure/DejureOrg.cs:124 | The entry's whole text, white space trimmed. |
| Dejure.Paragraph.Url | Dejure/DejureOrg.cs:126-128 | The empty string when there is no anchor. Otherwise the origin followed by the first anchor's link target. |
| Dejure.Paragraph.LoadText | Dejure/DejureOrg.cs:130-138 | The text belongs to the entry's statute and to the entry itself, and its page is the one fetched from the entry's own `Url`. Without an anchor that is the empty address. |
| Dejure.Text.Intro | Dejure/DejureOrg.cs:161 | The trimmed text of the `headgesetz` block, or the empty string when it is absent. |
| Dejure.Text.Content | Dejure/DejureOrg.cs:163 | The trimmed text of the `gesetzestext` block, or the empty string when it is absent. |
| DejureOrgHttpClient.ParagraphTextUrl | Dejure/DejureOrgHttpClient.cs:28 | The paragraph page lies under the statutes path of the site, at `{code}/{nummer}.html`. |
| DejureOrgHttpClient.EntryUrlIsParagraphTextUrl | Dejure/DejureOrg.cs:126-128 | An entry whose first anchor links to `/gesetze/k/n.html` has the same address the client builds for code `k` and number `n`. |
| DejureOrgHttpClient.LoadPragraphText | Dejure/DejureOrgHttpClient.cs:26-34 | The text is detached, carries the given code and number, and its page is the one fetched from the paragraph address of that code and number. |
| DejureOrgHttpClient.EntryTextIsParagraphText | Dejure/DejureOrgHttpClient.cs:26-34 | An entry whose first anchor links to `/gesetze/k/n.html` loads the same page as `LoadPragraphText(k, n)`, so both give the same intro and content. |
| DejureOrgHttpClient.SearchUrl | Dejure/DejureOrgHttpClient.cs:38 | The search address is the fixed prefix, then the encoded term, then `&korrektur=1`. The term part holds only unreserved characters and `%`. |
| DejureOrgHttpClient.SearchTermOf | Dejure/DejureOrgHttpClient.cs:38 | Reading a term back from a search address gives a Latin-1 string. |
| DejureOrgHttpClient.SearchUrlRoundTrip | Dejure/DejureOrgHttpClient.cs:38 | The encoded term holds no `&`, so it stays one parameter, and unescaping it gives back the term. |
| Scenarios.StartPageSubjectArea | Dejure.Test/Rechtsgebiete.cs:46-47 | A start page with one `gesetzesliste` block yields one area, "Bürgerliches Recht". That area's only statute has the code "BGB" and the name "Bürgerliches Gesetzbuch". |
| Scenarios.AagName | Dejure.Test/Gesetze.cs:28 | An index item shaped like the site's AAG entry has the name "AAG (Gesetz über den Ausgleich …)". |
| Scenarios.AagCode | Dejure.Test/Gesetze.cs:29 | That item's code is "AAG". |
| Scenarios.AagBezeichnung | Dejure.Test/Gesetze.cs:30 | That item's title is the parenthesised text without the parentheses. |
| Scenarios.EntryIsKept | Dejure/DejureOrg.cs:108 | A `p` linking to `/gesetze/BRAO/43e.html` is an entry of BRAO. |
| Scenarios.CrossReferenceIsSkipped | Dejure/DejureOrg.cs:108 | A `p` whose only link into BRAO has the class `zu_paragraph` is not an entry. |
| Scenarios.ForeignReferenceIsSkipped | Dejure/DejureOrg.cs:108 | A `p` linking into BGB is not an entry of BRAO. |
| Scenarios.EntryNummer | Dejure.Test/Gesetze.cs:41 | The BRAO entry's number is "43e". |
| Scenarios.EntryName | Dejure.Test/Gesetze.cs:42 | The BRAO entry's name is its whole text: the paragraph sign, then "43e Inanspruchnahme von Dienstleistungen". |
| Scenarios.EntryUrl | Dejure/DejureOrg.cs:126-128 | The BRAO entry's address is the origin followed by `/gesetze/BRAO/43e.html`. |

## Left out

- The HTTP requests are not modelled. In `LoadInhaltsverzeichnis`, `LoadText` and `LoadPragraphText` (Dejure/DejureOrg.cs:85-93, :130-138, Dejure/DejureOrgHttpClient.cs:26-34) a parameter `fetch` stands for the request to an address and the parsing of its response. Asynchrony, HTTP failures and exceptions, and different responses to repeated requests are not modelled.
- `Load` and `Suchen` (Dejure/DejureOrgHttpClient.cs:16-24, :36-41) are not modelled as loaders. They are a request plus a constructor call. What is modelled is the start-page record `DejureOrg` built from a parsed page, and the search address.
- HtmlAgilityPack is not modelled: not its HTML parsing, not its entity decoding inside `InnerText`, not its comment nodes, and not `OuterHtml` (the `Html` getter, Dejure/DejureOrg.cs:82). It is a library outside the repository. The node tree stands in for its parsed document, and text nodes hold their decoded text.
- XPath is modelled only through the fixed queries the core uses. A statute code containing an apostrophe would break the XPath string literal at Dejure/DejureOrg.cs:108. The model compares the code directly instead.
- `Uri.UnescapeDataString` is a parameter of `Decode` (`None` where it throws), not a definition. UTF-8 decoding belongs to the platform.
- PercentEncoding.UnescapeBytes: strings are sequences of Unicode scalar values, not of UTF-16 code units as in .NET. A character above U+FFFF, such as U+1F600, is one character here but two code units in the source, so the fallback gives one byte for it where the source gives two. Lone surrogates cannot occur, and `Length` and the `i + 2 < Length` test count scalar values. For text without characters above U+FFFF the two agree.
- PercentEncoding.Encode: requires every character to be at most U+00FF. The Latin-1 encoder's replacement of other characters by `?` is not modelled.
- PercentEncoding.ParseHexPair: models leading or trailing number white space (U+0009–U+000D, U+0020), which `NumberStyles.HexNumber` accepts. It does not model the trailing NUL characters that .NET number parsing also tolerates.
- Null strings are modelled (as `None`) only where the source tests for them, in `Encode` and `Decode`. Everywhere else a string is present.
- The search-result decoder (`DejureOrg.ParseSuchergebnis`, `Suchergebnis`) is not part of this model. Its source is not among the files modelled, only its call site.
- `DejureMcp.Stdio/Program.cs`, the tool host that exposes the client, is not modelled. It is hosting and mapping glue.
- No claim that `Decode(Encode(s)) == s` for every Latin-1 string. A Latin-1 string whose bytes form valid UTF-8 comes back through the UTF-8 branch in its UTF-8 reading. `PercentEncoding.EncodeThenDecode` states the round trip under the condition that the UTF-8 attempt is not kept.
- No claim that `NoSpans` is idempotent. Removing one tag can join the text around it into another tag.
