/**
  `JatsXmlBuilder`: a citation array becomes one JATS `element-citation`
  element, appended to a document that the builder keeps for its whole life.
  The document is modelled as the list of its root elements and each element
  as a tree (tag, attributes, text content, children) rather than as bytes.
*/
module Jats {
  import opened Wrappers
  import opened PhpStrings
  import opened PhpValues
  import Citation

  /** An element node: its tag, its attributes in the order set, its text content and its child elements. */
  datatype Element = Element(tag: string, attributes: seq<(string, string)>, text: string, children: seq<Element>)

  /** The tags of a list of elements, in order. */
  function Tags(es: seq<Element>): (r: seq<string>)
    ensures |r| == |es| && forall i :: 0 <= i < |es| ==> r[i] == es[i].tag
  {
    seq(|es|, i requires 0 <= i < |es| => es[i].tag)
  }

  /** A tag that is written or not. */
  function Optional(tag: string, present: bool): seq<string> {
    if present then [tag] else []
  }

  /** A tag written n times. */
  function Repeat(tag: string, n: nat): (r: seq<string>)
    ensures |r| == n && forall i :: 0 <= i < n ==> r[i] == tag
  {
    seq(n, _ => tag)
  }

  /**
    `createElement($tag, htmlspecialchars($value))`: the DOM reads the entity
    references in the escaped value back, which gives the text content.
  */
  function TextElement(tag: string, value: string): Element {
    Element(tag, [], XmlContent(HtmlSpecialChars(value)), [])
  }

  /** `addElement($parent, $tag, $value)`: the element it appends, if any (none for null and for ""). */
  function AddElement(tag: string, value: Option<string>): seq<Element> {
    if value.Some? && value.value != "" then [TextElement(tag, value.value)] else []
  }

  /** The value `addElement` is given for `surname`: `$author['family'] ?? ''`. */
  function FamilyValue(author: Json): Option<string> {
    AsNullableString(Or(Field(author, "family"), JStr("")))
  }

  /** The `name` element of one author: `surname`, then `given-names` when `given` is not `empty()`. */
  function NameElement(author: Json): Element {
    var given := Field(author, "given");
    Element("name", [], "",
      AddElement("surname", FamilyValue(author))
      + (if Truthy(given) then AddElement("given-names", AsNullableString(given)) else []))
  }

  /** The `person-group` written for one author. */
  function PersonGroup(author: Json): Element {
    Element("person-group", [("person-group-type", "author")], "", [NameElement(author)])
  }

  /** The person groups `addAuthors` appends, one per author, in order. */
  function PersonGroups(authors: seq<Json>): seq<Element> {
    if authors == [] then []
    else PersonGroups(authors[..|authors| - 1]) + [PersonGroup(authors[|authors| - 1])]
  }

  /** The `$dateElements` array of `addDateElements`: tag and value, in order. */
  function DatePairs(c: Citation.CitationData): seq<(string, Option<int>)> {
    [("year", c.year), ("month", c.month), ("day", c.day)]
  }

  /** One date element: `addElement($parent, $tag, (string)$value)` when the value is not null. */
  function DateElement(tag: string, value: Option<int>): seq<Element> {
    if value.Some? then AddElement(tag, Some(Decimal(value.value))) else []
  }

  /** The elements the `foreach` over the given date pairs appends. */
  function DateElementsOf(pairs: seq<(string, Option<int>)>): seq<Element> {
    if pairs == [] then []
    else DateElementsOf(pairs[..|pairs| - 1]) + DateElement(pairs[|pairs| - 1].0, pairs[|pairs| - 1].1)
  }

  /** `addPageElements`: `fpage` (then `lpage`) for a truthy first page, else `page-range` for a truthy range. */
  function PageElements(c: Citation.CitationData): seq<Element> {
    if TruthyString(c.firstPage) then
      AddElement("fpage", c.firstPage)
      + (if TruthyString(c.lastPage) then AddElement("lpage", c.lastPage) else [])
    else if TruthyString(c.pageRange) then AddElement("page-range", c.pageRange)
    else []
  }

  /** `addDoiElement`: a `pub-id` of type doi for a truthy DOI. */
  function DoiElements(doi: Option<string>): seq<Element> {
    if TruthyString(doi) then
      [Element("pub-id", [("pub-id-type", "doi")], XmlContent(HtmlSpecialChars(doi.value)), [])]
    else []
  }

  /** The children `buildCitation` appends before the page elements. */
  function HeadElements(c: Citation.CitationData): seq<Element> {
    PersonGroups(c.authors)
    + AddElement("article-title", c.title)
    + AddElement("source", c.source)
    + DateElementsOf(DatePairs(c))
    + AddElement("volume", c.volume)
    + AddElement("issue", c.issue)
  }

  /** The children of the citation element, in the order `buildCitation` appends them. */
  function Children(c: Citation.CitationData): seq<Element> {
    HeadElements(c) + PageElements(c) + DoiElements(c.doi)
  }

  /** The root element one `buildCitation` call appends to the document. */
  function CitationElement(c: Citation.CitationData): Element {
    Element("element-citation", [("publication-type", "journal")], "", Children(c))
  }

  /** `JatsXmlBuilder`: the document is created once and shared by every call. */
  class JatsXmlBuilder {
    /** The root elements of the document, in the order appended. */
    var document: seq<Element>

    /** `new DOMDocument('1.0', 'UTF-8')`: an empty document. */
    constructor()
      ensures document == []
    {
      document := [];
    }

    /**
      `buildCitation($citationData)`: reads the array with `fromArray`, appends
      one more `element-citation` root to the document and serialises the whole
      document, earlier roots included.
    */
    method BuildCitation(citationData: Json) returns (xml: seq<Element>)
      modifies this
      ensures document == old(document) + [CitationElement(Citation.FromArray(citationData))]
      ensures xml == document
    {
      var citation := Citation.FromArray(citationData);
      var children: seq<Element> := [];
      children := AddAuthors(children, citation.authors);
      assert children == PersonGroups(citation.authors);
      children := children + AddElement("article-title", citation.title);
      children := children + AddElement("source", citation.source);
      children := AddDateElements(children, citation);
      children := children + AddElement("volume", citation.volume);
      children := children + AddElement("issue", citation.issue);
      children := children + PageElements(citation);
      children := children + DoiElements(citation.doi);
      document := document + [Element("element-citation", [("publication-type", "journal")], "", children)];
      xml := document;
    }

    /** `addAuthors`: one person group per author appended to the parent's children. */
    method AddAuthors(parent: seq<Element>, authors: seq<Json>) returns (r: seq<Element>)
      ensures r == parent + PersonGroups(authors)
    {
      r := parent;
      for i := 0 to |authors|
        invariant r == parent + PersonGroups(authors[..i])
      {
        PersonGroupsPrefix(authors, i);
        var author := authors[i];
        var given := Field(author, "given");
        var givenNames: seq<Element> := [];
        if Truthy(given) {
          givenNames := AddElement("given-names", AsNullableString(given));
        }
        var name := Element("name", [], "", AddElement("surname", FamilyValue(author)) + givenNames);
        assert name == NameElement(author);
        r := r + [Element("person-group", [("person-group-type", "author")], "", [name])];
      }
      assert authors[..|authors|] == authors;
    }

    /** `addDateElements`: year, month and day appended in that order, each when not null. */
    method AddDateElements(parent: seq<Element>, citation: Citation.CitationData) returns (r: seq<Element>)
      ensures r == parent + DateElementsOf(DatePairs(citation))
    {
      var dateElements := DatePairs(citation);
      r := parent;
      for i := 0 to |dateElements|
        invariant r == parent + DateElementsOf(dateElements[..i])
      {
        DateElementsPrefix(dateElements, i);
        var (tag, value) := dateElements[i];
        if value.Some? {
          r := r + AddElement(tag, Some(Decimal(value.value)));
        }
      }
      assert dateElements[..|dateElements|] == dateElements;
    }
  }

  /** One more author appends one more person group. */
  lemma PersonGroupsPrefix(authors: seq<Json>, i: nat)
    requires i < |authors|
    ensures PersonGroups(authors[..i + 1]) == PersonGroups(authors[..i]) + [PersonGroup(authors[i])]
  {
    assert authors[..i + 1][..i] == authors[..i];
  }

  /** One more date pair appends that pair's date element, if any. */
  lemma DateElementsPrefix(pairs: seq<(string, Option<int>)>, i: nat)
    requires i < |pairs|
    ensures DateElementsOf(pairs[..i + 1]) == DateElementsOf(pairs[..i]) + DateElement(pairs[i].0, pairs[i].1)
  {
    assert pairs[..i + 1][..i] == pairs[..i];
  }

  // ---------------------------------------------------------------- properties

  /** An element is written exactly for a value that is neither null nor "", and its text content is that value. */
  lemma AddElementText(tag: string, value: Option<string>)
    ensures AddElement(tag, value) ==
      if value.Some? && value.value != "" then [Element(tag, [], value.value, [])] else []
  {
    if value.Some? {
      ContentOfEscaped(value.value);
    }
  }

  /** The tags of a concatenation. */
  lemma TagsConcat(a: seq<Element>, b: seq<Element>)
    ensures Tags(a + b) == Tags(a) + Tags(b)
  {
  }

  /**
    A `name` holds a `surname` exactly when `family` is a non-empty string and
    a `given-names` exactly when `given` is a string other than "" and "0",
    each with that string as its text.
  */
  lemma NameChildren(author: Json)
    ensures var f, g := Field(author, "family"), Field(author, "given");
      NameElement(author).children ==
        (if f.JStr? && f.s != "" then [Element("surname", [], f.s, [])] else [])
        + (if g.JStr? && !IsEmptyString(g.s) then [Element("given-names", [], g.s, [])] else [])
  {
    AddElementText("surname", FamilyValue(author));
    AddElementText("given-names", AsNullableString(Field(author, "given")));
  }

  /** One person group per author, in input order, each of type author holding one `name`. */
  lemma {:induction false} PersonGroupsPointwise(authors: seq<Json>)
    ensures |PersonGroups(authors)| == |authors|
    ensures forall i :: 0 <= i < |authors| ==> PersonGroups(authors)[i] == PersonGroup(authors[i])
    decreases |authors|
  {
    if authors != [] {
      var n := |authors|;
      var init := authors[..n - 1];
      PersonGroupsPointwise(init);
      assert PersonGroups(authors) == PersonGroups(init) + [PersonGroup(authors[n - 1])];
      forall i | 0 <= i < n
        ensures PersonGroups(authors)[i] == PersonGroup(authors[i])
      {
        if i < n - 1 {
          assert authors[i] == init[i];
        }
      }
    }
  }

  lemma PersonGroupTags(authors: seq<Json>)
    ensures Tags(PersonGroups(authors)) == Repeat("person-group", |authors|)
    ensures forall i :: 0 <= i < |authors| ==>
      && PersonGroups(authors)[i].attributes == [("person-group-type", "author")]
      && PersonGroups(authors)[i].children == [NameElement(authors[i])]
  {
    PersonGroupsPointwise(authors);
  }

  /** A date element is written exactly for a non-null value, with its decimal numeral as text. */
  lemma DateElementText(tag: string, value: Option<int>)
    ensures DateElement(tag, value) ==
      if value.Some? then [Element(tag, [], Decimal(value.value), [])] else []
  {
    if value.Some? {
      AddElementText(tag, Some(Decimal(value.value)));
    }
  }

  /** The text of a date element holding a PHP integer reads back through `(int)` as that integer. */
  lemma DateElementReadsBack(tag: string, value: int)
    requires IntMin <= value <= IntMax
    ensures |DateElement(tag, Some(value))| == 1
    ensures IntCast(DateElement(tag, Some(value))[0].text) == value
  {
    DateElementText(tag, Some(value));
    IntCastDecimal(value);
  }

  /** The date elements are year, month and day, in that order, each present exactly when not null. */
  lemma DateElementsInOrder(c: Citation.CitationData)
    ensures DateElementsOf(DatePairs(c)) ==
      DateElement("year", c.year) + DateElement("month", c.month) + DateElement("day", c.day)
  {
    var p := DatePairs(c);
    assert p[..2][..1] == p[..1] && p[..1][..0] == [];
    assert p[..2] == p[..3][..2] && p == p[..3];
    assert DateElementsOf(p[..1]) == DateElement("year", c.year);
  }

  lemma DateTags(c: Citation.CitationData)
    ensures Tags(DateElementsOf(DatePairs(c))) ==
      Optional("year", c.year.Some?) + Optional("month", c.month.Some?) + Optional("day", c.day.Some?)
  {
    DateElementsInOrder(c);
    DateElementText("year", c.year);
    DateElementText("month", c.month);
    DateElementText("day", c.day);
    TagsConcat(DateElement("year", c.year), DateElement("month", c.month));
    TagsConcat(DateElement("year", c.year) + DateElement("month", c.month), DateElement("day", c.day));
  }

  /**
    `fpage` for a truthy first page, followed by `lpage` only when the last page
    is truthy too; otherwise `page-range` for a truthy page range. Texts are the values.
  */
  lemma PageElementsCases(c: Citation.CitationData)
    ensures PageElements(c) ==
      if TruthyString(c.firstPage) then
        [Element("fpage", [], c.firstPage.value, [])]
        + (if TruthyString(c.lastPage) then [Element("lpage", [], c.lastPage.value, [])] else [])
      else if TruthyString(c.pageRange) then [Element("page-range", [], c.pageRange.value, [])]
      else []
  {
    AddElementText("fpage", c.firstPage);
    AddElementText("lpage", c.lastPage);
    AddElementText("page-range", c.pageRange);
  }

  lemma PageTags(c: Citation.CitationData)
    ensures Tags(PageElements(c)) ==
      Optional("fpage", TruthyString(c.firstPage))
      + Optional("lpage", TruthyString(c.firstPage) && TruthyString(c.lastPage))
      + Optional("page-range", !TruthyString(c.firstPage) && TruthyString(c.pageRange))
  {
    PageElementsCases(c);
  }

  /** A `pub-id` of type doi, whose text is the DOI, exactly for a truthy DOI. */
  lemma DoiElementText(doi: Option<string>)
    ensures DoiElements(doi) ==
      if TruthyString(doi) then [Element("pub-id", [("pub-id-type", "doi")], doi.value, [])] else []
  {
    if doi.Some? {
      ContentOfEscaped(doi.value);
    }
  }

  lemma TextTags(tag: string, value: Option<string>)
    ensures Tags(AddElement(tag, value)) == Optional(tag, value.Some? && value.value != "")
  {
  }

  lemma HeadTags(c: Citation.CitationData)
    ensures Tags(HeadElements(c)) ==
      Repeat("person-group", |c.authors|)
      + Optional("article-title", c.title.Some? && c.title.value != "")
      + Optional("source", c.source.Some? && c.source.value != "")
      + (Optional("year", c.year.Some?) + Optional("month", c.month.Some?) + Optional("day", c.day.Some?))
      + Optional("volume", c.volume.Some? && c.volume.value != "")
      + Optional("issue", c.issue.Some? && c.issue.value != "")
  {
    var p1 := PersonGroups(c.authors);
    var p2 := AddElement("article-title", c.title);
    var p3 := AddElement("source", c.source);
    var p4 := DateElementsOf(DatePairs(c));
    var p5 := AddElement("volume", c.volume);
    var p6 := AddElement("issue", c.issue);
    PersonGroupTags(c.authors);
    TextTags("article-title", c.title);
    TextTags("source", c.source);
    DateTags(c);
    TextTags("volume", c.volume);
    TextTags("issue", c.issue);
    TagsConcat(p1, p2);
    TagsConcat(p1 + p2, p3);
    TagsConcat(p1 + p2 + p3, p4);
    TagsConcat(p1 + p2 + p3 + p4, p5);
    TagsConcat(p1 + p2 + p3 + p4 + p5, p6);
  }

  lemma DoiTags(doi: Option<string>)
    ensures Tags(DoiElements(doi)) == Optional("pub-id", TruthyString(doi))
  {
  }

  /** The children's tags: the head block, the page block, then the DOI. */
  lemma ChildrenTags(c: Citation.CitationData)
    ensures Tags(Children(c)) == Tags(HeadElements(c)) + Tags(PageElements(c)) + Tags(DoiElements(c.doi))
  {
    TagsConcat(HeadElements(c), PageElements(c));
    TagsConcat(HeadElements(c) + PageElements(c), DoiElements(c.doi));
  }

  /**
    The root is `element-citation` with `publication-type="journal"`; its
    children come in fixed order (person groups, article-title, source, year,
    month, day, volume, issue, the page elements, pub-id), each present exactly
    under its own condition.
  */
  lemma CitationLayout(c: Citation.CitationData)
    ensures CitationElement(c).tag == "element-citation"
    ensures CitationElement(c).attributes == [("publication-type", "journal")]
    ensures Tags(CitationElement(c).children) ==
      Repeat("person-group", |c.authors|)
      + Optional("article-title", c.title.Some? && c.title.value != "")
      + Optional("source", c.source.Some? && c.source.value != "")
      + (Optional("year", c.year.Some?) + Optional("month", c.month.Some?) + Optional("day", c.day.Some?))
      + Optional("volume", c.volume.Some? && c.volume.value != "")
      + Optional("issue", c.issue.Some? && c.issue.value != "")
      + (Optional("fpage", TruthyString(c.firstPage))
        + Optional("lpage", TruthyString(c.firstPage) && TruthyString(c.lastPage))
        + Optional("page-range", !TruthyString(c.firstPage) && TruthyString(c.pageRange)))
      + Optional("pub-id", TruthyString(c.doi))
  {
    ChildrenTags(c);
    HeadTags(c);
    PageTags(c);
    DoiTags(c.doi);
  }

  /** A tag absent from everything around a block is present in the whole exactly when it is in the block. */
  lemma OnlyInBlock(t: string, whole: seq<string>, pre: seq<string>, block: seq<string>, post: seq<string>)
    requires whole == pre + block + post
    requires t !in pre && t !in post
    ensures t in whole <==> t in block
  {
  }

  /** The tags written before the page block are none of the page tags. */
  lemma PageTagNotBefore(t: string, n: nat, title: bool, source: bool, year: bool, month: bool, day: bool, volume: bool, issue: bool)
    requires t == "fpage" || t == "lpage" || t == "page-range"
    ensures t !in Repeat("person-group", n) + Optional("article-title", title) + Optional("source", source)
      + (Optional("year", year) + Optional("month", month) + Optional("day", day))
      + Optional("volume", volume) + Optional("issue", issue)
  {
    PageTagIsNoHeadTag(t);
    var head := ["person-group", "article-title", "source", "year", "month", "day", "volume", "issue"];
    var whole := Repeat("person-group", n) + Optional("article-title", title) + Optional("source", source)
      + (Optional("year", year) + Optional("month", month) + Optional("day", day))
      + Optional("volume", volume) + Optional("issue", issue);
    assert forall u :: u in whole ==> u in head;
  }

  /** A page tag is none of the tags written before the page block. */
  lemma PageTagIsNoHeadTag(t: string)
    requires t == "fpage" || t == "lpage" || t == "page-range"
    ensures t !in ["person-group", "article-title", "source", "year", "month", "day", "volume", "issue"]
  {
  }

  /** Within the page block `fpage` and `page-range` exclude each other, and `lpage` needs `fpage`. */
  lemma PageBlockTags(first: bool, last: bool, range: bool)
    ensures var p := Optional("fpage", first) + Optional("lpage", first && last) + Optional("page-range", !first && range);
      && !("fpage" in p && "page-range" in p)
      && ("lpage" in p ==> "fpage" in p)
  {
  }

  /** The page tags occur among the children exactly as they occur in the page block. */
  lemma PageTagsOnlyInPageBlock(c: Citation.CitationData, t: string)
    requires t == "fpage" || t == "lpage" || t == "page-range"
    ensures t in Tags(Children(c)) <==> t in Tags(PageElements(c))
  {
    var head, pages, doi := Tags(HeadElements(c)), Tags(PageElements(c)), Tags(DoiElements(c.doi));
    ChildrenTags(c);
    assert t !in head by {
      HeadTags(c);
      PageTagNotBefore(t, |c.authors|, c.title.Some? && c.title.value != "", c.source.Some? && c.source.value != "",
        c.year.Some?, c.month.Some?, c.day.Some?,
        c.volume.Some? && c.volume.value != "", c.issue.Some? && c.issue.value != "");
    }
    assert t !in doi by {
      DoiTags(c.doi);
    }
    OnlyInBlock(t, Tags(Children(c)), head, pages, doi);
  }

  /** `fpage` and `page-range` are never both written, whichever page fields are set. */
  lemma FpageExcludesPageRange(c: Citation.CitationData)
    ensures !("fpage" in Tags(Children(c)) && "page-range" in Tags(Children(c)))
  {
    PageTagsOnlyInPageBlock(c, "fpage");
    PageTagsOnlyInPageBlock(c, "page-range");
    PageTags(c);
    PageBlockTags(TruthyString(c.firstPage), TruthyString(c.lastPage), TruthyString(c.pageRange));
  }

  /** `lpage` is written only together with `fpage`. */
  lemma LpageNeedsFpage(c: Citation.CitationData)
    ensures "lpage" in Tags(Children(c)) ==> "fpage" in Tags(Children(c))
  {
    PageTagsOnlyInPageBlock(c, "fpage");
    PageTagsOnlyInPageBlock(c, "lpage");
    PageTags(c);
    PageBlockTags(TruthyString(c.firstPage), TruthyString(c.lastPage), TruthyString(c.pageRange));
  }
}
