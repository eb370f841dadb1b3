/** setActivePart: the heading of the part named in the page address gets
    the class `active`. The page is an array of element records that the
    operation updates in place, as jQuery's `addClass` does on the DOM. */
module ActivePart {

  import opened Wrappers
  import opened UrlToken

  /** The class added to the headings of the current part. */
  const ActiveClass: string := "active"
  /** The tag the selector `h5[data-part="…"]` matches (a lower-case local name). */
  const HeadingTag: string := "h5"

  /** One element of the page: its tag, its `data-part` attribute (None when
      the element has none) and its class list, a set because adding a class
      that is already there changes nothing. */
  datatype Element = Element(tag: string, dataPart: Option<string>, classes: set<string>)

  /** The exact, case-sensitive lookup of a token: one, two, three name the
      parts "1", "2", "3"; anything else names no part. */
  function PartOf(token: string): (part: Option<string>)
    ensures part.Some? <==> token in {"one", "two", "three"}
  {
    if token == "one" then Some("1")
    else if token == "two" then Some("2")
    else if token == "three" then Some("3")
    else None
  }

  /** The token that names a part, the inverse of PartOf. */
  function TokenFor(part: string): Option<string>
  {
    if part == "1" then Some("one")
    else if part == "2" then Some("two")
    else if part == "3" then Some("three")
    else None
  }

  /** The part whose headings a page address activates: the address's token,
      if it is present and non-empty (JavaScript truthiness), looked up. */
  function ActivePartOf(url: string): (part: Option<string>)
    ensures part.Some? ==> part.value in {"1", "2", "3"}
    ensures part.Some? ==> Token(url).Some? && PartOf(Token(url).value) == part
  {
    match Token(url)
    case Some(token) =>
      if token != "" then PartOf(token) else None
    case None => None
  }

  /** Whether the selector `h5[data-part="part"]` matches the element. */
  predicate Selected(e: Element, part: string)
  {
    e.tag == HeadingTag && e.dataPart == Some(part)
  }

  /** The element with the active class added. */
  function Activated(e: Element): Element
  {
    e.(classes := e.classes + {ActiveClass})
  }

  /** `$('h5[data-part="part"]').addClass('active')` on a list of elements. */
  function Highlighted(page: seq<Element>, part: string): (after: seq<Element>)
    ensures |after| == |page|
  {
    if page == [] then []
    else [if Selected(page[0], part) then Activated(page[0]) else page[0]]
         + Highlighted(page[1..], part)
  }

  /** The page after setActivePart(url). */
  function PageAfter(page: seq<Element>, url: string): (after: seq<Element>)
    ensures |after| == |page|
  {
    match ActivePartOf(url)
    case Some(part) => Highlighted(page, part)
    case None => page
  }

  /** Whether setActivePart(url) selects the element. */
  predicate SelectedBy(e: Element, url: string)
  {
    ActivePartOf(url).Some? && Selected(e, ActivePartOf(url).value)
  }

  // ---------------------------------------------------------------------
  // The lookup

  /** PartOf and TokenFor are inverse on the three parts, and no other
      token or part takes part in the mapping. */
  lemma PartTokenInverse(token: string, part: string)
    ensures PartOf(token) == Some(part) <==> TokenFor(part) == Some(token)
    ensures TokenFor(part).Some? <==> part in {"1", "2", "3"}
  {
  }

  /** The `if (active)` guard never changes the outcome: the empty token
      would not have matched one, two or three anyway. */
  lemma TruthinessGuardRedundant(url: string)
    ensures ActivePartOf(url) == (if Token(url).Some? then PartOf(Token(url).value) else None)
  {
  }

  /** The part named by an address made of a prefix, a hyphen, a token and
      anything that starts with a second hyphen. */
  lemma ActivePartOfParts(p: string, token: string, rest: string)
    requires NoSeparator(p) && NoSeparator(token)
    requires rest == [] || rest[0] == Separator
    ensures ActivePartOf(p + [Separator] + token + rest) == PartOf(token)
  {
    TokenOfParts(p, token, rest);
  }

  /** An address without a hyphen, or one whose token is not exactly one,
      two or three, activates nothing. */
  lemma NoPartWithoutKnownToken(url: string)
    ensures ActivePartOf(url).Some? <==> Token(url).Some? && Token(url).value in {"one", "two", "three"}
    ensures NoSeparator(url) ==> ActivePartOf(url) == None
  {
    TokenAbsentIff(url);
  }

  // ---------------------------------------------------------------------
  // The page update

  /** Highlighted changes each element on its own: the selected ones gain the
      active class, the others stay as they were. */
  lemma {:induction false} HighlightedAt(page: seq<Element>, part: string, i: int)
    requires 0 <= i < |page|
    ensures |Highlighted(page, part)| == |page|
    ensures Highlighted(page, part)[i] == if Selected(page[i], part) then Activated(page[i]) else page[i]
    decreases |page|
  {
    if i > 0 {
      HighlightedAt(page[1..], part, i - 1);
    } else if |page| > 1 {
      HighlightedAt(page[1..], part, 0);
    }
  }

  /** The effect of setActivePart(url) on each element: tag and data-part
      stay, and the class set gains `active` exactly when the element is an
      h5 of the active part; no other class is added or removed. */
  lemma PageAfterAt(page: seq<Element>, url: string, i: int)
    requires 0 <= i < |page|
    ensures |PageAfter(page, url)| == |page|
    ensures PageAfter(page, url)[i].tag == page[i].tag
    ensures PageAfter(page, url)[i].dataPart == page[i].dataPart
    ensures PageAfter(page, url)[i].classes
         == if SelectedBy(page[i], url) then page[i].classes + {ActiveClass} else page[i].classes
  {
    if ActivePartOf(url).Some? {
      HighlightedAt(page, ActivePartOf(url).value, i);
    }
  }

  /** An element carries `active` afterwards exactly when it carried it
      before or the address selects it; nothing else about it changes
      unless it is selected. */
  lemma ActiveAfterIff(page: seq<Element>, url: string, i: int)
    requires 0 <= i < |page|
    ensures ActiveClass in PageAfter(page, url)[i].classes <==> ActiveClass in page[i].classes || SelectedBy(page[i], url)
    ensures !SelectedBy(page[i], url) ==> PageAfter(page, url)[i] == page[i]
  {
    PageAfterAt(page, url, i);
  }

  /** At most one part is affected: every element that is not an h5 of the
      active part is left unchanged, whatever the address. */
  lemma OnlyOnePart(page: seq<Element>, url: string, i: int, part: string)
    requires 0 <= i < |page|
    requires Selected(page[i], part) && PageAfter(page, url)[i] != page[i]
    ensures ActivePartOf(url) == Some(part)
  {
    PageAfterAt(page, url, i);
  }

  /** Applying setActivePart twice with the same address leaves the page as
      applying it once did. */
  lemma {:induction false} HighlightedIdempotent(page: seq<Element>, part: string)
    ensures Highlighted(Highlighted(page, part), part) == Highlighted(page, part)
    decreases |page|
  {
    if page != [] {
      HighlightedIdempotent(page[1..], part);
      var once := Highlighted(page, part);
      assert once[1..] == Highlighted(page[1..], part);
    }
  }

  lemma PageAfterIdempotent(page: seq<Element>, url: string)
    ensures PageAfter(PageAfter(page, url), url) == PageAfter(page, url)
  {
    if ActivePartOf(url).Some? {
      HighlightedIdempotent(page, ActivePartOf(url).value);
    }
  }

  /** Worked addresses: the second hyphen-separated piece decides. */
  lemma ScenarioSecondPiece()
    ensures ActivePartOf("https://site.example/docs-two-intro") == Some("2")
  {
    assert "https://site.example/docs-two-intro" == "https://site.example/docs" + "-" + "two" + "-intro";
    ActivePartOfParts("https://site.example/docs", "two", "-intro");
  }

  lemma ScenarioLaterPiecesIgnored()
    ensures ActivePartOf("https://site.example/a-one-b-two") == Some("1")
  {
    assert "https://site.example/a-one-b-two" == "https://site.example/a" + "-" + "one" + "-b-two";
    ActivePartOfParts("https://site.example/a", "one", "-b-two");
  }

  /** Worked addresses that activate nothing: no hyphen, an unknown token,
      an empty token, a token in the wrong case. */
  lemma ScenarioNoHyphen()
    ensures ActivePartOf("https://site.example/docs") == None
  {
    var url := "https://site.example/docs";
    assert forall k :: 0 <= k < |url| ==> url[k] != Separator;
    NoPartWithoutKnownToken(url);
  }

  lemma ScenarioUnknownToken()
    ensures ActivePartOf("https://site.example/docs-four-appendix") == None
    ensures ActivePartOf("https://site.example/a-One") == None
  {
    assert "https://site.example/docs-four-appendix" == "https://site.example/docs" + "-" + "four" + "-appendix";
    ActivePartOfParts("https://site.example/docs", "four", "-appendix");
    assert "https://site.example/a-One" == "https://site.example/a" + "-" + "One" + "";
    ActivePartOfParts("https://site.example/a", "One", "");
  }

  lemma ScenarioEmptyToken()
    ensures ActivePartOf("https://site.example/a--one") == None
  {
    assert "https://site.example/a--one" == "https://site.example/a" + "-" + "" + "-one";
    ActivePartOfParts("https://site.example/a", "", "-one");
  }

  // ---------------------------------------------------------------------
  // The operations on the page, in place

  /** `$('h5[data-part="part"]').addClass('active')`: every selected element
      of the page gains the active class. */
  method AddActiveClass(page: array<Element>, part: string)
    modifies page
    ensures page[..] == Highlighted(old(page[..]), part)
  {
    var i := 0;
    while i < page.Length
      invariant 0 <= i <= page.Length
      invariant forall k :: 0 <= k < i ==>
        page[k] == if Selected(old(page[k]), part) then Activated(old(page[k])) else old(page[k])
      invariant forall k :: i <= k < page.Length ==> page[k] == old(page[k])
    {
      if Selected(page[i], part) {
        page[i] := Activated(page[i]);
      }
      i := i + 1;
    }
    ghost var before := old(page[..]);
    forall k | 0 <= k < page.Length
      ensures |Highlighted(before, part)| == page.Length && page[..][k] == Highlighted(before, part)[k]
    {
      HighlightedAt(before, part, k);
    }
    if page.Length == 0 {
      assert before == [];
    }
  }

  /** setActivePart(url): take the token of the address and, if it is
      non-empty, activate the headings of the part it names. */
  method SetActivePart(page: array<Element>, url: string)
    modifies page
    ensures page[..] == PageAfter(old(page[..]), url)
  {
    var active := Token(url);
    if active.Some? && active.value != "" {
      if active.value == "one" {
        AddActiveClass(page, "1");
      }
      if active.value == "two" {
        AddActiveClass(page, "2");
      }
      if active.value == "three" {
        AddActiveClass(page, "3");
      }
    }
  }
}
