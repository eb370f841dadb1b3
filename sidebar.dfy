/** setSideBarDisplay: the table-of-contents sidebar is pinned near the top
    of the viewport once the page is scrolled past its natural position
    (less a 51-pixel margin), and put back in the flow otherwise. */
module Sidebar {

  /** How far above the sidebar's own offset the pinning starts. */
  const PinMargin: int := 51

  /** The inline style of an element: property name to value. Values such as
      "45px" are kept as the strings the script writes. */
  type Style = map<string, string>

  /** Whether the scroll position pins the sidebar: `y >= top - 51`. */
  predicate Pinned(scrollY: int, top: int)
  {
    scrollY >= top - PinMargin
  }

  /** The inline style after setSideBarDisplay: the fixed branch writes
      position, top and max-width; the static branch writes position and top
      only. */
  function DisplayStyle(style: Style, scrollY: int, top: int): (after: Style)
    ensures after.Keys == style.Keys + {"position", "top"} + (if Pinned(scrollY, top) then {"max-width"} else {})
    ensures forall p :: p in style && p !in {"position", "top", "max-width"} ==> after[p] == style[p]
  {
    if Pinned(scrollY, top) then
      style["position" := "fixed"]["top" := "45px"]["max-width" := "150px"]
    else
      style["position" := "static"]["top" := "0px"]
  }

  /** An element whose inline style the script writes through `.css(…)`. */
  class StyledElement {
    var style: Style

    constructor (initial: Style)
      ensures style == initial
    {
      style := initial;
    }

    /** `.css(property, value)`: sets one property, leaves the rest. */
    method Css(property: string, value: string)
      modifies this
      ensures style == old(style)[property := value]
    {
      style := style[property := value];
    }
  }

  /** setSideBarDisplay(obj, top), with the window's scroll position passed
      in as scrollY. */
  method SetSideBarDisplay(obj: StyledElement, top: int, scrollY: int)
    modifies obj
    ensures obj.style == DisplayStyle(old(obj.style), scrollY, top)
  {
    if scrollY >= top - PinMargin {
      obj.Css("position", "fixed");
      obj.Css("top", "45px");
      obj.Css("max-width", "150px");
    } else {
      obj.Css("position", "static");
      obj.Css("top", "0px");
    }
  }

  /** Scrolled to the threshold or past it, the sidebar is fixed 45 pixels
      from the top and at most 150 pixels wide; the threshold itself pins. */
  lemma PinnedStyle(style: Style, scrollY: int, top: int)
    requires Pinned(scrollY, top)
    ensures var s := DisplayStyle(style, scrollY, top);
      && "position" in s && s["position"] == "fixed"
      && "top" in s && s["top"] == "45px"
      && "max-width" in s && s["max-width"] == "150px"
  {
  }

  /** Above the threshold the sidebar is static with top 0px, and its
      max-width is whatever it was, or still absent. */
  lemma StaticStyle(style: Style, scrollY: int, top: int)
    requires !Pinned(scrollY, top)
    ensures var s := DisplayStyle(style, scrollY, top);
      && "position" in s && s["position"] == "static"
      && "top" in s && s["top"] == "0px"
      && ("max-width" in s <==> "max-width" in style)
      && ("max-width" in style ==> s["max-width"] == style["max-width"])
  {
  }

  /** No property other than position, top and max-width is touched, and
      no property is removed. */
  lemma OtherPropertiesKept(style: Style, scrollY: int, top: int, property: string)
    requires property !in {"position", "top", "max-width"}
    ensures var s := DisplayStyle(style, scrollY, top);
      && (property in s <==> property in style)
      && (property in style ==> s[property] == style[property])
    ensures style.Keys <= DisplayStyle(style, scrollY, top).Keys
  {
  }

  /** The properties written depend only on the scroll position and the
      offset, so two elements end with the same position and top, and the
      same max-width when pinned. */
  lemma WrittenPropertiesDetermined(s1: Style, s2: Style, scrollY: int, top: int)
    ensures var a, b := DisplayStyle(s1, scrollY, top), DisplayStyle(s2, scrollY, top);
      && a["position"] == b["position"] && a["top"] == b["top"]
      && (Pinned(scrollY, top) ==> a["max-width"] == b["max-width"])
  {
  }

  /** Applying setSideBarDisplay again with the same inputs changes nothing. */
  lemma DisplayStyleIdempotent(style: Style, scrollY: int, top: int)
    ensures DisplayStyle(DisplayStyle(style, scrollY, top), scrollY, top) == DisplayStyle(style, scrollY, top)
  {
  }

  /** Worked cases: offset 100 pins from scroll 49 on (60 >= 100 - 51 is
      fixed, 48 is static); offset 40 pins at any scroll from -11 on. */
  lemma Scenarios(style: Style)
    ensures DisplayStyle(style, 60, 100)["position"] == "fixed"
    ensures DisplayStyle(style, 49, 100)["position"] == "fixed"
    ensures DisplayStyle(style, 48, 100)["position"] == "static"
    ensures DisplayStyle(style, 60, 40)["position"] == "fixed"
  {
  }
}
