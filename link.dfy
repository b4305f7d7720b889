/**
  HTMLLinkElement: its reflected attributes and the lazily built,
  cached style sheet.  The sheet exists only for rel="stylesheet"; setting
  href or rel throws the cached sheet away, the other setters keep it.
  The element's attributes are held as a name-to-value map.
 */
module Links {
  import opened Chain
  import opened JsStrings

  // -------------------------------------------------------------------
  // Reflected attributes

  /** The string attribute reflection: the attribute's value, or "" when
      the element does not have it. */
  function StringAttribute(attrs: map<string, string>, name: string): (v: string)
    ensures name !in attrs ==> v == ""
    ensures name in attrs ==> v == attrs[name]
  {
    if name in attrs then attrs[name] else ""
  }

  /** What parse("") gives: a style sheet without rules. */
  class CSSStyleSheet {
    var cssRules: seq<string>

    constructor ()
      ensures cssRules == []
    {
      cssRules := [];
    }
  }

  class HTMLLinkElement {
    var attrs: map<string, string>
    var sheet: Option<CSSStyleSheet>

    /** A cached sheet belongs to a stylesheet link. */
    ghost predicate Valid()
      reads this
    {
      sheet.Some? ==> StringAttribute(attrs, "rel") == "stylesheet"
    }

    constructor (attrs: map<string, string>)
      ensures this.attrs == attrs && sheet == None && Valid()
    {
      this.attrs := attrs;
      sheet := None;
    }

    /** get href(): the trimmed attribute value. */
    function Href(): (h: string)
      reads this
      ensures h == Trim(StringAttribute(attrs, "href"))
      ensures |h| <= |StringAttribute(attrs, "href")|
    {
      Trim(StringAttribute(attrs, "href"))
    }

    /** set href(value): store the attribute and forget the sheet. */
    method SetHref(value: string)
      modifies this
      ensures attrs == old(attrs)["href" := value] && sheet == None && Valid()
    {
      attrs := attrs["href" := value];
      sheet := None;
    }

    /** set rel(value): store the attribute and forget the sheet. */
    method SetRel(value: string)
      modifies this
      ensures attrs == old(attrs)["rel" := value] && sheet == None && Valid()
    {
      attrs := attrs["rel" := value];
      sheet := None;
    }

    /** set hreflang / media / type (value): store the attribute; a cached
        sheet stays. */
    method SetStringAttribute(name: string, value: string)
      requires name in {"hreflang", "media", "type"}
      requires Valid()
      modifies this
      ensures attrs == old(attrs)[name := value] && sheet == old(sheet) && Valid()
    {
      attrs := attrs[name := value];
    }

    /** get disabled(): whether the attribute is present. */
    function Disabled(): (d: bool)
      reads this
      ensures d <==> "disabled" in attrs
    {
      "disabled" in attrs
    }

    /** set disabled(value): add the attribute empty or remove it; a cached
        sheet stays. */
    method SetDisabled(value: bool)
      requires Valid()
      modifies this
      ensures attrs == (if value then old(attrs)["disabled" := ""] else old(attrs) - {"disabled"})
      ensures sheet == old(sheet) && Valid()
    {
      if value {
        attrs := attrs["disabled" := ""];
      } else {
        attrs := attrs - {"disabled"};
      }
    }

    /** get sheet(): null unless rel is "stylesheet"; otherwise the cached
        sheet, built (empty) on first use and kept for later calls. */
    method Sheet() returns (r: Option<CSSStyleSheet>)
      requires Valid()
      modifies this
      ensures attrs == old(attrs) && Valid()
      ensures r.None? <==> StringAttribute(attrs, "rel") != "stylesheet"
      ensures r.None? ==> sheet == old(sheet)
      ensures old(sheet).Some? && r.Some? ==> r == old(sheet)
      ensures old(sheet).None? && r.Some? ==> fresh(r.value) && r.value.cssRules == []
      ensures r.Some? ==> sheet == r
    {
      if StringAttribute(attrs, "rel") != "stylesheet" {
        return None;
      }
      if sheet.Some? {
        return sheet;
      }
      var s := new CSSStyleSheet();
      sheet := Some(s);
      return sheet;
    }
  }
}
