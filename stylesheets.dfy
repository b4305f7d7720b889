/**
  StyleSheetList and what document.styleSheets collects: one sheet for each
  <style> element and each <link> whose rel is "stylesheet", in document
  order.
 */
module StyleSheets {
  import opened Chain
  import opened Attributes

  /** What a list slot holds: a sheet (named by its identity) or a value
      JavaScript treats as false. */
  datatype Slot = Sheet(id: nat) | Falsy

  /** item(index): the sheet stored at index, or null when there is none,
      the index is out of bounds, or the slot holds a falsy value. */
  function Item(list: seq<Slot>, index: int): (r: Option<nat>)
    ensures r.Some? <==> 0 <= index < |list| && list[index].Sheet?
    ensures r.Some? ==> r.value == list[index].id
  {
    if 0 <= index < |list| then
      match list[index]
      case Sheet(id) => Some(id)
      case Falsy => None
    else None
  }

  /** length: the length of the underlying list. */
  function Length(list: seq<Slot>): (n: nat)
    ensures n == |list|
  {
    |list|
  }

  /** Every sheet item answers for lies below length, and every sheet slot
      below length is reached by item. */
  lemma ItemBelowLength(list: seq<Slot>, index: int)
    ensures Item(list, index).Some? ==> 0 <= index < Length(list)
    ensures 0 <= index < Length(list) && list[index].Sheet? ==> Item(list, index) == Some(list[index].id)
  {
  }

  // -------------------------------------------------------------------
  // document.styleSheets

  /** The rel attribute of the element at k, "" when it has none. */
  function Rel(s: seq<Node>, k: nat): (v: string)
    requires k < |s|
    ensures FindAttr(s, k + 1, "rel").None? ==> v == ""
  {
    match FindAttr(s, k + 1, "rel")
    case Some(p) => s[p].value
    case None => ""
  }

  /** The node at k is an element that contributes a sheet. */
  predicate OwnsSheet(s: seq<Node>, k: nat)
    requires k < |s|
  {
    s[k].Start? && (s[k].name == "style" || (s[k].name == "link" && Rel(s, k) == "stylesheet"))
  }

  /** How many sheets the elements starting in [lo, hi) contribute. */
  function SheetCount(s: seq<Node>, lo: nat, hi: nat): (c: nat)
    requires lo <= hi <= |s|
    ensures c <= hi - lo
    decreases hi - lo
  {
    if hi == lo then 0 else SheetCount(s, lo, hi - 1) + (if OwnsSheet(s, hi - 1) then 1 else 0)
  }

  /** document.styleSheets.length for the chain s. */
  function StyleSheetCount(s: seq<Node>): (c: nat)
    ensures c <= |s|
  {
    SheetCount(s, 0, |s|)
  }

  /** Counting over adjacent ranges adds up. */
  lemma {:induction false} CountRanges(s: seq<Node>, lo: nat, mid: nat, hi: nat)
    requires lo <= mid <= hi <= |s|
    ensures SheetCount(s, lo, hi) == SheetCount(s, lo, mid) + SheetCount(s, mid, hi)
    decreases hi - mid
  {
    if hi != mid {
      CountRanges(s, lo, mid, hi - 1);
    }
  }

  /** An attribute run does not reach past a cut whose right side does not
      start with an attribute. */
  lemma {:induction false} FindLeft(x: seq<Node>, y: seq<Node>, i: nat, name: string)
    requires i <= |x| && (|y| > 0 ==> !y[0].Attr?)
    ensures FindAttr(x + y, i, name) == FindAttr(x, i, name)
    decreases |x| - i
  {
    if i < |x| && x[i].Attr? && x[i].name != name {
      FindLeft(x, y, i + 1, name);
    }
  }

  lemma {:induction false} FindRight(x: seq<Node>, y: seq<Node>, i: nat, name: string)
    requires i <= |y|
    ensures var r := FindAttr(x + y, |x| + i, name);
      var q := FindAttr(y, i, name);
      r.Some? == q.Some? && (r.Some? ==> r.value == |x| + q.value)
    decreases |y| - i
  {
    if i < |y| && y[i].Attr? && y[i].name != name {
      FindRight(x, y, i + 1, name);
    }
  }

  lemma {:induction false} CountLeft(x: seq<Node>, y: seq<Node>, hi: nat)
    requires hi <= |x| && (|y| > 0 ==> !y[0].Attr?)
    ensures SheetCount(x + y, 0, hi) == SheetCount(x, 0, hi)
    decreases hi
  {
    if hi > 0 {
      CountLeft(x, y, hi - 1);
      FindLeft(x, y, hi, "rel");
      assert (x + y)[hi - 1] == x[hi - 1];
      assert OwnsSheet(x + y, hi - 1) == OwnsSheet(x, hi - 1);
    }
  }

  lemma {:induction false} CountRight(x: seq<Node>, y: seq<Node>, hi: nat)
    requires hi <= |y|
    ensures SheetCount(x + y, |x|, |x| + hi) == SheetCount(y, 0, hi)
    decreases hi
  {
    if hi > 0 {
      CountRight(x, y, hi - 1);
      FindRight(x, y, hi, "rel");
      var r := FindAttr(x + y, |x| + hi, "rel");
      if r.Some? {
        assert (x + y)[r.value] == y[r.value - |x|];
      }
      assert (x + y)[|x| + hi - 1] == y[hi - 1];
      assert OwnsSheet(x + y, |x| + hi - 1) == OwnsSheet(y, hi - 1);
    }
  }

  /** Two stretches of chain whose cut is not inside an attribute run
      contribute their sheets separately. */
  lemma CountJoin(x: seq<Node>, y: seq<Node>)
    requires |y| > 0 ==> !y[0].Attr?
    ensures StyleSheetCount(x + y) == StyleSheetCount(x) + StyleSheetCount(y)
  {
    CountRanges(x + y, 0, |x|, |x| + |y|);
    CountLeft(x, y, |x|);
    CountRight(x, y, |y|);
  }

  /** Inserting an element at a node boundary (not inside an attribute run)
      adds exactly the sheets the inserted element brings. */
  lemma InsertCount(s: seq<Node>, i: nat, m: seq<Node>)
    requires i <= |s| && (i < |s| ==> !s[i].Attr?)
    requires |m| > 0 && m[0].Start?
    ensures StyleSheetCount(Splice(s, i, i, m)) == StyleSheetCount(s) + StyleSheetCount(m)
  {
    var a := s[..i];
    var b := s[i..];
    assert s == a + b;
    CountJoin(a, b);
    CountJoin(a, m);
    CountJoin(a + m, b);
  }

  /** appendChild of an element to the element at p puts it before p's END,
      which is never inside an attribute run. */
  lemma AppendCount(s: seq<Node>, p: nat, m: seq<Node>)
    requires WellFormed(s) && IsElement(s, p) && |m| > 0 && m[0].Start?
    ensures EndOf(s, p) < |s|
    ensures var end := EndOf(s, p);
      StyleSheetCount(Splice(s, end, end, m)) == StyleSheetCount(s) + StyleSheetCount(m)
  {
    EndOfElement(s, p);
    InsertCount(s, EndOf(s, p), m);
  }

  /** A <style> element holding the text css. */
  function StyleElement(k: nat, css: string): (m: seq<Node>)
    ensures |m| == 3 && m[0].Start?
  {
    [Start(k, "style", false), Text(css), End]
  }

  /** A <link> element with the attribute run attrs. */
  function LinkElement(k: nat, attrs: seq<Node>): (m: seq<Node>)
    ensures |m| == |attrs| + 2 && m[0].Start?
  {
    [Start(k, "link", false)] + attrs + [End]
  }

  /** A stretch without Start nodes brings no sheet. */
  lemma {:induction false} CountNoStart(s: seq<Node>, lo: nat, hi: nat)
    requires lo <= hi <= |s| && forall k :: lo <= k < hi ==> !s[k].Start?
    ensures SheetCount(s, lo, hi) == 0
    decreases hi - lo
  {
    if hi > lo {
      CountNoStart(s, lo, hi - 1);
    }
  }

  /** A <style> element brings one sheet. */
  lemma StyleBringsOne(k: nat, css: string)
    ensures StyleSheetCount(StyleElement(k, css)) == 1
  {
    var m := StyleElement(k, css);
    CountRanges(m, 0, 1, 3);
    CountNoStart(m, 1, 3);
  }

  /** A <link> element brings one sheet exactly when its rel is
      "stylesheet", wherever rel sits in its attribute run. */
  lemma LinkBrings(k: nat, attrs: seq<Node>)
    requires forall j :: 0 <= j < |attrs| ==> attrs[j].Attr?
    ensures var m := LinkElement(k, attrs);
      StyleSheetCount(m) == if Rel(m, 0) == "stylesheet" then 1 else 0
  {
    var m := LinkElement(k, attrs);
    forall j | 1 <= j < |m| ensures !m[j].Start? {
      if j <= |attrs| { assert m[j] == attrs[j - 1]; }
    }
    CountRanges(m, 0, 1, |m|);
    CountNoStart(m, 1, |m|);
  }

  /** A link whose run starts with its rel attribute. */
  lemma LinkRelFirst(k: nat, k1: nat, rel: string, rest: seq<Node>)
    requires forall j :: 0 <= j < |rest| ==> rest[j].Attr?
    ensures StyleSheetCount(LinkElement(k, [Attr(k1, "rel", rel)] + rest)) == if rel == "stylesheet" then 1 else 0
  {
    var attrs := [Attr(k1, "rel", rel)] + rest;
    forall j | 0 <= j < |attrs| ensures attrs[j].Attr? {
      if j > 0 { assert attrs[j] == rest[j - 1]; }
    }
    LinkBrings(k, attrs);
    assert FindAttr(LinkElement(k, attrs), 1, "rel") == Some(1);
  }

  /** A link whose href was set after its rel: href first, then rel. */
  lemma LinkRelSecond(k: nat, k1: nat, k2: nat, rel: string, href: string)
    ensures StyleSheetCount(LinkElement(k, [Attr(k2, "href", href), Attr(k1, "rel", rel)])) == if rel == "stylesheet" then 1 else 0
  {
    LinkBrings(k, [Attr(k2, "href", href), Attr(k1, "rel", rel)]);
    assert FindAttr(LinkElement(k, [Attr(k2, "href", href), Attr(k1, "rel", rel)]), 1, "rel") == Some(2);
  }

  /** A single node that is not a <style> or <link> start brings no sheet. */
  lemma NodeBringsNone(x: Node)
    requires !x.Start? || (x.name != "style" && x.name != "link")
    ensures StyleSheetCount([x]) == 0
  {
    assert !OwnsSheet([x], 0);
  }

  /** The <head> of the comprehensive styleSheets test: two <style>
      elements, two stylesheet links and an icon link. */
  function TestHead(css1: string, css2: string): (s: seq<Node>)
    ensures |s| > 0 && s[|s| - 1] == End
  {
    [Start(1, "head", false)] +
    StyleElement(2, css1) +
    LinkElement(3, [Attr(4, "rel", "stylesheet")] + [Attr(5, "href", "external.css"), Attr(6, "type", "text/css")]) +
    LinkElement(7, [Attr(8, "rel", "icon")] + [Attr(9, "href", "favicon.ico")]) +
    StyleElement(10, css2) +
    LinkElement(11, [Attr(12, "rel", "stylesheet")] + [Attr(13, "href", "another.css")]) +
    [End]
  }

  /** Pieces cut where no attribute run is split count separately. */
  lemma CountPieces(h: seq<Node>, a: seq<Node>, b: seq<Node>, c: seq<Node>, d: seq<Node>, f: seq<Node>, z: seq<Node>)
    requires a != [] && b != [] && c != [] && d != [] && f != [] && z != []
    requires !a[0].Attr? && !b[0].Attr? && !c[0].Attr? && !d[0].Attr? && !f[0].Attr? && !z[0].Attr?
    ensures StyleSheetCount(h + a + b + c + d + f + z) ==
      StyleSheetCount(h) + StyleSheetCount(a) + StyleSheetCount(b) + StyleSheetCount(c) +
      StyleSheetCount(d) + StyleSheetCount(f) + StyleSheetCount(z)
  {
    CountJoin(h, a);
    CountJoin(h + a, b);
    CountJoin(h + a + b, c);
    CountJoin(h + a + b + c, d);
    CountJoin(h + a + b + c + d, f);
    CountJoin(h + a + b + c + d + f, z);
  }

  /** The test document starts with four sheets. */
  lemma TestHeadCount(css1: string, css2: string)
    ensures StyleSheetCount(TestHead(css1, css2)) == 4
  {
    NodeBringsNone(Start(1, "head", false));
    NodeBringsNone(End);
    StyleBringsOne(2, css1);
    StyleBringsOne(10, css2);
    LinkRelFirst(3, 4, "stylesheet", [Attr(5, "href", "external.css"), Attr(6, "type", "text/css")]);
    LinkRelFirst(7, 8, "icon", [Attr(9, "href", "favicon.ico")]);
    LinkRelFirst(11, 12, "stylesheet", [Attr(13, "href", "another.css")]);
    CountPieces([Start(1, "head", false)], StyleElement(2, css1),
      LinkElement(3, [Attr(4, "rel", "stylesheet")] + [Attr(5, "href", "external.css"), Attr(6, "type", "text/css")]),
      LinkElement(7, [Attr(8, "rel", "icon")] + [Attr(9, "href", "favicon.ico")]),
      StyleElement(10, css2),
      LinkElement(11, [Attr(12, "rel", "stylesheet")] + [Attr(13, "href", "another.css")]),
      [End]);
  }

  /** Appending an element just before a closing END. */
  lemma AppendAtEnd(s: seq<Node>, m: seq<Node>)
    requires |s| > 0 && s[|s| - 1] == End && |m| > 0 && m[0].Start?
    ensures var r := Splice(s, |s| - 1, |s| - 1, m);
      StyleSheetCount(r) == StyleSheetCount(s) + StyleSheetCount(m) && |r| > 0 && r[|r| - 1] == End
  {
    InsertCount(s, |s| - 1, m);
    var r := Splice(s, |s| - 1, |s| - 1, m);
    assert r[|r| - 1] == s[|s| - 1];
  }

  /** Appending a new <style> before the END of a chain adds one sheet;
      appending then a link whose rel is set to "stylesheet" adds one more;
      appending then an icon link adds none.  Each link's href is set after
      its rel, so it comes first in the run.  On the test document, which
      starts with four sheets, the counts are five, six and six. */
  lemma Appends(s0: seq<Node>, css: string)
    requires |s0| > 0 && s0[|s0| - 1] == End
    ensures var s1 := Splice(s0, |s0| - 1, |s0| - 1, StyleElement(14, css));
      var s2 := Splice(s1, |s1| - 1, |s1| - 1, LinkElement(16, [Attr(18, "href", "dynamic.css"), Attr(17, "rel", "stylesheet")]));
      var s3 := Splice(s2, |s2| - 1, |s2| - 1, LinkElement(19, [Attr(21, "href", "new-icon.ico"), Attr(20, "rel", "icon")]));
      var n := StyleSheetCount(s0);
      StyleSheetCount(s1) == n + 1 && StyleSheetCount(s2) == n + 2 && StyleSheetCount(s3) == n + 2
  {
    StyleBringsOne(14, css);
    LinkRelSecond(16, 17, 18, "stylesheet", "dynamic.css");
    LinkRelSecond(19, 20, 21, "icon", "new-icon.ico");
    var st := StyleElement(14, css);
    AppendAtEnd(s0, st);
    var s1 := Splice(s0, |s0| - 1, |s0| - 1, st);
    var l1 := LinkElement(16, [Attr(18, "href", "dynamic.css"), Attr(17, "rel", "stylesheet")]);
    AppendAtEnd(s1, l1);
    var s2 := Splice(s1, |s1| - 1, |s1| - 1, l1);
    AppendAtEnd(s2, LinkElement(19, [Attr(21, "href", "new-icon.ico"), Attr(20, "rel", "icon")]));
  }
}
