/**
  toString: one pass over the chain from the element to its END that emits
  markup, with an isOpened flag telling whether the last start tag emitted
  still waits for its closing ">".
 */
module Serialize {
  import opened Chain
  import opened Attributes

  /** What toString takes from code outside the element: the string forms of
      attribute, text, comment and CDATA nodes, the void-element test on a
      local name, the case mode of the document, whether a node's element
      class has a toString of its own, and what that toString returns for
      the element at an index of the chain. */
  datatype Renderer = Renderer(
    attr: Node -> string,
    data: Node -> string,
    isVoid: string -> bool,
    ignoreCase: bool,
    differs: Node -> bool,
    own: (seq<Node>, nat) -> string)

  /** An attribute contributes a space and its string form, unless that form
      is exactly "id", "class" or "style". */
  function AttrPiece(x: Node, R: Renderer): (p: string)
    ensures R.attr(x) in {"id", "class", "style"} ==> p == ""
    ensures R.attr(x) !in {"id", "class", "style"} ==> p == " " + R.attr(x)
  {
    var a := " " + R.attr(x);
    assert a[1..] == R.attr(x);
    if a == " id" || a == " class" || a == " style" then ""
    else a
  }

  /** How a start tag that is still open is closed at its END. */
  function SelfClose(start: Node, R: Renderer): string
    requires start.Start?
  {
    if start.svg then " />"
    else if R.isVoid(start.name) then (if R.ignoreCase then ">" else " />")
    else "></" + start.name + ">"
  }

  /** What an end marker emits: the open start tag is closed there, an
      already closed one gets its closing tag. */
  function EndPiece(s: seq<Node>, k: nat, isOpened: bool, R: Renderer): string
    requires k < |s|
  {
    match ParentOf(s, k)
    case Some(p) => if isOpened then SelfClose(s[p], R) else "</" + s[p].name + ">"
    case None => ""
  }

  /** One turn of the loop on a node that is not the END it stops at: what
      it pushes, where the cursor is afterwards, and the new isOpened. */
  datatype Stepped = Stepped(piece: string, last: nat, isOpened: bool)

  function Step(s: seq<Node>, e: nat, k: nat, isOpened: bool, R: Renderer): (st: Stepped)
    requires k < |s|
    ensures st.last >= k
  {
    var x := s[k];
    var gt := if isOpened then ">" else "";
    match x
    case Attr(_, _, _) => Stepped(AttrPiece(x, R), k, isOpened)
    case End => Stepped(EndPiece(s, k, isOpened, R), k, false)
    case Start(_, name, _) =>
      if k != e && R.differs(x) then Stepped(gt + R.own(s, k), EndOf(s, k), false)
      else Stepped(gt + "<" + name, k, true)
    case _ => Stepped(gt + R.data(x), k, false)
  }

  /** What the walk has pushed from k up to (not including) end, and the
      flag it arrives with. */
  datatype Walked = Walked(out: string, isOpened: bool)

  /** The walk over s[k..end) of the element at e. */
  function Walk(s: seq<Node>, e: nat, k: nat, isOpened: bool, R: Renderer): (w: Walked)
    requires WellFormed(s) && IsElement(s, e) && e <= k <= EndOf(s, e)
    decreases EndOf(s, e) - k
  {
    var end := EndOf(s, e);
    EndOfElement(s, e);
    if k == end then Walked("", isOpened)
    else
      var st := Step(s, e, k, isOpened, R);
      if st.last != k then
        NestedEnd(s, e, k);
        var rest := Walk(s, e, st.last + 1, st.isOpened, R);
        Walked(st.piece + rest.out, rest.isOpened)
      else
        var rest := Walk(s, e, k + 1, st.isOpened, R);
        Walked(st.piece + rest.out, rest.isOpened)
  }

  /** What toString returns once the walk stands at k with the flag
      `isOpened`: the rest of the walk and the piece of the final END. */
  function Tail(s: seq<Node>, e: nat, k: nat, isOpened: bool, R: Renderer): string
    requires WellFormed(s) && IsElement(s, e) && e <= k <= EndOf(s, e)
  {
    EndOfElement(s, e);
    var w := Walk(s, e, k, isOpened, R);
    w.out + EndPiece(s, EndOf(s, e), w.isOpened, R)
  }

  /** toString of the element at e. */
  function Render(s: seq<Node>, e: nat, R: Renderer): string
    requires WellFormed(s) && IsElement(s, e)
  {
    EndOfElement(s, e);
    Tail(s, e, e, false, R)
  }

  // ---------------------------------------------------------------------
  // The isOpened flag

  /** The flag the walk carries into k: set exactly when the node before k
      is a start tag or an attribute of one. */
  predicate OpenAt(s: seq<Node>, e: nat, k: nat)
    requires k <= |s|
  {
    k > e && (s[k - 1].Start? || s[k - 1].Attr?)
  }

  /** One turn keeps the flag equal to OpenAt. */
  lemma StepFlag(s: seq<Node>, e: nat, k: nat, R: Renderer)
    requires WellFormed(s) && IsElement(s, e) && e <= k < EndOf(s, e)
    ensures var st := Step(s, e, k, OpenAt(s, e, k), R);
      st.last < |s| && st.isOpened == OpenAt(s, e, st.last + 1)
  {
    var st := Step(s, e, k, OpenAt(s, e, k), R);
    if st.last != k {
      EndOfElement(s, k);
    } else if s[k].Attr? {
      assert k > e && (s[k - 1].Start? || s[k - 1].Attr?);
    }
  }

  /** The walk keeps isOpened equal to OpenAt, so it arrives at END with the
      flag set exactly when the last node before END is the element's start
      tag or one of its attributes. */
  lemma {:induction false} WalkFlag(s: seq<Node>, e: nat, k: nat, R: Renderer)
    requires WellFormed(s) && IsElement(s, e) && e <= k <= EndOf(s, e)
    ensures Walk(s, e, k, OpenAt(s, e, k), R).isOpened == OpenAt(s, e, EndOf(s, e))
    decreases EndOf(s, e) - k
  {
    if k < EndOf(s, e) {
      var flag := OpenAt(s, e, k);
      WalkUnfold(s, e, k, flag, R);
      StepFlag(s, e, k, R);
      WalkFlag(s, e, Step(s, e, k, flag, R).last + 1, R);
    }
  }

  // ---------------------------------------------------------------------
  // The shape of the markup

  /** What the attributes of s[k..a) contribute, in chain order. */
  function AttrsOut(s: seq<Node>, k: nat, a: nat, R: Renderer): string
    requires k <= a <= |s|
    decreases a - k
  {
    if k == a then "" else AttrPiece(s[k], R) + AttrsOut(s, k + 1, a, R)
  }

  /** A piece pushed in front of a walk whose output starts with mid. */
  lemma Glue(w: Walked, inner: Walked, p: string, mid: string, both: string, rest: Walked)
    requires w == Walked(p + inner.out, inner.isOpened)
    requires inner == Walked(mid + rest.out, rest.isOpened)
    requires both == p + mid
    ensures w == Walked(both + rest.out, rest.isOpened)
  {
    assert p + (mid + rest.out) == both + rest.out;
  }

  /** Over the attribute run the flag stays set and the walk emits the
      attributes. */
  lemma {:induction false} WalkRun(s: seq<Node>, e: nat, k: nat, R: Renderer)
    requires WellFormed(s) && IsElement(s, e) && e + 1 <= k <= RunEnd(s, e + 1)
    ensures RunEnd(s, e + 1) <= EndOf(s, e)
    ensures var a := RunEnd(s, e + 1);
      var rest := Walk(s, e, a, true, R);
      Walk(s, e, k, true, R) == Walked(AttrsOut(s, k, a, R) + rest.out, rest.isOpened)
    decreases RunEnd(s, e + 1) - k
  {
    RunInside(s, e);
    var a := RunEnd(s, e + 1);
    var rest := Walk(s, e, a, true, R);
    if k < a {
      WalkRun(s, e, k + 1, R);
      WalkUnfold(s, e, k, true, R);
      var p := AttrPiece(s[k], R);
      assert Step(s, e, k, true, R) == Stepped(p, k, true);
      Glue(Walk(s, e, k, true, R), Walk(s, e, k + 1, true, R), p, AttrsOut(s, k + 1, a, R), AttrsOut(s, k, a, R), rest);
    } else {
      assert AttrsOut(s, k, a, R) + rest.out == rest.out;
    }
  }

  /** On a child that is neither an attribute nor an END, an open start tag
      only adds the ">" in front; the rest of the walk is the same. */
  lemma {:induction false} WalkGt(s: seq<Node>, e: nat, k: nat, R: Renderer)
    requires WellFormed(s) && IsElement(s, e) && e < k < EndOf(s, e)
    requires !s[k].Attr? && !s[k].End?
    ensures Walk(s, e, k, true, R) ==
      Walked(">" + Walk(s, e, k, false, R).out, Walk(s, e, k, false, R).isOpened)
  {
    var t := Step(s, e, k, true, R);
    var f := Step(s, e, k, false, R);
    assert t == Stepped(">" + f.piece, f.last, f.isOpened);
  }

  /** The attribute object in s[i] sits in the run of the nearest Start
      before it. */
  lemma {:induction false} AttrOwner(s: seq<Node>, i: nat) returns (j: nat)
    requires AttrsPlaced(s) && i < |s| && s[i].Attr?
    ensures j < i && s[j].Start? && forall m :: j < m <= i ==> s[m].Attr?
    decreases i
  {
    if s[i - 1].Start? {
      j := i - 1;
    } else {
      j := AttrOwner(s, i - 1);
    }
  }

  /** The first child of an element is not an END. */
  lemma {:induction false} ContentStart(s: seq<Node>, e: nat)
    requires WellFormed(s) && IsElement(s, e)
    ensures var a := RunEnd(s, e + 1);
      a <= EndOf(s, e) && (a < EndOf(s, e) ==> !s[a].End? && !s[a].Attr?)
  {
    EndOfElement(s, e);
    var a := RunEnd(s, e + 1);
    var first := e + 1;
    if a < EndOf(s, e) {
      LevelFlat(s, first, a);
      assert Level(s, first, a + 1) == Level(s, first, a) + Delta(s[a]);
      assert Level(s, first, a + 1) >= 0;
    }
  }


  /** An element with children does not end on its start tag or on an
      attribute, so the walk arrives at END with the flag down. */
  lemma {:induction false} LastNotOpen(s: seq<Node>, e: nat)
    requires WellFormed(s) && IsElement(s, e)
    requires RunEnd(s, e + 1) < EndOf(s, e)
    ensures !OpenAt(s, e, EndOf(s, e))
  {
    EndOfElement(s, e);
    var a := RunEnd(s, e + 1);
    var end := EndOf(s, e);
    var first := e + 1;
    assert Level(s, first, end) == Level(s, first, end - 1) + Delta(s[end - 1]);
    if s[end - 1].Attr? {
      var j := AttrOwner(s, end - 1);
      if j >= a {
        LevelSplit(s, first, j, end);
        LevelSplit(s, j, j + 1, end);
        LevelFlat(s, j + 1, end);
      }
      assert false;
    }
  }

  /** The walk opens with the start tag and the kept attributes, and then
      stands after the run with the flag set. */
  lemma WalkStart(s: seq<Node>, e: nat, R: Renderer)
    requires WellFormed(s) && IsElement(s, e)
    ensures var a := RunEnd(s, e + 1);
      a <= EndOf(s, e) &&
      var rest := Walk(s, e, a, true, R);
      Walk(s, e, e, false, R) == Walked("<" + s[e].name + AttrsOut(s, e + 1, a, R) + rest.out, rest.isOpened)
  {
    EndOfElement(s, e);
    var a := RunEnd(s, e + 1);
    var name := s[e].name;
    assert Step(s, e, e, false, R) == Stepped("<" + name, e, true);
    var run := Walk(s, e, e + 1, true, R);
    assert Walk(s, e, e, false, R) == Walked("<" + name + run.out, run.isOpened);
    WalkRun(s, e, e + 1, R);
  }

  /** Once the walk stands after the run: with no children the open start
      tag is closed by END, otherwise the first child adds ">" and END
      closes with the closing tag. */
  lemma {:induction false} TailAfterRun(s: seq<Node>, e: nat, R: Renderer)
    requires WellFormed(s) && IsElement(s, e)
    ensures var a := RunEnd(s, e + 1);
      a <= EndOf(s, e) &&
      Tail(s, e, a, true, R) ==
        (if a == EndOf(s, e) then SelfClose(s[e], R)
         else ">" + Walk(s, e, a, false, R).out + "</" + s[e].name + ">")
  {
    EndOfElement(s, e);
    EndStart(s, e);
    var a := RunEnd(s, e + 1);
    var end := EndOf(s, e);
    if a < end {
      ContentStart(s, e);
      WalkGt(s, e, a, R);
      WalkFlag(s, e, a, R);
      assert OpenAt(s, e, a);
      LastNotOpen(s, e);
      assert EndPiece(s, end, false, R) == "</" + s[e].name + ">";
    } else {
      assert Walk(s, e, a, true, R) == Walked("", true);
    }
  }

  /** toString opens with the start tag and the kept attributes and goes
      on from the end of the run with the flag set. */
  lemma {:induction false} RenderHead(s: seq<Node>, e: nat, R: Renderer)
    requires WellFormed(s) && IsElement(s, e)
    ensures var a := RunEnd(s, e + 1);
      a <= EndOf(s, e) &&
      Render(s, e, R) == "<" + s[e].name + AttrsOut(s, e + 1, a, R) + Tail(s, e, a, true, R)
  {
    EndOfElement(s, e);
    WalkStart(s, e, R);
    var a := RunEnd(s, e + 1);
    var head := "<" + s[e].name + AttrsOut(s, e + 1, a, R);
    var rest := Walk(s, e, a, true, R);
    var w := Walk(s, e, e, false, R);
    var close := EndPiece(s, EndOf(s, e), rest.isOpened, R);
    assert w.out == head + rest.out && w.isOpened == rest.isOpened;
    assert Render(s, e, R) == w.out + close;
    assert Tail(s, e, a, true, R) == rest.out + close;
    Assoc(head, rest.out, close);
  }

  /** toString is the start tag with the attributes that are kept, then
      either the closing of the still open tag (no children) or ">", the
      children and the closing tag: the start tag is closed exactly once. */
  lemma {:induction false} RenderElement(s: seq<Node>, e: nat, R: Renderer)
    requires WellFormed(s) && IsElement(s, e)
    ensures var a := RunEnd(s, e + 1);
      a <= EndOf(s, e) &&
      Render(s, e, R) == "<" + s[e].name + AttrsOut(s, e + 1, a, R) +
        (if a == EndOf(s, e) then SelfClose(s[e], R)
         else ">" + Walk(s, e, a, false, R).out + "</" + s[e].name + ">")
  {
    RenderHead(s, e, R);
    TailAfterRun(s, e, R);
  }

  // ---------------------------------------------------------------------
  // Nested elements

  /** One turn of the walk: the piece of the node at k, then the walk from
      the node after the cursor. */
  lemma WalkUnfold(s: seq<Node>, e: nat, k: nat, isOpened: bool, R: Renderer)
    requires WellFormed(s) && IsElement(s, e) && e <= k < EndOf(s, e)
    ensures var st := Step(s, e, k, isOpened, R);
      st.last < EndOf(s, e) &&
      var rest := Walk(s, e, st.last + 1, st.isOpened, R);
      Walk(s, e, k, isOpened, R) == Walked(st.piece + rest.out, rest.isOpened)
  {
    EndOfElement(s, e);
    if Step(s, e, k, isOpened, R).last != k {
      NestedEnd(s, e, k);
    }
  }

  /** Only the root of the walk is exempt from the own-toString test. */
  lemma StepSame(s: seq<Node>, e: nat, x: nat, k: nat, isOpened: bool, R: Renderer)
    requires k < |s| && k != e && k != x
    ensures Step(s, e, k, isOpened, R) == Step(s, x, k, isOpened, R)
  {
  }

  /** At the END of a nested element the walk of e emits its closing and
      goes on with the flag down. */
  lemma {:induction false} WalkAtNestedEnd(s: seq<Node>, e: nat, x: nat, isOpened: bool, R: Renderer)
    requires WellFormed(s) && IsElement(s, e) && e < x < EndOf(s, e) && s[x].Start?
    ensures EndOf(s, x) < EndOf(s, e)
    ensures var rest := Walk(s, e, EndOf(s, x) + 1, false, R);
      Walk(s, e, EndOf(s, x), isOpened, R) ==
        Walked(EndPiece(s, EndOf(s, x), isOpened, R) + rest.out, rest.isOpened)
  {
    NestedEnd(s, e, x);
    EndOfElement(s, x);
    WalkUnfold(s, e, EndOf(s, x), isOpened, R);
  }

  /** One turn of the walk, seen from toString's remaining output. */
  lemma TailUnfold(s: seq<Node>, e: nat, k: nat, isOpened: bool, R: Renderer)
    requires WellFormed(s) && IsElement(s, e) && e <= k < EndOf(s, e)
    ensures var st := Step(s, e, k, isOpened, R);
      st.last < EndOf(s, e) &&
      Tail(s, e, k, isOpened, R) == st.piece + Tail(s, e, st.last + 1, st.isOpened, R)
  {
    WalkUnfold(s, e, k, isOpened, R);
    var st := Step(s, e, k, isOpened, R);
    var rest := Walk(s, e, st.last + 1, st.isOpened, R);
    RunInside(s, e);
    var close := EndPiece(s, EndOf(s, e), rest.isOpened, R);
    assert Tail(s, e, k, isOpened, R) == (st.piece + rest.out) + close;
    assert Tail(s, e, st.last + 1, st.isOpened, R) == rest.out + close;
    Assoc(st.piece, rest.out, close);
  }

  lemma Assoc(a: string, b: string, c: string)
    ensures (a + b) + c == a + (b + c)
  {
  }

  /** toString's invariant carried over one turn: what was pushed so far
      and the rest of the walk still make up the whole output. */
  lemma PushStep(out: string, s: seq<Node>, e: nat, k: nat, isOpened: bool, R: Renderer)
    requires WellFormed(s) && IsElement(s, e) && e <= k < EndOf(s, e)
    ensures var st := Step(s, e, k, isOpened, R);
      st.last < EndOf(s, e) &&
      out + Tail(s, e, k, isOpened, R) == (out + st.piece) + Tail(s, e, st.last + 1, st.isOpened, R)
  {
    TailUnfold(s, e, k, isOpened, R);
    var st := Step(s, e, k, isOpened, R);
    var rest := Tail(s, e, st.last + 1, st.isOpened, R);
    Assoc(out, st.piece, rest);
  }

  /** At the element's own END only its piece is left. */
  lemma TailAtEnd(s: seq<Node>, e: nat, isOpened: bool, R: Renderer)
    requires WellFormed(s) && IsElement(s, e)
    ensures EndOf(s, e) < |s|
    ensures Tail(s, e, EndOf(s, e), isOpened, R) == EndPiece(s, EndOf(s, e), isOpened, R)
  {
    EndOfElement(s, e);
    assert Walk(s, e, EndOf(s, e), isOpened, R) == Walked("", isOpened);
  }

  /** What the walk of e does inside the nested element x, from k on. */
  ghost predicate NestedFrom(s: seq<Node>, e: nat, x: nat, k: nat, isOpened: bool, R: Renderer)
    requires WellFormed(s) && IsElement(s, e) && e < x < EndOf(s, e) && s[x].Start?
    requires x < k <= EndOf(s, x)
  {
    NestedEnd(s, e, x);
    Walk(s, e, k, isOpened, R) ==
      Walked(Tail(s, x, k, isOpened, R) + Walk(s, e, EndOf(s, x) + 1, false, R).out,
             Walk(s, e, EndOf(s, x) + 1, false, R).isOpened)
  }

  /** At x's END the walks of e and x agree on its closing. */
  lemma NestedAtEnd(s: seq<Node>, e: nat, x: nat, isOpened: bool, R: Renderer)
    requires WellFormed(s) && IsElement(s, e) && e < x < EndOf(s, e) && s[x].Start?
    ensures x < EndOf(s, x) && NestedFrom(s, e, x, EndOf(s, x), isOpened, R)
  {
    WalkAtNestedEnd(s, e, x, isOpened, R);
    TailAtEnd(s, x, isOpened, R);
  }

  /** One turn of the walk inside x keeps the walks of e and x in step. */
  lemma NestedStep(s: seq<Node>, e: nat, x: nat, k: nat, isOpened: bool, R: Renderer)
    requires WellFormed(s) && IsElement(s, e) && e < x < EndOf(s, e) && s[x].Start?
    requires x < k < EndOf(s, x) && Step(s, x, k, isOpened, R).last < EndOf(s, x)
    requires var st := Step(s, x, k, isOpened, R); NestedFrom(s, e, x, st.last + 1, st.isOpened, R)
    ensures NestedFrom(s, e, x, k, isOpened, R)
  {
    NestedEnd(s, e, x);
    WalkUnfold(s, e, k, isOpened, R);
    StepSame(s, e, x, k, isOpened, R);
    TailUnfold(s, x, k, isOpened, R);
    var st := Step(s, x, k, isOpened, R);
    var rest := Walk(s, e, EndOf(s, x) + 1, false, R);
    Glue(Walk(s, e, k, isOpened, R), Walk(s, e, st.last + 1, st.isOpened, R), st.piece,
         Tail(s, x, st.last + 1, st.isOpened, R), Tail(s, x, k, isOpened, R), rest);
  }

  /** Inside a nested element x the walk of e emits what toString of x
      emits from there on, up to and including x's END, and then goes on
      after it with the flag down. */
  lemma {:induction false} WalkNested(s: seq<Node>, e: nat, x: nat, k: nat, isOpened: bool, R: Renderer)
    requires WellFormed(s) && IsElement(s, e) && e < x < EndOf(s, e) && s[x].Start?
    requires x < k <= EndOf(s, x)
    ensures NestedFrom(s, e, x, k, isOpened, R)
    decreases EndOf(s, x) - k
  {
    if k == EndOf(s, x) {
      NestedAtEnd(s, e, x, isOpened, R);
    } else {
      TailUnfold(s, x, k, isOpened, R);
      var st := Step(s, x, k, isOpened, R);
      WalkNested(s, e, x, st.last + 1, st.isOpened, R);
      NestedStep(s, e, x, k, isOpened, R);
    }
  }

  /** toString starts with "<" and the local name, with the flag set. */
  lemma RenderOpen(s: seq<Node>, x: nat, R: Renderer)
    requires WellFormed(s) && IsElement(s, x)
    ensures x + 1 <= EndOf(s, x)
    ensures Render(s, x, R) == "<" + s[x].name + Tail(s, x, x + 1, true, R)
  {
    EndOfElement(s, x);
    TailUnfold(s, x, x, false, R);
    assert Step(s, x, x, false, R) == Stepped("<" + s[x].name, x, true);
  }

  /** Gluing a start tag, the rest of the child and the rest of the parent. */
  lemma Assemble(w: Walked, inner: Walked, rest: Walked, gt: string, name: string, t: string, child: string)
    requires w == Walked(gt + "<" + name + inner.out, inner.isOpened)
    requires inner == Walked(t + rest.out, rest.isOpened)
    requires child == "<" + name + t
    ensures w == Walked(gt + child + rest.out, rest.isOpened)
  {
    assert gt + "<" + name + (t + rest.out) == gt + ("<" + name + t) + rest.out;
  }

  /** The walk of e on an inline child's Start emits its start tag. */
  lemma InlineHead(s: seq<Node>, e: nat, x: nat, isOpened: bool, R: Renderer)
    requires WellFormed(s) && IsElement(s, e) && e < x < EndOf(s, e) && s[x].Start?
    requires !R.differs(s[x])
    ensures Walk(s, e, x, isOpened, R) ==
      Walked((if isOpened then ">" else "") + "<" + s[x].name + Walk(s, e, x + 1, true, R).out,
             Walk(s, e, x + 1, true, R).isOpened)
  {
    WalkUnfold(s, e, x, isOpened, R);
    assert Step(s, e, x, isOpened, R) == Stepped((if isOpened then ">" else "") + "<" + s[x].name, x, true);
  }

  /** A child element without a toString of its own is serialized inline
      exactly as its own toString would serialize it, after the ">" that
      closes a start tag still open. */
  lemma InlineChild(s: seq<Node>, e: nat, x: nat, isOpened: bool, R: Renderer)
    requires WellFormed(s) && IsElement(s, e) && e < x < EndOf(s, e) && s[x].Start?
    requires !R.differs(s[x])
    ensures EndOf(s, x) < EndOf(s, e)
    ensures Walk(s, e, x, isOpened, R) ==
      Walked((if isOpened then ">" else "") + Render(s, x, R) + Walk(s, e, EndOf(s, x) + 1, false, R).out,
             Walk(s, e, EndOf(s, x) + 1, false, R).isOpened)
  {
    NestedEnd(s, e, x);
    EndOfElement(s, x);
    var gt := if isOpened then ">" else "";
    var name := s[x].name;
    InlineHead(s, e, x, isOpened, R);
    RenderOpen(s, x, R);
    WalkNested(s, e, x, x + 1, true, R);
    Assemble(Walk(s, e, x, isOpened, R), Walk(s, e, x + 1, true, R),
             Walk(s, e, EndOf(s, x) + 1, false, R), gt, name, Tail(s, x, x + 1, true, R), Render(s, x, R));
  }
}
