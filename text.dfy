/**
  textContent and innerText: forward walks from the node after an element to
  its END that collect the character data of its content.
 */
module Texts {
  import opened Chain
  import opened JsStrings

  // ---------------------------------------------------------------------
  // textContent

  /** What one node adds to textContent: the data of Text and CDATA nodes;
      attributes, comments and element markers add nothing. */
  function TextPiece(n: Node): string {
    if n.Text? || n.CData? then n.data else ""
  }

  /** The in-order concatenation of the pieces of s[i..k]. */
  function TextOf(s: seq<Node>, i: nat, k: nat): (t: string)
    requires i <= k <= |s|
    decreases k - i
  {
    if k == i then "" else TextOf(s, i, k - 1) + TextPiece(s[k - 1])
  }

  /** The textContent getter of the element at e. */
  function TextContent(s: seq<Node>, e: nat): (t: string)
    requires e < |s|
  {
    TextOf(s, e + 1, EndOf(s, e))
  }

  lemma {:induction false} TextOfSplit(s: seq<Node>, i: nat, j: nat, k: nat)
    requires i <= j <= k <= |s|
    ensures TextOf(s, i, k) == TextOf(s, i, j) + TextOf(s, j, k)
    decreases k - j
  {
    if k > j {
      TextOfSplit(s, i, j, k - 1);
    }
  }

  /** A stretch without Text or CDATA nodes contributes nothing. */
  lemma {:induction false} TextOfSilent(s: seq<Node>, i: nat, k: nat)
    requires i <= k <= |s|
    requires forall m :: i <= m < k ==> !s[m].Text? && !s[m].CData?
    ensures TextOf(s, i, k) == ""
    decreases k - i
  {
    if k > i {
      TextOfSilent(s, i, k - 1);
    }
  }

  /** textContent depends only on the nodes between the element and its END:
      two chains that agree there agree on textContent. */
  lemma {:induction false} TextOfShift(s: seq<Node>, t: seq<Node>, i: nat, k: nat, off: nat)
    requires i <= k <= |s| && k + off <= |t|
    requires forall m :: i <= m < k ==> TextPiece(t[m + off]) == TextPiece(s[m])
    ensures TextOf(t, i + off, k + off) == TextOf(s, i, k)
    decreases k - i
  {
    if k > i {
      TextOfShift(s, t, i, k - 1, off);
    }
  }

  // ---------------------------------------------------------------------
  // The textContent setter

  /** Close skips every node that is neither a Start nor an End. */
  lemma {:induction false} CloseSkip(s: seq<Node>, i: nat, j: nat, d: nat)
    requires i <= j <= |s| && d > 0
    requires forall m :: i <= m < j ==> !s[m].Start? && !s[m].End?
    ensures Close(s, i, d) == Close(s, j, d)
    decreases j - i
  {
    if i < j {
      CloseSkip(s, i + 1, j, d);
    }
  }

  /** The END of an element never lies inside its attribute run. */
  lemma {:induction false} RunBeforeClose(s: seq<Node>, i: nat, d: nat)
    requires i <= |s| && d > 0
    ensures RunEnd(s, i) <= Close(s, i, d)
    decreases |s| - i
  {
    if i < |s| && s[i].Attr? {
      RunBeforeClose(s, i + 1, d);
    }
  }


  /** The child content that textContent = text leaves: nothing for null
      and "", one Text node otherwise. */
  function NewText(text: Option<string>): (m: seq<Node>)
    ensures |m| <= 1
  {
    if text.Some? && text.value != "" then [Text(text.value)] else []
  }

  /** The textContent setter: replaceChildren() drops everything between
      the attribute run and END, then the new text is appended. */
  function SetTextContent(s: seq<Node>, e: nat, text: Option<string>): (r: seq<Node>)
    requires e < |s|
  {
    RunBeforeClose(s, e + 1, 1);
    Splice(s, RunEnd(s, e + 1), EndOf(s, e), NewText(text))
  }

  /** After textContent = text the attribute run is untouched and END
      follows the new content directly. */
  lemma SetTextContentShape(s: seq<Node>, e: nat, text: Option<string>)
    requires WellFormed(s) && IsElement(s, e)
    ensures var r := SetTextContent(s, e, text);
      var a := RunEnd(s, e + 1);
      IsElement(r, e) && RunEnd(r, e + 1) == a && r[..a] == s[..a] &&
      EndOf(r, e) == a + |NewText(text)| && r[a..a + |NewText(text)|] == NewText(text)
  {
    var r := SetTextContent(s, e, text);
    var a := RunEnd(s, e + 1);
    var m := NewText(text);
    var end := EndOf(s, e);
    EndOfElement(s, e);
    assert forall k :: e + 1 <= k < a ==> r[k] == s[k];
    assert r[a + |m|] == s[end];
    RunEndAfter(r, e + 1, a);
    var first := e + 1;
    forall k | first <= k < a + |m| ensures !r[k].Start? && !r[k].End? {
      if k >= a { assert r[k] == m[k - a]; }
    }
    CloseSkip(r, first, a + |m|, 1);
  }

  /** After textContent = text the element's only child is the new Text
      node (or it has none) and the getter reads the text back (null reads
      back as ""). */
  lemma {:induction false} SetTextContentSpec(s: seq<Node>, e: nat, text: Option<string>)
    requires WellFormed(s) && IsElement(s, e)
    ensures var r := SetTextContent(s, e, text);
      var a := RunEnd(s, e + 1);
      r[e + 1..EndOf(r, e)] == s[e + 1..a] + NewText(text) &&
      TextContent(r, e) == (if text.Some? then text.value else "")
  {
    SetTextChildren(s, e, text);
    SetTextReadsBack(s, e, text);
  }

  lemma {:induction false} SetTextChildren(s: seq<Node>, e: nat, text: Option<string>)
    requires WellFormed(s) && IsElement(s, e)
    ensures var r := SetTextContent(s, e, text);
      r[e + 1..EndOf(r, e)] == s[e + 1..RunEnd(s, e + 1)] + NewText(text)
  {
    SetTextContentShape(s, e, text);
    var r := SetTextContent(s, e, text);
    var a := RunEnd(s, e + 1);
    var m := NewText(text);
    var first := e + 1;
    assert r[first..a] == s[first..a];
    assert r[first..a + |m|] == r[first..a] + r[a..a + |m|];
  }

  lemma SetTextReadsBack(s: seq<Node>, e: nat, text: Option<string>)
    requires WellFormed(s) && IsElement(s, e)
    ensures TextContent(SetTextContent(s, e, text), e) == (if text.Some? then text.value else "")
  {
    SetTextContentShape(s, e, text);
    var r := SetTextContent(s, e, text);
    var a := RunEnd(s, e + 1);
    var m := NewText(text);
    if |m| == 1 {
      assert r[a] == r[a..a + |m|][0];
    }
    ContentAfterRun(r, e, a, m);
  }

  /** An element whose content, after its attribute run, is m has the text
      of m as textContent. */
  lemma {:induction false} ContentAfterRun(r: seq<Node>, e: nat, a: nat, m: seq<Node>)
    requires e < a && a + |m| <= |r| && |m| <= 1
    requires RunEnd(r, e + 1) == a && EndOf(r, e) == a + |m| && (|m| == 1 ==> r[a] == m[0])
    ensures TextContent(r, e) == (if |m| == 1 then TextPiece(m[0]) else "")
  {
    var c := a + |m|;
    assert TextContent(r, e) == TextOf(r, e + 1, c);
    assert forall k :: e + 1 <= k < a ==> r[k].Attr?;
    TextOfSilent(r, e + 1, a);
    TextOfSplit(r, e + 1, a, c);
    assert TextOf(r, e + 1, c) == TextOf(r, a, c) by {
      EmptyFront(TextOf(r, a, c));
    }
    if |m| == 1 {
      TextOfOne(r, a);
    }
  }

  lemma EmptyFront(x: string)
    ensures "" + x == x
  {
  }

  /** A single node contributes its own piece. */
  lemma {:induction false} TextOfOne(r: seq<Node>, a: nat)
    requires a < |r|
    ensures TextOf(r, a, a + 1) == TextPiece(r[a])
  {
    assert TextOf(r, a, a) == "";
    EmptyFront(TextPiece(r[a]));
  }

  /** RunEnd depends only on the run itself. */
  lemma {:induction false} RunEndAfter(r: seq<Node>, i: nat, a: nat)
    requires i <= a < |r|
    requires forall k :: i <= k < a ==> r[k].Attr?
    requires !r[a].Attr?
    ensures RunEnd(r, i) == a
    decreases a - i
  {
    if i < a {
      RunEndAfter(r, i + 1, a);
    }
  }

  /** textContent = text keeps the document invariant. */
  lemma SetTextContentSound(s: seq<Node>, e: nat, text: Option<string>, n: nat)
    requires Sound(s, n) && IsElement(s, e)
    ensures Sound(SetTextContent(s, e, text), n)
  {
    var a := RunEnd(s, e + 1);
    var end := EndOf(s, e);
    var m := NewText(text);
    EndOfElement(s, e);
    LevelSplit(s, e + 1, a, end);
    LevelFlat(s, e + 1, a);
    if |m| == 1 {
      SingleBalanced(m[0]);
    } else {
      assert Level(m, 0, 0) == 0;
    }
    SpliceWellFormed(s, a, end, m);
    SpliceKeys(s, a, end, m, n);
    SpliceNamesApart(s, a, end, m);
  }

  // ---------------------------------------------------------------------
  // innerText

  /** No white space but single blanks: what replace(/\s+/g, " ") leaves. */
  predicate Collapsed(t: string) {
    forall k :: 0 <= k < |t| && IsSpace(t[k]) ==> t[k] == ' ' && (k + 1 < |t| ==> !IsSpace(t[k + 1]))
  }

  /** The rest of t after its leading white space. */
  function DropSpaces(t: string): (r: string)
    ensures |r| <= |t| && r == t[|t| - |r|..]
    ensures r != [] ==> !IsSpace(r[0])
  {
    if t != [] && IsSpace(t[0]) then DropSpaces(t[1..]) else t
  }

  /** What DropSpaces drops is white space. */
  lemma {:induction false} DroppedSpaces(t: string)
    ensures forall k :: 0 <= k < |t| - |DropSpaces(t)| ==> IsSpace(t[k])
    decreases |t|
  {
    if t != [] && IsSpace(t[0]) {
      DroppedSpaces(t[1..]);
      forall k | 0 < k < |t| - |DropSpaces(t)| ensures IsSpace(t[k]) {
        assert t[k] == t[1..][k - 1];
      }
    }
  }

  /** t.replace(/\s+/g, " "): every maximal run of white space becomes one
      blank. */
  function Collapse(t: string): (r: string)
    ensures |r| <= |t|
    decreases |t|
  {
    if t == [] then []
    else if IsSpace(t[0]) then [' '] + Collapse(DropSpaces(t[1..]))
    else [t[0]] + Collapse(t[1..])
  }

  /** A white space run at the front becomes one blank; any other first
      character is kept. */
  lemma {:induction false} CollapseFirst(t: string)
    requires t != []
    ensures var r := Collapse(t); r != [] && r[0] == (if IsSpace(t[0]) then ' ' else t[0])
  {
  }

  /** What Collapse leaves is collapsed. */
  lemma {:induction false} CollapseCollapsed(t: string)
    ensures Collapsed(Collapse(t))
    decreases |t|
  {
    if t != [] {
      if IsSpace(t[0]) {
        var u := DropSpaces(t[1..]);
        CollapseCollapsed(u);
        if u != [] {
          CollapseFirst(u);
        }
        CollapsedCons(' ', Collapse(u));
      } else {
        CollapseCollapsed(t[1..]);
        CollapsedCons(t[0], Collapse(t[1..]));
      }
    }
  }

  /** A character put in front of collapsed text keeps it collapsed unless
      it makes a second white space in a row. */
  lemma CollapsedCons(c: char, r: string)
    requires Collapsed(r) && (IsSpace(c) ==> c == ' ' && (r != [] ==> !IsSpace(r[0])))
    ensures Collapsed([c] + r)
  {
    var u := [c] + r;
    forall k | 0 <= k < |u| && IsSpace(u[k]) ensures u[k] == ' ' && (k + 1 < |u| ==> !IsSpace(u[k + 1])) {
      if k > 0 {
        assert u[k] == r[k - 1];
        if k + 1 < |u| { assert u[k + 1] == r[k]; }
      } else if k + 1 < |u| {
        assert u[1] == r[0];
      }
    }
  }

  /** The characters of t that are not white space, in order. */
  function Visible(t: string): (r: string)
    ensures forall k :: 0 <= k < |r| ==> !IsSpace(r[k])
  {
    if t == [] then [] else (if IsSpace(t[0]) then [] else [t[0]]) + Visible(t[1..])
  }

  lemma {:induction false} VisibleOfSpaces(t: string, j: nat)
    requires j <= |t| && forall k :: 0 <= k < j ==> IsSpace(t[k])
    ensures Visible(t) == Visible(t[j..])
    decreases j
  {
    if j > 0 {
      assert t[1..][j - 1..] == t[j..];
      VisibleOfSpaces(t[1..], j - 1);
    }
  }

  /** Collapsing white space keeps every other character, in order. */
  lemma {:induction false} CollapseVisible(t: string)
    ensures Visible(Collapse(t)) == Visible(t)
    decreases |t|
  {
    if t != [] {
      var r := Collapse(t);
      if IsSpace(t[0]) {
        var u := DropSpaces(t[1..]);
        CollapseVisible(u);
        DroppedSpaces(t[1..]);
        assert r[1..] == Collapse(u);
        VisibleOfSpaces(t[1..], |t[1..]| - |u|);
      } else {
        CollapseVisible(t[1..]);
        assert r[1..] == Collapse(t[1..]);
      }
    }
  }

  lemma CollapsedTail(t: string)
    requires t != [] && Collapsed(t)
    ensures Collapsed(t[1..])
  {
    var u := t[1..];
    forall k | 0 <= k < |u| && IsSpace(u[k]) ensures u[k] == ' ' && (k + 1 < |u| ==> !IsSpace(u[k + 1])) {
      assert u[k] == t[k + 1];
      if k + 1 < |u| { assert u[k + 1] == t[k + 2]; }
    }
  }

  /** Text that is already collapsed is left as it is; so collapsing twice
      is collapsing once. */
  lemma {:induction false} CollapseFixed(t: string)
    requires Collapsed(t)
    ensures Collapse(t) == t
    decreases |t|
  {
    if t != [] {
      CollapsedTail(t);
      CollapseFixed(t[1..]);
      CollapseHead(t);
      assert t == [t[0]] + t[1..];
    }
  }

  /** On collapsed text, Collapse keeps the first character and goes on
      with the rest. */
  lemma {:induction false} CollapseHead(t: string)
    requires t != [] && Collapsed(t)
    ensures Collapse(t) == [t[0]] + Collapse(t[1..])
  {
    if IsSpace(t[0]) {
      assert t[0] == ' ';
      if |t| > 1 {
        assert !IsSpace(t[1..][0]);
      }
      assert DropSpaces(t[1..]) == t[1..];
    }
  }

  lemma {:induction false} CollapseIdempotent(t: string)
    ensures Collapse(Collapse(t)) == Collapse(t)
  {
    CollapseCollapsed(t);
    CollapseFixed(Collapse(t));
  }

  /** What innerText pushes for the node at k of a walk that stops at end,
      given whether it has pushed anything yet: the collapsed data of a Text
      node, a line break before a block element that is not the last node
      before end, and nothing otherwise.  `blocks` is the set of tag names
      in BLOCK_ELEMENTS. */
  function InnerPiece(s: seq<Node>, k: nat, end: nat, blocks: set<string>, pushed: bool): (p: seq<string>)
    requires k < |s|
    ensures |p| <= 1
  {
    if s[k].Text? then [Collapse(s[k].data)]
    else if pushed && k + 1 != end && s[k].Start? && s[k].name in blocks then ["\n"]
    else []
  }

  /** The pieces innerText has pushed after visiting s[i..k]. */
  function InnerPieces(s: seq<Node>, i: nat, k: nat, end: nat, blocks: set<string>): (p: seq<string>)
    requires i <= k <= |s|
    decreases k - i
  {
    if k == i then []
    else
      var q := InnerPieces(s, i, k - 1, end, blocks);
      q + InnerPiece(s, k - 1, end, blocks, |q| > 0)
  }

  /** text.join(""). */
  function Join(p: seq<string>): (t: string)
    ensures p == [] ==> t == ""
  {
    if p == [] then "" else Join(p[..|p| - 1]) + p[|p| - 1]
  }

  /** The innerText getter of the element at e. */
  function InnerText(s: seq<Node>, e: nat, blocks: set<string>): (t: string)
    requires e < |s|
  {
    Join(InnerPieces(s, e + 1, EndOf(s, e), EndOf(s, e), blocks))
  }

  /** The last node visited adds its piece. */
  lemma PiecesLast(s: seq<Node>, i: nat, k: nat, end: nat, blocks: set<string>)
    requires i < k <= |s|
    ensures var q := InnerPieces(s, i, k - 1, end, blocks);
      InnerPieces(s, i, k, end, blocks) == q + InnerPiece(s, k - 1, end, blocks, |q| > 0)
  {
  }

  /** One more node visited adds its piece. */
  lemma PiecesStep(s: seq<Node>, i: nat, k: nat, end: nat, blocks: set<string>, text: seq<string>, piece: seq<string>)
    requires i <= k < |s|
    requires text == InnerPieces(s, i, k, end, blocks)
    requires piece == InnerPiece(s, k, end, blocks, |text| > 0)
    ensures text + piece == InnerPieces(s, i, k + 1, end, blocks)
  {
  }

  /** innerText's loop: from the node after e up to END, push the pieces,
      then join them. */
  method InnerWalk(s: seq<Node>, e: nat, blocks: set<string>) returns (t: string)
    requires e < |s|
    ensures t == InnerText(s, e, blocks)
  {
    var end := EndOf(s, e);
    var text: seq<string> := [];
    var next := e + 1;
    while next != end
      invariant e + 1 <= next <= end
      invariant text == InnerPieces(s, e + 1, next, end, blocks)
      decreases end - next
    {
      var x := s[next];
      var piece: seq<string> := [];
      if x.Text? {
        piece := [Collapse(x.data)];
      } else if |text| > 0 && next + 1 != end && x.Start? && x.name in blocks {
        piece := ["\n"];
      }
      PiecesStep(s, e + 1, next, end, blocks, text, piece);
      text, next := text + piece, next + 1;
    }
    t := Join(text);
  }

  /** Every piece is collapsed text or a line break, and a line break only
      comes once something has been pushed before it. */
  predicate PiecesShaped(p: seq<string>) {
    forall j :: 0 <= j < |p| ==> (Collapsed(p[j]) || p[j] == "\n") && (p[j] == "\n" ==> j > 0)
  }

  /** innerText only ever pushes collapsed text and line breaks, and a line
      break only once something has been pushed before it. */
  lemma {:induction false} InnerPiecesShape(s: seq<Node>, i: nat, k: nat, end: nat, blocks: set<string>)
    requires i <= k <= |s|
    ensures PiecesShaped(InnerPieces(s, i, k, end, blocks))
    decreases k - i
  {
    if k > i {
      InnerPiecesShape(s, i, k - 1, end, blocks);
      var q := InnerPieces(s, i, k - 1, end, blocks);
      var x := InnerPiece(s, k - 1, end, blocks, |q| > 0);
      var p := InnerPieces(s, i, k, end, blocks);
      PiecesLast(s, i, k, end, blocks);
      if s[k - 1].Text? {
        var c := Collapse(s[k - 1].data);
        CollapseCollapsed(s[k - 1].data);
        assert x == [c];
        if c == "\n" {
          assert IsSpace(c[0]);
        }
        assert c != "\n";
      }
      forall j | 0 <= j < |p| ensures (Collapsed(p[j]) || p[j] == "\n") && (p[j] == "\n" ==> j > 0) {
        if j < |q| {
          assert p[j] == q[j];
        } else {
          assert p[j] == x[0];
          if s[k - 1].Text? {
            assert Collapsed(x[0]) && x[0] != "\n";
          } else {
            assert x[0] == "\n" && |q| > 0;
          }
        }
      }
    }
  }

  /** An element whose content holds no Text node has empty innerText,
      whatever block elements it contains. */
  lemma {:induction false} InnerPiecesNoText(s: seq<Node>, i: nat, k: nat, end: nat, blocks: set<string>)
    requires i <= k <= |s|
    requires forall m :: i <= m < k ==> !s[m].Text?
    ensures |InnerPieces(s, i, k, end, blocks)| == 0
    decreases k - i
  {
    if k > i {
      InnerPiecesNoText(s, i, k - 1, end, blocks);
      NoTextStep(s, i, k, end, blocks);
    }
  }

  lemma NoTextStep(s: seq<Node>, i: nat, k: nat, end: nat, blocks: set<string>)
    requires i < k <= |s| && !s[k - 1].Text? && |InnerPieces(s, i, k - 1, end, blocks)| == 0
    ensures |InnerPieces(s, i, k, end, blocks)| == 0
  {
    PiecesLast(s, i, k, end, blocks);
  }

  /** Joining keeps every character of every piece and adds none. */
  lemma {:induction false} JoinChars(p: seq<string>, P: char -> bool)
    requires forall j, c :: 0 <= j < |p| && c in p[j] ==> P(c)
    ensures forall c :: c in Join(p) ==> P(c)
  {
    if p != [] {
      JoinChars(p[..|p| - 1], P);
    }
  }

  /** White space allowed in innerText: blanks and line breaks. */
  predicate Blank(c: char) {
    IsSpace(c) ==> c == ' ' || c == '\n'
  }

  /** The only white space innerText contains is ' ' and '\n': blanks from
      the collapsed text nodes and line breaks before block elements. Two
      collapsed pieces can meet at blanks, so a blank is not always single. */
  lemma InnerTextChars(s: seq<Node>, e: nat, blocks: set<string>)
    requires e < |s|
    ensures forall c :: c in InnerText(s, e, blocks) ==> Blank(c)
  {
    var end := EndOf(s, e);
    var p := InnerPieces(s, e + 1, end, end, blocks);
    InnerPiecesShape(s, e + 1, end, end, blocks);
    forall j, c | 0 <= j < |p| && c in p[j] ensures Blank(c) {
      var x :| 0 <= x < |p[j]| && p[j][x] == c;
      if p[j] != "\n" {
        var t := p[j];
        assert Collapsed(t);
        assert IsSpace(t[x]) ==> t[x] == ' ';
      }
    }
    JoinChars(p, Blank);
  }
}
