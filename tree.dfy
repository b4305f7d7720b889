/**
  closest and insertAdjacentElement: the walk up the parentElement links and
  the four insertion points around and inside an element.
 */
module Tree {
  import opened Chain

  // ---------------------------------------------------------------------
  // parentElement

  /** Walking back from i with u Starts still to skip, to the Start it
      finds: the stretch after that Start up to i opens exactly u more
      elements than it closes, and no suffix of it opens more. */
  lemma {:induction false} EnclosingLevel(s: seq<Node>, i: nat, u: nat)
    requires i <= |s| && Enclosing(s, i, u).Some?
    ensures var p := Enclosing(s, i, u).value;
      Level(s, p + 1, i) == u as int && forall k :: p + 1 <= k <= i ==> Level(s, k, i) <= u as int
    decreases i
  {
    var p := Enclosing(s, i, u).value;
    if s[i - 1].End? {
      EnclosingLevel(s, i - 1, u + 1);
    } else if s[i - 1].Start? {
      if u > 0 {
        EnclosingLevel(s, i - 1, u - 1);
      }
    } else {
      EnclosingLevel(s, i - 1, u);
    }
  }

  /** From just after its parent up to the node, nothing is left open and
      nothing closes more than it opened. */
  lemma {:induction false} ParentLevels(s: seq<Node>, i: nat)
    requires i < |s| && ParentOf(s, i).Some?
    ensures var f := ParentOf(s, i).value + 1;
      Level(s, f, i) == 0 && forall k :: f <= k <= i ==> Level(s, f, k) >= 0
  {
    var f := ParentOf(s, i).value + 1;
    EnclosingLevel(s, i, 0);
    forall k | f <= k <= i ensures Level(s, f, k) >= 0 {
      LevelSplit(s, f, k, i);
    }
  }

  /** The parent of a node contains it: the node lies after the parent's
      start and no later than its END, and only an END marker can be the
      parent's own END. */
  lemma ParentEncloses(s: seq<Node>, i: nat)
    requires WellFormed(s) && i < |s| && ParentOf(s, i).Some?
    ensures var p := ParentOf(s, i).value;
      p < i <= EndOf(s, p) && (i == EndOf(s, p) ==> s[i].End?)
  {
    var p := ParentOf(s, i).value;
    EndOfElement(s, p);
    var c := EndOf(s, p);
    EnclosingLevel(s, i, 0);
    if c < i {
      var first := p + 1;
      assert Level(s, first, c + 1) == Level(s, first, c) + Delta(s[c]);
      LevelSplit(s, first, c + 1, i);
      assert false;
    }
  }

  /** a is the node at i or one of its ancestors along parentElement. */
  ghost predicate AncestorOrSelf(s: seq<Node>, a: nat, i: nat)
    requires i < |s|
    decreases i
  {
    a == i || (ParentOf(s, i).Some? && AncestorOrSelf(s, a, ParentOf(s, i).value))
  }

  /** Ancestors come before the node in the chain. */
  lemma {:induction false} AncestorBefore(s: seq<Node>, i: nat)
    requires i < |s|
    ensures forall a: nat :: AncestorOrSelf(s, a, i) ==> a <= i
    decreases i
  {
    if ParentOf(s, i).Some? {
      AncestorBefore(s, ParentOf(s, i).value);
    }
  }

  /** An ancestor of an element is an element containing it. */
  lemma {:induction false} AncestorEncloses(s: seq<Node>, a: nat, i: nat)
    requires WellFormed(s) && IsElement(s, i) && AncestorOrSelf(s, a, i)
    ensures IsElement(s, a) && a <= i && EndOf(s, i) <= EndOf(s, a)
    decreases i
  {
    if a != i {
      var p := ParentOf(s, i).value;
      AncestorEncloses(s, a, p);
      ParentEncloses(s, i);
      NestedEnd(s, p, i);
    }
  }

  // ---------------------------------------------------------------------
  // closest

  /** closest(selectors) from the element at i: the first ancestor-or-self
      the prepared matcher accepts, or null. */
  function Closest(s: seq<Node>, i: nat, matches: nat -> bool): (r: Option<nat>)
    requires i < |s|
    ensures r.Some? ==> AncestorOrSelf(s, r.value, i) && matches(r.value)
    ensures r.Some? ==> forall a: nat :: r.value < a && AncestorOrSelf(s, a, i) ==> !matches(a)
    ensures r.None? ==> forall a: nat :: AncestorOrSelf(s, a, i) ==> !matches(a)
    decreases i
  {
    if matches(i) then
      AncestorBefore(s, i);
      Some(i)
    else
      match ParentOf(s, i)
      case None => None
      case Some(p) => Closest(s, p, matches)
  }

  /** What closest returns is an element that contains the one it was
      called on (possibly that element itself). */
  lemma {:induction false} ClosestEncloses(s: seq<Node>, e: nat, matches: nat -> bool)
    requires WellFormed(s) && IsElement(s, e) && Closest(s, e, matches).Some?
    ensures var c := Closest(s, e, matches).value;
      IsElement(s, c) && c <= e && EndOf(s, e) <= EndOf(s, c)
  {
    AncestorEncloses(s, Closest(s, e, matches).value, e);
  }

  // ---------------------------------------------------------------------
  // insertAdjacentElement

  /** A detached element: one Start, its attribute run and content, and its
      END as the last node, made of objects created in [n, n'), with no
      attribute name twice on one element. */
  ghost predicate DetachedElement(m: seq<Node>, n: nat, n': nat) {
    WellFormed(m) && IsElement(m, 0) && EndOf(m, 0) == |m| - 1 && UniqueKeys(m) && NamesApart(m) &&
    forall a {:trigger m[a].key} :: 0 <= a < |m| && Keyed(m[a]) ==> n <= m[a].key < n'
  }

  /** The chain after insertAdjacentElement and whether the element was
      returned (false: null was returned). */
  datatype Adjacent = Adjacent(chain: seq<Node>, returned: bool)

  /** Where insertAdjacentElement links the element at position, or None
      when it links it nowhere. */
  function AdjacentIndex(s: seq<Node>, e: nat, position: string): (j: Option<nat>)
    requires WellFormed(s) && IsElement(s, e)
    ensures j.Some? ==> j.value <= |s|
  {
    EndOfElement(s, e);
    var hasParent := ParentOf(s, e).Some?;
    if position == "beforebegin" then (if hasParent then Some(e) else None)
    else if position == "afterbegin" then Some(RunEnd(s, e + 1))
    else if position == "beforeend" then Some(EndOf(s, e))
    else if position == "afterend" then (if hasParent then Some(EndOf(s, e) + 1) else None)
    else None
  }

  /** insertAdjacentElement(position, m) on the element at e. */
  function InsertAdjacent(s: seq<Node>, e: nat, position: string, m: seq<Node>): (r: Adjacent)
    requires WellFormed(s) && IsElement(s, e)
    ensures !r.returned ==> r.chain == s
  {
    match AdjacentIndex(s, e, position)
    case Some(j) => Adjacent(Splice(s, j, j, m), true)
    case None =>
      Adjacent(s, !(position == "beforebegin" || position == "afterend"))
  }

  /** null comes back exactly for "beforebegin" and "afterend" on an element
      without a parent; an unknown position returns the element and links
      it nowhere. */
  lemma InsertAdjacentNull(s: seq<Node>, e: nat, position: string, m: seq<Node>)
    requires WellFormed(s) && IsElement(s, e)
    ensures var r := InsertAdjacent(s, e, position, m);
      (!r.returned <==> (position == "beforebegin" || position == "afterend") && ParentOf(s, e).None?) &&
      (position !in {"beforebegin", "afterbegin", "beforeend", "afterend"} ==> r.chain == s)
  {
  }

  /** A Start linked at j, after a prefix that is unchanged and balanced
      from f, just after the element f - 1, has that element as its
      parent. */
  lemma ParentAt(s: seq<Node>, r: seq<Node>, f: nat, j: nat)
    requires 0 < f <= j <= |s| && j < |r| && r[..j] == s[..j]
    requires IsElement(s, f - 1) && r[j].Start?
    requires Level(s, f, j) == 0 && forall k :: f <= k <= j ==> Level(s, f, k) >= 0
    ensures ParentOf(r, j) == Some(f - 1)
  {
    forall k | f <= k <= j ensures Level(r, f, k) == Level(s, f, k) {
      forall m | f <= m < k ensures Delta(r[m]) == Delta(s[m]) {
        assert r[m] == r[..j][m];
      }
      LevelShift(s, r, f, k, 0);
    }
    assert r[f - 1] == r[..j][f - 1];
    EnclosingBack(r, f, j);
  }

  /** "beforebegin": the element becomes the previous sibling, with the
      same parent, and the element it was called on follows it. */
  lemma InsertBeforeBegin(s: seq<Node>, e: nat, m: seq<Node>, n: nat, n': nat)
    requires WellFormed(s) && IsElement(s, e) && ParentOf(s, e).Some?
    requires DetachedElement(m, n, n')
    ensures var r := InsertAdjacent(s, e, "beforebegin", m).chain;
      r == Splice(s, e, e, m) && ParentOf(r, e) == ParentOf(s, e) && r[e + |m|] == s[e]
  {
    var r := Splice(s, e, e, m);
    ParentLevels(s, e);
    ParentAt(s, r, ParentOf(s, e).value + 1, e);
  }

  /** "afterbegin": the element becomes the first child, right after the
      attribute run. */
  lemma {:induction false} InsertAfterBegin(s: seq<Node>, e: nat, m: seq<Node>, n: nat, n': nat)
    requires WellFormed(s) && IsElement(s, e)
    requires DetachedElement(m, n, n')
    ensures var a := RunEnd(s, e + 1);
      var r := InsertAdjacent(s, e, "afterbegin", m).chain;
      r == Splice(s, a, a, m) && ParentOf(r, a) == Some(e) && RunEnd(r, e + 1) == a
  {
    var a := RunEnd(s, e + 1);
    var r := Splice(s, a, a, m);
    var first := e + 1;
    forall k | first <= k <= a ensures Level(s, first, k) >= 0 {
      LevelFlat(s, first, k);
    }
    LevelFlat(s, first, a);
    ParentAt(s, r, first, a);
    RunEndKept(s, r, first, a);
  }

  /** A run that stops at a in s stops at a in r when r agrees with s up to
      a and has no attribute at a. */
  lemma {:induction false} RunEndKept(s: seq<Node>, r: seq<Node>, i: nat, a: nat)
    requires i <= a < |r| && a <= |s| && r[..a] == s[..a] && !r[a].Attr?
    requires forall k :: i <= k < a ==> s[k].Attr?
    ensures RunEnd(r, i) == a
    decreases a - i
  {
    if i < a {
      assert r[i] == r[..a][i];
      RunEndKept(s, r, i + 1, a);
    }
  }

  /** "beforeend": the element becomes the last child, right before END. */
  lemma InsertBeforeEnd(s: seq<Node>, e: nat, m: seq<Node>, n: nat, n': nat)
    requires WellFormed(s) && IsElement(s, e)
    requires DetachedElement(m, n, n')
    ensures EndOf(s, e) < |s|
    ensures var c := EndOf(s, e);
      var r := InsertAdjacent(s, e, "beforeend", m).chain;
      r == Splice(s, c, c, m) && ParentOf(r, c) == Some(e) && r[c + |m|] == End
  {
    EndOfElement(s, e);
    var c := EndOf(s, e);
    var r := Splice(s, c, c, m);
    ParentAt(s, r, e + 1, c);
  }

  /** "afterend": the element becomes the next sibling, with the same
      parent. */
  lemma InsertAfterEnd(s: seq<Node>, e: nat, m: seq<Node>, n: nat, n': nat)
    requires WellFormed(s) && IsElement(s, e) && ParentOf(s, e).Some?
    requires DetachedElement(m, n, n')
    ensures EndOf(s, e) < |s|
    ensures var j := EndOf(s, e) + 1;
      var r := InsertAdjacent(s, e, "afterend", m).chain;
      r == Splice(s, j, j, m) && ParentOf(r, j) == ParentOf(s, e)
  {
    EndOfElement(s, e);
    var c := EndOf(s, e);
    var p := ParentOf(s, e).value;
    var r := Splice(s, c + 1, c + 1, m);
    ParentLevels(s, e);
    ElementLevels(s, e);
    var first := p + 1;
    forall k | first <= k <= c + 1 ensures Level(s, first, k) >= 0 {
      if k > e {
        LevelSplit(s, first, e, k);
      }
    }
    LevelSplit(s, first, e, c + 1);
    ParentAt(s, r, first, c + 1);
  }

  /** Inside an element everything it opened is still open; after its END
      the stretch from its Start is balanced. */
  lemma {:induction false} ElementLevels(s: seq<Node>, e: nat)
    requires WellFormed(s) && IsElement(s, e)
    ensures EndOf(s, e) < |s|
    ensures forall k :: e < k <= EndOf(s, e) ==> Level(s, e, k) >= 1
    ensures Level(s, e, EndOf(s, e) + 1) == 0
  {
    EndOfElement(s, e);
    var c := EndOf(s, e);
    forall k | e < k <= c ensures Level(s, e, k) >= 1 {
      LevelSplit(s, e, e + 1, k);
    }
    LevelSplit(s, e, e + 1, c + 1);
  }

  /** Linking a detached element before a node that is not an attribute
      keeps the chain sound, identities now handed out up to n'. */
  lemma InsertElementSound(s: seq<Node>, j: nat, m: seq<Node>, n: nat, n': nat)
    requires Sound(s, n) && j <= |s| && (j < |s| ==> !s[j].Attr?)
    requires DetachedElement(m, n, n')
    ensures Sound(Splice(s, j, j, m), n')
  {
    assert Level(s, j, j) == 0;
    SpliceWellFormed(s, j, j, m);
    assert KeysBelow(s, n');
    assert KeysBelow(m, n');
    SpliceKeys(s, j, j, m, n');
    SpliceNamesApart(s, j, j, m);
  }

  /** insertAdjacentElement keeps the document sound. */
  lemma InsertAdjacentSound(s: seq<Node>, e: nat, position: string, m: seq<Node>, n: nat, n': nat)
    requires Sound(s, n) && IsElement(s, e) && DetachedElement(m, n, n')
    ensures Sound(InsertAdjacent(s, e, position, m).chain, n')
  {
    EndOfElement(s, e);
    var c := EndOf(s, e);
    match AdjacentIndex(s, e, position)
    case Some(j) =>
      InsertElementSound(s, j, m, n, n');
    case None =>
      assert KeysBelow(s, n');
  }
}
