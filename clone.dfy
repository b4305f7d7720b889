/**
  cloneNode: a forward walk that copies the element, its attribute run and
  (when deep) its content into a fresh chain closed by the clone's own END.
 */
module Clones {
  import opened Chain
  import opened Attributes
  import opened Texts
  import opened Tree

  /** The node with a new identity (nodes without one are shared values). */
  function Rekey(x: Node, key: nat): (r: Node)
    ensures Shape(r) == Shape(x) && (Keyed(x) ==> r.key == key)
  {
    match x
    case Start(_, name, svg) => Start(key, name, svg)
    case Attr(_, name, value) => Attr(key, name, value)
    case _ => x
  }

  /** How many nodes of s[i..j] have an identity. */
  function KeyCount(s: seq<Node>, i: nat, j: nat): (c: nat)
    requires i <= j <= |s|
    ensures c <= j - i
    decreases j - i
  {
    if j == i then 0 else KeyCount(s, i, j - 1) + (if Keyed(s[j - 1]) then 1 else 0)
  }

  /** Copies of s[i..j] in order, the keyed ones created with the
      identities n, n + 1, ... */
  function Renumber(s: seq<Node>, i: nat, j: nat, n: nat): (r: seq<Node>)
    requires i <= j <= |s|
    ensures |r| == j - i
    decreases j - i
  {
    if j == i then [] else Renumber(s, i, j - 1, n) + [Rekey(s[j - 1], n + KeyCount(s, i, j - 1))]
  }

  /** The copies have the shapes of the originals, and their identities are
      the KeyCount(s, i, j) ones from n on. */
  lemma {:induction false} RenumberShape(s: seq<Node>, i: nat, j: nat, n: nat)
    requires i <= j <= |s|
    ensures SameShape(Renumber(s, i, j, n), s[i..j])
    ensures forall k :: 0 <= k < j - i && Keyed(Renumber(s, i, j, n)[k]) ==>
      n <= Renumber(s, i, j, n)[k].key < n + KeyCount(s, i, j)
    decreases j - i
  {
    if j != i {
      var r := Renumber(s, i, j, n);
      var p := Renumber(s, i, j - 1, n);
      RenumberShape(s, i, j - 1, n);
      forall k | 0 <= k < j - 1 - i ensures r[k] == p[k] && s[i..j][k] == s[i..j - 1][k] {
      }
    }
  }

  /** The copies are distinct objects. */
  lemma {:induction false} RenumberUnique(s: seq<Node>, i: nat, j: nat, n: nat)
    requires i <= j <= |s|
    ensures UniqueKeys(Renumber(s, i, j, n))
    decreases j - i
  {
    if j != i {
      var r := Renumber(s, i, j, n);
      var p := Renumber(s, i, j - 1, n);
      RenumberUnique(s, i, j - 1, n);
      RenumberShape(s, i, j - 1, n);
      forall a | 0 <= a < |p| ensures r[a] == p[a] {
      }
    }
  }

  /** Where the walk stops: END for a deep clone, the end of the attribute
      run for a shallow one. */
  function CloneStop(s: seq<Node>, e: nat, deep: bool): (stop: nat)
    requires e < |s|
    ensures e < stop <= |s| && RunEnd(s, e + 1) <= stop
  {
    RunBeforeClose(s, e + 1, 1);
    if deep then EndOf(s, e) else RunEnd(s, e + 1)
  }

  /** cloneNode(deep) of the element at e, with identities handed out from
      n: the copied nodes followed by the clone's END. */
  function Clone(s: seq<Node>, e: nat, deep: bool, n: nat): (c: seq<Node>)
    requires e < |s|
    ensures |c| == CloneStop(s, e, deep) - e + 1 && c[|c| - 1] == End
  {
    Renumber(s, e, CloneStop(s, e, deep), n) + [End]
  }

  /** The walk itself: copy the element, then, while the cursor has not
      reached END and the clone is deep or the node is an attribute, each
      node with the next identity; the result is the clone and the next
      identity not handed out. */
  method CloneWalk(s: seq<Node>, e: nat, deep: bool, n: nat) returns (c: seq<Node>, key: nat)
    requires IsElement(s, e)
    ensures c == Clone(s, e, deep, n)
    ensures key == n + KeyCount(s, e, CloneStop(s, e, deep))
  {
    RunBeforeClose(s, e + 1, 1);
    var end := EndOf(s, e);
    var stop := CloneStop(s, e, deep);
    var out := [Rekey(s[e], n)];
    key := n + 1;
    var next := e + 1;
    while next != end && (deep || s[next].Attr?)
      invariant e + 1 <= next <= stop
      invariant out == Renumber(s, e, next, n)
      invariant key == n + KeyCount(s, e, next)
      decreases end - next
    {
      out := out + [Rekey(s[next], key)];
      if Keyed(s[next]) {
        key := key + 1;
      }
      next := next + 1;
    }
    c := out + [End];
  }

  /** The clone has the shape of the copied stretch closed by END: for a
      deep clone that is the element up to and including its own END. */
  lemma CloneShape(s: seq<Node>, e: nat, deep: bool, n: nat)
    requires WellFormed(s) && IsElement(s, e)
    ensures var c := Clone(s, e, deep, n);
      SameShape(c, s[e..CloneStop(s, e, deep)] + [End]) &&
      (deep ==> EndOf(s, e) < |s| && SameShape(c, s[e..EndOf(s, e) + 1]))
  {
    var c := Clone(s, e, deep, n);
    var stop := CloneStop(s, e, deep);
    var src := s[e..stop];
    RenumberShape(s, e, stop, n);
    forall k | 0 <= k < |c| ensures Shape(c[k]) == Shape((src + [End])[k]) {
      if k < |src| {
        assert c[k] == Renumber(s, e, stop, n)[k];
      }
    }
    if deep {
      EndOfElement(s, e);
      assert s[e..EndOf(s, e) + 1] == src + [End];
    }
  }

  /** A shallow clone copies exactly the attribute run, names and values in
      order, and nothing of the content. */
  lemma CloneShallow(s: seq<Node>, e: nat, n: nat)
    requires WellFormed(s) && IsElement(s, e)
    ensures var c := Clone(s, e, false, n);
      var a := RunEnd(s, e + 1);
      |c| == a - e + 1 && c[0].Start? && c[0].name == s[e].name && c[0].svg == s[e].svg &&
      (forall k :: 0 < k < |c| - 1 ==> c[k].Attr? && c[k] == Attr(c[k].key, s[e + k].name, s[e + k].value)) &&
      RunNames(c, 1) == RunNames(s, e + 1) && RunEnd(c, 1) == |c| - 1
  {
    var c := Clone(s, e, false, n);
    var a := RunEnd(s, e + 1);
    CloneShape(s, e, false, n);
    var src := s[e..a];
    forall k | 0 < k < |c| - 1 ensures c[k].Attr? && c[k] == Attr(c[k].key, s[e + k].name, s[e + k].value) {
      assert Shape(c[k]) == Shape(src[k]) && src[k] == s[e + k];
    }
    assert Shape(c[0]) == Shape(s[e]);
    RunEndAfter(c, 1, |c| - 1);
    var ns := RunNames(c, 1);
    var ms := RunNames(s, e + 1);
    assert |ns| == |ms|;
    forall k | 0 <= k < |ns| ensures ns[k] == ms[k] {
      assert ns[k] == c[1 + k].name;
    }
  }

  /** The clone is a well-formed chain of distinct objects, all created
      from n on, so none of them is a node of the original document. */
  lemma CloneSound(s: seq<Node>, e: nat, deep: bool, n: nat)
    requires WellFormed(s) && NamesApart(s) && IsElement(s, e)
    ensures var c := Clone(s, e, deep, n);
      var m := n + KeyCount(s, e, CloneStop(s, e, deep));
      Sound(c, m) && forall k {:trigger c[k].key} :: 0 <= k < |c| && Keyed(c[k]) ==> n <= c[k].key
  {
    var c := Clone(s, e, deep, n);
    var stop := CloneStop(s, e, deep);
    var m := n + KeyCount(s, e, stop);
    var r := Renumber(s, e, stop, n);
    RenumberShape(s, e, stop, n);
    CloneShape(s, e, deep, n);
    EndOfElement(s, e);
    RenumberUnique(s, e, stop, n);
    forall k | 0 <= k < |c| ensures k < |r| ==> c[k] == r[k] {
    }
    CloneLevels(s, e, deep, n);
    CloneAttrs(s, e, deep, n);
    SliceNamesApart(s, e, stop);
    ShapeNamesApart(c, s[e..stop] + [End]);
  }

  /** Nesting inside the clone is nesting inside the original, one level
      below the element. */
  lemma CloneLevel(s: seq<Node>, e: nat, deep: bool, n: nat, k: nat)
    requires WellFormed(s) && IsElement(s, e)
    requires 1 <= k < |Clone(s, e, deep, n)|
    ensures Level(Clone(s, e, deep, n), 0, k) == 1 + Level(s, e + 1, e + k)
  {
    var c := Clone(s, e, deep, n);
    var src := s[e..CloneStop(s, e, deep)] + [End];
    CloneShape(s, e, deep, n);
    forall m | e <= m < e + k ensures Delta(c[m - e]) == Delta(s[m]) {
      assert Shape(c[m - e]) == Shape(src[m - e]) && src[m - e] == s[m];
      ShapeDelta(c[m - e], s[m]);
    }
    LevelShift(s, c, e, e + k, -(e as int));
    LevelSplit(s, e, e + 1, e + k);
  }

  /** The clone opens with its Start, stays inside it until the final END,
      and closes it there. */
  lemma CloneLevels(s: seq<Node>, e: nat, deep: bool, n: nat)
    requires WellFormed(s) && IsElement(s, e)
    ensures var c := Clone(s, e, deep, n);
      Balanced(c) && forall k :: 1 <= k < |c| ==> Level(c, 0, k) >= 1
  {
    var c := Clone(s, e, deep, n);
    var stop := CloneStop(s, e, deep);
    EndOfElement(s, e);
    var first := e + 1;
    forall k | 1 <= k < |c| ensures Level(c, 0, k) >= 1 {
      CloneLevel(s, e, deep, n, k);
      if !deep {
        LevelFlat(s, first, e + k);
      }
    }
    CloneLevel(s, e, deep, n, |c| - 1);
    LevelSplit(c, 0, |c| - 1, |c|);
    if !deep {
      LevelFlat(s, first, stop);
    }
    assert Level(c, 0, |c|) == 0;
    assert Level(c, 0, 0) == 0;
  }

  /** Attributes of the clone follow their clone-side element. */
  lemma CloneAttrs(s: seq<Node>, e: nat, deep: bool, n: nat)
    requires WellFormed(s) && IsElement(s, e)
    ensures AttrsPlaced(Clone(s, e, deep, n))
  {
    var c := Clone(s, e, deep, n);
    CloneShape(s, e, deep, n);
    assert Shape(c[0]) == Shape(s[e]);
    forall k | 0 < k < |c| && c[k].Attr? ensures c[k - 1].Start? || c[k - 1].Attr? {
      assert Shape(c[k]) == Shape(s[e + k]);
      assert Shape(c[k - 1]) == Shape(s[e + k - 1]);
    }
  }

  // ---------------------------------------------------------------------
  // parentNode / ownerElement of the copies

  /** Walking back from i, an enclosing Start is found whenever more
      elements are open at i than the u Ends already passed. */
  lemma {:induction false} EnclosingFound(s: seq<Node>, i: nat, u: nat)
    requires i <= |s|
    requires forall m :: 0 <= m <= i ==> Level(s, 0, m) >= 0
    requires Level(s, 0, i) > u
    ensures Enclosing(s, i, u).Some?
    decreases i
  {
    assert i > 0 by { assert Level(s, 0, 0) == 0; }
    if s[i - 1].End? {
      EnclosingFound(s, i - 1, u + 1);
    } else if s[i - 1].Start? {
      if u > 0 {
        EnclosingFound(s, i - 1, u - 1);
      }
    } else {
      EnclosingFound(s, i - 1, u);
    }
  }

  /** Enclosing only looks at the shapes of the nodes before i: a copy
      placed at offset off finds the corresponding Start. */
  lemma {:induction false} EnclosingShift(c: seq<Node>, s: seq<Node>, k: nat, u: nat, off: nat)
    requires k <= |c| && k + off <= |s|
    requires forall m :: 0 <= m < k ==> Shape(c[m]) == Shape(s[m + off])
    requires Enclosing(c, k, u).Some?
    ensures Enclosing(s, k + off, u) == Some(Enclosing(c, k, u).value + off)
    decreases k
  {
    ShapeDelta(c[k - 1], s[k - 1 + off]);
    if c[k - 1].End? {
      EnclosingShift(c, s, k - 1, u + 1, off);
    } else if c[k - 1].Start? {
      if u > 0 {
        EnclosingShift(c, s, k - 1, u - 1, off);
      }
    } else {
      EnclosingShift(c, s, k - 1, u, off);
    }
  }

  /** Every copied node has a parent in the clone, and it is the copy of
      the original node's parent: parentNode and ownerElement point at the
      corresponding clone-side element. */
  lemma CloneParents(s: seq<Node>, e: nat, deep: bool, n: nat, k: nat)
    requires WellFormed(s) && IsElement(s, e)
    requires 0 < k < |Clone(s, e, deep, n)| - 1
    ensures var c := Clone(s, e, deep, n);
      ParentOf(c, k).Some? && ParentOf(s, e + k) == Some(ParentOf(c, k).value + e)
  {
    var c := Clone(s, e, deep, n);
    var src := s[e..CloneStop(s, e, deep)] + [End];
    CloneLevels(s, e, deep, n);
    forall m | 0 <= m <= k ensures Level(c, 0, m) >= 0 {
      if m == 0 { assert Level(c, 0, 0) == 0; }
    }
    EnclosingFound(c, k, 0);
    CloneShape(s, e, deep, n);
    forall m | 0 <= m < k ensures Shape(c[m]) == Shape(s[m + e]) {
      assert src[m] == s[m + e];
    }
    EnclosingShift(c, s, k, 0, e);
  }

  /** The clone is a detached element made of the identities it was handed:
      its own END is its last node, so it can be inserted anywhere. */
  lemma {:induction false} CloneDetached(s: seq<Node>, e: nat, deep: bool, n: nat)
    requires WellFormed(s) && NamesApart(s) && IsElement(s, e)
    ensures DetachedElement(Clone(s, e, deep, n), n, n + KeyCount(s, e, CloneStop(s, e, deep)))
  {
    var c := Clone(s, e, deep, n);
    CloneSound(s, e, deep, n);
    CloneShape(s, e, deep, n);
    CloneLevels(s, e, deep, n);
    assert Shape(c[0]) == Shape(s[e]);
    LevelSplit(c, 0, 1, |c|);
    assert Level(c, 0, 1) == 1;
    CloseFound(c, 1, 1, |c|);
    var cl := Close(c, 1, 1);
    LevelSplit(c, 0, 1, cl + 1);
  }
}
