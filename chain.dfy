/**
  The node record layer: an element is not a node holding a child array but a
  Start token in a flat chain, followed by its attribute run, its child
  content and its paired End token.  The chain is a sequence; the NEXT link of
  the node at index i is the node at index i + 1.
 */
module Chain {

  /** One node of the chain.  `key` is the object identity of the nodes whose
      identity the element code compares (elements and attributes). */
  datatype Node =
    | Start(key: nat, name: string, svg: bool)
    | Attr(key: nat, name: string, value: string)
    | Text(data: string)
    | Comment(data: string)
    | CData(data: string)
    | End

  /** How a node changes the nesting depth. */
  function Delta(n: Node): int {
    if n.Start? then 1 else if n.End? then -1 else 0
  }

  /** Number of Start tokens minus number of End tokens in s[i..k]. */
  function Level(s: seq<Node>, i: nat, k: nat): int
    requires i <= k <= |s|
    decreases k - i
  {
    if k == i then 0 else Level(s, i, k - 1) + Delta(s[k - 1])
  }

  /** Every prefix of s[i..j] opens at least as much as it closes, and the
      whole closes everything it opens. */
  ghost predicate BalancedIn(s: seq<Node>, i: nat, j: nat)
    requires i <= j <= |s|
  {
    Level(s, i, j) == 0 && forall k :: i <= k <= j ==> Level(s, i, k) >= 0
  }

  ghost predicate Balanced(s: seq<Node>) {
    BalancedIn(s, 0, |s|)
  }

  /** Attribute nodes only appear in a run directly after their element. */
  ghost predicate AttrsPlaced(s: seq<Node>) {
    (|s| > 0 ==> !s[0].Attr?) && AttrsFollow(s)
  }

  /** Every attribute after the first node follows a Start or an attribute. */
  ghost predicate AttrsFollow(s: seq<Node>) {
    forall i :: 0 < i < |s| && s[i].Attr? ==> s[i - 1].Start? || s[i - 1].Attr?
  }

  ghost predicate WellFormed(s: seq<Node>) {
    Balanced(s) && AttrsPlaced(s)
  }

  predicate IsElement(s: seq<Node>, e: int) {
    0 <= e < |s| && s[e].Start?
  }

  /** First index at or after i that is not an attribute (the end of a run). */
  function RunEnd(s: seq<Node>, i: nat): (r: nat)
    requires i <= |s|
    ensures i <= r <= |s|
    ensures forall k :: i <= k < r ==> s[k].Attr?
    ensures r < |s| ==> !s[r].Attr?
    decreases |s| - i
  {
    if i < |s| && s[i].Attr? then RunEnd(s, i + 1) else i
  }

  /** Scan forward from i with d unclosed Start tokens; the index of the End
      that closes the last of them, or |s| when there is none. */
  function Close(s: seq<Node>, i: nat, d: nat): (c: nat)
    requires i <= |s| && d > 0
    ensures i <= c <= |s|
    decreases |s| - i
  {
    if i == |s| then |s|
    else if s[i].End? then (if d == 1 then i else Close(s, i + 1, d - 1))
    else if s[i].Start? then Close(s, i + 1, d + 1)
    else Close(s, i + 1, d)
  }

  /** The END link of the element at e: its paired end marker. */
  function EndOf(s: seq<Node>, e: nat): (c: nat)
    requires e < |s|
    ensures e < c <= |s|
  {
    Close(s, e + 1, 1)
  }

  /** Walk backwards from i - 1 with u unmatched End tokens seen; the nearest
      Start whose End lies after the starting point. */
  function Enclosing(s: seq<Node>, i: nat, u: nat): (p: Option<nat>)
    requires i <= |s|
    ensures p.Some? ==> p.value < i && s[p.value].Start?
  {
    if i == 0 then None
    else if s[i - 1].End? then Enclosing(s, i - 1, u + 1)
    else if s[i - 1].Start? then (if u == 0 then Some(i - 1) else Enclosing(s, i - 1, u - 1))
    else Enclosing(s, i - 1, u)
  }

  /** The parentElement of the node at i (None at the top of the chain). */
  function ParentOf(s: seq<Node>, i: nat): (p: Option<nat>)
    requires i < |s|
    ensures p.Some? ==> p.value < i && IsElement(s, p.value)
  {
    Enclosing(s, i, 0)
  }

  /** A nullable reference. */
  datatype Option<T> = None | Some(value: T)

  /** The chain with s[i..j] replaced by m: the relinking that every mutation
      of the chain performs. */
  function Splice(s: seq<Node>, i: nat, j: nat, m: seq<Node>): (r: seq<Node>)
    requires i <= j <= |s|
    ensures |r| == |s| - (j - i) + |m|
  {
    s[..i] + m + s[j..]
  }

  /** The node with its identity forgotten: what a copy has in common with
      its original. */
  function Shape(n: Node): Node {
    match n
    case Start(_, name, svg) => Start(0, name, svg)
    case Attr(_, name, value) => Attr(0, name, value)
    case _ => n
  }

  /** Nodes that carry no nesting contribute nothing to Level. */
  lemma {:induction false} LevelFlat(s: seq<Node>, i: nat, k: nat)
    requires i <= k <= |s|
    requires forall m :: i <= m < k ==> Delta(s[m]) == 0
    ensures Level(s, i, k) == 0
    decreases k - i
  {
    if k > i {
      LevelFlat(s, i, k - 1);
    }
  }

  lemma ShapeDelta(a: Node, b: Node)
    requires Shape(a) == Shape(b)
    ensures Delta(a) == Delta(b) && a.Start? == b.Start? && a.Attr? == b.Attr? && a.End? == b.End?
  {
  }

  predicate SameShape(a: seq<Node>, b: seq<Node>) {
    |a| == |b| && forall k :: 0 <= k < |a| ==> Shape(a[k]) == Shape(b[k])
  }

  // ---------------------------------------------------------------------
  // Nesting lemmas

  lemma {:induction false} LevelSplit(s: seq<Node>, i: nat, j: nat, k: nat)
    requires i <= j <= k <= |s|
    ensures Level(s, i, k) == Level(s, i, j) + Level(s, j, k)
    decreases k - j
  {
    if k > j {
      LevelSplit(s, i, j, k - 1);
    }
  }

  /** When the d open Start tokens must all be closed before h, Close finds
      the first index at which they are. */
  lemma {:induction false} CloseFound(s: seq<Node>, i: nat, d: nat, h: nat)
    requires i <= h <= |s| && d > 0
    requires d + Level(s, i, h) <= 0
    ensures var c := Close(s, i, d);
      i <= c < h && s[c].End? && d + Level(s, i, c + 1) == 0 &&
      forall k :: i < k <= c ==> d + Level(s, i, k) > 0
    decreases |s| - i
  {
    if i == h {
    } else {
      LevelSplit(s, i, i + 1, h);
      if !(s[i].End? && d == 1) {
        var d' := d + Delta(s[i]);
        CloseFound(s, i + 1, d', h);
        var c := Close(s, i + 1, d');
        forall k | i < k <= c ensures d + Level(s, i, k) > 0 {
          LevelSplit(s, i, i + 1, k);
        }
        LevelSplit(s, i, i + 1, c + 1);
      }
    }
  }

  /** In a well-formed chain every element has its END inside the chain, the
      content strictly between them is balanced, and its attribute run stops
      no later than its END. */
  lemma {:induction false} EndOfElement(s: seq<Node>, e: nat)
    requires WellFormed(s) && IsElement(s, e)
    ensures var end := EndOf(s, e);
      e < end < |s| && s[end].End? && BalancedIn(s, e + 1, end) &&
      RunEnd(s, e + 1) <= end
  {
    LevelSplit(s, 0, e, |s|);
    LevelSplit(s, e, e + 1, |s|);
    CloseFound(s, e + 1, 1, |s|);
    var end := EndOf(s, e);
    var first := e + 1;
    forall k | first <= k <= end ensures Level(s, first, k) >= 0 {
    }
  }

  /** The END of an element lies in the chain, after its attribute run. */
  lemma {:induction false} RunInside(s: seq<Node>, e: nat)
    requires WellFormed(s) && IsElement(s, e)
    ensures EndOf(s, e) < |s| && RunEnd(s, e + 1) <= EndOf(s, e)
  {
    EndOfElement(s, e);
  }

  /** An element nested inside the content of e closes before e does. */
  lemma NestedEnd(s: seq<Node>, e: nat, i: nat)
    requires WellFormed(s) && IsElement(s, e)
    requires e < i < EndOf(s, e) && s[i].Start?
    ensures EndOf(s, i) < EndOf(s, e)
  {
    EndOfElement(s, e);
    var end := EndOf(s, e);
    LevelSplit(s, e + 1, i, end);
    LevelSplit(s, i, i + 1, end);
    CloseFound(s, i + 1, 1, end);
  }

  /** Walking back from inside the content that starts at f (just after
      its element), with as many unmatched Ends seen as the content before i
      leaves open, arrives at the element. */
  lemma {:induction false} EnclosingBack(s: seq<Node>, f: nat, i: nat)
    requires 0 < f <= i <= |s| && IsElement(s, f - 1)
    requires forall k :: f <= k <= i ==> Level(s, f, k) >= 0
    ensures Enclosing(s, i, Level(s, f, i) as nat) == Some(f - 1)
    decreases i
  {
    if i > f {
      assert Level(s, f, i) == Level(s, f, i - 1) + Delta(s[i - 1]);
      EnclosingBack(s, f, i - 1);
    } else {
      assert Level(s, f, i) == 0;
    }
  }

  /** The START link of an element's END is the element. */
  lemma EndStart(s: seq<Node>, e: nat)
    requires WellFormed(s) && IsElement(s, e)
    ensures EndOf(s, e) < |s| && ParentOf(s, EndOf(s, e)) == Some(e)
  {
    EndOfElement(s, e);
    EnclosingBack(s, e + 1, EndOf(s, e));
  }

  lemma {:induction false} LevelShift(s: seq<Node>, t: seq<Node>, i: nat, k: nat, off: int)
    requires i <= k <= |s| && 0 <= i + off && k + off <= |t|
    requires forall m :: i <= m < k ==> Delta(t[m + off]) == Delta(s[m])
    ensures Level(t, i + off, k + off) == Level(s, i, k)
    decreases k - i
  {
    if k > i {
      LevelShift(s, t, i, k - 1, off);
    }
  }

  /** The spliced chain agrees with s before i, with m from i on, and
      with s from j on after m. */
  lemma SpliceAt(s: seq<Node>, i: nat, j: nat, m: seq<Node>)
    requires i <= j <= |s|
    ensures var r := Splice(s, i, j, m);
      (forall q :: 0 <= q < i ==> r[q] == s[q]) &&
      (forall q :: 0 <= q < |m| ==> r[i + q] == m[q]) &&
      (forall q :: j <= q < |s| ==> r[q + (i + |m| - j)] == s[q])
  {
    var r := Splice(s, i, j, m);
    forall q | 0 <= q < i ensures r[q] == s[q] {
      assert r[q] == r[..i][q];
    }
    forall q | 0 <= q < |m| ensures r[i + q] == m[q] {
      assert r[i + q] == r[i..i + |m|][q];
    }
    SpliceTailAt(s, i, j, m);
  }

  /** The spliced chain agrees with s from j on, shifted past m. */
  lemma SpliceTailAt(s: seq<Node>, i: nat, j: nat, m: seq<Node>)
    requires i <= j <= |s|
    ensures var r := Splice(s, i, j, m);
      forall q :: j <= q < |s| ==> r[q + (i + |m| - j)] == s[q]
  {
    var r := Splice(s, i, j, m);
    forall q | j <= q < |s| ensures r[q + (i + |m| - j)] == s[q] {
      assert r[q + (i + |m| - j)] == r[i + |m|..][q - j];
    }
  }

  lemma SpliceLevelBefore(s: seq<Node>, i: nat, j: nat, m: seq<Node>, k: nat)
    requires i <= j <= |s| && k <= i
    ensures Level(Splice(s, i, j, m), 0, k) == Level(s, 0, k)
  {
    SpliceAt(s, i, j, m);
    LevelShift(s, Splice(s, i, j, m), 0, k, 0);
  }

  lemma SpliceLevelInside(s: seq<Node>, i: nat, j: nat, m: seq<Node>, k: nat)
    requires i <= j <= |s| && i <= k <= i + |m|
    ensures Level(Splice(s, i, j, m), 0, k) == Level(s, 0, i) + Level(m, 0, k - i)
  {
    var r := Splice(s, i, j, m);
    SpliceLevelBefore(s, i, j, m, i);
    LevelSplit(r, 0, i, k);
    SpliceAt(s, i, j, m);
    LevelShift(m, r, 0, k - i, i);
  }

  /** After m, the spliced chain climbs and falls as s does after j. */
  lemma SpliceTailLevel(s: seq<Node>, i: nat, j: nat, m: seq<Node>, k': nat)
    requires i <= j <= k' <= |s|
    ensures Level(Splice(s, i, j, m), i + |m|, k' + (i + |m| - j)) == Level(s, j, k')
  {
    SpliceTailAt(s, i, j, m);
    LevelShift(s, Splice(s, i, j, m), j, k', i + |m| - j);
  }

  lemma SpliceLevelAfter(s: seq<Node>, i: nat, j: nat, m: seq<Node>, k': nat)
    requires i <= j <= k' <= |s|
    ensures Level(Splice(s, i, j, m), 0, k' + i + |m| - j) == Level(s, 0, i) + Level(m, 0, |m|) + Level(s, j, k')
  {
    var r := Splice(s, i, j, m);
    var f := i + |m|;
    SpliceLevelInside(s, i, j, m, f);
    LevelSplit(r, 0, f, k' + (f - j));
    SpliceTailLevel(s, i, j, m, k');
  }

  /** Levels of a spliced chain, region by region. */
  lemma {:induction false} SpliceLevel(s: seq<Node>, i: nat, j: nat, m: seq<Node>, k: nat)
    requires i <= j <= |s| && k <= |Splice(s, i, j, m)|
    ensures var r := Splice(s, i, j, m);
      if k <= i then Level(r, 0, k) == Level(s, 0, k)
      else if k <= i + |m| then Level(r, 0, k) == Level(s, 0, i) + Level(m, 0, k - i)
      else Level(r, 0, k) == Level(s, 0, i) + Level(m, 0, |m|) + Level(s, j, k - i - |m| + j)
  {
    if k <= i {
      SpliceLevelBefore(s, i, j, m, k);
    } else if k <= i + |m| {
      SpliceLevelInside(s, i, j, m, k);
    } else {
      SpliceLevelAfter(s, i, j, m, k - i - |m| + j);
    }
  }

  lemma {:induction false} SplicePrefix(s: seq<Node>, i: nat, j: nat, m: seq<Node>, k: nat)
    requires i <= j <= |s| && k <= |Splice(s, i, j, m)|
    requires Balanced(s) && Level(s, i, j) == 0 && Balanced(m)
    ensures Level(Splice(s, i, j, m), 0, k) >= 0
  {
    SpliceLevel(s, i, j, m, k);
    if i + |m| < k {
      var k' := k - i - |m| + j;
      LevelSplit(s, 0, i, j);
      LevelSplit(s, 0, j, k');
      assert Level(s, 0, k') >= 0;
    } else if i < k {
      assert Level(m, 0, k - i) >= 0;
    }
  }

  /** Replacing a balanced stretch of a balanced chain by a balanced sequence
      keeps it balanced. */
  lemma {:induction false} SpliceBalanced(s: seq<Node>, i: nat, j: nat, m: seq<Node>)
    requires i <= j <= |s|
    requires Balanced(s) && Level(s, i, j) == 0 && Balanced(m)
    ensures Balanced(Splice(s, i, j, m))
  {
    var r := Splice(s, i, j, m);
    forall k | 0 <= k <= |r| ensures Level(r, 0, k) >= 0 {
      SplicePrefix(s, i, j, m, k);
    }
    SpliceTotal(s, i, j, m);
  }

  lemma {:induction false} SpliceTotal(s: seq<Node>, i: nat, j: nat, m: seq<Node>)
    requires i <= j <= |s|
    ensures Level(Splice(s, i, j, m), 0, |Splice(s, i, j, m)|)
      == Level(s, 0, |s|) - Level(s, i, j) + Level(m, 0, |m|)
  {
    var r := Splice(s, i, j, m);
    SpliceLevel(s, i, j, m, |r|);
    LevelSplit(s, 0, i, j);
    LevelSplit(s, 0, j, |s|);
    if j == |s| {
      assert Level(s, j, |s|) == 0;
    }
  }

  /** Attribute placement after a splice: the inserted nodes place their own
      attributes, a leading attribute follows a Start or an attribute, and an
      attribute right after the splice still has a Start or an attribute
      before it. */
  lemma SpliceAttrsPlaced(s: seq<Node>, i: nat, j: nat, m: seq<Node>)
    requires i <= j <= |s|
    requires AttrsPlaced(s) && AttrsFollow(m)
    requires |m| > 0 && m[0].Attr? ==> 0 < i && (s[i - 1].Start? || s[i - 1].Attr?)
    requires j < |s| && s[j].Attr? ==>
      if |m| > 0 then m[|m| - 1].Start? || m[|m| - 1].Attr?
      else 0 < i && (s[i - 1].Start? || s[i - 1].Attr?)
    ensures AttrsPlaced(Splice(s, i, j, m))
  {
    var r := Splice(s, i, j, m);
    if |r| > 0 {
      if i > 0 { assert r[0] == s[0]; }
      else if |m| > 0 { assert r[0] == m[0]; }
      else { assert r[0] == s[j]; }
    }
    forall x | 0 < x < |r| && r[x].Attr?
      ensures r[x - 1].Start? || r[x - 1].Attr?
    {
      if x < i {
        assert r[x] == s[x] && r[x - 1] == s[x - 1];
      } else if x < i + |m| {
        assert r[x] == m[x - i];
        if x > i { assert r[x - 1] == m[x - 1 - i]; }
        else { assert r[x - 1] == s[i - 1]; }
      } else {
        var y := x - i - |m| + j;
        assert r[x] == s[y];
        if x > i + |m| { assert r[x - 1] == s[y - 1]; }
        else if |m| > 0 { assert r[x - 1] == m[|m| - 1]; }
        else { assert r[x - 1] == s[i - 1]; }
      }
    }
  }

  lemma {:induction false} SpliceWellFormed(s: seq<Node>, i: nat, j: nat, m: seq<Node>)
    requires i <= j <= |s|
    requires WellFormed(s) && Level(s, i, j) == 0 && Balanced(m) && AttrsFollow(m)
    requires |m| > 0 && m[0].Attr? ==> 0 < i && (s[i - 1].Start? || s[i - 1].Attr?)
    requires j < |s| && s[j].Attr? ==>
      if |m| > 0 then m[|m| - 1].Start? || m[|m| - 1].Attr?
      else 0 < i && (s[i - 1].Start? || s[i - 1].Attr?)
    ensures WellFormed(Splice(s, i, j, m))
  {
    SpliceBalanced(s, i, j, m);
    SpliceAttrsPlaced(s, i, j, m);
  }

  // ---------------------------------------------------------------------
  // Object identity

  /** Nodes whose identity the element code compares. */
  predicate Keyed(n: Node) {
    n.Start? || n.Attr?
  }

  /** No two nodes of the chain are the same object. */
  ghost predicate UniqueKeys(s: seq<Node>) {
    forall a, b {:trigger s[a].key, s[b].key} :: 0 <= a < b < |s| && Keyed(s[a]) && Keyed(s[b]) ==> s[a].key != s[b].key
  }

  /** Every identity in the chain was handed out before n. */
  ghost predicate KeysBelow(s: seq<Node>, n: nat) {
    forall a {:trigger s[a].key} :: 0 <= a < |s| && Keyed(s[a]) ==> s[a].key < n
  }

  /** m is disjoint in identity from what the splice keeps of s. */
  ghost predicate KeysApart(s: seq<Node>, i: nat, j: nat, m: seq<Node>) {
    forall a, b :: 0 <= a < |m| && 0 <= b < |s| && (b < i || j <= b) && Keyed(m[a]) && Keyed(s[b]) ==>
      m[a].key != s[b].key
  }

  lemma SpliceKeys(s: seq<Node>, i: nat, j: nat, m: seq<Node>, n: nat)
    requires i <= j <= |s|
    requires UniqueKeys(s) && UniqueKeys(m) && KeysApart(s, i, j, m)
    requires KeysBelow(s, n) && KeysBelow(m, n)
    ensures UniqueKeys(Splice(s, i, j, m)) && KeysBelow(Splice(s, i, j, m), n)
  {
    var r := Splice(s, i, j, m);
    var n := |m|;
    forall a | 0 <= a < |r| ensures r[a] == if a < i then s[a] else if a < i + n then m[a - i] else s[a - i - n + j] {
    }
  }

  // ---------------------------------------------------------------------
  // Attribute names

  /** The nodes s[i..j] are all attributes, so i and j lie in one run. */
  predicate SameRun(s: seq<Node>, i: nat, j: nat)
    requires i <= j < |s|
  {
    forall k :: i <= k <= j ==> s[k].Attr?
  }

  /** No attribute run holds two attributes of the same name. */
  ghost predicate NamesApart(s: seq<Node>) {
    forall i, j {:trigger SameRun(s, i, j)} :: 0 <= i < j < |s| && SameRun(s, i, j) ==> s[i].name != s[j].name
  }

  /** An attribute reached from i without leaving the run lies before its end. */
  lemma {:induction false} SameRunInside(s: seq<Node>, i: nat, j: nat)
    requires i <= j < |s| && SameRun(s, i, j)
    ensures j < RunEnd(s, i)
    decreases j - i
  {
    if i < j {
      assert SameRun(s, i + 1, j);
      SameRunInside(s, i + 1, j);
    }
  }

  /** A splice whose seams do not cut through a run keeps names apart. */
  lemma SpliceNamesApart(s: seq<Node>, i: nat, j: nat, m: seq<Node>)
    requires i <= j <= |s| && NamesApart(s) && NamesApart(m)
    requires |m| > 0 ==> !m[0].Attr?
    requires j < |s| ==> !s[j].Attr?
    ensures NamesApart(Splice(s, i, j, m))
  {
    var r := Splice(s, i, j, m);
    var d := |m|;
    forall a, b | 0 <= a < b < |r| ensures SameRun(r, a, b) ==> r[a].name != r[b].name {
      if b < i {
        if SameRun(r, a, b) {
          assert SameRun(s, a, b) by {
            forall k | a <= k <= b ensures s[k].Attr? { assert r[k] == s[k]; }
          }
        }
      } else if a < i {
        assert r[i] == if d > 0 then m[0] else s[j];
      } else if b < i + d {
        if SameRun(r, a, b) {
          assert SameRun(m, a - i, b - i) by {
            forall k | a - i <= k <= b - i ensures m[k].Attr? { assert r[k + i] == m[k]; }
          }
        }
      } else if a < i + d {
        assert r[i + d] == s[j];
      } else {
        if SameRun(r, a, b) {
          assert SameRun(s, a - i - d + j, b - i - d + j) by {
            forall k | a - i - d + j <= k <= b - i - d + j ensures s[k].Attr? {
              assert r[k + i + d - j] == s[k];
            }
          }
          assert r[a] == s[a - i - d + j] && r[b] == s[b - i - d + j];
        }
      }
    }
  }

  /** Copies keep names apart: a chain of the same shape has the same runs
      with the same names. */
  lemma ShapeNamesApart(a: seq<Node>, b: seq<Node>)
    requires SameShape(a, b) && NamesApart(b)
    ensures NamesApart(a)
  {
    forall i, j | 0 <= i < j < |a| ensures SameRun(a, i, j) ==> a[i].name != a[j].name {
      if SameRun(a, i, j) {
        assert SameRun(b, i, j) by {
          forall k | i <= k <= j ensures b[k].Attr? { assert Shape(a[k]) == Shape(b[k]); }
        }
        assert Shape(a[i]) == Shape(b[i]) && Shape(a[j]) == Shape(b[j]);
      }
    }
  }

  /** A stretch of a chain, closed by an END, keeps names apart. */
  lemma SliceNamesApart(s: seq<Node>, i: nat, j: nat)
    requires i <= j <= |s| && NamesApart(s)
    ensures NamesApart(s[i..j] + [End])
  {
    var x := s[i..j];
    forall a, b | 0 <= a < b < |x| ensures SameRun(x, a, b) ==> x[a].name != x[b].name {
      if SameRun(x, a, b) {
        assert SameRun(s, a + i, b + i) by {
          forall k | a + i <= k <= b + i ensures s[k].Attr? { assert x[k - i] == s[k]; }
        }
        assert x[a] == s[a + i] && x[b] == s[b + i];
      }
    }
    SpliceNamesApart(x, |x|, |x|, [End]);
    assert x[..|x|] + [End] + x[|x|..] == x + [End];
  }

  /** The document invariant: a well-formed chain of distinct objects, all
      handed out before n, with no attribute name twice on one element. */
  ghost predicate Sound(s: seq<Node>, n: nat) {
    WellFormed(s) && UniqueKeys(s) && KeysBelow(s, n) && NamesApart(s)
  }

  lemma SingleBalanced(x: Node)
    requires Delta(x) == 0
    ensures Balanced([x])
  {
    assert Level([x], 0, 1) == Level([x], 0, 0) + Delta(x);
  }

  /** Unlinking one attribute keeps names apart: the runs only shrink. */
  lemma RemoveAtNamesApart(s: seq<Node>, p: nat)
    requires NamesApart(s) && p < |s| && s[p].Attr?
    ensures NamesApart(Splice(s, p, p + 1, []))
  {
    var r := Splice(s, p, p + 1, []);
    forall a, b | 0 <= a < b < |r| ensures SameRun(r, a, b) ==> r[a].name != r[b].name {
      var a' := if a < p then a else a + 1;
      var b' := if b < p then b else b + 1;
      assert r[a] == s[a'] && r[b] == s[b'];
      if SameRun(r, a, b) {
        assert SameRun(s, a', b') by {
          forall k | a' <= k <= b' ensures s[k].Attr? {
            if k < p {
              assert r[k] == s[k];
            } else if k > p {
              assert r[k - 1] == s[k];
            }
          }
        }
      }
    }
  }

  /** Unlinking one attribute keeps the chain sound. */
  lemma RemoveAtSound(s: seq<Node>, p: nat, n: nat)
    requires Sound(s, n) && p < |s| && s[p].Attr?
    ensures Sound(Splice(s, p, p + 1, []), n)
  {
    assert Level(s, p, p + 1) == 0;
    assert Balanced([]) by { assert Level([], 0, 0) == 0; }
    SpliceWellFormed(s, p, p + 1, []);
    SpliceKeys(s, p, p + 1, [], n);
    RemoveAtNamesApart(s, p);
  }

  /** An attribute whose name the run lacks can join the head of the run. */
  lemma {:induction false} InsertHeadNamesApart(s: seq<Node>, e: nat, x: Node)
    requires NamesApart(s) && IsElement(s, e) && x.Attr?
    requires forall k :: e + 1 <= k < RunEnd(s, e + 1) ==> s[k].name != x.name
    ensures NamesApart(Splice(s, e + 1, e + 1, [x]))
  {
    var r := Splice(s, e + 1, e + 1, [x]);
    forall a, b | 0 <= a < b < |r| ensures SameRun(r, a, b) ==> r[a].name != r[b].name {
      if b <= e {
        if SameRun(r, a, b) {
          assert SameRun(s, a, b) by {
            forall k | a <= k <= b ensures s[k].Attr? { assert r[k] == s[k]; }
          }
        }
      } else if a <= e {
        assert r[e] == s[e];
      } else if a == e + 1 {
        assert r[a] == x && r[b] == s[b - 1];
        if SameRun(r, a, b) {
          assert SameRun(s, e + 1, b - 1) by {
            forall k | e + 1 <= k <= b - 1 ensures s[k].Attr? { assert r[k + 1] == s[k]; }
          }
          SameRunInside(s, e + 1, b - 1);
        }
      } else {
        assert r[a] == s[a - 1] && r[b] == s[b - 1];
        if SameRun(r, a, b) {
          assert SameRun(s, a - 1, b - 1) by {
            forall k | a - 1 <= k <= b - 1 ensures s[k].Attr? { assert r[k + 1] == s[k]; }
          }
        }
      }
    }
  }

  /** Linking a new attribute object, whose name the run lacks, at the head
      of an element's run keeps the chain sound. */
  lemma {:induction false} InsertAttrSound(s: seq<Node>, e: nat, x: Node, n: nat)
    requires Sound(s, n) && IsElement(s, e) && x.Attr? && x.key < n
    requires forall b {:trigger s[b].key} :: 0 <= b < |s| && Keyed(s[b]) ==> s[b].key != x.key
    requires forall k :: e + 1 <= k < RunEnd(s, e + 1) ==> s[k].name != x.name
    ensures Sound(Splice(s, e + 1, e + 1, [x]), n)
  {
    SingleBalanced(x);
    SpliceWellFormed(s, e + 1, e + 1, [x]);
    SpliceKeys(s, e + 1, e + 1, [x], n);
    InsertHeadNamesApart(s, e, x);
  }

  /** Giving an attribute a new value under its own name keeps the chain
      sound. */
  lemma UpdateAttrSound(s: seq<Node>, p: nat, x: Node, n: nat)
    requires Sound(s, n) && p < |s| && s[p].Attr? && x.Attr? && x.key == s[p].key && x.name == s[p].name
    ensures Sound(s[p := x], n)
  {
    SingleBalanced(x);
    assert Level(s, p, p + 1) == 0;
    assert Splice(s, p, p + 1, [x]) == s[p := x];
    SpliceWellFormed(s, p, p + 1, [x]);
    assert KeysApart(s, p, p + 1, [x]);
    SpliceKeys(s, p, p + 1, [x], n);
    var r := s[p := x];
    forall a, b | 0 <= a < b < |r| ensures SameRun(r, a, b) ==> r[a].name != r[b].name {
      if SameRun(r, a, b) {
        assert SameRun(s, a, b) by {
          forall k | a <= k <= b ensures s[k].Attr? { if k != p { assert r[k] == s[k]; } }
        }
      }
    }
  }
}
