/**
  The attribute run of an element: the contiguous Attr nodes that follow its
  Start token.  Every lookup is a forward walk over that run that stops at
  the first node that is not an attribute.
 */
module Attributes {
  import opened Chain

  /** getAttributeNode's walk: the first attribute named `name` in the run
      that starts at i, or None once a non-attribute node is reached. */
  function FindAttr(s: seq<Node>, i: nat, name: string): (r: Option<nat>)
    requires i <= |s|
    ensures r.Some? ==> i <= r.value < RunEnd(s, i) && s[r.value].name == name
    ensures r.Some? ==> forall k :: i <= k < r.value ==> s[k].name != name
    ensures r.None? ==> forall k :: i <= k < RunEnd(s, i) ==> s[k].name != name
    decreases |s| - i
  {
    if i < |s| && s[i].Attr? then
      (if s[i].name == name then Some(i) else FindAttr(s, i + 1, name))
    else None
  }

  /** getAttributeNode's walk keyed by object identity instead of name: the
      first attribute in the run that is the object `key`, as the loop of
      removeAttributeNode looks for it. */
  function FindKey(s: seq<Node>, i: nat, key: nat): (r: Option<nat>)
    requires i <= |s|
    ensures r.Some? ==> i <= r.value < RunEnd(s, i) && s[r.value].key == key
    ensures r.Some? ==> forall k {:trigger s[k].key} :: i <= k < r.value ==> s[k].key != key
    ensures r.None? ==> forall k {:trigger s[k].key} :: i <= k < RunEnd(s, i) ==> s[k].key != key
    decreases |s| - i
  {
    if i < |s| && s[i].Attr? then
      (if s[i].key == key then Some(i) else FindKey(s, i + 1, key))
    else None
  }

  /** The attribute object with identity `key` wherever it sits in the chain
      (the run of its ownerElement), looking from i on. */
  function Locate(s: seq<Node>, i: nat, key: nat): (r: Option<nat>)
    requires i <= |s|
    ensures r.Some? ==> i <= r.value < |s| && s[r.value].Attr? && s[r.value].key == key
    ensures r.None? ==> forall k {:trigger s[k].key} :: i <= k < |s| && s[k].Attr? ==> s[k].key != key
    decreases |s| - i
  {
    if i == |s| then None
    else if s[i].Attr? && s[i].key == key then Some(i)
    else Locate(s, i + 1, key)
  }

  /** The names of the run that starts at i, in chain order. */
  function RunNames(s: seq<Node>, i: nat): (names: seq<string>)
    requires i <= |s|
    ensures |names| == RunEnd(s, i) - i
    ensures forall k :: 0 <= k < |names| ==> names[k] == s[i + k].name
    decreases |s| - i
  {
    if i < |s| && s[i].Attr? then [s[i].name] + RunNames(s, i + 1) else []
  }

  /** xs without its element at q. */
  function Without(xs: seq<string>, q: nat): seq<string>
    requires q < |xs|
  {
    xs[..q] + xs[q + 1..]
  }

  predicate Distinct(xs: seq<string>) {
    forall a, b :: 0 <= a < b < |xs| ==> xs[a] != xs[b]
  }

  /** In a chain that keeps names apart, every run has distinct names. */
  lemma {:induction false} RunNamesApart(s: seq<Node>, i: nat)
    requires i <= |s| && NamesApart(s)
    ensures Distinct(RunNames(s, i))
  {
    var ns := RunNames(s, i);
    forall a, b | 0 <= a < b < |ns| ensures ns[a] != ns[b] {
      assert SameRun(s, i + a, i + b);
    }
  }

  /** hasAttribute: the lookup found something. */
  predicate HasAttr(s: seq<Node>, e: nat, name: string)
    requires e < |s|
  {
    FindAttr(s, e + 1, name).Some?
  }

  // ---------------------------------------------------------------------
  // Facts about the walks

  lemma {:induction false} HasAttrIffNamed(s: seq<Node>, e: nat, name: string)
    requires e < |s|
    ensures HasAttr(s, e, name) <==> name in RunNames(s, e + 1)
  {
    var names := RunNames(s, e + 1);
    if HasAttr(s, e, name) {
      var p := FindAttr(s, e + 1, name).value;
      assert names[p - e - 1] == name;
    }
  }

  /** Assigning a new value to attribute p keeps the run and keeps p the
      first attribute of its name. */
  lemma {:induction false} UpdateKeepsWalk(s: seq<Node>, i: nat, p: nat, x: Node, name: string)
    requires i <= p < |s| && s[p].Attr? && x.Attr?
    requires forall k :: i <= k < p ==> s[k].Attr?
    ensures RunEnd(s[p := x], i) == RunEnd(s, i)
    ensures RunNames(s[p := x], i) == RunNames(s, i)[p - i := x.name]
    ensures FindAttr(s, i, name) == Some(p) && x.name == name ==> FindAttr(s[p := x], i, name) == Some(p)
    decreases p - i
  {
    var t := s[p := x];
    if i < p {
      UpdateKeepsWalk(s, i + 1, p, x, name);
      assert RunNames(t, i) == [t[i].name] + RunNames(t, i + 1);
    } else {
      assert RunNames(t, i) == [x.name] + RunNames(t, i + 1);
      assert t[i + 1..] == s[i + 1..];
      RunSuffix(s, t, i + 1);
    }
  }

  /** The walks from i only look at the chain from i on. */
  lemma {:induction false} RunSuffix(s: seq<Node>, t: seq<Node>, i: nat)
    requires i <= |s| && i <= |t| && s[i..] == t[i..]
    ensures RunEnd(s, i) == RunEnd(t, i) && RunNames(s, i) == RunNames(t, i)
    ensures forall name :: FindAttr(s, i, name) == FindAttr(t, i, name)
    decreases |s| - i
  {
    if i < |s| {
      assert s[i] == s[i..][0] == t[i..][0] == t[i];
      assert s[i + 1..] == s[i..][1..] == t[i..][1..] == t[i + 1..];
      RunSuffix(s, t, i + 1);
    }
  }

  /** A run shifted by a fixed offset: the walk of t from j replays that of
      s from i. */
  lemma {:induction false} RunShift(s: seq<Node>, i: nat, t: seq<Node>, j: nat)
    requires i <= |s| && j <= |t| && |s| - i == |t| - j
    requires forall k :: i <= k < |s| ==> t[k - i + j] == s[k]
    ensures RunEnd(t, j) == RunEnd(s, i) - i + j && RunNames(t, j) == RunNames(s, i)
    decreases |s| - i
  {
    if i < |s| {
      assert t[j] == s[i];
      RunShift(s, i + 1, t, j + 1);
    }
  }

  /** A run read from i passes through p when everything before p is an
      attribute. */
  lemma {:induction false} RunSplit(t: seq<Node>, i: nat, p: nat)
    requires i <= p <= |t| && forall k :: i <= k < p ==> t[k].Attr?
    ensures RunEnd(t, i) == RunEnd(t, p) && RunNames(t, i)[p - i..] == RunNames(t, p)
    decreases p - i
  {
    if i < p {
      RunSplit(t, i + 1, p);
      assert RunNames(t, i) == [t[i].name] + RunNames(t, i + 1);
    }
  }

  /** Two chains that agree from i up to and including the node that ends
      the run at i have the same run there. */
  lemma {:induction false} RunsAgree(s: seq<Node>, r: seq<Node>, i: nat)
    requires i <= |s| && RunEnd(s, i) < |s| && RunEnd(s, i) < |r|
    requires forall k :: i <= k <= RunEnd(s, i) ==> r[k] == s[k]
    ensures RunEnd(r, i) == RunEnd(s, i) && RunNames(r, i) == RunNames(s, i)
    decreases |s| - i
  {
    if s[i].Attr? {
      RunsAgree(s, r, i + 1);
    }
  }

  /** Removing the attribute at p from the run that starts at i deletes its
      name from the run's names and nothing else. */
  lemma RemoveFromRun(s: seq<Node>, i: nat, p: nat)
    requires i <= p < |s| && forall k :: i <= k <= p ==> s[k].Attr?
    ensures RunNames(Splice(s, p, p + 1, []), i) == RunNames(s, i)[..p - i] + RunNames(s, i)[p - i + 1..]
    ensures RunEnd(Splice(s, p, p + 1, []), i) == RunEnd(s, i) - 1
  {
    var r := Splice(s, p, p + 1, []);
    assert forall k :: i <= k < p ==> s[k].Attr? && r[k] == s[k];
    RunDrop(s, p);
    RunOneHead(s, i, p);
    RunPrefix(s, r, i, p);
    var rs := RunNames(r, i);
    var ns := RunNames(s, i);
    assert rs[p - i..] == ns[p - i + 1..];
    assert rs[..p - i] == ns[..p - i];
    NamesSplit(rs, p - i);
  }

  lemma NamesSplit(xs: seq<string>, q: nat)
    requires q <= |xs|
    ensures xs == xs[..q] + xs[q..]
  {
  }

  /** Unlinking the attribute at p of the run that starts at i: the chain
      loses exactly that node and the run loses exactly that name. */
  lemma RemoveAt(s: seq<Node>, i: nat, p: nat)
    requires i <= |s| && i <= p < RunEnd(s, i)
    ensures var r := Splice(s, p, p + 1, []);
      var ns := RunNames(s, i);
      r == s[..p] + s[p + 1..] && RunNames(r, i) == ns[..p - i] + ns[p - i + 1..]
  {
    assert s[..p] + [] == s[..p];
    RemoveFromRun(s, i, p);
  }

  /** The walk after the removed attribute replays the old walk one node on. */
  lemma RunDrop(s: seq<Node>, p: nat)
    requires p < |s|
    ensures RunEnd(Splice(s, p, p + 1, []), p) == RunEnd(s, p + 1) - 1
    ensures RunNames(Splice(s, p, p + 1, []), p) == RunNames(s, p + 1)
  {
    var r := Splice(s, p, p + 1, []);
    assert r == s[..p] + s[p + 1..];
    assert forall k :: p + 1 <= k < |s| ==> r[k - (p + 1) + p] == s[k];
    RunShift(s, p + 1, r, p);
  }

  lemma RunOneHead(s: seq<Node>, i: nat, p: nat)
    requires i <= p < |s| && forall k :: i <= k <= p ==> s[k].Attr?
    ensures RunEnd(s, i) == RunEnd(s, p + 1)
    ensures RunNames(s, i)[p - i + 1..] == RunNames(s, p + 1)
  {
    RunSplit(s, i, p + 1);
  }

  /** Two chains that agree on an attribute stretch [i, p) have walks that
      agree there and go on from p. */
  lemma {:induction false} RunPrefix(s: seq<Node>, r: seq<Node>, i: nat, p: nat)
    requires i <= p <= |s| && p <= |r| && forall k :: i <= k < p ==> s[k].Attr? && r[k] == s[k]
    ensures RunEnd(r, i) == RunEnd(r, p) && RunNames(r, i)[p - i..] == RunNames(r, p)
    ensures RunNames(r, i)[..p - i] == RunNames(s, i)[..p - i]
  {
    RunSplit(r, i, p);
    RunSplit(s, i, p);
  }

  // ---------------------------------------------------------------------
  // The mutations, as functions of the chain

  /** setAttribute(name, value) for a name other than "class": reassign the
      value of the first attribute of that name, or link a new attribute
      with identity `key` directly after the element. */
  function SetAttr(s: seq<Node>, e: nat, name: string, value: string, key: nat): (r: seq<Node>)
    requires IsElement(s, e)
  {
    var found := FindAttr(s, e + 1, name);
    if found.Some? then s[found.value := Attr(s[found.value].key, name, value)]
    else Splice(s, e + 1, e + 1, [Attr(key, name, value)])
  }

  /** After setAttribute the name is present with the new value.  A name
      already present keeps the run's length and order and changes nothing
      but that attribute's value; an absent name adds exactly one attribute,
      at the head of the run. */
  lemma {:induction false} SetAttrSpec(s: seq<Node>, e: nat, name: string, value: string, key: nat)
    requires IsElement(s, e)
    ensures var r := SetAttr(s, e, name, value, key);
      HasAttr(r, e, name) && r[FindAttr(r, e + 1, name).value].value == value &&
      r[..e + 1] == s[..e + 1] &&
      (HasAttr(s, e, name) ==>
        var p := FindAttr(s, e + 1, name).value;
        |r| == |s| && RunNames(r, e + 1) == RunNames(s, e + 1) &&
        r[p] == Attr(s[p].key, name, value) && forall k :: 0 <= k < |s| && k != p ==> r[k] == s[k]) &&
      (!HasAttr(s, e, name) ==>
        |r| == |s| + 1 && r[e + 1] == Attr(key, name, value) && r[e + 2..] == s[e + 1..] &&
        RunNames(r, e + 1) == [name] + RunNames(s, e + 1))
  {
    var r := SetAttr(s, e, name, value, key);
    var found := FindAttr(s, e + 1, name);
    if found.Some? {
      var p := found.value;
      assert r == s[p := Attr(s[p].key, name, value)];
      UpdateAt(s, e, p, Attr(s[p].key, name, value));
    } else {
      assert r == Splice(s, e + 1, e + 1, [Attr(key, name, value)]);
      InsertHead(s, e, Attr(key, name, value));
    }
  }

  /** Reassigning the value of the run's first attribute of a name. */
  lemma UpdateAt(s: seq<Node>, e: nat, p: nat, x: Node)
    requires IsElement(s, e) && x.Attr? && FindAttr(s, e + 1, x.name) == Some(p)
    ensures var r := s[p := x];
      FindAttr(r, e + 1, x.name) == Some(p) && r[..e + 1] == s[..e + 1] &&
      RunNames(r, e + 1) == RunNames(s, e + 1)
  {
    UpdateKeepsWalk(s, e + 1, p, x, x.name);
    var ns := RunNames(s, e + 1);
    assert ns[p - (e + 1) := x.name] == ns;
  }

  /** Linking a new attribute at the head of the run. */
  lemma {:induction false} InsertHead(s: seq<Node>, e: nat, x: Node)
    requires IsElement(s, e) && x.Attr?
    ensures var r := Splice(s, e + 1, e + 1, [x]);
      FindAttr(r, e + 1, x.name) == Some(e + 1) && r[..e + 1] == s[..e + 1] &&
      |r| == |s| + 1 && r[e + 1] == x && r[e + 2..] == s[e + 1..] &&
      RunNames(r, e + 1) == [x.name] + RunNames(s, e + 1)
  {
    var r := Splice(s, e + 1, e + 1, [x]);
    assert r == s[..e + 1] + [x] + s[e + 1..];
    RunShift(s, e + 1, r, e + 2);
    assert RunNames(r, e + 1) == [x.name] + RunNames(r, e + 2);
  }

  lemma DistinctRemoved(ns: seq<string>, q: nat)
    requires q < |ns| && Distinct(ns)
    ensures ns[q] !in ns[..q] + ns[q + 1..]
  {
    var rest := ns[..q] + ns[q + 1..];
    forall a | 0 <= a < |rest| ensures rest[a] != ns[q] {
      if a < q { assert rest[a] == ns[a]; } else { assert rest[a] == ns[a + 1]; }
    }
  }

  /** removeAttribute(name): unlink the first attribute of that name, if any. */
  function RemoveAttr(s: seq<Node>, e: nat, name: string): (r: seq<Node>)
    requires IsElement(s, e)
    ensures IsElement(r, e) && r[e] == s[e]
  {
    var found := FindAttr(s, e + 1, name);
    if found.Some? then
      var t := Splice(s, found.value, found.value + 1, []);
      assert t[e] == s[e];
      t
    else s
  }

  /** removeAttribute removes at most one attribute, the first of that name,
      and is a no-op without one. */
  lemma RemoveAttrSpec(s: seq<Node>, e: nat, name: string)
    requires IsElement(s, e)
    ensures var r := RemoveAttr(s, e, name);
      (!HasAttr(s, e, name) ==> r == s) &&
      (HasAttr(s, e, name) ==>
        var p := FindAttr(s, e + 1, name).value;
        var q := p - (e + 1);
        r == s[..p] + s[p + 1..] &&
        RunNames(r, e + 1) == RunNames(s, e + 1)[..q] + RunNames(s, e + 1)[q + 1..])
  {
    var found := FindAttr(s, e + 1, name);
    if found.Some? {
      var p := found.value;
      assert RemoveAttr(s, e, name) == Splice(s, p, p + 1, []);
      RemoveAt(s, e + 1, p);
    } else {
      assert RemoveAttr(s, e, name) == s;
    }
  }

  /** With distinct names in the run, the name is gone after removeAttribute. */
  lemma {:induction false} RemoveAttrGone(s: seq<Node>, e: nat, name: string)
    requires IsElement(s, e) && Distinct(RunNames(s, e + 1))
    ensures !HasAttr(RemoveAttr(s, e, name), e, name)
  {
    var r := RemoveAttr(s, e, name);
    var found := FindAttr(s, e + 1, name);
    if found.Some? {
      var p := found.value;
      var ns := RunNames(s, e + 1);
      assert r == Splice(s, p, p + 1, []);
      RemoveAt(s, e + 1, p);
      assert ns[p - (e + 1)] == name;
      DistinctRemoved(ns, p - (e + 1));
      HasAttrIffNamed(r, e, name);
    }
  }

  /** removeAttributeNode(attr): unlink the run's attribute that is the
      object `key`, if any. */
  function RemoveNode(s: seq<Node>, e: nat, key: nat): (r: seq<Node>)
    requires IsElement(s, e)
  {
    var found := FindKey(s, e + 1, key);
    if found.Some? then Splice(s, found.value, found.value + 1, []) else s
  }

  /** Where removeAttribute's walk stops: at the first attribute of that name,
      or past the run, which is what RemoveAttr unlinks. */
  lemma {:induction false} RemoveAttrWalk(s: seq<Node>, e: nat, name: string, j: nat)
    requires IsElement(s, e) && e + 1 <= j <= RunEnd(s, e + 1) && j < |s|
    requires forall k :: e + 1 <= k < j ==> s[k].name != name
    requires s[j].Attr? ==> s[j].name == name
    ensures FindAttr(s, e + 1, name) == if s[j].Attr? then Some(j) else None
    ensures RemoveAttr(s, e, name) == if s[j].Attr? then Splice(s, j, j + 1, []) else s
  {
  }

  /** Where removeAttributeNode's walk stops: at the run's node that is the
      object, or past the run, which is what RemoveNode unlinks. */
  lemma {:induction false} RemoveNodeWalk(s: seq<Node>, e: nat, key: nat, j: nat)
    requires IsElement(s, e) && e + 1 <= j <= RunEnd(s, e + 1) && j < |s|
    requires forall k {:trigger s[k].key} :: e + 1 <= k < j ==> s[k].key != key
    requires s[j].Attr? ==> s[j].key == key
    ensures FindKey(s, e + 1, key) == if s[j].Attr? then Some(j) else None
    ensures RemoveNode(s, e, key) == if s[j].Attr? then Splice(s, j, j + 1, []) else s
  {
  }

  /** removeAttributeNode removes exactly the run's node that is that object,
      and is a no-op when the object is not in the run. */
  lemma RemoveNodeSpec(s: seq<Node>, e: nat, key: nat)
    requires IsElement(s, e)
    ensures var r := RemoveNode(s, e, key);
      (FindKey(s, e + 1, key).None? ==> r == s) &&
      (FindKey(s, e + 1, key).Some? ==>
        var p := FindKey(s, e + 1, key).value;
        var q := p - (e + 1);
        r == s[..p] + s[p + 1..] &&
        RunNames(r, e + 1) == RunNames(s, e + 1)[..q] + RunNames(s, e + 1)[q + 1..])
  {
    var r := RemoveNode(s, e, key);
    var found := FindKey(s, e + 1, key);
    if found.Some? {
      var p := found.value;
      var ns := RunNames(s, e + 1);
      assert r == Splice(s, p, p + 1, []);
      RemoveAt(s, e + 1, p);
      assert r == s[..p] + s[p + 1..];
      assert RunNames(r, e + 1) == ns[..p - (e + 1)] + ns[p - (e + 1) + 1..];
    } else {
      assert r == s;
    }
  }

  /** setAttribute keeps the document invariant. */
  lemma SetAttrSound(s: seq<Node>, e: nat, name: string, value: string, n: nat)
    requires Sound(s, n) && IsElement(s, e)
    ensures Sound(SetAttr(s, e, name, value, n), n + 1)
  {
    var found := FindAttr(s, e + 1, name);
    KeysRaise(s, n, n + 1);
    if found.Some? {
      UpdateAttrSound(s, found.value, Attr(s[found.value].key, name, value), n + 1);
    } else {
      InsertAttrSound(s, e, Attr(n, name, value), n + 1);
    }
  }

  lemma KeysRaise(s: seq<Node>, n: nat, m: nat)
    requires Sound(s, n) && n <= m
    ensures Sound(s, m)
  {
  }

  /** removeAttribute keeps the document invariant. */
  lemma RemoveAttrSound(s: seq<Node>, e: nat, name: string, n: nat)
    requires Sound(s, n) && IsElement(s, e)
    ensures Sound(RemoveAttr(s, e, name), n)
  {
    var found := FindAttr(s, e + 1, name);
    if found.Some? {
      var p := found.value;
      assert s[p].Attr?;
      RemoveAtSound(s, p, n);
      assert RemoveAttr(s, e, name) == Splice(s, p, p + 1, []);
    }
  }

  /** removeAttributeNode keeps the document invariant. */
  lemma RemoveNodeSound(s: seq<Node>, e: nat, key: nat, n: nat)
    requires Sound(s, n) && IsElement(s, e)
    ensures Sound(RemoveNode(s, e, key), n)
  {
    var found := FindKey(s, e + 1, key);
    if found.Some? {
      RemoveAtSound(s, found.value, n);
    }
  }

  // ---------------------------------------------------------------------
  // toggleAttribute

  /** The new chain and the value toggleAttribute returns. */
  datatype Toggled = Toggled(chain: seq<Node>, result: bool)

  /** toggleAttribute(name, force); `force` is None when the argument is
      omitted and otherwise its truthiness. */
  function Toggle(s: seq<Node>, e: nat, name: string, force: Option<bool>, key: nat): Toggled
    requires IsElement(s, e)
  {
    if HasAttr(s, e, name) then
      if force != Some(true) then Toggled(RemoveAttr(s, e, name), false)
      else Toggled(s, true)
    else if force == Some(true) || force == None then
      Toggled(SetAttr(s, e, name, "", key), true)
    else Toggled(s, false)
  }

  /** The value toggleAttribute returns is whether the name is present
      afterwards; with no force presence flips, a truthy force ensures
      presence and a falsy one absence. */
  lemma {:induction false} ToggleSpec(s: seq<Node>, e: nat, name: string, force: Option<bool>, key: nat)
    requires IsElement(s, e) && Distinct(RunNames(s, e + 1))
    ensures var t := Toggle(s, e, name, force, key);
      t.result == HasAttr(t.chain, e, name) &&
      (force == None ==> t.result == !HasAttr(s, e, name)) &&
      (force == Some(true) ==> t.result) &&
      (force == Some(false) ==> !t.result) &&
      (t.result == HasAttr(s, e, name) ==> t.chain == s)
  {
    if HasAttr(s, e, name) {
      if force != Some(true) {
        RemoveAttrGone(s, e, name);
      }
    } else if force == Some(true) || force == None {
      SetAttrSpec(s, e, name, "", key);
    }
  }

  /** toggleAttribute on a document: its names are apart, so ToggleSpec
      applies to every element. */
  lemma ToggleSoundSpec(s: seq<Node>, e: nat, name: string, force: Option<bool>, n: nat)
    requires Sound(s, n) && IsElement(s, e)
    ensures var t := Toggle(s, e, name, force, n);
      t.result == HasAttr(t.chain, e, name) &&
      (force == None ==> t.result == !HasAttr(s, e, name)) &&
      (force == Some(true) ==> t.result) &&
      (force == Some(false) ==> !t.result) &&
      Sound(t.chain, n + 1)
  {
    RunNamesApart(s, e + 1);
    ToggleSpec(s, e, name, force, n);
    ToggleSound(s, e, name, force, n);
  }

  lemma ToggleSound(s: seq<Node>, e: nat, name: string, force: Option<bool>, n: nat)
    requires Sound(s, n) && IsElement(s, e)
    ensures Sound(Toggle(s, e, name, force, n).chain, n + 1)
  {
    KeysRaise(s, n, n + 1);
    if HasAttr(s, e, name) {
      RemoveAttrSound(s, e, name, n + 1);
    } else {
      SetAttrSound(s, e, name, "", n);
    }
  }

  // ---------------------------------------------------------------------
  // setAttributeNode

  /** The new chain, the attribute returned as `previously`, and the index
      of the element afterwards (it moves back by one when the attribute is
      taken from an element earlier in the chain). */
  datatype Placed = Placed(chain: seq<Node>, previously: Option<Node>, host: nat)

  /** Every node of the chain that is the object `attr` carries its current
      name and value: the caller holds the live object. */
  ghost predicate Holds(s: seq<Node>, attr: Node) {
    attr.Attr? && forall k {:trigger s[k].key} :: 0 <= k < |s| && Keyed(s[k]) && s[k].key == attr.key ==> s[k] == attr
  }

  /** Unlink the attribute object with that key from the run of its
      ownerElement, if it has one; the chain and the new index of the
      element at e. */
  function Detach(s: seq<Node>, e: nat, key: nat): (r: (seq<Node>, nat))
    requires IsElement(s, e)
    ensures IsElement(r.0, r.1) && r.0[r.1] == s[e]
  {
    var own := Locate(s, 0, key);
    if own.Some? then
      var t := Splice(s, own.value, own.value + 1, []);
      var e2 := if own.value < e then e - 1 else e;
      assert t[e2] == s[e];
      (t, e2)
    else (s, e)
  }

  /** Detach, then link attr at the head of the run of the element. */
  function Adopt(s: seq<Node>, e: nat, attr: Node): (r: (seq<Node>, nat))
    requires IsElement(s, e) && attr.Attr?
    ensures IsElement(r.0, r.1) && r.0[r.1] == s[e] && r.1 + 1 < |r.0| && r.0[r.1 + 1] == attr
  {
    var d := Detach(s, e, attr.key);
    (Splice(d.0, d.1 + 1, d.1 + 1, [attr]), d.1)
  }

  /** setAttributeNode(attr): when the run's attribute of that name is
      another object, unlink it and adopt attr; return what was there. */
  function SetAttrNode(s: seq<Node>, e: nat, attr: Node): (r: Placed)
    requires IsElement(s, e) && attr.Attr?
    ensures IsElement(r.chain, r.host) && r.chain[r.host] == s[e]
  {
    var prev := FindAttr(s, e + 1, attr.name);
    var previously := if prev.Some? then Some(s[prev.value]) else None;
    if prev.Some? && s[prev.value].key == attr.key then Placed(s, previously, e)
    else
      var adopted := Adopt(RemoveAttr(s, e, attr.name), e, attr);
      Placed(adopted.0, previously, adopted.1)
  }

  /** setAttributeNode returns the attribute the run had under that name (or
      null), and afterwards the run's attribute of that name is attr.  When
      that was attr already nothing changes; otherwise the previous attribute
      is removed, attr is detached from its former owner (DetachShape) and
      linked at the head of the element's run, and nothing else changes. */
  lemma {:induction false} SetAttrNodeSpec(s: seq<Node>, e: nat, attr: Node)
    requires IsElement(s, e) && Holds(s, attr)
    ensures var r := SetAttrNode(s, e, attr);
      var same := HasAttr(s, e, attr.name) && s[FindAttr(s, e + 1, attr.name).value].key == attr.key;
      r.previously == (if HasAttr(s, e, attr.name) then Some(s[FindAttr(s, e + 1, attr.name).value]) else None) &&
      HasAttr(r.chain, r.host, attr.name) &&
      r.chain[FindAttr(r.chain, r.host + 1, attr.name).value] == attr &&
      (same ==> r.chain == s && r.host == e) &&
      (!same ==>
        var d := Detach(RemoveAttr(s, e, attr.name), e, attr.key);
        r.host == d.1 && r.chain == d.0[..d.1 + 1] + [attr] + d.0[d.1 + 1..])
  {
    var prev := FindAttr(s, e + 1, attr.name);
    if !(prev.Some? && s[prev.value].key == attr.key) {
      SetAttrNodeMoved(s, e, attr);
    }
  }

  /** setAttributeNode when the run's attribute of that name is not attr:
      attr is unlinked from its owner and linked at the head of the run of
      the element, after the previous attribute is removed. */
  lemma {:induction false} SetAttrNodeMoved(s: seq<Node>, e: nat, attr: Node)
    requires IsElement(s, e) && attr.Attr?
    requires !(HasAttr(s, e, attr.name) && s[FindAttr(s, e + 1, attr.name).value].key == attr.key)
    ensures var r := SetAttrNode(s, e, attr);
      var d := Detach(RemoveAttr(s, e, attr.name), e, attr.key);
      r.host == d.1 && r.chain == d.0[..d.1 + 1] + [attr] + d.0[d.1 + 1..] &&
      FindAttr(r.chain, r.host + 1, attr.name) == Some(r.host + 1)
  {
    var r := SetAttrNode(s, e, attr);
    assert r.chain[r.host + 1] == attr;
  }

  /** No node of the chain is the object `key`. */
  ghost predicate Absent(s: seq<Node>, key: nat) {
    forall k {:trigger s[k].key} :: 0 <= k < |s| && Keyed(s[k]) ==> s[k].key != key
  }

  lemma RemoveKeepsAbsent(s: seq<Node>, p: nat, key: nat)
    requires p < |s| && Absent(s, key)
    ensures Absent(Splice(s, p, p + 1, []), key)
  {
    var r := Splice(s, p, p + 1, []);
    forall k | 0 <= k < |r| ensures r[k] == if k < p then s[k] else s[k + 1] {
    }
  }

  lemma InsertKeepsAbsent(s: seq<Node>, i: nat, x: Node, key: nat)
    requires i <= |s| && Absent(s, key) && Keyed(x) && x.key != key
    ensures Absent(Splice(s, i, i, [x]), key)
  {
    var r := Splice(s, i, i, [x]);
    forall k | 0 <= k < |r| ensures r[k] == if k < i then s[k] else if k == i then x else s[k - 1] {
    }
  }

  /** Unlinking an object of a chain of distinct objects leaves none of it. */
  lemma RemoveUniqueAbsent(s: seq<Node>, p: nat)
    requires UniqueKeys(s) && p < |s| && Keyed(s[p])
    ensures Absent(Splice(s, p, p + 1, []), s[p].key)
  {
    var r := Splice(s, p, p + 1, []);
    forall k | 0 <= k < |r| && Keyed(r[k]) ensures r[k].key != s[p].key {
      if k < p { assert r[k] == s[k]; } else { assert r[k] == s[k + 1]; }
    }
  }

  /** Unlinking attr from its owner keeps the run of an element that lacks
      attr's name: attr sits before the element or beyond the end of its run. */
  lemma DetachKeepsRun(s: seq<Node>, e: nat, attr: Node, t: seq<Node>, h: nat)
    requires IsElement(s, e) && Holds(s, attr) && !HasAttr(s, e, attr.name)
    requires (t, h) == Detach(s, e, attr.key)
    ensures h + 1 <= |t| && RunNames(t, h + 1) == RunNames(s, e + 1)
  {
    var own := Locate(s, 0, attr.key);
    if own.Some? {
      var q := own.value;
      assert t == s[..q] + s[q + 1..] && h + 1 == (if q < e then e else e + 1) by {
        DetachShape(s, e, attr.key);
      }
      assert s[q].name == attr.name by {
        assert s[q] == attr;
      }
      CutOtherAt(s, e, q, attr.name, t, h);
    } else {
      assert t == s && h == e by {
        DetachShape(s, e, attr.key);
      }
    }
  }

  /** Unlinking an attribute named `name` from anywhere in the chain keeps the
      run of an element that has no attribute of that name. */
  lemma {:induction false} CutOther(s: seq<Node>, e: nat, q: nat, name: string)
    requires IsElement(s, e) && q < |s| && s[q].Attr? && s[q].name == name && !HasAttr(s, e, name)
    ensures RunNames(s[..q] + s[q + 1..], if q < e then e else e + 1) == RunNames(s, e + 1)
  {
    if q < e {
      CutBefore(s, q, e + 1);
    } else {
      var none := FindAttr(s, e + 1, name);
      var end := RunEnd(s, e + 1);
      assert end <= q;
      CutAfter(s, e + 1, q);
    }
  }

  /** CutOther for the chain t and element index h that the unlinking leaves. */
  lemma CutOtherAt(s: seq<Node>, e: nat, q: nat, name: string, t: seq<Node>, h: nat)
    requires IsElement(s, e) && q < |s| && s[q].Attr? && s[q].name == name && !HasAttr(s, e, name)
    requires t == s[..q] + s[q + 1..] && h + 1 == (if q < e then e else e + 1)
    ensures h + 1 <= |t| && RunNames(t, h + 1) == RunNames(s, e + 1)
  {
    CutOther(s, e, q, name);
  }

  /** Unlinking a node before i moves the run at i back by one. */
  lemma CutBefore(s: seq<Node>, q: nat, i: nat)
    requires q < i <= |s|
    ensures RunNames(s[..q] + s[q + 1..], i - 1) == RunNames(s, i)
  {
    var t := s[..q] + s[q + 1..];
    forall k | i <= k < |s| ensures t[k - i + (i - 1)] == s[k] {
      assert t[k - 1] == s[q + 1..][k - 1 - q];
    }
    RunShift(s, i, t, i - 1);
  }

  /** Unlinking an attribute beyond the run at i leaves that run alone. */
  lemma {:induction false} CutAfter(s: seq<Node>, i: nat, q: nat)
    requires i <= |s| && RunEnd(s, i) <= q < |s| && s[q].Attr?
    ensures RunNames(s[..q] + s[q + 1..], i) == RunNames(s, i)
  {
    var t := s[..q] + s[q + 1..];
    var end := RunEnd(s, i);
    assert end < q;
    forall k | i <= k <= end ensures t[k] == s[k] {
      assert t[k] == s[..q][k];
    }
    RunsAgree(s, t, i);
  }

  /** Detach unlinks the node Locate finds, and the element moves back by
      one when that node came before it. */
  lemma {:induction false} DetachShape(s: seq<Node>, e: nat, key: nat)
    requires IsElement(s, e)
    ensures var own := Locate(s, 0, key);
      var d := Detach(s, e, key);
      (own.None? ==> d == (s, e)) &&
      (own.Some? ==> d.0 == s[..own.value] + s[own.value + 1..] && d.1 == if own.value < e then e - 1 else e)
  {
    var own := Locate(s, 0, key);
    if own.Some? {
      assert s[..own.value] + [] == s[..own.value];
    }
  }

  lemma RemoveKeepsHolds(s: seq<Node>, p: nat, attr: Node)
    requires Holds(s, attr) && p < |s|
    ensures Holds(Splice(s, p, p + 1, []), attr)
  {
    var r := Splice(s, p, p + 1, []);
    forall k | 0 <= k < |r| ensures r[k] == if k < p then s[k] else s[k + 1] {
    }
  }

  /** Once attr is unlinked from its owner, no node of the chain is that
      object any more. */
  lemma {:induction false} DetachedAfterLocate(s: seq<Node>, attr: Node)
    requires UniqueKeys(s) && Holds(s, attr)
    ensures var own := Locate(s, 0, attr.key);
      var t := if own.Some? then Splice(s, own.value, own.value + 1, []) else s;
      forall b {:trigger t[b].key} :: 0 <= b < |t| && Keyed(t[b]) ==> t[b].key != attr.key
  {
    var own := Locate(s, 0, attr.key);
    if own.Some? {
      var j := own.value;
      var t := Splice(s, j, j + 1, []);
      forall b | 0 <= b < |t| && Keyed(t[b]) ensures t[b].key != attr.key {
        if b < j { assert t[b] == s[b]; } else { assert t[b] == s[b + 1]; }
      }
    }
  }

  lemma DetachSound(s: seq<Node>, e: nat, attr: Node, n: nat)
    requires Sound(s, n) && IsElement(s, e) && Holds(s, attr)
    ensures var t := Detach(s, e, attr.key).0;
      Sound(t, n) && forall b {:trigger t[b].key} :: 0 <= b < |t| && Keyed(t[b]) ==> t[b].key != attr.key
  {
    var own := Locate(s, 0, attr.key);
    if own.Some? {
      RemoveAtSound(s, own.value, n);
    }
    DetachedAfterLocate(s, attr);
  }

  /** Adopting attr into an element whose run lacks its name keeps the
      document invariant; the run gains exactly attr's name at its head. */
  lemma AdoptSound(s: seq<Node>, e: nat, attr: Node, n: nat, t: seq<Node>, h: nat)
    requires Sound(s, n) && IsElement(s, e) && Holds(s, attr) && attr.key < n && !HasAttr(s, e, attr.name)
    requires (t, h) == Adopt(s, e, attr)
    ensures Sound(t, n) && h + 1 <= |t| && RunNames(t, h + 1) == [attr.name] + RunNames(s, e + 1)
  {
    var d := Detach(s, e, attr.key);
    DetachSound(s, e, attr, n);
    DetachKeepsRun(s, e, attr, d.0, d.1);
    HasAttrIffNamed(s, e, attr.name);
    LinkHead(d.0, d.1, attr, n, t, h);
    AdoptNames(s, e, attr, t, h);
  }

  /** Linking attr, held by no node, at the head of a run that lacks its
      name. */
  lemma {:induction false} LinkHead(t: seq<Node>, h: nat, attr: Node, n: nat, r: seq<Node>, g: nat)
    requires Sound(t, n) && IsElement(t, h) && attr.Attr? && attr.key < n
    requires forall b {:trigger t[b].key} :: 0 <= b < |t| && Keyed(t[b]) ==> t[b].key != attr.key
    requires attr.name !in RunNames(t, h + 1)
    requires (r, g) == (Splice(t, h + 1, h + 1, [attr]), h)
    ensures Sound(r, n)
  {
    HasAttrIffNamed(t, h, attr.name);
    InsertAttrSound(t, h, attr, n);
  }

  lemma RemoveAttrHolds(s: seq<Node>, e: nat, name: string, attr: Node)
    requires IsElement(s, e) && Holds(s, attr)
    ensures Holds(RemoveAttr(s, e, name), attr)
  {
    var found := FindAttr(s, e + 1, name);
    if found.Some? {
      RemoveKeepsHolds(s, found.value, attr);
    }
  }

  /** In a chain of distinct objects, the first attribute of a name is the
      one removeAttributeNode finds by identity. */
  lemma {:induction false} FoundByKey(s: seq<Node>, e: nat, name: string)
    requires UniqueKeys(s) && IsElement(s, e) && HasAttr(s, e, name)
    ensures var p := FindAttr(s, e + 1, name).value;
      FindKey(s, e + 1, s[p].key) == Some(p) && RemoveNode(s, e, s[p].key) == RemoveAttr(s, e, name)
  {
    var p := FindAttr(s, e + 1, name).value;
    var q := FindKey(s, e + 1, s[p].key);
  }

  /** setAttributeNode keeps the document invariant, given an attribute
      object created by this document. */
  lemma SetAttrNodeSound(s: seq<Node>, e: nat, attr: Node, n: nat)
    requires Sound(s, n) && IsElement(s, e) && Holds(s, attr) && attr.key < n
    ensures Sound(SetAttrNode(s, e, attr).chain, n)
  {
    var prev := FindAttr(s, e + 1, attr.name);
    if !(prev.Some? && s[prev.value].key == attr.key) {
      var s1 := RemoveAttr(s, e, attr.name);
      RemoveAttrSound(s, e, attr.name, n);
      RemoveAttrHolds(s, e, attr.name, attr);
      RunNamesApart(s, e + 1);
      RemoveAttrGone(s, e, attr.name);
      var a := Adopt(s1, e, attr);
      AdoptSound(s1, e, attr, n, a.0, a.1);
    }
  }

  /** When setAttributeNode replaced another attribute, the run is attr's
      name followed by the run removeAttribute(attr.name) leaves (which
      RemoveAttrNames states: the old run less the replaced name); with nothing
      to replace, attr's name is added at the head of the run. */
  lemma {:induction false} SetAttrNodeRun(s: seq<Node>, e: nat, attr: Node, r: Placed)
    requires NamesApart(s) && IsElement(s, e) && Holds(s, attr)
    requires r == SetAttrNode(s, e, attr)
    ensures r.host + 1 <= |r.chain|
    ensures r.previously.Some? && r.previously.value.key != attr.key ==>
      RunNames(r.chain, r.host + 1) == [attr.name] + RunNames(RemoveAttr(s, e, attr.name), e + 1)
    ensures r.previously.None? ==> RunNames(r.chain, r.host + 1) == [attr.name] + RunNames(s, e + 1)
  {
    if !HasAttr(s, e, attr.name) {
      assert r.previously == None;
      SetAttrNodeAdded(s, e, attr, r);
    } else if s[FindAttr(s, e + 1, attr.name).value].key != attr.key {
      assert r.previously == Some(s[FindAttr(s, e + 1, attr.name).value]);
      SetAttrNodeNames(s, e, attr, r);
    } else {
      assert r.previously == Some(s[FindAttr(s, e + 1, attr.name).value]);
    }
  }

  /** In a chain of distinct objects, the attribute setAttributeNode replaced
      is no longer in the chain. */
  lemma SetAttrNodeGone(s: seq<Node>, e: nat, attr: Node, r: Placed)
    requires UniqueKeys(s) && IsElement(s, e) && attr.Attr?
    requires r == SetAttrNode(s, e, attr)
    ensures r.previously.Some? && r.previously.value.key != attr.key ==> Absent(r.chain, r.previously.value.key)
  {
    if HasAttr(s, e, attr.name) && s[FindAttr(s, e + 1, attr.name).value].key != attr.key {
      SetAttrNodeDrops(s, e, attr, r);
    }
  }

  /** The run left by removeAttribute, when the name was present. */
  lemma {:induction false} RemoveAttrNames(s: seq<Node>, e: nat, name: string)
    requires IsElement(s, e) && HasAttr(s, e, name)
    ensures RunNames(RemoveAttr(s, e, name), e + 1) ==
      Without(RunNames(s, e + 1), FindAttr(s, e + 1, name).value - (e + 1))
  {
    RemoveAttrSpec(s, e, name);
  }

  lemma {:induction false} SetAttrNodeAdded(s: seq<Node>, e: nat, attr: Node, r: Placed)
    requires NamesApart(s) && IsElement(s, e) && Holds(s, attr) && !HasAttr(s, e, attr.name)
    requires r == SetAttrNode(s, e, attr)
    ensures r.host + 1 <= |r.chain| && RunNames(r.chain, r.host + 1) == [attr.name] + RunNames(s, e + 1)
  {
    SetAttrNodeNames(s, e, attr, r);
    assert RemoveAttr(s, e, attr.name) == s;
  }

  /** When attr is moved in, the run is its name and then the run left by
      removeAttribute. */
  lemma SetAttrNodeNames(s: seq<Node>, e: nat, attr: Node, r: Placed)
    requires NamesApart(s) && IsElement(s, e) && Holds(s, attr)
    requires !(HasAttr(s, e, attr.name) && s[FindAttr(s, e + 1, attr.name).value].key == attr.key)
    requires r == SetAttrNode(s, e, attr)
    ensures r.host + 1 <= |r.chain|
    ensures RunNames(r.chain, r.host + 1) == [attr.name] + RunNames(RemoveAttr(s, e, attr.name), e + 1)
  {
    var t := RemoveAttr(s, e, attr.name);
    assert Holds(t, attr) by {
      RemoveAttrHolds(s, e, attr.name, attr);
    }
    assert !HasAttr(t, e, attr.name) by {
      RunNamesApart(s, e + 1);
      RemoveAttrGone(s, e, attr.name);
    }
    assert (r.chain, r.host) == Adopt(t, e, attr);
    AdoptNames(t, e, attr, r.chain, r.host);
  }

  /** Adopting attr puts its name in front of the run, which detaching it
      from another element leaves as it was. */
  lemma {:induction false} AdoptNames(s: seq<Node>, e: nat, attr: Node, t: seq<Node>, h: nat)
    requires IsElement(s, e) && Holds(s, attr) && !HasAttr(s, e, attr.name)
    requires (t, h) == Adopt(s, e, attr)
    ensures h + 1 <= |t| && RunNames(t, h + 1) == [attr.name] + RunNames(s, e + 1)
  {
    var d := Detach(s, e, attr.key);
    DetachKeepsRun(s, e, attr, d.0, d.1);
    HeadNames(d.0, d.1, attr, t, h, RunNames(s, e + 1));
  }

  lemma {:induction false} HeadNames(s: seq<Node>, e: nat, x: Node, t: seq<Node>, h: nat, ns: seq<string>)
    requires IsElement(s, e) && x.Attr? && RunNames(s, e + 1) == ns
    requires (t, h) == (Splice(s, e + 1, e + 1, [x]), e)
    ensures h + 1 <= |t| && RunNames(t, h + 1) == [x.name] + ns
  {
    InsertHead(s, e, x);
  }

  /** The attribute setAttributeNode replaces is in no run afterwards. */
  lemma {:induction false} SetAttrNodeDrops(s: seq<Node>, e: nat, attr: Node, r: Placed)
    requires UniqueKeys(s) && IsElement(s, e) && attr.Attr? && HasAttr(s, e, attr.name)
    requires s[FindAttr(s, e + 1, attr.name).value].key != attr.key
    requires r == SetAttrNode(s, e, attr)
    ensures Absent(r.chain, s[FindAttr(s, e + 1, attr.name).value].key)
  {
    var p := FindAttr(s, e + 1, attr.name).value;
    var kp := s[p].key;
    var t := RemoveAttr(s, e, attr.name);
    assert Absent(t, kp) by {
      assert t == Splice(s, p, p + 1, []);
      RemoveUniqueAbsent(s, p);
    }
    var d := Detach(t, e, attr.key);
    assert Absent(d.0, kp) by {
      var own := Locate(t, 0, attr.key);
      if own.Some? {
        assert d.0 == Splice(t, own.value, own.value + 1, []);
        RemoveKeepsAbsent(t, own.value, kp);
      }
    }
    assert r.chain == Adopt(t, e, attr).0;
    assert Adopt(t, e, attr).0 == Splice(d.0, d.1 + 1, d.1 + 1, [attr]);
    InsertKeepsAbsent(d.0, d.1 + 1, attr, kp);
  }
}
