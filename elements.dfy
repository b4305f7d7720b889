/**
  The element methods as the walks they are: each one moves a cursor along
  the chain of the document that owns the element.  The document holds the
  chain and the next free object identity; an element is named by the index
  of its Start token.
 */
module Elements {
  import opened Chain
  import opened Attributes
  import Texts
  import Clones
  import Serialize
  import Tree

  class Document {
    var chain: seq<Node>
    var nextKey: nat

    /** A well-formed chain of distinct objects, all created before nextKey. */
    ghost predicate Valid()
      reads this
    {
      Sound(chain, nextKey)
    }

    constructor (s: seq<Node>, n: nat)
      requires Sound(s, n)
      ensures Valid() && chain == s && nextKey == n
    {
      chain := s;
      nextKey := n;
    }

    // -------------------------------------------------------------------
    // The attribute run

    /** getAttributeNode(name): walk the run, stop at the first match. */
    method GetAttributeNode(e: nat, name: string) returns (r: Option<nat>)
      requires Valid() && IsElement(chain, e)
      ensures r == FindAttr(chain, e + 1, name)
    {
      EndOfElement(chain, e);
      var next := e + 1;
      while chain[next].Attr?
        invariant e + 1 <= next <= RunEnd(chain, e + 1)
        invariant forall k :: e + 1 <= k < next ==> chain[k].name != name
        decreases RunEnd(chain, e + 1) - next
      {
        if chain[next].name == name {
          return Some(next);
        }
        next := next + 1;
      }
      return None;
    }

    /** getAttributeNames(): the names of the run in order. */
    method GetAttributeNames(e: nat) returns (names: seq<string>)
      requires Valid() && IsElement(chain, e)
      ensures names == RunNames(chain, e + 1)
    {
      EndOfElement(chain, e);
      names := [];
      var next := e + 1;
      while chain[next].Attr?
        invariant e + 1 <= next <= RunEnd(chain, e + 1)
        invariant |names| == next - (e + 1)
        invariant forall k :: 0 <= k < |names| ==> names[k] == chain[e + 1 + k].name
        decreases RunEnd(chain, e + 1) - next
      {
        names := names + [chain[next].name];
        next := next + 1;
      }
    }

    /** hasAttribute(name): whether getAttributeNode found one. */
    method HasAttribute(e: nat, name: string) returns (b: bool)
      requires Valid() && IsElement(chain, e)
      ensures b == HasAttr(chain, e, name)
      ensures b <==> name in RunNames(chain, e + 1)
    {
      var found := GetAttributeNode(e, name);
      b := found.Some?;
      HasAttrIffNamed(chain, e, name);
    }

    /** hasAttributes(): whether the node after the element is an attribute. */
    method HasAttributes(e: nat) returns (b: bool)
      requires Valid() && IsElement(chain, e)
      ensures b <==> RunNames(chain, e + 1) != []
    {
      EndOfElement(chain, e);
      b := chain[e + 1].Attr?;
    }

    /** removeAttribute(name): unlink the first attribute of that name;
        afterwards the element has no attribute of that name. */
    method RemoveAttribute(e: nat, name: string)
      requires Valid() && IsElement(chain, e)
      modifies this
      ensures chain == RemoveAttr(old(chain), e, name) && nextKey == old(nextKey)
      ensures Valid() && !HasAttr(chain, e, name)
    {
      var s := chain;
      EndOfElement(s, e);
      var next := e + 1;
      while s[next].Attr? && s[next].name != name
        invariant e + 1 <= next <= RunEnd(s, e + 1)
        invariant forall k :: e + 1 <= k < next ==> s[k].name != name
        decreases RunEnd(s, e + 1) - next
      {
        next := next + 1;
      }
      RemoveAttrWalk(s, e, name, next);
      if s[next].Attr? {
        chain := Splice(s, next, next + 1, []);
      }
      assert Sound(chain, nextKey) by {
        RemoveAttrSound(s, e, name, nextKey);
      }
      assert !HasAttr(chain, e, name) by {
        RunNamesApart(s, e + 1);
        RemoveAttrGone(s, e, name);
      }
    }

    /** removeAttributeNode(attribute): unlink the run's attribute that is
        the object with identity `key`. */
    method RemoveAttributeNode(e: nat, key: nat)
      requires Valid() && IsElement(chain, e)
      modifies this
      ensures chain == RemoveNode(old(chain), e, key) && nextKey == old(nextKey)
      ensures Valid()
    {
      var s := chain;
      EndOfElement(s, e);
      var next := e + 1;
      while s[next].Attr? && s[next].key != key
        invariant e + 1 <= next <= RunEnd(s, e + 1)
        invariant forall k :: e + 1 <= k < next ==> s[k].key != key
        decreases RunEnd(s, e + 1) - next
      {
        next := next + 1;
      }
      RemoveNodeWalk(s, e, key, next);
      if s[next].Attr? {
        chain := Splice(s, next, next + 1, []);
        RemoveNodeSound(s, e, key, nextKey);
      }
    }

    /** setAttribute(name, value) for a name other than "class": assign the
        value of the attribute found, or create one and link it after the
        element. */
    method SetAttribute(e: nat, name: string, value: string)
      requires Valid() && IsElement(chain, e)
      modifies this
      ensures chain == SetAttr(old(chain), e, name, value, old(nextKey))
      ensures nextKey == old(nextKey) + (if HasAttr(old(chain), e, name) then 0 else 1)
      ensures Valid()
    {
      var s := chain;
      var n := nextKey;
      var found := GetAttributeNode(e, name);
      if found.Some? {
        var p := found.value;
        var updated := Attr(s[p].key, name, value);
        chain := s[p := updated];
        assert chain == SetAttr(s, e, name, value, n);
        UpdateAttrSound(s, p, updated, n);
      } else {
        chain := Splice(s, e + 1, e + 1, [Attr(n, name, value)]);
        nextKey := n + 1;
        assert chain == SetAttr(s, e, name, value, n);
        SetAttrSound(s, e, name, value, n);
      }
    }

    /** toggleAttribute(name, force); `force` is None when omitted.  The
        result is whether the name is present afterwards. */
    method ToggleAttribute(e: nat, name: string, force: Option<bool>) returns (b: bool)
      requires Valid() && IsElement(chain, e)
      modifies this
      ensures var t := Toggle(old(chain), e, name, force, old(nextKey));
        chain == t.chain && b == t.result
      ensures b == HasAttr(chain, e, name)
      ensures force == None ==> b == !HasAttr(old(chain), e, name)
      ensures force == Some(true) ==> b
      ensures force == Some(false) ==> !b
      ensures nextKey == old(nextKey) +
        (if !HasAttr(old(chain), e, name) && force != Some(false) then 1 else 0)
      ensures Valid()
    {
      ToggleSoundSpec(chain, e, name, force, nextKey);
      var has := HasAttribute(e, name);
      if has {
        if force != Some(true) {
          RemoveAttribute(e, name);
          return false;
        }
        return true;
      } else if force == Some(true) || force == None {
        SetAttribute(e, name, "");
        return true;
      }
      assert force.Some? && force.value != true;
      return false;
    }

    /** setAttributeNode(attr): unless attr already is the run's attribute
        of its name, unlink the previous one, take attr from its
        ownerElement and link it after this element.  Returns the previous
        attribute and where the element is afterwards. */
    method SetAttributeNode(e: nat, attr: Node) returns (previously: Option<Node>, host: nat)
      requires Valid() && IsElement(chain, e) && Holds(chain, attr) && attr.key < nextKey
      modifies this
      ensures var r := SetAttrNode(old(chain), e, attr);
        chain == r.chain && previously == r.previously && host == r.host
      ensures nextKey == old(nextKey) && Valid()
    {
      var s := chain;
      SetAttrNodeSound(s, e, attr, nextKey);
      var prev := GetAttributeNode(e, attr.name);
      previously := if prev.Some? then Some(s[prev.value]) else None;
      host := e;
      if !(prev.Some? && s[prev.value].key == attr.key) {
        if prev.Some? {
          FoundByKey(s, e, attr.name);
          RemoveAttributeNode(e, s[prev.value].key);
        }
        assert chain == RemoveAttr(s, e, attr.name);
        RemoveAttrHolds(s, e, attr.name, attr);
        RunNamesApart(s, e + 1);
        RemoveAttrGone(s, e, attr.name);
        host := AdoptAttribute(e, attr);
      }
    }

    /** The tail of setAttributeNode, once the element has no attribute of
        attr's name: the ownerElement of attr, if any, unlinks it, and attr
        is linked after this element, at the head of its run. */
    method AdoptAttribute(e: nat, attr: Node) returns (host: nat)
      requires Valid() && IsElement(chain, e) && Holds(chain, attr) && attr.key < nextKey
      requires !HasAttr(chain, e, attr.name)
      modifies this
      ensures (chain, host) == Adopt(old(chain), e, attr)
      ensures RunNames(chain, host + 1) == [attr.name] + RunNames(old(chain), e + 1)
      ensures nextKey == old(nextKey) && Valid()
    {
      var s := chain;
      var detached := Detach(s, e, attr.key);
      chain := Splice(detached.0, detached.1 + 1, detached.1 + 1, [attr]);
      host := detached.1;
      AdoptSound(s, e, attr, nextKey, chain, host);
    }

    // -------------------------------------------------------------------
    // Content

    /** The textContent getter: the data of the Text and CDATA nodes up to
        END, in order. */
    method TextContent(e: nat) returns (t: string)
      requires Valid() && IsElement(chain, e)
      ensures t == Texts.TextContent(chain, e)
    {
      EndOfElement(chain, e);
      var end := EndOf(chain, e);
      t := "";
      var next := e + 1;
      while next != end
        invariant e + 1 <= next <= end
        invariant t == Texts.TextOf(chain, e + 1, next)
        decreases end - next
      {
        if chain[next].Text? || chain[next].CData? {
          t := t + chain[next].data;
        }
        next := next + 1;
      }
    }

    /** The textContent setter: drop the children, then append one Text
        node unless the text is null or empty. */
    method SetTextContent(e: nat, text: Option<string>)
      requires Valid() && IsElement(chain, e)
      modifies this
      ensures chain == Texts.SetTextContent(old(chain), e, text) && nextKey == old(nextKey)
      ensures Valid()
    {
      Texts.SetTextContentSound(chain, e, text, nextKey);
      chain := Texts.SetTextContent(chain, e, text);
    }

    /** The innerText getter: collapsed text, and a line break before each
        block element once something has been pushed. */
    method InnerText(e: nat, blocks: set<string>) returns (t: string)
      requires Valid() && IsElement(chain, e)
      ensures t == Texts.InnerText(chain, e, blocks)
    {
      t := Texts.InnerWalk(chain, e, blocks);
    }

    /** cloneNode(deep): copy the element and, while the walk has not
        reached END and is deep or still in the attribute run, every node,
        each with a new identity.  The clone is returned detached. */
    method CloneNode(e: nat, deep: bool) returns (c: seq<Node>)
      requires Valid() && IsElement(chain, e)
      modifies this
      ensures chain == old(chain)
      ensures c == Clones.Clone(chain, e, deep, old(nextKey))
      ensures nextKey == old(nextKey) + Clones.KeyCount(chain, e, Clones.CloneStop(chain, e, deep))
      ensures Valid() && Tree.DetachedElement(c, old(nextKey), nextKey)
    {
      var s := chain;
      var n := nextKey;
      var key;
      c, key := Clones.CloneWalk(s, e, deep, n);
      nextKey := key;
      Clones.CloneDetached(s, e, deep, n);
    }

    /** toString(): one pass from the element to its END; a nested element
        whose class has its own toString contributes that and the walk
        jumps to its END. */
    method ToString(e: nat, R: Serialize.Renderer) returns (out: string)
      requires Valid() && IsElement(chain, e)
      ensures out == Serialize.Render(chain, e, R)
    {
      var s := chain;
      EndOfElement(s, e);
      var end := EndOf(s, e);
      out := "";
      var next := e;
      var isOpened := false;
      while true
        invariant e <= next <= end
        invariant out + Serialize.Tail(s, e, next, isOpened, R) == Serialize.Render(s, e, R)
        decreases end - next
      {
        var x := s[next];
        if next == end {
          Serialize.TailAtEnd(s, e, isOpened, R);
          out := out + Serialize.EndPiece(s, next, isOpened, R);
          break;
        }
        ghost var st := Serialize.Step(s, e, next, isOpened, R);
        Serialize.PushStep(out, s, e, next, isOpened, R);
        var piece: string;
        var cursor := next;
        if x.Attr? {
          piece := Serialize.AttrPiece(x, R);
        } else if x.End? {
          piece := Serialize.EndPiece(s, next, isOpened, R);
          isOpened := false;
        } else if x.Start? {
          var gt := if isOpened then ">" else "";
          if next != e && R.differs(x) {
            piece := gt + R.own(s, next);
            cursor := EndOf(s, next);
            isOpened := false;
          } else {
            piece := gt + "<" + x.name;
            isOpened := true;
          }
        } else {
          piece := (if isOpened then ">" else "") + R.data(x);
          isOpened := false;
        }
        assert piece == st.piece && cursor == st.last && isOpened == st.isOpened;
        out := out + piece;
        next := cursor + 1;
      }
    }

    // -------------------------------------------------------------------
    // Around the element

    /** closest(selectors): follow parentElement from the element until the
        prepared matcher accepts one, or there is no parent. */
    method Closest(e: nat, matches: nat -> bool) returns (r: Option<nat>)
      requires Valid() && IsElement(chain, e)
      ensures r == Tree.Closest(chain, e, matches)
    {
      r := Some(e);
      while r.Some? && !matches(r.value)
        invariant r.Some? ==> r.value < |chain| && Tree.Closest(chain, r.value, matches) == Tree.Closest(chain, e, matches)
        invariant r.None? ==> Tree.Closest(chain, e, matches) == None
        decreases if r.Some? then r.value + 1 else 0
      {
        r := ParentOf(chain, r.value);
      }
    }

    /** insertAdjacentElement(position, element) for a detached element m
        whose objects were created in [nextKey, n'); returns whether the
        element (rather than null) is returned. */
    method InsertAdjacentElement(e: nat, position: string, m: seq<Node>, n': nat) returns (returned: bool)
      requires Valid() && IsElement(chain, e) && Tree.DetachedElement(m, nextKey, n')
      modifies this
      ensures var r := Tree.InsertAdjacent(old(chain), e, position, m);
        chain == r.chain && returned == r.returned
      ensures nextKey == n' && Valid()
    {
      var s := chain;
      Tree.InsertAdjacentSound(s, e, position, m, nextKey, n');
      EndOfElement(s, e);
      var parent := ParentOf(s, e);
      var r := s;
      returned := true;
      if position == "beforebegin" {
        if parent.None? {
          returned := false;
        } else {
          r := Splice(s, e, e, m);
        }
      } else if position == "afterbegin" {
        var firstChild := RunEnd(s, e + 1);
        r := Splice(s, firstChild, firstChild, m);
      } else if position == "beforeend" {
        var end := EndOf(s, e);
        r := Splice(s, end, end, m);
      } else if position == "afterend" {
        if parent.None? {
          returned := false;
        } else {
          var nextSibling := EndOf(s, e) + 1;
          r := Splice(s, nextSibling, nextSibling, m);
        }
      }
      assert Tree.InsertAdjacent(s, e, position, m) == Tree.Adjacent(r, returned);
      chain := r;
      nextKey := n';
    }
  }
}
