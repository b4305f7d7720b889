/**
  Shadow roots: a side table from host element to the root attached to it
  and the mode it was attached with.  attachShadow fills the table once per
  host; the shadowRoot getter shows the root only for the "open" mode.
  An element is named by its identity (the key of its Start token).
 */
module Shadows {
  import opened Chain

  /** The root object attachShadow creates, remembering its host. */
  class ShadowRoot {
    const host: nat

    constructor (host: nat)
      ensures this.host == host
    {
      this.host := host;
    }
  }

  /** What the table holds for a host. */
  datatype Entry = Entry(mode: string, shadowRoot: ShadowRoot)

  /** The shadowRoot getter over the table: the root when the host has one
      attached in "open" mode, null otherwise. */
  function ShadowRootOf(t: map<nat, Entry>, host: nat): (r: Option<ShadowRoot>)
    ensures r.Some? <==> host in t && t[host].mode == "open"
    ensures r.Some? ==> r.value == t[host].shadowRoot
  {
    if host in t && t[host].mode == "open" then Some(t[host].shadowRoot) else None
  }

  /** attachShadow on the table: refused when the host already has a root,
      otherwise the host's entry is added and nothing else changes. */
  function Attach(t: map<nat, Entry>, host: nat, mode: string, root: ShadowRoot): (r: Option<map<nat, Entry>>)
    ensures r.None? <==> host in t
    ensures r.Some? ==> host in r.value && r.value[host] == Entry(mode, root)
    ensures r.Some? ==> r.value.Keys == t.Keys + {host} && forall h :: h in t ==> r.value[h] == t[h]
  {
    if host in t then None else Some(t[host := Entry(mode, root)])
  }

  /** After a successful attach the getter shows the new root exactly when
      the mode is "open", and every other host reads as before. */
  lemma AttachThenGet(t: map<nat, Entry>, host: nat, mode: string, root: ShadowRoot, other: nat)
    requires host !in t
    ensures var u := Attach(t, host, mode, root).value;
      ShadowRootOf(u, host) == (if mode == "open" then Some(root) else None) &&
      (other != host ==> ShadowRootOf(u, other) == ShadowRootOf(t, other))
  {
  }

  /** A host gets at most one root: a second attach is refused, whatever
      its mode. */
  lemma AttachOnce(t: map<nat, Entry>, host: nat, mode: string, mode': string, root: ShadowRoot, root': ShadowRoot)
    requires host !in t
    ensures Attach(Attach(t, host, mode, root).value, host, mode', root').None?
  {
  }

  /** The shared table of all the document's shadow roots. */
  class ShadowRoots {
    var table: map<nat, Entry>

    /** Distinct hosts have distinct roots, each remembering its host. */
    ghost predicate Valid()
      reads this, set h | h in table :: table[h].shadowRoot
    {
      (forall h :: h in table ==> table[h].shadowRoot.host == h) &&
      forall a, b :: a in table && b in table && a != b ==> table[a].shadowRoot != table[b].shadowRoot
    }

    constructor ()
      ensures table == map[] && Valid()
    {
      table := map[];
    }

    /** attachShadow(init): "operation not supported" when the host has a
        root already; otherwise a new root for the host, recorded with
        init.mode and returned. */
    method AttachShadow(host: nat, mode: string) returns (r: Option<ShadowRoot>)
      requires Valid()
      modifies this
      ensures r.None? <==> host in old(table)
      ensures r.None? ==> table == old(table)
      ensures r.Some? ==>
        fresh(r.value) && r.value.host == host && Attach(old(table), host, mode, r.value) == Some(table)
      ensures Valid()
    {
      if host in table {
        return None;
      }
      var root := new ShadowRoot(host);
      table := table[host := Entry(mode, root)];
      return Some(root);
    }
  }
}
