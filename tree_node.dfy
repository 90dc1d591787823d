/**
 * The navigation tree of inc/tree_node.hpp as an arena.
 *
 * A `TreeNode*` becomes a `Handle` into a map holding one `Node` record per
 * live node; freeing a node removes its record. Handles are handed out in
 * increasing order and never reused, so a child's handle is always larger
 * than its parent's. The opaque `void*` payload is the type parameter `D`
 * and the two function-pointer callbacks are names of type `C`; invoking a
 * callback appears as an `Event` appended to the arena's trace.
 */
module TreeNode {
  import opened Wrappers

  type Handle = nat

  datatype Node<D, C> = Node(
    parent: Option<Handle>,
    children: seq<Handle>,
    data: Option<D>,
    onFocus: Option<C>,
    onDestroy: Option<C>)

  type Arena<D, C> = map<Handle, Node<D, C>>

  datatype Event<D, C> =
    | Focused(node: Handle, callback: C)
    | Destroyed(node: Handle, callback: C, data: Option<D>)

  /** The node record a constructor builds: no children, no callbacks. */
  function Fresh<D, C>(parent: Option<Handle>, data: Option<D>): Node<D, C>
  {
    Node(parent, [], data, None, None)
  }

  ghost predicate NoDup(s: seq<Handle>)
  {
    forall i, j | 0 <= i < j < |s| :: s[i] != s[j]
  }

  /** Index of the first occurrence of `x` in `s`; `|s|` when there is none. */
  function IndexOf(s: seq<Handle>, x: Handle): (i: nat)
    ensures i <= |s|
    ensures i < |s| ==> s[i] == x
    ensures forall j | 0 <= j < i :: s[j] != x
  {
    if s == [] then 0
    else if s[0] == x then 0
    else 1 + IndexOf(s[1..], x)
  }

  /** `s` with its first occurrence of `x` erased (the `erase` in the child loops). */
  function RemoveFirst(s: seq<Handle>, x: Handle): (r: seq<Handle>)
    ensures multiset(r) == multiset(s) - multiset{x}
    ensures x !in s ==> r == s
    ensures NoDup(s) ==> NoDup(r) && x !in r
  {
    var i := IndexOf(s, x);
    if i == |s| then s
    else
      EraseAt(s, i);
      s[..i] + s[i + 1..]
  }

  lemma {:induction false} EraseAt(s: seq<Handle>, i: nat)
    requires i < |s|
    ensures multiset(s[..i] + s[i + 1..]) == multiset(s) - multiset{s[i]}
    ensures NoDup(s) ==> NoDup(s[..i] + s[i + 1..]) && s[i] !in s[..i] + s[i + 1..]
  {
    calc {
      multiset(s);
      { assert s == s[..i] + ([s[i]] + s[i + 1..]); }
      multiset(s[..i]) + multiset{s[i]} + multiset(s[i + 1..]);
    }
    if NoDup(s) { EraseAtNoDup(s, i); }
  }

  lemma {:induction false} EraseAtNoDup(s: seq<Handle>, i: nat)
    requires i < |s| && NoDup(s)
    ensures NoDup(s[..i] + s[i + 1..]) && s[i] !in s[..i] + s[i + 1..]
  {
    var r := s[..i] + s[i + 1..];
    forall k | 0 <= k < |r|
      ensures r[k] == s[if k < i then k else k + 1]
    {
    }
  }

  /** Erasing the first occurrence of `x` keeps the other entries in their order: those before it in place, those after it one step earlier. */
  lemma RemoveFirstKeepsOrder(s: seq<Handle>, x: Handle)
    requires x in s
    ensures var r := RemoveFirst(s, x); var i := IndexOf(s, x);
      i < |s| && |r| == |s| - 1 &&
      forall k | 0 <= k < |r| :: r[k] == (if k < i then s[k] else s[k + 1])
  {
  }

  /*
   * The structural invariant of a forest.
   *  - every live handle is below the next handle to be issued;
   *  - a parent pointer names a smaller handle (so there are no cycles);
   *  - every listed child is live and points back to the node that lists it;
   *  - no child list repeats an entry.
   * A parent pointer need not be matched by a child-list entry:
   * `RemoveChild(size_t)` leaves such orphans behind.
   */
  ghost predicate ValidArena<D, C>(m: Arena<D, C>, next: Handle)
  {
    && (forall h | h in m :: h < next)
    && (forall h | h in m && m[h].parent.Some? :: m[h].parent.value < h)
    && (forall h, i | h in m && 0 <= i < |m[h].children| ::
          m[h].children[i] in m && m[m[h].children[i]].parent == Some(h))
    && (forall h | h in m :: NoDup(m[h].children))
  }

  /** Every parent pointer names a live node that lists the child (no orphans). */
  ghost predicate LinkedArena<D, C>(m: Arena<D, C>)
  {
    forall h | h in m && m[h].parent.Some? ::
      m[h].parent.value in m && h in m[m[h].parent.value].children
  }

  /** No live node lists `c` as a child. */
  ghost predicate Unlisted<D, C>(m: Arena<D, C>, c: Handle)
  {
    forall k, i | k in m && 0 <= i < |m[k].children| :: m[k].children[i] != c
  }

  /**
   * `HalfRemoveChild` run on node `p` for `c`: at the first entry equal to `c`,
   * clear `c`'s parent pointer and erase the entry; nothing if there is none.
   */
  function Unlink<D, C>(m: Arena<D, C>, p: Handle, c: Handle): (r: Arena<D, C>)
    ensures r.Keys == m.Keys
    ensures forall k | k in m && k != p && k != c :: r[k] == m[k]
    ensures p in m && c != p ==>
      r[p] == if c in m[p].children then m[p].(children := RemoveFirst(m[p].children, c)) else m[p]
    ensures c in m && c != p ==>
      r[c] == if p in m && c in m[p].children then m[c].(parent := None) else m[c]
  {
    if p !in m || c !in m[p].children then m
    else if c == p then m[p := m[p].(parent := None, children := RemoveFirst(m[p].children, c))]
    else if c in m then m[c := m[c].(parent := None)][p := m[p].(children := RemoveFirst(m[p].children, c))]
    else m[p := m[p].(children := RemoveFirst(m[p].children, c))]
  }

  /** `Unlink` when the first entry equal to `c` is at index `i`. */
  lemma {:induction false} UnlinkAt<D, C>(m: Arena<D, C>, p: Handle, c: Handle, i: nat)
    requires p in m && i < |m[p].children| && m[p].children[i] == c
    requires forall j | 0 <= j < i :: m[p].children[j] != c
    ensures var m1 := if c in m then m[c := m[c].(parent := None)] else m;
      Unlink(m, p, c) == m1[p := m1[p].(children := m1[p].children[..i] + m1[p].children[i + 1..])]
  {
    assert IndexOf(m[p].children, c) == i;
  }

  /** The first step of the destructor: take `h` out of its parent's list, if the parent is live. */
  function Detach<D, C>(m: Arena<D, C>, h: Handle): (r: Arena<D, C>)
    ensures r.Keys == m.Keys
  {
    if h in m && m[h].parent.Some? then Unlink(m, m[h].parent.value, h) else m
  }

  /** The destroy callback invocation for node `h` with record `n`, if it has one. */
  function DestroyCall<D, C>(h: Handle, n: Node<D, C>): (ev: seq<Event<D, C>>)
    ensures |ev| <= 1 && (ev != [] <==> n.onDestroy.Some?)
    ensures ev != [] ==> ev[0].Destroyed? && ev[0].node == h && Some(ev[0].callback) == n.onDestroy && ev[0].data == n.data
  {
    if n.onDestroy.Some? then [Destroyed(h, n.onDestroy.value, n.data)] else []
  }

  lemma {:induction false} SubsetCard<D, C>(small: Arena<D, C>, big: Arena<D, C>)
    requires small.Keys <= big.Keys
    ensures |small| <= |big|
  {
    assert big.Keys == small.Keys + (big.Keys - small.Keys);
  }

  /**
   * `delete h`: the destructor of inc/tree_node.hpp. It detaches `h` from its
   * parent, then for each child in list order clears the child's parent pointer
   * and deletes it, then invokes `h`'s destroy callback on its payload.
   * The result is the arena afterwards and the callbacks invoked, in order.
   * (`h` is freed before its children are torn down; nothing observes the
   * difference, and it gives the recursion its measure.)
   */
  function Teardown<D, C>(m: Arena<D, C>, h: Handle): (r: (Arena<D, C>, seq<Event<D, C>>))
    ensures r.0.Keys <= m.Keys && |r.0| <= |m|
    ensures h !in r.0
    decreases |m|, 0
  {
    if h !in m then (m, [])
    else
      var m1: Arena<D, C> := Detach(m, h);
      var n := m1[h];
      var rest := TeardownAll(m1 - {h}, n.children);
      SubsetCard(rest.0, m);
      (rest.0, rest.1 + DestroyCall(h, n))
  }

  /** The child loop of the destructor over `cs`, first entry first. */
  function TeardownAll<D, C>(m: Arena<D, C>, cs: seq<Handle>): (r: (Arena<D, C>, seq<Event<D, C>>))
    ensures r.0.Keys <= m.Keys && |r.0| <= |m|
    decreases |m|, 1, |cs|
  {
    if cs == [] then (m, [])
    else
      var front := TeardownAll(m, cs[..|cs| - 1]);
      var c := cs[|cs| - 1];
      if c in front.0 then
        var back := Teardown(front.0[c := front.0[c].(parent := None)], c);
        (back.0, front.1 + back.1)
      else front
  }

  /* ---- What tearing down leaves untouched ---- */

  /** The nodes that survive `Teardown(m, h)` keep the records they had after the detach step. */
  lemma {:induction false} TeardownFrame<D, C>(m: Arena<D, C>, h: Handle)
    ensures forall k | k in Teardown(m, h).0 :: Teardown(m, h).0[k] == Detach(m, h)[k]
    decreases |m|, 0
  {
    if h in m {
      var m1: Arena<D, C> := Detach(m, h);
      TeardownAllFrame(m1 - {h}, m1[h].children);
    }
  }

  /** The nodes that survive the child loop keep their records. */
  lemma {:induction false} TeardownAllFrame<D, C>(m: Arena<D, C>, cs: seq<Handle>)
    ensures forall k | k in TeardownAll(m, cs).0 :: TeardownAll(m, cs).0[k] == m[k]
    decreases |m|, 1, |cs|
  {
    if cs != [] {
      TeardownAllFrame(m, cs[..|cs| - 1]);
      var front := TeardownAll(m, cs[..|cs| - 1]);
      var c := cs[|cs| - 1];
      if c in front.0 {
        var m2 := front.0[c := front.0[c].(parent := None)];
        TeardownFrame(m2, c);
        assert Detach(m2, c) == m2;
      }
    }
  }

  /* ---- Tearing down keeps the forest well formed ---- */

  lemma {:induction false} InRemoveFirst(s: seq<Handle>, x: Handle, y: Handle)
    requires y in RemoveFirst(s, x)
    ensures y in s
  {
    assert y in multiset(RemoveFirst(s, x));
  }

  /**
   * After the detach step and freeing `h`, the forest is well formed again,
   * `h`'s child list is as it was, and no live node lists any of `h`'s children.
   */
  lemma {:induction false} DetachValid<D, C>(m: Arena<D, C>, next: Handle, h: Handle)
    requires ValidArena(m, next) && h in m
    ensures ValidArena(Detach(m, h) - {h}, next)
    ensures Detach(m, h)[h].children == m[h].children
    ensures forall i | 0 <= i < |m[h].children| :: Unlisted(Detach(m, h) - {h}, m[h].children[i])
  {
    var m1: Arena<D, C> := Detach(m, h);
    var r := m1 - {h};
    forall k, i | k in r && 0 <= i < |r[k].children|
      ensures r[k].children[i] in m[k].children
    {
      if k in m && m[h].parent == Some(k) {
        InRemoveFirst(m[k].children, h, r[k].children[i]);
      }
    }
    forall k, i | k in r && 0 <= i < |r[k].children|
      ensures r[k].children[i] != h
    {
      var x := r[k].children[i];
      var j :| 0 <= j < |m[k].children| && m[k].children[j] == x;
      assert m[x].parent == Some(k);
    }
    forall k, i | k in r && 0 <= i < |r[k].children|
      ensures r[k].children[i] in r && r[r[k].children[i]].parent == Some(k)
    {
      var x := r[k].children[i];
      assert x in m[k].children;
      var j :| 0 <= j < |m[k].children| && m[k].children[j] == x;
      assert m[x].parent == Some(k);
    }
    forall i | 0 <= i < |m[h].children|
      ensures Unlisted(r, m[h].children[i])
    {
      var c := m[h].children[i];
      forall k, j | k in r && 0 <= j < |r[k].children| ensures r[k].children[j] != c {
        var x := r[k].children[j];
        var j' :| 0 <= j' < |m[k].children| && m[k].children[j'] == x;
        assert m[x].parent == Some(k);
      }
    }
  }

  /** A node that nobody lists stays unlisted in an arena whose records are a subset of the old ones. */
  lemma {:induction false} UnlistedShrinks<D, C>(m: Arena<D, C>, sub: Arena<D, C>, c: Handle)
    requires Unlisted(m, c)
    requires sub.Keys <= m.Keys && forall k | k in sub :: sub[k] == m[k]
    ensures Unlisted(sub, c)
  {
  }

  /** Clearing the parent pointer of a node that nobody lists keeps the forest well formed. */
  lemma {:induction false} ClearParentValid<D, C>(m: Arena<D, C>, next: Handle, c: Handle)
    requires ValidArena(m, next) && c in m && Unlisted(m, c)
    ensures ValidArena(m[c := m[c].(parent := None)], next)
  {
  }

  /** Tearing down any node keeps the forest well formed. */
  lemma {:induction false} TeardownValid<D, C>(m: Arena<D, C>, next: Handle, h: Handle)
    requires ValidArena(m, next)
    ensures ValidArena(Teardown(m, h).0, next)
    decreases |m|, 0
  {
    if h in m {
      DetachValid(m, next, h);
      var m1: Arena<D, C> := Detach(m, h);
      TeardownAllValid(m1 - {h}, next, m1[h].children);
    }
  }

  /** The child loop keeps the forest well formed when no live node lists the children. */
  lemma {:induction false} TeardownAllValid<D, C>(m: Arena<D, C>, next: Handle, cs: seq<Handle>)
    requires ValidArena(m, next)
    requires forall i | 0 <= i < |cs| :: Unlisted(m, cs[i])
    ensures ValidArena(TeardownAll(m, cs).0, next)
    decreases |m|, 1, |cs|
  {
    if cs != [] {
      var pre := cs[..|cs| - 1];
      TeardownAllValid(m, next, pre);
      TeardownAllFrame(m, pre);
      var front := TeardownAll(m, pre);
      var c := cs[|cs| - 1];
      if c in front.0 {
        UnlistedShrinks(m, front.0, c);
        ClearParentValid(front.0, next, c);
        TeardownValid(front.0[c := front.0[c].(parent := None)], next, c);
      }
    }
  }

  /* ---- Tearing down frees exactly the subtree ---- */

  /** `freed` contains every child that a node of `freed` lists in `m`. */
  ghost predicate ClosedUnderChildren<D, C>(m: Arena<D, C>, freed: set<Handle>)
    requires freed <= m.Keys
  {
    forall k, i | k in freed && 0 <= i < |m[k].children| :: m[k].children[i] in freed
  }

  /** Every node of `freed` that is not one of `roots` has its parent in `freed`. */
  ghost predicate ParentsFreed<D, C>(m: Arena<D, C>, freed: set<Handle>, roots: seq<Handle>)
    requires freed <= m.Keys
  {
    forall x | x in freed && x !in roots :: m[x].parent.Some? && m[x].parent.value in freed
  }

  ghost predicate AtLeast(s: set<Handle>, bound: Handle)
  {
    forall x | x in s :: x >= bound
  }

  /**
   * Tearing down `h` frees exactly the subtree below `h`: the freed set holds
   * `h` and every child of every freed node, and each freed node other than
   * `h` has a freed parent. Every freed handle is at least `h`.
   */
  lemma {:induction false} TeardownSubtree<D, C>(m: Arena<D, C>, next: Handle, h: Handle)
    requires ValidArena(m, next) && h in m
    ensures var freed := m.Keys - Teardown(m, h).0.Keys;
      && h in freed
      && ClosedUnderChildren(m, freed)
      && ParentsFreed(m, freed, [h])
      && AtLeast(freed, h)
    decreases |m|, 0
  {
    DetachValid(m, next, h);
    var m1: Arena<D, C> := Detach(m, h);
    var r := m1 - {h};
    var cs: seq<Handle> := m[h].children;
    ChildrenOf(m, next, h);
    TeardownAllSubtree(r, next, cs, h + 1);
    var after := TeardownAll(r, cs).0;
    assert Teardown(m, h).0 == after;
    DetachDeep(m, next, h);
    SubtreeStep(m, r, after, h);
  }

  /** The children of a node have larger handles and point back to it. */
  lemma {:induction false} ChildrenOf<D, C>(m: Arena<D, C>, next: Handle, h: Handle)
    requires ValidArena(m, next) && h in m
    ensures forall i | 0 <= i < |m[h].children| ::
      m[h].children[i] in m && m[m[h].children[i]].parent == Some(h) && m[h].children[i] >= h + 1
  {
    forall i | 0 <= i < |m[h].children|
      ensures m[h].children[i] in m && m[m[h].children[i]].parent == Some(h) && m[h].children[i] >= h + 1
    {
      assert m[m[h].children[i]].parent == Some(h);
    }
  }

  /** Detaching `h` leaves every node with a larger handle as it was. */
  lemma {:induction false} DetachDeep<D, C>(m: Arena<D, C>, next: Handle, h: Handle)
    requires ValidArena(m, next) && h in m
    ensures forall k | k in m && k > h :: Detach(m, h)[k] == m[k]
  {
  }

  /** One level of the subtree argument, stated over the arenas alone. */
  lemma {:induction false} SubtreeStep<D, C>(m: Arena<D, C>, r: Arena<D, C>, after: Arena<D, C>, h: Handle)
    requires h in m && r.Keys == m.Keys - {h} && after.Keys <= r.Keys
    requires forall k | k in r && k > h :: r[k] == m[k]
    requires forall i | 0 <= i < |m[h].children| ::
      m[h].children[i] in m && m[m[h].children[i]].parent == Some(h)
    requires forall i | 0 <= i < |m[h].children| :: m[h].children[i] !in after
    requires ClosedUnderChildren(r, r.Keys - after.Keys)
    requires ParentsFreed(r, r.Keys - after.Keys, m[h].children)
    requires AtLeast(r.Keys - after.Keys, h + 1)
    ensures var freed := m.Keys - after.Keys;
      && h in freed
      && ClosedUnderChildren(m, freed)
      && ParentsFreed(m, freed, [h])
      && AtLeast(freed, h)
  {
    var cs := m[h].children;
    var inner := r.Keys - after.Keys;
    var freed := m.Keys - after.Keys;
    assert freed == inner + {h};
    forall k, i | k in freed && 0 <= i < |m[k].children|
      ensures m[k].children[i] in freed
    {
      if k != h {
        assert k in inner;
      }
    }
    forall x | x in freed && x !in [h]
      ensures m[x].parent.Some? && m[x].parent.value in freed
    {
      assert x in inner;
      if x in cs {
        var i :| 0 <= i < |cs| && cs[i] == x;
      }
    }
  }

  /**
   * The child loop over `cs`, none of which any live node lists, frees every
   * entry of `cs` and a set closed under children in which every node outside
   * `cs` has a freed parent.
   */
  lemma {:induction false} TeardownAllSubtree<D, C>(m: Arena<D, C>, next: Handle, cs: seq<Handle>, bound: Handle)
    requires ValidArena(m, next)
    requires forall i | 0 <= i < |cs| :: Unlisted(m, cs[i]) && cs[i] >= bound
    ensures var freed := m.Keys - TeardownAll(m, cs).0.Keys;
      && (forall i | 0 <= i < |cs| :: cs[i] !in TeardownAll(m, cs).0)
      && ClosedUnderChildren(m, freed)
      && ParentsFreed(m, freed, cs)
      && AtLeast(freed, bound)
    decreases |m|, 1, |cs|
  {
    if cs != [] {
      var pre := cs[..|cs| - 1];
      TeardownAllSubtree(m, next, pre, bound);
      TeardownAllFrame(m, pre);
      TeardownAllValid(m, next, pre);
      var front := TeardownAll(m, pre);
      var c := cs[|cs| - 1];
      if c in front.0 {
        UnlistedShrinks(m, front.0, c);
        ClearParentValid(front.0, next, c);
        var m2 := front.0[c := front.0[c].(parent := None)];
        TeardownSubtree(m2, next, c);
        var back := Teardown(m2, c);
        assert TeardownAll(m, cs).0 == back.0;
        forall i | 0 <= i < |cs| - 1 ensures cs[i] !in front.0 {
          assert cs[i] == pre[i];
        }
        LoopStep(m, front.0, m2, back.0, cs, bound);
      } else {
        assert TeardownAll(m, cs) == front;
        forall i | 0 <= i < |cs| ensures cs[i] !in front.0 {
          if i < |cs| - 1 { assert cs[i] == pre[i]; }
        }
        forall x | x in pre ensures x in cs { }
      }
    }
  }

  /** One iteration of the child loop in the subtree argument, stated over the arenas alone. */
  lemma {:induction false} LoopStep<D, C>(m: Arena<D, C>, front: Arena<D, C>, m2: Arena<D, C>, back: Arena<D, C>,
                                          cs: seq<Handle>, bound: Handle)
    requires cs != [] && cs[|cs| - 1] in front
    requires front.Keys <= m.Keys && forall k | k in front :: front[k] == m[k]
    requires m2 == front[cs[|cs| - 1] := front[cs[|cs| - 1]].(parent := None)]
    requires back.Keys <= m2.Keys
    requires cs[|cs| - 1] >= bound
    requires forall i | 0 <= i < |cs| - 1 :: cs[i] !in front
    requires ClosedUnderChildren(m, m.Keys - front.Keys)
    requires ParentsFreed(m, m.Keys - front.Keys, cs[..|cs| - 1])
    requires AtLeast(m.Keys - front.Keys, bound)
    requires cs[|cs| - 1] !in back
    requires ClosedUnderChildren(m2, m2.Keys - back.Keys)
    requires ParentsFreed(m2, m2.Keys - back.Keys, [cs[|cs| - 1]])
    requires AtLeast(m2.Keys - back.Keys, cs[|cs| - 1])
    ensures var freed := m.Keys - back.Keys;
      && (forall i | 0 <= i < |cs| :: cs[i] !in back)
      && ClosedUnderChildren(m, freed)
      && ParentsFreed(m, freed, cs)
      && AtLeast(freed, bound)
  {
    var c := cs[|cs| - 1];
    var freed1 := m.Keys - front.Keys;
    var freed2 := m2.Keys - back.Keys;
    var freed := m.Keys - back.Keys;
    assert freed == freed1 + freed2;
    forall i | 0 <= i < |cs| ensures cs[i] !in back {
      if i < |cs| - 1 { assert cs[i] !in front; }
    }
    forall k, i | k in freed && 0 <= i < |m[k].children|
      ensures m[k].children[i] in freed
    {
      if k in freed2 { assert m2[k].children == m[k].children; }
    }
    forall x | x in freed && x !in cs
      ensures m[x].parent.Some? && m[x].parent.value in freed
    {
      if x in freed1 {
        assert x !in cs[..|cs| - 1];
      } else {
        assert x != c && m2[x].parent == m[x].parent;
      }
    }
  }

  /* ---- The destroy callbacks: once each, children before parents ---- */

  /** The nodes the events of `ev` are about. */
  ghost function EventNodes<D, C>(ev: seq<Event<D, C>>): set<Handle>
  {
    set i | 0 <= i < |ev| :: ev[i].node
  }

  /**
   * `ev` is what deleting the nodes `freed` of `m` must invoke: a destroy
   * callback for each freed node that has one, on that node's own payload,
   * each node once, and a node's callback only after those of its children.
   */
  ghost predicate DestroyOrder<D, C>(m: Arena<D, C>, ev: seq<Event<D, C>>, freed: set<Handle>)
    requires freed <= m.Keys
  {
    && (forall i | 0 <= i < |ev| ::
          && ev[i].Destroyed? && ev[i].node in freed
          && m[ev[i].node].onDestroy == Some(ev[i].callback)
          && ev[i].data == m[ev[i].node].data)
    && (forall i, j | 0 <= i < j < |ev| :: ev[i].node != ev[j].node)
    && (forall k | k in freed && m[k].onDestroy.Some? :: k in EventNodes(ev))
    && (forall i, j | 0 <= i < |ev| && 0 <= j < |ev| && m[ev[i].node].parent == Some(ev[j].node) :: i < j)
  }

  /** Detaching changes pointers only: every record keeps its payload and callbacks. */
  lemma {:induction false} DetachPayload<D, C>(m: Arena<D, C>, h: Handle)
    ensures forall k | k in m ::
      Detach(m, h)[k].data == m[k].data && Detach(m, h)[k].onDestroy == m[k].onDestroy
  {
  }

  /**
   * Deleting `h` invokes the destroy callbacks of exactly the freed nodes that
   * have one, once each, on their own payloads, every child's before its parent's.
   */
  lemma {:induction false} TeardownEvents<D, C>(m: Arena<D, C>, next: Handle, h: Handle)
    requires ValidArena(m, next) && h in m
    ensures DestroyOrder(m, Teardown(m, h).1, m.Keys - Teardown(m, h).0.Keys)
    decreases |m|, 0
  {
    DetachValid(m, next, h);
    DetachPayload(m, h);
    DetachDeep(m, next, h);
    ChildrenOf(m, next, h);
    var m1: Arena<D, C> := Detach(m, h);
    var r := m1 - {h};
    var cs: seq<Handle> := m[h].children;
    forall i | 0 <= i < |cs| && cs[i] in r && r[cs[i]].parent.Some?
      ensures r[cs[i]].parent.value !in r
    {
      assert r[cs[i]] == m[cs[i]];
    }
    TeardownAllSubtree(r, next, cs, h + 1);
    TeardownAllEvents(r, next, cs);
    var rest := TeardownAll(r, cs);
    assert Teardown(m, h) == (rest.0, rest.1 + DestroyCall(h, m1[h]));
    EventsStep(m, r, rest.0, rest.1, m1[h], h);
  }

  /** The child loop over unlisted nodes whose parents are gone invokes the callbacks in destroy order. */
  lemma {:induction false} TeardownAllEvents<D, C>(m: Arena<D, C>, next: Handle, cs: seq<Handle>)
    requires ValidArena(m, next)
    requires forall i | 0 <= i < |cs| :: Unlisted(m, cs[i])
    requires forall i | 0 <= i < |cs| && cs[i] in m && m[cs[i]].parent.Some? :: m[cs[i]].parent.value !in m
    ensures DestroyOrder(m, TeardownAll(m, cs).1, m.Keys - TeardownAll(m, cs).0.Keys)
    decreases |m|, 1, |cs|
  {
    if cs != [] {
      var pre := cs[..|cs| - 1];
      TeardownAllEvents(m, next, pre);
      TeardownAllFrame(m, pre);
      TeardownAllValid(m, next, pre);
      var front := TeardownAll(m, pre);
      var c := cs[|cs| - 1];
      if c in front.0 {
        UnlistedShrinks(m, front.0, c);
        ClearParentValid(front.0, next, c);
        var m2 := front.0[c := front.0[c].(parent := None)];
        TeardownEvents(m2, next, c);
        TeardownSubtree(m2, next, c);
        var back := Teardown(m2, c);
        assert TeardownAll(m, cs) == (back.0, front.1 + back.1);
        EventsLoopStep(m, front.0, m2, back.0, front.1, back.1, c);
      } else {
        assert TeardownAll(m, cs) == front;
        assert m.Keys - TeardownAll(m, cs).0.Keys == m.Keys - front.0.Keys;
      }
    }
  }

  /** One level of the callback-order argument, stated over arenas and event sequences alone. */
  lemma {:induction false} EventsStep<D, C>(m: Arena<D, C>, r: Arena<D, C>, after: Arena<D, C>,
                                            rest: seq<Event<D, C>>, n: Node<D, C>, h: Handle)
    requires h in m && r.Keys == m.Keys - {h} && after.Keys <= r.Keys
    requires forall k | k in r && k > h :: r[k] == m[k]
    requires n.onDestroy == m[h].onDestroy && n.data == m[h].data
    requires m[h].parent.Some? ==> m[h].parent.value < h
    requires AtLeast(r.Keys - after.Keys, h + 1)
    requires DestroyOrder(r, rest, r.Keys - after.Keys)
    ensures DestroyOrder(m, rest + DestroyCall(h, n), m.Keys - after.Keys)
  {
    var inner := r.Keys - after.Keys;
    var freed := m.Keys - after.Keys;
    assert freed == inner + {h};
    var ev := rest + DestroyCall(h, n);
    forall i | 0 <= i < |ev|
      ensures && ev[i].Destroyed? && ev[i].node in freed
              && m[ev[i].node].onDestroy == Some(ev[i].callback)
              && ev[i].data == m[ev[i].node].data
    {
      if i < |rest| { assert ev[i] == rest[i]; }
    }
    forall i, j | 0 <= i < j < |ev| ensures ev[i].node != ev[j].node {
      assert ev[i] == rest[i];
      if j < |rest| { assert ev[j] == rest[j]; }
    }
    forall k | k in freed && m[k].onDestroy.Some? ensures k in EventNodes(ev) {
      if k == h {
        assert ev[|ev| - 1].node == h;
      } else {
        assert k in inner && r[k] == m[k];
        assert k in EventNodes(rest);
        var i :| 0 <= i < |rest| && rest[i].node == k;
        assert ev[i] == rest[i];
      }
    }
    forall i, j | 0 <= i < |ev| && 0 <= j < |ev| && m[ev[i].node].parent == Some(ev[j].node)
      ensures i < j
    {
      if i < |rest| && j < |rest| {
        assert ev[i] == rest[i] && ev[j] == rest[j];
        assert r[rest[i].node] == m[rest[i].node];
      } else if i >= |rest| {
        assert false;
      }
    }
  }

  /** One iteration of the child loop in the callback-order argument, stated over arenas and event sequences alone. */
  lemma {:induction false} EventsLoopStep<D, C>(m: Arena<D, C>, front: Arena<D, C>, m2: Arena<D, C>, back: Arena<D, C>,
                                                ev1: seq<Event<D, C>>, ev2: seq<Event<D, C>>, c: Handle)
    requires front.Keys <= m.Keys && forall k | k in front :: front[k] == m[k]
    requires c in front && m2 == front[c := front[c].(parent := None)]
    requires back.Keys <= m2.Keys
    requires m[c].parent.Some? ==> m[c].parent.value !in m
    requires DestroyOrder(m, ev1, m.Keys - front.Keys)
    requires DestroyOrder(m2, ev2, m2.Keys - back.Keys)
    requires ParentsFreed(m2, m2.Keys - back.Keys, [c])
    ensures DestroyOrder(m, ev1 + ev2, m.Keys - back.Keys)
  {
    var freed1 := m.Keys - front.Keys;
    var freed2 := m2.Keys - back.Keys;
    var freed := m.Keys - back.Keys;
    assert freed == freed1 + freed2;
    var ev := ev1 + ev2;
    forall i | 0 <= i < |ev|
      ensures && ev[i].Destroyed? && ev[i].node in freed
              && m[ev[i].node].onDestroy == Some(ev[i].callback)
              && ev[i].data == m[ev[i].node].data
    {
      if i < |ev1| { assert ev[i] == ev1[i]; } else { assert ev[i] == ev2[i - |ev1|]; }
    }
    forall i, j | 0 <= i < j < |ev| ensures ev[i].node != ev[j].node {
      if j < |ev1| {
        assert ev[i] == ev1[i] && ev[j] == ev1[j];
      } else if i < |ev1| {
        assert ev[i] == ev1[i] && ev[j] == ev2[j - |ev1|];
      } else {
        assert ev[i] == ev2[i - |ev1|] && ev[j] == ev2[j - |ev1|];
      }
    }
    forall k | k in freed && m[k].onDestroy.Some? ensures k in EventNodes(ev) {
      if k in freed1 {
        assert k in EventNodes(ev1);
        var i :| 0 <= i < |ev1| && ev1[i].node == k;
        assert ev[i] == ev1[i];
      } else {
        assert m2[k].onDestroy == m[k].onDestroy;
        assert k in EventNodes(ev2);
        var i :| 0 <= i < |ev2| && ev2[i].node == k;
        assert ev[|ev1| + i] == ev2[i];
      }
    }
    forall i, j | |ev1| <= i < |ev| && 0 <= j < |ev1|
      ensures m[ev[i].node].parent != Some(ev[j].node)
    {
      assert ev[i] == ev2[i - |ev1|] && ev[j] == ev1[j];
      var x := ev[i].node;
      if x != c {
        assert m2[x] == m[x] && x !in [c];
        assert m[x].parent.value in freed2;
      }
    }
    forall i, j | 0 <= i < |ev| && 0 <= j < |ev| && m[ev[i].node].parent == Some(ev[j].node)
      ensures i < j
    {
      if i < |ev1| && j < |ev1| {
        assert ev[i] == ev1[i] && ev[j] == ev1[j];
      } else if i >= |ev1| && j >= |ev1| {
        assert ev[i] == ev2[i - |ev1|] && ev[j] == ev2[j - |ev1|];
        if ev[i].node != c {
          assert m2[ev[i].node] == m[ev[i].node];
        }
      }
    }
  }

  /* ---- Deleting keeps a forest without orphans, and `RemoveChild(TreeNode*)` is `delete` ---- */

  lemma {:induction false} KeptInRemoveFirst(s: seq<Handle>, x: Handle, y: Handle)
    requires y in s && y != x
    ensures y in RemoveFirst(s, x)
  {
    assert y in multiset(s);
    assert y in multiset(RemoveFirst(s, x));
  }

  lemma {:induction false} ClosedMember<D, C>(m: Arena<D, C>, freed: set<Handle>, p: Handle, k: Handle)
    requires freed <= m.Keys && ClosedUnderChildren(m, freed)
    requires p in m && k in m[p].children
    ensures p in freed ==> k in freed
  {
    var i :| 0 <= i < |m[p].children| && m[p].children[i] == k;
  }

  /** Deleting any node of a forest without orphans leaves a forest without orphans. */
  lemma {:induction false} TeardownLinked<D, C>(m: Arena<D, C>, next: Handle, h: Handle)
    requires ValidArena(m, next) && LinkedArena(m)
    ensures LinkedArena(Teardown(m, h).0)
  {
    if h in m {
      TeardownFrame(m, h);
      TeardownSubtree(m, next, h);
      var r := Teardown(m, h).0;
      var d := Detach(m, h);
      var freed := m.Keys - r.Keys;
      forall k | k in r && r[k].parent.Some?
        ensures r[k].parent.value in r && k in r[r[k].parent.value].children
      {
        assert r[k] == d[k] && d[k].parent == m[k].parent;
        var p := m[k].parent.value;
        ClosedMember(m, freed, p, k);
        assert r[p] == d[p];
        if m[h].parent == Some(p) {
          KeptInRemoveFirst(m[p].children, h, k);
        }
      }
    }
  }

  lemma {:induction false} TeardownKeepsShape<D, C>(m: Arena<D, C>, next: Handle, h: Handle)
    ensures ValidArena(m, next) ==> ValidArena(Teardown(m, h).0, next)
    ensures ValidArena(m, next) && LinkedArena(m) ==> LinkedArena(Teardown(m, h).0)
  {
    if ValidArena(m, next) {
      TeardownValid(m, next, h);
      if LinkedArena(m) {
        TeardownLinked(m, next, h);
      }
    }
  }

  /**
   * `RemoveChild(TreeNode*)` clears the child's parent pointer, erases it from
   * the list and deletes it; the result is exactly that of deleting the child.
   */
  lemma {:induction false} RemoveChildIsDelete<D, C>(m: Arena<D, C>, next: Handle, p: Handle, c: Handle)
    requires ValidArena(m, next) && p in m && c in m[p].children
    ensures Teardown(Unlink(m, p, c), c) == Teardown(m, c)
  {
    var i :| 0 <= i < |m[p].children| && m[p].children[i] == c;
    assert m[c].parent == Some(p);
    var u := Unlink(m, p, c);
    assert Detach(m, c) == u;
    assert Detach(u, c) == u;
  }

  /** `RemoveChild(TreeNode*)` keeps the forest well formed. */
  lemma {:induction false} RemoveChildValid<D, C>(m: Arena<D, C>, next: Handle, p: Handle, c: Handle)
    requires ValidArena(m, next) && p in m && c in m[p].children
    ensures ValidArena(Teardown(Unlink(m, p, c), c).0, next)
  {
    RemoveChildIsDelete(m, next, p, c);
    TeardownValid(m, next, c);
  }

  /** Appending a fresh child keeps the forest well formed. */
  lemma {:induction false} SpawnValid<D, C>(m: Arena<D, C>, next: Handle, p: Handle, data: Option<D>)
    requires ValidArena(m, next) && p in m
    ensures ValidArena(m[next := Fresh(Some(p), data)][p := m[p].(children := m[p].children + [next])], next + 1)
  {
    var r := m[next := Fresh(Some(p), data)][p := m[p].(children := m[p].children + [next])];
    assert next !in m[p].children;
    forall k, i | k in r && 0 <= i < |r[k].children|
      ensures r[k].children[i] in r && r[r[k].children[i]].parent == Some(k)
    {
      if k == p && i == |m[p].children| {
        assert r[k].children[i] == next;
      } else {
        assert r[k].children[i] == m[k].children[i];
      }
    }
  }

  /** Appending a fresh child keeps a forest without orphans free of them. */
  lemma {:induction false} SpawnLinked<D, C>(m: Arena<D, C>, p: Handle, c: Handle, data: Option<D>)
    requires LinkedArena(m) && p in m && c !in m
    ensures LinkedArena(m[c := Fresh(Some(p), data)][p := m[p].(children := m[p].children + [c])])
  {
    var r := m[c := Fresh(Some(p), data)][p := m[p].(children := m[p].children + [c])];
    forall k | k in r && r[k].parent.Some?
      ensures r[k].parent.value in r && k in r[r[k].parent.value].children
    {
      if k != c {
        var q := m[k].parent.value;
        assert q in m && k in m[q].children;
        if q == p {
          assert r[p].children == m[p].children + [c];
        }
      } else {
        assert r[p].children[|r[p].children| - 1] == c;
      }
    }
  }

  /** `RemoveChild(size_t)`: the entry at `index` erased from `p`'s list, nothing else. */
  function EraseChild<D, C>(m: Arena<D, C>, p: Handle, index: nat): (r: Arena<D, C>)
    requires p in m
    ensures r.Keys == m.Keys
  {
    if index >= |m[p].children| then m
    else m[p := m[p].(children := m[p].children[..index] + m[p].children[index + 1..])]
  }

  /**
   * Erasing by index keeps the forest well formed but leaves the erased child
   * live, still naming `p` as parent, and listed by nobody: an orphan.
   */
  lemma {:induction false} EraseChildOrphans<D, C>(m: Arena<D, C>, next: Handle, p: Handle, index: nat)
    requires ValidArena(m, next) && p in m && index < |m[p].children|
    ensures var r := EraseChild(m, p, index); var c := m[p].children[index];
      && ValidArena(r, next)
      && c in r && r[c].parent == Some(p)
      && Unlisted(r, c)
      && !LinkedArena(r)
  {
    var s := m[p].children;
    var c := s[index];
    var r := EraseChild(m, p, index);
    EraseAt(s, index);
    forall k, i | k in r && 0 <= i < |r[k].children|
      ensures r[k].children[i] in m[k].children
    {
      if k == p {
        assert r[k].children[i] in multiset(s);
      }
    }
    forall k, i | k in r && 0 <= i < |r[k].children|
      ensures r[k].children[i] != c
    {
      var x := r[k].children[i];
      var j :| 0 <= j < |m[k].children| && m[k].children[j] == x;
      assert m[x].parent == Some(k);
    }
    assert c in r && r[c].parent == Some(p) && c !in r[p].children;
  }

  /* ---- The cursor of `NodeViewer` ---- */

  /**
   * Where `ShiftFocus(TreeNode*)` leaves the cursor `cur`: on `target` when it
   * is the parent or one of the children of `cur`, otherwise where it was.
   */
  function Shifted<D, C>(m: Arena<D, C>, cur: Handle, target: Option<Handle>): (r: Handle)
    requires cur in m
    ensures r == cur || target == Some(r)
    ensures target.Some? && (target == m[cur].parent || target.value in m[cur].children) ==> r == target.value
    ensures r != cur ==> target == m[cur].parent || target.value in m[cur].children
  {
    if target.None? then cur
    else if target == m[cur].parent then target.value
    else if target.value in m[cur].children then target.value
    else cur
  }

  /** The `size_t` value of a C++ `int`: negative values wrap modulo 2^64. */
  function SizeT(k: int): (r: nat)
    requires -0x8000_0000 <= k < 0x8000_0000
    ensures r < 0x1_0000_0000_0000_0000
    ensures k >= 0 ==> r == k
    ensures k < 0 ==> r >= 0x8000_0000_0000_0000
  {
    if k < 0 then k + 0x1_0000_0000_0000_0000 else k
  }

  /**
   * Where `ShiftFocus(int)` leaves the cursor: `-1` goes to the parent, an
   * index below the child count goes to that child, and any other value
   * (including every other negative one, which converts to a huge `size_t`)
   * leaves it where it was.
   */
  function ShiftedIndex<D, C>(m: Arena<D, C>, cur: Handle, k: int): (r: Handle)
    requires cur in m && -0x8000_0000 <= k < 0x8000_0000
    ensures k == -1 ==> r == (if m[cur].parent.Some? then m[cur].parent.value else cur)
    ensures 0 <= k < |m[cur].children| ==> r == m[cur].children[k]
    ensures k >= |m[cur].children| ==> r == cur
    ensures k < -1 && |m[cur].children| <= 0x8000_0000_0000_0000 ==> r == cur
  {
    if k == -1 then Shifted(m, cur, m[cur].parent)
    else if SizeT(k) < |m[cur].children| then Shifted(m, cur, Some(m[cur].children[SizeT(k)]))
    else cur
  }

  /** The cursor never leaves the forest when it moves from a node whose parent, if any, is live. */
  lemma {:induction false} ShiftedLive<D, C>(m: Arena<D, C>, next: Handle, cur: Handle, target: Option<Handle>)
    requires ValidArena(m, next) && cur in m
    requires m[cur].parent.Some? ==> m[cur].parent.value in m
    ensures Shifted(m, cur, target) in m
  {
    var r := Shifted(m, cur, target);
    if r != cur && target != m[cur].parent {
      var i :| 0 <= i < |m[cur].children| && m[cur].children[i] == r;
    }
  }

  /** As `ShiftedLive`, for `ShiftFocus(int)`. */
  lemma {:induction false} ShiftedIndexLive<D, C>(m: Arena<D, C>, next: Handle, cur: Handle, k: int)
    requires ValidArena(m, next) && cur in m && -0x8000_0000 <= k < 0x8000_0000
    requires m[cur].parent.Some? ==> m[cur].parent.value in m
    ensures ShiftedIndex(m, cur, k) in m
  {
    if k == -1 {
      ShiftedLive(m, next, cur, m[cur].parent);
    } else if SizeT(k) < |m[cur].children| {
      ShiftedLive(m, next, cur, Some(m[cur].children[SizeT(k)]));
    }
  }

  /** The same live nodes, with the same parent pointers and child lists. */
  ghost predicate SameShape<D, C>(m: Arena<D, C>, r: Arena<D, C>)
  {
    r.Keys == m.Keys && forall k | k in m :: r[k].parent == m[k].parent && r[k].children == m[k].children
  }

  /** Validity and the absence of orphans depend on the shape alone, not on payloads or callbacks. */
  lemma SameShapeKeeps<D, C>(m: Arena<D, C>, r: Arena<D, C>, next: Handle)
    requires SameShape(m, r)
    ensures ValidArena(m, next) ==> ValidArena(r, next)
    ensures LinkedArena(m) ==> LinkedArena(r)
  {
  }

  lemma RemoveCard<D, C>(m: Arena<D, C>, h: Handle)
    requires h in m
    ensures |m - {h}| == |m| - 1
  {
    assert m.Keys == (m - {h}).Keys + {h};
  }

  lemma ConcatAssoc<T>(a: seq<T>, b: seq<T>, c: seq<T>)
    ensures (a + b) + c == a + (b + c)
  {
  }

  /** One step of the destructor's definition, for use in its imperative version. */
  lemma {:induction false} TeardownUnfold<D, C>(m: Arena<D, C>, h: Handle)
    requires h in m
    ensures var d := Detach(m, h); var rest := TeardownAll(d - {h}, d[h].children);
      Teardown(m, h) == (rest.0, rest.1 + DestroyCall(h, d[h]))
  {
  }

  /** One iteration of the child loop, for use in its imperative version. */
  lemma {:induction false} TeardownAllSnoc<D, C>(m: Arena<D, C>, cs: seq<Handle>, i: nat)
    requires i < |cs|
    ensures var front := TeardownAll(m, cs[..i]); var c := cs[i];
      TeardownAll(m, cs[..i + 1]) ==
        if c in front.0 then
          var back := Teardown(front.0[c := front.0[c].(parent := None)], c);
          (back.0, front.1 + back.1)
        else front
  {
    assert cs[..i + 1][..i] == cs[..i];
  }

  /* ---- The arena as an object ---- */

  /** All `TreeNode` objects of the program: the live records, the next handle, and the callbacks invoked so far. */
  class Forest<D, C> {
    var nodes: Arena<D, C>
    var next: Handle
    var trace: seq<Event<D, C>>

    ghost predicate Valid()
      reads this
    {
      ValidArena(nodes, next)
    }

    constructor ()
      ensures Valid() && nodes == map[] && next == 0 && trace == []
    {
      nodes := map[];
      next := 0;
      trace := [];
    }

    /**
     * `new TreeNode(userData)` (no parent) and `new TreeNode(parent, userData)`:
     * a fresh node with no children and no callbacks. The parent does not
     * list it.
     */
    method New(parent: Option<Handle>, data: Option<D>) returns (h: Handle)
      requires Valid() && (parent.Some? ==> parent.value < next)
      modifies this
      ensures Valid()
      ensures h == old(next) && h !in old(nodes) && next == h + 1
      ensures nodes == old(nodes)[h := Fresh(parent, data)]
      ensures trace == old(trace)
      ensures parent.None? && LinkedArena(old(nodes)) ==> LinkedArena(nodes)
    {
      h := next;
      nodes := nodes[h := Fresh(parent, data)];
      next := next + 1;
    }

    /** `SpawnChild`: a fresh node whose parent is `p`, appended to `p`'s list. */
    method SpawnChild(p: Handle, data: Option<D>) returns (c: Handle)
      requires Valid() && p in nodes
      modifies this
      ensures Valid()
      ensures c == old(next) && c !in old(nodes) && next == c + 1
      ensures nodes == old(nodes)[c := Fresh(Some(p), data)]
                                 [p := old(nodes)[p].(children := old(nodes)[p].children + [c])]
      ensures trace == old(trace)
      ensures LinkedArena(old(nodes)) ==> LinkedArena(nodes)
    {
      SpawnValid(nodes, next, p, data);
      if LinkedArena(nodes) {
        SpawnLinked(nodes, p, next, data);
      }
      c := New(Some(p), data);
      assert c !in nodes[p].children;
      nodes := nodes[p := nodes[p].(children := nodes[p].children + [c])];
    }

    /** `HalfRemoveChild`: unlink the first entry equal to `c` from `p`'s list. */
    method HalfRemoveChild(p: Handle, c: Handle)
      requires p in nodes
      modifies this
      ensures nodes == Unlink(old(nodes), p, c)
      ensures next == old(next) && trace == old(trace)
    {
      var i := 0;
      while i < |nodes[p].children|
        invariant nodes == old(nodes)
        invariant forall j | 0 <= j < i && j < |nodes[p].children| :: nodes[p].children[j] != c
      {
        if nodes[p].children[i] == c {
          UnlinkAt(nodes, p, c, i);
          if c in nodes {
            nodes := nodes[c := nodes[c].(parent := None)];
          }
          nodes := nodes[p := nodes[p].(children := nodes[p].children[..i] + nodes[p].children[i + 1..])];
          return;
        }
        i := i + 1;
      }
    }

    /** `delete h` (the destructor); see `Teardown`. */
    method Delete(h: Handle)
      modifies this
      ensures nodes == Teardown(old(nodes), h).0
      ensures trace == old(trace) + Teardown(old(nodes), h).1
      ensures next == old(next)
      ensures ValidArena(old(nodes), next) ==> Valid()
      ensures ValidArena(old(nodes), next) && LinkedArena(old(nodes)) ==> LinkedArena(nodes)
      decreases |nodes|, 0
    {
      TeardownKeepsShape(nodes, next, h);
      if h !in nodes {
        return;
      }
      ghost var m := nodes;
      if nodes[h].parent.Some? && nodes[h].parent.value in nodes {
        HalfRemoveChild(nodes[h].parent.value, h);
      }
      assert nodes == Detach(m, h);
      var n := nodes[h];
      nodes := nodes - {h};
      ghost var r := nodes;
      ghost var t0 := trace;
      RemoveCard(m, h);
      var cs := n.children;
      DeleteChildren(cs);
      ghost var rest := TeardownAll(r, cs);
      ghost var t1 := trace;
      if n.onDestroy.Some? {
        trace := trace + [Destroyed(h, n.onDestroy.value, n.data)];
      }
      assert trace == t1 + DestroyCall(h, n);
      ConcatAssoc(t0, rest.1, DestroyCall(h, n));
      assert Teardown(m, h) == (rest.0, rest.1 + DestroyCall(h, n)) by {
        TeardownUnfold(m, h);
      }
    }
  
    /** The child loop of the destructor: in list order, clear each child's parent pointer and delete it. */
    method DeleteChildren(cs: seq<Handle>)
      modifies this
      ensures nodes == TeardownAll(old(nodes), cs).0
      ensures trace == old(trace) + TeardownAll(old(nodes), cs).1
      ensures next == old(next)
      decreases |nodes|, 1
    {
      ghost var r := nodes;
      ghost var t0 := trace;
      var i := 0;
      while i < |cs|
        invariant i <= |cs|
        invariant nodes == TeardownAll(r, cs[..i]).0
        invariant trace == t0 + TeardownAll(r, cs[..i]).1
        invariant next == old(next)
        invariant |nodes| <= |r|
      {
        var c := cs[i];
        TeardownAllSnoc(r, cs, i);
        ghost var front := TeardownAll(r, cs[..i]);
        if c in nodes {
          nodes := nodes[c := nodes[c].(parent := None)];
          ghost var m2 := nodes;
          Delete(c);
          ConcatAssoc(t0, front.1, Teardown(m2, c).1);
        }
        i := i + 1;
      }
      assert cs[..|cs|] == cs;
    }

    /**
     * `RemoveChild(TreeNode*)`: at the first entry of `p`'s list equal to `c`,
     * clear `c`'s parent pointer, erase the entry and delete `c`; nothing if
     * `p` does not list `c`.
     */
    method RemoveChild(p: Handle, c: Handle)
      requires p in nodes
      modifies this
      ensures c in old(nodes)[p].children ==>
        nodes == Teardown(Unlink(old(nodes), p, c), c).0 &&
        trace == old(trace) + Teardown(Unlink(old(nodes), p, c), c).1
      ensures c !in old(nodes)[p].children ==> nodes == old(nodes) && trace == old(trace)
      ensures next == old(next)
      ensures old(Valid()) ==> Valid()
    {
      if Valid() && c in nodes[p].children {
        RemoveChildValid(nodes, next, p, c);
      }
      var i := 0;
      while i < |nodes[p].children|
        invariant nodes == old(nodes) && trace == old(trace) && next == old(next)
        invariant forall j | 0 <= j < i && j < |nodes[p].children| :: nodes[p].children[j] != c
      {
        if nodes[p].children[i] == c {
          ghost var m := nodes;
          UnlinkAt(nodes, p, c, i);
          if c in nodes {
            nodes := nodes[c := nodes[c].(parent := None)];
          }
          nodes := nodes[p := nodes[p].(children := nodes[p].children[..i] + nodes[p].children[i + 1..])];
          assert nodes == Unlink(m, p, c);
          Delete(c);
          return;
        }
        i := i + 1;
      }
    }

    /** `RemoveChild(size_t)`: erase the entry at `index` from `p`'s list when there is one; the child is neither deleted nor told. */
    method RemoveChildAt(p: Handle, index: nat)
      requires p in nodes
      modifies this
      ensures nodes == EraseChild(old(nodes), p, index)
      ensures next == old(next) && trace == old(trace)
      ensures old(Valid()) ==> Valid()
    {
      if Valid() && index < |nodes[p].children| {
        EraseChildOrphans(nodes, next, p, index);
      }
      if index >= |nodes[p].children| {
        return;
      }
      nodes := nodes[p := nodes[p].(children := nodes[p].children[..index] + nodes[p].children[index + 1..])];
    }

    function GetChildCount(p: Handle): nat
      reads this
      requires p in nodes
    {
      |nodes[p].children|
    }

    /** `GetChild`: the entry at `index` of `p`'s list; null past the end. A child it returns is live and names `p` as parent. */
    function GetChild(p: Handle, index: nat): (r: Option<Handle>)
      reads this
      requires p in nodes
      ensures r.Some? <==> index < GetChildCount(p)
      ensures r.Some? ==> r.value in nodes[p].children && r.value == nodes[p].children[index]
      ensures Valid() && r.Some? ==> r.value in nodes && nodes[r.value].parent == Some(p) && r.value > p
    {
      if index >= GetChildCount(p) then None else Some(nodes[p].children[index])
    }

    /** `GetParent`: the parent pointer; a smaller handle, and in a forest without orphans a live node that lists `h`. */
    function GetParent(h: Handle): (r: Option<Handle>)
      reads this
      requires h in nodes
      ensures Valid() && r.Some? ==> r.value < h
      ensures Valid() && LinkedArena(nodes) && r.Some? ==> r.value in nodes && h in nodes[r.value].children
    {
      nodes[h].parent
    }

    function GetUserData(h: Handle): Option<D>
      reads this
      requires h in nodes
    {
      nodes[h].data
    }

    /** `SetUserData`: replace the payload of `h`; nothing else changes. */
    method SetUserData(h: Handle, data: Option<D>)
      requires h in nodes
      modifies this
      ensures h in nodes && GetUserData(h) == data
      ensures nodes == old(nodes)[h := old(nodes)[h].(data := data)]
      ensures next == old(next) && trace == old(trace)
      ensures old(Valid()) ==> Valid()
    {
      nodes := nodes[h := nodes[h].(data := data)];
    }

    /** `SetOnFocus`: replace the focus callback of `h`; nothing else changes. */
    method SetOnFocus(h: Handle, callback: Option<C>)
      requires h in nodes
      modifies this
      ensures nodes == old(nodes)[h := old(nodes)[h].(onFocus := callback)]
      ensures next == old(next) && trace == old(trace)
      ensures old(Valid()) ==> Valid()
    {
      nodes := nodes[h := nodes[h].(onFocus := callback)];
    }

    /** `SetDestroyUserData`: replace the destroy callback of `h`; nothing else changes. */
    method SetDestroyUserData(h: Handle, callback: Option<C>)
      requires h in nodes
      modifies this
      ensures nodes == old(nodes)[h := old(nodes)[h].(onDestroy := callback)]
      ensures next == old(next) && trace == old(trace)
      ensures old(Valid()) ==> Valid()
    {
      nodes := nodes[h := nodes[h].(onDestroy := callback)];
    }

    /** `Focus`: invoke the focus callback of `h` on `h`, if it has one; it is returned so the caller can run it. */
    method Focus(h: Handle) returns (callback: Option<C>)
      requires h in nodes
      modifies this
      ensures nodes == old(nodes) && next == old(next)
      ensures callback == nodes[h].onFocus
      ensures trace == old(trace) + (if callback.Some? then [Focused(h, callback.value)] else [])
    {
      callback := nodes[h].onFocus;
      if callback.Some? {
        trace := trace + [Focused(h, callback.value)];
      }
    }
}

  /** `NodeViewer`: a cursor over a forest that moves one edge at a time. */
  class NodeViewer<D, C> {
    const tree: Forest<D, C>
    var current: Handle

    constructor (tree: Forest<D, C>, start: Handle)
      ensures this.tree == tree && current == start
    {
      this.tree := tree;
      current := start;
    }

    /** The cursor is on a live node whose parent, if any, is live. */
    ghost predicate Valid()
      reads this, tree
    {
      && tree.Valid()
      && current in tree.nodes
      && (tree.nodes[current].parent.Some? ==> tree.nodes[current].parent.value in tree.nodes)
    }

    /**
     * `ShiftFocus(TreeNode*)`: move to `target` when it is the parent or one
     * of the children of the current node; report whether the cursor is now
     * on `target`.
     */
    method ShiftFocus(target: Option<Handle>) returns (moved: bool)
      requires Valid()
      modifies this
      ensures current == Shifted(tree.nodes, old(current), target)
      ensures moved <==> target == Some(current)
      ensures current in tree.nodes
      ensures LinkedArena(tree.nodes) ==> Valid()
    {
      ShiftedLive(tree.nodes, tree.next, current, target);
      if target.None? {
        return false;
      }
      ghost var start := current;
      var t := target.value;
      var parent := tree.GetParent(current);
      if target == parent {
        current := t;
      } else if tree.GetChildCount(current) > 0 {
        var i := 0;
        while i < tree.GetChildCount(current)
          invariant current in tree.nodes
          invariant current == start ==> forall j | 0 <= j < i && j < |tree.nodes[start].children| :: tree.nodes[start].children[j] != t
          invariant current != start ==> current == t && t in tree.nodes[start].children
          decreases (if current == start then 1 else 0), tree.GetChildCount(current) - i
        {
          if Some(t) == tree.GetChild(current, i) {
            current := t;
          }
          i := i + 1;
        }
      }
      moved := target == Some(current);
    }

    /**
     * `ShiftFocus(int)`: `-1` moves to the parent, an index below the child
     * count moves to that child; any other value leaves the cursor alone.
     */
    method ShiftFocusIndex(k: int) returns (moved: bool)
      requires Valid() && -0x8000_0000 <= k < 0x8000_0000
      modifies this
      ensures current == ShiftedIndex(tree.nodes, old(current), k)
      ensures moved <==> if k == -1 then tree.nodes[old(current)].parent.Some?
                         else SizeT(k) < |tree.nodes[old(current)].children|
      ensures LinkedArena(tree.nodes) ==> Valid()
    {
      if k == -1 {
        moved := ShiftFocus(tree.GetParent(current));
      } else if SizeT(k) < tree.GetChildCount(current) {
        moved := ShiftFocus(tree.GetChild(current, SizeT(k)));
      } else {
        moved := false;
      }
    }

    /** `Focus`: invoke the focus callback of the node under the cursor. */
    method Focus() returns (callback: Option<C>)
      requires current in tree.nodes
      modifies tree
      ensures tree.nodes == old(tree.nodes) && tree.next == old(tree.next)
      ensures callback == tree.nodes[current].onFocus
      ensures tree.trace == old(tree.trace) + (if callback.Some? then [Focused(current, callback.value)] else [])
    {
      callback := tree.Focus(current);
    }
  }
}
