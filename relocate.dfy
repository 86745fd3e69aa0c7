/** Relocation of the children of a branching node to a new base, the
    model of `move`: every child slot `B + w` of `p` is copied to
    `B + off + w`, the children of each moved child are re-parented, the
    tail record of a moved leaf is re-owned, the vacated slot is zeroed,
    and finally `p`'s base becomes `B + off`. */
module TrieRelocate {
  import opened TrieTypes
  import opened TrieInvariant

  /** `subs` lists, in strictly increasing order, exactly the symbols `w`
      for which `ns[p].base + w` is a genuine child of `p`. */
  predicate ChildList(ns: seq<Node>, p: int, subs: seq<Word>)
  {
    (forall i, j :: 0 <= i < j < |subs| ==> subs[i] < subs[j]) &&
    (forall w: Word :: w in subs <==> IsChild(ns, p, w))
  }

  /** What relocating the children `subs` of `p` by `off` demands: every
      target slot is free or beyond the current capacity. */
  ghost predicate MovePre(s: Snap, p: int, off: int, subs: seq<Word>)
  {
    Inv(s) && p in s.path && 0 <= p < |s.ns| && s.ns[p].base >= BASE && off > 0 &&
    ChildList(s.ns, p, subs) &&
    forall x :: IsDst(s.ns, s.ns[p].base, off, subs, x) ==> x >= |s.ns| || s.ns[x].prev == 0
  }

  /** Slot `y` is the child slot `B + w` of a symbol `w` in `W`. */
  predicate IsSrc(ns: seq<Node>, B: int, W: seq<Word>, y: int)
  {
    0 <= y < |ns| && y - B in W
  }

  /** Slot `x` is the target slot `B + off + w` of a symbol `w` in `W`. */
  predicate IsDst(ns: seq<Node>, B: int, off: int, W: seq<Word>, x: int)
  {
    IsSrc(ns, B, W, x - off)
  }

  /** Where the node in slot `y` lives once the children in `W` have moved. */
  function Shift(ns: seq<Node>, B: int, off: int, W: seq<Word>, y: int): int
  {
    if IsSrc(ns, B, W, y) then y + off else y
  }

  /** Slot `x` of the node array once the children `W` of the node with
      base `B` have been moved by `off` (the base itself not yet updated):
      a target slot holds the moved child, a vacated slot is zeroed, a
      child of a moved child names the new slot as its parent, and every
      other slot is untouched (zero beyond the old capacity). */
  function MovedAt(ns: seq<Node>, B: int, off: int, W: seq<Word>, x: int): Node
  {
    if IsDst(ns, B, off, W, x) then ns[x - off]
    else if IsSrc(ns, B, W, x) then FREE_NODE
    else if 0 <= x < |ns| && IsSrc(ns, B, W, ns[x].prev) then ns[x].(prev := ns[x].prev + off)
    else if 0 <= x < |ns| then ns[x]
    else FREE_NODE
  }

  /** Tail record `t` once the children `W` have moved: the record owned by
      a moved leaf names the leaf's new slot. */
  function MovedTailAt(ns: seq<Node>, ts: seq<TailRec>, B: int, off: int, W: seq<Word>, t: int): TailRec
    requires 0 <= t < |ts|
  {
    if IsSrc(ns, B, W, ts[t].usedBy) then ts[t].(usedBy := ts[t].usedBy + off) else ts[t]
  }

  /** The paths once the children `subs` of `p` sit at their new slots. */
  ghost function MovedPath(s: Snap, p: int, off: int, subs: seq<Word>): map<int, seq<Word>>
    requires p in s.path && 0 <= p < |s.ns|
  {
    var B := s.ns[p].base;
    var dom := (set x | x in s.path && !IsSrc(s.ns, B, subs, x)) +
               (set x | off <= x < off + |s.ns| && IsDst(s.ns, B, off, subs, x));
    map x | x in dom ::
      if IsDst(s.ns, B, off, subs, x) then s.path[p] + [x - off - B] else s.path[x]
  }

  /** The node array after `move(p, subs, off)`, of length `len`. */
  function MovedNodes(ns: seq<Node>, p: int, off: int, subs: seq<Word>, len: nat): (r: seq<Node>)
    requires 0 <= p < |ns|
    ensures |r| == len
  {
    var B := ns[p].base;
    seq(len, x => MovedNode(ns, p, off, subs, x))
  }

  /** The tail array after `move(p, subs, off)`. */
  function MovedTails(ns: seq<Node>, ts: seq<TailRec>, p: int, off: int, subs: seq<Word>): (r: seq<TailRec>)
    requires 0 <= p < |ns|
    ensures |r| == |ts|
  {
    seq(|ts|, t requires 0 <= t < |ts| => MovedTailAt(ns, ts, ns[p].base, off, subs, t))
  }

  /** Which leaf holds which key after `move(p, subs, off)`. */
  ghost function MovedLeafOf(s: Snap, p: int, off: int, subs: seq<Word>): map<seq<Word>, int>
    requires 0 <= p < |s.ns|
  {
    map k | k in s.leafOf :: Shift(s.ns, s.ns[p].base, off, subs, s.leafOf[k])
  }

  /** The snapshot after `move(p, subs, off)` on a node array of length
      `len`. */
  ghost function Moved(s: Snap, p: int, off: int, subs: seq<Word>, len: nat): Snap
    requires p in s.path && 0 <= p < |s.ns|
  {
    Snap(MovedNodes(s.ns, p, off, subs, len), MovedTails(s.ns, s.ts, p, off, subs),
         MovedPath(s, p, off, subs), MovedLeafOf(s, p, off, subs), s.contents)
  }

  /** Room for every target slot. */
  predicate RoomFor(B: int, off: int, subs: seq<Word>, len: int)
  {
    forall w :: w in subs ==> B + off + w < len
  }

  // ---------------------------------------------------------------------
  // Facts about the slots involved

  /** A listed child is live, hangs below `p` and is labelled by one more
      symbol; its target slot is not live. */
  lemma SrcFacts(s: Snap, p: int, off: int, subs: seq<Word>, w: Word, c: int)
    requires MovePre(s, p, off, subs) && w in subs && c == s.ns[p].base + w
    ensures 0 < c < |s.ns| && c in s.path && s.ns[c].prev == p &&
            s.path[c] == s.path[p] + [w] && c != p && c != ROOT
    ensures c + off !in s.path
    ensures !IsSrc(s.ns, s.ns[p].base, subs, c + off)
    ensures IsDst(s.ns, s.ns[p].base, off, subs, c + off)
  {
    assert IsChild(s.ns, p, w);
    ChildPath(s, p, w);
    var d := c + off;
    assert d != ROOT;
    assert d in s.path ==> Linked(s, d);
  }

  /** A live slot is never a target slot. */
  lemma LiveNotTarget(s: Snap, p: int, off: int, subs: seq<Word>, x: int)
    requires MovePre(s, p, off, subs)
    ensures x in s.path ==> !IsDst(s.ns, s.ns[p].base, off, subs, x)
  {
    var B := s.ns[p].base;
    if x in s.path && IsDst(s.ns, B, off, subs, x) {
      var w :| w in subs && w == x - off - B;
      SrcFacts(s, p, off, subs, w, x - off);
      assert false;
    }
  }

  /** A live node whose parent is `p` is a listed child. */
  lemma ChildOfPIsSrc(s: Snap, p: int, off: int, subs: seq<Word>, x: int)
    requires MovePre(s, p, off, subs) && x in s.path && x != ROOT && s.ns[x].prev == p
    ensures IsSrc(s.ns, s.ns[p].base, subs, x)
  {
    assert Linked(s, x);
    assert IsChild(s.ns, p, Last(s.path[x]));
  }

  /** `p` is neither a listed child nor a child of one, and neither is the
      root nor any slot that is not live. */
  lemma PNotMoved(s: Snap, p: int, off: int, subs: seq<Word>)
    requires MovePre(s, p, off, subs)
    ensures !IsSrc(s.ns, s.ns[p].base, subs, p)
    ensures !IsSrc(s.ns, s.ns[p].base, subs, s.ns[p].prev)
    ensures !IsSrc(s.ns, s.ns[p].base, subs, ROOT)
    ensures !IsSrc(s.ns, s.ns[p].base, subs, 0)
  {
    var B := s.ns[p].base;
    if IsSrc(s.ns, B, subs, p) {
      var w :| w in subs && w == p - B;
      SrcFacts(s, p, off, subs, w, p);
      assert false;
    }
    assert p != ROOT ==> Linked(s, p);
    if IsSrc(s.ns, B, subs, s.ns[p].prev) {
      var w :| w in subs && w == s.ns[p].prev - B;
      SrcFacts(s, p, off, subs, w, s.ns[p].prev);
      assert false;
    }
  }

  /** The child slots are real slots and the target slots are not live. */
  ghost predicate TargetsDead(s: Snap, p: int, off: int, subs: seq<Word>)
    requires 0 <= p < |s.ns|
  {
    (forall w :: w in subs ==> 0 <= s.ns[p].base + w < |s.ns|) &&
    (forall x :: IsDst(s.ns, s.ns[p].base, off, subs, x) ==> x !in s.path)
  }

  lemma TargetsAreDead(s: Snap, p: int, off: int, subs: seq<Word>)
    requires MovePre(s, p, off, subs)
    ensures TargetsDead(s, p, off, subs)
  {
    forall x | IsDst(s.ns, s.ns[p].base, off, subs, x)
      ensures x !in s.path
    {
      LiveNotTarget(s, p, off, subs, x);
    }
    forall w | w in subs
      ensures 0 <= s.ns[p].base + w < |s.ns|
    {
      assert IsChild(s.ns, p, w);
    }
  }

  /** The moved path map at a target slot and at a live slot that stays. */
  lemma MovedPathHas(s: Snap, p: int, off: int, subs: seq<Word>)
    requires p in s.path && 0 <= p < |s.ns| && TargetsDead(s, p, off, subs)
    ensures var B := s.ns[p].base;
            forall x :: IsDst(s.ns, B, off, subs, x) ==>
              x in MovedPath(s, p, off, subs) &&
              MovedPath(s, p, off, subs)[x] == s.path[p] + [x - off - B]
    ensures var B := s.ns[p].base;
            forall x :: x in s.path && !IsSrc(s.ns, B, subs, x) ==>
              x in MovedPath(s, p, off, subs) && MovedPath(s, p, off, subs)[x] == s.path[x]
  {
    var B := s.ns[p].base;
    forall x | x in s.path && !IsSrc(s.ns, B, subs, x)
      ensures x in MovedPath(s, p, off, subs) && MovedPath(s, p, off, subs)[x] == s.path[x]
    {
      assert !IsDst(s.ns, B, off, subs, x);
    }
  }

  /** Every slot of the moved path map is a target slot or a live slot
      that stays. */
  lemma MovedPathAt(s: Snap, p: int, off: int, subs: seq<Word>, x: int)
    requires p in s.path && 0 <= p < |s.ns| && TargetsDead(s, p, off, subs)
    requires x in MovedPath(s, p, off, subs)
    ensures var B := s.ns[p].base;
            if IsDst(s.ns, B, off, subs, x) then
              x - off - B in subs && MovedPath(s, p, off, subs)[x] == s.path[p] + [x - off - B]
            else
              x in s.path && !IsSrc(s.ns, B, subs, x) && MovedPath(s, p, off, subs)[x] == s.path[x]
  {
    var B := s.ns[p].base;
    if !IsDst(s.ns, B, off, subs, x) {
      assert x in s.path && !IsSrc(s.ns, B, subs, x);
    }
  }

  lemma MovedPathDst(s: Snap, p: int, off: int, subs: seq<Word>, x: int)
    requires MovePre(s, p, off, subs) && IsDst(s.ns, s.ns[p].base, off, subs, x)
    ensures x in MovedPath(s, p, off, subs)
    ensures MovedPath(s, p, off, subs)[x] == s.path[p] + [x - off - s.ns[p].base]
  {
    TargetsAreDead(s, p, off, subs);
    MovedPathHas(s, p, off, subs);
  }

  lemma MovedPathLive(s: Snap, p: int, off: int, subs: seq<Word>, x: int)
    requires MovePre(s, p, off, subs) && x in s.path && !IsSrc(s.ns, s.ns[p].base, subs, x)
    ensures x in MovedPath(s, p, off, subs) && MovedPath(s, p, off, subs)[x] == s.path[x]
  {
    TargetsAreDead(s, p, off, subs);
    MovedPathHas(s, p, off, subs);
  }

  /** The moved node array at a target slot. */
  lemma NodeAtDst(s: Snap, p: int, off: int, subs: seq<Word>, w: Word)
    requires MovePre(s, p, off, subs) && w in subs
    ensures var B := s.ns[p].base;
            MovedAt(s.ns, B, off, subs, B + off + w) == s.ns[B + w]
  {
    SrcFacts(s, p, off, subs, w, s.ns[p].base + w);
  }

  /** The moved node array at a vacated slot. */
  lemma NodeAtSrc(s: Snap, p: int, off: int, subs: seq<Word>, w: Word)
    requires MovePre(s, p, off, subs) && w in subs
    ensures var B := s.ns[p].base;
            MovedAt(s.ns, B, off, subs, B + w) == FREE_NODE
  {
    SrcFacts(s, p, off, subs, w, s.ns[p].base + w);
    LiveNotTarget(s, p, off, subs, s.ns[p].base + w);
  }

  /** The moved node array at a live slot that stays: same base, and the
      parent follows its own move. */
  lemma NodeAtLive(s: Snap, p: int, off: int, subs: seq<Word>, x: int)
    requires MovePre(s, p, off, subs) && x in s.path && !IsSrc(s.ns, s.ns[p].base, subs, x)
    ensures 0 <= x < |s.ns|
    ensures var B := s.ns[p].base;
            MovedAt(s.ns, B, off, subs, x) ==
            Node(s.ns[x].base, Shift(s.ns, B, off, subs, s.ns[x].prev))
  {
    LiveNotTarget(s, p, off, subs, x);
  }

  /** The moved node array at a slot that is neither live nor a target. */
  lemma NodeAtDead(s: Snap, p: int, off: int, subs: seq<Word>, x: int)
    requires MovePre(s, p, off, subs) && 0 <= x && x !in s.path
    requires !IsDst(s.ns, s.ns[p].base, off, subs, x)
    ensures MovedAt(s.ns, s.ns[p].base, off, subs, x) == FREE_NODE
  {
    var B := s.ns[p].base;
    PNotMoved(s, p, off, subs);
    if IsSrc(s.ns, B, subs, x) {
      var w :| w in subs && x - B == w;
      SrcFacts(s, p, off, subs, w, x);
      assert false;
    }
  }

  // ---------------------------------------------------------------------
  // The moved snapshot satisfies the invariant

  /** What the final lemmas demand on top of `MovePre`: the array is long
      enough for every target slot. */
  ghost predicate MoveFits(s: Snap, p: int, off: int, subs: seq<Word>, len: nat)
  {
    MovePre(s, p, off, subs) && len >= |s.ns| && RoomFor(s.ns[p].base, off, subs, len)
  }

  /** The node of the moved array at slot `x`. */
  function MovedNode(ns: seq<Node>, p: int, off: int, subs: seq<Word>, x: int): Node
    requires 0 <= p < |ns|
  {
    if x == p then Node(ns[p].base + off, ns[p].prev) else MovedAt(ns, ns[p].base, off, subs, x)
  }

  /** A link of `s` carries over to the moved snapshot when node `m` now
      sits at `m2` below `q2` with the same paths and the parent's base has
      shifted by the same amount as the node. */
  lemma LinkTransfer(s: Snap, p: int, off: int, subs: seq<Word>, len: nat, m: int, m2: int, q2: int)
    requires p in s.path && 0 <= p < |s.ns| && Linked(s, m)
    requires 0 <= m2 < len && 0 <= q2 < len
    requires MovedNode(s.ns, p, off, subs, m2).prev == q2
    requires MovedNode(s.ns, p, off, subs, q2).base >= BASE
    requires MovedNode(s.ns, p, off, subs, q2).base - s.ns[s.ns[m].prev].base == m2 - m
    requires m2 in MovedPath(s, p, off, subs) && MovedPath(s, p, off, subs)[m2] == s.path[m]
    requires q2 in MovedPath(s, p, off, subs) &&
             MovedPath(s, p, off, subs)[q2] == s.path[s.ns[m].prev]
    ensures Linked(Moved(s, p, off, subs, len), m2)
  {
  }

  lemma MovedLinkedDst(s: Snap, p: int, off: int, subs: seq<Word>, len: nat, w: Word, m: int)
    requires MoveFits(s, p, off, subs, len) && w in subs && m == s.ns[p].base + off + w
    ensures Linked(Moved(s, p, off, subs, len), m)
  {
    var B := s.ns[p].base;

    SrcFacts(s, p, off, subs, w, B + w);
    assert Linked(s, B + w);
    PNotMoved(s, p, off, subs);
    NodeAtDst(s, p, off, subs, w);
    MovedPathDst(s, p, off, subs, m);
    MovedPathLive(s, p, off, subs, p);
    LinkTransfer(s, p, off, subs, len, B + w, m, p);
  }

  /** `p` keeps its parent and its path; only its base moves. */
  lemma MovedLinkedP(s: Snap, p: int, off: int, subs: seq<Word>, len: nat)
    requires MoveFits(s, p, off, subs, len) && p != ROOT
    ensures Linked(Moved(s, p, off, subs, len), p)
  {

    PNotMoved(s, p, off, subs);
    assert Linked(s, p);
    var q := s.ns[p].prev;
    NodeAtLive(s, p, off, subs, q);
    MovedPathLive(s, p, off, subs, p);
    MovedPathLive(s, p, off, subs, q);
    LinkTransfer(s, p, off, subs, len, p, p, q);
  }

  /** The moved array at a grandchild `m` and at its parent's new slot. */
  lemma GrandNodes(s: Snap, p: int, off: int, subs: seq<Word>, m: int, w: Word)
    requires MovePre(s, p, off, subs)
    requires m in s.path && m != ROOT && m != p && !IsSrc(s.ns, s.ns[p].base, subs, m)
    requires 0 <= m < |s.ns| && w in subs && s.ns[m].prev == s.ns[p].base + w
    ensures MovedNode(s.ns, p, off, subs, m).prev == s.ns[p].base + w + off
    ensures MovedNode(s.ns, p, off, subs, s.ns[p].base + w + off) == s.ns[s.ns[p].base + w]
  {
    var B := s.ns[p].base;
    var q := B + w;
    SrcFacts(s, p, off, subs, w, q);
    assert IsSrc(s.ns, B, subs, q) && Shift(s.ns, B, off, subs, q) == q + off;
    NodeAtLive(s, p, off, subs, m);
    assert MovedNode(s.ns, p, off, subs, m) == MovedAt(s.ns, B, off, subs, m);
    NodeAtDst(s, p, off, subs, w);
    assert q + off != p;
  }

  /** The moved paths at a grandchild `m` and at its parent's new slot. */
  lemma GrandPaths(s: Snap, p: int, off: int, subs: seq<Word>, m: int, w: Word)
    requires MovePre(s, p, off, subs)
    requires m in s.path && !IsSrc(s.ns, s.ns[p].base, subs, m) && w in subs
    ensures m in MovedPath(s, p, off, subs) && MovedPath(s, p, off, subs)[m] == s.path[m]
    ensures s.ns[p].base + w + off in MovedPath(s, p, off, subs)
    ensures MovedPath(s, p, off, subs)[s.ns[p].base + w + off] == s.path[p] + [w]
  {
    var B := s.ns[p].base;
    var x := B + w + off;
    SrcFacts(s, p, off, subs, w, B + w);
    assert IsDst(s.ns, B, off, subs, x) && x - off - B == w;
    MovedPathDst(s, p, off, subs, x);
    MovedPathLive(s, p, off, subs, m);
  }

  lemma GrandFacts(s: Snap, p: int, off: int, subs: seq<Word>, m: int, w: Word)
    requires MovePre(s, p, off, subs)
    requires m in s.path && m != ROOT && m != p && !IsSrc(s.ns, s.ns[p].base, subs, m)
    requires 0 <= m < |s.ns| && w in subs && s.ns[m].prev == s.ns[p].base + w
    ensures MovedNode(s.ns, p, off, subs, m).prev == s.ns[p].base + w + off
    ensures MovedNode(s.ns, p, off, subs, s.ns[p].base + w + off) == s.ns[s.ns[p].base + w]
    ensures m in MovedPath(s, p, off, subs) && MovedPath(s, p, off, subs)[m] == s.path[m]
    ensures s.ns[p].base + w + off in MovedPath(s, p, off, subs)
    ensures MovedPath(s, p, off, subs)[s.ns[p].base + w + off] == s.path[p] + [w]
  {
    GrandNodes(s, p, off, subs, m, w);
    GrandPaths(s, p, off, subs, m, w);
  }

  lemma GrandLink(s: Snap, p: int, off: int, subs: seq<Word>, len: nat, m: int, w: Word)
    requires p in s.path && 0 <= p < |s.ns| && Linked(s, m) && m < len
    requires s.ns[p].base >= BASE && off > 0
    requires s.ns[m].prev == s.ns[p].base + w && s.ns[p].base + w + off < len
    requires s.path[s.ns[p].base + w] == s.path[p] + [w]
    requires MovedNode(s.ns, p, off, subs, m).prev == s.ns[p].base + w + off
    requires MovedNode(s.ns, p, off, subs, s.ns[p].base + w + off) == s.ns[s.ns[p].base + w]
    requires m in MovedPath(s, p, off, subs) && MovedPath(s, p, off, subs)[m] == s.path[m]
    requires s.ns[p].base + w + off in MovedPath(s, p, off, subs)
    requires MovedPath(s, p, off, subs)[s.ns[p].base + w + off] == s.path[p] + [w]
    ensures Linked(Moved(s, p, off, subs, len), m)
  {
  }

  /** A child of a moved child hangs below the child's new slot. */
  lemma MovedLinkedGrand(s: Snap, p: int, off: int, subs: seq<Word>, len: nat, m: int, w: Word)
    requires MoveFits(s, p, off, subs, len)
    requires m in s.path && m != ROOT && m != p && !IsSrc(s.ns, s.ns[p].base, subs, m)
    requires 0 <= m < |s.ns| && w in subs && s.ns[m].prev == s.ns[p].base + w
    ensures Linked(Moved(s, p, off, subs, len), m)
  {
    var q := s.ns[p].base + w;
    assert Linked(s, m);
    GrandFacts(s, p, off, subs, m, w);
    SrcFacts(s, p, off, subs, w, q);
    assert q + off < len;
    GrandLink(s, p, off, subs, len, m, w);
  }

  /** A node whose parent does not move keeps its link. */
  lemma MovedLinkedPlain(s: Snap, p: int, off: int, subs: seq<Word>, len: nat, m: int)
    requires MoveFits(s, p, off, subs, len)
    requires m in s.path && m != ROOT && m != p && !IsSrc(s.ns, s.ns[p].base, subs, m)
    requires 0 <= m < |s.ns| && !IsSrc(s.ns, s.ns[p].base, subs, s.ns[m].prev)
    ensures Linked(Moved(s, p, off, subs, len), m)
  {
    var B := s.ns[p].base;
    var s' := Moved(s, p, off, subs, len);
    TargetsAreDead(s, p, off, subs);
    MovedPathHas(s, p, off, subs);
    assert Linked(s, m);
    var q := s.ns[m].prev;
    NodeAtLive(s, p, off, subs, m);
    assert s'.ns[m] == Node(s.ns[m].base, q);
    if q == p {
      ChildOfPIsSrc(s, p, off, subs, m);
    }
    assert q != p;
    NodeAtLive(s, p, off, subs, q);
    assert s'.ns[q].base == s.ns[q].base;
    assert s'.path[q] == s.path[q] && s'.path[m] == s.path[m];
  }

  lemma MovedLinkedOld(s: Snap, p: int, off: int, subs: seq<Word>, len: nat, m: int)
    requires MoveFits(s, p, off, subs, len)
    requires m in s.path && m != ROOT && !IsSrc(s.ns, s.ns[p].base, subs, m)
    ensures Linked(Moved(s, p, off, subs, len), m)
  {
    assert Linked(s, m);
    if m == p {
      MovedLinkedP(s, p, off, subs, len);
    } else if IsSrc(s.ns, s.ns[p].base, subs, s.ns[m].prev) {
      var w :| w in subs && w == s.ns[m].prev - s.ns[p].base;
      MovedLinkedGrand(s, p, off, subs, len, m, w);
    } else {
      MovedLinkedPlain(s, p, off, subs, len, m);
    }
  }

  lemma MovedPathCase(s: Snap, p: int, off: int, subs: seq<Word>, x: int)
    requires MovePre(s, p, off, subs) && x in MovedPath(s, p, off, subs)
    ensures var B := s.ns[p].base;
            if IsDst(s.ns, B, off, subs, x) then
              x - off - B in subs && MovedPath(s, p, off, subs)[x] == s.path[p] + [x - off - B]
            else
              x in s.path && !IsSrc(s.ns, B, subs, x) && MovedPath(s, p, off, subs)[x] == s.path[x]
  {
    TargetsAreDead(s, p, off, subs);
    MovedPathAt(s, p, off, subs, x);
  }

  lemma MoveLinks(s: Snap, p: int, off: int, subs: seq<Word>, len: nat)
    requires MoveFits(s, p, off, subs, len)
    ensures forall m :: m in MovedPath(s, p, off, subs) && m != ROOT ==>
              Linked(Moved(s, p, off, subs, len), m)
  {
    var B := s.ns[p].base;
    forall m | m in MovedPath(s, p, off, subs) && m != ROOT
      ensures Linked(Moved(s, p, off, subs, len), m)
    {
      MovedPathCase(s, p, off, subs, m);
      if IsDst(s.ns, B, off, subs, m) {
        var w: Word := m - off - B;
        assert m == B + off + w;
        MovedLinkedDst(s, p, off, subs, len, w, m);
      } else {
        MovedLinkedOld(s, p, off, subs, len, m);
      }
    }
  }

  lemma MoveRootRange(s: Snap, p: int, off: int, subs: seq<Word>, len: nat)
    requires MoveFits(s, p, off, subs, len)
    ensures ROOT < len && ROOT in MovedPath(s, p, off, subs) && MovedPath(s, p, off, subs)[ROOT] == []
    ensures MovedNode(s.ns, p, off, subs, ROOT).base >= BASE
    ensures MovedNode(s.ns, p, off, subs, ROOT).prev == 0
    ensures forall n :: n in MovedPath(s, p, off, subs) ==> 0 < n < len
  {
    var B := s.ns[p].base;
    PNotMoved(s, p, off, subs);
    MovedPathLive(s, p, off, subs, ROOT);
    if p != ROOT {
      NodeAtLive(s, p, off, subs, ROOT);
    }
    forall n | n in MovedPath(s, p, off, subs)
      ensures 0 < n < len
    {
      MovedPathCase(s, p, off, subs, n);
      if IsDst(s.ns, B, off, subs, n) {
        assert n - off - B in subs;
      }
    }
  }

  lemma SkeletonOfParts(s: Snap, p: int, off: int, subs: seq<Word>, len: nat)
    requires p in s.path && 0 <= p < |s.ns|
    requires ROOT < len && ROOT in MovedPath(s, p, off, subs) && MovedPath(s, p, off, subs)[ROOT] == []
    requires MovedNode(s.ns, p, off, subs, ROOT).base >= BASE
    requires MovedNode(s.ns, p, off, subs, ROOT).prev == 0
    requires forall n :: n in MovedPath(s, p, off, subs) ==> 0 < n < len
    requires forall m :: m in MovedPath(s, p, off, subs) && m != ROOT ==>
              Linked(Moved(s, p, off, subs, len), m)
    ensures Skeleton(Moved(s, p, off, subs, len))
  {
  }

  lemma MoveSkeleton(s: Snap, p: int, off: int, subs: seq<Word>, len: nat)
    requires MoveFits(s, p, off, subs, len)
    ensures Skeleton(Moved(s, p, off, subs, len))
  {
    MoveRootRange(s, p, off, subs, len);
    MoveLinks(s, p, off, subs, len);
    SkeletonOfParts(s, p, off, subs, len);
  }

  /** A live node other than `p` reappears at its shifted slot with the
      same base and the same path. */
  lemma ImageFacts(s: Snap, p: int, off: int, subs: seq<Word>, len: nat, m: int) returns (m2: int)
    requires MoveFits(s, p, off, subs, len) && m in s.path && m != p
    ensures 0 <= m < |s.ns| && m2 == Shift(s.ns, s.ns[p].base, off, subs, m)
    ensures 0 <= m2 < len && m2 != p && m2 in MovedPath(s, p, off, subs)
    ensures MovedPath(s, p, off, subs)[m2] == s.path[m]
    ensures MovedNode(s.ns, p, off, subs, m2).base == s.ns[m].base
  {
    var B := s.ns[p].base;
    LiveNotTarget(s, p, off, subs, p);
    if IsSrc(s.ns, B, subs, m) {
      m2 := m + off;
      var w: Word := m - B;
      assert w in subs && m == B + w;
      SrcFacts(s, p, off, subs, w, m);
      NodeAtDst(s, p, off, subs, w);
      MovedPathDst(s, p, off, subs, m2);
    } else {
      m2 := m;
      NodeAtLive(s, p, off, subs, m);
      MovedPathLive(s, p, off, subs, m);
    }
  }

  /** Every node of the moved snapshot other than `p` is the image of a
      live node `m` of `s` other than `p`. */
  lemma OriginFacts(s: Snap, p: int, off: int, subs: seq<Word>, len: nat, n: int) returns (m: int)
    requires MoveFits(s, p, off, subs, len) && n in MovedPath(s, p, off, subs) && n != p
    ensures m in s.path && m != p && 0 <= m < |s.ns|
    ensures Shift(s.ns, s.ns[p].base, off, subs, m) == n
    ensures MovedNode(s.ns, p, off, subs, n).base == s.ns[m].base
    ensures MovedPath(s, p, off, subs)[n] == s.path[m]
  {
    var B := s.ns[p].base;
    MovedPathCase(s, p, off, subs, n);
    if IsDst(s.ns, B, off, subs, n) {
      var w: Word := n - off - B;
      m := B + w;
      SrcFacts(s, p, off, subs, w, m);
      assert IsSrc(s.ns, B, subs, m) && m + off == n;
    } else {
      m := n;
      assert !IsSrc(s.ns, B, subs, m);
    }
    var n2 := ImageFacts(s, p, off, subs, len, m);
    assert n2 == n;
  }

  /** A slot that is not live after the move is zeroed. */
  lemma MoveFreeAt(s: Snap, p: int, off: int, subs: seq<Word>, x: int)
    requires MovePre(s, p, off, subs) && 0 <= x && x !in MovedPath(s, p, off, subs)
    ensures MovedNode(s.ns, p, off, subs, x) == FREE_NODE
  {
    var B := s.ns[p].base;
    PNotMoved(s, p, off, subs);
    MovedPathLive(s, p, off, subs, p);
    TargetsAreDead(s, p, off, subs);
    MovedPathHas(s, p, off, subs);
    assert !IsDst(s.ns, B, off, subs, x);
    if x !in s.path {
      NodeAtDead(s, p, off, subs, x);
    }
  }

  /** Every live node of the moved snapshot is branching or a leaf. */
  lemma MoveKindAt(s: Snap, p: int, off: int, subs: seq<Word>, len: nat, n: int)
    requires MoveFits(s, p, off, subs, len) && n in MovedPath(s, p, off, subs)
    ensures MovedNode(s.ns, p, off, subs, n).base >= BASE ||
            MovedNode(s.ns, p, off, subs, n).base <= 0
  {
    if n != p {
      var m := OriginFacts(s, p, off, subs, len, n);
      assert s.ns[m].base >= BASE || s.ns[m].base <= 0;
    }
  }

  lemma MoveFreeKinds(s: Snap, p: int, off: int, subs: seq<Word>, len: nat)
    requires MoveFits(s, p, off, subs, len)
    ensures FreeZero(Moved(s, p, off, subs, len))
    ensures KindsOk(Moved(s, p, off, subs, len))
  {
    forall x | 0 <= x < len && x !in MovedPath(s, p, off, subs)
      ensures MovedNode(s.ns, p, off, subs, x) == FREE_NODE
    {
      MoveFreeAt(s, p, off, subs, x);
    }
    forall n | n in MovedPath(s, p, off, subs)
      ensures MovedNode(s.ns, p, off, subs, n).base >= BASE ||
              MovedNode(s.ns, p, off, subs, n).base <= 0
    {
      MoveKindAt(s, p, off, subs, len, n);
    }
  }

  /** A leaf of the moved snapshot owns the tail record it points to. */
  lemma MoveLeafAt(s: Snap, p: int, off: int, subs: seq<Word>, len: nat, n: int)
    requires MoveFits(s, p, off, subs, len) && n in MovedPath(s, p, off, subs)
    requires MovedNode(s.ns, p, off, subs, n).base <= 0
    ensures -MovedNode(s.ns, p, off, subs, n).base < |s.ts|
    ensures MovedTailAt(s.ns, s.ts, s.ns[p].base, off, subs, -MovedNode(s.ns, p, off, subs, n).base).usedBy == n
  {
    assert n != p;
    var m := OriginFacts(s, p, off, subs, len, n);
    var t := -s.ns[m].base;
    assert s.ns[m].base <= 0;
    assert 0 <= t < |s.ts| && s.ts[t].usedBy == m;
    TailOwnerShifts(s.ns, s.ts, s.ns[p].base, off, subs, t, m);
  }

  /** A record owned by `m` names `m`'s shifted slot once the children
      have moved. */
  lemma TailOwnerShifts(ns: seq<Node>, ts: seq<TailRec>, B: int, off: int, W: seq<Word>, t: int, m: int)
    requires 0 <= t < |ts| && ts[t].usedBy == m
    ensures MovedTailAt(ns, ts, B, off, W, t).usedBy == Shift(ns, B, off, W, m)
  {
  }

  /** A tail record of the moved snapshot is free or owned by the moved
      leaf that points to it. */
  lemma MoveTailAt(s: Snap, p: int, off: int, subs: seq<Word>, len: nat, t: int)
    requires MoveFits(s, p, off, subs, len) && 0 <= t < |s.ts|
    ensures var r := MovedTailAt(s.ns, s.ts, s.ns[p].base, off, subs, t);
            if r.usedBy == 0 then r == FREE_TAIL
            else r.usedBy in MovedPath(s, p, off, subs) && 0 <= r.usedBy < len &&
                 MovedNode(s.ns, p, off, subs, r.usedBy).base == -t
  {
    var B := s.ns[p].base;
    var u := s.ts[t].usedBy;
    var r := MovedTailAt(s.ns, s.ts, B, off, subs, t);
    PNotMoved(s, p, off, subs);
    assert TailOk(s, t);
    if u == 0 {
      assert r == s.ts[t];
    } else {
      assert u in s.path && 0 <= u < |s.ns| && s.ns[u].base == -t;
      assert u != p;
      var u2 := ImageFacts(s, p, off, subs, len, u);
      assert r.usedBy == u2;
      assert u > 0;
    }
  }

  lemma MoveTails(s: Snap, p: int, off: int, subs: seq<Word>, len: nat)
    requires MoveFits(s, p, off, subs, len)
    ensures LeavesOk(Moved(s, p, off, subs, len))
    ensures TailsOk(Moved(s, p, off, subs, len))
  {
    var s' := Moved(s, p, off, subs, len);
    forall n | n in s'.path && 0 <= n < |s'.ns| && s'.ns[n].base <= 0
      ensures -s'.ns[n].base < |s'.ts| && s'.ts[-s'.ns[n].base].usedBy == n
    {
      MoveLeafAt(s, p, off, subs, len, n);
    }
    forall t | 0 <= t < |s'.ts|
      ensures TailOk(s', t)
    {
      MoveTailAt(s, p, off, subs, len, t);
    }
  }

  /** A leaf that reappears with the same path and the same base stores
      the same key and payload; the tail records keep their words and
      payloads. */
  lemma LeafTransfer(s: Snap, p: int, off: int, subs: seq<Word>, len: nat, m: int, m2: int)
    requires p in s.path && 0 <= p < |s.ns| && m in s.path && IsLeaf(s, m)
    requires 0 <= m2 < len && m2 in MovedPath(s, p, off, subs)
    requires MovedPath(s, p, off, subs)[m2] == s.path[m]
    requires MovedNode(s.ns, p, off, subs, m2).base == s.ns[m].base
    ensures LeafFor(Moved(s, p, off, subs, len), m2, FullKey(s, m))
    ensures Payload(Moved(s, p, off, subs, len), m2) == Payload(s, m)
  {
  }

  /** The leaf recorded for a key after the move stores that key. */
  lemma MoveKeyOfLeaf(s: Snap, p: int, off: int, subs: seq<Word>, len: nat, k: seq<Word>)
    requires MoveFits(s, p, off, subs, len) && k in s.leafOf
    ensures k in MovedLeafOf(s, p, off, subs)
    ensures LeafFor(Moved(s, p, off, subs, len), MovedLeafOf(s, p, off, subs)[k], k)
    ensures s.contents[k] == Payload(Moved(s, p, off, subs, len), MovedLeafOf(s, p, off, subs)[k])
  {
    var L := s.leafOf[k];
    assert LeafFor(s, L, k) && s.contents[k] == Payload(s, L);
    assert L != p;
    var L2 := ImageFacts(s, p, off, subs, len, L);
    assert MovedLeafOf(s, p, off, subs)[k] == L2;
    LeafTransfer(s, p, off, subs, len, L, L2);
  }

  /** Every leaf after the move is the recorded leaf of its key. */
  lemma MoveLeafKey(s: Snap, p: int, off: int, subs: seq<Word>, len: nat, n: int)
    requires MoveFits(s, p, off, subs, len) && n in MovedPath(s, p, off, subs)
    requires IsLeaf(Moved(s, p, off, subs, len), n)
    ensures FullKey(Moved(s, p, off, subs, len), n) in MovedLeafOf(s, p, off, subs)
    ensures MovedLeafOf(s, p, off, subs)[FullKey(Moved(s, p, off, subs, len), n)] == n
  {
    assert MovedNode(s.ns, p, off, subs, n).base <= 0;
    assert n != p;
    var m := OriginFacts(s, p, off, subs, len, n);
    assert IsLeaf(s, m);
    assert s.leafOf[FullKey(s, m)] == m;
    LeafTransfer(s, p, off, subs, len, m, n);
  }

  lemma MoveKeys(s: Snap, p: int, off: int, subs: seq<Word>, len: nat)
    requires MoveFits(s, p, off, subs, len)
    ensures KeysOk(Moved(s, p, off, subs, len))
  {
    var s' := Moved(s, p, off, subs, len);
    forall k | k in s'.leafOf
      ensures LeafFor(s', s'.leafOf[k], k) && s'.contents[k] == Payload(s', s'.leafOf[k])
    {
      MoveKeyOfLeaf(s, p, off, subs, len, k);
    }
    forall n | n in s'.path && IsLeaf(s', n)
      ensures FullKey(s', n) in s'.leafOf && s'.leafOf[FullKey(s', n)] == n
    {
      MoveLeafKey(s, p, off, subs, len, n);
    }
  }

  /** Moving the children of `p` keeps the invariant and the stored map. */
  lemma MoveKeepsInv(s: Snap, p: int, off: int, subs: seq<Word>, len: nat)
    requires MoveFits(s, p, off, subs, len)
    ensures Inv(Moved(s, p, off, subs, len))
    ensures Moved(s, p, off, subs, len).contents == s.contents
  {
    MoveSkeleton(s, p, off, subs, len);
    MoveFreeKinds(s, p, off, subs, len);
    MoveTails(s, p, off, subs, len);
    MoveKeys(s, p, off, subs, len);
  }
}
