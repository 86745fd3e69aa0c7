/** What a relocation means to the insertion that triggers it: which
    slots the new base leaves open, which slots the move frees, where the
    nodes on the insertion path end up, and that the move changes nothing
    a lookup can observe. */
module TrieCollision {
  import opened TrieTypes
  import opened TrieInvariant
  import opened TrieRelocate
  import opened TrieFacts

  /** Slot `x` can take a new node: it lies beyond the array or is free. */
  predicate SlotOpen(ns: seq<Node>, x: int)
  {
    x >= |ns| || (0 <= x && ns[x].prev == 0)
  }

  /** Every child slot `b + w`, for `w` in `subs`, can take a node. */
  predicate BaseFits(ns: seq<Node>, b: int, subs: seq<Word>)
  {
    forall w :: w in subs ==> SlotOpen(ns, b + w)
  }

  /** The search of `adjust` with the children alone. */
  method NewBase(ns: seq<Node>, tn: int, subs: seq<Word>) returns (base: int)
    requires 0 <= tn < |ns| && ns[tn].base >= BASE && ChildList(ns, tn, subs) && |subs| > 0
    ensures ns[tn].base < base && BaseFits(ns, base, subs)
    ensures forall b :: ns[tn].base < b < base ==> !BaseFits(ns, b, subs)
  {
    assert IsChild(ns, tn, subs[0]);
    base := ns[tn].base + 1;
    var i := 0;
    while i < |subs|
      invariant 0 <= i <= |subs| && ns[tn].base < base <= |ns|
      invariant forall k :: 0 <= k < i ==> SlotOpen(ns, base + subs[k])
      invariant forall b :: ns[tn].base < b < base ==> !BaseFits(ns, b, subs)
      decreases |ns| - base, |subs| - i
    {
      var next := base + subs[i];
      if next < |ns| && ns[next].prev != 0 {
        assert subs[i] in subs && !SlotOpen(ns, base + subs[i]);
        base := base + 1;
        i := 0;
      } else {
        i := i + 1;
      }
    }
    assert BaseFits(ns, base, subs) by {
      forall w | w in subs
        ensures SlotOpen(ns, base + w)
      {
        var k :| 0 <= k < |subs| && subs[k] == w;
      }
    }
  }

  /** The search of `adjust` with the children and one more symbol. */
  method NewBaseFor(ns: seq<Node>, tn: int, subs: seq<Word>, word: Word) returns (base: int)
    requires 0 <= tn < |ns| && ns[tn].base >= BASE
    ensures ns[tn].base < base && SlotOpen(ns, base + word) && BaseFits(ns, base, subs)
    ensures forall b :: ns[tn].base < b < base ==>
              !(SlotOpen(ns, b + word) && BaseFits(ns, b, subs))
  {
    base := ns[tn].base + 1;
    ghost var top := if |ns| > base then |ns| else base;
    while true
      invariant ns[tn].base < base <= top
      invariant forall b :: ns[tn].base < b < base ==>
                  !(SlotOpen(ns, b + word) && BaseFits(ns, b, subs))
      decreases top - base
    {
      var next := base + word;
      while next < |ns| && ns[next].prev != 0
        invariant next == base + word && ns[tn].base < base <= top
        invariant forall b :: ns[tn].base < b < base ==>
                    !(SlotOpen(ns, b + word) && BaseFits(ns, b, subs))
        decreases top - base
      {
        base := base + 1;
        next := next + 1;
      }
      ghost var b0 := base;
      var i := 0;
      while i < |subs|
        invariant 0 <= i <= |subs| && base == b0 && SlotOpen(ns, b0 + word)
        invariant forall k :: 0 <= k < i ==> SlotOpen(ns, base + subs[k])
      {
        next := base + subs[i];
        if next < |ns| && ns[next].prev != 0 {
          assert subs[i] in subs && !SlotOpen(ns, base + subs[i]);
          base := base + 1;
          break;
        }
        i := i + 1;
      }
      if i == |subs| {
        break;
      }
    }
    assert BaseFits(ns, base, subs) by {
      forall w | w in subs
        ensures SlotOpen(ns, base + w)
      {
        var k :| 0 <= k < |subs| && subs[k] == w;
      }
    }
  }

  /** The slots `b + a` and `b + c` can both take a node. */
  predicate PairFits(ns: seq<Node>, b: int, a: Word, c: Word)
  {
    SlotOpen(ns, b + a) && SlotOpen(ns, b + c)
  }

  /** The scan of `insert` for the slot a pushed-down leaf moves to: the
      first slot at or after `start` that can take a node. */
  method FirstFree(ns: seq<Node>, start: int) returns (next: int)
    requires start >= 0
    ensures start <= next && SlotOpen(ns, next) && (next <= |ns| || next == start)
    ensures forall x :: start <= x < next ==> !SlotOpen(ns, x)
  {
    next := start;
    while next < |ns| && ns[next].prev != 0
      invariant start <= next && (next <= |ns| || next == start)
      invariant forall x :: start <= x < next ==> !SlotOpen(ns, x)
      decreases |ns| - next
    {
      next := next + 1;
    }
  }

  /** The scan of `insert` for the base of a split leaf: the first base at
      or after `start` whose slots for both symbols `a` and `c` can take a
      node. */
  method SplitBase(ns: seq<Node>, start: int, a: Word, c: Word) returns (base: int)
    requires start >= 0
    ensures start <= base && PairFits(ns, base, a, c)
    ensures forall b :: start <= b < base ==> !PairFits(ns, b, a, c)
  {
    base := start;
    ghost var top := if |ns| > start then |ns| else start;
    while (base + a < |ns| && ns[base + a].prev != 0) || (base + c < |ns| && ns[base + c].prev != 0)
      invariant start <= base <= top
      invariant forall b :: start <= b < base ==> !PairFits(ns, b, a, c)
      decreases top - base
    {
      base := base + 1;
    }
  }

  /** A base above the old one that fits the children lets them move
      there. */
  lemma FitsAllowMove(s: Snap, p: int, nb: int, subs: seq<Word>)
    requires Inv(s) && p in s.path && 0 <= p < |s.ns| && s.ns[p].base >= BASE
    requires nb > s.ns[p].base && ChildList(s.ns, p, subs) && BaseFits(s.ns, nb, subs)
    ensures MovePre(s, p, nb - s.ns[p].base, subs)
  {
    var B := s.ns[p].base;
    var off := nb - B;
    forall x | IsDst(s.ns, B, off, subs, x)
      ensures x >= |s.ns| || s.ns[x].prev == 0
    {
      var w :| w in subs && w == x - off - B;
      assert x == nb + w;
    }
  }

  /** A live node other than `p` reappears after the move with the same
      path and base: one `off` further on when it was a child of `p`, in
      place otherwise. */
  lemma MovedNodeOf(s: Snap, p: int, off: int, subs: seq<Word>, len: nat, n: int)
    returns (n2: int)
    requires MoveFits(s, p, off, subs, len) && n in s.path && n != p
    ensures n2 == if n != ROOT && s.ns[n].prev == p then n + off else n
    ensures var m := Moved(s, p, off, subs, len);
            n2 in m.path && 0 <= n2 < |m.ns| && m.path[n2] == s.path[n] &&
            m.ns[n2].base == s.ns[n].base
  {
    var B := s.ns[p].base;
    n2 := ImageFacts(s, p, off, subs, len, n);
    if n != ROOT && s.ns[n].prev == p {
      ChildOfPIsSrc(s, p, off, subs, n);
    }
    assert IsSrc(s.ns, B, subs, n) ==> n != ROOT && s.ns[n].prev == p by {
      if IsSrc(s.ns, B, subs, n) {
        var w :| w in subs && w == n - B;
        SrcFacts(s, p, off, subs, w, n);
      }
    }
  }

  /** `p` keeps its slot and its path, and its base moves by `off`. */
  lemma MovedParent(s: Snap, p: int, off: int, subs: seq<Word>, len: nat)
    requires MoveFits(s, p, off, subs, len)
    ensures var m := Moved(s, p, off, subs, len);
            p in m.path && 0 <= p < |m.ns| && m.path[p] == s.path[p] &&
            m.ns[p].base == s.ns[p].base + off
  {
    PNotMoved(s, p, off, subs);
    MovedPathLive(s, p, off, subs, p);
  }

  /** The old slot of a moved child is free afterwards. */
  lemma MovedVacates(s: Snap, p: int, off: int, subs: seq<Word>, len: nat, w: Word)
    requires MoveFits(s, p, off, subs, len) && w in subs
    ensures SlotOpen(Moved(s, p, off, subs, len).ns, s.ns[p].base + w)
  {
    var c := s.ns[p].base + w;
    SrcFacts(s, p, off, subs, w, c);
    NodeAtSrc(s, p, off, subs, w);
    assert MovedNodes(s.ns, p, off, subs, len)[c] == MovedAt(s.ns, s.ns[p].base, off, subs, c);
  }

  /** A slot that could take a node before the move and is not a target
      slot still can afterwards. */
  lemma MovedOpenStays(s: Snap, p: int, off: int, subs: seq<Word>, len: nat, x: int)
    requires MoveFits(s, p, off, subs, len) && x > ROOT && SlotOpen(s.ns, x)
    requires !IsDst(s.ns, s.ns[p].base, off, subs, x)
    ensures SlotOpen(Moved(s, p, off, subs, len).ns, x)
  {
    var B := s.ns[p].base;
    if x < |s.ns| {
      assert x !in s.path by {
        assert x in s.path ==> Linked(s, x);
      }
      NodeAtDead(s, p, off, subs, x);
      assert p != x;
    }
  }

  /** The slot a new symbol will take, open before the move, stays open. */
  lemma MovedKeepsRoom(s: Snap, p: int, off: int, subs: seq<Word>, len: nat, w: Word, nb: int, m: Snap)
    requires MoveFits(s, p, off, subs, len) && m == Moved(s, p, off, subs, len) && !IsChild(s.ns, p, w)
    requires nb == s.ns[p].base + off && SlotOpen(s.ns, nb + w)
    ensures 0 <= p < |m.ns| && m.ns[p].base == nb && nb + w >= 0
    ensures nb + w < |m.ns| ==> m.ns[nb + w].prev == 0
  {
    assert s.ns[p].base >= BASE && off > 0;
    assert w !in subs;
    MovedOpenStays(s, p, off, subs, len, nb + w);
    MovedParent(s, p, off, subs, len);
    assert m.ns[p].base == nb;
  }

  /** What can be followed is the same before and after the move. */
  lemma MovedKnown(s: Snap, p: int, off: int, subs: seq<Word>, len: nat, q: seq<Word>)
    requires MoveFits(s, p, off, subs, len)
    ensures Known(Moved(s, p, off, subs, len), q) <==> Known(s, q)
  {
    var m := Moved(s, p, off, subs, len);
    MovedParent(s, p, off, subs, len);
    if n :| n in s.path && s.path[n] == q {
      if n != p {
        var n2 := ImageFacts(s, p, off, subs, len, n);
        assert m.path[n2] == q;
      } else {
        assert m.path[p] == q;
      }
    }
    if n :| n in m.path && m.path[n] == q {
      if n != p {
        var n0 := OriginFacts(s, p, off, subs, len, n);
        assert s.path[n0] == q;
      } else {
        assert s.path[p] == q;
      }
    }
  }

  /** Nothing that can be followed changes with a move. */
  lemma MovedKnownAll(s: Snap, p: int, off: int, subs: seq<Word>, len: nat)
    requires MoveFits(s, p, off, subs, len)
    ensures forall q :: Known(Moved(s, p, off, subs, len), q) <==> Known(s, q)
  {
    forall q
      ensures Known(Moved(s, p, off, subs, len), q) <==> Known(s, q)
    {
      MovedKnown(s, p, off, subs, len, q);
    }
  }

  /** Moving the children of `np`, the owner of slot `next` that node `n`
      wants for symbol `w`: `n` ends up at `n2` (at `np`'s new base plus
      the last symbol of its path when it is a child of `np`, in place
      otherwise) with its path and base, and `next` is open. */
  lemma OtherMoved(s: Snap, np: int, off: int, subs: seq<Word>, len: nat, m: Snap,
                   n: int, w: Word, next: int, key: seq<Word>, i: nat)
    returns (n2: int)
    requires MoveFits(s, np, off, subs, len) && m == Moved(s, np, off, subs, len)
    requires n in s.path && n != np && np != 0
    requires 0 <= n < |s.ns| && s.ns[n].base >= BASE
    requires next == s.ns[n].base + w && next < |s.ns| && s.ns[next].prev == np
    requires i < |key| && key[i] == w && s.path[n] == key[..i]
    ensures n2 in m.path && m.path[n2] == s.path[n] && 0 <= n2 < |m.ns|
    ensures m.ns[n2].base >= BASE && next == m.ns[n2].base + w
    ensures next < |m.ns| && m.ns[next].prev == 0
    ensures ClaimReady(m, n2, key, i)
    ensures s.ns[n].prev == np ==> |s.path[n]| > 0
    ensures 0 <= np < |m.ns| &&
            n2 == if s.ns[n].prev == np then m.ns[np].base + Last(s.path[n]) else n
  {
    assert next in s.path && Linked(s, next) by {
      assert s.ns[next] != FREE_NODE;
    }
    var u := Last(s.path[next]);
    assert IsChild(s.ns, np, u) && u in subs;
    n2 := MovedNodeOf(s, np, off, subs, len, n);
    MovedParent(s, np, off, subs, len);
    MovedVacates(s, np, off, subs, len, u);
    assert s.ns[n].prev == np ==> n != ROOT && Linked(s, n);
  }

  /** Moving the children of `p` itself: `p` keeps its path and stays a
      branching node. */
  lemma OwnMoved(s: Snap, p: int, off: int, subs: seq<Word>, len: nat, m: Snap)
    requires MoveFits(s, p, off, subs, len) && m == Moved(s, p, off, subs, len)
    ensures p in m.path && m.path[p] == s.path[p] && 0 <= p < |m.ns| && m.ns[p].base >= BASE
  {
    MovedParent(s, p, off, subs, len);
  }

  /** What the end of a successful insertion below branching node `tn`
      needs: `tn` lies on the path `key[..i]` and the slot for `key[i]`
      below its base can take a node. */
  ghost predicate ClaimReady(s: Snap, tn: int, key: seq<Word>, i: nat)
  {
    i < |key| && tn in s.path && 0 <= tn < |s.ns| && s.ns[tn].base >= BASE &&
    s.path[tn] == key[..i] && SlotOpen(s.ns, s.ns[tn].base + key[i])
  }

  /** After `tn`'s own children move to base `nb`, chosen to leave the
      slot for `key[i]` open, the insertion can end below `tn`. */
  lemma OwnReady(s: Snap, tn: int, off: int, subs: seq<Word>, len: nat, m: Snap,
                 w: Word, nb: int, key: seq<Word>, i: nat)
    requires MoveFits(s, tn, off, subs, len) && m == Moved(s, tn, off, subs, len) && !IsChild(s.ns, tn, w)
    requires nb == s.ns[tn].base + off && SlotOpen(s.ns, nb + w)
    requires i < |key| && key[i] == w && s.path[tn] == key[..i]
    ensures ClaimReady(m, tn, key, i)
  {
    MovedKeepsRoom(s, tn, off, subs, len, w, nb, m);
    OwnMoved(s, tn, off, subs, len, m);
  }
}
