/** `move` one child at a time: the node array part-way through the loop
    is `MovedAt` for the children handled so far, and handling the next
    child `w` re-parents the children of `B + w`, copies it to
    `B + off + w`, re-owns its tail record and zeroes its old slot. */
module TrieMoveSteps {
  import opened TrieTypes
  import opened TrieInvariant
  import opened TrieRelocate
  import opened TrieSteps

  /** A slot vacated by the children `W` was vacated by the children
      `V` when `W` is a prefix of `V`. */
  lemma SrcPrefix(ns: seq<Node>, B: int, V: seq<Word>, i: nat, y: int)
    requires i <= |V|
    ensures IsSrc(ns, B, V[..i], y) ==> IsSrc(ns, B, V, y)
  {
    if IsSrc(ns, B, V[..i], y) {
      var k :| 0 <= k < i && V[k] == y - B;
      assert V[k] in V;
    }
  }

  /** One more child: the slots it vacates are the old ones and its own. */
  lemma SrcStep(ns: seq<Node>, B: int, V: seq<Word>, i: nat, y: int)
    requires i < |V|
    ensures IsSrc(ns, B, V[..i + 1], y) <==>
            IsSrc(ns, B, V[..i], y) || (0 <= y < |ns| && y == B + V[i])
  {
    assert V[..i + 1] == V[..i] + [V[i]];
  }

  /** In a strictly increasing list, an element is not among those before
      it. */
  lemma NotBefore(V: seq<Word>, i: nat)
    requires i < |V| && forall a, b :: 0 <= a < b < |V| ==> V[a] < V[b]
    ensures V[i] !in V[..i]
  {
    forall k | 0 <= k < i
      ensures V[..i][k] != V[i]
    {
      assert V[k] < V[i];
    }
  }

  /** Part-way through the move, `p` is untouched. */
  lemma StageAtP(s: Snap, p: int, off: int, subs: seq<Word>, i: nat)
    requires MovePre(s, p, off, subs) && i <= |subs|
    ensures MovedAt(s.ns, s.ns[p].base, off, subs[..i], p) == s.ns[p]
  {
    var B := s.ns[p].base;
    PNotMoved(s, p, off, subs);
    LiveNotTarget(s, p, off, subs, p);
    SrcPrefix(s.ns, B, subs, i, p);
    SrcPrefix(s.ns, B, subs, i, s.ns[p].prev);
    SrcPrefix(s.ns, B, subs, i, p - off);
  }

  /** Part-way through the move, the next child is still in its old slot
      and its old slot is not yet vacated. */
  lemma StageAtChild(s: Snap, p: int, off: int, subs: seq<Word>, i: nat)
    requires MovePre(s, p, off, subs) && i < |subs|
    ensures var c := s.ns[p].base + subs[i];
            0 < c < |s.ns| && c in s.path && s.ns[c].prev == p &&
            !IsSrc(s.ns, s.ns[p].base, subs[..i], c) &&
            MovedAt(s.ns, s.ns[p].base, off, subs[..i], c) == s.ns[c]
  {
    var B := s.ns[p].base;
    var w := subs[i];
    var c := B + w;
    SrcFacts(s, p, off, subs, w, c);
    LiveNotTarget(s, p, off, subs, c);
    NotBefore(subs, i);
    SrcPrefix(s.ns, B, subs, i, c - off);
    PNotMoved(s, p, off, subs);
    SrcPrefix(s.ns, B, subs, i, p);
  }

  /** A slot holds a child of the next child `c` part-way through the
      move exactly when it does in the original array. */
  lemma StagePrevC(s: Snap, p: int, off: int, subs: seq<Word>, i: nat, x: int)
    requires MovePre(s, p, off, subs) && i < |subs| && 0 <= x
    ensures var B := s.ns[p].base;
            var c := B + subs[i];
            MovedAt(s.ns, B, off, subs[..i], x).prev == c <==> x < |s.ns| && s.ns[x].prev == c
  {
    var B := s.ns[p].base;
    var W := subs[..i];
    var c := B + subs[i];
    StageAtChild(s, p, off, subs, i);
    SrcFacts(s, p, off, subs, subs[i], c);
    SrcPrefix(s.ns, B, subs, i, x);
    SrcPrefix(s.ns, B, subs, i, x - off);
    if IsDst(s.ns, B, off, W, x) {
      SrcPrev(s, p, off, subs, x - off);
      LiveNotTarget(s, p, off, subs, x);
      assert MovedAt(s.ns, B, off, W, x).prev == p;
      assert x < |s.ns| ==> s.ns[x].prev == 0;
    } else if IsSrc(s.ns, B, W, x) {
      SrcPrev(s, p, off, subs, x);
      assert MovedAt(s.ns, B, off, W, x).prev == 0;
    } else if 0 <= x < |s.ns| && IsSrc(s.ns, B, W, s.ns[x].prev) {
      var q := s.ns[x].prev;
      SrcPrefix(s.ns, B, subs, i, q);
      assert q != c;
      assert IsDst(s.ns, B, off, subs, q + off);
      LiveNotTarget(s, p, off, subs, c);
      assert MovedAt(s.ns, B, off, W, x).prev == q + off;
    } else {
      assert MovedAt(s.ns, B, off, W, x) == if x < |s.ns| then s.ns[x] else FREE_NODE;
    }
  }

  /** The next child has the same children part-way through the move as
      in the original array. */
  lemma StageChildren(s: Snap, p: int, off: int, subs: seq<Word>, i: nat, cur: seq<Node>, ss: seq<Word>)
    requires MovePre(s, p, off, subs) && i < |subs| && |cur| >= |s.ns|
    requires cur == Stage(s.ns, s.ns[p].base, off, subs[..i], |cur|)
    requires ChildList(cur, s.ns[p].base + subs[i], ss)
    ensures ChildList(s.ns, s.ns[p].base + subs[i], ss)
  {
    var B := s.ns[p].base;
    var c := B + subs[i];
    StageAtChild(s, p, off, subs, i);
    assert cur[c] == s.ns[c];
    forall v: Word
      ensures v in ss <==> IsChild(s.ns, c, v)
    {
      if s.ns[c].base >= BASE {
        var g := s.ns[c].base + v;
        if 0 <= g < |cur| {
          StagePrevC(s, p, off, subs, i, g);
        }
      }
    }
  }

  /** A vacated slot held a child of `p`. */
  lemma SrcPrev(s: Snap, p: int, off: int, subs: seq<Word>, y: int)
    requires MovePre(s, p, off, subs) && IsSrc(s.ns, s.ns[p].base, subs, y)
    ensures s.ns[y].prev == p
  {
    SrcFacts(s, p, off, subs, y - s.ns[p].base, y);
  }

  /** A child of the next child is a live node other than the child and
      its target. */
  lemma GrandSlot(s: Snap, p: int, off: int, subs: seq<Word>, i: nat, ss: seq<Word>, v: Word)
    requires MovePre(s, p, off, subs) && i < |subs|
    requires ChildList(s.ns, s.ns[p].base + subs[i], ss) && v in ss
    ensures var c := s.ns[p].base + subs[i];
            var x := s.ns[c].base + v;
            0 <= c < |s.ns| && 0 <= x < |s.ns| && x in s.path && x != c && x != c + off &&
            s.ns[x].prev == c && c != p
  {
    var c := s.ns[p].base + subs[i];
    StageAtChild(s, p, off, subs, i);
    SrcFacts(s, p, off, subs, subs[i], c);
    assert IsChild(s.ns, c, v);
    ChildPath(s, c, v);
  }

  /** A child of the next child: untouched so far, re-parented by this
      step. */
  /** The staged arrays before and after a child `c` moves, at a slot
      `x` below `c` that is neither vacated nor a target. */
  lemma StagedGrand(ns: seq<Node>, B: int, off: int, W0: seq<Word>, W1: seq<Word>, x: int, c: int)
    requires 0 <= x < |ns| && ns[x].prev == c
    requires !IsSrc(ns, B, W0, x - off) && !IsSrc(ns, B, W1, x - off)
    requires !IsSrc(ns, B, W0, x) && !IsSrc(ns, B, W1, x)
    requires !IsSrc(ns, B, W0, c) && IsSrc(ns, B, W1, c)
    ensures MovedAt(ns, B, off, W0, x) == ns[x]
    ensures MovedAt(ns, B, off, W1, x) == ns[x].(prev := ns[x].prev + off)
  {
  }

  lemma GrandAt(s: Snap, p: int, off: int, subs: seq<Word>, i: nat, ss: seq<Word>, v: Word)
    requires MovePre(s, p, off, subs) && i < |subs|
    requires ChildList(s.ns, s.ns[p].base + subs[i], ss) && v in ss
    ensures var B := s.ns[p].base;
            var c := B + subs[i];
            var x := s.ns[c].base + v;
            0 <= c < |s.ns| && 0 <= x < |s.ns| && x != c && x != c + off && s.ns[x].prev == c &&
            MovedAt(s.ns, B, off, subs[..i], x) == s.ns[x] &&
            MovedAt(s.ns, B, off, subs[..i + 1], x) == s.ns[x].(prev := s.ns[x].prev + off)
  {
    var B := s.ns[p].base;
    var c := B + subs[i];
    GrandSlot(s, p, off, subs, i, ss, v);
    StageAtChild(s, p, off, subs, i);
    var x := s.ns[c].base + v;
    LiveNotTarget(s, p, off, subs, x);
    assert !IsSrc(s.ns, B, subs, x) by {
      if IsSrc(s.ns, B, subs, x) {
        SrcPrev(s, p, off, subs, x);
      }
    }
    var W0 := subs[..i];
    var W1 := subs[..i + 1];
    SrcPrefix(s.ns, B, subs, i, x);
    SrcPrefix(s.ns, B, subs, i + 1, x);
    SrcPrefix(s.ns, B, subs, i, x - off);
    SrcPrefix(s.ns, B, subs, i + 1, x - off);
    SrcStep(s.ns, B, subs, i, c);
    StagedGrand(s.ns, B, off, W0, W1, x, c);
  }

  /** Any other slot is not affected by this step. */
  lemma OtherAt(s: Snap, p: int, off: int, subs: seq<Word>, i: nat, ss: seq<Word>, x: int)
    requires MovePre(s, p, off, subs) && i < |subs|
    requires ChildList(s.ns, s.ns[p].base + subs[i], ss)
    requires var c := s.ns[p].base + subs[i];
             0 <= c < |s.ns| && x != c && x != c + off && !IsSrc(s.ns, s.ns[c].base, ss, x)
    ensures MovedAt(s.ns, s.ns[p].base, off, subs[..i + 1], x) ==
            MovedAt(s.ns, s.ns[p].base, off, subs[..i], x)
  {
    var B := s.ns[p].base;
    var c := B + subs[i];
    StageAtChild(s, p, off, subs, i);
    SrcStep(s.ns, B, subs, i, x);
    SrcStep(s.ns, B, subs, i, x - off);
    if 0 <= x < |s.ns| {
      SrcStep(s.ns, B, subs, i, s.ns[x].prev);
      assert s.ns[x].prev == c ==> x != ROOT && x in s.path && Linked(s, x);
      assert s.ns[x].prev == c ==> IsChild(s.ns, c, Last(s.path[x]));
    }
  }

  /** Every slot during this step: a child of the next child is neither
      the child nor its target, and any other slot is left as it was. */
  lemma StepAt(s: Snap, p: int, off: int, subs: seq<Word>, i: nat, ss: seq<Word>, x: int)
    requires MovePre(s, p, off, subs) && i < |subs|
    requires ChildList(s.ns, s.ns[p].base + subs[i], ss)
    ensures var c := s.ns[p].base + subs[i];
            0 <= c < |s.ns| &&
            (IsSrc(s.ns, s.ns[c].base, ss, x) ==> x != c && x != c + off) &&
            (x != c && x != c + off && !IsSrc(s.ns, s.ns[c].base, ss, x) ==>
               MovedAt(s.ns, s.ns[p].base, off, subs[..i + 1], x) ==
               MovedAt(s.ns, s.ns[p].base, off, subs[..i], x))
  {
    var c := s.ns[p].base + subs[i];
    StageAtChild(s, p, off, subs, i);
    if IsSrc(s.ns, s.ns[c].base, ss, x) {
      GrandSlot(s, p, off, subs, i, ss, x - s.ns[c].base);
    } else if x != c && x != c + off {
      OtherAt(s, p, off, subs, i, ss, x);
    }
  }

  /** This step vacates the child's slot and fills its target. */
  lemma AtChildAndTarget(s: Snap, p: int, off: int, subs: seq<Word>, i: nat)
    requires MovePre(s, p, off, subs) && i < |subs|
    ensures var c := s.ns[p].base + subs[i];
            0 <= c < |s.ns| &&
            MovedAt(s.ns, s.ns[p].base, off, subs[..i + 1], c) == FREE_NODE &&
            MovedAt(s.ns, s.ns[p].base, off, subs[..i + 1], c + off) == s.ns[c]
  {
    var B := s.ns[p].base;
    var c := B + subs[i];
    StageAtChild(s, p, off, subs, i);
    SrcFacts(s, p, off, subs, subs[i], c);
    LiveNotTarget(s, p, off, subs, c);
    SrcPrefix(s.ns, B, subs, i + 1, c - off);
    SrcStep(s.ns, B, subs, i, c);
    SrcStep(s.ns, B, subs, i, c + off - off);
  }

  /** Beyond the slots touched so far, the array is zero. */
  lemma StageBeyond(s: Snap, p: int, off: int, subs: seq<Word>, i: nat, len: nat, x: int)
    requires MovePre(s, p, off, subs) && i <= |subs| && len >= |s.ns| && x >= len
    requires forall w :: w in subs[..i] ==> s.ns[p].base + off + w < len
    ensures MovedAt(s.ns, s.ns[p].base, off, subs[..i], x) == FREE_NODE
  {
    var B := s.ns[p].base;
    assert x - off - B !in subs[..i];
  }

  /** Only the tail record of the moving child changes owner. */
  lemma TailStep(s: Snap, p: int, off: int, subs: seq<Word>, i: nat, t: int)
    requires MovePre(s, p, off, subs) && i < |subs| && 0 <= t < |s.ts|
    ensures var B := s.ns[p].base;
            var c := B + subs[i];
            MovedTailAt(s.ns, s.ts, B, off, subs[..i + 1], t) ==
              if s.ts[t].usedBy == c then s.ts[t].(usedBy := c + off)
              else MovedTailAt(s.ns, s.ts, B, off, subs[..i], t)
    ensures var c := s.ns[p].base + subs[i];
            0 <= c < |s.ns| && (s.ts[t].usedBy == c ==> s.ns[c].base <= 0 && t == -s.ns[c].base)
    ensures var c := s.ns[p].base + subs[i];
            0 <= c < |s.ns| && s.ns[c].base <= 0 ==> -s.ns[c].base < |s.ts| && s.ts[-s.ns[c].base].usedBy == c
  {
    var B := s.ns[p].base;
    var c := B + subs[i];
    StageAtChild(s, p, off, subs, i);
    SrcStep(s.ns, B, subs, i, s.ts[t].usedBy);
    assert TailOk(s, t);
  }

  // ---------------------------------------------------------------------
  // The loop state as whole arrays

  /** The node array of length `len` once the children `W` have moved. */
  function Stage(ns: seq<Node>, B: int, off: int, W: seq<Word>, len: nat): (r: seq<Node>)
    ensures |r| == len && forall x :: 0 <= x < len ==> r[x] == MovedAt(ns, B, off, W, x)
  {
    seq(len, x => MovedAt(ns, B, off, W, x))
  }

  /** The tail array once the children `W` have moved. */
  function TailStage(ns: seq<Node>, ts: seq<TailRec>, B: int, off: int, W: seq<Word>): (r: seq<TailRec>)
    ensures |r| == |ts| && forall t :: 0 <= t < |ts| ==> r[t] == MovedTailAt(ns, ts, B, off, W, t)
  {
    seq(|ts|, t requires 0 <= t < |ts| => MovedTailAt(ns, ts, B, off, W, t))
  }

  /** `a` with the slots `cb + v`, `v` in `V`, naming a parent `off`
      further on. */
  function Regraft(a: seq<Node>, cb: int, off: int, V: seq<Word>): (r: seq<Node>)
    ensures |r| == |a|
    ensures forall x :: 0 <= x < |a| ==>
              r[x] == if IsSrc(a, cb, V, x) then a[x].(prev := a[x].prev + off) else a[x]
  {
    seq(|a|, x requires 0 <= x < |a| =>
      if IsSrc(a, cb, V, x) then a[x].(prev := a[x].prev + off) else a[x])
  }

  /** The two slots the loop reads part-way through the move: `p` and
      the next child are untouched. */
  lemma StageReads(s: Snap, p: int, off: int, subs: seq<Word>, i: nat, len: nat)
    requires MovePre(s, p, off, subs) && i < |subs| && len >= |s.ns|
    ensures var st := Stage(s.ns, s.ns[p].base, off, subs[..i], len);
            var c := s.ns[p].base + subs[i];
            0 <= p < |s.ns| && 0 <= c < |s.ns| && c != p && st[p] == s.ns[p] && st[c] == s.ns[c]
  {
    StageAtP(s, p, off, subs, i);
    StageAtChild(s, p, off, subs, i);
    SrcFacts(s, p, off, subs, subs[i], s.ns[p].base + subs[i]);
  }

  /** A free tail record stays free. */
  lemma TailFreeStays(s: Snap, p: int, off: int, subs: seq<Word>, t: int)
    requires MovePre(s, p, off, subs) && 0 <= t < |s.ts| && s.ts[t].usedBy == 0
    ensures MovedTails(s.ns, s.ts, p, off, subs)[t] == s.ts[t]
  {
  }

  /** Before the first child, nothing has moved. */
  lemma StageStart(s: Snap, p: int, off: int, subs: seq<Word>)
    requires MovePre(s, p, off, subs)
    ensures Stage(s.ns, s.ns[p].base, off, subs[..0], |s.ns|) == s.ns
    ensures TailStage(s.ns, s.ts, s.ns[p].base, off, subs[..0]) == s.ts
  {
  }

  /** Re-parenting one more grandchild, in the order of `V`. */
  lemma RegraftStep(a: seq<Node>, cb: int, off: int, V: seq<Word>, j: nat)
    requires j < |V| && V[j] !in V[..j] && 0 <= cb + V[j] < |a|
    ensures var g := cb + V[j];
            Regraft(a, cb, off, V[..j + 1]) ==
            Regraft(a, cb, off, V[..j])[g := a[g].(prev := a[g].prev + off)]
  {
    forall x
      ensures IsSrc(a, cb, V[..j + 1], x) <==> IsSrc(a, cb, V[..j], x) || (0 <= x < |a| && x == cb + V[j])
    {
      SrcStep(a, cb, V, j, x);
    }
  }

  /** One slot once child `subs[i]` has been handled: its old slot is
      zeroed, its target holds it, its children are re-parented, and the
      array may have grown from `len1` to `len2` slots. */
  lemma StepSlot(s: Snap, p: int, off: int, subs: seq<Word>, i: nat, ss: seq<Word>,
                 len1: nat, len2: nat, x: int)
    requires MovePre(s, p, off, subs) && i < |subs|
    requires ChildList(s.ns, s.ns[p].base + subs[i], ss)
    requires |s.ns| <= len1 <= len2 && RoomFor(s.ns[p].base, off, subs[..i], len1)
    requires s.ns[p].base + subs[i] + off < len2 && 0 <= x < len2
    ensures var B := s.ns[p].base;
            var c := B + subs[i];
            var st := Stage(s.ns, B, off, subs[..i], len1);
            0 <= c < |s.ns| &&
            (Regraft(st, s.ns[c].base, off, ss) + FreeNodes(len2 - len1))[c + off := s.ns[c]][c := FREE_NODE][x] ==
            MovedAt(s.ns, B, off, subs[..i + 1], x)
  {
    var B := s.ns[p].base;
    var c := B + subs[i];
    StageAtChild(s, p, off, subs, i);
    var cb := s.ns[c].base;
    var st := Stage(s.ns, B, off, subs[..i], len1);
    var r := Regraft(st, cb, off, ss);
    var e := r + FreeNodes(len2 - len1);
    var a := e[c + off := s.ns[c]][c := FREE_NODE];
    var W1 := subs[..i + 1];
    if x == c {
      AtChildAndTarget(s, p, off, subs, i);
      assert a[x] == FREE_NODE == MovedAt(s.ns, B, off, W1, x);
    } else if x == c + off {
      AtChildAndTarget(s, p, off, subs, i);
      assert a[x] == s.ns[c] == MovedAt(s.ns, B, off, W1, x);
    } else if x < len1 {
      assert a[x] == r[x];
      if IsSrc(st, cb, ss, x) {
        GrandAt(s, p, off, subs, i, ss, x - cb);
        assert r[x] == st[x].(prev := st[x].prev + off) == MovedAt(s.ns, B, off, W1, x);
      } else {
        StepAt(s, p, off, subs, i, ss, x);
        assert r[x] == st[x] == MovedAt(s.ns, B, off, W1, x);
      }
    } else {
      StepAt(s, p, off, subs, i, ss, x);
      StageBeyond(s, p, off, subs, i, len1, x);
      assert a[x] == FREE_NODE == MovedAt(s.ns, B, off, W1, x);
    }
  }

  /** The whole node array once child `subs[i]` has been handled. */
  lemma StageStep(s: Snap, p: int, off: int, subs: seq<Word>, i: nat, ss: seq<Word>, len1: nat, len2: nat)
    requires MovePre(s, p, off, subs) && i < |subs|
    requires ChildList(s.ns, s.ns[p].base + subs[i], ss)
    requires |s.ns| <= len1 <= len2 && RoomFor(s.ns[p].base, off, subs[..i], len1)
    requires s.ns[p].base + subs[i] + off < len2
    ensures var B := s.ns[p].base;
            var c := B + subs[i];
            0 <= c < |s.ns| &&
            (Regraft(Stage(s.ns, B, off, subs[..i], len1), s.ns[c].base, off, ss) + FreeNodes(len2 - len1))
              [c + off := s.ns[c]][c := FREE_NODE] ==
            Stage(s.ns, B, off, subs[..i + 1], len2)
    ensures RoomFor(s.ns[p].base, off, subs[..i + 1], len2)
  {
    var B := s.ns[p].base;
    var c := B + subs[i];
    StageAtChild(s, p, off, subs, i);
    var a := (Regraft(Stage(s.ns, B, off, subs[..i], len1), s.ns[c].base, off, ss) + FreeNodes(len2 - len1))
               [c + off := s.ns[c]][c := FREE_NODE];
    forall x | 0 <= x < len2
      ensures a[x] == MovedAt(s.ns, B, off, subs[..i + 1], x)
    {
      StepSlot(s, p, off, subs, i, ss, len1, len2, x);
    }
    assert subs[..i + 1] == subs[..i] + [subs[i]];
  }

  /** The tail array once child `subs[i]`, whose node is `n`, has been
      handled, in the shape the loop produces it. */
  lemma TailStageFrom(s: Snap, p: int, off: int, subs: seq<Word>, i: nat, ts: seq<TailRec>, n: Node)
    requires MovePre(s, p, off, subs) && i < |subs|
    requires 0 <= s.ns[p].base + subs[i] < |s.ns| && n == s.ns[s.ns[p].base + subs[i]]
    requires ts == TailStage(s.ns, s.ts, s.ns[p].base, off, subs[..i])
    ensures n.base <= 0 ==> -n.base < |ts|
    ensures (if n.base <= 0 then ts[-n.base := ts[-n.base].(usedBy := s.ns[p].base + subs[i] + off)] else ts) ==
            TailStage(s.ns, s.ts, s.ns[p].base, off, subs[..i + 1])
  {
    TailStageStep(s, p, off, subs, i);
  }

  /** The tail array once child `subs[i]` has been handled: a moving leaf's
      record names the target slot, every other record is as it was. */
  lemma TailStageStep(s: Snap, p: int, off: int, subs: seq<Word>, i: nat)
    requires MovePre(s, p, off, subs) && i < |subs|
    ensures var B := s.ns[p].base;
            var c := B + subs[i];
            var ts := TailStage(s.ns, s.ts, B, off, subs[..i]);
            0 <= c < |s.ns| &&
            (s.ns[c].base <= 0 ==>
               -s.ns[c].base < |ts| &&
               ts[-s.ns[c].base := ts[-s.ns[c].base].(usedBy := c + off)] ==
               TailStage(s.ns, s.ts, B, off, subs[..i + 1])) &&
            (s.ns[c].base > 0 ==> ts == TailStage(s.ns, s.ts, B, off, subs[..i + 1]))
  {
    var B := s.ns[p].base;
    var c := B + subs[i];
    StageAtChild(s, p, off, subs, i);
    var ts := TailStage(s.ns, s.ts, B, off, subs[..i]);
    var ts1 := TailStage(s.ns, s.ts, B, off, subs[..i + 1]);
    if s.ns[c].base <= 0 {
      var t0 := -s.ns[c].base;
      TailStep(s, p, off, subs, i, t0);
      var u := ts[t0 := ts[t0].(usedBy := c + off)];
      forall t | 0 <= t < |s.ts|
        ensures u[t] == ts1[t]
      {
        TailStep(s, p, off, subs, i, t);
      }
    } else {
      forall t | 0 <= t < |s.ts|
        ensures ts[t] == ts1[t]
      {
        TailStep(s, p, off, subs, i, t);
      }
    }
  }

  /** One round of the move's loop on plain arrays: the children `ss` of
      the node at `c` name a parent `off` slots further on, the array grows
      to `len` slots, the node at `c` is copied to `c + off` and `c` is
      zeroed. */
  function Relocated(a: seq<Node>, c: int, off: int, ss: seq<Word>, len: int): (r: seq<Node>)
    requires 0 <= c < |a| <= len && 0 <= c + off < len
    ensures |r| == len && r[c] == FREE_NODE
    ensures c + off != c ==> r[c + off] == a[c]
  {
    (Regraft(a, a[c].base, off, ss) + FreeNodes(len - |a|))[c + off := a[c]][c := FREE_NODE]
  }

  /** The tail array once the node `n` has moved to slot `dst`: a leaf's
      record names `dst` as its owner. */
  function RelocatedTails(ts: seq<TailRec>, n: Node, dst: int): (r: seq<TailRec>)
    requires n.base <= 0 ==> -n.base < |ts|
    ensures |r| == |ts|
    ensures n.base <= 0 ==> r[-n.base].usedBy == dst && r[-n.base].words == ts[-n.base].words
    ensures forall t :: 0 <= t < |ts| && (n.base > 0 || t != -n.base) ==> r[t] == ts[t]
  {
    if n.base <= 0 then ts[-n.base := ts[-n.base].(usedBy := dst)] else ts
  }

  /** A node that is not its own parent is not among its children's
      slots. */
  lemma NotOwnChild(a: seq<Node>, c: int, ss: seq<Word>)
    requires 0 <= c < |a| && a[c].prev != c && ChildList(a, c, ss)
    ensures !IsSrc(a, a[c].base, ss, c)
  {
    forall v | v in ss
      ensures a[c].base + v != c
    {
      assert IsChild(a, c, v);
    }
  }

  /** `Relocated` in the shape the loop produces it: `g` is the array once
      the children are re-parented and the array has grown. */
  lemma RelocatedShape(a: seq<Node>, c: int, off: int, ss: seq<Word>, len: int, g: seq<Node>)
    requires 0 <= c < |a| <= len && 0 <= c + off < len && !IsSrc(a, a[c].base, ss, c)
    requires g == Regraft(a, a[c].base, off, ss) + FreeNodes(len - |a|)
    ensures g[c] == a[c] && g[c + off := g[c]][c := FREE_NODE] == Relocated(a, c, off, ss, len)
  {
  }

  /** Part-way through the move, the next child's slot holds the node it
      held before, whose parent is `p`. */
  lemma ChildReady(s: Snap, p: int, off: int, subs: seq<Word>, i: nat, cur: seq<Node>, ts: seq<TailRec>)
    requires MovePre(s, p, off, subs) && i < |subs| && |cur| >= |s.ns|
    requires cur == Stage(s.ns, s.ns[p].base, off, subs[..i], |cur|)
    requires ts == TailStage(s.ns, s.ts, s.ns[p].base, off, subs[..i])
    ensures var c := s.ns[p].base + subs[i];
            0 <= p < |s.ns| && cur[p].base == s.ns[p].base && 0 <= c < |s.ns| && c + off >= 0 &&
            cur[c] == s.ns[c] && cur[c].prev == p != c && (cur[c].base <= 0 ==> -cur[c].base < |ts|)
  {
    StageReads(s, p, off, subs, i, |cur|);
    StageAtChild(s, p, off, subs, i);
    TailStageStep(s, p, off, subs, i);
  }

  /** One round of the move's loop on the node array, from the state
      before child `subs[i]` to the state after it. */
  lemma ChildStep(s: Snap, p: int, off: int, subs: seq<Word>, i: nat, cur: seq<Node>, ss: seq<Word>, len: nat)
    requires MovePre(s, p, off, subs) && i < |subs| && |cur| >= |s.ns|
    requires RoomFor(s.ns[p].base, off, subs[..i], |cur|)
    requires cur == Stage(s.ns, s.ns[p].base, off, subs[..i], |cur|)
    requires ChildList(cur, s.ns[p].base + subs[i], ss)
    requires |cur| <= len && s.ns[p].base + subs[i] + off < len
    ensures var c := s.ns[p].base + subs[i];
            0 <= c < |cur| &&
            Relocated(cur, c, off, ss, len) == Stage(s.ns, s.ns[p].base, off, subs[..i + 1], len)
    ensures RoomFor(s.ns[p].base, off, subs[..i + 1], len)
  {
    var B := s.ns[p].base;
    var c := B + subs[i];
    StageReads(s, p, off, subs, i, |cur|);
    StageChildren(s, p, off, subs, i, cur, ss);
    StageStep(s, p, off, subs, i, ss, |cur|, len);
  }

  /** One round of the move's loop on the tail array. */
  lemma ChildTailStep(s: Snap, p: int, off: int, subs: seq<Word>, i: nat, ts: seq<TailRec>, n: Node)
    requires MovePre(s, p, off, subs) && i < |subs|
    requires 0 <= s.ns[p].base + subs[i] < |s.ns| && n == s.ns[s.ns[p].base + subs[i]]
    requires ts == TailStage(s.ns, s.ts, s.ns[p].base, off, subs[..i])
    ensures n.base <= 0 ==> -n.base < |ts|
    ensures RelocatedTails(ts, n, s.ns[p].base + subs[i] + off) ==
            TailStage(s.ns, s.ts, s.ns[p].base, off, subs[..i + 1])
  {
    TailStageFrom(s, p, off, subs, i, ts, n);
  }

  /** After the last child, updating `p`'s base gives the moved arrays. */
  lemma StageFinish(s: Snap, p: int, off: int, subs: seq<Word>, len: nat)
    requires MovePre(s, p, off, subs) && p < len
    ensures var B := s.ns[p].base;
            var st := Stage(s.ns, B, off, subs[..|subs|], len);
            st[p := st[p].(base := st[p].base + off)] == MovedNodes(s.ns, p, off, subs, len)
    ensures TailStage(s.ns, s.ts, s.ns[p].base, off, subs[..|subs|]) == MovedTails(s.ns, s.ts, p, off, subs)
  {
    StageAtP(s, p, off, subs, |subs|);
    assert subs[..|subs|] == subs;
  }

  /** The whole move, assembled: the arrays left by the loop, with `p`'s
      base shifted, together with the moved paths and leaves form the
      moved snapshot, and a free tail record stays free. */
  lemma MoveFinish(s: Snap, p: int, off: int, subs: seq<Word>, st: seq<Node>, m: Snap, t: int)
    requires MovePre(s, p, off, subs) && |st| >= |s.ns|
    requires st == Stage(s.ns, s.ns[p].base, off, subs[..|subs|], |st|)
    requires m.ts == TailStage(s.ns, s.ts, s.ns[p].base, off, subs[..|subs|])
    requires m.ns == st[p := st[p].(base := st[p].base + off)]
    requires m.path == MovedPath(s, p, off, subs) && m.leafOf == MovedLeafOf(s, p, off, subs)
    requires m.contents == s.contents
    ensures m == Moved(s, p, off, subs, |st|)
    ensures 0 <= t < |m.ts| && s.ts[t].usedBy == 0 ==> m.ts[t].usedBy == 0
  {
    StageFinish(s, p, off, subs, |st|);
    if 0 <= t < |m.ts| && s.ts[t].usedBy == 0 {
      TailFreeStays(s, p, off, subs, t);
    }
  }
}
