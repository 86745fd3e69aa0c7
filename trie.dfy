/** The double-array trie itself: the node and tail arrays, the two
    allocation cursors and the operations on them.

    The arrays are the only real state; `path`, `leafOf` and `contents`
    are ghost bookkeeping that explains them (see `TrieInvariant`), and
    `contents` is the abstract map from stored keys to payloads that every
    public contract is stated against. */
module DoubleArrayTrie {
  import opened TrieTypes
  import opened TrieInvariant
  import opened TrieSteps
  import opened TrieRelocate
  import opened TrieFacts
  import opened TrieMoveSteps
  import opened TrieCollision
  import opened TrieInsertFacts
  import opened TrieEraseFacts
  import opened TrieQueryFacts

  class Trie {
    var nodes: array<Node>
    var tails: array<TailRec>
    var nextUnusedNodeIdx: int
    var nextUnusedTailIdx: int

    ghost var path: map<int, seq<Word>>
    ghost var leafOf: map<seq<Word>, int>
    ghost var contents: map<seq<Word>, int>

    /** The current state as a snapshot. */
    ghost function Snapshot(): Snap
      reads this, nodes, tails
    {
      Snap(nodes[..], tails[..], path, leafOf, contents)
    }

    /** The node cursor never drops to a slot that a symbol below `BASE`
        could reach, so every base derived from it is at least `BASE`. */
    ghost predicate NodeCursorOk()
      reads this
    {
      nextUnusedNodeIdx > BASE + MAX_WORD
    }

    /** The tail cursor names a free record, or the end of the array. */
    ghost predicate TailCursorOk()
      reads this, tails
    {
      1 <= tails.Length && 0 <= nextUnusedTailIdx <= tails.Length &&
      (nextUnusedTailIdx < tails.Length ==> tails[nextUnusedTailIdx].usedBy == 0)
    }

    ghost predicate Valid()
      reads this, nodes, tails
    {
      Inv(Snapshot()) && NodeCursorOk() && TailCursorOk()
    }

    /** An empty trie: two node slots with the root branching at `BASE`,
        one free tail record. */
    constructor ()
      ensures Valid() && contents == map[]
      ensures nodes[..] == [FREE_NODE, Node(BASE, 0)] && tails[..] == [FREE_TAIL]
      ensures nextUnusedNodeIdx == BASE + MAX_WORD + 1 && nextUnusedTailIdx == 0
    {
      var ns := new Node[ROOT + 1];
      ns[0] := FREE_NODE;
      ns[ROOT] := Node(BASE, 0);
      nodes := ns;
      nextUnusedNodeIdx := BASE + MAX_WORD + 1;
      var ts := new TailRec[1];
      ts[0] := FREE_TAIL;
      tails := ts;
      nextUnusedTailIdx := 0;
      path := map[ROOT := []];
      leafOf := map[];
      contents := map[];
      new;
      assert nodes[..] == [FREE_NODE, Node(BASE, 0)];
      assert forall n :: n in path ==> n == ROOT;
    }

    // -------------------------------------------------------------------
    // Allocation

    /** Grows the node array so that slot `next` exists: to `next + 1`
        slots when that is at least double, to double otherwise. Old slots
        keep their contents and new slots are zeroed. */
    method ExpandNodes(next: int)
      requires next >= nodes.Length
      modifies this
      ensures nodes.Length == (if next >= 2 * old(nodes.Length) then next + 1 else 2 * old(nodes.Length))
      ensures nodes.Length > next
      ensures nodes[..] == old(nodes[..]) + FreeNodes(nodes.Length - old(nodes.Length))
      ensures fresh(nodes)
      ensures tails == old(tails) && nextUnusedNodeIdx == old(nextUnusedNodeIdx)
      ensures nextUnusedTailIdx == old(nextUnusedTailIdx)
      ensures path == old(path) && leafOf == old(leafOf) && contents == old(contents)
    {
      var n := if next >= 2 * nodes.Length then next + 1 else 2 * nodes.Length;
      var a := new Node[n];
      forall x | 0 <= x < n {
        a[x] := if x < nodes.Length then nodes[x] else FREE_NODE;
      }
      assert a[..] == nodes[..] + FreeNodes(n - nodes.Length);
      nodes := a;
    }

    /** The guard at every call of `ExpandNodes`: grows the node array
        only when slot `next` lies beyond it. */
    method EnsureNodeSlot(next: int)
      requires next >= 0
      modifies this
      ensures nodes.Length > next && nodes.Length >= old(nodes.Length)
      ensures nodes[..] == old(nodes[..]) + FreeNodes(nodes.Length - old(nodes.Length))
      ensures nodes == old(nodes) || fresh(nodes)
      ensures tails == old(tails) && nextUnusedNodeIdx == old(nextUnusedNodeIdx)
      ensures nextUnusedTailIdx == old(nextUnusedTailIdx)
      ensures path == old(path) && leafOf == old(leafOf) && contents == old(contents)
    {
      if next >= nodes.Length {
        ExpandNodes(next);
      } else {
        assert nodes[..] + FreeNodes(0) == nodes[..];
      }
    }

    /** After slot `idx` has been taken: when it was the cursor, the cursor
        moves to the first free slot after it, or to the end of the array. */
    method IncNextUnusedNodeIdx(idx: int)
      requires NodeCursorOk()
      modifies this
      ensures NodeCursorOk()
      ensures idx != old(nextUnusedNodeIdx) ==> nextUnusedNodeIdx == old(nextUnusedNodeIdx)
      ensures idx == old(nextUnusedNodeIdx) ==>
                old(nextUnusedNodeIdx) < nextUnusedNodeIdx <= if idx < nodes.Length then nodes.Length else idx + 1
      ensures idx == old(nextUnusedNodeIdx) && nextUnusedNodeIdx < nodes.Length ==>
                nodes[nextUnusedNodeIdx].prev == 0
      ensures forall u :: old(nextUnusedNodeIdx) < u < nextUnusedNodeIdx && u < nodes.Length ==>
                nodes[u].prev != 0
      ensures nodes == old(nodes) && tails == old(tails) && nextUnusedTailIdx == old(nextUnusedTailIdx)
      ensures nodes[..] == old(nodes[..]) && tails[..] == old(tails[..])
      ensures path == old(path) && leafOf == old(leafOf) && contents == old(contents)
    {
      if idx == nextUnusedNodeIdx {
        var c := nextUnusedNodeIdx + 1;
        while c < nodes.Length && nodes[c].prev != 0
          invariant nextUnusedNodeIdx < c <= if idx < nodes.Length then nodes.Length else idx + 1
          invariant forall u :: nextUnusedNodeIdx < u < c ==> nodes[u].prev != 0
          decreases nodes.Length - c
        {
          c := c + 1;
        }
        nextUnusedNodeIdx := c;
      }
    }

    /** After slot `idx` has been freed: the cursor moves back to it when
        it lies below the cursor and above the slots the root's first base
        can reach. */
    method DecNextUnusedNodeIdx(idx: int)
      modifies this
      ensures nextUnusedNodeIdx ==
                if idx > BASE + MAX_WORD && idx < old(nextUnusedNodeIdx) then idx else old(nextUnusedNodeIdx)
      ensures nodes == old(nodes) && tails == old(tails) && nextUnusedTailIdx == old(nextUnusedTailIdx)
      ensures nodes[..] == old(nodes[..]) && tails[..] == old(tails[..])
      ensures path == old(path) && leafOf == old(leafOf) && contents == old(contents)
    {
      if idx > BASE + MAX_WORD && idx < nextUnusedNodeIdx {
        nextUnusedNodeIdx := idx;
      }
    }

    /** Hands out the free tail record at the cursor, doubling the tail
        array first when the cursor is at its end, and moves the cursor to
        the next free record (or the end). */
    method GetNextUnusedTailIdx() returns (r: int)
      requires TailCursorOk()
      modifies this
      ensures r == old(nextUnusedTailIdx) && 0 <= r < tails.Length && tails[r].usedBy == 0
      ensures old(nextUnusedTailIdx) < old(tails.Length) ==> tails == old(tails)
      ensures old(nextUnusedTailIdx) == old(tails.Length) ==>
                tails.Length == 2 * old(tails.Length) && fresh(tails)
      ensures tails[..] == old(tails[..]) + FreeTails(tails.Length - old(tails.Length))
      ensures r < nextUnusedTailIdx <= tails.Length
      ensures nextUnusedTailIdx < tails.Length ==> tails[nextUnusedTailIdx].usedBy == 0
      ensures forall u :: r < u < nextUnusedTailIdx ==> tails[u].usedBy != 0
      ensures nodes == old(nodes) && nextUnusedNodeIdx == old(nextUnusedNodeIdx)
      ensures path == old(path) && leafOf == old(leafOf) && contents == old(contents)
    {
      if nextUnusedTailIdx == tails.Length {
        var n := 2 * tails.Length;
        var a := new TailRec[n];
        forall x | 0 <= x < n {
          a[x] := if x < tails.Length then tails[x] else FREE_TAIL;
        }
        assert a[..] == tails[..] + FreeTails(n - tails.Length);
        tails := a;
        r := nextUnusedTailIdx;
        nextUnusedTailIdx := nextUnusedTailIdx + 1;
        return;
      }
      r := nextUnusedTailIdx;
      var c := r + 1;
      while c < tails.Length && tails[c].usedBy != 0
        invariant r < c <= tails.Length
        invariant forall u :: r < u < c ==> tails[u].usedBy != 0
        decreases tails.Length - c
      {
        c := c + 1;
      }
      nextUnusedTailIdx := c;
      assert tails[..] == old(tails[..]) + FreeTails(0);
    }

    /** After tail record `idx` has been freed: the cursor moves back to it
        when it lies below the cursor. */
    method SetNextUnusedTailIdx(idx: int)
      modifies this
      ensures nextUnusedTailIdx == if idx < old(nextUnusedTailIdx) then idx else old(nextUnusedTailIdx)
      ensures nodes == old(nodes) && tails == old(tails) && nextUnusedNodeIdx == old(nextUnusedNodeIdx)
      ensures path == old(path) && leafOf == old(leafOf) && contents == old(contents)
    {
      if idx < nextUnusedTailIdx {
        nextUnusedTailIdx := idx;
      }
    }

    /** Stores the rest of a key, its payload and its owning leaf in the
        (empty) tail record `t`. */
    method FillTail(t: int, rest: seq<Word>, data: int, tn: int)
      requires 0 <= t < tails.Length && tails[t].words == []
      modifies tails
      ensures tails[..] == old(tails[..])[t := TailRec(rest, data, tn)]
    {
      tails[t] := TailRec(rest, data, tn);
    }

    // -------------------------------------------------------------------
    // Children and lookup

    /** The symbols of the genuine children of `tn`, in increasing order
        (none when `tn` is a leaf). */
    method CollectSubNodes(tn: int) returns (subs: seq<Word>)
      requires 0 <= tn < nodes.Length
      ensures ChildList(nodes[..], tn, subs)
    {
      subs := [];
      if nodes[tn].base >= BASE {
        var i := 0;
        while i <= MAX_WORD
          invariant 0 <= i <= MAX_WORD + 1
          invariant forall a, b :: 0 <= a < b < |subs| ==> subs[a] < subs[b]
          invariant forall a :: 0 <= a < |subs| ==> subs[a] < i
          invariant forall w: Word :: w in subs <==> w < i && IsChild(nodes[..], tn, w)
        {
          var next := nodes[tn].base + i;
          if next < nodes.Length && nodes[next].prev == tn {
            subs := subs + [i];
          }
          i := i + 1;
        }
      }
    }

    // -------------------------------------------------------------------
    // Relocation

    /** Moves the children `subs` of `tn` by `offset`: each child is copied
        to its new slot (growing the node array when that slot lies beyond
        it), its own children name the new slot as their parent, the tail
        record of a moved leaf names the new slot as its owner, the old
        slot is zeroed and the node cursor follows; finally `tn`'s base
        shifts by `offset`. The stored keys do not change. */
    method Move(tn: int, subs: seq<Word>, offset: int)
      requires Valid() && MovePre(Snapshot(), tn, offset, subs)
      modifies this, nodes, tails
      ensures nodes == old(nodes) || fresh(nodes)
      ensures Valid() && contents == old(contents)
      ensures nodes.Length >= old(nodes.Length) && RoomFor(old(nodes[tn].base), offset, subs, nodes.Length)
      ensures Snapshot() == Moved(old(Snapshot()), tn, offset, subs, nodes.Length)
      ensures tails == old(tails) && nextUnusedTailIdx == old(nextUnusedTailIdx)
    {
      ghost var s0 := Snapshot();
      MoveChildren(tn, subs, offset, s0);
      ShiftBase(tn, subs, offset, s0);
    }

    /** `adjust` with the children alone: searches upward from one past
        `tn`'s base for the first base at which every child in `subs`
        finds an open slot, and moves the children there. */
    method Adjust(tn: int, subs: seq<Word>) returns (ghost offset: int)
      requires Valid() && tn in path && 0 <= tn < nodes.Length && nodes[tn].base >= BASE
      requires ChildList(nodes[..], tn, subs) && |subs| > 0
      modifies this, nodes, tails
      ensures nodes == old(nodes) || fresh(nodes)
      ensures Valid() && contents == old(contents) && nodes.Length >= old(nodes.Length)
      ensures offset > 0 && nodes[tn].base == old(nodes[tn].base) + offset
      ensures MoveFits(old(Snapshot()), tn, offset, subs, nodes.Length)
      ensures Snapshot() == Moved(old(Snapshot()), tn, offset, subs, nodes.Length)
      ensures tails == old(tails) && nextUnusedTailIdx == old(nextUnusedTailIdx)
    {
      var base := NewBase(nodes[..], tn, subs);
      offset := MoveTo(tn, subs, base);
    }

    /** The common end of both `adjust`s: `move(tn, subs, base - old base)`. */
    method MoveTo(tn: int, subs: seq<Word>, base: int) returns (ghost offset: int)
      requires Valid() && tn in path && 0 <= tn < nodes.Length && nodes[tn].base >= BASE
      requires ChildList(nodes[..], tn, subs) && nodes[tn].base < base && BaseFits(nodes[..], base, subs)
      modifies this, nodes, tails
      ensures nodes == old(nodes) || fresh(nodes)
      ensures Valid() && contents == old(contents) && nodes.Length >= old(nodes.Length)
      ensures nodes[tn].base == base && offset == base - old(nodes[tn].base)
      ensures MoveFits(old(Snapshot()), tn, offset, subs, nodes.Length)
      ensures Snapshot() == Moved(old(Snapshot()), tn, offset, subs, nodes.Length)
      ensures tails == old(tails) && nextUnusedTailIdx == old(nextUnusedTailIdx)
    {
      ghost var s := Snapshot();
      FitsAllowMove(s, tn, base, subs);
      offset := base - nodes[tn].base;
      Move(tn, subs, base - nodes[tn].base);
      ghost var m := Moved(s, tn, base - s.ns[tn].base, subs, nodes.Length);
      MovedParent(s, tn, base - s.ns[tn].base, subs, nodes.Length);
      assert nodes[..] == m.ns;
    }

    /** The last step of `Move`: `tn`'s base follows its children. */
    method ShiftBase(tn: int, subs: seq<Word>, offset: int, ghost s0: Snap)
      requires MovePre(s0, tn, offset, subs) && nodes.Length >= |s0.ns|
      requires RoomFor(s0.ns[tn].base, offset, subs, nodes.Length)
      requires nodes[..] == Stage(s0.ns, s0.ns[tn].base, offset, subs[..|subs|], nodes.Length)
      requires tails[..] == TailStage(s0.ns, s0.ts, s0.ns[tn].base, offset, subs[..|subs|])
      requires contents == s0.contents && NodeCursorOk() && 1 <= tails.Length
      requires 0 <= nextUnusedTailIdx <= tails.Length
      requires nextUnusedTailIdx < tails.Length ==> s0.ts[nextUnusedTailIdx].usedBy == 0
      modifies this, nodes
      ensures Valid() && Snapshot() == Moved(s0, tn, offset, subs, nodes.Length)
      ensures nodes == old(nodes) && tails == old(tails) && contents == old(contents)
      ensures nextUnusedNodeIdx == old(nextUnusedNodeIdx) && nextUnusedTailIdx == old(nextUnusedTailIdx)
    {
      ghost var st := nodes[..];
      nodes[tn] := nodes[tn].(base := nodes[tn].base + offset);
      assert nodes[..] == st[tn := st[tn].(base := st[tn].base + offset)];
      path := MovedPath(s0, tn, offset, subs);
      leafOf := MovedLeafOf(s0, tn, offset, subs);
      MoveFinish(s0, tn, offset, subs, st, Snapshot(), nextUnusedTailIdx);
      MoveKeepsInv(s0, tn, offset, subs, nodes.Length);
    }

    /** The loop of `Move`: each child in `subs`, in increasing order, is
        moved by `offset` with `MoveChild`. */
    method MoveChildren(tn: int, subs: seq<Word>, offset: int, ghost s0: Snap)
      requires MovePre(s0, tn, offset, subs)
      requires nodes[..] == s0.ns && tails[..] == s0.ts && NodeCursorOk()
      modifies this, nodes, tails
      ensures nodes == old(nodes) || fresh(nodes)
      ensures nodes.Length >= |s0.ns| && RoomFor(s0.ns[tn].base, offset, subs, nodes.Length)
      ensures nodes[..] == Stage(s0.ns, s0.ns[tn].base, offset, subs[..|subs|], nodes.Length)
      ensures tails == old(tails) && tails[..] == TailStage(s0.ns, s0.ts, s0.ns[tn].base, offset, subs[..|subs|])
      ensures NodeCursorOk() && nextUnusedTailIdx == old(nextUnusedTailIdx)
      ensures path == old(path) && leafOf == old(leafOf) && contents == old(contents)
    {
      StageStart(s0, tn, offset, subs);
      var i := 0;
      while i < |subs|
        invariant 0 <= i <= |subs|
        invariant nodes == old(nodes) || fresh(nodes)
        invariant nodes.Length >= |s0.ns| && RoomFor(s0.ns[tn].base, offset, subs[..i], nodes.Length)
        invariant nodes[..] == Stage(s0.ns, s0.ns[tn].base, offset, subs[..i], nodes.Length)
        invariant tails == old(tails) && tails[..] == TailStage(s0.ns, s0.ts, s0.ns[tn].base, offset, subs[..i])
        invariant NodeCursorOk() && nextUnusedTailIdx == old(nextUnusedTailIdx)
        invariant path == old(path) && leafOf == old(leafOf) && contents == old(contents)
      {
        var next := MoveChildAt(tn, subs, offset, i, s0);
        DecNextUnusedNodeIdx(next - offset);
        IncNextUnusedNodeIdx(next);
        i := i + 1;
      }
      assert subs[..i] == subs[..|subs|];
      assert subs[..|subs|] == subs;
    }

    /** Round `i` of `Move`'s loop: the arrays go from the stage before
        child `subs[i]` to the stage after it. */
    method MoveChildAt(tn: int, subs: seq<Word>, offset: int, i: nat, ghost s0: Snap) returns (next: int)
      requires MovePre(s0, tn, offset, subs) && i < |subs| && nodes.Length >= |s0.ns|
      requires RoomFor(s0.ns[tn].base, offset, subs[..i], nodes.Length)
      requires nodes[..] == Stage(s0.ns, s0.ns[tn].base, offset, subs[..i], nodes.Length)
      requires tails[..] == TailStage(s0.ns, s0.ts, s0.ns[tn].base, offset, subs[..i])
      modifies this, nodes, tails
      ensures next == s0.ns[tn].base + subs[i] + offset
      ensures nodes == old(nodes) || fresh(nodes)
      ensures nodes.Length >= old(nodes.Length) && RoomFor(s0.ns[tn].base, offset, subs[..i + 1], nodes.Length)
      ensures nodes[..] == Stage(s0.ns, s0.ns[tn].base, offset, subs[..i + 1], nodes.Length)
      ensures tails == old(tails) && tails[..] == TailStage(s0.ns, s0.ts, s0.ns[tn].base, offset, subs[..i + 1])
      ensures nextUnusedNodeIdx == old(nextUnusedNodeIdx) && nextUnusedTailIdx == old(nextUnusedTailIdx)
      ensures path == old(path) && leafOf == old(leafOf) && contents == old(contents)
    {
      ghost var cur := nodes[..];
      ghost var ts0 := tails[..];
      ghost var c := s0.ns[tn].base + subs[i];
      ChildReady(s0, tn, offset, subs, i, cur, ts0);
      ChildTailStep(s0, tn, offset, subs, i, ts0, cur[c]);
      ghost var ss;
      next, ss := MoveChild(tn, subs[i], offset, cur, ts0, c);
      ChildStep(s0, tn, offset, subs, i, cur, ss, nodes.Length);
    }

    /** The inner loop of `Move`: the children `subSubs` of the node at
        `c`, whose base is `base`, name a parent `offset` slots further
        on. */
    method ReparentSubNodes(base: int, subSubs: seq<Word>, offset: int, ghost ns0: seq<Node>, ghost c: int)
      requires 0 <= c < |ns0| && ChildList(ns0, c, subSubs) && base == ns0[c].base
      requires nodes.Length >= |ns0|
      modifies nodes
      ensures nodes[..] == Regraft(old(nodes[..]), base, offset, subSubs)
    {
      ghost var cur := nodes[..];
      var j := 0;
      while j < |subSubs|
        invariant 0 <= j <= |subSubs|
        invariant nodes[..] == Regraft(cur, base, offset, subSubs[..j])
      {
        NotBefore(subSubs, j);
        assert IsChild(ns0, c, subSubs[j]);
        RegraftStep(cur, base, offset, subSubs, j);
        var g := base + subSubs[j];
        ghost var before := nodes[..];
        nodes[g] := nodes[g].(prev := nodes[g].prev + offset);
        assert nodes[..] == before[g := cur[g].(prev := cur[g].prev + offset)];
        j := j + 1;
      }
      assert subSubs[..j] == subSubs;
    }

    /** The node in slot `next - offset` moves to slot `next`: a leaf's
        tail record names the new slot as its owner, and the old slot is
        zeroed. */
    method RelocateSlot(next: int, offset: int)
      requires offset > 0 && 0 <= next - offset && next < nodes.Length
      requires nodes[next - offset].base <= 0 ==> -nodes[next - offset].base < tails.Length
      modifies nodes, tails
      ensures var a := old(nodes[..]);
              nodes[..] == a[next := a[next - offset]][next - offset := FREE_NODE]
      ensures var n := old(nodes[..])[next - offset];
              var ts := old(tails[..]);
              tails[..] == if n.base <= 0 then ts[-n.base := ts[-n.base].(usedBy := next)] else ts
    {
      nodes[next] := nodes[next - offset];
      if nodes[next].base <= 0 {
        var t := -nodes[next].base;
        tails[t] := tails[t].(usedBy := next);
      }
      nodes[next - offset] := FREE_NODE;
    }

    /** One round of `Move`'s loop, for the child `w` of `tn`, which sits
        in slot `c`: its children name its new slot `next` as their
        parent, it is copied there (growing the node array first when
        needed), a leaf's tail record names the new slot as its owner and
        the old slot is zeroed. `a` and `ts` are the arrays before, and
        `subSubs` are the children the node had. */
    method MoveChild(tn: int, w: Word, offset: int, ghost a: seq<Node>, ghost ts: seq<TailRec>, ghost c: int)
      returns (next: int, ghost subSubs: seq<Word>)
      requires nodes[..] == a && tails[..] == ts
      requires 0 <= tn < |a| && offset > 0 && c == a[tn].base + w
      requires 0 <= c < |a| && a[c].prev != c && (a[c].base <= 0 ==> -a[c].base < |ts|)
      modifies this, nodes, tails
      ensures next == c + offset && |a| <= nodes.Length && next < nodes.Length
      ensures ChildList(a, c, subSubs)
      ensures nodes[..] == Relocated(a, c, offset, subSubs, nodes.Length)
      ensures tails[..] == RelocatedTails(ts, a[c], next)
      ensures nodes == old(nodes) || fresh(nodes)
      ensures tails == old(tails) && nextUnusedNodeIdx == old(nextUnusedNodeIdx)
      ensures nextUnusedTailIdx == old(nextUnusedTailIdx)
      ensures path == old(path) && leafOf == old(leafOf) && contents == old(contents)
    {
      var base := nodes[tn].base + w;
      base := nodes[base].base;
      var subs := CollectSubNodes(nodes[tn].base + w);
      subSubs := subs;
      NotOwnChild(a, c, subs);
      ReparentSubNodes(base, subs, offset, a, c);
      next := nodes[tn].base + offset + w;
      EnsureNodeSlot(next);
      RelocatedShape(a, c, offset, subs, nodes.Length, nodes[..]);
      RelocateSlot(next, offset);
    }

    /** The descent shared by the lookups: follows `key` from the root
        through genuine children and then along a leaf's tail. On success
        `t` is the tail record of the key's leaf; on failure `unmatch` is
        the length of the longest prefix of `key` that can be followed. */
    method Find(key: seq<Word>) returns (found: bool, t: int, unmatch: int)
      requires Valid()
      ensures found <==> key in contents
      ensures found ==> key in leafOf && 0 <= leafOf[key] < nodes.Length &&
                        t == -nodes[leafOf[key]].base && 0 <= t < tails.Length &&
                        tails[t].data == contents[key]
      ensures !found ==> 0 <= unmatch <= |key| && Known(Snapshot(), key[..unmatch]) &&
                         (unmatch < |key| ==> !Known(Snapshot(), key[..unmatch + 1]))
    {
      ghost var s := Snapshot();
      var tn := ROOT;
      var i := 0;
      t, unmatch := 0, 0;
      while i < |key|
        invariant 0 <= i <= |key| && tn in s.path && s.path[tn] == key[..i]
        invariant 0 <= tn < nodes.Length
      {
        var base := nodes[tn].base;
        if base >= BASE {
          var next := base + key[i];
          if next >= nodes.Length || nodes[next].prev != tn {
            assert !IsChild(s.ns, tn, key[i]);
            assert key[..i + 1] == s.path[tn] + [key[i]];
            MissNotKnown(s, tn, key[i]);
            ChildAbsent(s, tn, key[i]);
            assert key[..i + 1] <= key;
            return false, 0, i;
          }
          assert IsChild(s.ns, tn, key[i]);
          ChildPath(s, tn, key[i]);
          assert key[..i + 1] == key[..i] + [key[i]];
          tn := next;
          i := i + 1;
        } else {
          t := -base;
          assert s.ts[t].usedBy == tn;
          var j := 0;
          while j < |tails[t].words| && i < |key| && tails[t].words[j] == key[i]
            invariant |s.path[tn]| + j == i <= |key| && j <= |tails[t].words|
            invariant key[|s.path[tn]|..i] == tails[t].words[..j]
          {
            assert tails[t].words[..j + 1] == tails[t].words[..j] + [key[i]];
            j := j + 1;
            i := i + 1;
          }
          LeafTailKnown(s, tn, key, i, j);
          if j == |tails[t].words| && i == |key| {
            assert key == FullKey(s, tn);
            return true, t, 0;
          }
          return false, 0, i;
        }
      }
      assert key[..i] == key;
      var base := nodes[tn].base;
      if base >= BASE {
        NoKeyAboveBranch(s, tn);
        return false, 0, i;
      }
      t := -base;
      assert s.ts[t].usedBy == tn;
      LeafTailKnown(s, tn, key, i, 0);
      if |tails[t].words| == 0 {
        assert key == FullKey(s, tn);
        return true, t, 0;
      }
      return false, 0, i;
    }

    /** Looks `key` up. `data` receives the payload and `unmatch` stays as
        it was when the key is stored; `data` stays as it was and `unmatch`
        receives the length of the longest prefix of `key` that can be
        followed when it is not. */
    method Search(key: seq<Word>, data0: int, unmatch0: int) returns (found: bool, data: int, unmatch: int)
      requires Valid()
      ensures found <==> key in contents
      ensures data == if found then contents[key] else data0
      ensures found ==> unmatch == unmatch0
      ensures !found ==> 0 <= unmatch <= |key| && Known(Snapshot(), key[..unmatch]) &&
                         (unmatch < |key| ==> !Known(Snapshot(), key[..unmatch + 1]))
      ensures !found ==> (unmatch == |key| <==> Known(Snapshot(), key))
    {
      var t, u;
      found, t, u := Find(key);
      if found {
        data, unmatch := tails[t].data, unmatch0;
      } else {
        data, unmatch := data0, u;
        assert key[..|key|] == key;
        if unmatch < |key| && Known(Snapshot(), key) {
          KnownPrefixClosed(Snapshot(), key, unmatch + 1);
        }
      }
    }

    // -------------------------------------------------------------------
    // Insertion

    /** The end of every successful insertion: slot `ns[tn].base + w`,
        which is free, becomes a leaf below `tn` whose tail record (taken
        from the tail cursor) holds the rest `rest` of the key and its
        payload. Exactly that key is added. */
    method ClaimSlot(tn: int, w: Word, rest: seq<Word>, data: int)
      requires Valid() && tn in path && 0 <= tn < nodes.Length && nodes[tn].base >= BASE
      requires nodes[tn].base + w < nodes.Length && nodes[nodes[tn].base + w].prev == 0
      requires path[tn] + [w] + rest !in contents
      modifies this, nodes, tails
      ensures Valid() && contents == old(contents)[old(path[tn]) + [w] + rest := data]
      ensures forall q :: Known(Snapshot(), q) <==> Known(old(Snapshot()), q) || q <= old(path[tn]) + [w] + rest
    {
      var next := nodes[tn].base + w;
      ghost var s := Snapshot();
      assert next !in s.path by {
        assert next in s.path ==> Linked(s, next);
      }
      assert s.ns[next] == FREE_NODE;
      nodes[next] := nodes[next].(prev := tn);
      var t := GetNextUnusedTailIdx();
      GrowTailsKeepsInv(s, tails.Length - |s.ts|);
      ghost var g := s.(ts := tails[..]);
      FillLeaf(tn, next, w, rest, data, t, g);
      ClaimedKnownAll(g, tn, w, t, rest, data);
      IncNextUnusedNodeIdx(next);
    }

    /** The second half of `ClaimSlot`, once the tail record `t` is at
        hand: fills it and points the new leaf at it. */
    method FillLeaf(tn: int, next: int, w: Word, rest: seq<Word>, data: int, t: int, ghost s: Snap)
      requires ClaimPre(s, tn, w, t, rest) && tails[..] == s.ts && next == s.ns[tn].base + w
      requires nodes[..] == s.ns[next := Node(0, tn)]
      requires path == s.path && leafOf == s.leafOf && contents == s.contents
      requires NodeCursorOk() && TailCursorOk() && t < nextUnusedTailIdx
      modifies this, nodes, tails
      ensures Snapshot() == Claimed(s, tn, w, t, rest, data)
      ensures Valid() && contents == s.contents[s.path[tn] + [w] + rest := data]
      ensures nextUnusedNodeIdx == old(nextUnusedNodeIdx)
    {
      ghost var c := Claimed(s, tn, w, t, rest, data);
      ClaimedSlotFree(s, tn, w, t, rest);
      ClaimKeepsInv(s, tn, w, t, rest, data);
      FillTail(t, rest, data, next);
      nodes[next] := Node(-t, tn);
      path, leafOf, contents := c.path, c.leafOf, c.contents;
      assert nodes[..] == c.ns;
    }

    /** Makes slot `next` exist, keeping the trie valid: the array grows
        (with zeroed slots) only when `next` lies beyond it. */
    method ProvideSlot(next: int)
      requires Valid() && next >= 0
      modifies this
      ensures nodes == old(nodes) || fresh(nodes)
      ensures Valid() && nodes.Length > next && nodes.Length >= old(nodes.Length)
      ensures nodes[..] == old(nodes[..]) + FreeNodes(nodes.Length - old(nodes.Length))
      ensures Snapshot() == old(Snapshot()).(ns := nodes[..])
      ensures tails == old(tails) && nextUnusedTailIdx == old(nextUnusedTailIdx)
      ensures nextUnusedNodeIdx == old(nextUnusedNodeIdx)
      ensures forall x :: SlotOpen(old(nodes[..]), x) ==> SlotOpen(nodes[..], x)
    {
      ghost var s := Snapshot();
      EnsureNodeSlot(next);
      GrowNodesKeepsInv(s, nodes.Length - |s.ns|);
    }

    /** The collision case of `insert` resolved by moving the children
        `sub1` of `np`, the owner of the slot `next` that `tn` wants for
        `key[i]`. When `tn` is itself a child of `np` it moves too, and
        `tn2` is where it ends up; the slot `next` is vacated. */
    method MoveOther(tn: int, key: seq<Word>, i: nat, next: int, np: int, sub1: seq<Word>) returns (tn2: int)
      requires Valid() && i < |key| && tn in path && path[tn] == key[..i]
      requires 0 <= tn < nodes.Length && nodes[tn].base >= BASE && next == nodes[tn].base + key[i]
      requires next < nodes.Length && nodes[next].prev == np && np != 0 && np != tn
      requires ChildList(nodes[..], np, sub1)
      modifies this, nodes, tails
      ensures tails == old(tails)
      ensures nodes == old(nodes) || fresh(nodes)
      ensures Valid() && contents == old(contents)
      ensures ClaimReady(Snapshot(), tn2, key, i)
      ensures forall q :: Known(Snapshot(), q) <==> Known(old(Snapshot()), q)
    {
      var w := key[i];
      var changed := nodes[tn].prev == np;
      ghost var s := Snapshot();
      assert next in s.path && Linked(s, next) by {
        assert s.ns[next] != FREE_NODE;
      }
      assert Last(s.path[next]) in sub1 && s.path[tn] == key[..i];
      ghost var off := Adjust(np, sub1);
      ghost var m := Snapshot();
      ghost var n2 := OtherMoved(s, np, off, sub1, nodes.Length, m, tn, w, next, key, i);
      MovedKnownAll(s, np, off, sub1, nodes.Length);
      if changed {
        assert Last(s.path[tn]) == key[i - 1];
        tn2 := nodes[np].base + key[i - 1];
      } else {
        tn2 := tn;
      }
      assert tn2 == n2;
    }

    /** The collision case of `insert` resolved by moving `tn`'s own
        children `sub2` (`adjust` with the extra symbol `w`): the search
        upward from one past `tn`'s base for the first base at which `w`
        and every child find an open slot, the move of the children there,
        and `next`, the slot for `w` below the new base, which is open. */
    method MoveOwn(tn: int, key: seq<Word>, i: nat, sub2: seq<Word>)
      requires Valid() && i < |key| && tn in path && path[tn] == key[..i]
      requires 0 <= tn < nodes.Length && nodes[tn].base >= BASE
      requires ChildList(nodes[..], tn, sub2) && !IsChild(nodes[..], tn, key[i])
      modifies this, nodes, tails
      ensures tails == old(tails)
      ensures nodes == old(nodes) || fresh(nodes)
      ensures Valid() && contents == old(contents)
      ensures ClaimReady(Snapshot(), tn, key, i)
      ensures forall q :: Known(Snapshot(), q) <==> Known(old(Snapshot()), q)
    {
      var w := key[i];
      var base := NewBaseFor(nodes[..], tn, sub2, w);
      ghost var s := Snapshot();
      assert !IsChild(s.ns, tn, w) && SlotOpen(s.ns, base + w) && s.path[tn] == key[..i];
      ghost var off := MoveTo(tn, sub2, base);
      OwnReady(s, tn, off, sub2, nodes.Length, Snapshot(), w, base, key, i);
      MovedKnownAll(s, tn, off, sub2, nodes.Length);
    }

    /** The end of a successful insertion below branching node `tn`: the
        slot for `key[i]` (grown into when it lies past the end of the node
        array) becomes the leaf holding the rest of the key. */
    method ClaimKey(tn: int, key: seq<Word>, i: nat, data: int)
      requires Valid() && ClaimReady(Snapshot(), tn, key, i) && key !in contents
      modifies this, nodes, tails
      ensures Valid() && contents == old(contents)[key := data]
      ensures forall q :: Known(Snapshot(), q) <==> Known(old(Snapshot()), q) || q <= key
    {
      var w := key[i];
      var next := nodes[tn].base + w;
      ghost var s := Snapshot();
      assert SlotOpen(s.ns, next) && key == s.path[tn] + [w] + key[i + 1..];
      ProvideSlot(next);
      assert nodes[tn] == s.ns[tn];
      ClaimSlot(tn, w, key[i + 1..], data);
    }

    /** An insertion of the new key `key` whose descent stopped at
        branching node `tn` for want of a child for `key[i]`. A slot taken
        by a child of another node `np` is freed by moving the children of
        `np` or of `tn`, whichever has fewer. */
    method InsertBelow(tn: int, key: seq<Word>, i: nat, data: int)
      requires Valid() && i < |key| && tn in path && path[tn] == key[..i]
      requires 0 <= tn < nodes.Length && nodes[tn].base >= BASE
      requires !IsChild(nodes[..], tn, key[i]) && key !in contents
      modifies this, nodes, tails
      ensures Valid() && contents == old(contents)[key := data]
      ensures forall q :: Known(Snapshot(), q) <==> Known(old(Snapshot()), q) || q <= key
    {
      var w := key[i];
      var next := nodes[tn].base + w;
      if next >= nodes.Length || nodes[next].prev == 0 {
        ClaimKey(tn, key, i, data);
      } else {
        var np := nodes[next].prev;
        ghost var s := Snapshot();
        assert next in s.path && Linked(s, next) by {
          assert s.ns[next] != FREE_NODE;
        }
        var sub1 := CollectSubNodes(np);
        var sub2 := CollectSubNodes(tn);
        if |sub1| <= |sub2| {
          var tn2 := MoveOther(tn, key, i, next, np, sub1);
          ClaimKey(tn2, key, i, data);
        } else {
          MoveOwn(tn, key, i, sub2);
          ClaimKey(tn, key, i, data);
        }
      }
    }

    /** The writes of one push: leaf `cur` gets base `b`, and slot `nx`
        becomes the leaf owning tail record `t` without its first symbol;
        `p` is the snapshot this produces from `s`. */
    method ApplyPush(cur: int, b: int, nx: int, t: int, ghost s: Snap, ghost p: Snap)
      requires nodes[..] == s.ns && tails[..] == s.ts && contents == s.contents
      requires 0 <= cur < |s.ns| && 0 <= nx < |s.ns| && cur != nx
      requires 0 <= t < |s.ts| && |s.ts[t].words| > 0 && s.ts[t].usedBy != 0
      requires p.ns == s.ns[cur := Node(b, s.ns[cur].prev)][nx := Node(-t, cur)]
      requires p.ts == s.ts[t := TailRec(s.ts[t].words[1..], s.ts[t].data, nx)]
      requires p.contents == s.contents && Inv(p) && NodeCursorOk() && TailCursorOk()
      modifies this, nodes, tails
      ensures Snapshot() == p && Valid()
      ensures nodes == old(nodes) && tails == old(tails)
      ensures nextUnusedNodeIdx == old(nextUnusedNodeIdx) && nextUnusedTailIdx == old(nextUnusedTailIdx)
    {
      nodes[cur] := Node(b, nodes[cur].prev);
      nodes[nx] := Node(-t, cur);
      assert nodes[..] == p.ns;
      tails[t] := TailRec(tails[t].words[1..], tails[t].data, nx);
      assert tails[..] == p.ts;
      path, leafOf := p.path, p.leafOf;
    }

    /** One step of the tail walk of `insert`: leaf `cur`, whose tail
        (record `t`) starts with `w`, becomes a branching node with base
        `next - w`, and the free slot `next` becomes the leaf that owns the
        tail without its first symbol. Nothing that can be followed
        changes, and any slot `other` but `next` keeps its owner. */
    method PushAt(cur: int, next: int, t: int, w: Word, ghost other: int)
      requires Valid() && cur in path && 0 <= cur < nodes.Length && nodes[cur].base == -t
      requires 0 <= t < tails.Length && |tails[t].words| > 0 && tails[t].words[0] == w
      requires next - w >= BASE && next < nodes.Length && nodes[next].prev == 0
      modifies this, nodes, tails
      ensures nodes == old(nodes) && tails == old(tails)
      ensures Valid() && contents == old(contents)
      ensures forall q :: Known(Snapshot(), q) <==> Known(old(Snapshot()), q)
      ensures cur in path && path[cur] == old(path[cur]) && nodes.Length == old(nodes.Length)
      ensures nodes[cur].base == next - w && next in path && path[next] == old(path[cur]) + [w]
      ensures nodes[next].base == -t && tails.Length == old(tails.Length)
      ensures tails[t].words == old(tails[t].words)[1..]
      ensures 0 <= other < nodes.Length && other != next ==> nodes[other].prev == old(nodes[other].prev)
    {
      ghost var s := Snapshot();
      ghost var p := Pushed(s, cur, next - w);
      PushedShape(s, cur, next - w, t, w, next, p);
      PushedFacts(s, cur, next - w, t, w, next, p);
      ApplyPush(cur, next - w, next, t, s, p);
      IncNextUnusedNodeIdx(next);
    }

    /** The tail walk's step with its scan: the first free slot at or after
        the node cursor (growing the array when there is none) takes the
        leaf. */
    method PushDown(cur: int, t: int, ghost key: seq<Word>, ghost i: nat) returns (next: int)
      requires Valid() && cur in path && 0 <= cur < nodes.Length && nodes[cur].base == -t
      requires 0 <= t < tails.Length && |tails[t].words| > 0
      requires i < |key| && path[cur] == key[..i] && tails[t].words[0] == key[i]
      modifies this, nodes, tails
      ensures tails == old(tails)
      ensures nodes == old(nodes) || fresh(nodes)
      ensures Valid() && contents == old(contents)
      ensures forall q :: Known(Snapshot(), q) <==> Known(old(Snapshot()), q)
      ensures next in path && path[next] == key[..i + 1]
      ensures 0 <= next < nodes.Length && nodes[next].base == -t
      ensures tails.Length == old(tails.Length) && tails[t].words == old(tails[t].words)[1..]
    {
      var w := tails[t].words[0];
      TakeOneMore(key, i);
      next := FirstFree(nodes[..], nextUnusedNodeIdx);
      ProvideSlot(next);
      PushAt(cur, next, t, w, cur);
    }

    /** The split that ends a tail walk when the tail of leaf `cur`
        (record `t`) and the key disagree at `key[i]`: a base at or after
        the node cursor less the smaller of the two symbols, whose slots
        for both can take a node, is found, both slots are made to exist,
        the leaf is pushed to the slot for its tail's symbol and the rest
        of the key is stored in the slot for `key[i]`. */
    method SplitLeaf(cur: int, t: int, key: seq<Word>, i: nat, data: int)
      requires Valid() && cur in path && 0 <= cur < nodes.Length && nodes[cur].base == -t
      requires 0 <= t < tails.Length && |tails[t].words| > 0
      requires i < |key| && path[cur] == key[..i] && tails[t].words[0] != key[i]
      requires key !in contents
      modifies this, nodes, tails
      ensures Valid() && contents == old(contents)[key := data]
      ensures forall q :: Known(Snapshot(), q) <==> Known(old(Snapshot()), q) || q <= key
    {
      var a := tails[t].words[0];
      var c := key[i];
      var base := SplitBase(nodes[..], nextUnusedNodeIdx - (if a < c then a else c), a, c);
      ProvideSlot(base + a);
      ProvideSlot(base + c);
      SplitAt(cur, t, key, i, data, base, a, c);
    }

    /** The writes of the split once both slots exist: `a` is the first
        symbol of the tail, `c` the symbol of the key. */
    method SplitAt(cur: int, t: int, key: seq<Word>, i: nat, data: int, base: int, a: Word, c: Word)
      requires Valid() && cur in path && 0 <= cur < nodes.Length && nodes[cur].base == -t
      requires 0 <= t < tails.Length && |tails[t].words| > 0 && tails[t].words[0] == a
      requires i < |key| && path[cur] == key[..i] && key[i] == c && a != c
      requires key !in contents && base >= BASE
      requires base + a < nodes.Length && nodes[base + a].prev == 0
      requires base + c < nodes.Length && nodes[base + c].prev == 0
      modifies this, nodes, tails
      ensures Valid() && contents == old(contents)[key := data]
      ensures forall q :: Known(Snapshot(), q) <==> Known(old(Snapshot()), q) || q <= key
    {
      ghost var s := Snapshot();
      assert key == s.path[cur] + [c] + key[i + 1..];
      PushAt(cur, base + a, t, a, base + c);
      ClaimSlot(cur, c, key[i + 1..], data);
    }

    /** `insert`: a stored key gets the new payload; a new key is added
        unless it is refused (`Rejects`), in which case the stored keys and
        payloads stay as they were and an invariant violation is reported. */
    method Insert(key: seq<Word>, data: int) returns (st: Status)
      requires Valid()
      modifies this, nodes, tails
      ensures Valid()
      ensures st == InvariantViolation <==> Rejects(old(Snapshot()), key)
      ensures st == Ok ==> contents == old(contents)[key := data]
      ensures st == InvariantViolation ==> contents == old(contents)
      ensures st == Ok ==> forall q :: Known(Snapshot(), q) <==> Known(old(Snapshot()), q) || q <= key
      ensures st == InvariantViolation ==> forall q :: Known(Snapshot(), q) <==> Known(old(Snapshot()), q)
    {
      var found, t, _ := Find(key);
      if found {
        SetPayload(key, t, data);
        return Ok;
      }
      ghost var s := Snapshot();
      var tn, i := Descend(key);
      if nodes[tn].base >= BASE {
        if i < |key| {
          BranchMissAccepts(s, tn, key, i);
          InsertBelow(tn, key, i, data);
          return Ok;
        }
        assert key[..i] == key;
        BranchEndRejects(s, tn, key);
        return InvariantViolation;
      }
      st := InsertAtLeaf(tn, key, i, data);
    }

    /** The descent of `insert` along `key` through branching nodes, as far
        as children exist: it stops at node `tn`, reached along `key[..i]`,
        when the key runs out, `tn` is a leaf, or `tn` has no child for
        `key[i]`. */
    method Descend(key: seq<Word>) returns (tn: int, i: nat)
      requires Valid()
      ensures i <= |key| && tn in path && path[tn] == key[..i] && 0 <= tn < nodes.Length
      ensures i == |key| || nodes[tn].base < BASE || !IsChild(nodes[..], tn, key[i])
    {
      ghost var s := Snapshot();
      tn, i := ROOT, 0;
      while i < |key| && nodes[tn].base >= BASE && nodes[tn].base + key[i] < nodes.Length &&
            nodes[nodes[tn].base + key[i]].prev == tn
        invariant 0 <= i <= |key| && tn in s.path && s.path[tn] == key[..i] && 0 <= tn < nodes.Length
        decreases |key| - i
      {
        ChildPath(s, tn, key[i]);
        TakeOneMore(key, i);
        tn := nodes[tn].base + key[i];
        i := i + 1;
      }
    }

    /** `insert` of a stored key: only the payload in its tail record `t`
        changes. */
    method SetPayload(key: seq<Word>, t: int, data: int)
      requires Valid() && key in contents && key in leafOf && 0 <= leafOf[key] < nodes.Length
      requires t == -nodes[leafOf[key]].base && 0 <= t < tails.Length
      modifies this, tails
      ensures Valid() && contents == old(contents)[key := data]
      ensures forall q :: Known(Snapshot(), q) <==> Known(old(Snapshot()), q)
    {
      ghost var s := Snapshot();
      ghost var n := leafOf[key];
      assert LeafFor(s, n, key);
      SetDataKeepsInv(s, n, data);
      ghost var d := DataSet(s, n, data);
      tails[t] := tails[t].(data := data);
      assert tails[..] == d.ts;
      contents := d.contents;
    }

    /** The tail walk of `insert` from leaf `tn`, reached along `key[..i0]`:
        the walk ends in a split when the tail and the key disagree, and in
        a refusal when one of them runs out. */
    method InsertAtLeaf(tn: int, key: seq<Word>, i0: nat, data: int) returns (st: Status)
      requires Valid() && tn in path && 0 <= tn < nodes.Length && nodes[tn].base <= 0
      requires i0 <= |key| && path[tn] == key[..i0] && key !in contents
      modifies this, nodes, tails
      ensures Valid()
      ensures st == InvariantViolation <==> Rejects(old(Snapshot()), key)
      ensures st == Ok ==> contents == old(contents)[key := data]
      ensures st == InvariantViolation ==> contents == old(contents)
      ensures st == Ok ==> forall q :: Known(Snapshot(), q) <==> Known(old(Snapshot()), q) || q <= key
      ensures st == InvariantViolation ==> forall q :: Known(Snapshot(), q) <==> Known(old(Snapshot()), q)
    {
      var t := -nodes[tn].base;
      assert 0 <= t < tails.Length;
      var cur, i := WalkTail(tn, t, key, i0);
      LeafEnd(Snapshot(), cur, key, i);
      if i == |key| || |tails[t].words| == 0 {
        return InvariantViolation;
      }
      SplitLeaf(cur, t, key, i, data);
      st := Ok;
    }

    /** While the tail of leaf `tn` (record `t`) and the key agree, the
        leaf is pushed down one symbol; `cur` is the leaf where they stop
        agreeing, reached along `key[..i]`. */
    method WalkTail(tn: int, t: int, key: seq<Word>, i0: nat) returns (cur: int, i: nat)
      requires Valid() && tn in path && 0 <= tn < nodes.Length && nodes[tn].base == -t
      requires 0 <= t < tails.Length && i0 <= |key| && path[tn] == key[..i0]
      modifies this, nodes, tails
      ensures tails == old(tails) && (nodes == old(nodes) || fresh(nodes))
      ensures Valid() && contents == old(contents)
      ensures forall q :: Known(Snapshot(), q) <==> Known(old(Snapshot()), q)
      ensures i0 <= i <= |key| && cur in path && path[cur] == key[..i]
      ensures 0 <= cur < nodes.Length && nodes[cur].base == -t
      ensures Disagree(tails[t].words, key, i)
    {
      ghost var s0 := Snapshot();
      cur, i := tn, i0;
      while !Disagree(tails[t].words, key, i)
        invariant Valid() && tails == old(tails) && (nodes == old(nodes) || fresh(nodes))
        invariant contents == s0.contents && forall q :: Known(Snapshot(), q) <==> Known(s0, q)
        invariant i0 <= i <= |key| && cur in path && path[cur] == key[..i]
        invariant 0 <= cur < nodes.Length && nodes[cur].base == -t
        decreases |key| - i
      {
        cur := PushDown(cur, t, key, i);
        i := i + 1;
      }
    }

    // -------------------------------------------------------------------
    // Erasure

    /** `erase`: every stored key that begins with `key` is removed (every
        key, for the empty `key`); the other keys keep their payloads. */
    method Erase(key: seq<Word>)
      requires Valid()
      modifies this, nodes, tails
      ensures Valid() && contents == Drop(old(contents), key)
      ensures forall q :: Known(Snapshot(), q) ==> Known(old(Snapshot()), q)
      ensures forall q :: Known(old(Snapshot()), q) ==> Known(Snapshot(), q) || q <= key || key <= q
    {
      var tn, i := Descend(key);
      ghost var s := Snapshot();
      var base := nodes[tn].base;
      if base >= BASE {
        if i < |key| {
          MissKeep(s, tn, key, i);
          return;
        }
        assert key[..i] == key;
        EraseAllSubs(tn);
        if tn != ROOT {
          FreeBranch(tn);
        }
        assert path.Keys <= s.path.Keys - Below(s, tn);
        ErasedKnownAll(s, Snapshot(), key);
        return;
      }
      var j, i2 := MatchTail(-base, key, i, |tails[-base].words|);
      assert s.ts[-base].usedBy == tn;
      if i2 < |key| {
        LeafKeep(s, tn, key, i2, j);
        return;
      }
      assert key == key[..i] + key[i..i2];
      assert s.ts[-base].words[..j] <= s.ts[-base].words;
      assert key == s.path[tn] + s.ts[-base].words[..j] && key <= FullKey(s, tn);
      LeafDrop(s, tn, key);
      FreeLeaf(tn);
      ErasedKnownAll(s, Snapshot(), key);
    }

    /** How far `key`, from symbol `i0` on, agrees with the first `lim`
        symbols of the tail in record `t`: the first `j` symbols of the
        tail, up to symbol `i` of the key, where those `lim` symbols or the
        key run out or they differ. */
    method MatchTail(t: int, key: seq<Word>, i0: nat, lim: nat) returns (j: nat, i: nat)
      requires 0 <= t < tails.Length && i0 <= |key| && lim <= |tails[t].words|
      ensures i0 + j == i <= |key| && j <= lim
      ensures key[i0..i] == tails[t].words[..j]
      ensures j == lim || i == |key| || tails[t].words[j] != key[i]
    {
      j, i := 0, i0;
      while j < lim && i < |key| && tails[t].words[j] == key[i]
        invariant i0 + j == i <= |key| && j <= lim
        invariant key[i0..i] == tails[t].words[..j]
        decreases |key| - i
      {
        assert tails[t].words[..j + 1] == tails[t].words[..j] + [key[i]];
        j, i := j + 1, i + 1;
      }
    }

    /** `erase_all_subs`: every node strictly below the branching node `tn`
        is freed, leaves with their tail records, and so is every key that
        passes through `tn`. `tn` itself stays, without children. */
    method EraseAllSubs(tn: int)
      requires Valid() && tn in path && 0 <= tn < nodes.Length && nodes[tn].base >= BASE
      modifies this, nodes, tails
      decreases Below(Snapshot(), tn), 1
      ensures nodes == old(nodes) && tails == old(tails) && Valid()
      ensures path == old(path) - Below(old(Snapshot()), tn)
      ensures Kept(old(Snapshot()), Snapshot())
      ensures contents == Drop(old(contents), old(path[tn]))
      ensures tn != ROOT ==> RemoveChildlessPre(Snapshot(), tn)
    {
      var subs := CollectSubNodes(tn);
      ghost var s0 := Snapshot();
      ghost var p := s0.path[tn];
      var i := 0;
      while i < |subs|
        invariant 0 <= i <= |subs|
        invariant nodes == old(nodes) && tails == old(tails) && Valid()
        invariant path == s0.path - Under(s0, p, subs[..i])
        invariant Kept(s0, Snapshot())
        invariant contents == Strip(s0.contents, p, subs[..i])
      {
        var w := subs[i];
        ghost var cur := Snapshot();
        StillChild(s0, cur, tn, subs, i, w);
        EraseChild(tn, w);
        UnderStep(s0, cur, p, subs[..i], w);
        StripStep(s0.contents, p, subs[..i], w);
        RemovedSub(cur, Snapshot(), Under(cur, p, [w]));
        KeptTrans(s0, cur, Snapshot());
        TakeOneMore(subs, i);
        i := i + 1;
      }
      assert subs[..i] == subs;
      StripAll(s0, tn, subs);
      UnderAll(s0, tn, subs);
      Childless(s0, Snapshot(), tn);
    }

    /** One round of `erase_all_subs`: the child of `tn` via `w` goes,
        with its subtree and every key through it. */
    method EraseChild(tn: int, w: Word)
      requires Valid() && tn in path && IsChild(nodes[..], tn, w)
      modifies this, nodes, tails
      decreases Below(Snapshot(), tn), 0
      ensures nodes == old(nodes) && tails == old(tails) && Valid()
      ensures path == old(path) - Under(old(Snapshot()), old(path[tn]), [w])
      ensures Kept(old(Snapshot()), Snapshot())
      ensures contents == Drop(old(contents), old(path[tn]) + [w])
    {
      var c := nodes[tn].base + w;
      ghost var s := Snapshot();
      ChildPath(s, tn, w);
      UnderChild(s, s.path[tn], w, c);
      assert c != ROOT by {
        assert Linked(s, c);
      }
      if nodes[c].base >= BASE {
        BelowChild(s, tn, w, c);
        EraseSubtree(c);
      } else {
        EraseLeaf(c);
      }
    }

    /** The leaf child `c` goes, with its tail record and its key. */
    method EraseLeaf(c: int)
      requires Valid() && c in path && 0 <= c < nodes.Length && nodes[c].base <= 0
      modifies this, nodes, tails
      ensures nodes == old(nodes) && tails == old(tails) && Valid()
      ensures path == old(path) - (Below(old(Snapshot()), c) + {c})
      ensures Kept(old(Snapshot()), Snapshot())
      ensures contents == Drop(old(contents), old(path[c]))
    {
      ghost var s := Snapshot();
      NoNodeBelowLeaf(s, c);
      assert Below(s, c) + {c} == {c} by {
        assert forall x :: x !in Below(s, c);
      }
      LeafDrop(s, c, s.path[c]);
      FreeLeaf(c);
    }

    /** The branching child `c` goes: first everything below it, then `c`
        itself. */
    method EraseSubtree(c: int)
      requires Valid() && c in path && c != ROOT && 0 <= c < nodes.Length && nodes[c].base >= BASE
      modifies this, nodes, tails
      decreases Below(Snapshot(), c), 2
      ensures nodes == old(nodes) && tails == old(tails) && Valid()
      ensures path == old(path) - (Below(old(Snapshot()), c) + {c})
      ensures Kept(old(Snapshot()), Snapshot())
      ensures contents == Drop(old(contents), old(path[c]))
    {
      ghost var s0 := Snapshot();
      EraseAllSubs(c);
      ghost var s1 := Snapshot();
      FreeBranch(c);
      KeptTrans(s0, s1, Snapshot());
    }

    /** Frees leaf `n`: its tail record and its slot are zeroed, and both
        cursors may move back to them. */
    method FreeLeaf(n: int)
      requires Valid() && n in path && 0 <= n < nodes.Length && nodes[n].base <= 0
      modifies this, nodes, tails
      ensures nodes == old(nodes) && tails == old(tails)
      ensures Valid() && Snapshot() == LeafRemoved(old(Snapshot()), n)
    {
      ghost var s := Snapshot();
      var t := -nodes[n].base;
      RemoveLeafKeepsInv(s, n);
      ghost var r := LeafRemoved(s, n);
      tails[t] := FREE_TAIL;
      nodes[n] := FREE_NODE;
      assert nodes[..] == r.ns && tails[..] == r.ts;
      path, leafOf, contents := r.path, r.leafOf, r.contents;
      SetNextUnusedTailIdx(t);
      DecNextUnusedNodeIdx(n);
    }

    /** Frees the childless branching node `n`. */
    method FreeBranch(n: int)
      requires Valid() && RemoveChildlessPre(Snapshot(), n)
      modifies this, nodes
      ensures nodes == old(nodes) && tails == old(tails)
      ensures Valid() && Snapshot() == ChildlessRemoved(old(Snapshot()), n)
    {
      ghost var s := Snapshot();
      RemoveChildlessKeepsInv(s, n);
      nodes[n] := FREE_NODE;
      path := path - {n};
      assert Snapshot() == ChildlessRemoved(s, n);
      DecNextUnusedNodeIdx(n);
    }

    // -------------------------------------------------------------------
    // Segment matches

    /** At branching node `tn`: is the path followed by the end symbol `e`
        a stored key, that is, does `e` lead to a leaf with an empty tail?
        `d` is then its payload. */
    method EndsHere(tn: int, e: Word) returns (hit: bool, d: int)
      requires Valid() && tn in path && 0 <= tn < nodes.Length && nodes[tn].base >= BASE
      ensures hit <==> path[tn] + [e] in contents
      ensures hit ==> d == contents[path[tn] + [e]]
    {
      ghost var s := Snapshot();
      EndAtBranch(s, tn, e);
      hit, d := false, 0;
      var end := nodes[tn].base + e;
      if end < nodes.Length && nodes[end].prev == tn {
        ChildPath(s, tn, e);
        var endBase := nodes[end].base;
        if endBase <= 0 {
          assert -endBase < tails.Length;
          if |tails[-endBase].words| == 0 {
            hit, d := true, tails[-endBase].data;
          }
        }
      }
    }

    /** At leaf `tn`, reached along `words[..i0]`: the only candidate from
        `i0` on is the leaf's own key, when its tail ends in `e` and the
        rest of the tail spells out the next symbols of `words`. `i` is
        where that match stops. */
    method LeafSegment(tn: int, words: seq<Word>, e: Word, i0: nat) returns (hit: bool, d: int, i: nat)
      requires Valid() && tn in path && 0 <= tn < nodes.Length && nodes[tn].base <= 0
      requires i0 <= |words| && path[tn] == words[..i0]
      ensures i0 <= i <= |words|
      ensures forall m :: i0 <= m ==> (Candidate(contents, words, e, m) <==> hit && m == i)
      ensures hit ==> Candidate(contents, words, e, i) && d == contents[words[..i] + [e]]
    {
      ghost var s := Snapshot();
      var t := -nodes[tn].base;
      assert s.ts[t].usedBy == tn;
      if |tails[t].words| == 0 || Last(tails[t].words) != e {
        LeafWithoutEnd(s, tn, words, e, i0);
        return false, 0, i0;
      }
      var j;
      j, i := MatchTail(t, words, i0, |tails[t].words| - 1);
      LeafCandidate(s, tn, words, e, i0, i, j);
      hit, d := j == |tails[t].words| - 1, tails[t].data;
    }

    /** `segment_max_match`: the longest `m` for which `words[..m]`
        followed by `e` is a stored key. When there is one, `data` receives
        its payload and `unmatch` receives `m`; otherwise both keep the
        values they had. */
    method SegmentMaxMatch(words: seq<Word>, e: Word, data0: int, unmatch0: int)
      returns (found: bool, data: int, unmatch: int)
      requires Valid()
      ensures found <==> exists m :: Candidate(contents, words, e, m)
      ensures found ==> Candidate(contents, words, e, unmatch) &&
                        data == contents[words[..unmatch] + [e]] &&
                        forall m :: unmatch < m ==> !Candidate(contents, words, e, m)
      ensures !found ==> data == data0 && unmatch == unmatch0
    {
      ghost var s := Snapshot();
      found, data, unmatch := false, data0, unmatch0;
      var tn, i := ROOT, 0;
      while i < |words|
        invariant 0 <= i <= |words| && tn in s.path && s.path[tn] == words[..i] && 0 <= tn < nodes.Length
        invariant found ==> 0 <= unmatch < i && Candidate(s.contents, words, e, unmatch) &&
                            data == s.contents[words[..unmatch] + [e]] &&
                            forall m :: unmatch < m < i ==> !Candidate(s.contents, words, e, m)
        invariant !found ==> data == data0 && unmatch == unmatch0 &&
                             forall m :: m < i ==> !Candidate(s.contents, words, e, m)
      {
        var base := nodes[tn].base;
        if base >= BASE {
          var hit, d := EndsHere(tn, e);
          assert hit <==> Candidate(s.contents, words, e, i);
          if hit {
            found, data, unmatch := true, d, i;
          }
          var w := words[i];
          var next := base + w;
          if next >= nodes.Length || nodes[next].prev != tn {
            NoCandidateAfterMiss(s, tn, words, e, i);
            return;
          }
          ChildPath(s, tn, w);
          TakeOneMore(words, i);
          tn, i := next, i + 1;
        } else {
          var hit, d, i2 := LeafSegment(tn, words, e, i);
          if hit {
            return true, d, i2;
          }
          return;
        }
      }
      assert words[..i] == words;
      var base := nodes[tn].base;
      if base >= BASE {
        var hit, d := EndsHere(tn, e);
        assert hit <==> Candidate(s.contents, words, e, i);
        if hit {
          return true, d, |words|;
        }
      } else {
        var hit, d, i2 := LeafSegment(tn, words, e, i);
        if hit {
          return true, d, |words|;
        }
      }
    }

    /** `segment_min_match`: the shortest `m` for which `words[..m]`
        followed by `e` is a stored key. When there is one, `data` receives
        its payload and `unmatch` receives `m`; otherwise both keep the
        values they had. */
    method SegmentMinMatch(words: seq<Word>, e: Word, data0: int, unmatch0: int)
      returns (found: bool, data: int, unmatch: int)
      requires Valid()
      ensures found <==> exists m :: Candidate(contents, words, e, m)
      ensures found ==> Candidate(contents, words, e, unmatch) &&
                        data == contents[words[..unmatch] + [e]] &&
                        forall m :: m < unmatch ==> !Candidate(contents, words, e, m)
      ensures !found ==> data == data0 && unmatch == unmatch0
    {
      ghost var s := Snapshot();
      found, data, unmatch := false, data0, unmatch0;
      var tn, i := ROOT, 0;
      while i < |words|
        invariant 0 <= i <= |words| && tn in s.path && s.path[tn] == words[..i] && 0 <= tn < nodes.Length
        invariant forall m :: m < i ==> !Candidate(s.contents, words, e, m)
      {
        var base := nodes[tn].base;
        if base >= BASE {
          var hit, d := EndsHere(tn, e);
          assert hit <==> Candidate(s.contents, words, e, i);
          if hit {
            return true, d, i;
          }
          var w := words[i];
          var next := base + w;
          if next >= nodes.Length || nodes[next].prev != tn {
            NoCandidateAfterMiss(s, tn, words, e, i);
            return;
          }
          ChildPath(s, tn, w);
          TakeOneMore(words, i);
          tn, i := next, i + 1;
        } else {
          var hit, d, i2 := LeafSegment(tn, words, e, i);
          if hit {
            return true, d, i2;
          }
          return;
        }
      }
      assert words[..i] == words;
      var base := nodes[tn].base;
      if base >= BASE {
        var hit, d := EndsHere(tn, e);
        assert hit <==> Candidate(s.contents, words, e, i);
        if hit {
          return true, d, |words|;
        }
      } else {
        var hit, d, i2 := LeafSegment(tn, words, e, i);
        if hit {
          return true, d, |words|;
        }
      }
    }

    // -------------------------------------------------------------------
    // Prefix queries

    /** `prefix`, payload form: appends to `acc` the payloads of the
        stored keys that begin with `words`, one per key, in increasing
        order of the keys. */
    method Prefix(words: seq<Word>, acc: seq<int>) returns (out: seq<int>, ghost keys: seq<seq<Word>>)
      requires Valid()
      ensures Lists(contents, words, keys)
      ensures out == acc + DataOf(contents, keys)
    {
      var tn, i := Descend(words);
      ghost var s := Snapshot();
      var base := nodes[tn].base;
      if base >= BASE {
        if i < |words| {
          MissKeep(s, tn, words, i);
          ListsNone(s.contents, words);
          return acc, [];
        }
        assert words[..i] == words;
        out, keys := CollectAllSubs(tn, acc);
        return;
      }
      var t := -base;
      assert s.ts[t].usedBy == tn;
      var j, i2 := MatchTail(t, words, i, |tails[t].words|);
      if i2 < |words| {
        LeafKeep(s, tn, words, i2, j);
        ListsNone(s.contents, words);
        return acc, [];
      }
      LeafWords(s, tn, words, i, j);
      keys := [FullKey(s, tn)];
      out := acc + [tails[t].data];
    }

    /** `collect_all_subs`, payload form: appends to `acc` the payloads of
        the stored keys below the branching node `tn`, children in
        increasing order of their symbols. */
    method CollectAllSubs(tn: int, acc: seq<int>) returns (out: seq<int>, ghost keys: seq<seq<Word>>)
      requires Valid() && tn in path && 0 <= tn < nodes.Length && nodes[tn].base >= BASE
      ensures Lists(contents, path[tn], keys)
      ensures out == acc + DataOf(contents, keys)
      decreases Below(Snapshot(), tn), 1
    {
      ghost var s := Snapshot();
      ghost var p := s.path[tn];
      var subs := CollectSubNodes(tn);
      out, keys := acc, [];
      var i := 0;
      while i < |subs|
        invariant 0 <= i <= |subs|
        invariant Among(s.contents, p, subs[..i], keys)
        invariant out == acc + DataOf(s.contents, keys)
      {
        ghost var out0 := out;
        ghost var more;
        out, more := CollectChild(tn, subs[i], out);
        DataStep(s.contents, p, subs, i, keys, more, acc, out0, out);
        keys := keys + more;
        i := i + 1;
      }
      assert subs[..i] == subs;
      AmongAll(s, tn, subs, keys);
    }

    /** One round of `collect_all_subs`, payload form: the payloads of the
        stored keys below the child of `tn` via `w`. */
    method CollectChild(tn: int, w: Word, acc: seq<int>) returns (out: seq<int>, ghost more: seq<seq<Word>>)
      requires Valid() && tn in path && IsChild(nodes[..], tn, w)
      ensures Lists(contents, path[tn] + [w], more)
      ensures out == acc + DataOf(contents, more)
      decreases Below(Snapshot(), tn), 0
    {
      ghost var s := Snapshot();
      ChildPath(s, tn, w);
      var next := nodes[tn].base + w;
      var base := nodes[next].base;
      if base >= BASE {
        BelowChild(s, tn, w, next);
        out, more := CollectAllSubs(next, acc);
      } else {
        assert s.ts[-base].usedBy == next;
        ListsLeaf(s, next, s.path[next]);
        more := [FullKey(s, next)];
        out := acc + [tails[-base].data];
      }
    }

    /** `prefix`, tail form: appends to `acc`, for each stored key that
        begins with `words`, in increasing order of the keys, the rest of
        the key after `words` and its payload. */
    method PrefixTails(words: seq<Word>, acc: seq<Tail>) returns (out: seq<Tail>, ghost keys: seq<seq<Word>>)
      requires Valid()
      ensures Lists(contents, words, keys)
      ensures out == acc + TailsOf(contents, words, keys)
    {
      var tn, i := Descend(words);
      ghost var s := Snapshot();
      var base := nodes[tn].base;
      if base >= BASE {
        if i < |words| {
          MissKeep(s, tn, words, i);
          ListsNone(s.contents, words);
          return acc, [];
        }
        assert words[..i] == words;
        out, keys := CollectAllTails(tn, [], words, acc);
        return;
      }
      var t := -base;
      assert s.ts[t].usedBy == tn;
      var j, i2 := MatchTail(t, words, i, |tails[t].words|);
      if i2 < |words| {
        LeafKeep(s, tn, words, i2, j);
        ListsNone(s.contents, words);
        return acc, [];
      }
      LeafWords(s, tn, words, i, j);
      keys := [FullKey(s, tn)];
      out := acc + [Tail(tails[t].words[j..], tails[t].data)];
    }

    /** `collect_all_subs`, tail form: appends to `acc`, for each stored
        key below the branching node `tn`, children in increasing order of
        their symbols, the rest of the key after the queried prefix `q`
        and its payload; `rel` holds the symbols from the end of `q` down
        to `tn`. */
    method CollectAllTails(tn: int, rel: seq<Word>, ghost q: seq<Word>, acc: seq<Tail>)
      returns (out: seq<Tail>, ghost keys: seq<seq<Word>>)
      requires Valid() && tn in path && 0 <= tn < nodes.Length && nodes[tn].base >= BASE
      requires path[tn] == q + rel
      ensures Lists(contents, path[tn], keys)
      ensures out == acc + TailsOf(contents, q, keys)
      decreases Below(Snapshot(), tn), 1
    {
      ghost var s := Snapshot();
      ghost var p := s.path[tn];
      var subs := CollectSubNodes(tn);
      out, keys := acc, [];
      var i := 0;
      while i < |subs|
        invariant 0 <= i <= |subs|
        invariant Among(s.contents, p, subs[..i], keys)
        invariant out == acc + TailsOf(s.contents, q, keys)
      {
        ghost var out0 := out;
        ghost var more;
        out, more := CollectChildTails(tn, subs[i], rel, q, out);
        TailsStep(s.contents, p, q, subs, i, keys, more, acc, out0, out);
        keys := keys + more;
        i := i + 1;
      }
      assert subs[..i] == subs;
      AmongAll(s, tn, subs, keys);
    }

    /** One round of `collect_all_subs`, tail form: the rests after `q`,
        with payloads, of the stored keys below the child of `tn` via
        `w`. */
    method CollectChildTails(tn: int, w: Word, rel: seq<Word>, ghost q: seq<Word>, acc: seq<Tail>)
      returns (out: seq<Tail>, ghost more: seq<seq<Word>>)
      requires Valid() && tn in path && IsChild(nodes[..], tn, w) && path[tn] == q + rel
      ensures Lists(contents, path[tn] + [w], more)
      ensures out == acc + TailsOf(contents, q, more)
      decreases Below(Snapshot(), tn), 0
    {
      ghost var s := Snapshot();
      ChildPath(s, tn, w);
      var next := nodes[tn].base + w;
      var base := nodes[next].base;
      if base >= BASE {
        BelowChild(s, tn, w, next);
        out, more := CollectAllTails(next, rel + [w], q, acc);
      } else {
        assert s.ts[-base].usedBy == next;
        ListsLeaf(s, next, s.path[next]);
        more := [FullKey(s, next)];
        assert FullKey(s, next) == q + (rel + [w] + tails[-base].words);
        out := acc + [Tail(rel + [w] + tails[-base].words, tails[-base].data)];
      }
    }
  }
}
