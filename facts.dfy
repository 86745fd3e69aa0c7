/** What the shape of a valid trie says about the stored keys along one
    descent: used by the lookups, by insertion (to justify its
    rejections) and by erasure. */
module TrieFacts {
  import opened TrieTypes
  import opened TrieInvariant

  /** `q` can be followed in the trie: it is the path of a live node or a
      prefix of a stored key. */
  ghost predicate Known(s: Snap, q: seq<Word>)
  {
    (exists n :: n in s.path && s.path[n] == q) ||
    (exists k :: k in s.contents && q <= k)
  }

  /** Every prefix of something that can be followed can be followed. */
  lemma KnownPrefixClosed(s: Snap, q: seq<Word>, u: nat)
    requires Skeleton(s) && Known(s, q) && u <= |q|
    ensures Known(s, q[..u])
  {
    if n :| n in s.path && s.path[n] == q {
      var a := Ancestor(s, n, u);
      assert s.path[a] == q[..u];
    } else {
      var k :| k in s.contents && q <= k;
      assert q[..u] <= k;
    }
  }

  /** A live node whose path passes through `path[n] + [w]` makes `w` a
      genuine child of `n`. */
  lemma BelowGivesChild(s: Snap, n: int, w: Word, m: int)
    requires Skeleton(s) && n in s.path && m in s.path && s.path[n] + [w] <= s.path[m]
    ensures IsChild(s.ns, n, w)
  {
    var a := Ancestor(s, m, |s.path[n]| + 1);
    assert s.path[a] == s.path[n] + [w];
    assert Linked(s, a);
    var q := s.ns[a].prev;
    assert s.path[q] == s.path[n];
    PathInjective(s, q, n);
    assert Last(s.path[a]) == w;
  }

  /** No live node lies below a missing child. */
  lemma NodeAbsent(s: Snap, n: int, w: Word)
    requires Skeleton(s) && n in s.path && s.ns[n].base >= BASE && !IsChild(s.ns, n, w)
    ensures forall m :: m in s.path ==> !(s.path[n] + [w] <= s.path[m])
  {
    forall m | m in s.path
      ensures !(s.path[n] + [w] <= s.path[m])
    {
      if s.path[n] + [w] <= s.path[m] {
        BelowGivesChild(s, n, w, m);
      }
    }
  }

  /** One symbol past a node with no child for it, nothing can be
      followed. */
  lemma MissNotKnown(s: Snap, n: int, w: Word)
    requires Inv(s) && n in s.path && s.ns[n].base >= BASE && !IsChild(s.ns, n, w)
    ensures !Known(s, s.path[n] + [w])
  {
    NodeAbsent(s, n, w);
    ChildAbsent(s, n, w);
  }

  /** No live node lies strictly below a leaf. */
  lemma NoNodeBelowLeaf(s: Snap, n: int)
    requires Skeleton(s) && n in s.path && 0 <= n < |s.ns| && s.ns[n].base <= 0
    ensures forall m :: m in s.path ==> !(s.path[n] < s.path[m])
  {
    forall m | m in s.path
      ensures !(s.path[n] < s.path[m])
    {
      if s.path[n] < s.path[m] {
        var a := Ancestor(s, m, |s.path[n]|);
        assert s.path[a] == s.path[n];
        PathInjective(s, a, n);
        assert false;
      }
    }
  }

  /** A stored key that is a prefix of a live node's path is the key of
      that very node, which is then a leaf with an empty tail. */
  lemma KeyAbove(s: Snap, n: int, k: seq<Word>)
    requires Inv(s) && n in s.path && k in s.contents && k <= s.path[n]
    ensures 0 <= n < |s.ns| && s.ns[n].base <= 0 && IsLeaf(s, n)
    ensures k == s.path[n] && FullKey(s, n) == k && s.ts[-s.ns[n].base].words == []
  {
    var L := s.leafOf[k];
    assert LeafFor(s, L, k);
    var lL := s.path[L];
    assert lL <= k;
    var a := Ancestor(s, n, |lL|);
    assert s.path[a] == s.path[n][..|lL|] == lL;
    PathInjective(s, a, L);
    if |lL| < |s.path[n]| {
      assert false;
    }
    assert lL == s.path[n];
    PathInjective(s, L, n);
  }

  /** The path of a branching node is not a stored key, nor is any of its
      prefixes. */
  lemma NoKeyAboveBranch(s: Snap, n: int)
    requires Inv(s) && n in s.path && 0 <= n < |s.ns| && s.ns[n].base >= BASE
    ensures forall k :: k in s.contents ==> !(k <= s.path[n])
  {
    forall k | k in s.contents
      ensures !(k <= s.path[n])
    {
      if k <= s.path[n] {
        KeyAbove(s, n, k);
      }
    }
  }

  /** Along the tail of leaf `n`: the part of `q` read so far can be
      followed, the next symbol cannot when the tail ends or disagrees,
      and `q` is stored exactly when it spells out the whole tail. */
  lemma LeafTailKnown(s: Snap, n: int, q: seq<Word>, i: nat, j: nat)
    requires Inv(s) && n in s.path && 0 <= n < |s.ns| && s.ns[n].base <= 0
    requires var tw := s.ts[-s.ns[n].base].words;
             |s.path[n]| + j == i <= |q| && j <= |tw| &&
             s.path[n] <= q && q[|s.path[n]|..i] == tw[..j]
    ensures Known(s, q[..i])
    ensures var tw := s.ts[-s.ns[n].base].words;
            i < |q| && (j == |tw| || tw[j] != q[i]) ==> !Known(s, q[..i + 1])
    ensures var tw := s.ts[-s.ns[n].base].words;
            (i == |q| || j == |tw| || tw[j] != q[i]) ==>
              (q in s.contents <==> j == |tw| && i == |q|)
  {
    LeafOwnsPrefix(s, n);
    NoNodeBelowLeaf(s, n);
    var p := s.path[n];
    var t := -s.ns[n].base;
    var tw := s.ts[t].words;
    var full := FullKey(s, n);
    assert full == p + tw;
    assert q[..i] == p + tw[..j];
    assert q[..i] <= full;
    assert q in s.contents ==> p <= q;
    assert i < |q| && j < |tw| && q == full ==> q[i] == tw[j];
    assert j == |tw| && i == |q| ==> q == full;
    if i < |q| {
      assert p < q[..i + 1];
      assert q[..i + 1] <= full ==> j < |tw| && tw[j] == q[i];
      forall k | k in s.contents && q[..i + 1] <= k
        ensures p <= k
      {
      }
    }
  }
}
