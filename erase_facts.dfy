/** What erasure removes: every stored key that begins with the erased
    prefix, and the live nodes below the node where the prefix ends. */
module TrieEraseFacts {
  import opened TrieTypes
  import opened TrieInvariant
  import opened TrieSteps
  import opened TrieFacts
  import opened TrieRelocate

  /** The stored keys that do not begin with `p`, with their payloads. */
  function Drop(c: map<seq<Word>, int>, p: seq<Word>): map<seq<Word>, int>
  {
    map k | k in c && !(p <= k) :: c[k]
  }

  /** The stored keys that do not continue `p` with one of the symbols
      `ws`. */
  function Strip(c: map<seq<Word>, int>, p: seq<Word>, ws: seq<Word>): map<seq<Word>, int>
  {
    map k | k in c && !(p < k && k[|p|] in ws) :: c[k]
  }

  /** The live nodes strictly below `n`. */
  ghost function Below(s: Snap, n: int): set<int>
    requires n in s.path
  {
    set x | x in s.path && s.path[n] < s.path[x]
  }

  /** The live nodes strictly below the path `p` whose next symbol is one
      of `ws`. */
  ghost function Under(s: Snap, p: seq<Word>, ws: seq<Word>): set<int>
  {
    set x | x in s.path && p < s.path[x] && s.path[x][|p|] in ws
  }

  /** `a`'s live nodes are live in `b` with the same paths. */
  ghost predicate SubPaths(a: Snap, b: Snap)
  {
    forall x :: x in a.path ==> x in b.path && a.path[x] == b.path[x]
  }

  // ---------------------------------------------------------------------
  // The keys

  /** Erasing the keys below one more child symbol `w`. */
  lemma StripStep(c: map<seq<Word>, int>, p: seq<Word>, ws: seq<Word>, w: Word)
    ensures Drop(Strip(c, p, ws), p + [w]) == Strip(c, p, ws + [w])
  {
    var l, r := Drop(Strip(c, p, ws), p + [w]), Strip(c, p, ws + [w]);
    forall k
      ensures k in l <==> k in r
    {
      assert p + [w] <= k <==> p < k && k[|p|] == w;
    }
  }

  /** Once the keys below every child of branching node `n` are erased,
      every key beginning with `n`'s path is erased. */
  lemma StripAll(s: Snap, n: int, subs: seq<Word>)
    requires Inv(s) && n in s.path && 0 <= n < |s.ns| && s.ns[n].base >= BASE
    requires ChildList(s.ns, n, subs)
    ensures Strip(s.contents, s.path[n], subs) == Drop(s.contents, s.path[n])
  {
    var p := s.path[n];
    forall k | k in s.contents && p <= k
      ensures p < k && k[|p|] in subs
    {
      KeyBelowBranch(s, n, k);
    }
    assert Strip(s.contents, p, subs).Keys == Drop(s.contents, p).Keys;
  }

  /** Erasing a prefix that ends inside leaf `n`'s key erases exactly that
      key. */
  lemma LeafDrop(s: Snap, n: int, p: seq<Word>)
    requires RemoveLeafPre(s, n) && s.path[n] <= p
    requires p <= s.path[n] + s.ts[-s.ns[n].base].words
    ensures Drop(s.contents, p) == s.contents - {FullKey(s, n)}
  {
    LeafOwnsPrefix(s, n);
    var l, r := Drop(s.contents, p), s.contents - {FullKey(s, n)};
    forall k
      ensures k in l <==> k in r
    {
      assert p <= k ==> s.path[n] <= k;
    }
  }

  /** Erasing a prefix that leaves leaf `n`'s tail at symbol `j` erases
      nothing. */
  lemma LeafKeep(s: Snap, n: int, key: seq<Word>, i: nat, j: nat)
    requires Inv(s) && n in s.path && 0 <= n < |s.ns| && s.ns[n].base <= 0
    requires var tw := s.ts[-s.ns[n].base].words;
             |s.path[n]| + j == i < |key| && j <= |tw| &&
             s.path[n] <= key && key[|s.path[n]|..i] == tw[..j] &&
             (j == |tw| || tw[j] != key[i])
    ensures Drop(s.contents, key) == s.contents
  {
    LeafOwnsPrefix(s, n);
    var tw := s.ts[-s.ns[n].base].words;
    var full := FullKey(s, n);
    assert full == s.path[n] + tw;
    if j == |tw| {
      assert |full| < |key|;
    } else {
      assert full[i] == tw[j] != key[i];
    }
    var ln := s.path[n];
    assert !(key <= full) && ln <= key;
    forall k | k in s.contents
      ensures !(key <= k)
    {
      assert key <= k ==> ln <= k;
    }
  }

  /** Erasing a prefix whose descent misses a child erases nothing. */
  lemma MissKeep(s: Snap, n: int, key: seq<Word>, i: nat)
    requires Inv(s) && n in s.path && 0 <= n < |s.ns| && s.ns[n].base >= BASE
    requires i < |key| && s.path[n] == key[..i] && !IsChild(s.ns, n, key[i])
    ensures Drop(s.contents, key) == s.contents
  {
    ChildAbsent(s, n, key[i]);
    assert s.path[n] + [key[i]] == key[..i + 1];
    forall k | k in s.contents
      ensures !(key <= k)
    {
      assert !(key[..i + 1] <= k);
    }
  }

  // ---------------------------------------------------------------------
  // The nodes

  /** One more child symbol `w`: its subtree goes too. */
  lemma UnderStep(s0: Snap, cur: Snap, p: seq<Word>, ws: seq<Word>, w: Word)
    requires cur.path == s0.path - Under(s0, p, ws)
    ensures cur.path - Under(cur, p, [w]) == s0.path - Under(s0, p, ws + [w])
  {
    var l, r := cur.path - Under(cur, p, [w]), s0.path - Under(s0, p, ws + [w]);
    assert l.Keys == r.Keys;
  }

  /** The nodes below `p` whose next symbol is `w` are the child `c` with
      path `p + [w]` and its subtree. */
  lemma UnderChild(s: Snap, p: seq<Word>, w: Word, c: int)
    requires Skeleton(s) && c in s.path && s.path[c] == p + [w]
    ensures Under(s, p, [w]) == Below(s, c) + {c}
  {
    forall x | x in Under(s, p, [w])
      ensures x in Below(s, c) + {c}
    {
      var q := s.path[x];
      assert p + [w] <= q;
      if q == p + [w] {
        PathInjective(s, x, c);
      }
    }
  }

  /** Below a branching node, the nodes under its children are all its
      strict descendants. */
  lemma UnderAll(s: Snap, n: int, subs: seq<Word>)
    requires Skeleton(s) && n in s.path && 0 <= n < |s.ns| && s.ns[n].base >= BASE
    requires ChildList(s.ns, n, subs)
    ensures Under(s, s.path[n], subs) == Below(s, n)
  {
    var p := s.path[n];
    forall x | x in Below(s, n)
      ensures x in Under(s, p, subs)
    {
      var q := s.path[x];
      assert p + [q[|p|]] <= q;
      BelowGivesChild(s, n, q[|p|], x);
    }
  }

  /** Once its strict descendants are gone, `n` has no children. */
  lemma Childless(s0: Snap, s1: Snap, n: int)
    requires Skeleton(s1) && n in s0.path && s1.path == s0.path - Below(s0, n)
    ensures forall m :: m in s1.path && m != ROOT ==> s1.ns[m].prev != n
  {
    forall m | m in s1.path && m != ROOT
      ensures s1.ns[m].prev != n
    {
      assert Linked(s1, m);
      var p := s1.ns[m].prev;
      var q := s1.path[m];
      assert s1.path[p] == q[..|q| - 1] < q;
      assert n in s1.path && !(s0.path[n] < q);
    }
  }

  /** Two prefixes of one sequence are prefixes one of the other. */
  lemma PrefixesComparable(a: seq<Word>, b: seq<Word>, k: seq<Word>)
    requires a <= k && b <= k
    ensures a <= b || b <= a
  {
    if |a| <= |b| {
      assert a == k[..|a|] == b[..|a|];
    } else {
      assert b == k[..|b|] == a[..|b|];
    }
  }

  /** Removing live nodes whose paths are prefixes or extensions of `key`,
      and the stored keys that begin with `key`, makes nothing new
      followable and forgets only what is a prefix or an extension of
      `key`. */
  lemma ErasedKnown(a: Snap, b: Snap, key: seq<Word>, q: seq<Word>)
    requires SubPaths(b, a) && b.contents == Drop(a.contents, key)
    requires forall x :: x in a.path && x !in b.path ==> a.path[x] <= key || key <= a.path[x]
    ensures Known(b, q) ==> Known(a, q)
    ensures Known(a, q) ==> Known(b, q) || q <= key || key <= q
  {
    if n :| n in b.path && b.path[n] == q {
      assert a.path[n] == q;
    }
    if k :| k in b.contents && q <= k {
      assert k in a.contents;
    }
    if n :| n in a.path && a.path[n] == q && n in b.path {
      assert b.path[n] == q;
    }
    if k :| k in a.contents && q <= k {
      if key <= k {
        PrefixesComparable(q, key, k);
      } else {
        assert k in b.contents;
      }
    }
  }

  lemma ErasedKnownAll(a: Snap, b: Snap, key: seq<Word>)
    requires SubPaths(b, a) && b.contents == Drop(a.contents, key)
    requires forall x :: x in a.path && x !in b.path ==> a.path[x] <= key || key <= a.path[x]
    ensures forall q :: Known(b, q) ==> Known(a, q)
    ensures forall q :: Known(a, q) ==> Known(b, q) || q <= key || key <= q
  {
    forall q
      ensures (Known(b, q) ==> Known(a, q)) && (Known(a, q) ==> Known(b, q) || q <= key || key <= q)
    {
      ErasedKnown(a, b, key, q);
    }
  }

  /** The slots of the live nodes of `b` hold what they held in `a`. */
  ghost predicate Kept(a: Snap, b: Snap)
  {
    |b.ns| == |a.ns| && forall x :: x in b.path && 0 <= x < |b.ns| ==> b.ns[x] == a.ns[x]
  }

  lemma KeptTrans(a: Snap, b: Snap, c: Snap)
    requires Kept(a, b) && Kept(b, c) && SubPaths(c, b)
    ensures Kept(a, c)
  {
  }

  /** What is left after removals keeps the other nodes' paths. */
  lemma RemovedSub(s0: Snap, s1: Snap, d: set<int>)
    requires s1.path == s0.path - d
    ensures SubPaths(s1, s0)
  {
  }

  /** Fewer live nodes, fewer nodes below `n`. */
  lemma BelowShrinks(s0: Snap, s1: Snap, n: int)
    requires SubPaths(s1, s0) && n in s1.path
    ensures Below(s1, n) <= Below(s0, n)
  {
    forall x | x in Below(s1, n)
      ensures x in Below(s0, n)
    {
    }
  }

  /** A child's subtree is strictly smaller than its parent's. */
  lemma BelowChild(s: Snap, n: int, w: Word, c: int)
    requires n in s.path && c in s.path && s.path[c] == s.path[n] + [w]
    ensures Below(s, c) < Below(s, n)
  {
    assert c in Below(s, n) && c !in Below(s, c);
    forall x | x in Below(s, c)
      ensures x in Below(s, n)
    {
      assert s.path[n] < s.path[c] < s.path[x];
    }
  }

  /** A child of `tn` that the first `i` rounds of `erase_all_subs` did not
      reach is still a child, and `tn` has no more nodes below it. */
  lemma StillChild(s0: Snap, cur: Snap, tn: int, subs: seq<Word>, i: nat, w: Word)
    requires Inv(s0) && tn in s0.path && ChildList(s0.ns, tn, subs)
    requires i < |subs| && subs[i] == w
    requires cur.path == s0.path - Under(s0, s0.path[tn], subs[..i]) && Kept(s0, cur)
    ensures tn in cur.path && IsChild(cur.ns, tn, w)
    ensures Below(cur, tn) <= Below(s0, tn)
  {
    assert IsChild(s0.ns, tn, w);
    ChildPath(s0, tn, w);
    var c := s0.ns[tn].base + w;
    assert w !in subs[..i];
    assert c in cur.path && tn in cur.path;
    RemovedSub(s0, cur, Under(s0, s0.path[tn], subs[..i]));
    BelowShrinks(s0, cur, tn);
  }
}
