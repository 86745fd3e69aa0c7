/** What the read-only queries report about the stored keys: the
    candidates of the segment matches and the sorted listings of the
    prefix queries. */
module TrieQueryFacts {
  import opened TrieTypes
  import opened TrieInvariant
  import opened TrieFacts
  import opened TrieRelocate
  import opened TrieEraseFacts

  // ---------------------------------------------------------------------
  // Segment matches

  /** `words[..m]` followed by the end symbol `e` is a stored key. */
  ghost predicate Candidate(c: map<seq<Word>, int>, words: seq<Word>, e: Word, m: int)
  {
    0 <= m <= |words| && words[..m] + [e] in c
  }

  /** At branching node `n`, the path followed by `e` is stored exactly
      when `e` leads to a genuine child that is a leaf with an empty tail;
      its payload is then that tail's. */
  lemma EndAtBranch(s: Snap, n: int, e: Word)
    requires Inv(s) && n in s.path && 0 <= n < |s.ns| && s.ns[n].base >= BASE
    ensures var c := s.ns[n].base + e;
            s.path[n] + [e] in s.contents <==>
              IsChild(s.ns, n, e) && s.ns[c].base <= 0 && -s.ns[c].base < |s.ts| &&
              |s.ts[-s.ns[c].base].words| == 0
    ensures var c := s.ns[n].base + e;
            s.path[n] + [e] in s.contents ==>
              s.contents[s.path[n] + [e]] == s.ts[-s.ns[c].base].data
  {
    var k := s.path[n] + [e];
    if IsChild(s.ns, n, e) {
      ChildPath(s, n, e);
      var c := s.ns[n].base + e;
      assert 0 <= c < |s.ns|;
      if s.ns[c].base <= 0 {
        LeafOwnsPrefix(s, c);
        var tw := s.ts[-s.ns[c].base].words;
        assert FullKey(s, c) == k + tw;
        assert k in s.contents ==> k == FullKey(s, c) && |tw| == 0;
        assert |tw| == 0 ==> k == FullKey(s, c);
      } else {
        NoKeyAboveBranch(s, c);
      }
    } else {
      ChildAbsent(s, n, e);
    }
  }

  /** Past a branching node with no child for the next symbol, there is
      no candidate. */
  lemma NoCandidateAfterMiss(s: Snap, n: int, words: seq<Word>, e: Word, i: nat)
    requires Inv(s) && n in s.path && s.ns[n].base >= BASE
    requires i < |words| && s.path[n] == words[..i] && !IsChild(s.ns, n, words[i])
    ensures forall m :: i < m ==> !Candidate(s.contents, words, e, m)
  {
    ChildAbsent(s, n, words[i]);
    TakeOneMore(words, i);
    forall m | i < m <= |words|
      ensures words[..m] + [e] !in s.contents
    {
      assert words[..i + 1] <= words[..m] + [e];
    }
  }

  /** A candidate through leaf `n` is the leaf's own key. */
  lemma CandidateAtLeaf(s: Snap, n: int, words: seq<Word>, e: Word, i0: nat, m: int)
    requires Inv(s) && n in s.path && s.ns[n].base <= 0
    requires i0 <= m <= |words| && s.path[n] == words[..i0]
    ensures IsLeaf(s, n)
    ensures Candidate(s.contents, words, e, m) ==> words[..m] + [e] == FullKey(s, n)
  {
    LeafOwnsPrefix(s, n);
    assert words[..i0] <= words[..m] + [e];
  }

  /** A leaf whose tail is empty or does not end in `e` yields no
      candidate. */
  lemma LeafWithoutEnd(s: Snap, n: int, words: seq<Word>, e: Word, i0: nat)
    requires Inv(s) && n in s.path && 0 <= n < |s.ns| && s.ns[n].base <= 0
    requires i0 <= |words| && s.path[n] == words[..i0]
    requires var tw := s.ts[-s.ns[n].base].words; |tw| == 0 || Last(tw) != e
    ensures forall m :: i0 <= m ==> !Candidate(s.contents, words, e, m)
  {
    var tw := s.ts[-s.ns[n].base].words;
    forall m | i0 <= m <= |words|
      ensures !Candidate(s.contents, words, e, m)
    {
      CandidateAtLeaf(s, n, words, e, i0, m);
      var k := words[..m] + [e];
      assert |k| == m + 1 > i0 && Last(k) == e;
      assert |tw| > 0 ==> Last(words[..i0] + tw) == Last(tw);
    }
  }

  /** Along leaf `n`'s tail, which ends in `e`, the words and the tail
      (without its last symbol) have been matched up to `i` and `j`, and
      can be matched no further: the only candidate from `i0` on is `i`,
      and it is one exactly when the whole tail but its last symbol was
      matched. */
  lemma LeafCandidate(s: Snap, n: int, words: seq<Word>, e: Word, i0: nat, i: nat, j: nat)
    requires Inv(s) && n in s.path && 0 <= n < |s.ns| && s.ns[n].base <= 0
    requires i0 <= |words| && s.path[n] == words[..i0]
    requires var tw := s.ts[-s.ns[n].base].words;
             |tw| > 0 && Last(tw) == e && i0 + j == i <= |words| && j <= |tw| - 1 &&
             words[i0..i] == tw[..j] && (j == |tw| - 1 || i == |words| || tw[j] != words[i])
    ensures forall m :: i0 <= m && m != i ==> !Candidate(s.contents, words, e, m)
    ensures Candidate(s.contents, words, e, i) <==> j == |s.ts[-s.ns[n].base].words| - 1
    ensures Candidate(s.contents, words, e, i) ==>
              s.contents[words[..i] + [e]] == s.ts[-s.ns[n].base].data
  {
    LeafOwnsPrefix(s, n);
    var tw := s.ts[-s.ns[n].base].words;
    var full := FullKey(s, n);
    assert full == words[..i0] + tw;
    forall m | i0 <= m <= |words|
      ensures Candidate(s.contents, words, e, m) ==> m == i && j == |tw| - 1
    {
      CandidateAtLeaf(s, n, words, e, i0, m);
      var k := words[..m] + [e];
      assert k == full ==> m == i0 + |tw| - 1;
      assert j < |tw| - 1 && m == i0 + |tw| - 1 ==> i < m && k[i] == words[i] != tw[j] == full[i];
    }
    CandidateAtLeaf(s, n, words, e, i0, i);
    if j == |tw| - 1 {
      assert words[..i] == words[..i0] + words[i0..i];
      assert tw == tw[..j] + [e];
      assert words[..i] + [e] == full;
    }
  }

  // ---------------------------------------------------------------------
  // Prefix listings

  /** `keys` lists, in increasing order, exactly the stored keys that
      begin with `p`. */
  ghost predicate Lists(c: map<seq<Word>, int>, p: seq<Word>, keys: seq<seq<Word>>)
  {
    StrictlySorted(keys) && forall k :: k in keys <==> k in c && p <= k
  }

  /** The listing of the keys beginning with `p` is unique, so a query
      stated through it has exactly one possible result. */
  lemma ListsUnique(c: map<seq<Word>, int>, p: seq<Word>, k1: seq<seq<Word>>, k2: seq<seq<Word>>)
    requires Lists(c, p, k1) && Lists(c, p, k2)
    ensures k1 == k2
  {
    SortedUnique(k1, k2);
  }

  /** `keys` lists, in increasing order, exactly the stored keys that
      continue `p` with one of the symbols `ws`. */
  ghost predicate Among(c: map<seq<Word>, int>, p: seq<Word>, ws: seq<Word>, keys: seq<seq<Word>>)
  {
    StrictlySorted(keys) && forall k :: k in keys <==> k in c && p < k && k[|p|] in ws
  }

  /** The payloads of `keys`, in order. */
  function DataOf(c: map<seq<Word>, int>, keys: seq<seq<Word>>): (r: seq<int>)
    requires forall k :: k in keys ==> k in c
    ensures |r| == |keys|
    ensures forall i :: 0 <= i < |keys| ==> r[i] == c[keys[i]]
  {
    if keys == [] then [] else [c[keys[0]]] + DataOf(c, keys[1..])
  }

  /** The rest of each of `keys` after its first `|q|` symbols, with its
      payload, in order. */
  function TailsOf(c: map<seq<Word>, int>, q: seq<Word>, keys: seq<seq<Word>>): (r: seq<Tail>)
    requires forall k :: k in keys ==> k in c && |q| <= |k|
    ensures |r| == |keys|
    ensures forall i :: 0 <= i < |keys| ==> r[i] == Tail(keys[i][|q|..], c[keys[i]])
  {
    if keys == [] then [] else [Tail(keys[0][|q|..], c[keys[0]])] + TailsOf(c, q, keys[1..])
  }

  lemma {:induction false} DataOfAppend(c: map<seq<Word>, int>, a: seq<seq<Word>>, b: seq<seq<Word>>)
    requires forall k :: k in a + b ==> k in c
    ensures DataOf(c, a + b) == DataOf(c, a) + DataOf(c, b)
  {
    if a != [] {
      assert (a + b)[1..] == a[1..] + b;
      DataOfAppend(c, a[1..], b);
    }
  }

  lemma {:induction false} TailsOfAppend(c: map<seq<Word>, int>, q: seq<Word>, a: seq<seq<Word>>, b: seq<seq<Word>>)
    requires forall k :: k in a + b ==> k in c && |q| <= |k|
    ensures TailsOf(c, q, a + b) == TailsOf(c, q, a) + TailsOf(c, q, b)
  {
    if a != [] {
      assert (a + b)[1..] == a[1..] + b;
      TailsOfAppend(c, q, a[1..], b);
    }
  }

  /** Nothing is listed below a prefix whose erasure would keep every
      key. */
  lemma ListsNone(c: map<seq<Word>, int>, p: seq<Word>)
    requires Drop(c, p) == c
    ensures Lists(c, p, [])
  {
    forall k | k in c
      ensures !(p <= k)
    {
      assert k in Drop(c, p);
    }
  }

  /** The listing below a leaf's path (or any prefix of its key that
      extends the path) is the leaf's key alone. */
  lemma ListsLeaf(s: Snap, n: int, p: seq<Word>)
    requires Inv(s) && n in s.path && s.ns[n].base <= 0
    requires IsLeaf(s, n) && s.path[n] <= p <= FullKey(s, n)
    ensures Lists(s.contents, p, [FullKey(s, n)])
  {
    LeafOwnsPrefix(s, n);
    forall k | k in s.contents && p <= k
      ensures k == FullKey(s, n)
    {
      assert s.path[n] <= k;
    }
  }

  /** Appending the listing below one more child symbol `w`, larger than
      those listed so far. */
  lemma AmongStep(c: map<seq<Word>, int>, p: seq<Word>, ws: seq<Word>, w: Word,
                  keys: seq<seq<Word>>, more: seq<seq<Word>>)
    requires Among(c, p, ws, keys) && Lists(c, p + [w], more)
    requires forall x :: x in ws ==> x < w
    ensures Among(c, p, ws + [w], keys + more)
  {
    forall a, b | 0 <= a < |keys| && 0 <= b < |more|
      ensures LexLess(keys[a], more[b])
    {
      var k1, k2 := keys[a], more[b];
      assert k1 in keys && k2 in more;
      assert p + [w] <= k2;
      assert k1[..|p|] == p == k2[..|p|];
      LexLessAt(k1, k2, |p|);
    }
    SortedAppend(keys, more);
    forall k
      ensures k in keys + more <==> k in c && p < k && k[|p|] in ws + [w]
    {
      assert p + [w] <= k <==> p < k && k[|p|] == w;
    }
  }

  /** Once every child of branching node `n` is listed, all the keys
      below `n` are. */
  lemma AmongAll(s: Snap, n: int, subs: seq<Word>, keys: seq<seq<Word>>)
    requires Inv(s) && n in s.path && 0 <= n < |s.ns| && s.ns[n].base >= BASE
    requires ChildList(s.ns, n, subs) && Among(s.contents, s.path[n], subs, keys)
    ensures Lists(s.contents, s.path[n], keys)
  {
    forall k | k in s.contents && s.path[n] <= k
      ensures k in keys
    {
      KeyBelowBranch(s, n, k);
    }
  }

  /** The descent and the tail walk consumed all of `words`, `i` of them
      along the path of leaf `n` and `j` along its tail: the listing below
      `words` is the leaf's key, and the rest of that key after `words` is
      the rest of the tail. */
  lemma LeafWords(s: Snap, n: int, words: seq<Word>, i: nat, j: nat)
    requires Inv(s) && n in s.path && 0 <= n < |s.ns| && s.ns[n].base <= 0
    requires i <= |words| && s.path[n] == words[..i]
    requires var tw := s.ts[-s.ns[n].base].words;
             j <= |tw| && i + j == |words| && words[i..] == tw[..j]
    ensures IsLeaf(s, n) && Lists(s.contents, words, [FullKey(s, n)])
    ensures FullKey(s, n)[|words|..] == s.ts[-s.ns[n].base].words[j..]
  {
    LeafOwnsPrefix(s, n);
    var tw := s.ts[-s.ns[n].base].words;
    assert words == words[..i] + words[i..];
    assert tw == tw[..j] + tw[j..];
    assert FullKey(s, n) == words + tw[j..];
    ListsLeaf(s, n, words);
  }

  /** One round of the payload listing: the keys below child symbol
      `subs[i]`, larger than those listed so far, are appended. */
  lemma DataStep(c: map<seq<Word>, int>, p: seq<Word>, subs: seq<Word>, i: nat,
                 keys: seq<seq<Word>>, more: seq<seq<Word>>, acc: seq<int>, out0: seq<int>, out1: seq<int>)
    requires i < |subs| && forall a, b :: 0 <= a < b < |subs| ==> subs[a] < subs[b]
    requires Among(c, p, subs[..i], keys) && Lists(c, p + [subs[i]], more)
    requires out0 == acc + DataOf(c, keys) && out1 == out0 + DataOf(c, more)
    ensures Among(c, p, subs[..i + 1], keys + more)
    ensures out1 == acc + DataOf(c, keys + more)
  {
    SmallerBefore(subs, i);
    AmongStep(c, p, subs[..i], subs[i], keys, more);
    TakeOneMore(subs, i);
    Present(c, p, subs[..i], keys, more, p + [subs[i]]);
    DataOfAppend(c, keys, more);
    Assoc(acc, DataOf(c, keys), DataOf(c, more));
  }

  /** One round of the tail listing. */
  lemma TailsStep(c: map<seq<Word>, int>, p: seq<Word>, q: seq<Word>, subs: seq<Word>, i: nat,
                  keys: seq<seq<Word>>, more: seq<seq<Word>>, acc: seq<Tail>, out0: seq<Tail>, out1: seq<Tail>)
    requires i < |subs| && forall a, b :: 0 <= a < b < |subs| ==> subs[a] < subs[b]
    requires q <= p && Among(c, p, subs[..i], keys) && Lists(c, p + [subs[i]], more)
    requires out0 == acc + TailsOf(c, q, keys) && out1 == out0 + TailsOf(c, q, more)
    ensures Among(c, p, subs[..i + 1], keys + more)
    ensures out1 == acc + TailsOf(c, q, keys + more)
  {
    SmallerBefore(subs, i);
    AmongStep(c, p, subs[..i], subs[i], keys, more);
    TakeOneMore(subs, i);
    Present(c, p, subs[..i], keys, more, p + [subs[i]]);
    TailsOfAppend(c, q, keys, more);
    Assoc(acc, TailsOf(c, q, keys), TailsOf(c, q, more));
  }

  lemma Assoc<T>(a: seq<T>, b: seq<T>, c: seq<T>)
    ensures (a + b) + c == a + (b + c)
  {
  }

  /** The symbols before position `i` of a strictly increasing list are
      smaller than the one at `i`. */
  lemma SmallerBefore(subs: seq<Word>, i: nat)
    requires i < |subs| && forall a, b :: 0 <= a < b < |subs| ==> subs[a] < subs[b]
    ensures forall x :: x in subs[..i] ==> x < subs[i]
  {
  }

  /** Every listed key is a stored key extending `p`. */
  lemma Present(c: map<seq<Word>, int>, p: seq<Word>, ws: seq<Word>,
                keys: seq<seq<Word>>, more: seq<seq<Word>>, p2: seq<Word>)
    requires Among(c, p, ws, keys) && Lists(c, p2, more) && p <= p2
    ensures forall k :: k in keys + more ==> k in c && |p| <= |k|
  {
  }
}
