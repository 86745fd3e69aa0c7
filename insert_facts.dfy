/** Which insertions the trie refuses, and why each way an insertion
    ends is the right one. */
module TrieInsertFacts {
  import opened TrieTypes
  import opened TrieInvariant
  import opened TrieSteps
  import opened TrieFacts

  /** `insert` refuses `key` (and reports an invariant violation) when the
      key is new but can already be followed in the trie, or a stored key
      is a proper prefix of it. */
  ghost predicate Rejects(s: Snap, key: seq<Word>)
  {
    key !in s.contents && (Known(s, key) || exists k :: k in s.contents && k < key)
  }

  /** The refused keys in plain terms: a new key that is a proper prefix
      of a stored key, has a stored key as a proper prefix, or is the path
      of a branching node (the empty key, the root's path, among them). */
  lemma RejectsCases(s: Snap, key: seq<Word>)
    requires Inv(s)
    ensures Rejects(s, key) <==>
              key !in s.contents &&
              ((exists k :: k in s.contents && (key < k || k < key)) ||
               (exists n :: n in s.path && 0 <= n < |s.ns| && s.ns[n].base >= BASE && s.path[n] == key))
  {
    if key !in s.contents && Known(s, key) {
      if n :| n in s.path && s.path[n] == key {
        assert 0 <= n < |s.ns|;
        if s.ns[n].base <= 0 {
          LeafOwnsPrefix(s, n);
          var full := FullKey(s, n);
          assert key <= full && key != full;
        }
      } else {
        var k :| k in s.contents && key <= k;
        assert key != k;
      }
    }
  }

  /** A new key whose first `i + 1` symbols cannot be followed, and no
      stored key being a prefix of its first `i` symbols, is accepted. */
  lemma FreshKey(s: Snap, key: seq<Word>, i: nat)
    requires Inv(s) && i < |key| && !Known(s, key[..i + 1])
    requires forall k :: k in s.contents ==> !(k <= key[..i])
    ensures !Rejects(s, key)
  {
    assert key[..i + 1] <= key;
    if Known(s, key) {
      KnownPrefixClosed(s, key, i + 1);
    }
  }

  /** The descent stops at branching node `n` for want of a child: `key`
      is accepted. */
  lemma BranchMissAccepts(s: Snap, n: int, key: seq<Word>, i: nat)
    requires Inv(s) && n in s.path && 0 <= n < |s.ns| && s.ns[n].base >= BASE
    requires i < |key| && s.path[n] == key[..i] && !IsChild(s.ns, n, key[i])
    ensures !Rejects(s, key)
  {
    assert key[..i + 1] == s.path[n] + [key[i]];
    MissNotKnown(s, n, key[i]);
    NoKeyAboveBranch(s, n);
    FreshKey(s, key, i);
  }

  /** The descent ends exactly at branching node `n`: `key` is refused. */
  lemma BranchEndRejects(s: Snap, n: int, key: seq<Word>)
    requires Inv(s) && n in s.path && 0 <= n < |s.ns| && s.ns[n].base >= BASE && s.path[n] == key
    ensures Rejects(s, key)
  {
    NoKeyAboveBranch(s, n);
  }

  /** Along the tail of leaf `n` the key and the tail disagree at symbol
      `j` of the tail: `key` is accepted. */
  lemma LeafMissAccepts(s: Snap, n: int, key: seq<Word>, i: nat, j: nat)
    requires Inv(s) && n in s.path && 0 <= n < |s.ns| && s.ns[n].base <= 0
    requires var tw := s.ts[-s.ns[n].base].words;
             |s.path[n]| + j == i < |key| && j < |tw| &&
             s.path[n] <= key && key[|s.path[n]|..i] == tw[..j] && tw[j] != key[i]
    ensures !Rejects(s, key)
  {
    LeafTailKnown(s, n, key, i, j);
    LeafOwnsPrefix(s, n);
    PrefixFree(s);
    var full := FullKey(s, n);
    assert key[..i] == s.path[n] + s.ts[-s.ns[n].base].words[..j];
    assert key[..i] <= full && |key[..i]| < |full|;
    forall k | k in s.contents
      ensures !(k <= key[..i])
    {
      assert k <= key[..i] ==> k <= full;
    }
    FreshKey(s, key, i);
  }

  /** Along the tail of leaf `n` the key or the tail runs out, but not
      both: `key` is refused. */
  lemma LeafStopRejects(s: Snap, n: int, key: seq<Word>, i: nat, j: nat)
    requires Inv(s) && n in s.path && 0 <= n < |s.ns| && s.ns[n].base <= 0
    requires var tw := s.ts[-s.ns[n].base].words;
             |s.path[n]| + j == i <= |key| && j <= |tw| &&
             s.path[n] <= key && key[|s.path[n]|..i] == tw[..j] &&
             (i == |key| || j == |tw|) && !(i == |key| && j == |tw|)
    ensures Rejects(s, key)
  {
    LeafTailKnown(s, n, key, i, j);
    assert key[..|key|] == key;
    if i < |key| {
      LeafOwnsPrefix(s, n);
      assert FullKey(s, n) == key[..i] && key[..i] < key;
    }
  }

  /** Pushing a leaf down changes nothing that can be followed. */
  lemma PushedKnown(s: Snap, cur: int, b: int, q: seq<Word>)
    requires PushPre(s, cur, b)
    ensures Known(Pushed(s, cur, b), q) <==> Known(s, q)
  {
    var p := Pushed(s, cur, b);
    var tw := s.ts[-s.ns[cur].base].words;
    var nx := b + tw[0];
    PushedSlotFree(s, cur, b);
    if n :| n in p.path && p.path[n] == q {
      if n == nx {
        LeafOwnsPrefix(s, cur);
        assert q <= FullKey(s, cur);
      } else {
        assert s.path[n] == q;
      }
    }
    if n :| n in s.path && s.path[n] == q {
      assert p.path[n] == q;
    }
  }

  /** Claiming a slot for a new key adds exactly the prefixes of that key
      to what can be followed. */
  lemma ClaimedKnown(s: Snap, tn: int, w: Word, t: int, rest: seq<Word>, d: int, q: seq<Word>)
    requires ClaimPre(s, tn, w, t, rest)
    ensures Known(Claimed(s, tn, w, t, rest, d), q) <==> Known(s, q) || q <= s.path[tn] + [w] + rest
  {
    var c := Claimed(s, tn, w, t, rest, d);
    var next := s.ns[tn].base + w;
    var key := s.path[tn] + [w] + rest;
    ClaimedSlotFree(s, tn, w, t, rest);
    assert key in c.contents;
    if n :| n in c.path && c.path[n] == q {
      if n == next {
        assert q <= key;
      } else {
        assert s.path[n] == q;
      }
    }
    if k :| k in c.contents && q <= k && k != key {
      assert k in s.contents;
    }
    if n :| n in s.path && s.path[n] == q {
      assert c.path[n] == q;
    }
    if k :| k in s.contents && q <= k {
      assert k in c.contents;
    }
  }

  lemma ClaimedKnownAll(s: Snap, tn: int, w: Word, t: int, rest: seq<Word>, d: int)
    requires ClaimPre(s, tn, w, t, rest)
    ensures forall q :: Known(Claimed(s, tn, w, t, rest, d), q) <==> Known(s, q) || q <= s.path[tn] + [w] + rest
  {
    forall q
      ensures Known(Claimed(s, tn, w, t, rest, d), q) <==> Known(s, q) || q <= s.path[tn] + [w] + rest
    {
      ClaimedKnown(s, tn, w, t, rest, d, q);
    }
  }

  /** Where a push leaves things: `cur` keeps its path, the new leaf `nx`
      has the path one symbol longer, and nothing that can be followed
      changes. */
  lemma PushedFacts(s: Snap, cur: int, b: int, t: int, w: Word, nx: int, p: Snap)
    requires PushPre(s, cur, b) && p == Pushed(s, cur, b)
    requires t == -s.ns[cur].base && w == s.ts[t].words[0] && nx == b + w
    ensures cur in p.path && p.path[cur] == s.path[cur]
    ensures nx in p.path && p.path[nx] == s.path[cur] + [w]
    ensures forall q :: Known(p, q) <==> Known(s, q)
  {
    PushedSlotFree(s, cur, b);
    forall q
      ensures Known(p, q) <==> Known(s, q)
    {
      PushedKnown(s, cur, b, q);
    }
  }

  /** The push as writes to the two arrays, and that it keeps the
      invariant and the stored keys. */
  lemma PushedShape(s: Snap, cur: int, b: int, t: int, w: Word, nx: int, p: Snap)
    requires PushPre(s, cur, b) && p == Pushed(s, cur, b)
    requires t == -s.ns[cur].base && w == s.ts[t].words[0] && nx == b + w
    ensures 0 <= t < |s.ts| && 0 <= nx < |s.ns| && nx != cur && s.ts[t].usedBy != 0
    ensures p.ns == s.ns[cur := Node(b, s.ns[cur].prev)][nx := Node(-t, cur)]
    ensures p.ts == s.ts[t := TailRec(s.ts[t].words[1..], s.ts[t].data, nx)]
    ensures p.contents == s.contents && Inv(p)
  {
    PushDownKeepsInv(s, cur, b);
    PushedSlotFree(s, cur, b);
    assert TailOk(s, t);
  }

  /** The tail walk stops: the key or the tail `tw` has run out, or they
      disagree at the next symbol `key[i]`. */
  predicate Disagree(tw: seq<Word>, key: seq<Word>, i: nat)
  {
    i >= |key| || |tw| == 0 || tw[0] != key[i]
  }

  /** Where the tail walk stops at leaf `n`, reached along `key[..i]`, with
      the key and the tail no longer agreeing: the new key is refused
      exactly when it or the tail has run out. */
  lemma LeafEnd(s: Snap, n: int, key: seq<Word>, i: nat)
    requires Inv(s) && n in s.path && 0 <= n < |s.ns| && s.ns[n].base <= 0 && -s.ns[n].base < |s.ts|
    requires i <= |key| && s.path[n] == key[..i] && key !in s.contents
    requires Disagree(s.ts[-s.ns[n].base].words, key, i)
    ensures Rejects(s, key) <==> i == |key| || |s.ts[-s.ns[n].base].words| == 0
  {
    var tw := s.ts[-s.ns[n].base].words;
    assert s.path[n] <= key && key[|s.path[n]|..i] == tw[..0];
    if i == |key| || |tw| == 0 {
      LeafOwnsPrefix(s, n);
      assert FullKey(s, n) == key[..i] + tw && FullKey(s, n) != key && key[..|key|] == key;
      LeafStopRejects(s, n, key, i, 0);
    } else {
      LeafMissAccepts(s, n, key, i, 0);
    }
  }
}
