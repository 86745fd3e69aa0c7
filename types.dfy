/** Basic vocabulary of the double-array trie: symbols, node and tail
    records, the reserved indices and the lexicographic order on keys. */
module TrieTypes {

  /** One symbol of a key: an unsigned byte. */
  type Word = x: int | 0 <= x <= MAX_WORD

  /** Largest symbol value, `(Word)(~0ULL)` in the source. */
  const MAX_WORD: int := 255

  /** Index of the root node. */
  const ROOT: int := 1

  /** Smallest base of a branching node. */
  const BASE: int := ROOT + 1

  /** A slot of the node array.
      `base >= BASE`: a branching node whose child via `w` sits at `base + w`;
      `base <= 0`: a leaf whose tail record is `-base`;
      `prev`: the index of the parent that owns the slot, 0 for a free slot. */
  datatype Node = Node(base: int, prev: int)

  /** A free (all-zero) node slot. */
  const FREE_NODE: Node := Node(0, 0)

  /** A slot of the tail array: the unconsumed rest of a key, its payload
      and the leaf that owns it (0 when the slot is free). */
  datatype TailRec = TailRec(words: seq<Word>, data: int, usedBy: int)

  /** A free (all-zero) tail slot. */
  const FREE_TAIL: TailRec := TailRec([], 0, 0)

  /** The public result record of the full prefix query: the rest of a
      stored key after the queried prefix, and its payload. */
  datatype Tail = Tail(words: seq<Word>, data: int)

  /** Outcome of an insertion: the source throws `invalid_argument` with
      its invariant-violation message in the second case. */
  datatype Status = Ok | InvariantViolation

  /** Strict lexicographic order on keys (a proper prefix comes first). */
  predicate LexLess(a: seq<Word>, b: seq<Word>)
    decreases |a|
  {
    |b| > 0 && (|a| == 0 || a[0] < b[0] || (a[0] == b[0] && LexLess(a[1..], b[1..])))
  }

  /** Keys listed in strictly increasing lexicographic order. */
  ghost predicate StrictlySorted(keys: seq<seq<Word>>)
  {
    forall i, j :: 0 <= i < j < |keys| ==> LexLess(keys[i], keys[j])
  }

  /** Two keys that agree on their first `m` symbols and then differ are
      ordered by the symbol at position `m`. */
  lemma {:induction false} LexLessAt(a: seq<Word>, b: seq<Word>, m: nat)
    requires m < |a| && m < |b| && a[..m] == b[..m] && a[m] < b[m]
    ensures LexLess(a, b)
  {
    if m > 0 {
      assert a[1..][..m - 1] == a[1..m] == b[1..m] == b[1..][..m - 1];
      LexLessAt(a[1..], b[1..], m - 1);
    }
  }

  /** A prefix one symbol longer. */
  lemma TakeOneMore(key: seq<Word>, i: nat)
    requires i < |key|
    ensures key[..i + 1] == key[..i] + [key[i]]
  {
  }

  /** The order is irreflexive. */
  lemma {:induction false} LexLessIrreflexive(a: seq<Word>)
    ensures !LexLess(a, a)
    decreases |a|
  {
    if |a| > 0 {
      LexLessIrreflexive(a[1..]);
    }
  }

  /** A strictly sorted list has no duplicates. */
  lemma SortedDistinct(keys: seq<seq<Word>>)
    requires StrictlySorted(keys)
    ensures forall i, j :: 0 <= i < j < |keys| ==> keys[i] != keys[j]
  {
    forall i, j | 0 <= i < j < |keys|
      ensures keys[i] != keys[j]
    {
      LexLessIrreflexive(keys[i]);
    }
  }

  /** The order is asymmetric. */
  lemma {:induction false} LexLessAsymmetric(a: seq<Word>, b: seq<Word>)
    ensures LexLess(a, b) ==> !LexLess(b, a)
    decreases |a|
  {
    if |a| > 0 && |b| > 0 && a[0] == b[0] {
      LexLessAsymmetric(a[1..], b[1..]);
    }
  }

  /** Two strictly sorted lists of the same keys are the same list. */
  lemma {:induction false} SortedUnique(a: seq<seq<Word>>, b: seq<seq<Word>>)
    requires StrictlySorted(a) && StrictlySorted(b)
    requires forall k :: k in a <==> k in b
    ensures a == b
    decreases |a|
  {
    if |a| > 0 {
      assert a[0] in b;
    }
    if |b| > 0 {
      assert b[0] in a;
    }
    if |a| > 0 && |b| > 0 {
      var x, y := a[0], b[0];
      var j :| 0 <= j < |b| && b[j] == x;
      var i :| 0 <= i < |a| && a[i] == y;
      assert i > 0 ==> LexLess(x, y);
      assert j > 0 ==> LexLess(y, x);
      LexLessAsymmetric(x, y);
      assert x == y;
      SortedDistinct(a);
      SortedDistinct(b);
      forall k
        ensures k in a[1..] <==> k in b[1..]
      {
        assert k in a[1..] <==> k in a && k != x;
        assert k in b[1..] <==> k in b && k != x;
      }
      SortedUnique(a[1..], b[1..]);
      assert a == [x] + a[1..] && b == [x] + b[1..];
    }
  }

  /** Concatenating two sorted lists, every element of the first below
      every element of the second, gives a sorted list. */
  lemma SortedAppend(a: seq<seq<Word>>, b: seq<seq<Word>>)
    requires StrictlySorted(a) && StrictlySorted(b)
    requires forall i, j :: 0 <= i < |a| && 0 <= j < |b| ==> LexLess(a[i], b[j])
    ensures StrictlySorted(a + b)
  {
    var c := a + b;
    forall i, j | 0 <= i < j < |c|
      ensures LexLess(c[i], c[j])
    {
      if j < |a| {
        assert c[i] == a[i] && c[j] == a[j];
      } else if i < |a| {
        assert c[i] == a[i] && c[j] == b[j - |a|];
      } else {
        assert c[i] == b[i - |a|] && c[j] == b[j - |a|];
      }
    }
  }
}
