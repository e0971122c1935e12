/** The abstract sequence operations that the list mutators are specified by,
    and the laws that relate them. */
module Sequences {
  /** `s` without its element at position `i`. */
  function RemoveAt<T>(s: seq<T>, i: nat): (r: seq<T>)
    requires i < |s|
    ensures |r| == |s| - 1
    ensures forall j | 0 <= j < |r| :: r[j] == if j < i then s[j] else s[j + 1]
  {
    s[..i] + s[i + 1..]
  }

  /** `s` with `v` placed before its element at position `i`
      (after the last element when `i == |s|`). */
  function InsertAt<T>(s: seq<T>, i: nat, v: T): (r: seq<T>)
    requires i <= |s|
    ensures |r| == |s| + 1 && r[i] == v
    ensures forall j | 0 <= j < |s| :: s[j] == if j < i then r[j] else r[j + 1]
  {
    s[..i] + [v] + s[i..]
  }

  /** The elements of `s` from last to first. */
  function Reversed<T>(s: seq<T>): (r: seq<T>)
    ensures |r| == |s|
  {
    if s == [] then [] else Reversed(s[1..]) + [s[0]]
  }

  /** Position `k` of the reversal holds the `k`-th element from the end. */
  lemma {:induction false} ReversedIndex<T>(s: seq<T>, k: nat)
    requires k < |s|
    ensures Reversed(s)[k] == s[|s| - 1 - k]
  {
    if k < |s| - 1 {
      ReversedIndex(s[1..], k);
    }
  }

  /** Reversal turns a concatenation around. */
  lemma {:induction false} ReversedConcat<T>(a: seq<T>, b: seq<T>)
    ensures Reversed(a + b) == Reversed(b) + Reversed(a)
  {
    if a == [] {
      assert a + b == b;
    } else {
      assert (a + b)[1..] == a[1..] + b;
      ReversedConcat(a[1..], b);
    }
  }

  /** Reversing twice gives the sequence back. */
  lemma {:induction false} ReversedReversed<T>(s: seq<T>)
    ensures Reversed(Reversed(s)) == s
  {
    if s != [] {
      ReversedConcat(Reversed(s[1..]), [s[0]]);
      ReversedReversed(s[1..]);
      assert Reversed([s[0]]) == [s[0]] by {
        assert [s[0]][1..] == [];
      }
    }
  }

  /** Removing the element just inserted gives the sequence back. */
  lemma RemoveAfterInsert<T>(s: seq<T>, i: nat, v: T)
    requires i <= |s|
    ensures RemoveAt(InsertAt(s, i, v), i) == s
  {
  }

  /** Putting a removed element back at its position gives the sequence back. */
  lemma InsertAfterRemove<T>(s: seq<T>, i: nat)
    requires i < |s|
    ensures InsertAt(RemoveAt(s, i), i, s[i]) == s
  {
  }

  /** Appending is inserting at the end, prepending is inserting at the front. */
  lemma EndsAreInsertions<T>(s: seq<T>, v: T)
    ensures s + [v] == InsertAt(s, |s|, v)
    ensures [v] + s == InsertAt(s, 0, v)
  {
  }

  /** Dropping the first or the last element is removing at that end. */
  lemma EndsAreRemovals<T>(s: seq<T>)
    requires s != []
    ensures s[1..] == RemoveAt(s, 0)
    ensures s[..|s| - 1] == RemoveAt(s, |s| - 1)
  {
  }

  /** No element of `s` occurs twice. */
  ghost predicate Distinct<T>(s: seq<T>)
  {
    forall i, j | 0 <= i < j < |s| :: s[i] != s[j]
  }

  /** Removing an element keeps a sequence free of repetitions. */
  lemma DistinctRemoveAt<T>(s: seq<T>, i: nat)
    requires Distinct(s) && i < |s|
    ensures Distinct(RemoveAt(s, i))
  {
    var r := RemoveAt(s, i);
    forall j, k | 0 <= j < k < |r|
      ensures r[j] != r[k]
    {
      var j', k' := if j < i then j else j + 1, if k < i then k else k + 1;
      assert r[j] == s[j'] && r[k] == s[k'];
    }
  }

  /** Inserting an element not yet present keeps a sequence free of
      repetitions. */
  lemma DistinctInsertAt<T>(s: seq<T>, i: nat, v: T)
    requires Distinct(s) && i <= |s| && v !in s
    ensures Distinct(InsertAt(s, i, v))
  {
    var r := InsertAt(s, i, v);
    forall j, k | 0 <= j < k < |r|
      ensures r[j] != r[k]
    {
      if j != i && k != i {
        var j', k' := if j < i then j else j - 1, if k < i then k else k - 1;
        assert r[j] == s[j'] && r[k] == s[k'];
      } else if j == i {
        assert r[k] == s[k - 1];
      } else {
        assert r[j] == s[j];
      }
    }
  }
}
