/** `std::sort(begin, end, comparator)` over an array of entries. The
    library's algorithm is not visible; a selection sort stands in for it,
    and the contract promises only what `std::sort` does: the array ends up
    a permutation of what it held, ordered by the comparator. Ties are left
    in no promised order. */
module Sorting {
  import opened Entries
  import opened Sequences

  method Sort(a: array<Entry>, k: SortKey)
    modifies a
    ensures SortedBy(a[..], k)
    ensures multiset(a[..]) == multiset(old(a[..]))
  {
    var i := 0;
    while i < a.Length
      invariant 0 <= i <= a.Length
      invariant SelectedUpTo(a[..], i, k)
      invariant multiset(a[..]) == multiset(old(a[..]))
    {
      var m := MinimumFrom(a, i, k);
      ghost var before := a[..];
      a[i], a[m] := a[m], a[i];
      SelectStep(before, i, m, k);
      assert a[..] == before[i := before[m]][m := before[i]];
      i := i + 1;
    }
    assert SortedBy(a[..], k) by {
      assert SelectedUpTo(a[..], a.Length, k);
    }
  }

  /** The selection sort's invariant: the first `i` entries are in order,
      and none of them comes after an entry not yet placed. */
  predicate SelectedUpTo(s: seq<Entry>, i: nat, k: SortKey)
    requires i <= |s|
  {
    && (forall p, q :: 0 <= p < q < i ==> AtMost(k, s[p], s[q]))
    && (forall p, q :: 0 <= p < i <= q < |s| ==> AtMost(k, s[p], s[q]))
  }

  /** Swapping a least remaining entry into position `i` extends the
      invariant by one place and keeps the same entries. */
  lemma SelectStep(s: seq<Entry>, i: nat, m: nat, k: SortKey)
    requires i <= m < |s| && SelectedUpTo(s, i, k)
    requires forall q :: i <= q < |s| ==> AtMost(k, s[m], s[q])
    ensures SelectedUpTo(s[i := s[m]][m := s[i]], i + 1, k)
    ensures multiset(s[i := s[m]][m := s[i]]) == multiset(s)
  {
    var s' := s[i := s[m]][m := s[i]];
    forall p, q | 0 <= p < q < i + 1
      ensures AtMost(k, s'[p], s'[q])
    {
      if q == i {
        assert s'[q] == s[m];
      }
    }
    forall p, q | 0 <= p < i + 1 <= q < |s|
      ensures AtMost(k, s'[p], s'[q])
    {
      if q == m {
        assert s'[q] == s[i];
      }
    }
  }

  /** The position of an entry of `a[from..]` that no other entry there is
      strictly before. */
  method MinimumFrom(a: array<Entry>, from: nat, k: SortKey) returns (m: nat)
    requires from < a.Length
    ensures from <= m < a.Length
    ensures forall q :: from <= q < a.Length ==> AtMost(k, a[m], a[q])
  {
    m := from;
    var j := from + 1;
    BeforeIrreflexive(k, a[m]);
    while j < a.Length
      invariant from <= m < j <= a.Length
      invariant forall q :: from <= q < j ==> AtMost(k, a[m], a[q])
    {
      if Before(k, a[j], a[m]) {
        forall q | from <= q < j
          ensures AtMost(k, a[j], a[q])
        {
          if Before(k, a[q], a[j]) {
            BeforeTransitive(k, a[q], a[j], a[m]);
          }
        }
        BeforeIrreflexive(k, a[j]);
        m := j;
      }
      j := j + 1;
    }
  }
}
