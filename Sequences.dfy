/** The stored `entries` vector as a `seq<Entry>`: the book's invariant, and
    the functions that say what each operation of the book computes, with
    the facts about them that the operations rely on. */
module Sequences {
  import opened Strings
  import opened Entries

  /** No stored entry lacks both names. */
  predicate AllNamed(s: seq<Entry>)
  {
    forall i :: 0 <= i < |s| ==> HasName(s[i])
  }

  /** No entry is stored twice. */
  predicate Distinct(s: seq<Entry>)
  {
    forall i, j :: 0 <= i < j < |s| ==> s[i] != s[j]
  }

  /** The invariant `add` and `remove` keep on `entries`. */
  predicate WellFormed(s: seq<Entry>)
  {
    AllNamed(s) && Distinct(s)
  }

  /** `std::find(s.begin(), s.end(), x) - s.begin()`: the first position
      holding an entry equal to `x`, or `|s|` (the end iterator) when there
      is none. */
  function IndexOf(s: seq<Entry>, x: Entry): (r: nat)
    ensures r <= |s|
    ensures r < |s| ==> s[r] == x
    ensures forall i :: 0 <= i < r ==> s[i] != x
  {
    if s == [] then 0
    else if Equal(s[0], x) then 0
    else 1 + IndexOf(s[1..], x)
  }

  lemma IndexOfFound(s: seq<Entry>, x: Entry)
    ensures IndexOf(s, x) < |s| <==> x in s
  {
  }

  lemma DistinctAppend(s: seq<Entry>, x: Entry)
    ensures Distinct(s + [x]) <==> Distinct(s) && x !in s
  {
    var t := s + [x];
    if Distinct(t) {
      assert forall i, j :: 0 <= i < j < |s| ==> s[i] == t[i] && s[j] == t[j];
      forall i | 0 <= i < |s|
        ensures s[i] != x
      {
        assert t[i] != t[|s|];
      }
    }
  }

  /** An entry occurs at most once in a sequence with no repeats: the
      multiset form of `Distinct`. */
  lemma {:induction false} DistinctIffAtMostOnce(s: seq<Entry>)
    ensures Distinct(s) <==> forall x :: multiset(s)[x] <= 1
    decreases |s|
  {
    if s != [] {
      var init, last := s[..|s| - 1], s[|s| - 1];
      assert s == init + [last];
      DistinctIffAtMostOnce(init);
      DistinctAppend(init, last);
      if !Distinct(s) {
        if !Distinct(init) {
          var x :| multiset(init)[x] > 1;
          assert multiset(s)[x] >= multiset(init)[x];
        } else {
          assert multiset(init)[last] >= 1 && multiset(s)[last] == multiset(init)[last] + 1;
        }
      } else {
        forall x
          ensures multiset(s)[x] <= 1
        {
          assert multiset(s)[x] == multiset(init)[x] + (if x == last then 1 else 0);
        }
      }
    }
  }

  /** A reordering of a well-formed sequence is well-formed: sorting keeps
      the book's invariant. */
  lemma PermutationWellFormed(s: seq<Entry>, t: seq<Entry>)
    requires multiset(s) == multiset(t)
    requires WellFormed(s)
    ensures WellFormed(t)
  {
    DistinctIffAtMostOnce(s);
    DistinctIffAtMostOnce(t);
    forall i | 0 <= i < |t|
      ensures HasName(t[i])
    {
      assert t[i] in multiset(s);
    }
  }

  /** Non-decreasing by the chosen name under `std::string`'s `<`: no entry
      is strictly before one placed earlier. */
  predicate SortedBy(s: seq<Entry>, k: SortKey)
  {
    forall i, j :: 0 <= i < j < |s| ==> AtMost(k, s[i], s[j])
  }

  /** Order between neighbours is enough: `AtMost` is transitive. */
  lemma {:induction false} SortedFromAdjacent(s: seq<Entry>, k: SortKey)
    requires forall i :: 0 <= i < |s| - 1 ==> AtMost(k, s[i], s[i + 1])
    ensures SortedBy(s, k)
    decreases |s|
  {
    if |s| > 1 {
      var n := |s| - 1;
      var s' := s[..n];
      forall i | 0 <= i < |s'| - 1
        ensures AtMost(k, s'[i], s'[i + 1])
      {
        assert s'[i] == s[i] && s'[i + 1] == s[i + 1];
      }
      SortedFromAdjacent(s', k);
      forall i, j | 0 <= i < j < |s|
        ensures AtMost(k, s[i], s[j])
      {
        if j < n {
          assert s'[i] == s[i] && s'[j] == s[j];
        } else if i < n - 1 {
          assert s'[i] == s[i] && s'[n - 1] == s[n - 1];
          AtMostTransitive(k, s[i], s[n - 1], s[n]);
        }
      }
    }
  }

  /** The sort names of `s`, position by position. */
  function Names(s: seq<Entry>, k: SortKey): seq<string>
  {
    seq(|s|, i requires 0 <= i < |s| => Name(s[i], k))
  }

  /** Without one position, a sorted sequence stays sorted. */
  lemma EraseSorted(t: seq<Entry>, p: nat, k: SortKey)
    requires SortedBy(t, k) && p < |t|
    ensures SortedBy(t[..p] + t[p + 1..], k)
  {
    var t' := t[..p] + t[p + 1..];
    forall i, j | 0 <= i < j < |t'|
      ensures AtMost(k, t'[i], t'[j])
    {
      var i', j' := if i < p then i else i + 1, if j < p then j else j + 1;
      assert t'[i] == t[i'] && t'[j] == t[j'] && i' < j';
    }
  }

  lemma EraseMultiset(t: seq<Entry>, p: nat)
    requires p < |t|
    ensures multiset(t[..p] + t[p + 1..]) == multiset(t) - multiset{t[p]}
  {
    assert t == t[..p] + [t[p]] + t[p + 1..];
  }

  /** Sorted reorderings of the same entries end on the same name. */
  lemma SortedLastNamesAgree(s: seq<Entry>, t: seq<Entry>, k: SortKey)
    requires multiset(s) == multiset(t) && |s| == |t| > 0
    requires SortedBy(s, k) && SortedBy(t, k)
    ensures Name(s[|s| - 1], k) == Name(t[|t| - 1], k)
  {
    var n := |s| - 1;
    assert s[n] in multiset(t);
    assert t[n] in multiset(s);
    var p :| 0 <= p < |t| && t[p] == s[n];
    var q :| 0 <= q < |s| && s[q] == t[n];
    BeforeIrreflexive(k, s[n]);
    BeforeIrreflexive(k, t[n]);
    assert AtMost(k, t[n], s[n]) by {
      if q < n {
        assert AtMost(k, s[q], s[n]);
      }
    }
    assert AtMost(k, s[n], t[n]) by {
      if p < n {
        assert AtMost(k, t[p], t[n]);
      }
    }
    BeforeIncomparableSameName(k, s[n], t[n]);
  }

  /** In a sorted sequence, everything from a position holding the last
      name on holds that name too. */
  lemma SortedTailSameName(t: seq<Entry>, p: nat, k: SortKey)
    requires SortedBy(t, k) && p < |t|
    requires Name(t[p], k) == Name(t[|t| - 1], k)
    ensures forall j :: p <= j < |t| ==> Name(t[j], k) == Name(t[p], k)
  {
    var n := |t| - 1;
    forall j | p < j < n
      ensures Name(t[j], k) == Name(t[p], k)
    {
      assert AtMost(k, t[p], t[j]) && AtMost(k, t[j], t[n]);
      BeforeIncomparableSameName(k, t[j], t[p]);
    }
  }

  /** However a sort breaks ties, the names come out in one order: two
      sorted reorderings of the same entries agree name by name. So sorting
      twice gives the same names, and only entries sharing a name can trade
      places. */
  lemma SortedNamesDetermined(s: seq<Entry>, t: seq<Entry>, k: SortKey)
    requires multiset(s) == multiset(t)
    requires SortedBy(s, k) && SortedBy(t, k)
    ensures Names(s, k) == Names(t, k)
  {
    SortedNamesAgree(s, t, k);
  }

  lemma {:induction false} SortedNamesAgree(s: seq<Entry>, t: seq<Entry>, k: SortKey)
    requires multiset(s) == multiset(t)
    requires SortedBy(s, k) && SortedBy(t, k)
    ensures |s| == |t|
    ensures forall i :: 0 <= i < |s| ==> Name(s[i], k) == Name(t[i], k)
    decreases |s|
  {
    assert |s| == |multiset(s)| == |multiset(t)| == |t|;
    if s != [] {
      var n := |s| - 1;
      var p: nat :| p < |t| && t[p] == s[n] by {
        assert s[n] in multiset(t);
      }
      SortedLastNamesAgree(s, t, k);
      SortedTailSameName(t, p, k);
      EraseBoth(s, t, p, k);
      SortedNamesAgree(s[..n], t[..p] + t[p + 1..], k);
      ErasedNamesAgree(s, t, p, s[..n], t[..p] + t[p + 1..], k);
    }
  }

  /** Taking the last entry off `s`, and the same entry off `t` at `p`,
      leaves sorted reorderings of each other. */
  lemma EraseBoth(s: seq<Entry>, t: seq<Entry>, p: nat, k: SortKey)
    requires multiset(s) == multiset(t) && SortedBy(s, k) && SortedBy(t, k)
    requires |s| == |t| && p < |t| && t[p] == s[|s| - 1]
    ensures multiset(s[..|s| - 1]) == multiset(t[..p] + t[p + 1..])
    ensures SortedBy(s[..|s| - 1], k) && SortedBy(t[..p] + t[p + 1..], k)
  {
    var n := |s| - 1;
    EraseMultiset(s, n);
    EraseMultiset(t, p);
    EraseSorted(s, n, k);
    EraseSorted(t, p, k);
    assert s[..n] == s[..n] + s[n + 1..];
  }

  /** The induction step of `SortedNamesAgree`: names agree up to the
      erased positions, and from `p` on every name of `t` is the last name
      of `s`. */
  lemma ErasedNamesAgree(s: seq<Entry>, t: seq<Entry>, p: nat, s': seq<Entry>, t': seq<Entry>, k: SortKey)
    requires |s| == |t| && p < |t|
    requires s' == s[..|s| - 1] && t' == t[..p] + t[p + 1..]
    requires forall j :: p <= j < |t| ==> Name(t[j], k) == Name(t[p], k)
    requires Name(s[|s| - 1], k) == Name(t[p], k)
    requires forall i :: 0 <= i < |s'| ==> Name(s'[i], k) == Name(t'[i], k)
    ensures forall i :: 0 <= i < |s| ==> Name(s[i], k) == Name(t[i], k)
  {
    var n := |s| - 1;
    forall i | 0 <= i < n
      ensures Name(s[i], k) == Name(t[i], k)
    {
      assert Name(s[i], k) == Name(s'[i], k) == Name(t'[i], k);
      if i >= p {
        assert t'[i] == t[i + 1];
      }
    }
  }

  /** When no two entries share the sort name, there is only one sorted
      order: a sorted reordering is determined entry by entry. */
  lemma DistinctNamesDetermineSorted(s: seq<Entry>, t: seq<Entry>, k: SortKey)
    requires multiset(s) == multiset(t)
    requires SortedBy(s, k) && SortedBy(t, k)
    requires forall i, j :: 0 <= i < j < |s| ==> Name(s[i], k) != Name(s[j], k)
    ensures s == t
  {
    SortedNamesDetermined(s, t, k);
    forall i | 0 <= i < |t|
      ensures s[i] == t[i]
    {
      assert t[i] in multiset(s);
      var j :| 0 <= j < |s| && s[j] == t[i];
      assert Names(s, k)[i] == Names(t, k)[i];
    }
  }

  /** `r` is `s` with some elements left out and the rest in their order. */
  ghost predicate IsSubsequence(r: seq<Entry>, s: seq<Entry>)
    decreases |s|
  {
    if s == [] then r == []
    else
      (r != [] && r[|r| - 1] == s[|s| - 1] && IsSubsequence(r[..|r| - 1], s[..|s| - 1]))
      || IsSubsequence(r, s[..|s| - 1])
  }

  /** The two ways a subsequence grows with its sequence. */
  lemma SubsequenceKeep(r: seq<Entry>, s: seq<Entry>, x: Entry)
    requires IsSubsequence(r, s)
    ensures IsSubsequence(r + [x], s + [x])
  {
    assert (r + [x])[..|r|] == r && (s + [x])[..|s|] == s;
  }

  lemma SubsequenceSkip(r: seq<Entry>, s: seq<Entry>, x: Entry)
    requires IsSubsequence(r, s)
    ensures IsSubsequence(r, s + [x])
  {
    assert (s + [x])[..|s|] == s;
  }

  lemma {:induction false} SubsequenceMembers(r: seq<Entry>, s: seq<Entry>)
    requires IsSubsequence(r, s)
    ensures forall x :: x in r ==> x in s
    decreases |s|
  {
    if s != [] {
      var s' := s[..|s| - 1];
      assert s == s' + [s[|s| - 1]];
      if r != [] && r[|r| - 1] == s[|s| - 1] && IsSubsequence(r[..|r| - 1], s') {
        SubsequenceMembers(r[..|r| - 1], s');
        assert r == r[..|r| - 1] + [r[|r| - 1]];
      } else {
        SubsequenceMembers(r, s');
      }
    }
  }

  lemma {:induction false} SubsequenceSorted(r: seq<Entry>, s: seq<Entry>, k: SortKey)
    requires IsSubsequence(r, s) && SortedBy(s, k)
    ensures SortedBy(r, k)
    decreases |s|
  {
    if s != [] {
      var s' := s[..|s| - 1];
      if r != [] && r[|r| - 1] == s[|s| - 1] && IsSubsequence(r[..|r| - 1], s') {
        var r' := r[..|r| - 1];
        SubsequenceSorted(r', s', k);
        SubsequenceMembers(r', s');
        forall i, j | 0 <= i < j < |r|
          ensures AtMost(k, r[i], r[j])
        {
          if j == |r| - 1 {
            assert r[i] == r'[i] && r'[i] in s';
            var p :| 0 <= p < |s'| && s'[p] == r[i];
            assert s[p] == r[i];
          } else {
            assert r[i] == r'[i] && r[j] == r'[j];
          }
        }
      } else {
        SubsequenceSorted(r, s', k);
      }
    }
  }

  lemma {:induction false} SubsequenceDistinct(r: seq<Entry>, s: seq<Entry>)
    requires IsSubsequence(r, s) && Distinct(s)
    ensures Distinct(r)
    decreases |s|
  {
    if s != [] {
      var s', last := s[..|s| - 1], s[|s| - 1];
      assert s == s' + [last];
      DistinctAppend(s', last);
      if r != [] && r[|r| - 1] == last && IsSubsequence(r[..|r| - 1], s') {
        var r' := r[..|r| - 1];
        assert r == r' + [last];
        SubsequenceDistinct(r', s');
        SubsequenceMembers(r', s');
        DistinctAppend(r', last);
      } else {
        SubsequenceDistinct(r, s');
      }
    }
  }

  /** A subsequence of a well-formed sequence is well-formed. */
  lemma SubsequenceWellFormed(r: seq<Entry>, s: seq<Entry>)
    requires IsSubsequence(r, s) && WellFormed(s)
    ensures WellFormed(r)
  {
    SubsequenceDistinct(r, s);
    SubsequenceMembers(r, s);
    forall i | 0 <= i < |r|
      ensures HasName(r[i])
    {
      assert r[i] in s;
    }
  }

  // ---- find ----------------------------------------------------------------

  /** What `find(query)` returns: the entries of `s` that match `query`, in
      the order of `s` (`std::copy_if` with `is_prefix_match`). */
  function Matching(s: seq<Entry>, query: string): seq<Entry>
  {
    if s == [] then []
    else Matching(s[..|s| - 1], query) + (if Matches(s[|s| - 1], query) then [s[|s| - 1]] else [])
  }

  /** Finding in a sequence with one more entry at the end finds what was
      found before, then that entry if it matches: what `find` reports
      after a successful `add`. */
  lemma MatchingAppend(s: seq<Entry>, x: Entry, query: string)
    ensures Matching(s + [x], query) == Matching(s, query) + (if Matches(x, query) then [x] else [])
  {
    assert (s + [x])[..|s|] == s;
  }

  /** Exactly the matching entries are found. */
  lemma {:induction false} MatchingMembers(s: seq<Entry>, query: string)
    ensures forall x :: x in Matching(s, query) <==> x in s && Matches(x, query)
    decreases |s|
  {
    if s != [] {
      MatchingMembers(s[..|s| - 1], query);
      assert s == s[..|s| - 1] + [s[|s| - 1]];
    }
  }

  /** The found entries keep their stored order. */
  lemma {:induction false} MatchingIsSubsequence(s: seq<Entry>, query: string)
    ensures IsSubsequence(Matching(s, query), s)
    decreases |s|
  {
    if s != [] {
      var s', last := s[..|s| - 1], s[|s| - 1];
      assert s == s' + [last];
      MatchingIsSubsequence(s', query);
      if Matches(last, query) {
        SubsequenceKeep(Matching(s', query), s', last);
      } else {
        assert Matching(s, query) == Matching(s', query);
        SubsequenceSkip(Matching(s', query), s', last);
      }
    }
  }

  /** When no stored entry matches, nothing is found. */
  lemma {:induction false} MatchingNone(s: seq<Entry>, query: string)
    requires forall x :: x in s ==> !Matches(x, query)
    ensures Matching(s, query) == []
    decreases |s|
  {
    if s != [] {
      var s', last := s[..|s| - 1], s[|s| - 1];
      assert s == s' + [last];
      MatchingNone(s', query);
      MatchingAppend(s', last, query);
    }
  }

  /** `find("")` returns every entry, in stored order. */
  lemma {:induction false} MatchingEmptyQuery(s: seq<Entry>)
    ensures Matching(s, "") == s
    decreases |s|
  {
    if s != [] {
      MatchingEmptyQuery(s[..|s| - 1]);
      EmptyQueryMatches(s[|s| - 1]);
      assert s == s[..|s| - 1] + [s[|s| - 1]];
    }
  }

  /** `find` ignores the case of the query: queries that lower-case alike
      find the same entries. */
  lemma {:induction false} MatchingIgnoresQueryCase(s: seq<Entry>, q1: string, q2: string)
    requires ToLower(q1) == ToLower(q2)
    ensures Matching(s, q1) == Matching(s, q2)
    decreases |s|
  {
    if s != [] {
      MatchingIgnoresQueryCase(s[..|s| - 1], q1, q2);
      MatchesIgnoresQueryCase(s[|s| - 1], q1, q2);
    }
  }

  /** After a sort, `find` reports its results in sorted order. */
  lemma MatchingKeepsSorted(s: seq<Entry>, query: string, k: SortKey)
    requires SortedBy(s, k)
    ensures SortedBy(Matching(s, query), k)
  {
    MatchingIsSubsequence(s, query);
    SubsequenceSorted(Matching(s, query), s, k);
  }

  // ---- remove and operator- ---------------------------------------------------

  /** The entries of `s` equal to no entry of `t`, in the order of `s`. */
  function Subtract(s: seq<Entry>, t: seq<Entry>): seq<Entry>
  {
    if s == [] then []
    else Subtract(s[..|s| - 1], t) + (if s[|s| - 1] in t then [] else [s[|s| - 1]])
  }

  lemma {:induction false} SubtractMembers(s: seq<Entry>, t: seq<Entry>)
    ensures forall x :: x in Subtract(s, t) <==> x in s && x !in t
    decreases |s|
  {
    if s != [] {
      SubtractMembers(s[..|s| - 1], t);
      assert s == s[..|s| - 1] + [s[|s| - 1]];
    }
  }

  lemma {:induction false} SubtractIsSubsequence(s: seq<Entry>, t: seq<Entry>)
    ensures IsSubsequence(Subtract(s, t), s)
    decreases |s|
  {
    if s != [] {
      var s', last := s[..|s| - 1], s[|s| - 1];
      assert s == s' + [last];
      SubtractIsSubsequence(s', t);
      if last in t {
        assert Subtract(s, t) == Subtract(s', t);
        SubsequenceSkip(Subtract(s', t), s', last);
      } else {
        SubsequenceKeep(Subtract(s', t), s', last);
      }
    }
  }

  lemma SubtractWellFormed(s: seq<Entry>, t: seq<Entry>)
    requires WellFormed(s)
    ensures WellFormed(Subtract(s, t))
  {
    SubtractIsSubsequence(s, t);
    SubsequenceWellFormed(Subtract(s, t), s);
  }

  /** Removing `t` and then `x` is removing `t + [x]`: the step of the loop
      in `operator-`. */
  lemma {:induction false} SubtractAppend(s: seq<Entry>, t: seq<Entry>, x: Entry)
    ensures Subtract(s, t + [x]) == Subtract(Subtract(s, t), [x])
    decreases |s|
  {
    if s != [] {
      var s', last := s[..|s| - 1], s[|s| - 1];
      SubtractAppend(s', t, x);
      var r := Subtract(s', t);
      assert last in t + [x] <==> last in t || last == x;
      assert Subtract(s, t + [x]) == Subtract(r, [x]) + (if last in t + [x] then [] else [last]);
      if last !in t {
        var r' := r + [last];
        assert Subtract(s, t) == r';
        assert r'[..|r'| - 1] == r && r'[|r'| - 1] == last;
        assert Subtract(r', [x]) == Subtract(r, [x]) + (if last in [x] then [] else [last]);
      } else {
        assert Subtract(s, t) == r;
      }
    }
  }

  /** Removing no entries changes nothing. */
  lemma {:induction false} SubtractNothing(s: seq<Entry>)
    ensures Subtract(s, []) == s
    decreases |s|
  {
    if s != [] {
      SubtractNothing(s[..|s| - 1]);
      assert s == s[..|s| - 1] + [s[|s| - 1]];
    }
  }

  /** Removing an absent entry changes nothing. */
  lemma {:induction false} SubtractAbsent(s: seq<Entry>, x: Entry)
    requires x !in s
    ensures Subtract(s, [x]) == s
    decreases |s|
  {
    if s != [] {
      SubtractAbsent(s[..|s| - 1], x);
      assert s == s[..|s| - 1] + [s[|s| - 1]];
    }
  }

  /** Erasing the one position that holds `s[i]` is removing the entry
      `s[i]`, when nothing is stored twice. */
  lemma {:induction false} EraseIsSubtract(s: seq<Entry>, i: nat)
    requires Distinct(s) && i < |s|
    ensures s[..i] + s[i + 1..] == Subtract(s, [s[i]])
    decreases |s|
  {
    var s', last := s[..|s| - 1], s[|s| - 1];
    assert s == s' + [last];
    DistinctAppend(s', last);
    if i == |s| - 1 {
      SubtractAbsent(s', last);
      assert s[..i] == s';
    } else {
      assert s'[i] == s[i];
      EraseIsSubtract(s', i);
      assert s[..i] + s[i + 1..] == (s'[..i] + s'[i + 1..]) + [last];
    }
  }

  /** What `entries.erase(it)` leaves when `it` points at `x`: a
      well-formed sequence one shorter, without `x`, the others in their
      order. */
  lemma EraseFound(s: seq<Entry>, i: nat, x: Entry)
    requires WellFormed(s) && i < |s| && s[i] == x
    ensures WellFormed(s[..i] + s[i + 1..])
    ensures x !in s[..i] + s[i + 1..]
    ensures s[..i] + s[i + 1..] == Subtract(s, [x])
  {
    EraseIsSubtract(s, i);
    SubtractWellFormed(s, [x]);
    SubtractMembers(s, [x]);
  }

  /** Putting the erased entry back at its position restores the sequence. */
  lemma EraseReinsert(s: seq<Entry>, i: nat)
    requires i < |s|
    ensures s == (s[..i] + s[i + 1..])[..i] + [s[i]] + (s[..i] + s[i + 1..])[i..]
  {
    var r := s[..i] + s[i + 1..];
    assert r[..i] == s[..i] && r[i..] == s[i + 1..];
    assert s == s[..i] + [s[i]] + s[i + 1..];
  }

  /** Removing a stored entry from a sequence without repeats takes out
      exactly one copy of it. */
  lemma RemoveOneCopy(s: seq<Entry>, x: Entry)
    requires Distinct(s) && x in s
    ensures multiset(Subtract(s, [x])) == multiset(s) - multiset{x}
  {
    var i := IndexOf(s, x);
    IndexOfFound(s, x);
    EraseIsSubtract(s, i);
    EraseMultiset(s, i);
  }

  /** Removing a just-appended entry restores the sequence. */
  lemma RemoveUndoesAppend(s: seq<Entry>, x: Entry)
    requires x !in s
    ensures Subtract(s + [x], [x]) == s
  {
    SubtractAbsent(s, x);
    assert (s + [x])[..|s + [x]| - 1] == s;
  }

  // ---- operator+ ---------------------------------------------------------------

  /** The entries of `b` that `add` accepts into a book holding `a`: those
      with a name that `a` does not already hold, in the order of `b`. */
  function Additions(a: seq<Entry>, b: seq<Entry>): seq<Entry>
  {
    if b == [] then []
    else
      Additions(a, b[..|b| - 1])
      + (if HasName(b[|b| - 1]) && b[|b| - 1] !in a then [b[|b| - 1]] else [])
  }

  /** One more entry of `b`: it is added when it has a name and is not in
      `a`; an entry not yet seen in `b` cannot be among the earlier
      additions. */
  lemma AdditionsAppend(a: seq<Entry>, b: seq<Entry>, x: Entry)
    requires x !in b
    ensures x !in a + Additions(a, b) <==> x !in a
    ensures Additions(a, b + [x]) == Additions(a, b) + (if HasName(x) && x !in a then [x] else [])
  {
    assert (b + [x])[..|b|] == b;
    AdditionsMembers(a, b);
  }

  lemma {:induction false} AdditionsMembers(a: seq<Entry>, b: seq<Entry>)
    ensures forall x :: x in Additions(a, b) <==> x in b && HasName(x) && x !in a
    decreases |b|
  {
    if b != [] {
      AdditionsMembers(a, b[..|b| - 1]);
      assert b == b[..|b| - 1] + [b[|b| - 1]];
    }
  }

  lemma {:induction false} AdditionsIsSubsequence(a: seq<Entry>, b: seq<Entry>)
    ensures IsSubsequence(Additions(a, b), b)
    decreases |b|
  {
    if b != [] {
      var b', last := b[..|b| - 1], b[|b| - 1];
      assert b == b' + [last];
      AdditionsIsSubsequence(a, b');
      if HasName(last) && last !in a {
        SubsequenceKeep(Additions(a, b'), b', last);
      } else {
        assert Additions(a, b) == Additions(a, b');
        SubsequenceSkip(Additions(a, b'), b', last);
      }
    }
  }

  /** The merged sequence keeps the book's invariant. */
  lemma MergeWellFormed(a: seq<Entry>, b: seq<Entry>)
    requires WellFormed(a) && Distinct(b)
    ensures WellFormed(a + Additions(a, b))
  {
    var add := Additions(a, b);
    AdditionsIsSubsequence(a, b);
    SubsequenceDistinct(add, b);
    AdditionsMembers(a, b);
    var m := a + add;
    forall i | 0 <= i < |m|
      ensures HasName(m[i])
    {
      if i >= |a| {
        assert m[i] == add[i - |a|] && m[i] in add;
      }
    }
    forall i, j | 0 <= i < j < |m|
      ensures m[i] != m[j]
    {
      if j >= |a| {
        assert m[j] == add[j - |a|] && m[j] in add;
        if i >= |a| {
          assert m[i] == add[i - |a|];
        } else {
          assert m[i] in a;
        }
      }
    }
  }

  /** Merging a book with itself, or with a book of already-stored entries,
      adds nothing. */
  lemma AdditionsOfStored(a: seq<Entry>, b: seq<Entry>)
    requires forall x :: x in b ==> x in a
    ensures Additions(a, b) == []
  {
    AdditionsMembers(a, b);
    if Additions(a, b) != [] {
      assert Additions(a, b)[0] in Additions(a, b);
    }
  }
}
