/** The behaviour the repository's tests expect of `AddressBook`, derived
    from the contracts of the operations alone. */
module Scenarios {
  import opened Strings
  import opened Entries
  import opened Sequences
  import opened Book

  const Sally := Entry("Sally", "Graham", "+44 7700 900297")
  const Phoenix := Entry("Phoenix", "Bond", "0161 496 0311")
  const Aaran := Entry("Aaran", "Parks", "")
  const Jayden := Entry("Jayden", "Riddle", "+44 131 496 0609")
  const Adriana := Entry("Adriana", "Paul", "(739) 391-4868")
  const Hamza := Entry("Hamza", "Bo", "+44 131 496 0571")

  /** The six sample people, in the order the tests add them. */
  function People(): seq<Entry>
  {
    [Sally, Phoenix, Aaran, Jayden, Adriana, Hamza]
  }

  lemma PeopleWellFormed()
    ensures WellFormed(People())
  {
  }

  /** `AddTestPeople`: each sample person added in turn to an empty book. */
  method AddTestPeople() returns (ab: AddressBook)
    ensures fresh(ab) && ab.Valid() && ab.entries == People()
  {
    ab := new AddressBook();
    var people := People();
    PeopleWellFormed();
    var i := 0;
    while i < |people|
      invariant 0 <= i <= |people|
      invariant fresh(ab) && ab.Valid() && ab.entries == people[..i]
    {
      assert people[i] !in people[..i];
      assert people[..i + 1] == people[..i] + [people[i]];
      var outcome := ab.Add(people[i]);
      i := i + 1;
    }
  }

  /** `find` over a single entry. */
  lemma MatchingSingle(x: Entry, query: string)
    ensures Matches(x, query) ==> Matching([x], query) == [x]
    ensures !Matches(x, query) ==> Matching([x], query) == []
  {
    MatchingAppend([], x, query);
    assert [] + [x] == [x];
  }

  lemma MatchingOneMore(s: seq<Entry>, x: Entry, query: string)
    ensures Matching(s + [x], query) == Matching(s, query) + Matching([x], query)
  {
    MatchingAppend(s, x, query);
    MatchingAppend([], x, query);
    assert [] + [x] == [x];
  }

  /** `find` over the sample people is what it keeps of each of them, in
      order. */
  lemma MatchingPeople(query: string, k0: seq<Entry>, k1: seq<Entry>, k2: seq<Entry>,
                       k3: seq<Entry>, k4: seq<Entry>, k5: seq<Entry>)
    requires Matching([Sally], query) == k0 && Matching([Phoenix], query) == k1
    requires Matching([Aaran], query) == k2 && Matching([Jayden], query) == k3
    requires Matching([Adriana], query) == k4 && Matching([Hamza], query) == k5
    ensures Matching(People(), query) == k0 + k1 + k2 + k3 + k4 + k5
  {
    MatchingSix(Sally, Phoenix, Aaran, Jayden, Adriana, Hamza, query);
  }

  lemma MatchingSix(p0: Entry, p1: Entry, p2: Entry, p3: Entry, p4: Entry, p5: Entry, query: string)
    ensures Matching([p0, p1, p2, p3, p4, p5], query) ==
              Matching([p0], query) + Matching([p1], query) + Matching([p2], query)
              + Matching([p3], query) + Matching([p4], query) + Matching([p5], query)
  {
    MatchingOneMore([p0], p1, query);
    MatchingOneMore([p0, p1], p2, query);
    MatchingOneMore([p0, p1, p2], p3, query);
    MatchingOneMore([p0, p1, p2, p3], p4, query);
    MatchingOneMore([p0, p1, p2, p3, p4], p5, query);
    assert [p0] + [p1] == [p0, p1];
    assert [p0, p1] + [p2] == [p0, p1, p2];
    assert [p0, p1, p2] + [p3] == [p0, p1, p2, p3];
    assert [p0, p1, p2, p3] + [p4] == [p0, p1, p2, p3, p4];
    assert [p0, p1, p2, p3, p4] + [p5] == [p0, p1, p2, p3, p4, p5];
  }

  /** Which sample people "gRahAm" matches. */
  lemma WhoMatchesGrahamEarly()
    ensures Matches(Sally, "gRahAm") && !Matches(Phoenix, "gRahAm") && !Matches(Aaran, "gRahAm")
  {
    CaseVariantPrefixMatches(Sally, "Graham", "gRahAm");
    MismatchesAt(Phoenix, "gRahAm", 0, 0);
    MismatchesAt(Aaran, "gRahAm", 0, 0);
  }

  lemma WhoMatchesGrahamLate()
    ensures !Matches(Jayden, "gRahAm") && !Matches(Adriana, "gRahAm") && !Matches(Hamza, "gRahAm")
  {
    MismatchesAt(Jayden, "gRahAm", 0, 0);
    MismatchesAt(Adriana, "gRahAm", 0, 0);
    MismatchesAt(Hamza, "gRahAm", 0, 0);
  }

  /** The query matches a last name whatever its case. */
  lemma FindGraham()
    ensures Matching(People(), "gRahAm") == [Sally]
  {
    WhoMatchesGrahamEarly();
    WhoMatchesGrahamLate();
    MatchingSingle(Sally, "gRahAm");
    MatchingSingle(Phoenix, "gRahAm");
    MatchingSingle(Aaran, "gRahAm");
    MatchingSingle(Jayden, "gRahAm");
    MatchingSingle(Adriana, "gRahAm");
    MatchingSingle(Hamza, "gRahAm");
    MatchingPeople("gRahAm", [Sally], [], [], [], [], []);
  }

  /** Which sample people "a" matches. */
  lemma WhoMatchesAEarly()
    ensures !Matches(Sally, "a") && !Matches(Phoenix, "a") && Matches(Aaran, "a")
  {
    MismatchesAt(Sally, "a", 0, 0);
    MismatchesAt(Phoenix, "a", 0, 0);
    CaseVariantPrefixMatches(Aaran, "A", "a");
  }

  lemma WhoMatchesALate()
    ensures !Matches(Jayden, "a") && Matches(Adriana, "a") && !Matches(Hamza, "a")
  {
    MismatchesAt(Jayden, "a", 0, 0);
    CaseVariantPrefixMatches(Adriana, "A", "a");
    MismatchesAt(Hamza, "a", 0, 0);
  }

  /** The per-entry results of a search over six entries that keeps only
      the third and the fifth, put together. */
  lemma JoinTwo(x: Entry, y: Entry)
    ensures [] + [] + [x] + [] + [y] + [] == [x, y]
  {
  }

  /** Every entry with a name starting with "a" or "A", in stored order. */
  lemma FindA()
    ensures Matching(People(), "a") == [Aaran, Adriana]
  {
    WhoMatchesAEarly();
    WhoMatchesALate();
    MatchingSingle(Sally, "a");
    MatchingSingle(Phoenix, "a");
    MatchingSingle(Aaran, "a");
    MatchingSingle(Jayden, "a");
    MatchingSingle(Adriana, "a");
    MatchingSingle(Hamza, "a");
    MatchingPeople("a", [], [], [Aaran], [], [Adriana], []);
    JoinTwo(Aaran, Adriana);
  }

  /** Which sample people "x" matches. */
  lemma WhoMatchesXEarly()
    ensures !Matches(Sally, "x") && !Matches(Phoenix, "x") && !Matches(Aaran, "x")
  {
    MismatchesAt(Sally, "x", 0, 0);
    MismatchesAt(Phoenix, "x", 0, 0);
    MismatchesAt(Aaran, "x", 0, 0);
  }

  lemma WhoMatchesXLate()
    ensures !Matches(Jayden, "x") && !Matches(Adriana, "x") && !Matches(Hamza, "x")
  {
    MismatchesAt(Jayden, "x", 0, 0);
    MismatchesAt(Adriana, "x", 0, 0);
    MismatchesAt(Hamza, "x", 0, 0);
  }

  /** No name starts with "x". */
  lemma FindX()
    ensures Matching(People(), "x") == []
  {
    WhoMatchesXEarly();
    WhoMatchesXLate();
    MatchingSingle(Sally, "x");
    MatchingSingle(Phoenix, "x");
    MatchingSingle(Aaran, "x");
    MatchingSingle(Jayden, "x");
    MatchingSingle(Adriana, "x");
    MatchingSingle(Hamza, "x");
    MatchingPeople("x", [], [], [], [], [], []);
  }

  /** Which sample people "ra" matches. */
  lemma WhoMatchesRaEarly()
    ensures !Matches(Sally, "ra") && !Matches(Phoenix, "ra") && !Matches(Aaran, "ra")
  {
    MismatchesAt(Sally, "ra", 0, 0);
    MismatchesAt(Phoenix, "ra", 0, 0);
    MismatchesAt(Aaran, "ra", 0, 0);
  }

  lemma WhoMatchesRaLate()
    ensures !Matches(Jayden, "ra") && !Matches(Adriana, "ra") && !Matches(Hamza, "ra")
  {
    MismatchesAt(Jayden, "ra", 0, 1);
    MismatchesAt(Adriana, "ra", 0, 0);
    MismatchesAt(Hamza, "ra", 0, 0);
  }

  /** Matching is from the start of a name: "ra" is inside "Aaran" and
      "Graham" but starts no one's first or last name. */
  lemma FindRa()
    ensures Matching(People(), "ra") == []
  {
    WhoMatchesRaEarly();
    WhoMatchesRaLate();
    MatchingSingle(Sally, "ra");
    MatchingSingle(Phoenix, "ra");
    MatchingSingle(Aaran, "ra");
    MatchingSingle(Jayden, "ra");
    MatchingSingle(Adriana, "ra");
    MatchingSingle(Hamza, "ra");
    MatchingPeople("ra", [], [], [], [], [], []);
  }

  /** The sample people in first-name order: a sorted reordering of them
      in which no two first names agree. */
  function ByFirstName(): seq<Entry>
  {
    [Aaran, Adriana, Hamza, Jayden, Phoenix, Sally]
  }

  /** And in last-name order. */
  function ByLastName(): seq<Entry>
  {
    [Hamza, Phoenix, Sally, Aaran, Adriana, Jayden]
  }

  lemma FirstNamesPermute()
    ensures multiset(ByFirstName()) == multiset(People())
  {
  }

  lemma FirstNamesNeighbours()
    ensures forall i :: 0 <= i < |ByFirstName()| - 1 ==>
              AtMost(FirstName, ByFirstName()[i], ByFirstName()[i + 1])
  {
  }

  lemma FirstNamesSorted()
    ensures SortedBy(ByFirstName(), FirstName)
  {
    FirstNamesNeighbours();
    SortedFromAdjacent(ByFirstName(), FirstName);
  }

  lemma FirstNamesDiffer()
    ensures forall i, j :: 0 <= i < j < |ByFirstName()| ==>
              Name(ByFirstName()[i], FirstName) != Name(ByFirstName()[j], FirstName)
  {
  }

  lemma LastNamesPermute()
    ensures multiset(ByLastName()) == multiset(People())
  {
  }

  lemma LastNamesNeighbours()
    ensures forall i :: 0 <= i < |ByLastName()| - 1 ==>
              AtMost(LastName, ByLastName()[i], ByLastName()[i + 1])
  {
  }

  lemma LastNamesSorted()
    ensures SortedBy(ByLastName(), LastName)
  {
    LastNamesNeighbours();
    SortedFromAdjacent(ByLastName(), LastName);
  }

  lemma LastNamesDiffer()
    ensures forall i, j :: 0 <= i < j < |ByLastName()| ==>
              Name(ByLastName()[i], LastName) != Name(ByLastName()[j], LastName)
  {
  }

  /** AddInvalidPerson: an entry without names is refused. */
  method AddInvalidPerson() returns (outcome: Outcome)
    ensures outcome == Failed(MissingName)
  {
    var ab := new AddressBook();
    outcome := ab.Add(Entry("", "", ""));
  }

  /** AddPerson and AddDuplicatePerson: one entry is stored, and adding it
      again is refused. */
  method AddDuplicatePerson() returns (first: Outcome, sorted: seq<Entry>, second: Outcome)
    ensures first == Done && sorted == [Sally] && second == Failed(AlreadyExists)
  {
    var ab := new AddressBook();
    first := ab.Add(Sally);
    sorted := ab.SortedByFirstName();
    assert multiset(sorted) == multiset{Sally};
    assert |sorted| == 1 && sorted[0] in multiset(sorted);
    second := ab.Add(Sally);
  }

  /** FindPerson: case-insensitive prefix search, in insertion order. */
  method FindPerson() returns (graham: seq<Entry>, a: seq<Entry>, x: seq<Entry>, ra: seq<Entry>)
    ensures graham == [Sally]
    ensures a == [Aaran, Adriana]
    ensures x == [] && ra == []
  {
    var ab := AddTestPeople();
    graham := ab.Find("gRahAm");
    FindGraham();
    a := ab.Find("a");
    FindA();
    x := ab.Find("x");
    FindX();
    ra := ab.Find("ra");
    FindRa();
  }

  /** FindEmptyString: the empty query finds every entry. */
  method FindEmptyString() returns (results: seq<Entry>)
    ensures results == People()
  {
    var ab := AddTestPeople();
    results := ab.Find("");
    MatchingEmptyQuery(People());
  }

  /** SortedByFirstNames: the sample people have distinct first names, so
      their sorted order is fully determined. */
  method SortedByFirstNames() returns (results: seq<Entry>)
    ensures results == ByFirstName()
  {
    var ab := AddTestPeople();
    results := ab.SortedByFirstName();
    FirstNamesPermute();
    FirstNamesSorted();
    FirstNamesDiffer();
    DistinctNamesDetermineSorted(ByFirstName(), results, FirstName);
  }

  /** SortedByLastNames: likewise by last name. */
  method SortedByLastNames() returns (results: seq<Entry>)
    ensures results == ByLastName()
  {
    var ab := AddTestPeople();
    results := ab.SortedByLastName();
    LastNamesPermute();
    LastNamesSorted();
    LastNamesDiffer();
    DistinctNamesDetermineSorted(ByLastName(), results, LastName);
  }

  /** CopyConstructor: a copy sorts to the same entries as the original. */
  method CopyConstructor() returns (results: seq<Entry>, resultsCopy: seq<Entry>)
    ensures results == resultsCopy
  {
    var ab := AddTestPeople();
    var abCopy := new AddressBook.Copy(ab);
    results := ab.SortedByFirstName();
    resultsCopy := abCopy.SortedByFirstName();
    FirstNamesPermute();
    FirstNamesSorted();
    FirstNamesDiffer();
    DistinctNamesDetermineSorted(ByFirstName(), results, FirstName);
    DistinctNamesDetermineSorted(ByFirstName(), resultsCopy, FirstName);
  }

  const NonExistant := Entry("Non", "Existant", "000000000")

  /** DeleteNonExistantEntry: removing an entry the book lacks fails. */
  method DeleteNonExistantEntry() returns (outcome: Outcome)
    ensures outcome == Failed(NotFound)
  {
    var ab := AddTestPeople();
    outcome := ab.Remove(NonExistant);
  }

  /** Which sample people "Jayden" matches. */
  lemma WhoMatchesJaydenEarly()
    ensures !Matches(Sally, "Jayden") && !Matches(Phoenix, "Jayden") && !Matches(Aaran, "Jayden")
  {
    MismatchesAt(Sally, "Jayden", 0, 0);
    MismatchesAt(Phoenix, "Jayden", 0, 0);
    MismatchesAt(Aaran, "Jayden", 0, 0);
  }

  lemma WhoMatchesJaydenLate()
    ensures Matches(Jayden, "Jayden") && !Matches(Adriana, "Jayden") && !Matches(Hamza, "Jayden")
  {
    CaseVariantPrefixMatches(Jayden, "Jayden", "Jayden");
    MismatchesAt(Adriana, "Jayden", 0, 0);
    MismatchesAt(Hamza, "Jayden", 0, 0);
  }

  lemma FindJayden()
    ensures Matching(People(), "Jayden") == [Jayden]
  {
    WhoMatchesJaydenEarly();
    WhoMatchesJaydenLate();
    MatchingSingle(Sally, "Jayden");
    MatchingSingle(Phoenix, "Jayden");
    MatchingSingle(Aaran, "Jayden");
    MatchingSingle(Jayden, "Jayden");
    MatchingSingle(Adriana, "Jayden");
    MatchingSingle(Hamza, "Jayden");
    MatchingPeople("Jayden", [], [], [], [Jayden], [], []);
  }

  /** DeleteEntry: the one entry found for "Jayden" is removed, and then
      nothing is found. */
  method DeleteEntry() returns (before: seq<Entry>, outcome: Outcome, after: seq<Entry>)
    ensures before == [Jayden] && outcome == Done && after == []
  {
    var ab := AddTestPeople();
    before := ab.Find("Jayden");
    FindJayden();
    outcome := ab.Remove(before[0]);
    after := ab.Find("Jayden");
    SubtractMembers(People(), [Jayden]);
    WhoMatchesJaydenEarly();
    WhoMatchesJaydenLate();
    MatchingNone(ab.entries, "Jayden");
  }

  /** The sample people without Jayden, in first-name order. */
  function ByFirstNameWithoutJayden(): seq<Entry>
  {
    [Aaran, Adriana, Hamza, Phoenix, Sally]
  }

  lemma WithoutJaydenPermute()
    ensures multiset(ByFirstNameWithoutJayden()) == multiset(People()) - multiset{Jayden}
  {
  }

  lemma WithoutJaydenNeighbours()
    ensures forall i :: 0 <= i < |ByFirstNameWithoutJayden()| - 1 ==>
              AtMost(FirstName, ByFirstNameWithoutJayden()[i], ByFirstNameWithoutJayden()[i + 1])
  {
  }

  lemma WithoutJaydenSorted()
    ensures SortedBy(ByFirstNameWithoutJayden(), FirstName)
  {
    WithoutJaydenNeighbours();
    SortedFromAdjacent(ByFirstNameWithoutJayden(), FirstName);
  }

  lemma WithoutJaydenDiffer()
    ensures forall i, j :: 0 <= i < j < |ByFirstNameWithoutJayden()| ==>
              Name(ByFirstNameWithoutJayden()[i], FirstName) != Name(ByFirstNameWithoutJayden()[j], FirstName)
  {
  }

  /** Any arrangement of the sample people without Jayden. */
  predicate WithoutJayden(s: seq<Entry>)
  {
    multiset(s) == multiset(People()) - multiset{Jayden}
  }

  lemma NoJaydenLeft(s: seq<Entry>)
    requires WithoutJayden(s)
    ensures Matching(s, "Jayden") == []
  {
    WhoMatchesJaydenEarly();
    WhoMatchesJaydenLate();
    forall x | x in s
      ensures !Matches(x, "Jayden")
    {
      assert x in multiset(s);
    }
    MatchingNone(s, "Jayden");
  }

  lemma SortedWithoutJayden(s: seq<Entry>)
    requires WithoutJayden(s) && SortedBy(s, FirstName)
    ensures s == ByFirstNameWithoutJayden()
  {
    WithoutJaydenPermute();
    WithoutJaydenSorted();
    WithoutJaydenDiffer();
    DistinctNamesDetermineSorted(ByFirstNameWithoutJayden(), s, FirstName);
  }

  /** DeleteEntryAndSort: after removing Jayden and sorting, Jayden is not
      found and the others come out in first-name order. */
  method DeleteEntryAndSort() returns (after: seq<Entry>, results: seq<Entry>)
    ensures after == [] && results == ByFirstNameWithoutJayden()
  {
    var ab := AddTestPeople();
    var found := ab.Find("Jayden");
    FindJayden();
    var outcome := ab.Remove(found[0]);
    PeopleWellFormed();
    RemoveOneCopy(People(), Jayden);
    assert WithoutJayden(ab.entries);
    var ignored := ab.SortedByFirstName();
    after := ab.Find("Jayden");
    NoJaydenLeft(ab.entries);
    results := ab.SortedByFirstName();
    SortedWithoutJayden(results);
  }

  const Bandit := Entry("Bandit", "Heeler", "832843234")
  const Radley := Entry("Radley", "Heeler", "953597223")

  /** Two new named entries are both added, in order, by `+`. */
  lemma AdditionsOfTwoNew(s: seq<Entry>, x: Entry, y: Entry)
    requires HasName(x) && HasName(y) && x != y && x !in s && y !in s
    ensures Additions(s, [x, y]) == [x, y]
  {
    AdditionsAppend(s, [], x);
    AdditionsAppend(s, [x], y);
    assert [] + [x] == [x] && [x] + [y] == [x, y];
  }

  lemma HeelersAreAdditions()
    ensures Additions(People(), [Bandit, Radley]) == [Bandit, Radley]
  {
    assert Bandit !in People() && Radley !in People();
    AdditionsOfTwoNew(People(), Bandit, Radley);
  }

  lemma MatchingMerged(query: string)
    ensures Matching(People() + [Bandit, Radley], query) ==
              Matching(People(), query) + Matching([Bandit], query) + Matching([Radley], query)
  {
    MatchingOneMore(People(), Bandit, query);
    MatchingOneMore(People() + [Bandit], Radley, query);
    assert People() + [Bandit] + [Radley] == People() + [Bandit, Radley];
  }

  /** Which merged people "Bandit" and "Radley" match. */
  lemma WhoMatchesBanditEarly()
    ensures !Matches(Sally, "Bandit") && !Matches(Phoenix, "Bandit") && !Matches(Aaran, "Bandit")
  {
    MismatchesAt(Sally, "Bandit", 0, 0);
    MismatchesAt(Phoenix, "Bandit", 0, 1);
    MismatchesAt(Aaran, "Bandit", 0, 0);
  }

  lemma WhoMatchesBanditLate()
    ensures !Matches(Jayden, "Bandit") && !Matches(Adriana, "Bandit") && !Matches(Hamza, "Bandit")
  {
    MismatchesAt(Jayden, "Bandit", 0, 0);
    MismatchesAt(Adriana, "Bandit", 0, 0);
    MismatchesAt(Hamza, "Bandit", 0, 1);
  }

  lemma WhoMatchesBanditNew()
    ensures Matches(Bandit, "Bandit") && !Matches(Radley, "Bandit")
  {
    CaseVariantPrefixMatches(Bandit, "Bandit", "Bandit");
    MismatchesAt(Radley, "Bandit", 0, 0);
  }

  lemma FindBandit()
    ensures Matching(People() + [Bandit, Radley], "Bandit") == [Bandit]
  {
    WhoMatchesBanditEarly();
    WhoMatchesBanditLate();
    WhoMatchesBanditNew();
    MatchingSingle(Sally, "Bandit");
    MatchingSingle(Phoenix, "Bandit");
    MatchingSingle(Aaran, "Bandit");
    MatchingSingle(Jayden, "Bandit");
    MatchingSingle(Adriana, "Bandit");
    MatchingSingle(Hamza, "Bandit");
    MatchingSingle(Bandit, "Bandit");
    MatchingSingle(Radley, "Bandit");
    MatchingPeople("Bandit", [], [], [], [], [], []);
    MatchingMerged("Bandit");
  }

  lemma WhoMatchesRadleyEarly()
    ensures !Matches(Sally, "Radley") && !Matches(Phoenix, "Radley") && !Matches(Aaran, "Radley")
  {
    MismatchesAt(Sally, "Radley", 0, 0);
    MismatchesAt(Phoenix, "Radley", 0, 0);
    MismatchesAt(Aaran, "Radley", 0, 0);
  }

  lemma WhoMatchesRadleyLate()
    ensures !Matches(Jayden, "Radley") && !Matches(Adriana, "Radley") && !Matches(Hamza, "Radley")
  {
    MismatchesAt(Jayden, "Radley", 0, 1);
    MismatchesAt(Adriana, "Radley", 0, 0);
    MismatchesAt(Hamza, "Radley", 0, 0);
  }

  lemma WhoMatchesRadleyNew()
    ensures !Matches(Bandit, "Radley") && Matches(Radley, "Radley")
  {
    MismatchesAt(Bandit, "Radley", 0, 0);
    CaseVariantPrefixMatches(Radley, "Radley", "Radley");
  }

  lemma FindRadley()
    ensures Matching(People() + [Bandit, Radley], "Radley") == [Radley]
  {
    WhoMatchesRadleyEarly();
    WhoMatchesRadleyLate();
    WhoMatchesRadleyNew();
    MatchingSingle(Sally, "Radley");
    MatchingSingle(Phoenix, "Radley");
    MatchingSingle(Aaran, "Radley");
    MatchingSingle(Jayden, "Radley");
    MatchingSingle(Adriana, "Radley");
    MatchingSingle(Hamza, "Radley");
    MatchingSingle(Bandit, "Radley");
    MatchingSingle(Radley, "Radley");
    MatchingPeople("Radley", [], [], [], [], [], []);
    MatchingMerged("Radley");
  }

  /** PlusOperator: the merged book holds the sample people followed by the
      two new ones, and each new one is found by first name. */
  method PlusOperator() returns (merged: seq<Entry>, bandit: seq<Entry>, radley: seq<Entry>)
    ensures merged == People() + [Bandit, Radley]
    ensures bandit == [Bandit] && radley == [Radley]
  {
    var ab := AddTestPeople();
    var abNew := new AddressBook();
    var added := abNew.Add(Bandit);
    added := abNew.Add(Radley);
    assert abNew.entries == [Bandit, Radley];
    ab := ab.Plus(abNew);
    HeelersAreAdditions();
    merged := ab.entries;
    bandit := ab.Find("Bandit");
    FindBandit();
    radley := ab.Find("Radley");
    FindRadley();
  }

  /** What `-` leaves of the sample people. */
  function Remaining(): seq<Entry>
  {
    [Sally, Phoenix, Aaran, Hamza]
  }

  lemma SubtractOneMore(s: seq<Entry>, x: Entry, t: seq<Entry>)
    ensures Subtract(s + [x], t) == Subtract(s, t) + Subtract([x], t)
  {
    assert (s + [x])[..|s|] == s;
    assert [x][..0] == [];
  }

  lemma SubtractSix(p0: Entry, p1: Entry, p2: Entry, p3: Entry, p4: Entry, p5: Entry, t: seq<Entry>)
    ensures Subtract([p0, p1, p2, p3, p4, p5], t) ==
              Subtract([p0], t) + Subtract([p1], t) + Subtract([p2], t)
              + Subtract([p3], t) + Subtract([p4], t) + Subtract([p5], t)
  {
    SubtractOneMore([p0], p1, t);
    SubtractOneMore([p0, p1], p2, t);
    SubtractOneMore([p0, p1, p2], p3, t);
    SubtractOneMore([p0, p1, p2, p3], p4, t);
    SubtractOneMore([p0, p1, p2, p3, p4], p5, t);
    assert [p0] + [p1] == [p0, p1];
    assert [p0, p1] + [p2] == [p0, p1, p2];
    assert [p0, p1, p2] + [p3] == [p0, p1, p2, p3];
    assert [p0, p1, p2, p3] + [p4] == [p0, p1, p2, p3, p4];
    assert [p0, p1, p2, p3, p4] + [p5] == [p0, p1, p2, p3, p4, p5];
  }

  lemma SubtractSingle(x: Entry, t: seq<Entry>)
    ensures x in t ==> Subtract([x], t) == []
    ensures x !in t ==> Subtract([x], t) == [x]
  {
    assert [x][..0] == [];
  }

  lemma RemainingAfterMinus()
    ensures Subtract(People(), [Adriana, Jayden, NonExistant]) == Remaining()
  {
    var t := [Adriana, Jayden, NonExistant];
    assert Sally !in t && Phoenix !in t && Aaran !in t && Hamza !in t;
    assert Jayden in t && Adriana in t;
    SubtractSingle(Sally, t);
    SubtractSingle(Phoenix, t);
    SubtractSingle(Aaran, t);
    SubtractSingle(Jayden, t);
    SubtractSingle(Adriana, t);
    SubtractSingle(Hamza, t);
    SubtractSix(Sally, Phoenix, Aaran, Jayden, Adriana, Hamza, t);
    assert [Sally] + [Phoenix] + [Aaran] + [] + [] + [Hamza] == Remaining();
  }

  /** Which remaining people "Adriana" matches: none. */
  lemma WhoMatchesAdriana()
    ensures !Matches(Sally, "Adriana") && !Matches(Phoenix, "Adriana")
    ensures !Matches(Aaran, "Adriana") && !Matches(Hamza, "Adriana")
  {
    MismatchesAt(Sally, "Adriana", 0, 0);
    MismatchesAt(Phoenix, "Adriana", 0, 0);
    MismatchesAt(Aaran, "Adriana", 1, 0);
    MismatchesAt(Hamza, "Adriana", 0, 0);
  }

  lemma NoRemovedPersonLeft(s: seq<Entry>)
    requires multiset(s) == multiset(Remaining())
    ensures Matching(s, "Adriana") == [] && Matching(s, "Jayden") == []
  {
    WhoMatchesAdriana();
    WhoMatchesJaydenEarly();
    WhoMatchesJaydenLate();
    forall x | x in s
      ensures !Matches(x, "Adriana") && !Matches(x, "Jayden")
    {
      assert x in multiset(s);
    }
    MatchingNone(s, "Adriana");
    MatchingNone(s, "Jayden");
  }

  /** MinusOperator: `-` removes the two stored people of the right-hand book
      and ignores the one it lacks. */
  method MinusOperator() returns (remaining: seq<Entry>, sorted: seq<Entry>, adriana: seq<Entry>, jayden: seq<Entry>)
    ensures remaining == Remaining()
    ensures |sorted| == 4 && adriana == [] && jayden == []
  {
    var ab := AddTestPeople();
    var abNew := new AddressBook();
    var added := abNew.Add(Adriana);
    added := abNew.Add(Jayden);
    added := abNew.Add(NonExistant);
    assert abNew.entries == [Adriana, Jayden, NonExistant];
    ab := ab.Minus(abNew);
    RemainingAfterMinus();
    remaining := ab.entries;
    sorted := ab.SortedByFirstName();
    assert |multiset(sorted)| == |multiset(Remaining())|;
    adriana := ab.Find("Adriana");
    jayden := ab.Find("Jayden");
    NoRemovedPersonLeft(ab.entries);
  }
}
