/** `AddressBook`: a contact list kept in one vector, `entries`. Each
    operation that the C++ class reports failure from by throwing
    `std::invalid_argument` returns an `Outcome` here instead. */
module Book {
  import opened Strings
  import opened Entries
  import opened Sequences
  import opened Sorting

  /** The three reasons `add` and `remove` throw. */
  datatype Error =
    | MissingName    // "Entry does not have a first and last name"
    | AlreadyExists  // "Entry already exists"
    | NotFound       // "Entry does not exist"

  datatype Outcome = Done | Failed(error: Error)

  class AddressBook {
    var entries: seq<Entry>

    /** The class invariant every public operation keeps: no entry without
        both names, no entry twice. */
    predicate Valid()
      reads this
    {
      WellFormed(entries)
    }

    /** `AddressBook ab;`: an empty book. */
    constructor ()
      ensures Valid() && entries == []
    {
      entries := [];
    }

    /** The implicit copy constructor `AddressBook(other)`. */
    constructor Copy(other: AddressBook)
      requires other.Valid()
      ensures Valid() && entries == other.entries
    {
      entries := other.entries;
    }

    /** Copy assignment: `entries = ab.entries`. */
    method Assign(ab: AddressBook)
      requires ab.Valid()
      modifies this
      ensures Valid() && entries == old(ab.entries)
    {
      entries := ab.entries;
    }

    /** Move assignment: this book takes over the moved-from vector, which the
        C++ library leaves valid but unspecified; the model empties it. */
    method MoveAssign(ab: AddressBook)
      requires ab.Valid()
      modifies this, ab
      ensures Valid() && ab.Valid()
      ensures entries == old(ab.entries)
    {
      var moved := ab.entries;
      ab.entries := [];
      entries := moved;
    }

    /** `add`: an entry with neither name, or one equal to a stored entry,
        is refused and nothing changes; any other entry goes at the end. */
    method Add(person: Entry) returns (outcome: Outcome)
      requires Valid()
      modifies this
      ensures Valid()
      ensures !HasName(person) ==> outcome == Failed(MissingName) && entries == old(entries)
      ensures HasName(person) && person in old(entries) ==>
                outcome == Failed(AlreadyExists) && entries == old(entries)
      ensures HasName(person) && person !in old(entries) ==>
                outcome == Done && entries == old(entries) + [person]
    {
      if person.firstName == [] && person.lastName == [] {
        return Failed(MissingName);
      }
      if IndexOf(entries, person) != |entries| {
        return Failed(AlreadyExists);
      }
      DistinctAppend(entries, person);
      entries := entries + [person];
      outcome := Done;
    }

    /** `remove`: erases the stored entry equal to `person`, keeping the
        others in their order, or fails and changes nothing when there is
        none. */
    method Remove(person: Entry) returns (outcome: Outcome)
      requires Valid()
      modifies this
      ensures Valid()
      ensures person !in entries
      ensures person !in old(entries) ==> outcome == Failed(NotFound) && entries == old(entries)
      ensures person in old(entries) ==>
                outcome == Done
                && |entries| == |old(entries)| - 1
                && entries == Subtract(old(entries), [person])
                && exists i :: 0 <= i <= |entries| && old(entries) == entries[..i] + [person] + entries[i..]
    {
      var i := IndexOf(entries, person);
      if i != |entries| {
        EraseFound(entries, i, person);
        EraseReinsert(entries, i);
        entries := entries[..i] + entries[i + 1..];
        outcome := Done;
      } else {
        outcome := Failed(NotFound);
      }
    }

    /** `std::sort` of `entries` with a comparator on one of the names; the
        sorted vector is also returned. */
    method SortBy(k: SortKey) returns (sorted: seq<Entry>)
      requires Valid()
      modifies this
      ensures Valid()
      ensures multiset(entries) == multiset(old(entries))
      ensures SortedBy(entries, k)
      ensures sorted == entries
    {
      var stored := entries;
      var a := new Entry[|stored|](p requires 0 <= p < |stored| => stored[p]);
      assert a[..] == stored;
      Sort(a, k);
      PermutationWellFormed(stored, a[..]);
      entries := a[..];
      sorted := entries;
    }

    /** `sortedByFirstName`: sorts the stored entries by first name in place
        and returns a copy of them. */
    method SortedByFirstName() returns (sorted: seq<Entry>)
      requires Valid()
      modifies this
      ensures Valid()
      ensures multiset(entries) == multiset(old(entries))
      ensures SortedBy(entries, FirstName)
      ensures sorted == entries
    {
      sorted := SortBy(FirstName);
    }

    /** `sortedByLastName`: the same, by last name. */
    method SortedByLastName() returns (sorted: seq<Entry>)
      requires Valid()
      modifies this
      ensures Valid()
      ensures multiset(entries) == multiset(old(entries))
      ensures SortedBy(entries, LastName)
      ensures sorted == entries
    {
      sorted := SortBy(LastName);
    }

    /** `find`: the stored entries, in stored order, whose first or last name
        starts with `prefix` when both are lower-cased. */
    method Find(prefix: string) returns (results: seq<Entry>)
      ensures results == Matching(entries, prefix)
      ensures forall e :: e in results <==> e in entries && Matches(e, prefix)
      ensures IsSubsequence(results, entries)
    {
      results := [];
      var i := 0;
      while i < |entries|
        invariant 0 <= i <= |entries|
        invariant results == Matching(entries[..i], prefix)
      {
        assert entries[..i + 1][..i] == entries[..i];
        if Matches(entries[i], prefix) {
          results := results + [entries[i]];
        }
        i := i + 1;
      }
      assert entries[..i] == entries;
      MatchingMembers(entries, prefix);
      MatchingIsSubsequence(entries, prefix);
    }

    /** Member `operator+`: a copy of this book into which every entry of
        `rhs` is added in turn, refused entries being skipped. Neither book
        changes. */
    method Plus(rhs: AddressBook) returns (ab: AddressBook)
      requires Valid() && rhs.Valid()
      ensures fresh(ab) && ab.Valid()
      ensures ab.entries == entries + Additions(entries, rhs.entries)
    {
      ab := new AddressBook.Copy(this);
      var i := 0;
      while i < |rhs.entries|
        invariant 0 <= i <= |rhs.entries|
        invariant fresh(ab) && ab.Valid()
        invariant ab.entries == entries + Additions(entries, rhs.entries[..i])
      {
        var entry := rhs.entries[i];
        ghost var done := rhs.entries[..i];
        assert rhs.entries[..i + 1] == done + [entry];
        assert entry !in done;
        AdditionsAppend(entries, done, entry);
        var ignored := ab.Add(entry);  // invalid and duplicate entries are skipped
        i := i + 1;
      }
      assert rhs.entries[..i] == rhs.entries;
    }

    /** Member `operator-`: a copy of this book from which every entry of
        `rhs` is removed in turn, absent entries being ignored. Neither book
        changes. */
    method Minus(rhs: AddressBook) returns (ab: AddressBook)
      requires Valid() && rhs.Valid()
      ensures fresh(ab) && ab.Valid()
      ensures ab.entries == Subtract(entries, rhs.entries)
    {
      ab := new AddressBook.Copy(this);
      var i := 0;
      SubtractNothing(entries);
      while i < |rhs.entries|
        invariant 0 <= i <= |rhs.entries|
        invariant fresh(ab) && ab.Valid()
        invariant ab.entries == Subtract(entries, rhs.entries[..i])
      {
        var entry := rhs.entries[i];
        assert rhs.entries[..i + 1] == rhs.entries[..i] + [entry];
        SubtractAppend(entries, rhs.entries[..i], entry);
        if entry !in ab.entries {
          SubtractAbsent(ab.entries, entry);
        }
        var ignored := ab.Remove(entry);  // entries this book lacks are ignored
        i := i + 1;
      }
      assert rhs.entries[..i] == rhs.entries;
    }
  }
}
