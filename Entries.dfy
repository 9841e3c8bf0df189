/** One contact of the address book and the comparisons the book makes on
    single contacts: structural equality, the two sort comparators and the
    prefix match that `find` filters with. */
module Entries {
  import opened Strings

  /** `AddressBook::Entry`: three strings, any of which may be empty. */
  datatype Entry = Entry(firstName: string, lastName: string, phoneNumber: string)

  /** `Entry::operator==` and the free `operator==`: the three fields compared
      one by one, case-sensitively. */
  function Equal(a: Entry, b: Entry): (r: bool)
    ensures r <==> a == b
  {
    a.firstName == b.firstName && a.lastName == b.lastName && a.phoneNumber == b.phoneNumber
  }

  /** The free `operator!=`. */
  function NotEqual(a: Entry, b: Entry): (r: bool)
    ensures r <==> a != b
  {
    !Equal(a, b)
  }

  /** What `add` demands of an entry: a first name or a last name. */
  predicate HasName(e: Entry)
  {
    e.firstName != [] || e.lastName != []
  }

  /** Which name a sort orders by. */
  datatype SortKey = FirstName | LastName

  function Name(e: Entry, k: SortKey): string
  {
    match k
    case FirstName => e.firstName
    case LastName => e.lastName
  }

  /** The comparator lambdas handed to `std::sort`: `a.first_name <
      b.first_name`, or the same on the last names. */
  predicate Before(k: SortKey, a: Entry, b: Entry)
  {
    Less(Name(a, k), Name(b, k))
  }

  /** `Before` is a strict weak ordering, as `std::sort` demands of its
      comparator: irreflexive, transitive, and entries that are not ordered
      either way share the sort name. */
  lemma BeforeIrreflexive(k: SortKey, a: Entry)
    ensures !Before(k, a, a)
  {
    LessIrreflexive(Name(a, k));
  }

  lemma BeforeTransitive(k: SortKey, a: Entry, b: Entry, c: Entry)
    requires Before(k, a, b) && Before(k, b, c)
    ensures Before(k, a, c)
  {
    LessTransitive(Name(a, k), Name(b, k), Name(c, k));
  }

  lemma BeforeIncomparableSameName(k: SortKey, a: Entry, b: Entry)
    requires !Before(k, a, b) && !Before(k, b, a)
    ensures Name(a, k) == Name(b, k)
  {
    if Name(a, k) != Name(b, k) {
      LessTotal(Name(a, k), Name(b, k));
    }
  }

  /** Neither entry comes after the other: `!(b < a)` on names, the order of
      a sorted range. */
  predicate AtMost(k: SortKey, a: Entry, b: Entry)
  {
    !Before(k, b, a)
  }

  lemma AtMostTransitive(k: SortKey, a: Entry, b: Entry, c: Entry)
    requires AtMost(k, a, b) && AtMost(k, b, c)
    ensures AtMost(k, a, c)
  {
    if Before(k, c, a) && Name(a, k) != Name(b, k) {
      LessTotal(Name(a, k), Name(b, k));
      BeforeTransitive(k, c, a, b);
    }
  }

  /** The `is_prefix_match` lambda of `find`: the lower-cased first name or
      the lower-cased last name has the lower-cased query at position 0. */
  predicate Matches(e: Entry, query: string)
  {
    Find(ToLower(e.firstName), ToLower(query)) == Some(0)
    || Find(ToLower(e.lastName), ToLower(query)) == Some(0)
  }

  /** `Matches` is a case-insensitive "starts with" test on either name. */
  lemma MatchesIffPrefix(e: Entry, query: string)
    ensures Matches(e, query) <==>
              ToLower(query) <= ToLower(e.firstName) || ToLower(query) <= ToLower(e.lastName)
  {
    FindAtStartIffPrefix(ToLower(e.firstName), ToLower(query));
    FindAtStartIffPrefix(ToLower(e.lastName), ToLower(query));
  }

  /** A name shorter than the query never matches it. */
  lemma ShortNamesDoNotMatch(e: Entry, query: string)
    requires |e.firstName| < |query| && |e.lastName| < |query|
    ensures !Matches(e, query)
  {
    MatchesIffPrefix(e, query);
  }

  /** An entry does not match when the query, lower-cased, departs from
      the first name at position `i` and from the last name at `j`. */
  lemma MismatchesAt(e: Entry, query: string, i: nat, j: nat)
    requires i < |query| && (i >= |e.firstName| || LowerChar(query[i]) != LowerChar(e.firstName[i]))
    requires j < |query| && (j >= |e.lastName| || LowerChar(query[j]) != LowerChar(e.lastName[j]))
    ensures !Matches(e, query)
  {
    MatchesIffPrefix(e, query);
    LowerMismatch(query, e.firstName, i);
    LowerMismatch(query, e.lastName, j);
  }

  /** The empty query matches every entry. */
  lemma EmptyQueryMatches(e: Entry)
    ensures Matches(e, "")
  {
    MatchesIffPrefix(e, "");
  }

  /** A query that spells a prefix of either name in any mix of cases
      matches the entry. */
  lemma CaseVariantPrefixMatches(e: Entry, prefix: string, query: string)
    requires prefix <= e.firstName || prefix <= e.lastName
    requires ToLower(query) == ToLower(prefix)
    ensures Matches(e, query)
  {
    MatchesIffPrefix(e, query);
    if prefix <= e.firstName {
      ToLowerPrefix(prefix, e.firstName);
    } else {
      ToLowerPrefix(prefix, e.lastName);
    }
  }

  /** Queries that lower-case alike match the same entries; in particular a
      query and its lower-cased form do. */
  lemma MatchesIgnoresQueryCase(e: Entry, q1: string, q2: string)
    requires ToLower(q1) == ToLower(q2)
    ensures Matches(e, q1) == Matches(e, q2)
  {
  }

  lemma MatchesLoweredQuery(e: Entry, query: string)
    ensures Matches(e, ToLower(query)) == Matches(e, query)
  {
    ToLowerIdempotent(query);
  }
}
