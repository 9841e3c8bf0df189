# Address book

A model of `AddressBook`, a small C++ contact list. The book keeps its
contacts in one vector, `entries`. Each contact (`Entry`) has a first name,
a last name and a phone number. The book can:

- add an entry, refusing one with neither name or one already stored;
- remove an entry, refusing one it does not hold;
- sort its entries in place by first or by last name, returning a copy;
- find the entries whose first or last name starts with a query, ignoring case;
- merge in another book (`+`) or take another book's entries away (`-`).

The Dafny project mirrors that structure:

- `Strings.dfy`: the string library the book relies on. It covers `::tolower`
  on ASCII letters, `std::string::find` and the lexicographic `<` of
  `std::string`, with its order properties.
- `Entries.dfy`: the `Entry` datatype, its equality, the two sort
  comparators and the prefix match used by `find`.
- `Sequences.dfy`: functions over `seq<Entry>` that say what each
  operation computes: the book invariant `WellFormed`, `SortedBy`,
  `Matching`, `Subtract` and `Additions`. The lemmas about them are here too.
- `Sorting.dfy`: `std::sort` as an in-place sort of an array. A selection
  sort stands in for the library algorithm. Its contract gives only what
  `std::sort` promises: a permutation, in comparator order.
- `Book.dfy`: `class AddressBook` with the field `entries: seq<Entry>`.
  Every method keeps `Valid()`: no entry lacks both names and no entry is
  stored twice. The class throws `std::invalid_argument` where the model
  returns `Failed(MissingName)`, `Failed(AlreadyExists)` or
  `Failed(NotFound)`.
- `Scenarios.dfy`: the repository's unit tests, written as client methods.
  Each one's `ensures` is what the test checks, derived only from the
  operations' contracts.

Copy construction and both assignments copy `entries`, so books are values:
`Plus`, `Minus` and `Find` have no `modifies` clause and change neither
book.

## Model

| member | source | states |
|---|---|---|
| Entries.Equal | src/address_book.cpp:11-20 | member and free `operator==` hold exactly when the two entries are equal in all three fields |
| Entries.NotEqual | src/address_book.cpp:23-26 | `operator!=` holds exactly when the entries differ |
| Entries.BeforeIrreflexive | src/address_book.cpp:121-123 | no entry sorts before itself under a name comparator |
| Entries.BeforeTransitive | src/address_book.cpp:121-123 | the comparator is transitive |
| Entries.BeforeIncomparableSameName | src/address_book.cpp:121-123 | entries unordered either way share the sort name, so the comparator is a strict weak order |
| Entries.AtMostTransitive | src/address_book.cpp:121-123 | "not after" is transitive, the order of a sorted range |
| Entries.MatchesIffPrefix | src/address_book.cpp:148-159 | the match predicate holds exactly when the lower-cased query is a prefix of the lower-cased first or last name |
| Entries.ShortNamesDoNotMatch | src/address_book.cpp:158 | a query longer than both names never matches |
| Entries.MismatchesAt | src/address_book.cpp:151-158 | one differing lower-cased character in each name refutes the match |
| Entries.EmptyQueryMatches | src/address_book.cpp:158 | the empty query matches every entry |
| Entries.CaseVariantPrefixMatches | src/address_book.cpp:144-158 | a query that spells a name prefix in any case matches |
| Entries.MatchesIgnoresQueryCase | src/address_book.cpp:144-145 | queries that lower-case alike match the same entries |
| Entries.MatchesLoweredQuery | src/address_book.cpp:144-145 | lower-casing the query first changes no match |
| Strings.LowerChar | src/address_book.cpp:145 | the result of `::tolower` is never an upper-case letter |
| Strings.LowerCharTable | src/address_book.cpp:145 | `::tolower` maps each of 'A'..'Z' to the letter at the same position of 'a'..'z' |
| Strings.LowerCharOthers | src/address_book.cpp:145 | `::tolower` returns every character outside 'A'..'Z' unchanged |
| Strings.ToLowerIdempotent | src/address_book.cpp:152-155 | lower-casing twice is lower-casing once |
| Strings.ToLowerPrefix | src/address_book.cpp:152-158 | lower-casing preserves the prefix relation |
| Strings.LowerMismatch | src/address_book.cpp:158 | a position past the name or a differing lower-cased character refutes a prefix |
| Strings.FindFrom | src/address_book.cpp:158 | `find` reports the first position at or after the start where the needle occurs, or none at all |
| Strings.FindAtStartIffPrefix | src/address_book.cpp:158 | `find(needle) == 0` holds exactly when the needle is a prefix |
| Strings.LessIsLexicographic | src/address_book.cpp:122 | `std::string` `<` agrees with the textbook lexicographic order, in both directions |
| Strings.LessIrreflexive | src/address_book.cpp:122 | no string is less than itself |
| Strings.LessTransitive | src/address_book.cpp:122 | `<` on strings is transitive |
| Strings.LessTotal | src/address_book.cpp:122 | any two different strings are ordered one way or the other |
| Sequences.IndexOf | src/address_book.cpp:97 | `std::find` returns the first position holding the entry, or the end |
| Sequences.IndexOfFound | src/address_book.cpp:97 | `std::find` stops before the end exactly when the entry is stored |
| Sequences.DistinctAppend | src/address_book.cpp:97-100 | appending keeps the entries distinct exactly when the new entry is absent |
| Sequences.DistinctIffAtMostOnce | src/address_book.cpp:121 | distinct entries means every entry occurs at most once |
| Sequences.PermutationWellFormed | src/address_book.cpp:121 | reordering the entries keeps the book invariant |
| Sequences.SortedFromAdjacent | src/address_book.cpp:121-123 | neighbours in comparator order make the whole range sorted |
| Sequences.EraseSorted | src/address_book.cpp:111 | erasing one entry of a sorted vector leaves it sorted |
| Sequences.EraseMultiset | src/address_book.cpp:111 | erasing a position removes one copy of its entry |
| Sequences.SortedNamesDetermined | src/address_book.cpp:121-123 | two sorted orders of the same entries agree name by name, whatever the tie order |
| Sequences.SortedNamesAgree | src/address_book.cpp:121-123 | the same, position by position, with equal lengths |
| Sequences.DistinctNamesDetermineSorted | src/address_book.cpp:121-133 | with distinct sort names the sorted order is unique |
| Sequences.SubsequenceMembers | src/address_book.cpp:162 | a subsequence only holds entries of its sequence |
| Sequences.SubsequenceSorted | src/address_book.cpp:162 | a subsequence of a sorted vector is sorted |
| Sequences.SubsequenceDistinct | src/address_book.cpp:50-79 | a subsequence of distinct entries is distinct |
| Sequences.SubsequenceWellFormed | src/address_book.cpp:72-77 | a subsequence of a valid book's entries is valid |
| Sequences.MatchingMembers | src/address_book.cpp:162 | `find` returns exactly the stored entries that match |
| Sequences.MatchingIsSubsequence | src/address_book.cpp:162 | `find` keeps the stored order |
| Sequences.MatchingNone | src/address_book.cpp:162 | when no entry matches, `find` returns nothing |
| Sequences.MatchingEmptyQuery | src/address_book.cpp:158-162 | `find("")` returns every entry in stored order |
| Sequences.MatchingIgnoresQueryCase | src/address_book.cpp:144-162 | `find` gives the same result for queries that differ only in case |
| Sequences.MatchingKeepsSorted | src/address_book.cpp:118-165 | after a sort, `find` returns its results in sorted order |
| Sequences.SubtractMembers | src/address_book.cpp:69-79 | `-` keeps exactly the entries of the left book that the right book lacks |
| Sequences.SubtractIsSubsequence | src/address_book.cpp:69-79 | `-` keeps the left book's order |
| Sequences.SubtractWellFormed | src/address_book.cpp:69-79 | `-` keeps the book invariant |
| Sequences.SubtractAppend | src/address_book.cpp:72-77 | removing the right book's entries one at a time is removing them all |
| Sequences.SubtractNothing | src/address_book.cpp:71 | subtracting an empty book is a copy |
| Sequences.SubtractAbsent | src/address_book.cpp:76 | removing an absent entry changes nothing, as the ignored exception does |
| Sequences.EraseIsSubtract | src/address_book.cpp:107-111 | erasing the found position of distinct entries removes exactly that entry |
| Sequences.EraseFound | src/address_book.cpp:107-111 | erasing the found entry keeps the invariant and leaves no copy of it |
| Sequences.EraseReinsert | src/address_book.cpp:111 | `erase` keeps the other entries in their relative order |
| Sequences.RemoveOneCopy | src/address_book.cpp:107-111 | `remove` takes exactly one copy of the entry out of the multiset of entries |
| Sequences.RemoveUndoesAppend | src/address_book.cpp:100-111 | removing a just-added entry restores the book |
| Sequences.AdditionsAppend | src/address_book.cpp:53-58 | one more right-hand entry is added exactly when it has a name and is not in the left book |
| Sequences.AdditionsMembers | src/address_book.cpp:50-60 | `+` adds exactly the named right-hand entries the left book lacks |
| Sequences.AdditionsIsSubsequence | src/address_book.cpp:53 | `+` adds them in the right book's order |
| Sequences.MergeWellFormed | src/address_book.cpp:50-60 | `+` keeps the book invariant |
| Sequences.AdditionsOfStored | src/address_book.cpp:57 | adding entries already stored adds nothing |
| Sorting.Sort | src/address_book.cpp:121-123 | `std::sort` leaves the range a permutation of itself, in comparator order |
| Sorting.SelectStep | src/address_book.cpp:121-123 | one sort step places a minimal entry and keeps the multiset |
| Sorting.MinimumFrom | src/address_book.cpp:121-123 | finds an entry that no later entry precedes |
| Book.AddressBook.constructor | src/include/address_book.h:7-16 | a new book is empty and valid |
| Book.AddressBook.Copy | src/address_book.cpp:52 | the copy constructor copies `entries` |
| Book.AddressBook.Assign | src/address_book.cpp:36-40 | copy assignment copies the other book's entries |
| Book.AddressBook.MoveAssign | src/address_book.cpp:43-47 | move assignment takes over the other book's entries |
| Book.AddressBook.Add | src/address_book.cpp:89-101 | refuses a nameless entry and a stored one, changing nothing; otherwise appends it; keeps the invariant |
| Book.AddressBook.Remove | src/address_book.cpp:104-115 | refuses an absent entry, changing nothing; otherwise erases exactly it, one shorter, the rest in order |
| Book.AddressBook.SortBy | src/address_book.cpp:121-124 | the entries become a sorted permutation of themselves and are returned |
| Book.AddressBook.SortedByFirstName | src/address_book.cpp:118-125 | the entries are sorted in place by first name, permuted, and returned |
| Book.AddressBook.SortedByLastName | src/address_book.cpp:128-135 | the same by last name |
| Book.AddressBook.Find | src/address_book.cpp:138-165 | returns exactly the matching entries, in stored order; the book is unchanged |
| Book.AddressBook.Plus | src/address_book.cpp:50-60 | a new valid book: this book's entries, then the named right-hand entries it lacks |
| Book.AddressBook.Minus | src/address_book.cpp:69-79 | a new valid book: this book's entries without those of the right-hand book |
| Scenarios.PeopleWellFormed | test/address_book_tests.cpp:7-14 | the sample people are named and distinct |
| Scenarios.AddTestPeople | test/address_book_tests.cpp:17-27 | adding the sample people in turn stores them in that order |
| Scenarios.AddDuplicatePerson | test/address_book_tests.cpp:31-76 | one added person is stored alone and a second add of it is refused |
| Scenarios.AddInvalidPerson | test/address_book_tests.cpp:52-60 | an entry without names is refused |
| Scenarios.SortedByFirstNames | test/address_book_tests.cpp:126-157 | sorting the sample people by first name gives the expected order |
| Scenarios.SortedByLastNames | test/address_book_tests.cpp:161-191 | sorting them by last name gives the expected order |
| Scenarios.FindPerson | test/address_book_tests.cpp:195-238 | "gRahAm" finds Sally, "a" finds Aaran then Adriana, "x" and "ra" find nobody |
| Scenarios.FindEmptyString | test/address_book_tests.cpp:242-252 | the empty query finds everybody |
| Scenarios.DeleteEntry | test/address_book_tests.cpp:256-274 | the person found for "Jayden" is removed and then not found |
| Scenarios.DeleteEntryAndSort | test/address_book_tests.cpp:279-324 | after that removal and a sort, Jayden is not found and the rest are in first-name order |
| Scenarios.DeleteNonExistantEntry | test/address_book_tests.cpp:328-337 | removing an unknown entry is refused |
| Scenarios.CopyConstructor | test/address_book_tests.cpp:341-359 | a copy sorts to the same entries as the original |
| Scenarios.PlusOperator | test/address_book_tests.cpp:363-400 | merging appends the two new people, and each is found by first name |
| Scenarios.MinusOperator | test/address_book_tests.cpp:452-481 | subtracting removes Adriana and Jayden, ignores the unknown entry, and leaves four |

## Left out

- `operator<<` (src/address_book.cpp:29-33) writes to a stream for diagnostics only; there is no I/O in the model.
- The free `operator+` and `operator-` (src/address_book.cpp:63-66, 82-85) only forward to `lhs + rhs`; with a const left operand they would call themselves, so only the member operators are modelled.
- `::tolower` in locales other than "C": only 'A'..'Z' are lower-cased, and characters are compared by code point.
- Sorting.Sort: the order of entries with equal sort names is not stated, because `std::sort` is not stable.
- The test at test/address_book_tests.cpp:79-122 depends on the tie order of the two "Jacob" entries after `std::sort`, which is unspecified. Its last assertions (lines 113-122) also contradict the code, since the sort at line 109 puts "Ingram" before "Jacob". It is not restated.
- The "double sided" tests (test/address_book_tests.cpp:404-449, 485-512) assign the result to a third book. Apart from that, the `-` test repeats MinusOperator and is not restated.
- PlusOperator covers the checks of test/address_book_tests.cpp:404-439 but not lines 440-447, which also find each of the six sample people alone by first name in the merged book. Finding all six against all eight merged entries is left out. Each such lookup needs eight per-entry match proofs, which makes the proof too costly.
- The header src/include/address_book.h does not match the implementation: it declares no `entries` member and no operators. Only its `Entry` layout is used.
- Book.AddressBook.MoveAssign: the C++ library leaves a moved-from vector valid but unspecified; the model empties it.
- Book.AddressBook.Copy, Book.AddressBook.Assign, Book.AddressBook.Plus and Book.AddressBook.Minus require the other book to be valid. The C++ copy constructor, `operator=` and the operators demand nothing, but every book built through the public operations is valid.
- The gtest harness and `main` (test/address_book_tests.cpp:514-518) are not modelled.
