# Citizens registry in Dafny

This project models the citizens registry `CitizensImpl`. The registry keeps every
`Person` record in three lists, each kept strictly sorted so that lookups and range
queries are binary searches:

- by id (`Person.compareTo`);
- by last name ignoring case, then id (`lastNameComparator`);
- by age, then id (`ageComparator`).

It also models `Person`, whose `equals`, `hashCode` and `compareTo` all look only at
the id.

The model has five modules:

- `JavaLang` (`java_lang.dfy`): the Java platform pieces the code leans on.
  - `int` as a 32-bit subset type, `Integer.compare`, truncating division.
  - `String.compareToIgnoreCase` over an ASCII case fold, proved antisymmetric and
    transitive, and proved zero exactly on strings equal up to case.
- `Ordering` (`ordering.dfy`): comparator-sorted sequences.
  - `Collections.binarySearch` as the same halving loop, proved against its documented
    promise: an index of an equivalent element, or `-(insertion point) - 1`.
  - The lower bound that promise pins down on a strictly sorted list.
  - Positional insert and delete, and the filter that specifies the range queries.
- `PersonModel` (`person.dfy`): the record.
  - The constructor is the datatype constructor, so the four arguments are stored
    unchanged. `id` and `birthDate` have no setter.
  - `setFirstName`/`setLastName` are functional updates of one field.
  - Identity, hash code and natural order are by id.
  - `getAge` is `ChronoUnit.YEARS.between(birthDate, today)`, proved to be the number
    of completed years.
- `Registry` (`registry.dfy`): the registry's state as a value, `Views(byId, byLastName, byAge)`.
  - The invariant `ValidViews`: each list is strictly sorted by its comparator, and all
    three hold the same records.
  - One specification function per operation: `Added`, `AddedAll`, `Removed`,
    `PersonWithId`, `AgeRange` and `NameRange`.
  - Lemmas that each operation keeps the invariant, that the two range queries
    return exactly the matching records, that `find` after a successful `add` returns
    the new record, and that `remove` of that id undoes the `add`.
- `CitizensDao` (`citizens_impl.dfy`): the class `CitizensImpl`.
  - Three `seq<Person>` fields, updated in place by `Add` and `Remove`.
  - Every method ensures the new state is the specification function applied to the
    old state, and that `Valid()` still holds.
- `CitizensScenarios` (`scenarios.dfy`): the unit-test scenarios of
  `CitizensTest.java`, with the expected outcomes proved from the general lemmas.

`getAge` reads the wall clock. Here every age is taken on one fixed date, the
registry's `today`, so the (age, id) order cannot go stale. The scenarios take ages
on 1 January 2025, which gives the ages 34, 39, 29, 24 and 36 the tests rely on. The
expected result of `find(20, 35)` in `testFindByMinAndMaxAge` holds only for query dates
from 1 December 2024 (Eve turns 36) to 14 May 2026 (Alice turns 36 the next day), and
1 January 2025 lies inside that window.

The range queries probe with the sentinel ids `Integer.MIN_VALUE` and
`Integer.MAX_VALUE`. The exactness lemmas therefore require that no stored id is a
sentinel. The code does not enforce this. Two lemmas show that a stored
`Integer.MIN_VALUE` id matching the probe makes `subList` throw.

Called with `minAge > maxAge`, the age query throws `IllegalArgumentException` as soon
as someone is aged strictly between the two bounds. It returns an empty list only when
nobody is. A caller might expect an empty result for a reversed range; the code
throws instead. The model follows the code; see `Registry.AgeRangeReversed`.

## Model

| member | source | states |
|---|---|---|
| JavaLang.CompareInt | src/telran/citizens/dao/CitizensImpl.java:18 | `Integer.compare` is negative exactly when the first argument is smaller and positive exactly when it is larger, always in -1..1 |
| JavaLang.CompareIgnoreCaseSwap | src/telran/citizens/dao/CitizensImpl.java:17 | `compareToIgnoreCase` is antisymmetric: swapping the strings negates the result |
| JavaLang.CompareIgnoreCaseZero | src/telran/citizens/dao/CitizensImpl.java:17 | `compareToIgnoreCase` is zero exactly when the strings agree up to case |
| JavaLang.CompareIgnoreCaseCongruent | src/telran/citizens/dao/CitizensImpl.java:17 | strings equal up to case compare alike against any third string |
| JavaLang.CompareIgnoreCaseTransitive | src/telran/citizens/dao/CitizensImpl.java:17 | "below ignoring case" is transitive |
| Registry.CompareByLastName | src/telran/citizens/dao/CitizensImpl.java:16-19 | `lastNameComparator` is zero exactly for equal names up to case and equal ids |
| Registry.LastNameOrderIsStrict | src/telran/citizens/dao/CitizensImpl.java:16-19 | `lastNameComparator` is a strict order, sign-antisymmetric and transitive |
| Registry.SortedByName | src/telran/citizens/dao/CitizensImpl.java:16-19 | a list sorted by `lastNameComparator` has names ascending ignoring case and ids ascending among equal names |
| Registry.CompareByAge | src/telran/citizens/dao/CitizensImpl.java:20-23 | `ageComparator` is zero exactly for equal (age, id) keys |
| Registry.AgeOrderIsStrict | src/telran/citizens/dao/CitizensImpl.java:20-23 | `ageComparator` is a strict order |
| Registry.IdOrderIsStrict | src/telran/citizens/model/Person.java:70-72 | the id comparison behind `compareTo` is a strict order |
| Registry.ValidViewsUniqueIds | src/telran/citizens/dao/CitizensImpl.java:11-13 | in a valid registry none of the three lists holds two records with one id |
| Registry.SameRecordsUniqueIds | src/telran/citizens/dao/CitizensImpl.java:11-13 | a strictly sorted list holding the same records as an id-unique list is id-unique itself |
| CitizensDao.CitizensImpl.constructor | src/telran/citizens/dao/CitizensImpl.java:25-30 | the new registry is valid and all three lists are empty |
| CitizensDao.CitizensImpl.FromList | src/telran/citizens/dao/CitizensImpl.java:32-36 | the list constructor leaves exactly the state of `add` applied to each element in turn, and it is valid |
| Registry.AddedAllStep | src/telran/citizens/dao/CitizensImpl.java:32-36 | building from one more element is one more `add` on the registry built so far |
| Registry.AddedAllValid | src/telran/citizens/dao/CitizensImpl.java:32-36 | building from any list of records, nulls included, gives a valid registry |
| Registry.AddedAllIds | src/telran/citizens/dao/CitizensImpl.java:32-36 | building from a list stores exactly the ids of its non-null records, each once, so nulls and repeated ids are skipped |
| Registry.AddedAllKeepsFirsts | src/telran/citizens/dao/CitizensImpl.java:32-36 | building from a list keeps a record exactly when it is the first record of the list carrying its id |
| CitizensDao.CitizensImpl.Add | src/telran/citizens/dao/CitizensImpl.java:40-54 | `add` returns true exactly for a non-null record with a new id; the new state is `Added` of the old one and is valid |
| Registry.AddedKeepsValid | src/telran/citizens/dao/CitizensImpl.java:40-54 | `add` keeps the registry valid; rejecting null or a known id changes nothing; accepting adds that one record, so size grows by one and the id set gains that id |
| Registry.AddedIds | src/telran/citizens/dao/CitizensImpl.java:40-54 | after `add` the stored ids are the old ones plus the offered record's id, if any |
| Registry.AddedMembers | src/telran/citizens/dao/CitizensImpl.java:40-54 | after `add` a record is stored exactly when it was already stored, or was offered with a new id |
| CitizensDao.InsertEverywhere | src/telran/citizens/dao/CitizensImpl.java:44-52 | the three binary searches and positional inserts of `add` give exactly the lists `Added` describes |
| Registry.InsertedEverywhere | src/telran/citizens/dao/CitizensImpl.java:44-52 | inserting a record with a new id at its insertion point keeps each of the three lists strictly sorted |
| Registry.InsertNewId | src/telran/citizens/dao/CitizensImpl.java:44-52 | inserting at the lower bound a record whose id no stored record has keeps a list strictly sorted, for any order that separates ids |
| Registry.OrdersSeparateIds | src/telran/citizens/dao/CitizensImpl.java:16-23 | each of the three orders compares two records as zero only when their ids agree |
| Registry.IdsOfInsert | src/telran/citizens/dao/CitizensImpl.java:46 | inserting a record adds its id to the list's ids |
| Ordering.BinarySearch | src/telran/citizens/dao/CitizensImpl.java:44-45 | `Collections.binarySearch` on a list partitioned around the key gives an index of an equivalent element, or `-(insertion point) - 1` with every earlier element below and every later one above the key |
| Ordering.SortedIsPartitioned | src/telran/citizens/dao/CitizensImpl.java:44 | a strictly sorted list meets the binary search's precondition for every key |
| Ordering.SearchResultUnique | src/telran/citizens/dao/CitizensImpl.java:44-45 | on a strictly sorted list the search's promise allows one result only, and `index >= 0 ? index : -index - 1` decodes it to the lower bound |
| Ordering.SearchResultFound | src/telran/citizens/dao/CitizensImpl.java:44-45 | the search result is non-negative exactly when some element is equivalent to the key |
| Ordering.InsertKeepsSorted | src/telran/citizens/dao/CitizensImpl.java:44-52 | inserting at the lower bound a key that no element is equivalent to keeps the list strictly sorted |
| Ordering.LowerBoundSplits | src/telran/citizens/dao/CitizensImpl.java:45 | the lower bound splits a partitioned list into the elements below the key and the rest |
| CitizensDao.SearchIds | src/telran/citizens/dao/CitizensImpl.java:44-45 | the id search returns the unique search result; a negative result means the id is absent, a non-negative one indexes its record |
| CitizensDao.SearchLastNames | src/telran/citizens/dao/CitizensImpl.java:47-48 | the last-name search returns the unique search result, and its decoded index is the lower bound |
| CitizensDao.SearchAges | src/telran/citizens/dao/CitizensImpl.java:50-51 | the age search returns the unique search result, and its decoded index is the lower bound |
| CitizensDao.CitizensImpl.Remove | src/telran/citizens/dao/CitizensImpl.java:58-67 | `remove` returns true exactly for a stored id; the new state is `Removed` of the old one and is valid |
| Registry.RemovedKeepsValid | src/telran/citizens/dao/CitizensImpl.java:58-67 | `remove` keeps the registry valid and leaves it unchanged for an unknown id; for a known id it deletes that id's record exactly once from each list, keeps the others in order, shrinks size by one and drops the id |
| Registry.RemovedEverywhere | src/telran/citizens/dao/CitizensImpl.java:63-65 | the three `ArrayList.remove(Object)` calls on the found record give exactly `Removed` of the old state, which is valid |
| Registry.RemoveFirstEqualAt | src/telran/citizens/dao/CitizensImpl.java:63 | `ArrayList.remove(Object)` deletes the first element equal to the argument at its position |
| Registry.RemoveFromUnique | src/telran/citizens/dao/CitizensImpl.java:63-65 | in an id-unique list, removing a stored record deletes exactly its one occurrence |
| Ordering.RemoveKeepsSorted | src/telran/citizens/dao/CitizensImpl.java:63-65 | deleting one element keeps a list strictly sorted |
| Registry.IdsOfRemove | src/telran/citizens/dao/CitizensImpl.java:63 | deleting a record from an id-unique list removes exactly its id |
| Registry.AddThenFind | src/telran/citizens/dao/CitizensImpl.java:71-77 | after a successful `add`, `find` of the new record's id returns that record |
| Registry.RemoveInserted | src/telran/citizens/dao/CitizensImpl.java:63-65 | `ArrayList.remove(Object)` of a record just inserted with a new id restores the list as it was |
| Registry.AddThenRemove | src/telran/citizens/dao/CitizensImpl.java:58-67 | `remove` of the id a successful `add` just stored gives back the registry as it was before the `add`, all three lists included |
| CitizensDao.CitizensImpl.FindById | src/telran/citizens/dao/CitizensImpl.java:71-77 | `find(id)` returns the stored record with that id, or none when the id is absent; it changes nothing |
| Registry.PersonWithId | src/telran/citizens/dao/CitizensImpl.java:71-77 | the record looked up by id exists exactly when the id is stored, is stored, and carries the id |
| Registry.PersonWithIdAt | src/telran/citizens/dao/CitizensImpl.java:73-74 | in an id-unique list the lookup finds the record at the index the search returns |
| Registry.SubList | src/telran/citizens/dao/CitizensImpl.java:87 | `subList(from, to)` gives the slice exactly when 0 <= from <= to <= size; otherwise it throws `IndexOutOfBoundsException`, or `IllegalArgumentException` when only from > to is wrong |
| CitizensDao.CitizensImpl.FindByAge | src/telran/citizens/dao/CitizensImpl.java:81-88 | `find(minAge, maxAge)` is `AgeRange` of the state; with no sentinel ids and minAge <= maxAge it is exactly the records aged minAge..maxAge, in list order |
| Registry.AgeRangeExact | src/telran/citizens/dao/CitizensImpl.java:81-88 | with no sentinel ids and minAge <= maxAge, the age query never throws and returns a contiguous run of the age list holding exactly the records aged minAge..maxAge, ascending by (age, id) |
| Registry.AgeRun | src/telran/citizens/dao/CitizensImpl.java:83-87 | given where the two probes land, the decoded insertion points bound the run of records aged minAge..maxAge, and `subList` returns that run |
| Registry.AgeRunMatches | src/telran/citizens/dao/CitizensImpl.java:83-87 | between the end of the records younger than minAge and the end of those no older than maxAge lie exactly the records aged in between |
| Registry.AgeProbes | src/telran/citizens/dao/CitizensImpl.java:82-85 | neither age probe is found; the first insertion point ends the records younger than minAge, the second ends those no older than maxAge |
| Registry.AgeProbe | src/telran/citizens/dao/CitizensImpl.java:82-85 | an age probe whose id no record holds is not found, and its insertion point ends the records ordered before it |
| Registry.AgeAgainstProbes | src/telran/citizens/dao/CitizensImpl.java:82-85 | a non-sentinel key sorts before (minAge, MIN_VALUE) exactly when younger, and before (maxAge, MAX_VALUE) exactly when no older |
| Registry.AgeRangeReversed | src/telran/citizens/dao/CitizensImpl.java:81-88 | with minAge > maxAge the query succeeds, with an empty list, exactly when nobody is aged strictly between the bounds; otherwise it throws `IllegalArgumentException` |
| Registry.AgeRangeSentinelThrows | src/telran/citizens/dao/CitizensImpl.java:82-83 | a stored record with id MIN_VALUE aged exactly minAge is found by the probe, and the query throws `IndexOutOfBoundsException` |
| CitizensDao.CitizensImpl.FindByLastName | src/telran/citizens/dao/CitizensImpl.java:92-100 | `find(lastName)` is `NameRange` of the state; with no sentinel ids it is exactly the records whose last name matches ignoring case |
| Registry.NameRangeExact | src/telran/citizens/dao/CitizensImpl.java:92-100 | with no sentinel ids the name query never throws and returns a contiguous run holding exactly the records whose last name equals the argument ignoring case, in ascending id order |
| Registry.NameRun | src/telran/citizens/dao/CitizensImpl.java:94-98 | the two decoded insertion points bound the run of records whose name matches ignoring case |
| Registry.NameRunMatches | src/telran/citizens/dao/CitizensImpl.java:94-98 | between the end of the names below the argument and the end of the names not above it lie exactly the names equal to it ignoring case |
| Registry.NameRunAscending | src/telran/citizens/dao/CitizensImpl.java:16-19 | within a run of names equal ignoring case, the last-name order is the id order |
| Registry.NameProbes | src/telran/citizens/dao/CitizensImpl.java:93-96 | neither name probe is found; the first insertion point ends the names below the argument, the second ends those not above it |
| Registry.NameProbe | src/telran/citizens/dao/CitizensImpl.java:93-96 | a name probe whose id no record holds is not found, and its insertion point ends the records ordered before it |
| Registry.NameAgainstProbes | src/telran/citizens/dao/CitizensImpl.java:93-96 | a non-sentinel key sorts before (name, MIN_VALUE) exactly when its name is below, and before (name, MAX_VALUE) exactly when not above |
| Registry.NameRangeSentinelThrows | src/telran/citizens/dao/CitizensImpl.java:93-94 | a stored record with id MIN_VALUE and a matching name is found by the probe, and the query throws `IndexOutOfBoundsException` |
| CitizensDao.CitizensImpl.AllSortedById | src/telran/citizens/dao/CitizensImpl.java:104-106 | every record appears once, ids strictly ascending, with the same records as the other two lists |
| CitizensDao.CitizensImpl.AllSortedByAge | src/telran/citizens/dao/CitizensImpl.java:110-112 | every record appears once, ascending by age and then id |
| CitizensDao.CitizensImpl.AllSortedByLastName | src/telran/citizens/dao/CitizensImpl.java:116-118 | every record appears once, ascending by last name ignoring case and then id |
| CitizensDao.CitizensImpl.Size | src/telran/citizens/dao/CitizensImpl.java:132-134 | `size` is the number of distinct stored ids and the length of each of the three lists |
| Registry.SizeIsIdCount | src/telran/citizens/dao/CitizensImpl.java:132-134 | a valid registry holds as many records as distinct ids |
| Registry.UniqueIdsCount | src/telran/citizens/dao/CitizensImpl.java:132-134 | a list with distinct ids has as many ids as records |
| PersonModel.Person.SetFirstName | src/telran/citizens/model/Person.java:35-37 | `setFirstName` replaces the first name and leaves id, last name and birth date as they were |
| PersonModel.Person.SetLastName | src/telran/citizens/model/Person.java:39-41 | `setLastName` replaces the last name and leaves id, first name and birth date as they were |
| JavaLang.JavaDiv | src/telran/citizens/model/Person.java:44 | the divisions inside `ChronoUnit.YEARS.between` truncate toward zero: the remainder lies strictly within one divisor of zero and has the sign of the dividend |
| PersonModel.AgeIsCompletedYears | src/telran/citizens/model/Person.java:43-45 | for a birth date not after today, `getAge` is the difference of the years, less one while this year's birthday is still ahead |
| PersonModel.EqualsIsIdEquality | src/telran/citizens/model/Person.java:48-52 | `equals` holds exactly for equal ids; it is reflexive and symmetric, and survives renaming |
| PersonModel.HashCodeAgreesWithEquals | src/telran/citizens/model/Person.java:55-57 | equal records have equal hash codes |
| PersonModel.CompareToAgreesWithEquals | src/telran/citizens/model/Person.java:70-72 | `compareTo` is zero exactly when `equals` holds, negative exactly for the smaller id, and antisymmetric |
| PersonModel.CompareToIsStrictOrder | src/telran/citizens/model/Person.java:70-72 | `compareTo` is a strict order |
| CitizensScenarios.SetUpMembers | src/telran/citizens/test/CitizensTest.java:16-24 | the set-up registers exactly Alice, Bob, Charlie, David and Eve |
| CitizensScenarios.SetUpOrders | src/telran/citizens/test/CitizensTest.java:16-24 | the set-up yields exactly the three lists the tests expect |
| CitizensScenarios.RegisteredValid | src/telran/citizens/test/CitizensTest.java:16-24 | those lists form a valid registry with no sentinel ids |
| CitizensScenarios.FrankIsNew | src/telran/citizens/test/CitizensTest.java:114-117 | after the set-up, size is 5 and Frank's id is not yet stored |
| CitizensScenarios.SetUpById | src/telran/citizens/test/CitizensTest.java:76-86 | the id list after the set-up is Alice, Bob, Charlie, David, Eve |
| CitizensScenarios.SetUpByAge | src/telran/citizens/test/CitizensTest.java:88-99 | the age list after the set-up is David, Charlie, Alice, Eve, Bob |
| CitizensScenarios.SetUpByLastName | src/telran/citizens/test/CitizensTest.java:101-112 | the last-name list after the set-up is Brown, Davis, Johnson, Smith, Williams |
| CitizensScenarios.AddScenario | src/telran/citizens/test/CitizensTest.java:26-35 | adding Frank changes the registry and makes six; adding him again, or adding null, changes nothing |
| CitizensScenarios.AddedTwice | src/telran/citizens/test/CitizensTest.java:26-35 | in any valid registry a new record is taken once; offering it again, or offering null, changes nothing |
| CitizensScenarios.RemoveScenario | src/telran/citizens/test/CitizensTest.java:37-43 | removing id 1 changes the registry and leaves four; removing it again changes nothing |
| CitizensScenarios.FindByIdScenario | src/telran/citizens/test/CitizensTest.java:45-50 | `find(1)` gives Alice and `find(1111)` gives nothing |
| CitizensScenarios.FindByAgeScenario | src/telran/citizens/test/CitizensTest.java:53-63 | `find(20, 35)` gives David, Charlie, Alice and `find(10, 20)` gives an empty list |
| CitizensScenarios.FindByLastNameScenario | src/telran/citizens/test/CitizensTest.java:66-73 | `find("Johnson")` gives Bob and `find("Doe")` gives an empty list |

## Left out

- The wall clock: `LocalDate.now()` in `getAge` and in the age probes is replaced by the registry's fixed date `today`.
- The age probes `LocalDate.now().minusYears(k)` are modelled by the sort key they produce, (k, sentinel id). The day-of-month clamp of `minusYears` on 29 February is not modelled.
- CitizensDao.CitizensImpl.FindByAge: `minusYears` throws `DateTimeException` when the probe year `today.year - k` leaves `LocalDate`'s year range of -999,999,999..999,999,999, for example `find(0, Integer.MAX_VALUE)`. The model has no such error path. For those arguments `FindByAge` and `Registry.AgeRange` return the run between the probes' insertion points (`Registry.AgeRangeExact` then promises the age filter) where the code throws.
- PersonModel.Person.Age: the `(int)` narrowing of the `long` year count is not modelled. Ages of real birth dates fit in an `int`.
- PersonModel.ValidDate: dates are checked only for month 1..12 and day 1..31, not for the length of each month.
- JavaLang.CompareIgnoreCase: case folding covers ASCII letters only, not full Unicode `Character.toUpperCase`/`toLowerCase`.
- Null names and null birth dates are not modelled, since the comparators would throw on them. `equals` against null or a non-`Person` is not modelled either.
- CitizensDao.CitizensImpl.Add: a record with a null last name or null birth date, added to a non-empty registry, makes the code throw `NullPointerException` part-way. A null last name throws after the id list was updated. A null birth date throws after the id and last-name lists were updated. The three lists then disagree. The model cannot express such a record, so it has neither the exception nor the partial update.
- `add(null)` is modelled as `None` of an `Option<Person>`.
- `Person` is an immutable datatype, so the setters return an updated record. Renaming a record already stored in the registry, which would break the last-name order, is not expressible in the model.
- The lists returned by `find(minAge, maxAge)`, `find(lastName)` and the `getAllPersonsSortedBy*` methods are values. Their aliasing of the registry's live lists (`subList` views) is not modelled.
- `toString`, the plain getters and the commented-out `findByPredicate` are not modelled.
- The `Citizens` interface file is not part of this model.
- Registry.AgeRangeExact: requires that no stored id is `Integer.MIN_VALUE` or `Integer.MAX_VALUE`. With a sentinel id stored, the code can throw (`Registry.AgeRangeSentinelThrows`).
- Registry.NameRangeExact: has the same sentinel precondition, with `Registry.NameRangeSentinelThrows` showing the throw.
