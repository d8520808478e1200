/** The citizens registry: one set of person records kept in three lists,
    sorted by id, by (last name ignoring case, id) and by (age, id), so that
    lookups and range queries are binary searches rather than scans. */
module Registry {
  import opened JavaLang
  import opened Ordering
  import opened PersonModel

  /** What `List.subList` throws on bad bounds. */
  datatype Failure = IndexOutOfBounds | IllegalArgument

  datatype Result<T> = Ok(value: T) | Err(failure: Failure)

  /*** The three orders ***/

  /** The key of the id list; `Person.compareTo` is `CompareInt` on it. */
  function IdOf(p: Person): int {
    p.id
  }

  datatype NameKey = NameKey(lastName: string, id: int)

  function NameKeyOf(p: Person): NameKey {
    NameKey(p.lastName, p.id)
  }

  /** `lastNameComparator`: last names ignoring case, then ids. */
  function CompareByLastName(a: NameKey, b: NameKey): (r: int)
    ensures r == 0 <==> Folded(a.lastName) == Folded(b.lastName) && a.id == b.id
  {
    CompareIgnoreCaseZero(a.lastName, b.lastName);
    var res := CompareIgnoreCase(a.lastName, b.lastName);
    if res != 0 then res else CompareInt(a.id, b.id)
  }

  datatype AgeKey = AgeKey(age: int, id: int)

  /** The key of the age list, with every age taken on the same date. */
  function AgeKeyOf(today: Date): Person -> AgeKey {
    (p: Person) => AgeKey(p.Age(today), p.id)
  }

  /** `ageComparator`: ages, then ids. */
  function CompareByAge(a: AgeKey, b: AgeKey): (r: int)
    ensures r == 0 <==> a == b
  {
    var res := CompareInt(a.age, b.age);
    if res != 0 then res else CompareInt(a.id, b.id)
  }

  lemma IdOrderIsStrict()
    ensures IsStrictOrder(CompareInt)
  {
  }

  lemma AgeOrderIsStrict()
    ensures IsStrictOrder(CompareByAge)
  {
  }

  /** The facts about one triple of name keys that make the last-name order strict. */
  lemma LastNameTriple(a: NameKey, b: NameKey, c: NameKey)
    ensures CompareByLastName(a, b) < 0 <==> CompareByLastName(b, a) > 0
    ensures CompareByLastName(a, b) <= 0 && CompareByLastName(b, c) < 0 ==> CompareByLastName(a, c) < 0
    ensures CompareByLastName(a, b) < 0 && CompareByLastName(b, c) == 0 ==> CompareByLastName(a, c) < 0
  {
    var x, y, z := a.lastName, b.lastName, c.lastName;
    CompareIgnoreCaseSwap(x, y);
    CompareIgnoreCaseSwap(x, z);
    CompareIgnoreCaseSwap(y, z);
    CompareIgnoreCaseZero(x, y);
    CompareIgnoreCaseZero(y, z);
    CompareIgnoreCaseZero(x, z);
    if CompareIgnoreCase(x, y) < 0 && CompareIgnoreCase(y, z) < 0 {
      CompareIgnoreCaseTransitive(x, y, z);
    }
    if Folded(x) == Folded(y) {
      CompareIgnoreCaseCongruent(x, y, z);
    }
    if Folded(y) == Folded(z) {
      CompareIgnoreCaseCongruent(y, z, x);
    }
  }

  lemma LastNameOrderIsStrict()
    ensures IsStrictOrder(CompareByLastName)
  {
    forall a, b, c {
      LastNameTriple(a, b, c);
    }
  }

  /** What sorting by `lastNameComparator` means: last names ascending
      ignoring case, and ids ascending among equal names. */
  lemma SortedByName(s: seq<Person>)
    requires SortedBy(s, NameKeyOf, CompareByLastName)
    ensures forall i, j :: 0 <= i < j < |s| ==>
              CompareIgnoreCase(s[i].lastName, s[j].lastName) < 0 ||
              (Folded(s[i].lastName) == Folded(s[j].lastName) && s[i].id < s[j].id)
  {
    forall i, j | 0 <= i < j < |s|
      ensures CompareIgnoreCase(s[i].lastName, s[j].lastName) < 0 ||
              (Folded(s[i].lastName) == Folded(s[j].lastName) && s[i].id < s[j].id)
    {
      CompareIgnoreCaseZero(s[i].lastName, s[j].lastName);
      assert CompareByLastName(NameKeyOf(s[i]), NameKeyOf(s[j])) < 0;
    }
  }

  /*** The registry's state as values ***/

  /** The three lists of `CitizensImpl`. */
  datatype Views = Views(byId: seq<Person>, byLastName: seq<Person>, byAge: seq<Person>)

  /** The registry's invariant: each list strictly sorted by its own order,
      and all three holding the same records. */
  ghost predicate ValidViews(v: Views, today: Date) {
    SortedBy(v.byId, IdOf, CompareInt) &&
    SortedBy(v.byLastName, NameKeyOf, CompareByLastName) &&
    SortedBy(v.byAge, AgeKeyOf(today), CompareByAge) &&
    multiset(v.byLastName) == multiset(v.byId) &&
    multiset(v.byAge) == multiset(v.byId)
  }

  function Ids(s: seq<Person>): set<int> {
    set p | p in s :: p.id
  }

  ghost predicate UniqueIds(s: seq<Person>) {
    forall i, j :: 0 <= i < j < |s| ==> s[i].id != s[j].id
  }

  /** A list sorted strictly by any order and holding the same records as a
      list with distinct ids has distinct ids itself. */
  lemma SameRecordsUniqueIds<K(!new)>(s: seq<Person>, keyOf: Person -> K, cmp: (K, K) -> int, t: seq<Person>)
    requires IsStrictOrder(cmp) && SortedBy(s, keyOf, cmp)
    requires UniqueIds(t) && multiset(s) == multiset(t)
    ensures UniqueIds(s)
  {
    forall i, j | 0 <= i < j < |s| ensures s[i].id != s[j].id {
      assert s[i] in multiset(t) && s[j] in multiset(t);
      var i' :| 0 <= i' < |t| && t[i'] == s[i];
      var j' :| 0 <= j' < |t| && t[j'] == s[j];
      assert i' != j' by {
        assert cmp(keyOf(s[i]), keyOf(s[j])) < 0;
      }
    }
  }

  /** In a valid registry no list holds two records with one id. */
  lemma ValidViewsUniqueIds(v: Views, today: Date)
    requires ValidViews(v, today)
    ensures UniqueIds(v.byId) && UniqueIds(v.byLastName) && UniqueIds(v.byAge)
  {
    LastNameOrderIsStrict();
    AgeOrderIsStrict();
    SameRecordsUniqueIds(v.byLastName, NameKeyOf, CompareByLastName, v.byId);
    SameRecordsUniqueIds(v.byAge, AgeKeyOf(today), CompareByAge, v.byId);
  }

  /** With distinct ids there are as many ids as records. */
  lemma {:induction false} UniqueIdsCount(s: seq<Person>)
    requires UniqueIds(s)
    ensures |Ids(s)| == |s|
  {
    if s != [] {
      var t := s[1..];
      assert UniqueIds(t) by {
        forall i, j | 0 <= i < j < |t| ensures t[i].id != t[j].id {
          assert t[i] == s[i + 1] && t[j] == s[j + 1];
        }
      }
      UniqueIdsCount(t);
      assert Ids(s) == {s[0].id} + Ids(t);
      assert s[0].id !in Ids(t);
    }
  }

  /*** find(int) ***/

  /** The record holding `id`, found by a scan from the front: the meaning of
      `find(id)`, which the registry answers by binary search. */
  function PersonWithId(s: seq<Person>, id: int): (r: Option<Person>)
    ensures r.Some? <==> id in Ids(s)
    ensures r.Some? ==> r.value in s && r.value.id == id
  {
    if s == [] then None
    else if s[0].id == id then Some(s[0])
    else
      assert Ids(s) == {s[0].id} + Ids(s[1..]);
      PersonWithId(s[1..], id)
  }

  /** With distinct ids, the scan finds the record at any position holding the id. */
  lemma {:induction false} PersonWithIdAt(s: seq<Person>, k: nat)
    requires UniqueIds(s) && k < |s|
    ensures PersonWithId(s, s[k].id) == Some(s[k])
  {
    if k > 0 {
      var t := s[1..];
      assert UniqueIds(t) by {
        forall i, j | 0 <= i < j < |t| ensures t[i].id != t[j].id {
          assert t[i] == s[i + 1] && t[j] == s[j + 1];
        }
      }
      assert s[0].id != s[k].id && t[k - 1] == s[k];
      PersonWithIdAt(t, k - 1);
    }
  }

  /*** add ***/

  /** The registry after `add(person)`: unchanged for null or a known id,
      otherwise the record inserted into each list where its key belongs. */
  function Added(v: Views, person: Option<Person>, today: Date): Views {
    if person.None? || person.value.id in Ids(v.byId) then v
    else
      var p := person.value;
      Views(InsertAt(v.byId, LowerBound(v.byId, IdOf, CompareInt, IdOf(p)), p),
            InsertAt(v.byLastName, LowerBound(v.byLastName, NameKeyOf, CompareByLastName, NameKeyOf(p)), p),
            InsertAt(v.byAge, LowerBound(v.byAge, AgeKeyOf(today), CompareByAge, AgeKeyOf(today)(p)), p))
  }

  /** Records that the order cannot tell apart have one id. */
  ghost predicate SeparatesIds<K>(keyOf: Person -> K, cmp: (K, K) -> int) {
    forall p, q :: cmp(keyOf(p), keyOf(q)) == 0 ==> p.id == q.id
  }

  lemma OrdersSeparateIds(today: Date)
    ensures SeparatesIds(IdOf, CompareInt)
    ensures SeparatesIds(NameKeyOf, CompareByLastName)
    ensures SeparatesIds(AgeKeyOf(today), CompareByAge)
  {
  }

  /** Inserting a record with a new id at its lower bound keeps a list that
      holds the registry's records strictly sorted. */
  lemma InsertNewId<K(!new)>(s: seq<Person>, keyOf: Person -> K, cmp: (K, K) -> int, t: seq<Person>, p: Person)
    requires IsStrictOrder(cmp) && SeparatesIds(keyOf, cmp) && SortedBy(s, keyOf, cmp)
    requires multiset(s) == multiset(t) && p.id !in Ids(t)
    ensures SortedBy(InsertAt(s, LowerBound(s, keyOf, cmp, keyOf(p)), p), keyOf, cmp)
  {
    forall e | e in s ensures cmp(keyOf(e), keyOf(p)) != 0 {
      assert e in multiset(t);
      assert e.id in Ids(t);
    }
    InsertKeepsSorted(s, keyOf, cmp, p);
  }

  lemma IdsOfInsert(s: seq<Person>, i: nat, p: Person)
    requires i <= |s|
    ensures Ids(InsertAt(s, i, p)) == Ids(s) + {p.id}
  {
    var r := InsertAt(s, i, p);
    forall q ensures q in r <==> q in s || q == p {
      assert q in r <==> q in multiset(r);
      assert q in s <==> q in multiset(s);
    }
  }

  lemma InsertedEverywhere(v: Views, p: Person, today: Date)
    requires ValidViews(v, today) && p.id !in Ids(v.byId)
    ensures SortedBy(InsertAt(v.byId, LowerBound(v.byId, IdOf, CompareInt, IdOf(p)), p), IdOf, CompareInt)
    ensures SortedBy(InsertAt(v.byLastName, LowerBound(v.byLastName, NameKeyOf, CompareByLastName, NameKeyOf(p)), p),
                     NameKeyOf, CompareByLastName)
    ensures SortedBy(InsertAt(v.byAge, LowerBound(v.byAge, AgeKeyOf(today), CompareByAge, AgeKeyOf(today)(p)), p),
                     AgeKeyOf(today), CompareByAge)
  {
    OrdersSeparateIds(today);
    IdOrderIsStrict();
    InsertNewId(v.byId, IdOf, CompareInt, v.byId, p);
    LastNameOrderIsStrict();
    InsertNewId(v.byLastName, NameKeyOf, CompareByLastName, v.byId, p);
    AgeOrderIsStrict();
    InsertNewId(v.byAge, AgeKeyOf(today), CompareByAge, v.byId, p);
  }

  /** A valid registry stays valid under `add`; a successful add puts the one
      record into all three lists, a rejected one changes nothing. */
  lemma AddedKeepsValid(v: Views, person: Option<Person>, today: Date)
    requires ValidViews(v, today)
    ensures ValidViews(Added(v, person, today), today)
    ensures person.None? || person.value.id in Ids(v.byId) ==> Added(v, person, today) == v
    ensures person.Some? && person.value.id !in Ids(v.byId) ==>
              var w := Added(v, person, today);
              multiset(w.byId) == multiset(v.byId) + multiset{person.value} &&
              |w.byId| == |v.byId| + 1 &&
              Ids(w.byId) == Ids(v.byId) + {person.value.id}
  {
    if person.Some? && person.value.id !in Ids(v.byId) {
      var p := person.value;
      var w := Added(v, person, today);
      InsertedEverywhere(v, p, today);
      IdsOfInsert(v.byId, LowerBound(v.byId, IdOf, CompareInt, IdOf(p)), p);
      assert w.byId == InsertAt(v.byId, LowerBound(v.byId, IdOf, CompareInt, IdOf(p)), p);
    }
  }

  /** The registry after the list constructor: `add` of each element in turn. */
  function AddedAll(v: Views, people: seq<Option<Person>>, today: Date): Views {
    if people == [] then v
    else Added(AddedAll(v, people[..|people| - 1], today), people[|people| - 1], today)
  }

  /** Building from one more element is one more `add`. */
  lemma AddedAllStep(people: seq<Option<Person>>, i: nat, today: Date)
    requires i < |people|
    ensures AddedAll(Views([], [], []), people[..i + 1], today) ==
            Added(AddedAll(Views([], [], []), people[..i], today), people[i], today)
  {
    assert people[..i + 1][..i] == people[..i];
  }

  /** The ids of the records in `people`, nulls skipped. */
  function PresentIds(people: seq<Option<Person>>): set<int> {
    set i | 0 <= i < |people| && people[i].Some? :: people[i].value.id
  }

  /** The first record of `people` carrying the id of `p` is `p` itself. */
  ghost predicate FirstOfItsId(people: seq<Option<Person>>, p: Person) {
    exists i :: 0 <= i < |people| && people[i] == Some(p) &&
      forall j :: 0 <= j < i ==> people[j].None? || people[j].value.id != p.id
  }

  lemma PresentIdsStep(people: seq<Option<Person>>)
    requires people != []
    ensures var n := |people| - 1;
      PresentIds(people) == PresentIds(people[..n]) + (if people[n].Some? then {people[n].value.id} else {})
  {
    var n := |people| - 1;
    var front := people[..n];
    forall i | 0 <= i < n ensures front[i] == people[i] { }
  }

  /** Building from a list gives a valid registry. */
  lemma {:induction false} AddedAllValid(people: seq<Option<Person>>, today: Date)
    ensures ValidViews(AddedAll(Views([], [], []), people, today), today)
  {
    if people != [] {
      var n := |people| - 1;
      AddedAllValid(people[..n], today);
      AddedKeepsValid(AddedAll(Views([], [], []), people[..n], today), people[n], today);
    }
  }

  /** The ids after one `add`: those before, and the new record's id if any. */
  lemma AddedIds(v: Views, x: Option<Person>, today: Date)
    requires ValidViews(v, today)
    ensures Ids(Added(v, x, today).byId) == Ids(v.byId) + (if x.Some? then {x.value.id} else {})
  {
    AddedKeepsValid(v, x, today);
  }

  /** Building from a list gives a registry holding exactly the ids of the
      list's non-null records, once each: nulls and repeated ids are skipped. */
  lemma {:induction false} AddedAllIds(people: seq<Option<Person>>, today: Date)
    ensures Ids(AddedAll(Views([], [], []), people, today).byId) == PresentIds(people)
    ensures |AddedAll(Views([], [], []), people, today).byId| == |PresentIds(people)|
  {
    var w := AddedAll(Views([], [], []), people, today);
    AddedAllValid(people, today);
    if people == [] {
      assert PresentIds(people) == {};
    } else {
      var n := |people| - 1;
      var u := AddedAll(Views([], [], []), people[..n], today);
      AddedAllIds(people[..n], today);
      AddedAllValid(people[..n], today);
      AddedIds(u, people[n], today);
      PresentIdsStep(people);
    }
    SizeIsIdCount(w, today);
  }

  /** A valid registry holds as many records as distinct ids. */
  lemma SizeIsIdCount(v: Views, today: Date)
    requires ValidViews(v, today)
    ensures |v.byId| == |Ids(v.byId)|
  {
    ValidViewsUniqueIds(v, today);
    UniqueIdsCount(v.byId);
  }

  /** The records after one `add`. */
  lemma AddedMembers(v: Views, x: Option<Person>, today: Date, p: Person)
    requires ValidViews(v, today)
    ensures p in Added(v, x, today).byId <==> p in v.byId || (x == Some(p) && p.id !in Ids(v.byId))
  {
    AddedKeepsValid(v, x, today);
    var w := Added(v, x, today);
    assert p in w.byId <==> p in multiset(w.byId);
    assert p in v.byId <==> p in multiset(v.byId);
  }

  /** Building from a list keeps, for each id, the first record that carries it. */
  lemma {:induction false} AddedAllKeepsFirsts(people: seq<Option<Person>>, today: Date, p: Person)
    ensures p in AddedAll(Views([], [], []), people, today).byId <==> FirstOfItsId(people, p)
  {
    if people != [] {
      var n := |people| - 1;
      var u := AddedAll(Views([], [], []), people[..n], today);
      AddedAllKeepsFirsts(people[..n], today, p);
      AddedAllValid(people[..n], today);
      AddedAllIds(people[..n], today);
      AddedMembers(u, people[n], today, p);
      FirstOfItsIdStep(people, p);
    }
  }

  /** How `FirstOfItsId` changes when one more record is appended. */
  lemma FirstOfItsIdStep(people: seq<Option<Person>>, p: Person)
    requires people != []
    ensures var n := |people| - 1;
      FirstOfItsId(people, p) <==>
        FirstOfItsId(people[..n], p) ||
        (people[n] == Some(p) && p.id !in PresentIds(people[..n]))
  {
    var n := |people| - 1;
    var front := people[..n];
    if FirstOfItsId(people, p) {
      var i :| 0 <= i < |people| && people[i] == Some(p) &&
        forall j :: 0 <= j < i ==> people[j].None? || people[j].value.id != p.id;
      if i < n {
        assert front[i] == people[i];
        forall j | 0 <= j < i ensures front[j].None? || front[j].value.id != p.id {
          assert front[j] == people[j];
        }
      } else {
        forall k | 0 <= k < n && front[k].Some? ensures front[k].value.id != p.id {
          assert front[k] == people[k];
        }
      }
    }
    if FirstOfItsId(front, p) {
      var i :| 0 <= i < |front| && front[i] == Some(p) &&
        forall j :: 0 <= j < i ==> front[j].None? || front[j].value.id != p.id;
      assert people[i] == front[i];
      forall j | 0 <= j < i ensures people[j].None? || people[j].value.id != p.id {
        assert people[j] == front[j];
      }
    }
    if people[n] == Some(p) && p.id !in PresentIds(front) {
      forall j | 0 <= j < n ensures people[j].None? || people[j].value.id != p.id {
        assert people[j] == front[j];
      }
    }
  }

  /*** remove ***/

  /** `ArrayList.remove(Object)`: drops the first element equal (by id) to `p`. */
  function RemoveFirstEqual(s: seq<Person>, p: Person): seq<Person> {
    if s == [] then []
    else if p.Equals(s[0]) then s[1..]
    else [s[0]] + RemoveFirstEqual(s[1..], p)
  }

  /** Removing the first equal element is deleting it at its position. */
  lemma RemoveFirstEqualAt(s: seq<Person>, p: Person, k: nat)
    requires k < |s| && p.Equals(s[k])
    requires forall i :: 0 <= i < k ==> !p.Equals(s[i])
    ensures RemoveFirstEqual(s, p) == RemoveAt(s, k)
  {
    RemoveFirstEqualSplit(s, p, k);
    assert RemoveAt(s, k) == s[..k] + s[k + 1..];
  }

  lemma {:induction false} RemoveFirstEqualSplit(s: seq<Person>, p: Person, k: nat)
    requires k < |s| && p.Equals(s[k])
    requires forall i :: 0 <= i < k ==> !p.Equals(s[i])
    ensures RemoveFirstEqual(s, p) == s[..k] + s[k + 1..]
  {
    if k > 0 {
      var t := s[1..];
      assert !p.Equals(s[0]);
      forall i | 0 <= i < k - 1 ensures !p.Equals(t[i]) {
        assert t[i] == s[i + 1];
      }
      RemoveFirstEqualSplit(t, p, k - 1);
      assert s[..k] == [s[0]] + t[..k - 1];
      assert s[k + 1..] == t[k..];
    }
  }

  /** The registry after `remove(id)`: unchanged for an unknown id, otherwise
      the record with that id taken out of all three lists. */
  function Removed(v: Views, id: int): Views {
    match PersonWithId(v.byId, id)
    case None => v
    case Some(p) => Views(RemoveFirstEqual(v.byId, p), RemoveFirstEqual(v.byLastName, p), RemoveFirstEqual(v.byAge, p))
  }

  /** The three `ArrayList.remove(Object)` calls of a successful `remove`
      give the registry `Removed` describes, and it is valid. */
  lemma RemovedEverywhere(v: Views, today: Date, id: int, p: Person, w: Views)
    requires ValidViews(v, today) && PersonWithId(v.byId, id) == Some(p)
    requires w.byId == RemoveFirstEqual(v.byId, p)
    requires w.byLastName == RemoveFirstEqual(v.byLastName, p)
    requires w.byAge == RemoveFirstEqual(v.byAge, p)
    ensures w == Removed(v, id) && ValidViews(w, today)
  {
    RemovedKeepsValid(v, id, today);
  }

  /** `r` is `s` with exactly one element, the one holding `id`, deleted and the
      others in their order. */
  ghost predicate DeletedOnce(s: seq<Person>, r: seq<Person>, id: int) {
    exists k :: 0 <= k < |s| && s[k].id == id && r == RemoveAt(s, k)
  }

  /** Deleting the holder of `id` from a list with distinct ids. */
  lemma RemoveFromUnique(s: seq<Person>, p: Person) returns (k: nat)
    requires UniqueIds(s) && p in s
    ensures k < |s| && s[k] == p
    ensures RemoveFirstEqual(s, p) == RemoveAt(s, k)
    ensures DeletedOnce(s, RemoveFirstEqual(s, p), p.id)
  {
    k :| 0 <= k < |s| && s[k] == p;
    RemoveFirstEqualAt(s, p, k);
  }

  /** A valid registry stays valid under `remove`; removing a known id deletes
      its record once from each list, keeping the rest in order. */
  lemma RemovedKeepsValid(v: Views, id: int, today: Date)
    requires ValidViews(v, today)
    ensures ValidViews(Removed(v, id), today)
    ensures id !in Ids(v.byId) ==> Removed(v, id) == v
    ensures id in Ids(v.byId) ==>
              var w := Removed(v, id);
              DeletedOnce(v.byId, w.byId, id) &&
              DeletedOnce(v.byLastName, w.byLastName, id) &&
              DeletedOnce(v.byAge, w.byAge, id) &&
              |w.byId| == |v.byId| - 1 &&
              Ids(w.byId) == Ids(v.byId) - {id}
  {
    if id in Ids(v.byId) {
      var p := PersonWithId(v.byId, id).value;
      var w := Removed(v, id);
      ValidViewsUniqueIds(v, today);
      assert p in multiset(v.byLastName) && p in multiset(v.byAge);
      var i := RemoveFromUnique(v.byId, p);
      var j := RemoveFromUnique(v.byLastName, p);
      var k := RemoveFromUnique(v.byAge, p);
      RemoveKeepsSorted(v.byId, IdOf, CompareInt, i);
      RemoveKeepsSorted(v.byLastName, NameKeyOf, CompareByLastName, j);
      RemoveKeepsSorted(v.byAge, AgeKeyOf(today), CompareByAge, k);
      IdsOfRemove(v.byId, i);
    }
  }

  lemma IdsOfRemove(s: seq<Person>, i: nat)
    requires UniqueIds(s) && i < |s|
    ensures Ids(RemoveAt(s, i)) == Ids(s) - {s[i].id}
  {
    var r := RemoveAt(s, i);
    forall x | x in Ids(s) - {s[i].id} ensures x in Ids(r) {
      var m :| 0 <= m < |s| && s[m].id == x;
      assert r[if m < i then m else m - 1] == s[m];
    }
    forall x | x in Ids(r) ensures x in Ids(s) - {s[i].id} {
      var m :| 0 <= m < |r| && r[m].id == x;
      var m' := if m < i then m else m + 1;
      assert s[m'] == r[m] && m' != i;
    }
  }

  /*** add, find and remove together ***/

  /** After a successful `add`, `find` of the new record's id returns that record. */
  lemma AddThenFind(v: Views, p: Person, today: Date)
    requires ValidViews(v, today) && p.id !in Ids(v.byId)
    ensures PersonWithId(Added(v, Some(p), today).byId, p.id) == Some(p)
  {
    var i := LowerBound(v.byId, IdOf, CompareInt, IdOf(p));
    var w := Added(v, Some(p), today);
    assert w.byId == InsertAt(v.byId, i, p) && w.byId[i] == p;
    AddedKeepsValid(v, Some(p), today);
    ValidViewsUniqueIds(w, today);
    PersonWithIdAt(w.byId, i);
  }

  /** `ArrayList.remove(Object)` of a record inserted with a new id gives back
      the list it was inserted into. */
  lemma RemoveInserted(s: seq<Person>, t: seq<Person>, i: nat, p: Person)
    requires i <= |s| && multiset(s) == multiset(t) && p.id !in Ids(t)
    ensures RemoveFirstEqual(InsertAt(s, i, p), p) == s
  {
    var r := InsertAt(s, i, p);
    forall k | 0 <= k < i ensures !p.Equals(r[k]) {
      assert r[k] == s[k] && s[k] in multiset(t);
    }
    RemoveFirstEqualAt(r, p, i);
    assert RemoveAt(r, i) == s;
  }

  /** `remove` of the id a successful `add` just stored undoes that `add`. */
  lemma AddThenRemove(v: Views, p: Person, today: Date)
    requires ValidViews(v, today) && p.id !in Ids(v.byId)
    ensures Removed(Added(v, Some(p), today), p.id) == v
  {
    AddThenFind(v, p, today);
    RemoveInserted(v.byId, v.byId, LowerBound(v.byId, IdOf, CompareInt, IdOf(p)), p);
    RemoveInserted(v.byLastName, v.byId, LowerBound(v.byLastName, NameKeyOf, CompareByLastName, NameKeyOf(p)), p);
    RemoveInserted(v.byAge, v.byId, LowerBound(v.byAge, AgeKeyOf(today), CompareByAge, AgeKeyOf(today)(p)), p);
  }

  /*** The range queries ***/

  /** `list.subList(from, to)`: the slice, or what it throws. */
  function SubList(s: seq<Person>, from: int, to: int): (r: Result<seq<Person>>)
    ensures r.Ok? <==> 0 <= from <= to <= |s|
    ensures r.Ok? ==> r.value == s[from..to]
    ensures r.Err? ==> (r.failure == IllegalArgument <==> 0 <= from && to <= |s|)
  {
    if from < 0 || to > |s| then Err(IndexOutOfBounds)
    else if from > to then Err(IllegalArgument)
    else Ok(s[from..to])
  }

  /** No stored id is one of the two sentinels the range queries probe with. */
  predicate NoSentinelIds(s: seq<Person>) {
    forall p :: p in s ==> MIN_INT < p.id < MAX_INT
  }

  function AgedBetween(today: Date, minAge: int, maxAge: int): Person -> bool {
    (p: Person) => minAge <= p.Age(today) <= maxAge
  }

  function NamedIgnoringCase(lastName: string): Person -> bool {
    (p: Person) => Folded(p.lastName) == Folded(lastName)
  }

  /** `find(minAge, maxAge)`: the age list between the insertion points of the
      probes (minAge, MIN_INT) and (maxAge, MAX_INT), each decoded as -r-1. */
  function AgeRange(v: Views, today: Date, minAge: int, maxAge: int): Result<seq<Person>> {
    var indexFrom := -SearchResult(v.byAge, AgeKeyOf(today), CompareByAge, AgeKey(minAge, MIN_INT)) - 1;
    var indexTo := -SearchResult(v.byAge, AgeKeyOf(today), CompareByAge, AgeKey(maxAge, MAX_INT)) - 1;
    SubList(v.byAge, indexFrom, indexTo)
  }

  /** `find(lastName)`: the last-name list between the insertion points of the
      probes (lastName, MIN_INT) and (lastName, MAX_INT), each decoded as -r-1. */
  function NameRange(v: Views, lastName: string): Result<seq<Person>> {
    var indexFrom := -SearchResult(v.byLastName, NameKeyOf, CompareByLastName, NameKey(lastName, MIN_INT)) - 1;
    var indexTo := -SearchResult(v.byLastName, NameKeyOf, CompareByLastName, NameKey(lastName, MAX_INT)) - 1;
    SubList(v.byLastName, indexFrom, indexTo)
  }

  /** Where the two age probes land: neither is found, the first insertion
      point ends the records younger than `minAge`, the second ends the records
      no older than `maxAge`. */
  lemma AgeProbes(s: seq<Person>, today: Date, minAge: int, maxAge: int)
    requires SortedBy(s, AgeKeyOf(today), CompareByAge) && NoSentinelIds(s)
    ensures var lo: int := LowerBound(s, AgeKeyOf(today), CompareByAge, AgeKey(minAge, MIN_INT));
            SearchResult(s, AgeKeyOf(today), CompareByAge, AgeKey(minAge, MIN_INT)) == -lo - 1 &&
            forall k :: 0 <= k < |s| ==> (k < lo <==> s[k].Age(today) < minAge)
    ensures var hi: int := LowerBound(s, AgeKeyOf(today), CompareByAge, AgeKey(maxAge, MAX_INT));
            SearchResult(s, AgeKeyOf(today), CompareByAge, AgeKey(maxAge, MAX_INT)) == -hi - 1 &&
            forall k :: 0 <= k < |s| ==> (k < hi <==> s[k].Age(today) <= maxAge)
  {
    AgeOrderIsStrict();
    forall k | 0 <= k < |s| ensures MIN_INT < s[k].id < MAX_INT {
      assert s[k] in s;
    }
    AgeProbe(s, today, AgeKey(minAge, MIN_INT));
    AgeProbe(s, today, AgeKey(maxAge, MAX_INT));
    forall k | 0 <= k < |s|
      ensures CompareByAge(AgeKeyOf(today)(s[k]), AgeKey(minAge, MIN_INT)) < 0 <==> s[k].Age(today) < minAge
      ensures CompareByAge(AgeKeyOf(today)(s[k]), AgeKey(maxAge, MAX_INT)) < 0 <==> s[k].Age(today) <= maxAge
    {
      AgeAgainstProbes(AgeKeyOf(today)(s[k]), minAge, maxAge);
    }
  }

  /** A key whose id is no sentinel sorts before the low probe of an age
      exactly when it is younger, and before the high probe exactly when it is
      no older. */
  lemma AgeAgainstProbes(key: AgeKey, minAge: int, maxAge: int)
    requires MIN_INT < key.id < MAX_INT
    ensures CompareByAge(key, AgeKey(minAge, MIN_INT)) < 0 <==> key.age < minAge
    ensures CompareByAge(key, AgeKey(maxAge, MAX_INT)) < 0 <==> key.age <= maxAge
  {
  }

  /** One age probe whose id no stored record holds: not found, and its
      insertion point ends the records ordered before it. */
  lemma AgeProbe(s: seq<Person>, today: Date, key: AgeKey)
    requires SortedBy(s, AgeKeyOf(today), CompareByAge) && IsStrictOrder(CompareByAge)
    requires forall k :: 0 <= k < |s| ==> s[k].id != key.id
    ensures var i: int := LowerBound(s, AgeKeyOf(today), CompareByAge, key);
            SearchResult(s, AgeKeyOf(today), CompareByAge, key) == -i - 1 &&
            forall k :: 0 <= k < |s| ==> (k < i <==> CompareByAge(AgeKeyOf(today)(s[k]), key) < 0)
  {
    SortedIsPartitioned(s, AgeKeyOf(today), CompareByAge, key);
    LowerBoundSplits(s, AgeKeyOf(today), CompareByAge, key);
  }

  /** Where the two last-name probes land: neither is found, the first
      insertion point ends the names below `lastName` ignoring case, the second
      ends the names not above it. */
  lemma NameProbes(s: seq<Person>, lastName: string)
    requires SortedBy(s, NameKeyOf, CompareByLastName) && NoSentinelIds(s)
    ensures var lo: int := LowerBound(s, NameKeyOf, CompareByLastName, NameKey(lastName, MIN_INT));
            SearchResult(s, NameKeyOf, CompareByLastName, NameKey(lastName, MIN_INT)) == -lo - 1 &&
            forall k :: 0 <= k < |s| ==> (k < lo <==> CompareIgnoreCase(s[k].lastName, lastName) < 0)
    ensures var hi: int := LowerBound(s, NameKeyOf, CompareByLastName, NameKey(lastName, MAX_INT));
            SearchResult(s, NameKeyOf, CompareByLastName, NameKey(lastName, MAX_INT)) == -hi - 1 &&
            forall k :: 0 <= k < |s| ==> (k < hi <==> CompareIgnoreCase(s[k].lastName, lastName) <= 0)
  {
    LastNameOrderIsStrict();
    forall k | 0 <= k < |s| ensures MIN_INT < s[k].id < MAX_INT {
      assert s[k] in s;
    }
    NameProbe(s, NameKey(lastName, MIN_INT));
    NameProbe(s, NameKey(lastName, MAX_INT));
    forall k | 0 <= k < |s|
      ensures CompareByLastName(NameKeyOf(s[k]), NameKey(lastName, MIN_INT)) < 0 <==>
              CompareIgnoreCase(s[k].lastName, lastName) < 0
      ensures CompareByLastName(NameKeyOf(s[k]), NameKey(lastName, MAX_INT)) < 0 <==>
              CompareIgnoreCase(s[k].lastName, lastName) <= 0
    {
      NameAgainstProbes(NameKeyOf(s[k]), lastName);
    }
  }

  /** A key whose id is no sentinel sorts before the low probe of a name
      exactly when its name is below it ignoring case, and before the high
      probe exactly when its name is not above it. */
  lemma NameAgainstProbes(key: NameKey, lastName: string)
    requires MIN_INT < key.id < MAX_INT
    ensures CompareByLastName(key, NameKey(lastName, MIN_INT)) < 0 <==> CompareIgnoreCase(key.lastName, lastName) < 0
    ensures CompareByLastName(key, NameKey(lastName, MAX_INT)) < 0 <==> CompareIgnoreCase(key.lastName, lastName) <= 0
  {
  }

  /** One last-name probe whose id no stored record holds: not found, and its
      insertion point ends the records ordered before it. */
  lemma NameProbe(s: seq<Person>, key: NameKey)
    requires SortedBy(s, NameKeyOf, CompareByLastName) && IsStrictOrder(CompareByLastName)
    requires forall k :: 0 <= k < |s| ==> s[k].id != key.id
    ensures var i: int := LowerBound(s, NameKeyOf, CompareByLastName, key);
            SearchResult(s, NameKeyOf, CompareByLastName, key) == -i - 1 &&
            forall k :: 0 <= k < |s| ==> (k < i <==> CompareByLastName(NameKeyOf(s[k]), key) < 0)
  {
    SortedIsPartitioned(s, NameKeyOf, CompareByLastName, key);
    LowerBoundSplits(s, NameKeyOf, CompareByLastName, key);
  }

  /** With no sentinel id stored and `minAge <= maxAge`, `find(minAge, maxAge)`
      returns a contiguous run of the age list holding exactly the records
      aged `minAge` to `maxAge`, ascending by (age, id); empty when none is. */
  lemma AgeRangeExact(v: Views, today: Date, minAge: int, maxAge: int)
    requires SortedBy(v.byAge, AgeKeyOf(today), CompareByAge) && NoSentinelIds(v.byAge)
    requires minAge <= maxAge
    ensures AgeRange(v, today, minAge, maxAge) == Ok(Filter(v.byAge, AgedBetween(today, minAge, maxAge)))
    ensures exists i, j :: 0 <= i <= j <= |v.byAge| && AgeRange(v, today, minAge, maxAge) == Ok(v.byAge[i..j])
    ensures SortedBy(Filter(v.byAge, AgedBetween(today, minAge, maxAge)), AgeKeyOf(today), CompareByAge)
  {
    AgeProbes(v.byAge, today, minAge, maxAge);
    var lo, hi := AgeRun(v, today, minAge, maxAge);
    BlockIsFilter(v.byAge, AgedBetween(today, minAge, maxAge), lo, hi);
    SliceIsSorted(v.byAge, AgeKeyOf(today), CompareByAge, lo, hi);
  }

  /** The bounds of the run `find(minAge, maxAge)` cuts out of the age list,
      given where the two probes land. */
  lemma AgeRun(v: Views, today: Date, minAge: int, maxAge: int) returns (lo: nat, hi: nat)
    requires var s := v.byAge;
             var lo: int := LowerBound(s, AgeKeyOf(today), CompareByAge, AgeKey(minAge, MIN_INT));
             SearchResult(s, AgeKeyOf(today), CompareByAge, AgeKey(minAge, MIN_INT)) == -lo - 1 &&
             forall k :: 0 <= k < |s| ==> (k < lo <==> s[k].Age(today) < minAge)
    requires var s := v.byAge;
             var hi: int := LowerBound(s, AgeKeyOf(today), CompareByAge, AgeKey(maxAge, MAX_INT));
             SearchResult(s, AgeKeyOf(today), CompareByAge, AgeKey(maxAge, MAX_INT)) == -hi - 1 &&
             forall k :: 0 <= k < |s| ==> (k < hi <==> s[k].Age(today) <= maxAge)
    requires minAge <= maxAge
    ensures lo <= hi <= |v.byAge|
    ensures AgeRange(v, today, minAge, maxAge) == Ok(v.byAge[lo..hi])
    ensures forall k :: 0 <= k < |v.byAge| ==> (AgedBetween(today, minAge, maxAge)(v.byAge[k]) <==> lo <= k < hi)
  {
    var s := v.byAge;
    lo := LowerBound(s, AgeKeyOf(today), CompareByAge, AgeKey(minAge, MIN_INT));
    hi := LowerBound(s, AgeKeyOf(today), CompareByAge, AgeKey(maxAge, MAX_INT));
    AgeRunMatches(s, today, minAge, maxAge, lo, hi);
  }

  /** Between the end of the records younger than `minAge` and the end of the
      records no older than `maxAge` lie exactly the records aged in between. */
  lemma AgeRunMatches(s: seq<Person>, today: Date, minAge: int, maxAge: int, lo: nat, hi: nat)
    requires lo <= |s| && hi <= |s| && minAge <= maxAge
    requires forall k :: 0 <= k < |s| ==> (k < lo <==> s[k].Age(today) < minAge)
    requires forall k :: 0 <= k < |s| ==> (k < hi <==> s[k].Age(today) <= maxAge)
    ensures lo <= hi
    ensures forall k :: 0 <= k < |s| ==> (AgedBetween(today, minAge, maxAge)(s[k]) <==> lo <= k < hi)
  {
    if hi < |s| {
      assert s[hi].Age(today) > maxAge;
    }
  }

  /** With no sentinel id stored and `minAge > maxAge`, `find(minAge, maxAge)`
      returns the empty list when nobody is aged strictly between the bounds
      and throws otherwise. */
  lemma AgeRangeReversed(v: Views, today: Date, minAge: int, maxAge: int)
    requires SortedBy(v.byAge, AgeKeyOf(today), CompareByAge) && NoSentinelIds(v.byAge)
    requires maxAge < minAge
    ensures AgeRange(v, today, minAge, maxAge).Ok? <==>
            forall p :: p in v.byAge ==> !(maxAge < p.Age(today) < minAge)
    ensures AgeRange(v, today, minAge, maxAge).Ok? ==> AgeRange(v, today, minAge, maxAge).value == []
    ensures AgeRange(v, today, minAge, maxAge).Err? ==> AgeRange(v, today, minAge, maxAge).failure == IllegalArgument
  {
    var s := v.byAge;
    AgeProbes(s, today, minAge, maxAge);
    var lo := LowerBound(s, AgeKeyOf(today), CompareByAge, AgeKey(minAge, MIN_INT));
    var hi := LowerBound(s, AgeKeyOf(today), CompareByAge, AgeKey(maxAge, MAX_INT));
    if hi < lo {
      assert maxAge < s[hi].Age(today) < minAge;
    }
    forall p | p in s && maxAge < p.Age(today) < minAge ensures hi < lo {
      var k :| 0 <= k < |s| && s[k] == p;
    }
  }

  /** A stored record with the sentinel id `Integer.MIN_VALUE` aged exactly
      `minAge` is found by the first probe, whose index then decodes to a
      negative start, and `subList` throws. */
  lemma AgeRangeSentinelThrows(v: Views, today: Date, minAge: int, maxAge: int, p: Person)
    requires SortedBy(v.byAge, AgeKeyOf(today), CompareByAge)
    requires p in v.byAge && p.id == MIN_INT && p.Age(today) == minAge
    ensures AgeRange(v, today, minAge, maxAge) == Err(IndexOutOfBounds)
  {
    AgeOrderIsStrict();
    SearchResultFound(v.byAge, AgeKeyOf(today), CompareByAge, AgeKey(minAge, MIN_INT));
    var k :| 0 <= k < |v.byAge| && v.byAge[k] == p;
    assert CompareByAge(AgeKeyOf(today)(v.byAge[k]), AgeKey(minAge, MIN_INT)) == 0;
  }

  /** With no sentinel id stored, `find(lastName)` returns a contiguous run of
      the last-name list holding exactly the records whose last name equals
      `lastName` ignoring case, in ascending id order; empty when none does. */
  lemma NameRangeExact(v: Views, lastName: string)
    requires SortedBy(v.byLastName, NameKeyOf, CompareByLastName) && NoSentinelIds(v.byLastName)
    ensures NameRange(v, lastName) == Ok(Filter(v.byLastName, NamedIgnoringCase(lastName)))
    ensures exists i, j :: 0 <= i <= j <= |v.byLastName| && NameRange(v, lastName) == Ok(v.byLastName[i..j])
    ensures var r := Filter(v.byLastName, NamedIgnoringCase(lastName));
            forall i, j :: 0 <= i < j < |r| ==> r[i].id < r[j].id
  {
    NameProbes(v.byLastName, lastName);
    var lo, hi := NameRun(v, lastName);
    BlockIsFilter(v.byLastName, NamedIgnoringCase(lastName), lo, hi);
    NameRunAscending(v.byLastName, lastName, lo, hi);
  }

  /** The bounds of the run `find(lastName)` cuts out of the last-name list,
      given where the two probes land. */
  lemma NameRun(v: Views, lastName: string) returns (lo: nat, hi: nat)
    requires var s := v.byLastName;
             var lo: int := LowerBound(s, NameKeyOf, CompareByLastName, NameKey(lastName, MIN_INT));
             SearchResult(s, NameKeyOf, CompareByLastName, NameKey(lastName, MIN_INT)) == -lo - 1 &&
             forall k :: 0 <= k < |s| ==> (k < lo <==> CompareIgnoreCase(s[k].lastName, lastName) < 0)
    requires var s := v.byLastName;
             var hi: int := LowerBound(s, NameKeyOf, CompareByLastName, NameKey(lastName, MAX_INT));
             SearchResult(s, NameKeyOf, CompareByLastName, NameKey(lastName, MAX_INT)) == -hi - 1 &&
             forall k :: 0 <= k < |s| ==> (k < hi <==> CompareIgnoreCase(s[k].lastName, lastName) <= 0)
    ensures lo <= hi <= |v.byLastName|
    ensures NameRange(v, lastName) == Ok(v.byLastName[lo..hi])
    ensures forall k :: 0 <= k < |v.byLastName| ==>
              (NamedIgnoringCase(lastName)(v.byLastName[k]) <==> lo <= k < hi)
  {
    var s := v.byLastName;
    lo := LowerBound(s, NameKeyOf, CompareByLastName, NameKey(lastName, MIN_INT));
    hi := LowerBound(s, NameKeyOf, CompareByLastName, NameKey(lastName, MAX_INT));
    NameRunMatches(s, lastName, lo, hi);
  }

  /** Between the end of the names below `lastName` and the end of the names
      not above it lie exactly the names equal to it ignoring case. */
  lemma NameRunMatches(s: seq<Person>, lastName: string, lo: nat, hi: nat)
    requires lo <= |s| && hi <= |s|
    requires forall k :: 0 <= k < |s| ==>
               (k < lo <==> CompareIgnoreCase(s[k].lastName, lastName) < 0) &&
               (k < hi <==> CompareIgnoreCase(s[k].lastName, lastName) <= 0)
    ensures lo <= hi
    ensures forall k :: 0 <= k < |s| ==> (NamedIgnoringCase(lastName)(s[k]) <==> lo <= k < hi)
  {
    if hi < |s| {
      assert CompareIgnoreCase(s[hi].lastName, lastName) > 0;
    }
    forall k | 0 <= k < |s| ensures NamedIgnoringCase(lastName)(s[k]) <==> lo <= k < hi {
      CompareIgnoreCaseZero(s[k].lastName, lastName);
    }
  }

  /** Within a run of equal names ignoring case, the last-name order is the
      id order. */
  lemma NameRunAscending(s: seq<Person>, lastName: string, lo: int, hi: int)
    requires SortedBy(s, NameKeyOf, CompareByLastName)
    requires 0 <= lo <= hi <= |s|
    requires forall k :: lo <= k < hi ==> Folded(s[k].lastName) == Folded(lastName)
    ensures forall i, j :: 0 <= i < j < |s[lo..hi]| ==> s[lo..hi][i].id < s[lo..hi][j].id
  {
    var r := s[lo..hi];
    forall i, j | 0 <= i < j < |r| ensures r[i].id < r[j].id {
      assert r[i] == s[lo + i] && r[j] == s[lo + j];
      CompareIgnoreCaseZero(s[lo + i].lastName, s[lo + j].lastName);
      assert CompareByLastName(NameKeyOf(s[lo + i]), NameKeyOf(s[lo + j])) < 0;
    }
  }

  /** A stored record with the sentinel id `Integer.MIN_VALUE` and the sought
      last name is found by the first probe, and `subList` throws. */
  lemma NameRangeSentinelThrows(v: Views, lastName: string, p: Person)
    requires SortedBy(v.byLastName, NameKeyOf, CompareByLastName)
    requires p in v.byLastName && p.id == MIN_INT && Folded(p.lastName) == Folded(lastName)
    ensures NameRange(v, lastName) == Err(IndexOutOfBounds)
  {
    LastNameOrderIsStrict();
    SearchResultFound(v.byLastName, NameKeyOf, CompareByLastName, NameKey(lastName, MIN_INT));
    var k :| 0 <= k < |v.byLastName| && v.byLastName[k] == p;
    assert CompareByLastName(NameKeyOf(v.byLastName[k]), NameKey(lastName, MIN_INT)) == 0;
  }
}
