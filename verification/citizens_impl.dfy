/** `CitizensImpl`: the registry object, three lists updated in place by `add`
    and `remove`, each operation proved to move the lists exactly as the
    value-level functions of module `Registry` describe. */
module CitizensDao {
  import opened JavaLang
  import opened Ordering
  import opened PersonModel
  import opened Registry

  class CitizensImpl {
    /** The date every age is taken on; `Person.getAge` reads the wall clock instead. */
    const today: Date
    var idCollection: seq<Person>
    var lastNameCollection: seq<Person>
    var ageCollection: seq<Person>

    function State(): Views
      reads this
    {
      Views(idCollection, lastNameCollection, ageCollection)
    }

    ghost predicate Valid()
      reads this
    {
      ValidViews(State(), today)
    }

    /** The empty registry. */
    constructor (today: Date)
      ensures Valid() && this.today == today
      ensures State() == Views([], [], [])
    {
      this.today := today;
      idCollection := [];
      lastNameCollection := [];
      ageCollection := [];
    }

    /** The registry holding `citizens`, added one by one in list order. */
    constructor FromList(today: Date, citizens: seq<Option<Person>>)
      ensures Valid() && this.today == today
      ensures State() == AddedAll(Views([], [], []), citizens, today)
    {
      this.today := today;
      idCollection := [];
      lastNameCollection := [];
      ageCollection := [];
      new;
      var i := 0;
      while i < |citizens|
        invariant 0 <= i <= |citizens|
        invariant Valid() && this.today == today
        invariant State() == AddedAll(Views([], [], []), citizens[..i], today)
      {
        var _ := Add(citizens[i]);
        AddedAllStep(citizens, i, today);
        i := i + 1;
      }
      assert citizens[..|citizens|] == citizens;
    }

    /** `add(person)`: rejects null and a known id; otherwise inserts the record
        into each list at the point the binary search reports. */
    method Add(person: Option<Person>) returns (added: bool)
      requires Valid()
      modifies this
      ensures Valid()
      ensures added <==> person.Some? && person.value.id !in Ids(old(idCollection))
      ensures State() == Added(old(State()), person, today)
    {
      if person.None? {
        return false;
      }
      var found := FindById(person.value.id);
      if found.Some? {
        return false;
      }
      var w := InsertEverywhere(State(), today, person.value);
      AddedKeepsValid(State(), person, today);
      idCollection, lastNameCollection, ageCollection := w.byId, w.byLastName, w.byAge;
      return true;
    }

    /** `remove(id)`: rejects an unknown id; otherwise removes its record from
        each list. */
    method Remove(id: int32) returns (removed: bool)
      requires Valid()
      modifies this
      ensures Valid()
      ensures removed <==> id in Ids(old(idCollection))
      ensures State() == Removed(old(State()), id)
    {
      var person := FindById(id);
      if person.None? {
        return false;
      }
      ghost var v := State();
      var p := person.value;
      idCollection, lastNameCollection, ageCollection :=
        RemoveFirstEqual(idCollection, p), RemoveFirstEqual(lastNameCollection, p), RemoveFirstEqual(ageCollection, p);
      RemovedEverywhere(v, today, id, p, State());
      return true;
    }

    /** `find(id)`: binary search of the id list for the probe id. */
    method FindById(id: int32) returns (r: Option<Person>)
      requires Valid()
      ensures r == PersonWithId(idCollection, id)
    {
      var index := SearchIds(idCollection, id);
      if index >= 0 {
        ValidViewsUniqueIds(State(), today);
        PersonWithIdAt(idCollection, index);
        return Some(idCollection[index]);
      }
      return None;
    }

    /** `find(minAge, maxAge)`: the run of the age list between the insertion
        points of the two probes, or what `subList` throws. */
    method FindByAge(minAge: int32, maxAge: int32) returns (r: Result<seq<Person>>)
      requires Valid()
      ensures r == AgeRange(State(), today, minAge, maxAge)
      ensures NoSentinelIds(ageCollection) && minAge <= maxAge ==>
                r == Ok(Filter(ageCollection, AgedBetween(today, minAge, maxAge)))
    {
      var index := SearchAges(ageCollection, today, AgeKey(minAge, MIN_INT));
      var indexFrom := -index - 1;
      index := SearchAges(ageCollection, today, AgeKey(maxAge, MAX_INT));
      var indexTo := -index - 1;
      r := SubList(ageCollection, indexFrom, indexTo);
      if NoSentinelIds(ageCollection) && minAge <= maxAge {
        AgeRangeExact(State(), today, minAge, maxAge);
      }
    }

    /** `find(lastName)`: the run of the last-name list between the insertion
        points of the two probes, or what `subList` throws. */
    method FindByLastName(lastName: string) returns (r: Result<seq<Person>>)
      requires Valid()
      ensures r == NameRange(State(), lastName)
      ensures NoSentinelIds(lastNameCollection) ==>
                r == Ok(Filter(lastNameCollection, NamedIgnoringCase(lastName)))
    {
      var index := SearchLastNames(lastNameCollection, NameKey(lastName, MIN_INT));
      var indexFrom := -index - 1;
      index := SearchLastNames(lastNameCollection, NameKey(lastName, MAX_INT));
      var indexTo := -index - 1;
      r := SubList(lastNameCollection, indexFrom, indexTo);
      if NoSentinelIds(lastNameCollection) {
        NameRangeExact(State(), lastName);
      }
    }

    /** `getAllPersonsSortedById`: every record once, ids ascending. */
    function AllSortedById(): (r: seq<Person>)
      reads this
      requires Valid()
      ensures forall i, j :: 0 <= i < j < |r| ==> r[i].id < r[j].id
      ensures multiset(r) == multiset(lastNameCollection) == multiset(ageCollection)
    {
      idCollection
    }

    /** `getAllPersonsSortedByAge`: every record once, by age and then id. */
    function AllSortedByAge(): (r: seq<Person>)
      reads this
      requires Valid()
      ensures forall i, j :: 0 <= i < j < |r| ==>
                r[i].Age(today) < r[j].Age(today) ||
                (r[i].Age(today) == r[j].Age(today) && r[i].id < r[j].id)
      ensures multiset(r) == multiset(idCollection) == multiset(lastNameCollection)
    {
      ageCollection
    }

    /** `getAllPersonsSortedByLastName`: every record once, by last name
        ignoring case and then id. */
    function AllSortedByLastName(): (r: seq<Person>)
      reads this
      requires Valid()
      ensures forall i, j :: 0 <= i < j < |r| ==>
                CompareIgnoreCase(r[i].lastName, r[j].lastName) < 0 ||
                (Folded(r[i].lastName) == Folded(r[j].lastName) && r[i].id < r[j].id)
      ensures multiset(r) == multiset(idCollection) == multiset(ageCollection)
    {
      SortedByName(lastNameCollection);
      lastNameCollection
    }

    /** `size`: the number of registered ids, which every list holds once each. */
    function Size(): (n: nat)
      reads this
      requires Valid()
      ensures n == |Ids(idCollection)|
      ensures n == |lastNameCollection| && n == |ageCollection|
    {
      SizeIsIdCount(State(), today);
      assert |multiset(lastNameCollection)| == |multiset(idCollection)|;
      assert |multiset(ageCollection)| == |multiset(idCollection)|;
      |idCollection|
    }
  }

  /** The three insertions of a successful `add`, each at the point the binary
      search reports. */
  method InsertEverywhere(v: Views, today: Date, p: Person) returns (w: Views)
    requires ValidViews(v, today) && p.id !in Ids(v.byId)
    ensures w == Added(v, Some(p), today)
  {
    var index := SearchIds(v.byId, p.id);
    index := if index >= 0 then index else -index - 1;
    assert index == LowerBound(v.byId, IdOf, CompareInt, IdOf(p));
    var ids := InsertAt(v.byId, index, p);
    index := SearchLastNames(v.byLastName, NameKeyOf(p));
    index := if index >= 0 then index else -index - 1;
    assert index == LowerBound(v.byLastName, NameKeyOf, CompareByLastName, NameKeyOf(p));
    var names := InsertAt(v.byLastName, index, p);
    index := SearchAges(v.byAge, today, AgeKeyOf(today)(p));
    index := if index >= 0 then index else -index - 1;
    assert index == LowerBound(v.byAge, AgeKeyOf(today), CompareByAge, AgeKeyOf(today)(p));
    var ages := InsertAt(v.byAge, index, p);
    assert Added(v, Some(p), today) == Views(ids, names, ages);
    w := Views(ids, names, ages);
  }

  /** `Collections.binarySearch(idCollection, probe)` on a list sorted by id. */
  method SearchIds(s: seq<Person>, id: int) returns (r: int)
    requires SortedBy(s, IdOf, CompareInt)
    ensures r == SearchResult(s, IdOf, CompareInt, id)
    ensures InsertionIndex(r) == LowerBound(s, IdOf, CompareInt, id)
    ensures r >= 0 ==> r < |s| && s[r].id == id
    ensures r < 0 ==> id !in Ids(s)
  {
    IdOrderIsStrict();
    SortedIsPartitioned(s, IdOf, CompareInt, id);
    r := BinarySearch(s, IdOf, CompareInt, id);
    SearchResultUnique(s, IdOf, CompareInt, id, r);
    if r < 0 {
      forall p | p in s ensures p.id != id {
        var k :| 0 <= k < |s| && s[k] == p;
        assert CompareInt(IdOf(s[k]), id) != 0;
      }
    }
  }

  /** `Collections.binarySearch(lastNameCollection, probe, lastNameComparator)`. */
  method SearchLastNames(s: seq<Person>, key: NameKey) returns (r: int)
    requires SortedBy(s, NameKeyOf, CompareByLastName)
    ensures r == SearchResult(s, NameKeyOf, CompareByLastName, key)
    ensures InsertionIndex(r) == LowerBound(s, NameKeyOf, CompareByLastName, key)
  {
    LastNameOrderIsStrict();
    SortedIsPartitioned(s, NameKeyOf, CompareByLastName, key);
    r := BinarySearch(s, NameKeyOf, CompareByLastName, key);
    SearchResultUnique(s, NameKeyOf, CompareByLastName, key, r);
  }

  /** `Collections.binarySearch(ageCollection, probe, ageComparator)`. */
  method SearchAges(s: seq<Person>, today: Date, key: AgeKey) returns (r: int)
    requires SortedBy(s, AgeKeyOf(today), CompareByAge)
    ensures r == SearchResult(s, AgeKeyOf(today), CompareByAge, key)
    ensures InsertionIndex(r) == LowerBound(s, AgeKeyOf(today), CompareByAge, key)
  {
    AgeOrderIsStrict();
    SortedIsPartitioned(s, AgeKeyOf(today), CompareByAge, key);
    r := BinarySearch(s, AgeKeyOf(today), CompareByAge, key);
    SearchResultUnique(s, AgeKeyOf(today), CompareByAge, key, r);
  }
}
