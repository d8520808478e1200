/** The registry's unit-test scenarios: five citizens added in turn, then each
    query and update, with the outcome the tests expect proved from the
    general properties of the model. Ages are taken on 1 January 2025, inside
    the window (1 December 2024 to 14 May 2026) in which the expected result of
    `find(20, 35)` holds. */
module CitizensScenarios {
  import opened JavaLang
  import opened Ordering
  import opened PersonModel
  import opened Registry

  const today := Date(2025, 1, 1)

  const alice := Person(1, "Alice", "Smith", Date(1990, 5, 15))
  const bob := Person(2, "Bob", "Johnson", Date(1985, 10, 20))
  const charlie := Person(3, "Charlie", "Brown", Date(1995, 3, 8))
  const david := Person(4, "David", "Williams", Date(2000, 7, 25))
  const eve := Person(5, "Eve", "Davis", Date(1988, 12, 1))
  const frank := Person(6, "Frank", "Miller", Date(1992, 2, 11))

  const people := [Some(alice), Some(bob), Some(charlie), Some(david), Some(eve)]

  lemma Ages()
    ensures alice.Age(today) == 34 && bob.Age(today) == 39 && charlie.Age(today) == 29
    ensures david.Age(today) == 24 && eve.Age(today) == 36
  {
  }

  /** When no id repeats, building from a list keeps every record of it. */
  lemma FirstsOfDistinct(xs: seq<Option<Person>>, p: Person)
    requires forall i, j :: 0 <= i < j < |xs| && xs[i].Some? && xs[j].Some? ==> xs[i].value.id != xs[j].value.id
    ensures FirstOfItsId(xs, p) <==> Some(p) in xs
  {
    if Some(p) in xs {
      var i :| 0 <= i < |xs| && xs[i] == Some(p);
      assert forall j :: 0 <= j < i ==> xs[j].None? || xs[j].value.id != p.id;
    }
  }

  /** The set-up registers exactly the five citizens. */
  lemma SetUpMembers(xs: seq<Option<Person>>, p: Person)
    requires xs == people
    ensures p in AddedAll(Views([], [], []), xs, today).byId <==> p in [alice, bob, charlie, david, eve]
  {
    AddedAllKeepsFirsts(xs, today, p);
    PeopleDistinct(xs);
    FirstsOfDistinct(xs, p);
  }

  lemma PeopleDistinct(xs: seq<Option<Person>>)
    requires xs == people
    ensures forall i, j :: 0 <= i < j < |xs| && xs[i].Some? && xs[j].Some? ==> xs[i].value.id != xs[j].value.id
    ensures forall p :: Some(p) in xs <==> p in [alice, bob, charlie, david, eve]
  {
  }

  lemma SortedIds()
    ensures SortedBy([alice, bob, charlie, david, eve], IdOf, CompareInt)
  {
  }

  lemma SortedNames()
    ensures SortedBy([charlie, eve, bob, alice, david], NameKeyOf, CompareByLastName)
  {
    SortedByInitials([charlie, eve, bob, alice, david], "bdjsw");
  }

  /** Last names whose folded first letters ascend are in last-name order. */
  lemma SortedByInitials(s: seq<Person>, initials: string)
    requires |s| == |initials|
    requires forall k :: 0 <= k < |s| ==> s[k].lastName != [] && FoldChar(s[k].lastName[0]) == initials[k]
    requires forall i, j :: 0 <= i < j < |initials| ==> initials[i] < initials[j]
    ensures SortedBy(s, NameKeyOf, CompareByLastName)
  {
    forall i, j | 0 <= i < j < |s| ensures CompareByLastName(NameKeyOf(s[i]), NameKeyOf(s[j])) < 0 {
      assert CompareIgnoreCase(s[i].lastName, s[j].lastName) < 0;
    }
  }

  lemma SortedAges()
    ensures SortedBy([david, charlie, alice, eve, bob], AgeKeyOf(today), CompareByAge)
  {
    Ages();
  }

  /** The three lists after the set-up, as `getAllPersonsSortedById`,
      `getAllPersonsSortedByLastName` and `getAllPersonsSortedByAge` expect them. */
  lemma SetUpOrders(xs: seq<Option<Person>>)
    requires xs == people
    ensures AddedAll(Views([], [], []), xs, today) == registered
  {
    SetUpById(xs);
    SetUpByLastName(xs);
    SetUpByAge(xs);
  }

  lemma SetUpById(xs: seq<Option<Person>>)
    requires xs == people
    ensures AddedAll(Views([], [], []), xs, today).byId == [alice, bob, charlie, david, eve]
  {
    var s := AddedAll(Views([], [], []), xs, today).byId;
    AddedAllValid(xs, today);
    assert SortedBy(s, IdOf, CompareInt);
    SortedIds();
    forall p ensures p in s <==> p in [alice, bob, charlie, david, eve] {
      SetUpMembers(xs, p);
    }
    IdOrderIsStrict();
    SortedUnique(s, [alice, bob, charlie, david, eve], IdOf, CompareInt);
  }

  lemma SetUpByLastName(xs: seq<Option<Person>>)
    requires xs == people
    ensures AddedAll(Views([], [], []), xs, today).byLastName == [charlie, eve, bob, alice, david]
  {
    var v := AddedAll(Views([], [], []), xs, today);
    AddedAllValid(xs, today);
    assert SortedBy(v.byLastName, NameKeyOf, CompareByLastName);
    SortedNames();
    forall p ensures p in v.byLastName <==> p in [charlie, eve, bob, alice, david] {
      SetUpMembers(xs, p);
      assert p in v.byLastName <==> p in multiset(v.byId);
    }
    LastNameOrderIsStrict();
    SortedUnique(v.byLastName, [charlie, eve, bob, alice, david], NameKeyOf, CompareByLastName);
  }

  lemma SetUpByAge(xs: seq<Option<Person>>)
    requires xs == people
    ensures AddedAll(Views([], [], []), xs, today).byAge == [david, charlie, alice, eve, bob]
  {
    var v := AddedAll(Views([], [], []), xs, today);
    AddedAllValid(xs, today);
    assert SortedBy(v.byAge, AgeKeyOf(today), CompareByAge);
    SortedAges();
    forall p ensures p in v.byAge <==> p in [david, charlie, alice, eve, bob] {
      SetUpMembers(xs, p);
      assert p in v.byAge <==> p in multiset(v.byId);
    }
    AgeOrderIsStrict();
    SortedUnique(v.byAge, [david, charlie, alice, eve, bob], AgeKeyOf(today), CompareByAge);
  }

  /** The lists the set-up produces, written out. */
  const registered := Views([alice, bob, charlie, david, eve],
                            [charlie, eve, bob, alice, david],
                            [david, charlie, alice, eve, bob])

  lemma RegisteredValid(v: Views)
    requires v == registered
    ensures ValidViews(v, today)
    ensures NoSentinelIds(v.byAge) && NoSentinelIds(v.byLastName)
  {
    assert ValidViews(v, today) by {
      var xs := people;
      AddedAllValid(xs, today);
      SetUpOrders(xs);
    }
    NoSentinelAmong(alice, bob, charlie, david, eve);
  }

  lemma NoSentinelAmong(a: Person, b: Person, c: Person, d: Person, e: Person)
    requires forall p :: p in {a, b, c, d, e} ==> 0 < p.id < 10
    ensures NoSentinelIds([c, e, b, a, d]) && NoSentinelIds([d, c, a, e, b])
  {
  }

  /** `find(20, 35)` gives David, Charlie, Alice; `find(10, 20)` gives nobody. */
  lemma FindByAgeScenario(v: Views)
    requires v == registered
    ensures AgeRange(v, today, 20, 35) == Ok([david, charlie, alice])
    ensures AgeRange(v, today, 10, 20) == Ok([])
  {
    RegisteredValid(v);
    AgeRangeExact(v, today, 20, 35);
    AgeRangeExact(v, today, 10, 20);
    AgedRuns(v);
  }

  lemma AgedRuns(v: Views)
    requires v == registered
    ensures Filter(v.byAge, AgedBetween(today, 20, 35)) == [david, charlie, alice]
    ensures Filter(v.byAge, AgedBetween(today, 10, 20)) == []
  {
    Ages();
    AgedTwentiesToMidThirties(v.byAge);
    AgedTeens(v.byAge);
  }

  lemma AgedTwentiesToMidThirties(s: seq<Person>)
    requires s == registered.byAge
    requires alice.Age(today) == 34 && bob.Age(today) == 39 && charlie.Age(today) == 29
    requires david.Age(today) == 24 && eve.Age(today) == 36
    ensures Filter(s, AgedBetween(today, 20, 35)) == [david, charlie, alice]
  {
    var P := AgedBetween(today, 20, 35);
    assert P(david) && P(charlie) && P(alice) && !P(eve) && !P(bob);
    assert Filter([bob], P) == [];
    assert Filter([eve, bob], P) == [];
    assert Filter([alice, eve, bob], P) == [alice];
    assert Filter([charlie, alice, eve, bob], P) == [charlie, alice];
  }

  lemma AgedTeens(s: seq<Person>)
    requires s == registered.byAge
    requires alice.Age(today) == 34 && bob.Age(today) == 39 && charlie.Age(today) == 29
    requires david.Age(today) == 24 && eve.Age(today) == 36
    ensures Filter(s, AgedBetween(today, 10, 20)) == []
  {
    var P := AgedBetween(today, 10, 20);
    assert !P(david) && !P(charlie) && !P(alice) && !P(eve) && !P(bob);
    assert Filter([bob], P) == [];
    assert Filter([eve, bob], P) == [];
    assert Filter([alice, eve, bob], P) == [];
    assert Filter([charlie, alice, eve, bob], P) == [];
  }

  /** `find("Johnson")` gives Bob; `find("Doe")` gives nobody. */
  lemma FindByLastNameScenario(v: Views)
    requires v == registered
    ensures NameRange(v, "Johnson") == Ok([bob])
    ensures NameRange(v, "Doe") == Ok([])
  {
    RegisteredValid(v);
    NameRangeExact(v, "Johnson");
    NameRangeExact(v, "Doe");
    NamedRuns(v);
  }

  lemma NamedRuns(v: Views)
    requires v == registered
    ensures Filter(v.byLastName, NamedIgnoringCase("Johnson")) == [bob]
    ensures Filter(v.byLastName, NamedIgnoringCase("Doe")) == []
  {
    NamedJohnson(v.byLastName);
    NamedDoe(v.byLastName);
  }

  lemma NamedJohnson(s: seq<Person>)
    requires s == registered.byLastName
    ensures Filter(s, NamedIgnoringCase("Johnson")) == [bob]
  {
    var P := NamedIgnoringCase("Johnson");
    assert !P(charlie) && !P(eve) && P(bob) && !P(alice) && !P(david);
    assert Filter([david], P) == [];
    assert Filter([alice, david], P) == [];
    assert Filter([bob, alice, david], P) == [bob];
    assert Filter([eve, bob, alice, david], P) == [bob];
  }

  lemma NamedDoe(s: seq<Person>)
    requires s == registered.byLastName
    ensures Filter(s, NamedIgnoringCase("Doe")) == []
  {
    var P := NamedIgnoringCase("Doe");
    assert !P(charlie) && !P(eve) && !P(bob) && !P(alice) && !P(david);
    assert Filter([david], P) == [];
    assert Filter([alice, david], P) == [];
    assert Filter([bob, alice, david], P) == [];
    assert Filter([eve, bob, alice, david], P) == [];
  }

  /** `find(1)` gives Alice; `find(1111)` gives null. */
  lemma FindByIdScenario(v: Views)
    requires v == registered
    ensures PersonWithId(v.byId, 1) == Some(alice)
    ensures PersonWithId(v.byId, 1111) == None
  {
    assert 1111 !in Ids(v.byId);
  }

  /** Adding Frank succeeds and makes six; adding him again, or null, changes
      nothing. */
  lemma AddScenario(v: Views)
    requires v == registered
    ensures var w := Added(v, Some(frank), today);
            w != v && |w.byId| == 6 &&
            Added(w, Some(frank), today) == w && Added(w, None, today) == w
  {
    RegisteredValid(v);
    FrankIsNew(v);
    AddedTwice(v, frank, today);
  }

  lemma FrankIsNew(v: Views)
    requires v == registered
    ensures frank.id !in Ids(v.byId) && |v.byId| == 5
  {
  }

  /** A new record is taken once; offering it again, or offering null, then
      changes nothing. */
  lemma AddedTwice(v: Views, p: Person, today: Date)
    requires ValidViews(v, today) && p.id !in Ids(v.byId)
    ensures var w := Added(v, Some(p), today);
            w != v && |w.byId| == |v.byId| + 1 &&
            Added(w, Some(p), today) == w && Added(w, None, today) == w
  {
    AddedKeepsValid(v, Some(p), today);
    var w := Added(v, Some(p), today);
    assert p.id in Ids(w.byId);
    AddedKeepsValid(w, Some(p), today);
    AddedKeepsValid(w, None, today);
  }

  /** Removing id 1 succeeds and leaves four; removing it again changes nothing. */
  lemma RemoveScenario(v: Views)
    requires v == registered
    ensures var w := Removed(v, 1);
            w != v && |w.byId| == 4 && Removed(w, 1) == w
  {
    RegisteredValid(v);
    assert alice in v.byId;
    RemovedKeepsValid(v, 1, today);
  }
}
