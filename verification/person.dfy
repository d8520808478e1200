/** A citizen record: a fixed id and birth date, two names that setters may
    replace, and identity, hashing and natural order all by id. */
module PersonModel {
  import opened JavaLang
  import Ordering

  /** A calendar date, as `java.time.LocalDate` holds it. */
  datatype Date = Date(year: int, month: int, day: int)

  predicate ValidDate(d: Date) {
    1 <= d.month <= 12 && 1 <= d.day <= 31
  }

  /** Strictly earlier in the calendar. */
  predicate Before(d: Date, e: Date) {
    d.year < e.year || (d.year == e.year && (d.month < e.month || (d.month == e.month && d.day < e.day)))
  }

  function ProlepticMonth(d: Date): int {
    d.year * 12 + d.month - 1
  }

  /** `ChronoUnit.YEARS.between(start, end)`: whole months between the dates
      (month count times 32 plus day, differenced and divided by 32), then
      whole years, both divisions truncating toward zero as Java's do. */
  function YearsBetween(start: Date, end: Date): int {
    var packedStart := ProlepticMonth(start) * 32 + start.day;
    var packedEnd := ProlepticMonth(end) * 32 + end.day;
    JavaDiv(JavaDiv(packedEnd - packedStart, 32), 12)
  }

  /** For a birth date no later than `today`, the age is the number of
      birthdays that have come round: the difference of the years, less one
      when this year's birthday is still ahead. */
  lemma AgeIsCompletedYears(birth: Date, today: Date)
    requires ValidDate(birth) && ValidDate(today) && !Before(today, birth)
    ensures YearsBetween(birth, today) ==
            today.year - birth.year -
            (if today.month < birth.month || (today.month == birth.month && today.day < birth.day) then 1 else 0)
  {
    var m := 12 * (today.year - birth.year) + (today.month - birth.month);
    var late := if today.day < birth.day then 1 else 0;
    var diff := (ProlepticMonth(today) * 32 + today.day) - (ProlepticMonth(birth) * 32 + birth.day);
    assert diff == 32 * m + (today.day - birth.day);
    assert m >= 0 && (m == 0 ==> today.day >= birth.day);
    assert diff >= 0;
    assert diff / 32 == m - late;
    var y := today.year - birth.year;
    var ahead := if today.month < birth.month || (today.month == birth.month && today.day < birth.day) then 1 else 0;
    assert m - late == 12 * (y - ahead) + (today.month - birth.month - late + 12 * ahead);
    assert 0 <= today.month - birth.month - late + 12 * ahead < 12;
  }

  datatype Person = Person(id: int32, firstName: string, lastName: string, birthDate: Date)
  {
    /** `equals`: the same id, whatever the names and birth date. */
    predicate Equals(other: Person) {
      id == other.id
    }

    /** `hashCode`: the id itself. */
    function HashCode(): int32 {
      id
    }

    /** `compareTo`: ascending by id. */
    function CompareTo(other: Person): int {
      CompareInt(id, other.id)
    }

    /** `getAge` evaluated on the fixed date `today`. */
    function Age(today: Date): int {
      YearsBetween(birthDate, today)
    }

    /** `setFirstName`: the record with only the first name replaced. */
    function SetFirstName(name: string): (p: Person)
      ensures p.firstName == name
      ensures p.id == id && p.lastName == lastName && p.birthDate == birthDate
    {
      this.(firstName := name)
    }

    /** `setLastName`: the record with only the last name replaced. */
    function SetLastName(name: string): (p: Person)
      ensures p.lastName == name
      ensures p.id == id && p.firstName == firstName && p.birthDate == birthDate
    {
      this.(lastName := name)
    }
  }

  /** Equality is an equivalence decided by the id alone; in particular a
      record stays equal to itself after either name is replaced. */
  lemma EqualsIsIdEquality(p: Person, q: Person, first: string, last: string)
    ensures p.Equals(q) <==> p.id == q.id
    ensures p.Equals(p) && (p.Equals(q) ==> q.Equals(p))
    ensures p.Equals(p.SetFirstName(first).SetLastName(last))
  {
  }

  /** Equal records have equal hash codes. */
  lemma HashCodeAgreesWithEquals(p: Person, q: Person)
    ensures p.Equals(q) ==> p.HashCode() == q.HashCode()
  {
  }

  /** The natural order is consistent with equals and orders by ascending id. */
  lemma CompareToAgreesWithEquals(p: Person, q: Person)
    ensures p.CompareTo(q) == 0 <==> p.Equals(q)
    ensures p.CompareTo(q) < 0 <==> p.id < q.id
    ensures p.CompareTo(q) < 0 <==> q.CompareTo(p) > 0
  {
  }

  /** The natural order is a strict total order on ids. */
  lemma CompareToIsStrictOrder()
    ensures Ordering.IsStrictOrder((p: Person, q: Person) => p.CompareTo(q))
  {
  }
}
