/** A contact of the address book (clipack/classes.py, `Record`): a name
    that never changes, an ordered list of phone numbers and four optional
    single-valued fields, each holding only values its field validator
    accepts. Every mutator either completes or raises `ValueError` and
    leaves the record as it was. */
module Contact {
  import opened Base
  import opened Text
  import opened Seqs
  import opened Calendar
  import opened Fields

  /** What `Record.__str__` shows: a summary of every field. */
  datatype Snapshot = Snapshot(
    name: string,
    secondName: Option<string>,
    phones: seq<string>,
    birthday: Option<Date>,
    email: Option<string>,
    address: Option<string>)

  /** What one line of `AddressBook.find_info` shows: name, phones and
      birthday. */
  datatype InfoLine = InfoLine(name: string, phones: seq<string>, birthday: Option<Date>)

  // ---------------------------------------------------------------------
  // days_to_birthday, with the current date as a parameter

  /** `Record.days_to_birthday` on a day `today`: no value without a
      birthday; otherwise the days from `today` to the same month and day
      this year, or next year once that has passed. `replace(year=…)`
      raises `ValueError` when the month and day are no date of the target
      year (29 February of a non-leap year, or the year 10000). */
  function DaysUntil(birthday: Option<Date>, today: Date): Result<Option<int>>
    requires ValidDate(today)
  {
    match birthday
    case None => Ok(None)
    case Some(b) =>
      match ReplaceYear(b, today.year)
      case None => Err(ValueError)
      case Some(u) =>
        var delta := Ordinal(u) - Ordinal(today);
        if delta >= 0 then Ok(Some(delta))
        else
          match ReplaceYear(b, today.year + 1)
          case None => Err(ValueError)
          case Some(v) => Ok(Some(Ordinal(v) - Ordinal(today)))
  }

  predicate IsLeapDay(d: Date) {
    d.month == 2 && d.day == 29
  }

  /** The date on which the birthday `b` next falls, on or after `today`. */
  function NextBirthday(b: Date, today: Date): Date {
    Date(if MonthDayBefore(b, today) then today.year + 1 else today.year, b.month, b.day)
  }

  lemma LeapYearsApart(y: int)
    requires IsLeap(y)
    ensures !IsLeap(y + 1)
  {
  }

  lemma SameMonthDayValid(b: Date, y: int)
    requires ValidDate(b) && MinYear <= y <= MaxYear
    ensures ValidDate(Date(y, b.month, b.day)) <==> !(IsLeapDay(b) && !IsLeap(y))
  {
  }

  /** No birthday, no count. */
  lemma DaysUntilNone(today: Date)
    requires ValidDate(today)
    ensures DaysUntil(None, today) == Ok(None)
  {
  }

  /** Exactly when the count raises: a 29 February birthday in a year
      without one, or a birthday already past this year whose date next
      year does not exist (29 February again, or the year after 9999). */
  lemma DaysUntilErrIff(b: Date, today: Date)
    requires ValidDate(b) && ValidDate(today)
    ensures DaysUntil(Some(b), today).Err? <==>
      (IsLeapDay(b) && !IsLeap(today.year))
      || (MonthDayBefore(b, today) && (IsLeapDay(b) || today.year == MaxYear))
    ensures DaysUntil(Some(b), today).Err? ==> DaysUntil(Some(b), today).error == ValueError
  {
    var y := today.year;
    SameMonthDayValid(b, y);
    if ValidDate(Date(y, b.month, b.day)) {
      var u := Date(y, b.month, b.day);
      SameYearOrder(u, today);
      if MonthDayBefore(b, today) && y < MaxYear {
        SameMonthDayValid(b, y + 1);
        if IsLeapDay(b) {
          LeapYearsApart(y);
        }
      }
    }
  }

  /** When the count succeeds it is the number of days from `today` to the
      next occurrence of the birthday, a real date not before `today`. */
  lemma DaysUntilReachesNext(b: Date, today: Date)
    requires ValidDate(b) && ValidDate(today)
    requires DaysUntil(Some(b), today).Ok?
    ensures DaysUntil(Some(b), today).value.Some?
    ensures var n := NextBirthday(b, today);
      ValidDate(n) && n.month == b.month && n.day == b.day
      && DaysUntil(Some(b), today).value.value == Ordinal(n) - Ordinal(today) >= 0
  {
    var y := today.year;
    var u := Date(y, b.month, b.day);
    SameYearOrder(u, today);
    if MonthDayBefore(b, today) {
      var v := Date(y + 1, b.month, b.day);
      EarlierYear(today, v);
    }
  }

  /** No date with the birthday's month and day lies between `today` and
      the counted one: the count is the distance to the EARLIEST such date. */
  lemma DaysUntilEarliest(b: Date, today: Date, e: Date)
    requires ValidDate(b) && ValidDate(today) && ValidDate(e)
    requires DaysUntil(Some(b), today).Ok?
    requires e.month == b.month && e.day == b.day && Ordinal(e) >= Ordinal(today)
    ensures DaysUntil(Some(b), today).value.Some?
    ensures Ordinal(e) - Ordinal(today) >= DaysUntil(Some(b), today).value.value
  {
    DaysUntilReachesNext(b, today);
    var n := NextBirthday(b, today);
    if e.year < today.year {
      EarlierYear(e, today);
    } else if e.year == today.year {
      SameYearOrder(e, today);
    } else if e.year < n.year {
      // n is next year and e lies strictly between this year and next
    } else if n.year < e.year {
      EarlierYear(n, e);
    }
  }

  /** The count is 0 exactly on the birthday itself. */
  lemma DaysUntilZeroIff(b: Date, today: Date)
    requires ValidDate(b) && ValidDate(today)
    requires DaysUntil(Some(b), today).Ok?
    ensures DaysUntil(Some(b), today).value.Some?
    ensures DaysUntil(Some(b), today).value.value == 0 <==> (b.month == today.month && b.day == today.day)
  {
    DaysUntilReachesNext(b, today);
    var n := NextBirthday(b, today);
    if n.year == today.year {
      SameYearOrder(n, today);
    } else {
      EarlierYear(today, n);
    }
  }

  /** Differences of day-of-year between a year and the next one. */
  lemma DaysBeforeMonthNextYear(y: int, m: int)
    requires 1 <= m <= 12
    ensures DaysBeforeMonth(y + 1, m) <= DaysBeforeMonth(y, m) + 1
    ensures IsLeap(y) ==> DaysBeforeMonth(y + 1, m) + (if m > 2 then 1 else 0) == DaysBeforeMonth(y, m)
  {
    if IsLeap(y) {
      LeapYearsApart(y);
    }
  }

  /** A birthday already past this year is at most a year away. */
  lemma NextYearWithinYear(v: Date, today: Date)
    requires ValidDate(v) && ValidDate(today) && v.year == today.year + 1
    requires MonthDayBefore(v, today)
    ensures Ordinal(v) - Ordinal(today) <= 365
  {
    NextYearOrdinal(today, v);
    DaysBeforeMonthNextYear(today.year, today.month);
    if v.month < today.month {
      DaysBeforeMonthMonotone(v.year, v.month, today.month);
    }
    if IsLeap(today.year) {
      LeapYearsApart(today.year);
      if v.month < today.month {
        assert DaysBeforeMonth(today.year, today.month) >= DaysBeforeMonth(v.year, today.month);
      }
    }
  }

  /** The count always lies in 0..365. */
  lemma DaysUntilRange(b: Date, today: Date)
    requires ValidDate(b) && ValidDate(today)
    requires DaysUntil(Some(b), today).Ok?
    ensures DaysUntil(Some(b), today).value.Some?
    ensures 0 <= DaysUntil(Some(b), today).value.value <= 365
  {
    DaysUntilReachesNext(b, today);
    var n := NextBirthday(b, today);
    if n.year == today.year {
      DayOfYearBounds(n);
      DayOfYearBounds(today);
    } else {
      NextYearWithinYear(n, today);
    }
  }

  // ---------------------------------------------------------------------
  // remove_phone

  /** `remove_phone(x)` as the source runs it: it removes from the list
      it is iterating over, so the element that moves into the place of a
      removed one is never looked at. */
  function RemoveScan(s: seq<string>, x: string): (r: seq<string>)
    ensures |r| <= |s|
  {
    if s == [] then []
    else if s[0] == x then
      if |s| == 1 then [] else [s[1]] + RemoveScan(s[2..], x)
    else [s[0]] + RemoveScan(s[1..], x)
  }

  /** No two copies of `x` stand next to each other. */
  predicate NoAdjacentCopies(s: seq<string>, x: string) {
    forall i :: 0 <= i < |s| - 1 && s[i] == x ==> s[i + 1] != x
  }

  /** The test `y != x`, as a function to filter with. */
  function Except(x: string): string -> bool {
    y => y != x
  }

  /** Removing keeps every other number, in order. */
  lemma {:induction false} RemoveScanKeepsOthers(s: seq<string>, x: string)
    ensures Filter(RemoveScan(s, x), Except(x)) == Filter(s, Except(x))
  {
    var p := Except(x);
    if s != [] {
      if s[0] == x {
        if |s| > 1 {
          RemoveScanKeepsOthers(s[2..], x);
          FilterConcat([s[1]], RemoveScan(s[2..], x), p);
          FilterConcat([s[1]], s[2..], p);
          assert s[1..] == [s[1]] + s[2..];
        }
      } else {
        RemoveScanKeepsOthers(s[1..], x);
        FilterConcat([s[0]], RemoveScan(s[1..], x), p);
      }
    }
  }

  /** A copy of `x` survives the removal exactly when two copies are
      adjacent. */
  lemma {:induction false} RemoveScanLeavesCopyIff(s: seq<string>, x: string)
    ensures x in RemoveScan(s, x) <==> !NoAdjacentCopies(s, x)
  {
    if s != [] {
      if s[0] == x {
        if |s| > 1 {
          RemoveScanLeavesCopyIff(s[2..], x);
          if !NoAdjacentCopies(s[2..], x) {
            var i :| 0 <= i < |s[2..]| - 1 && s[2..][i] == x && s[2..][i + 1] == x;
            assert s[i + 2] == x && s[i + 3] == x;
          }
          if s[1] != x && !NoAdjacentCopies(s, x) {
            var i :| 0 <= i < |s| - 1 && s[i] == x && s[i + 1] == x;
            assert i >= 2;
            assert s[2..][i - 2] == x && s[2..][i - 1] == x;
          }
        }
      } else {
        RemoveScanLeavesCopyIff(s[1..], x);
        if !NoAdjacentCopies(s[1..], x) {
          var i :| 0 <= i < |s[1..]| - 1 && s[1..][i] == x && s[1..][i + 1] == x;
          assert s[i + 1] == x && s[i + 2] == x;
        }
        if !NoAdjacentCopies(s, x) {
          var i :| 0 <= i < |s| - 1 && s[i] == x && s[i + 1] == x;
          assert i >= 1;
          assert s[1..][i - 1] == x && s[1..][i] == x;
        }
      }
    }
  }

  /** Without adjacent copies, and so on a list of distinct numbers, the
      removal drops every copy of `x` and nothing else. */
  lemma RemoveScanNoAdjacent(s: seq<string>, x: string)
    requires NoAdjacentCopies(s, x)
    ensures RemoveScan(s, x) == Filter(s, Except(x))
  {
    var r := RemoveScan(s, x);
    RemoveScanLeavesCopyIff(s, x);
    RemoveScanKeepsOthers(s, x);
    FilterAll(r, Except(x));
  }

  /** A number that is not on the list: nothing changes. */
  lemma {:induction false} RemoveScanAbsent(s: seq<string>, x: string)
    requires x !in s
    ensures RemoveScan(s, x) == s
  {
    if s != [] {
      assert s[0] != x;
      RemoveScanAbsent(s[1..], x);
    }
  }

  /** What the removal loop will have left once it finishes, when it has
      reached position `i` of the current list `p`. */
  function ScanState(p: seq<string>, i: nat, x: string): seq<string> {
    if i <= |p| then p[..i] + RemoveScan(p[i..], x) else p
  }

  /** The loop starts with the whole scan ahead and ends with none. */
  lemma ScanStateEnds(p: seq<string>, x: string)
    ensures ScanState(p, 0, x) == RemoveScan(p, x)
    ensures ScanState(p, |p|, x) == p
  {
    assert p[0..] == p;
    assert p[..|p|] == p;
  }

  /** One step of the removal loop at a copy of `x`: the list loses
      position `i` and the scan moves past the element that took its
      place. */
  lemma RemoveStepMatch(p: seq<string>, i: nat, x: string)
    requires i < |p| && p[i] == x
    ensures ScanState(p[..i] + p[i + 1..], i + 1, x) == ScanState(p, i, x)
  {
    var q := p[..i] + p[i + 1..];
    if i + 1 < |p| {
      var t := p[i..];
      assert t[0] == x && |t| > 1;
      assert t[1] == p[i + 1];
      assert t[2..] == p[i + 2..];
      assert RemoveScan(t, x) == [p[i + 1]] + RemoveScan(p[i + 2..], x);
      assert q[..i + 1] == p[..i] + [p[i + 1]];
      assert q[i + 1..] == p[i + 2..];
    } else {
      assert p[i..] == [x];
      assert q == p[..i];
    }
  }

  /** One step of the removal loop at any other element. */
  lemma RemoveStepOther(p: seq<string>, i: nat, x: string)
    requires i < |p| && p[i] != x
    ensures ScanState(p, i + 1, x) == ScanState(p, i, x)
  {
    assert p[i..] == [p[i]] + p[i + 1..];
    assert p[..i + 1] == p[..i] + [p[i]];
  }

  /** Dropping one number from a list of valid numbers leaves valid
      numbers. */
  lemma PhonesValidDrop(p: seq<string>, i: nat)
    requires i < |p| && PhonesValid(p)
    ensures PhonesValid(p[..i] + p[i + 1..])
  {
    var q := p[..i] + p[i + 1..];
    forall k | 0 <= k < |q|
      ensures PhoneValid(q[k])
    {
      if k < i {
        assert q[k] == p[k];
      } else {
        assert q[k] == p[k + 1];
      }
    }
  }

  lemma DistinctNoAdjacent(s: seq<string>, x: string)
    requires Distinct(s)
    ensures NoAdjacentCopies(s, x)
  {
  }

  // ---------------------------------------------------------------------
  // Record

  /** Every number on the list is a valid phone number. */
  predicate PhonesValid(s: seq<string>) {
    forall i :: 0 <= i < |s| ==> PhoneValid(s[i])
  }

  class Record {
    const name: string
    var secondName: Option<string>
    var phones: seq<string>
    var birthday: Option<Date>
    var email: Option<string>
    var address: Option<string>

    /** Every stored field holds a value its validator accepts. */
    ghost predicate Valid()
      reads this
    {
      FirstNameValid(name)
      && SecondNameValid(secondName)
      && PhonesValid(phones)
      && (birthday.Some? ==> ValidDate(birthday.value))
      && EmailValid(email)
    }

    constructor (name: string, secondName: Option<string>, birthday: Option<Date>,
                 email: Option<string>, address: Option<string>)
      requires FirstNameValid(name) && SecondNameValid(secondName)
      requires birthday.Some? ==> ValidDate(birthday.value)
      requires EmailValid(email)
      ensures Valid()
      ensures this.name == name && this.secondName == secondName && this.phones == []
      ensures this.birthday == birthday && this.email == email && this.address == address
    {
      this.name := name;
      this.secondName := secondName;
      this.phones := [];
      this.birthday := birthday;
      this.email := email;
      this.address := address;
    }

    /** `Record(name, birthday, address, email, secondname)`: a record with
        no phones when every field is accepted, `ValueError` otherwise. */
    static method Create(name: string, birthday: Option<string>, address: Option<string>,
                         email: Option<string>, secondName: Option<string>)
      returns (r: Result<Record>)
      ensures r.Ok? <==> FirstNameValid(name) && BirthdayValid(birthday) && EmailValid(email) && SecondNameValid(secondName)
      ensures r.Err? ==> r.error == ValueError
      ensures r.Ok? ==> fresh(r.value) && r.value.Valid()
      ensures r.Ok? ==> r.value.name == name && r.value.phones == [] && r.value.secondName == secondName
      ensures r.Ok? ==> r.value.birthday == NewBirthday(birthday).value && r.value.email == email && r.value.address == address
    {
      var n := NewFirstName(name);
      if n.Err? {
        return Err(n.error);
      }
      var b := NewBirthday(birthday);
      if b.Err? {
        return Err(b.error);
      }
      var e := NewEmail(email);
      if e.Err? {
        return Err(e.error);
      }
      var s := NewSecondName(secondName);
      if s.Err? {
        return Err(s.error);
      }
      var rec := new Record(n.value, s.value, b.value, e.value, address);
      return Ok(rec);
    }

    function Snap(): Snapshot
      reads this
    {
      Snapshot(name, secondName, phones, birthday, email, address)
    }

    function Info(): InfoLine
      reads this
    {
      InfoLine(name, phones, birthday)
    }

    /** `days_to_birthday` on the day `today`. */
    function DaysToBirthday(today: Date): Result<Option<int>>
      reads this
      requires ValidDate(today)
    {
      DaysUntil(birthday, today)
    }

    /** `add_birthday`: only a record without a birthday takes one. */
    method AddBirthday(s: Option<string>) returns (o: Outcome)
      requires Valid()
      modifies this`birthday
      ensures Valid()
      ensures o.Pass? <==> old(birthday).None? && BirthdayValid(s)
      ensures o.Pass? ==> birthday == NewBirthday(s).value
      ensures o.Fail? ==> o.error == ValueError && birthday == old(birthday)
    {
      if birthday.None? {
        var b := NewBirthday(s);
        if b.Err? {
          return Fail(b.error);
        }
        birthday := b.value;
        return Pass;
      }
      return Fail(ValueError);
    }

    /** `add_phone`: a number already on the list or not of ten digits is
        refused; any other is appended. */
    method AddPhone(number: string) returns (o: Outcome)
      requires Valid()
      modifies this`phones
      ensures Valid()
      ensures o.Pass? <==> number !in old(phones) && PhoneValid(number)
      ensures o.Pass? ==> phones == old(phones) + [number]
      ensures o.Fail? ==> o.error == ValueError && phones == old(phones)
      ensures Distinct(old(phones)) ==> Distinct(phones)
    {
      var i := 0;
      while i < |phones|
        invariant 0 <= i <= |phones|
        invariant number !in phones[..i]
      {
        if phones[i] == number {
          return Fail(ValueError);
        }
        i := i + 1;
      }
      assert phones[..i] == phones;
      var p := NewPhone(number);
      if p.Err? {
        return Fail(p.error);
      }
      phones := phones + [p.value];
      return Pass;
    }

    /** `remove_phone`: the source's loop, which skips the element after
        each one it removes. */
    method RemovePhone(number: string)
      requires Valid()
      modifies this`phones
      ensures Valid()
      ensures phones == RemoveScan(old(phones), number)
    {
      var i := 0;
      ScanStateEnds(phones, number);
      while i < |phones|
        invariant i <= |phones| + 1
        invariant ScanState(phones, i, number) == RemoveScan(old(phones), number)
        invariant PhonesValid(phones)
        decreases |phones| + 1 - i
      {
        if phones[i] == number {
          RemoveStepMatch(phones, i, number);
          PhonesValidDrop(phones, i);
          phones := phones[..i] + phones[i + 1..];
        } else {
          RemoveStepOther(phones, i, number);
        }
        i := i + 1;
      }
      ScanStateEnds(phones, number);
    }

    /** `edit_phone`: the first copy of `oldNumber` becomes `newNumber`;
        raises when `oldNumber` is not on the list or `newNumber` is not a
        phone number. `newNumber` may already be on the list. */
    method EditPhone(oldNumber: string, newNumber: string) returns (o: Outcome)
      requires Valid()
      modifies this`phones
      ensures Valid()
      ensures o.Pass? <==> oldNumber in old(phones) && PhoneValid(newNumber)
      ensures o.Pass? ==> |phones| == |old(phones)|
      ensures o.Pass? ==> phones == old(phones)[IndexOf(old(phones), oldNumber) := newNumber]
      ensures o.Fail? ==> o.error == ValueError && phones == old(phones)
    {
      var i := 0;
      while i < |phones|
        invariant 0 <= i <= |phones|
        invariant oldNumber !in phones[..i]
      {
        if phones[i] == oldNumber {
          var p := NewPhone(newNumber);
          if p.Err? {
            return Fail(p.error);
          }
          assert IndexOf(phones, oldNumber) == i by {
            assert forall k :: 0 <= k < i ==> phones[k] in phones[..i];
          }
          phones := phones[i := p.value];
          return Pass;
        }
        i := i + 1;
      }
      assert phones[..i] == phones;
      return Fail(ValueError);
    }

    /** `find_phone`: the position of the first phone equal to `number`
        (the source returns the phone object found there), or `None`. */
    method FindPhone(number: string) returns (r: Option<nat>)
      ensures r.Some? <==> number in phones
      ensures r.Some? ==> r.value < |phones| && phones[r.value] == number && number !in phones[..r.value]
    {
      var i := 0;
      while i < |phones|
        invariant 0 <= i <= |phones|
        invariant number !in phones[..i]
      {
        if phones[i] == number {
          return Some(i);
        }
        i := i + 1;
      }
      assert phones[..i] == phones;
      return None;
    }

    /** `add_email`: replaces the e-mail address when the new one is
        accepted. */
    method AddEmail(e: Option<string>) returns (o: Outcome)
      requires Valid()
      modifies this`email
      ensures Valid()
      ensures o.Pass? <==> EmailValid(e)
      ensures email == (if o.Pass? then e else old(email))
      ensures o.Fail? ==> o.error == ValueError
    {
      var v := NewEmail(e);
      if v.Err? {
        return Fail(v.error);
      }
      email := v.value;
      return Pass;
    }

    /** `edit_email`: only when `current` is the stored address. */
    method EditEmail(current: Option<string>, e: Option<string>) returns (o: Outcome)
      requires Valid()
      modifies this`email
      ensures Valid()
      ensures o.Pass? <==> old(email) == current && EmailValid(e)
      ensures email == (if o.Pass? then e else old(email))
      ensures o.Fail? ==> o.error == ValueError
    {
      if email != current {
        return Fail(ValueError);
      }
      var v := NewEmail(e);
      if v.Err? {
        return Fail(v.error);
      }
      email := v.value;
      return Pass;
    }

    /** `remove_email`. */
    method RemoveEmail()
      requires Valid()
      modifies this`email
      ensures Valid()
      ensures email.None?
    {
      email := None;
    }

    /** `add_address` and `edit_address`, which do the same: an address is
        not validated. */
    method SetAddress(a: Option<string>)
      requires Valid()
      modifies this`address
      ensures Valid()
      ensures address == a
    {
      address := a;
    }

    /** `remove_address`. */
    method RemoveAddress()
      requires Valid()
      modifies this`address
      ensures Valid()
      ensures address.None?
    {
      address := None;
    }

    /** `add_secondname`: only a record without a second name takes one. */
    method AddSecondName(s: Option<string>) returns (o: Outcome)
      requires Valid()
      modifies this`secondName
      ensures Valid()
      ensures o.Pass? <==> old(secondName).None? && SecondNameValid(s)
      ensures secondName == (if o.Pass? then s else old(secondName))
      ensures o.Fail? ==> o.error == ValueError
    {
      if secondName.None? {
        var v := NewSecondName(s);
        if v.Err? {
          return Fail(v.error);
        }
        secondName := v.value;
        return Pass;
      }
      return Fail(ValueError);
    }

    /** `edit_secondname`: refused when the new value is the stored one. */
    method EditSecondName(s: Option<string>) returns (o: Outcome)
      requires Valid()
      modifies this`secondName
      ensures Valid()
      ensures o.Pass? <==> old(secondName) != s && SecondNameValid(s)
      ensures secondName == (if o.Pass? then s else old(secondName))
      ensures o.Fail? ==> o.error == ValueError
    {
      if secondName == s {
        return Fail(ValueError);
      }
      var v := NewSecondName(s);
      if v.Err? {
        return Fail(v.error);
      }
      secondName := v.value;
      return Pass;
    }
  }
}
