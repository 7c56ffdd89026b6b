/** The address book (clipack/classes.py, `AddressBook`): records keyed by
    their name, in insertion order (a Python `dict` keeps that order), with
    the queries the command line uses. */
module Book {
  import opened Base
  import opened Text
  import opened Seqs
  import opened Calendar
  import opened Contact

  // ---------------------------------------------------------------------
  // Views of a sequence of records

  function RecordsOf(ks: seq<string>, d: map<string, Record>): (rs: seq<Record>)
    requires forall k :: k in ks ==> k in d
    ensures |rs| == |ks|
  {
    seq(|ks|, i requires 0 <= i < |ks| => d[ks[i]])
  }

  function InfosOf(rs: seq<Record>): (ls: seq<InfoLine>)
    reads rs
    ensures |ls| == |rs|
  {
    if rs == [] then [] else [rs[0].Info()] + InfosOf(rs[1..])
  }

  lemma {:induction false} InfosOfAt(rs: seq<Record>, i: nat)
    requires i < |rs|
    ensures InfosOf(rs)[i] == rs[i].Info()
  {
    if i > 0 {
      InfosOfAt(rs[1..], i - 1);
    }
  }

  function SnapsOf(rs: seq<Record>): (ss: seq<Snapshot>)
    reads rs
    ensures |ss| == |rs|
  {
    if rs == [] then [] else [rs[0].Snap()] + SnapsOf(rs[1..])
  }

  lemma {:induction false} SnapsOfAt(rs: seq<Record>, i: nat)
    requires i < |rs|
    ensures SnapsOf(rs)[i] == rs[i].Snap()
  {
    if i > 0 {
      SnapsOfAt(rs[1..], i - 1);
    }
  }

  function Names(ls: seq<InfoLine>): (ns: seq<string>)
  {
    if ls == [] then [] else [ls[0].name] + Names(ls[1..])
  }

  lemma {:induction false} NamesConcat(a: seq<InfoLine>, b: seq<InfoLine>)
    ensures Names(a + b) == Names(a) + Names(b)
  {
    if a == [] {
      assert a + b == b;
    } else {
      assert (a + b)[1..] == a[1..] + b;
      NamesConcat(a[1..], b);
    }
  }

  // ---------------------------------------------------------------------
  // birthday_in_a_given_number_of_days

  /** The record's birthday is exactly `n` days after `today`. */
  predicate HasBirthdayIn(l: InfoLine, n: int, today: Date) {
    ValidDate(today) && DaysUntil(l.birthday, today) == Ok(Some(n))
  }

  function BirthdayMatches(n: int, today: Date): InfoLine -> bool {
    l => HasBirthdayIn(l, n, today)
  }

  /** `birthday_in_a_given_number_of_days(n)` over the records `ls` in
      book order: the first record whose count raises aborts the query. */
  function BirthdaysIn(ls: seq<InfoLine>, n: int, today: Date): Result<seq<string>>
    requires ValidDate(today)
  {
    if ls == [] then Ok([])
    else
      match BirthdaysIn(ls[..|ls| - 1], n, today)
      case Err(e) => Err(e)
      case Ok(names) =>
        var l := ls[|ls| - 1];
        match DaysUntil(l.birthday, today)
        case Err(e) => Err(e)
        case Ok(d) => Ok(names + (if d == Some(n) then [l.name] else []))
  }

  /** The query fails exactly when some record's count fails, and then
      with `ValueError`. */
  lemma {:induction false} BirthdaysInOkIff(ls: seq<InfoLine>, n: int, today: Date)
    requires ValidDate(today)
    ensures BirthdaysIn(ls, n, today).Ok? <==> forall i :: 0 <= i < |ls| ==> DaysUntil(ls[i].birthday, today).Ok?
    ensures BirthdaysIn(ls, n, today).Err? ==> BirthdaysIn(ls, n, today).error == ValueError
    decreases |ls|
  {
    if ls != [] {
      var init := ls[..|ls| - 1];
      BirthdaysInOkIff(init, n, today);
      assert forall i :: 0 <= i < |init| ==> init[i] == ls[i];
    }
  }

  /** A query that succeeds gives the names of the records whose birthday
      is `n` days away, in book order. */
  lemma {:induction false} BirthdaysInNames(ls: seq<InfoLine>, n: int, today: Date)
    requires ValidDate(today)
    requires BirthdaysIn(ls, n, today).Ok?
    ensures BirthdaysIn(ls, n, today).value == Names(Filter(ls, BirthdayMatches(n, today)))
    decreases |ls|
  {
    if ls != [] {
      var init := ls[..|ls| - 1];
      var l := ls[|ls| - 1];
      assert ls == init + [l];
      BirthdaysInNames(init, n, today);
      var p := BirthdayMatches(n, today);
      FilterConcat(init, [l], p);
      NamesConcat(Filter(init, p), Filter([l], p));
    }
  }

  /** The query over one more record of `ls`, whose count is `d`. */
  lemma BirthdaysInStep(ls: seq<InfoLine>, i: nat, n: int, today: Date, names: seq<string>, d: Result<Option<int>>)
    requires ValidDate(today) && i < |ls|
    requires BirthdaysIn(ls[..i], n, today) == Ok(names)
    requires d == DaysUntil(ls[i].birthday, today)
    ensures d.Err? ==> BirthdaysIn(ls[..i + 1], n, today) == Err(d.error)
    ensures d.Ok? ==> BirthdaysIn(ls[..i + 1], n, today) == Ok(names + (if d.value == Some(n) then [ls[i].name] else []))
  {
    assert ls[..i + 1][..i] == ls[..i];
    assert ls[..i + 1][i] == ls[i];
  }

  /** Once a prefix of the records makes the query fail, so does the whole
      book, with the same exception. */
  lemma {:induction false} BirthdaysInAbort(ls: seq<InfoLine>, j: nat, n: int, today: Date)
    requires ValidDate(today) && j <= |ls|
    requires BirthdaysIn(ls[..j], n, today).Err?
    ensures BirthdaysIn(ls, n, today) == BirthdaysIn(ls[..j], n, today)
    decreases |ls| - j
  {
    if j == |ls| {
      assert ls[..j] == ls;
    } else {
      var init := ls[..|ls| - 1];
      assert init[..j] == ls[..j];
      BirthdaysInAbort(init, j, n, today);
    }
  }

  // ---------------------------------------------------------------------
  // find_info

  predicate NameHas(l: InfoLine, q: string) {
    Contains(l.name, q)
  }

  predicate PhoneHas(p: string, q: string) {
    Contains(p, q)
  }

  function NameMatches(q: string): InfoLine -> bool {
    l => NameHas(l, q)
  }

  function PhoneMatches(q: string): string -> bool {
    p => PhoneHas(p, q)
  }

  /** One copy of the record's line for every phone number containing `q`. */
  function Copies(l: InfoLine, q: string): (c: seq<InfoLine>)
    ensures |c| == |Filter(l.phones, PhoneMatches(q))|
    ensures forall i :: 0 <= i < |c| ==> c[i] == l
  {
    seq(|Filter(l.phones, PhoneMatches(q))|, _ => l)
  }

  function PhoneHits(ls: seq<InfoLine>, q: string): seq<InfoLine>
  {
    if ls == [] then [] else PhoneHits(ls[..|ls| - 1], q) + Copies(ls[|ls| - 1], q)
  }

  /** `find_info(q)` over the records `ls` in book order. The source's
      `key not in request` compares a name with rendered lines, so it never
      filters anything out. */
  function FindInfoSpec(ls: seq<InfoLine>, q: string): seq<InfoLine>
  {
    if IsAlpha(q) then Filter(ls, NameMatches(q))
    else if IsDigits(q) then PhoneHits(ls, q)
    else []
  }

  /** Some phone number of the record contains `q`. */
  predicate SomePhoneHas(l: InfoLine, q: string) {
    exists k :: 0 <= k < |l.phones| && PhoneHas(l.phones[k], q)
  }

  lemma CopiesNonEmpty(l: InfoLine, q: string)
    ensures Copies(l, q) != [] <==> SomePhoneHas(l, q)
  {
    var f := Filter(l.phones, PhoneMatches(q));
    if SomePhoneHas(l, q) {
      var k :| 0 <= k < |l.phones| && PhoneHas(l.phones[k], q);
      FilterMember(l.phones, PhoneMatches(q), l.phones[k]);
    } else if f != [] {
      FilterMember(l.phones, PhoneMatches(q), f[0]);
    }
  }

  /** A line for a digit query belongs to a record of the book with a
      matching phone, and every such record has a line. */
  lemma {:induction false} PhoneHitsMember(ls: seq<InfoLine>, q: string, l: InfoLine)
    ensures l in PhoneHits(ls, q) <==> l in ls && SomePhoneHas(l, q)
    decreases |ls|
  {
    if ls != [] {
      var init := ls[..|ls| - 1];
      var last := ls[|ls| - 1];
      assert ls == init + [last];
      PhoneHitsMember(init, q, l);
      CopiesNonEmpty(last, q);
      if l == last && SomePhoneHas(l, q) {
        assert Copies(last, q)[0] == l;
      }
    }
  }

  /** A digit query yields one line per (record, matching phone) pair:
      the number of lines is the number of such pairs. */
  function HitCount(ls: seq<InfoLine>, q: string): nat {
    if ls == [] then 0 else HitCount(ls[..|ls| - 1], q) + |Filter(ls[|ls| - 1].phones, PhoneMatches(q))|
  }

  lemma {:induction false} PhoneHitsCount(ls: seq<InfoLine>, q: string)
    ensures |PhoneHits(ls, q)| == HitCount(ls, q)
    decreases |ls|
  {
    if ls != [] {
      PhoneHitsCount(ls[..|ls| - 1], q);
    }
  }

  /** A sequence of copies of one line holds that line once per copy and
      no other line. */
  lemma {:induction false} AllCopiesCount(c: seq<InfoLine>, l: InfoLine, x: InfoLine)
    requires forall i :: 0 <= i < |c| ==> c[i] == l
    ensures multiset(c)[x] == if x == l then |c| else 0
  {
    if c != [] {
      AllCopiesCount(c[1..], l, x);
      assert c == [c[0]] + c[1..];
    }
  }

  /** The counting step of `PhoneHitsCounts`: one more copy of the record
      adds its matches once more. */
  lemma CountStep(m: nat, k: nat, before: int, added: int, same: bool)
    requires before == m * k
    requires added == if same then k else 0
    ensures before + added == (m + if same then 1 else 0) * k
  {
    if same {
      assert (m + 1) * k == m * k + k;
    }
  }

  /** The count of `l` in a non-empty list: its count before the last
      element plus one if the last element is `l`. */
  lemma SnocCount(ls: seq<InfoLine>, l: InfoLine)
    requires ls != []
    ensures multiset(ls)[l] == multiset(ls[..|ls| - 1])[l] + if ls[|ls| - 1] == l then 1 else 0
  {
    assert ls == ls[..|ls| - 1] + [ls[|ls| - 1]];
  }

  /** The line count of `PhoneHits` for one more record. */
  lemma PhoneHitsSnoc(ls: seq<InfoLine>, q: string, l: InfoLine)
    requires ls != []
    ensures multiset(PhoneHits(ls, q))[l] ==
      multiset(PhoneHits(ls[..|ls| - 1], q))[l] + multiset(Copies(ls[|ls| - 1], q))[l]
  {
  }

  /** A digit query yields each record's line once per matching phone of
      that record, for every copy of the record in `ls`. */
  lemma {:induction false} PhoneHitsCounts(ls: seq<InfoLine>, q: string, l: InfoLine)
    ensures multiset(PhoneHits(ls, q))[l] == multiset(ls)[l] * |Filter(l.phones, PhoneMatches(q))|
    decreases |ls|
  {
    if ls != [] {
      var init := ls[..|ls| - 1];
      var last := ls[|ls| - 1];
      SnocCount(ls, l);
      PhoneHitsCounts(init, q, l);
      PhoneHitsSnoc(ls, q, l);
      AllCopiesCount(Copies(last, q), last, l);
      CountStep(multiset(init)[l], |Filter(l.phones, PhoneMatches(q))|,
        multiset(PhoneHits(init, q))[l], multiset(Copies(last, q))[l], last == l);
    }
  }

  /** What `find_info` returns: for letters, exactly the records whose
      name contains `q`; for digits, exactly the records with a phone
      containing `q`, repeated once per such phone; otherwise nothing. */
  lemma FindInfoMember(ls: seq<InfoLine>, q: string, l: InfoLine)
    ensures IsAlpha(q) ==> (l in FindInfoSpec(ls, q) <==> l in ls && NameHas(l, q))
    ensures IsDigits(q) ==> (l in FindInfoSpec(ls, q) <==> l in ls && SomePhoneHas(l, q))
    ensures IsDigits(q) ==> |FindInfoSpec(ls, q)| == HitCount(ls, q)
    ensures IsDigits(q) ==>
      multiset(FindInfoSpec(ls, q))[l] == multiset(ls)[l] * |Filter(l.phones, PhoneMatches(q))|
    ensures !IsAlpha(q) && !IsDigits(q) ==> FindInfoSpec(ls, q) == []
  {
    if IsAlpha(q) {
      AlphaNotDigits(q);
      FilterMember(ls, NameMatches(q), l);
    } else if IsDigits(q) {
      PhoneHitsMember(ls, q, l);
      PhoneHitsCount(ls, q);
      PhoneHitsCounts(ls, q, l);
    }
  }

  // ---------------------------------------------------------------------
  // iterator

  /** `pages` is how `iterator(n)` cuts `s`: for `n >= 1` full pages of
      `n` and a last page of the remainder, yielded even when empty; for
      `n < 1` the page never fills and everything is one page. */
  predicate Paged<T(==)>(pages: seq<seq<T>>, s: seq<T>, n: int) {
    && Flatten(pages) == s
    && (n < 1 ==> pages == [s])
    && (n >= 1 ==>
          && |pages| == |s| / n + 1
          && (forall i :: 0 <= i < |pages| - 1 ==> |pages[i]| == n)
          && |pages[|pages| - 1]| == |s| % n)
  }

  lemma MulAtLeast(n: int, k: int)
    requires n >= 1 && k >= 1
    ensures n * k >= n
  {
  }

  /** Quotient and remainder are the only such pair. */
  lemma DivModUnique(a: int, n: int, q: int, r: int)
    requires n >= 1 && 0 <= r < n && a == n * q + r
    ensures a / n == q && a % n == r
  {
    var q1 := a / n;
    var r1 := a % n;
    assert a == n * q1 + r1;
    assert n * (q - q1) == r1 - r;
    if q - q1 >= 1 {
      MulAtLeast(n, q - q1);
    } else if q1 - q >= 1 {
      MulAtLeast(n, q1 - q);
    }
  }

  lemma DivModDown(a: int, n: int)
    requires n >= 1 && a >= n
    ensures (a - n) / n == a / n - 1 && (a - n) % n == a % n
  {
    assert a == n * (a / n) + a % n;
    assert a - n == n * (a / n - 1) + a % n;
    DivModUnique(a - n, n, a / n - 1, a % n);
  }

  lemma DivModUp(i: nat, n: int)
    requires n >= 1
    ensures i % n == n - 1 ==> (i + 1) / n == i / n + 1 && (i + 1) % n == 0
    ensures i % n < n - 1 ==> (i + 1) / n == i / n && (i + 1) % n == i % n + 1
  {
    assert i == n * (i / n) + i % n;
    if i % n == n - 1 {
      assert i + 1 == n * (i / n + 1) + 0;
      DivModUnique(i + 1, n, i / n + 1, 0);
    } else {
      DivModUnique(i + 1, n, i / n, i % n + 1);
    }
  }

  /** The paging of a sequence is unique: the properties above say
      everything about the pages. */
  lemma {:induction false} PagedUnique<T>(p1: seq<seq<T>>, p2: seq<seq<T>>, s: seq<T>, n: int)
    requires Paged(p1, s, n) && Paged(p2, s, n)
    ensures p1 == p2
    decreases |s|
  {
    if n >= 1 && |p1| > 1 {
      assert |s| / n >= 1;
      assert |s| >= n;
      assert Flatten(p1) == p1[0] + Flatten(p1[1..]);
      assert Flatten(p2) == p2[0] + Flatten(p2[1..]);
      assert p1[0] == s[..n] && p2[0] == s[..n];
      var t := s[n..];
      DivModDown(|s|, n);
      assert Flatten(p1[1..]) == t;
      assert Flatten(p2[1..]) == t;
      assert forall i :: 0 <= i < |p1[1..]| - 1 ==> p1[1..][i] == p1[i + 1];
      assert forall i :: 0 <= i < |p2[1..]| - 1 ==> p2[1..][i] == p2[i + 1];
      PagedUnique(p1[1..], p2[1..], t, n);
      assert p1 == [p1[0]] + p1[1..];
      assert p2 == [p2[0]] + p2[1..];
    } else if n >= 1 {
      assert |p1| == 1 && |p2| == 1;
      assert p1[1..] == [] && p2[1..] == [];
      assert Flatten(p1) == p1[0] + Flatten(p1[1..]);
      assert Flatten(p2) == p2[0] + Flatten(p2[1..]);
      assert Flatten(p1[1..]) == [] && Flatten(p2[1..]) == [];
      assert p1[0] + [] == p1[0] && p2[0] + [] == p2[0];
      assert p1[0] == s && p2[0] == s;
      assert p1 == [p1[0]] && p2 == [p2[0]];
    }
  }

  /** The state of `iterator(n)` after the summaries `prefix`: the pages
      yielded so far and the page being filled. */
  predicate Paging<T(==)>(pages: seq<seq<T>>, page: seq<T>, prefix: seq<T>, n: int) {
    && Flatten(pages) + page == prefix
    && (n >= 1 ==>
          && |pages| == |prefix| / n && |page| == |prefix| % n
          && forall j :: 0 <= j < |pages| ==> |pages[j]| == n)
    && (n < 1 ==> pages == [] && page == prefix)
  }

  /** One more summary: appended to the page, which is yielded once it
      holds `n`. */
  lemma PagingStep<T>(pages: seq<seq<T>>, page: seq<T>, prefix: seq<T>, x: T, n: int)
    requires Paging(pages, page, prefix, n)
    ensures |page + [x]| == n ==> Paging(pages + [page + [x]], [], prefix + [x], n)
    ensures |page + [x]| != n ==> Paging(pages, page + [x], prefix + [x], n)
  {
    var p := page + [x];
    assert Flatten(pages) + p == prefix + [x];
    if n >= 1 {
      DivModUp(|prefix|, n);
    }
    if |p| == n {
      FlattenSnoc(pages, p);
      assert Flatten(pages + [p]) + [] == Flatten(pages + [p]);
    }
  }

  /** After the last record the page in hand is yielded, full or not. */
  lemma PagingDone<T>(pages: seq<seq<T>>, page: seq<T>, s: seq<T>, n: int)
    requires Paging(pages, page, s, n)
    ensures Paged(pages + [page], s, n)
  {
    FlattenSnoc(pages, page);
    if n < 1 {
      assert pages + [page] == [s];
    }
  }

  // ---------------------------------------------------------------------
  // The book

  /** Every record sits under its own name, once, and `keys` lists the
      names in the map. */
  ghost predicate BookShape(keys: seq<string>, data: map<string, Record>) {
    && Distinct(keys)
    && (forall k :: k in data <==> k in keys)
    && (forall k :: k in data ==> data[k].name == k)
  }

  /** Deleting the name at position `i` keeps the shape. */
  lemma DeleteAt(keys: seq<string>, data: map<string, Record>, i: nat)
    requires BookShape(keys, data) && i < |keys|
    ensures BookShape(keys[..i] + keys[i + 1..], data - {keys[i]})
  {
    var t := keys[..i] + keys[i + 1..];
    var d := data - {keys[i]};
    DropKeys(keys, i);
    assert forall k :: k in d <==> k in t;
  }

  /** Cutting out the position of a name that occurs once is filtering
      the name out. */
  lemma {:induction false} CutIsFilter(keys: seq<string>, i: nat)
    requires Distinct(keys) && i < |keys|
    ensures keys[..i] + keys[i + 1..] == Filter(keys, Except(keys[i]))
  {
    var x := keys[i];
    var t := keys[1..];
    if i == 0 {
      assert x !in t;
      RemoveAbsentKey(t, x);
    } else {
      assert keys[0] != x;
      assert t[i - 1] == x;
      CutIsFilter(t, i - 1);
      assert t[..i - 1] + t[i..] == keys[1..i] + keys[i + 1..];
      assert keys[..i] == [keys[0]] + keys[1..i];
    }
  }

  class AddressBook {
    /** The names in insertion order. */
    var keys: seq<string>
    var data: map<string, Record>

    /** Every record sits under its own name, once, and `keys` lists the
        names in the map. */
    ghost predicate Valid()
      reads this
    {
      BookShape(keys, data)
    }

    constructor ()
      ensures Valid() && keys == [] && data == map[]
    {
      keys := [];
      data := map[];
    }

    function Records(): seq<Record>
      reads this
      requires Valid()
    {
      RecordsOf(keys, data)
    }

    /** What `find_info` and the birthday query read of each record. */
    function Infos(): seq<InfoLine>
      reads this, data.Values
      requires Valid()
    {
      InfosOf(Records())
    }

    /** What `iterator` shows of each record (`str(record)`). */
    function Snapshots(): seq<Snapshot>
      reads this, data.Values
      requires Valid()
    {
      SnapsOf(Records())
    }

    /** Position `i` of the views is the record under the `i`-th name. */
    lemma ViewsAt(i: nat)
      requires Valid() && i < |keys|
      ensures |Infos()| == |keys| && Infos()[i] == data[keys[i]].Info()
      ensures |Snapshots()| == |keys| && Snapshots()[i] == data[keys[i]].Snap()
    {
      InfosOfAt(Records(), i);
      SnapsOfAt(Records(), i);
    }

    /** `add_contact`: refused when a record of that name is present;
        otherwise it is appended under its name. */
    method AddContact(r: Record) returns (o: Outcome)
      requires Valid()
      modifies this
      ensures Valid()
      ensures o.Pass? <==> r.name !in old(data)
      ensures o.Pass? ==> keys == old(keys) + [r.name] && data == old(data)[r.name := r]
      ensures o.Fail? ==> o.error == ValueError && keys == old(keys) && data == old(data)
    {
      if r.name in data {
        return Fail(ValueError);
      }
      keys := keys + [r.name];
      data := data[r.name := r];
      return Pass;
    }

    /** `find`: the record stored under `name`, or `None`. */
    function Find(name: string): (r: Option<Record>)
      reads this
      requires Valid()
      ensures r.Some? <==> name in data
      ensures r.Some? ==> r.value == data[name] && r.value.name == name
    {
      if name in data then Some(data[name]) else None
    }

    /** `delete`: removes `name` and keeps the other records in order; an
        absent name changes nothing. */
    method Delete(name: string)
      requires Valid()
      modifies this
      ensures Valid()
      ensures data == old(data) - {name}
      ensures keys == Filter(old(keys), Except(name))
      ensures name !in old(data) ==> keys == old(keys)
    {
      if name in data {
        var i := IndexOf(keys, name);
        DeleteAt(keys, data, i);
        CutIsFilter(keys, i);
        keys := keys[..i] + keys[i + 1..];
        data := data - {name};
      } else {
        assert name !in keys;
        RemoveAbsentKey(keys, name);
      }
    }

    /** `birthday_in_a_given_number_of_days(n)` on the day `today`. */
    method BirthdayIn(n: int, today: Date) returns (r: Result<seq<string>>)
      requires Valid() && ValidDate(today)
      ensures r == BirthdaysIn(Infos(), n, today)
    {
      ghost var ls := Infos();
      var names: seq<string> := [];
      var i := 0;
      while i < |keys|
        invariant 0 <= i <= |keys|
        invariant BirthdaysIn(ls[..i], n, today) == Ok(names)
      {
        var rec := data[keys[i]];
        ViewsAt(i);
        var d := rec.DaysToBirthday(today);
        BirthdaysInStep(ls, i, n, today, names, d);
        if d.Err? {
          BirthdaysInAbort(ls, i + 1, n, today);
          return Err(d.error);
        }
        assert ls[i].name == rec.name;
        if d.value == Some(n) {
          names := names + [rec.name];
        } else {
          assert names + [] == names;
        }
        assert BirthdaysIn(ls[..i + 1], n, today) == Ok(names);
        i := i + 1;
      }
      assert ls[..i] == ls;
      return Ok(names);
    }

    /** `find_info(q)`. */
    method FindInfo(q: string) returns (r: seq<InfoLine>)
      requires Valid()
      ensures r == FindInfoSpec(Infos(), q)
    {
      if IsAlpha(q) {
        r := FindByName(q);
      } else if IsDigits(q) {
        r := FindByPhone(q);
      } else {
        r := [];
      }
    }

    /** The letters branch of `find_info`: the records whose name contains
        `q`. */
    method FindByName(q: string) returns (r: seq<InfoLine>)
      requires Valid()
      ensures r == Filter(Infos(), NameMatches(q))
    {
      ghost var ls := Infos();
      r := [];
      var i := 0;
      while i < |keys|
        invariant 0 <= i <= |keys|
        invariant r == Filter(ls[..i], NameMatches(q))
      {
        var rec := data[keys[i]];
        ViewsAt(i);
        assert ls[..i + 1] == ls[..i] + [ls[i]];
        FilterConcat(ls[..i], [ls[i]], NameMatches(q));
        if Contains(keys[i], q) {
          r := r + [rec.Info()];
        }
        i := i + 1;
      }
      assert ls[..i] == ls;
    }

    /** The digits branch of `find_info`: a line for every phone number
        containing `q`. */
    method FindByPhone(q: string) returns (r: seq<InfoLine>)
      requires Valid()
      ensures r == PhoneHits(Infos(), q)
    {
      ghost var ls := Infos();
      r := [];
      var i := 0;
      while i < |keys|
        invariant 0 <= i <= |keys|
        invariant r == PhoneHits(ls[..i], q)
      {
        var rec := data[keys[i]];
        ViewsAt(i);
        var c := PhoneLines(rec, q);
        assert ls[..i + 1][..i] == ls[..i];
        r := r + c;
        i := i + 1;
      }
      assert ls[..i] == ls;
    }

    /** `iterator(n)`: the summaries of the records in book order, cut into
        pages of `n`. */
    method Iterator(n: int) returns (pages: seq<seq<Snapshot>>)
      requires Valid()
      ensures Paged(pages, Snapshots(), n)
    {
      ghost var s := Snapshots();
      pages := [];
      var page: seq<Snapshot> := [];
      var i := 0;
      while i < |keys|
        invariant 0 <= i <= |keys|
        invariant Paging(pages, page, s[..i], n)
      {
        var x := data[keys[i]].Snap();
        ViewsAt(i);
        assert s[..i + 1] == s[..i] + [x];
        PagingStep(pages, page, s[..i], x, n);
        page := page + [x];
        if |page| == n {
          pages := pages + [page];
          page := [];
        }
        i := i + 1;
      }
      assert s[..i] == s;
      PagingDone(pages, page, s, n);
      pages := pages + [page];
    }
  }

  /** The inner loop of `find_info`'s digits branch: one line of `rec`
      for each of its phone numbers that contains `q`. */
  method PhoneLines(rec: Record, q: string) returns (c: seq<InfoLine>)
    ensures c == Copies(rec.Info(), q)
  {
    var ps := rec.phones;
    c := [];
    var j := 0;
    while j < |ps|
      invariant 0 <= j <= |ps|
      invariant |c| == |Filter(ps[..j], PhoneMatches(q))|
      invariant forall k :: 0 <= k < |c| ==> c[k] == rec.Info()
    {
      assert ps[..j + 1] == ps[..j] + [ps[j]];
      FilterConcat(ps[..j], [ps[j]], PhoneMatches(q));
      if Contains(ps[j], q) {
        c := c + [rec.Info()];
      }
      j := j + 1;
    }
    assert ps[..j] == ps;
  }

  /** The key list without position `i`: still distinct, and holding the
      other names. */
  lemma DropKeys(s: seq<string>, i: int)
    requires Distinct(s) && 0 <= i < |s|
    ensures Distinct(s[..i] + s[i + 1..])
    ensures forall k :: k in s[..i] + s[i + 1..] <==> k in s && k != s[i]
  {
    var t := s[..i] + s[i + 1..];
    assert forall k :: 0 <= k < |t| ==> t[k] == (if k < i then s[k] else s[k + 1]);
    forall k | k in s && k != s[i]
      ensures k in t
    {
      var j :| 0 <= j < |s| && s[j] == k;
      if j < i {
        assert t[j] == k;
      } else {
        assert t[j - 1] == k;
      }
    }
  }

  lemma RemoveAbsentKey(s: seq<string>, x: string)
    requires x !in s
    ensures Filter(s, Except(x)) == s
  {
    FilterAll(s, Except(x));
  }
}
