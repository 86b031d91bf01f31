/**
 * DMR_Reports::aggregate_monthly_by_engineer: one row per post author with
 * twelve monthly counts and their total, padded with a zero row for every
 * engineer that has none, ordered by display name, case-insensitively.
 *
 * A row is specified by what it counts: for every author the row equals
 * `ExpectedRow`, built from independent counting functions over the ids.
 */
module Monthly {
  import opened Options
  import opened Strings
  import opened Numerals
  import opened Ordering
  import opened DateParse
  import opened Resolver

  /** A month as an index into a row's buckets: month n is index n - 1. */
  type MonthIndex = k: int | 0 <= k < 12

  /**
   * What the aggregation reads: the posts, the date primitives, the cached
   * report dates, the display names of the users that exist (get_user_by),
   * and date('n', strtotime($date)) for cached text that is not a canonical
   * `Y-m-d` date, which is left opaque.
   */
  datatype Site = Site(
    store: Store,
    parsers: Parsers,
    cache: Cache,
    users: map<int, string>,
    otherMonth: string -> MonthIndex)

  /** An entry of get_users(role = engineer): its ID and display_name. */
  datatype Engineer = Engineer(id: int, displayName: string)

  /** A report row: `months[k]` counts month k + 1. */
  datatype Row = Row(engineer: int, name: string, months: seq<nat>, total: nat)

  /** (int) get_post_field('post_author', $pid); 0 for an unknown post. */
  function AuthorOf(s: Store, id: int): int
  {
    if id in s then s[id].author else 0
  }

  /** The cached report date when it is truthy, else one computed on the fly. */
  function ReportDateFor(site: Site, id: int): string
  {
    var cached := if id in site.cache then site.cache[id] else "";
    if Falsy(Str(cached)) then ComputeReportDate(site.store, site.parsers, id) else cached
  }

  /** (int) date('n', strtotime($date)), as an index. */
  function MonthIndexOf(site: Site, v: string): MonthIndex
  {
    if ParseYmd(v).Some? then MonthOf(v) - 1 else site.otherMonth(v)
  }

  /** The author and month a post is counted under. */
  datatype Slot = Slot(author: int, month: MonthIndex)

  /** Where a post is counted; None when it is skipped for want of an author or a date. */
  function SlotOf(site: Site, id: int): Option<Slot>
  {
    var a := AuthorOf(site.store, id);
    var date := ReportDateFor(site, id);
    if a == 0 || Falsy(Str(date)) then None else Some(Slot(a, MonthIndexOf(site, date)))
  }

  /** Where each of `ids` is counted, in order. */
  function Slots(site: Site, ids: seq<int>): (r: seq<Option<Slot>>)
    ensures |r| == |ids| && forall i :: 0 <= i < |ids| ==> r[i] == SlotOf(site, ids[i])
  {
    seq(|ids|, i requires 0 <= i < |ids| => SlotOf(site, ids[i]))
  }

  /** How many posts count for author `a` in month index `k`. */
  function CountSlot(slots: seq<Option<Slot>>, a: int, k: MonthIndex): nat
  {
    if slots == [] then 0
    else CountSlot(slots[..|slots| - 1], a, k) + (if slots[|slots| - 1] == Some(Slot(a, k)) then 1 else 0)
  }

  /** How many posts count for author `a`. */
  function CountAuthor(slots: seq<Option<Slot>>, a: int): nat
  {
    if slots == [] then 0
    else
      var last := slots[|slots| - 1];
      CountAuthor(slots[..|slots| - 1], a) + (if last.Some? && last.value.author == a then 1 else 0)
  }

  /** How many posts count at all. */
  function CountCounted(slots: seq<Option<Slot>>): nat
  {
    if slots == [] then 0
    else CountCounted(slots[..|slots| - 1]) + (if slots[|slots| - 1].Some? then 1 else 0)
  }

  /** A month's count for an author never exceeds the author's count. */
  lemma {:induction false} SlotLeAuthor(slots: seq<Option<Slot>>, a: int, k: MonthIndex)
    ensures CountSlot(slots, a, k) <= CountAuthor(slots, a)
  {
    if slots != [] {
      SlotLeAuthor(slots[..|slots| - 1], a, k);
    }
  }

  function SumNat(ms: seq<nat>): nat
  {
    if ms == [] then 0 else SumNat(ms[..|ms| - 1]) + ms[|ms| - 1]
  }

  lemma {:induction false} SumNatBump(ms: seq<nat>, k: int)
    requires 0 <= k < |ms|
    ensures SumNat(ms[k := ms[k] + 1]) == SumNat(ms) + 1
  {
    var n := |ms| - 1;
    if k < n {
      assert ms[k := ms[k] + 1][..n] == ms[..n][k := ms[k] + 1];
      SumNatBump(ms[..n], k);
    } else {
      assert ms[k := ms[k] + 1][..n] == ms[..n];
    }
  }

  lemma {:induction false} SumNatZeros(n: nat)
    ensures SumNat(seq(n, _ => 0)) == 0
  {
    if n > 0 {
      assert seq(n, _ => 0)[..n - 1] == seq(n - 1, _ => 0);
      SumNatZeros(n - 1);
    }
  }

  /** array_fill(1, 12, 0). */
  function Zeros(): seq<nat>
  {
    seq(12, _ => 0)
  }

  /** Twelve buckets whose sum is the total. */
  predicate WellFormedRow(r: Row)
  {
    |r.months| == 12 && r.total == SumNat(r.months)
  }

  predicate AllWellFormed(rows: seq<Row>)
  {
    forall i :: 0 <= i < |rows| ==> WellFormedRow(rows[i])
  }

  function EngineerOf(r: Row): int
  {
    r.engineer
  }

  function TotalOf(r: Row): nat
  {
    r.total
  }

  /** The sort key of strcasecmp: the ASCII-lower-cased name. */
  function NameKey(r: Row): string
  {
    Lower(r.name)
  }

  function NewRow(a: int, name: string): (r: Row)
    ensures WellFormedRow(r)
  {
    SumNatZeros(12);
    Row(a, name, Zeros(), 0)
  }

  /** The display name of an existing user, else "User #<id>". */
  function UserName(users: map<int, string>, a: int): string
  {
    if a in users then users[a] else "User #" + IntToString(a)
  }

  /** The position of the row of engineer `a`, -1 when there is none. */
  function IndexOf(rows: seq<Row>, a: int): (i: int)
    ensures -1 <= i < |rows|
    ensures i >= 0 ==> rows[i].engineer == a
    ensures i < 0 <==> forall j :: 0 <= j < |rows| ==> rows[j].engineer != a
  {
    if rows == [] then -1
    else if rows[0].engineer == a then 0
    else
      var j := IndexOf(rows[1..], a);
      if j < 0 then -1 else j + 1
  }

  /** `$rows[$a]`, None when `isset` fails. */
  function Lookup(rows: seq<Row>, a: int): (r: Option<Row>)
    ensures r.Some? ==> r.value in rows && r.value.engineer == a
    ensures r.None? <==> forall j :: 0 <= j < |rows| ==> rows[j].engineer != a
  {
    var i := IndexOf(rows, a);
    if i >= 0 then Some(rows[i]) else None
  }

  /** With unique engineers, the row found for `a` is the one row carrying `a`. */
  lemma LookupUnique(rows: seq<Row>, a: int, x: Row)
    requires DistinctBy(rows, EngineerOf)
    ensures Lookup(rows, a) == Some(x) <==> x in rows && x.engineer == a
  {
    if x in rows && x.engineer == a {
      var i :| 0 <= i < |rows| && rows[i] == x;
      var j := IndexOf(rows, a);
      assert EngineerOf(rows[i]) == EngineerOf(rows[j]);
    }
  }

  /** Appending a row for an engineer not yet present. */
  lemma LookupAppendFresh(rows: seq<Row>, y: Row)
    requires DistinctBy(rows, EngineerOf) && Lookup(rows, y.engineer).None?
    ensures DistinctBy(rows + [y], EngineerOf)
    ensures Lookup(rows + [y], y.engineer) == Some(y)
    ensures forall b :: b != y.engineer ==> Lookup(rows + [y], b) == Lookup(rows, b)
  {
    var r := rows + [y];
    assert forall j :: 0 <= j < |rows| ==> r[j] == rows[j];
    assert DistinctBy(r, EngineerOf) by {
      forall i, j | 0 <= i < j < |r|
        ensures EngineerOf(r[i]) != EngineerOf(r[j])
      {
        if j < |rows| {
          assert EngineerOf(rows[i]) != EngineerOf(rows[j]);
        }
      }
    }
    LookupUnique(r, y.engineer, y);
    forall b | b != y.engineer
      ensures Lookup(r, b) == Lookup(rows, b)
    {
      match Lookup(rows, b)
      case Some(x) =>
        LookupUnique(r, b, x);
      case None =>
        assert forall j :: 0 <= j < |r| ==> r[j].engineer != b;
    }
  }

  /** Replacing the row at `i` by one for the same engineer. */
  lemma LookupReplace(rows: seq<Row>, i: int, y: Row)
    requires DistinctBy(rows, EngineerOf) && 0 <= i < |rows| && y.engineer == rows[i].engineer
    ensures DistinctBy(rows[i := y], EngineerOf)
    ensures Lookup(rows[i := y], y.engineer) == Some(y)
    ensures forall b :: b != y.engineer ==> Lookup(rows[i := y], b) == Lookup(rows, b)
  {
    var r := rows[i := y];
    assert forall j :: 0 <= j < |r| ==> EngineerOf(r[j]) == EngineerOf(rows[j]);
    LookupUnique(r, y.engineer, y);
    forall b | b != y.engineer
      ensures Lookup(r, b) == Lookup(rows, b)
    {
      match Lookup(rows, b)
      case Some(x) =>
        var j :| 0 <= j < |rows| && rows[j] == x;
        assert r[j] == x;
        LookupUnique(r, b, x);
      case None =>
    }
  }

  function Increment(r: Row, k: MonthIndex): (r': Row)
    requires WellFormedRow(r)
    ensures WellFormedRow(r') && r'.engineer == r.engineer && r'.name == r.name
    ensures r'.total == r.total + 1
    ensures r'.months[k] == r.months[k] + 1 && forall j :: 0 <= j < 12 && j != k ==> r'.months[j] == r.months[j]
  {
    SumNatBump(r.months, k);
    r.(months := r.months[k := r.months[k] + 1], total := r.total + 1)
  }

  /**
   * One counted post: `$rows[$a]['months'][$m] += 1` and `['total'] += 1`,
   * creating the row with the author's name first when it is not set.
   */
  function Bump(rows: seq<Row>, a: int, name: string, k: MonthIndex): (r: seq<Row>)
    requires DistinctBy(rows, EngineerOf) && AllWellFormed(rows)
    ensures DistinctBy(r, EngineerOf) && AllWellFormed(r)
    ensures SumOf(r, TotalOf) == SumOf(rows, TotalOf) + 1
    ensures forall b :: b != a ==> Lookup(r, b) == Lookup(rows, b)
    ensures Lookup(r, a) == Some(Increment(if Lookup(rows, a).Some? then Lookup(rows, a).value else NewRow(a, name), k))
  {
    var i := IndexOf(rows, a);
    if i >= 0 then
      var y := Increment(rows[i], k);
      LookupReplace(rows, i, y);
      SumOfUpdate(rows, i, y, TotalOf);
      rows[i := y]
    else
      var y := Increment(NewRow(a, name), k);
      LookupAppendFresh(rows, y);
      SumOfAppend(rows, [y], TotalOf);
      assert SumOf([y], TotalOf) == y.total by {
        assert [y][..0] == [];
      }
      rows + [y]
  }

  /** An author's counts by month. */
  function ExpectedMonths(slots: seq<Option<Slot>>, a: int): (ms: seq<nat>)
    ensures |ms| == 12 && forall k: MonthIndex :: ms[k] == CountSlot(slots, a, k)
  {
    seq(12, k requires 0 <= k < 12 => CountSlot(slots, a, k))
  }

  /** The row the report should hold for an author with counted posts. */
  function ExpectedRow(users: map<int, string>, slots: seq<Option<Slot>>, a: int): Row
  {
    Row(a, UserName(users, a), ExpectedMonths(slots, a), CountAuthor(slots, a))
  }

  /** One more post leaves every other author's counts alone. */
  lemma OtherAuthorStep(slots: seq<Option<Slot>>, a: int)
    requires slots != []
    requires slots[|slots| - 1].None? || slots[|slots| - 1].value.author != a
    ensures ExpectedMonths(slots, a) == ExpectedMonths(slots[..|slots| - 1], a)
    ensures CountAuthor(slots, a) == CountAuthor(slots[..|slots| - 1], a)
  {
    var prefix := slots[..|slots| - 1];
    assert forall k: MonthIndex :: ExpectedMonths(slots, a)[k] == ExpectedMonths(prefix, a)[k];
  }

  /** One more post of author `a` in month `k` adds one to that bucket only. */
  lemma OwnAuthorStep(slots: seq<Option<Slot>>, a: int, k: MonthIndex)
    requires slots != [] && slots[|slots| - 1] == Some(Slot(a, k))
    ensures ExpectedMonths(slots, a) == ExpectedMonths(slots[..|slots| - 1], a)[k := ExpectedMonths(slots[..|slots| - 1], a)[k] + 1]
    ensures CountAuthor(slots, a) == CountAuthor(slots[..|slots| - 1], a) + 1
  {
    var prefix := slots[..|slots| - 1];
    var before := ExpectedMonths(prefix, a);
    assert forall j: MonthIndex :: ExpectedMonths(slots, a)[j] == before[k := before[k] + 1][j];
  }

  /** The months of an expected row add up to its total. */
  lemma {:induction false} ExpectedWellFormed(users: map<int, string>, slots: seq<Option<Slot>>, a: int)
    ensures WellFormedRow(ExpectedRow(users, slots, a))
  {
    if slots == [] {
      assert ExpectedMonths(slots, a) == Zeros();
      SumNatZeros(12);
    } else {
      var prefix := slots[..|slots| - 1];
      ExpectedWellFormed(users, prefix, a);
      match slots[|slots| - 1]
      case Some(slot) =>
        if slot.author == a {
          OwnAuthorStep(slots, a, slot.month);
          SumNatBump(ExpectedMonths(prefix, a), slot.month);
        } else {
          OtherAuthorStep(slots, a);
        }
      case None =>
        OtherAuthorStep(slots, a);
    }
  }

  /** An author without counted posts has empty buckets. */
  lemma NoPostsNoCounts(users: map<int, string>, slots: seq<Option<Slot>>, a: int)
    requires CountAuthor(slots, a) == 0
    ensures ExpectedRow(users, slots, a) == NewRow(a, UserName(users, a))
  {
    forall k: MonthIndex
      ensures ExpectedMonths(slots, a)[k] == 0
    {
      SlotLeAuthor(slots, a, k);
    }
    assert ExpectedMonths(slots, a) == Zeros();
  }

  /** Counting one more post turns the row held so far into the expected one. */
  lemma CountStep(users: map<int, string>, slots: seq<Option<Slot>>, slot: Slot)
    requires slots != [] && slots[|slots| - 1] == Some(slot)
    ensures var prefix := slots[..|slots| - 1];
            var prior := if CountAuthor(prefix, slot.author) > 0 then ExpectedRow(users, prefix, slot.author)
                         else NewRow(slot.author, UserName(users, slot.author));
            WellFormedRow(prior) && Increment(prior, slot.month) == ExpectedRow(users, slots, slot.author)
  {
    var prefix, a := slots[..|slots| - 1], slot.author;
    ExpectedWellFormed(users, prefix, a);
    if CountAuthor(prefix, a) == 0 {
      NoPostsNoCounts(users, prefix, a);
    }
    OwnAuthorStep(slots, a, slot.month);
  }

  /**
   * The counting loop of aggregate_monthly_by_engineer: a row exactly for
   * the authors with a counted post, each holding that author's counts.
   */
  function Tally(users: map<int, string>, slots: seq<Option<Slot>>): (rows: seq<Row>)
    ensures DistinctBy(rows, EngineerOf) && AllWellFormed(rows)
    ensures SumOf(rows, TotalOf) == CountCounted(slots)
    ensures forall a :: Lookup(rows, a) == (if CountAuthor(slots, a) > 0 then Some(ExpectedRow(users, slots, a)) else None)
  {
    if slots == [] then []
    else
      var rows := Tally(users, slots[..|slots| - 1]);
      match slots[|slots| - 1]
      case None =>
        TallySkipStep(users, slots, rows);
        rows
      case Some(slot) =>
        var r := Bump(rows, slot.author, UserName(users, slot.author), slot.month);
        TallyCountStep(users, slots, slot, rows, r);
        r
  }

  /** The rows hold exactly the counts of `slots` (what Tally promises). */
  ghost predicate TalliedRows(users: map<int, string>, slots: seq<Option<Slot>>, rows: seq<Row>)
  {
    && DistinctBy(rows, EngineerOf) && AllWellFormed(rows)
    && SumOf(rows, TotalOf) == CountCounted(slots)
    && forall a :: Lookup(rows, a) == (if CountAuthor(slots, a) > 0 then Some(ExpectedRow(users, slots, a)) else None)
  }

  /** A post that is not counted leaves the rows as they were. */
  lemma {:induction false} TallySkipStep(users: map<int, string>, slots: seq<Option<Slot>>, rows: seq<Row>)
    requires slots != [] && slots[|slots| - 1].None?
    requires TalliedRows(users, slots[..|slots| - 1], rows)
    ensures TalliedRows(users, slots, rows)
  {
    forall a
      ensures ExpectedRow(users, slots, a) == ExpectedRow(users, slots[..|slots| - 1], a)
    {
      OtherAuthorStep(slots, a);
    }
  }

  /** A counted post bumps its author's row into the row of the longer list. */
  lemma {:induction false} TallyCountStep(users: map<int, string>, slots: seq<Option<Slot>>, slot: Slot, rows: seq<Row>, r: seq<Row>)
    requires slots != [] && slots[|slots| - 1] == Some(slot)
    requires TalliedRows(users, slots[..|slots| - 1], rows)
    requires r == Bump(rows, slot.author, UserName(users, slot.author), slot.month)
    ensures TalliedRows(users, slots, r)
  {
    var prefix := slots[..|slots| - 1];
    assert CountCounted(slots) == CountCounted(prefix) + 1;
    TallyCountLookup(users, slots, slot, rows, r);
  }

  /** The lookups after a counted post. */
  lemma TallyCountLookup(users: map<int, string>, slots: seq<Option<Slot>>, slot: Slot, rows: seq<Row>, r: seq<Row>)
    requires slots != [] && slots[|slots| - 1] == Some(slot)
    requires DistinctBy(rows, EngineerOf) && AllWellFormed(rows)
    requires forall a :: Lookup(rows, a) == (if CountAuthor(slots[..|slots| - 1], a) > 0 then Some(ExpectedRow(users, slots[..|slots| - 1], a)) else None)
    requires r == Bump(rows, slot.author, UserName(users, slot.author), slot.month)
    ensures forall a :: Lookup(r, a) == (if CountAuthor(slots, a) > 0 then Some(ExpectedRow(users, slots, a)) else None)
  {
    var a := slot.author;
    CountStep(users, slots, slot);
    OwnAuthorStep(slots, a, slot.month);
    forall b | b != a
      ensures Lookup(r, b) == (if CountAuthor(slots, b) > 0 then Some(ExpectedRow(users, slots, b)) else None)
    {
      OtherAuthorStep(slots, b);
    }
  }

  predicate EngineerIn(es: seq<Engineer>, a: int)
  {
    exists i :: 0 <= i < |es| && es[i].id == a
  }

  /** The display name of the first listed engineer with id `a`. */
  function FirstName(es: seq<Engineer>, a: int): (name: string)
    requires EngineerIn(es, a)
    ensures exists i :: 0 <= i < |es| && es[i].id == a && es[i].displayName == name && forall j :: 0 <= j < i ==> es[j].id != a
  {
    var prefix := es[..|es| - 1];
    assert forall j :: 0 <= j < |prefix| ==> es[j] == prefix[j];
    if EngineerIn(prefix, a) then
      var name := FirstName(prefix, a);
      var i :| 0 <= i < |prefix| && prefix[i].id == a && prefix[i].displayName == name && forall j :: 0 <= j < i ==> prefix[j].id != a;
      name
    else
      assert es[|es| - 1].id == a;
      es[|es| - 1].displayName
  }

  /** What `$rows[$a]` holds after the padding of `rows` with `es`. */
  function PaddedLookup(rows: seq<Row>, es: seq<Engineer>, a: int): Option<Row>
  {
    if Lookup(rows, a).Some? then Lookup(rows, a)
    else if EngineerIn(es, a) then Some(NewRow(a, FirstName(es, a)))
    else None
  }

  /** "Also include engineers with 0s": a zero row for each listed engineer without one. */
  function Pad(rows: seq<Row>, es: seq<Engineer>): (r: seq<Row>)
    requires DistinctBy(rows, EngineerOf) && AllWellFormed(rows)
    ensures DistinctBy(r, EngineerOf) && AllWellFormed(r)
    ensures |rows| <= |r| && r[..|rows|] == rows
    ensures SumOf(r, TotalOf) == SumOf(rows, TotalOf)
    ensures forall a :: Lookup(r, a) == PaddedLookup(rows, es, a)
  {
    if es == [] then rows
    else
      var e := es[|es| - 1];
      var r := Pad(rows, es[..|es| - 1]);
      if Lookup(r, e.id).Some? then
        PadKeepStep(rows, es, r);
        r
      else
        var y := NewRow(e.id, e.displayName);
        PadFreshStep(rows, es, r, y);
        r + [y]
  }

  /** Padding with an engineer that already has a row changes nothing. */
  lemma PadKeepStep(rows: seq<Row>, es: seq<Engineer>, r: seq<Row>)
    requires es != [] && Lookup(r, es[|es| - 1].id).Some?
    requires forall a :: Lookup(r, a) == PaddedLookup(rows, es[..|es| - 1], a)
    ensures forall a :: Lookup(r, a) == PaddedLookup(rows, es, a)
  {
    forall a
      ensures Lookup(r, a) == PaddedLookup(rows, es, a)
    {
      PadNameStep(es, a);
    }
  }

  /** Padding with an engineer that has no row appends its zero row. */
  lemma {:induction false} PadFreshStep(rows: seq<Row>, es: seq<Engineer>, r: seq<Row>, y: Row)
    requires es != [] && y == NewRow(es[|es| - 1].id, es[|es| - 1].displayName)
    requires Lookup(r, y.engineer).None?
    requires DistinctBy(r, EngineerOf) && AllWellFormed(r)
    requires |rows| <= |r| && r[..|rows|] == rows
    requires forall a :: Lookup(r, a) == PaddedLookup(rows, es[..|es| - 1], a)
    ensures DistinctBy(r + [y], EngineerOf) && AllWellFormed(r + [y])
    ensures (r + [y])[..|rows|] == rows
    ensures SumOf(r + [y], TotalOf) == SumOf(r, TotalOf)
    ensures forall a :: Lookup(r + [y], a) == PaddedLookup(rows, es, a)
  {
    LookupAppendFresh(r, y);
    SumOfAppend(r, [y], TotalOf);
    assert SumOf([y], TotalOf) == 0 by {
      assert [y][..0] == [];
    }
    assert (r + [y])[..|rows|] == rows;
    PadFreshLookup(rows, es, r, y);
  }

  /** The lookups after appending a fresh engineer's zero row. */
  lemma {:induction false} PadFreshLookup(rows: seq<Row>, es: seq<Engineer>, r: seq<Row>, y: Row)
    requires es != [] && y == NewRow(es[|es| - 1].id, es[|es| - 1].displayName)
    requires DistinctBy(r, EngineerOf) && Lookup(r, y.engineer).None?
    requires forall a :: Lookup(r, a) == PaddedLookup(rows, es[..|es| - 1], a)
    ensures forall a :: Lookup(r + [y], a) == PaddedLookup(rows, es, a)
  {
    LookupAppendFresh(r, y);
    forall a
      ensures Lookup(r + [y], a) == PaddedLookup(rows, es, a)
    {
      PadNameStep(es, a);
    }
  }

  /** How the first listed name of `a` relates to the list without its last entry. */
  lemma PadNameStep(es: seq<Engineer>, a: int)
    requires es != []
    ensures EngineerIn(es, a) <==> EngineerIn(es[..|es| - 1], a) || es[|es| - 1].id == a
    ensures EngineerIn(es[..|es| - 1], a) ==> FirstName(es, a) == FirstName(es[..|es| - 1], a)
    ensures !EngineerIn(es[..|es| - 1], a) && es[|es| - 1].id == a ==> FirstName(es, a) == es[|es| - 1].displayName
  {
    var prefix := es[..|es| - 1];
    if EngineerIn(es, a) {
      var i :| 0 <= i < |es| && es[i].id == a;
      if i < |prefix| {
        assert prefix[i].id == a;
      }
    }
    if EngineerIn(prefix, a) {
      var i :| 0 <= i < |prefix| && prefix[i].id == a;
      assert es[i].id == a;
    }
  }

  /** Two arrangements of the same rows with unique engineers answer every lookup alike. */
  lemma LookupPermutation(a: seq<Row>, b: seq<Row>)
    requires multiset(a) == multiset(b) && DistinctBy(a, EngineerOf) && DistinctBy(b, EngineerOf)
    ensures forall e :: Lookup(a, e) == Lookup(b, e)
    ensures AllWellFormed(a) ==> AllWellFormed(b)
  {
    forall e
      ensures Lookup(a, e) == Lookup(b, e)
    {
      assert forall x :: x in a <==> x in b by {
        assert forall x :: x in a <==> x in multiset(a);
        assert forall x :: x in b <==> x in multiset(b);
      }
      match Lookup(a, e)
      case Some(x) =>
        LookupUnique(b, e, x);
      case None =>
        if Lookup(b, e).Some? {
          LookupUnique(a, e, Lookup(b, e).value);
        }
    }
    if AllWellFormed(a) {
      forall i | 0 <= i < |b|
        ensures WellFormedRow(b[i])
      {
        assert b[i] in multiset(a);
      }
    }
  }

  /**
   * DMR_Reports::aggregate_monthly_by_engineer over the post ids `ids` and the
   * engineers `es`. Each author with a counted post has the row of its counts,
   * each other listed engineer a zero row under the first listed display
   * name, and nobody else has a row; rows are ordered by strcasecmp on the name.
   */
  function AggregateMonthlyByEngineer(site: Site, ids: seq<int>, es: seq<Engineer>): (rows: seq<Row>)
    ensures SortedBy(rows, NameKey)
    ensures DistinctBy(rows, EngineerOf) && AllWellFormed(rows)
    ensures SumOf(rows, TotalOf) == CountCounted(Slots(site, ids))
    ensures forall a :: Lookup(rows, a) ==
                          if CountAuthor(Slots(site, ids), a) > 0 then Some(ExpectedRow(site.users, Slots(site, ids), a))
                          else if EngineerIn(es, a) then Some(NewRow(a, FirstName(es, a)))
                          else None
  {
    var unsorted := Unsorted(site, ids, es);
    var rows := InsertionSort(unsorted, NameKey);
    SortDistinct(unsorted, NameKey, EngineerOf);
    SortSum(unsorted, NameKey, TotalOf);
    LookupPermutation(unsorted, rows);
    rows
  }

  /** The rows in the order the loops create them, before the sort. */
  function Unsorted(site: Site, ids: seq<int>, es: seq<Engineer>): (r: seq<Row>)
    ensures DistinctBy(r, EngineerOf) && AllWellFormed(r)
    ensures SumOf(r, TotalOf) == CountCounted(Slots(site, ids))
    ensures forall a :: Lookup(r, a) == PaddedLookup(Tally(site.users, Slots(site, ids)), es, a)
  {
    Pad(Tally(site.users, Slots(site, ids)), es)
  }

  /**
   * uasort is stable: rows whose names compare equal keep the order in which
   * the counting loop and the padding created them.
   */
  lemma AggregateStable(site: Site, ids: seq<int>, es: seq<Engineer>, k: string)
    ensures WithKey(AggregateMonthlyByEngineer(site, ids, es), NameKey, k) == WithKey(Unsorted(site, ids, es), NameKey, k)
  {
    SortStable(Unsorted(site, ids, es), NameKey, k);
  }

  /** With no posts, the report is one zero row per listed engineer, and nothing else. */
  lemma EmptyReportListsEngineers(site: Site, es: seq<Engineer>, a: int)
    ensures Lookup(AggregateMonthlyByEngineer(site, [], es), a).Some? <==> EngineerIn(es, a)
    ensures EngineerIn(es, a) ==> Lookup(AggregateMonthlyByEngineer(site, [], es), a).value.total == 0
  {
    assert Slots(site, []) == [];
  }

  /** A post with an author and a canonical date lands in the month the date names. */
  lemma CountedInItsMonth(site: Site, id: int)
    requires AuthorOf(site.store, id) != 0 && ParseYmd(ReportDateFor(site, id)).Some?
    ensures SlotOf(site, id) == Some(Slot(AuthorOf(site.store, id), ParseYmd(ReportDateFor(site, id)).value.month - 1))
  {
    CanonicalMonth(site, ReportDateFor(site, id));
  }

  lemma CanonicalMonth(site: Site, v: string)
    requires ParseYmd(v).Some?
    ensures !Falsy(Str(v)) && MonthIndexOf(site, v) == ParseYmd(v).value.month - 1
  {
    assert |v| == 10;
  }
}
