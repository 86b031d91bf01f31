/**
 * The year index of the reports: the years for which cached report dates
 * exist (DMR_Reports::get_available_years) and the work orders dated within
 * one year (DMR_Reports::query_posts_for_year), including its soft backfill
 * of cache entries that are missing.
 */
module Years {
  import opened Options
  import opened Strings
  import opened Numerals
  import opened Ordering
  import opened DateParse
  import opened Resolver

  /** post_type = 'workorder' and post_status in ('publish', 'private'). */
  predicate Listed(s: Store, id: int)
  {
    IsWorkOrder(s, id) && (s[id].status == "publish" || s[id].status == "private")
  }

  function ListedIds(s: Store): set<int>
  {
    set id | id in s && Listed(s, id)
  }

  /** MySQL LEFT(v, 4). */
  function YearKey(v: string): string
  {
    if |v| <= 4 then v else v[..4]
  }

  /** The distinct LEFT(meta_value, 4) over the cached dates of listed work orders. */
  function YearKeys(s: Store, c: Cache): set<string>
  {
    set id | id in c && Listed(s, id) :: YearKey(c[id])
  }

  predicate StrictlyDescending(keys: seq<string>)
  {
    forall i, j :: 0 <= i < j < |keys| ==> LexLess(keys[j], keys[i])
  }

  /** Every cached date of a listed work order is canonical `Y-m-d` text, as the sync writes it. */
  predicate WellFormedCache(s: Store, c: Cache)
  {
    forall id :: id in c && Listed(s, id) ==> ParseYmd(c[id]).Some?
  }

  /** The calendar years of the cached dates of listed work orders. */
  function CachedYears(s: Store, c: Cache): set<int>
    requires WellFormedCache(s, c)
  {
    set id | id in c && Listed(s, id) :: ParseYmd(c[id]).value.year
  }

  /** The first four characters of a canonical date are its year, zero-padded. */
  lemma DateYearKey(v: string)
    requires ParseYmd(v).Some?
    ensures |YearKey(v)| == 4 && AllDigits(YearKey(v))
    ensures ToInt(YearKey(v)) == DigitsValue(YearKey(v)) == ParseYmd(v).value.year
  {
    ToIntOfDigits(v[..4]);
  }

  /**
   * DMR_Reports::get_available_years. `keys` is the SQL result (distinct
   * four-character prefixes, ORDER BY y DESC), `years` what the method returns.
   */
  method AvailableYears(s: Store, c: Cache, currentYear: int) returns (keys: seq<string>, years: seq<int>)
    ensures forall k :: k in keys <==> k in YearKeys(s, c)
    ensures StrictlyDescending(keys)
    ensures keys == [] ==> years == [currentYear]
    ensures keys != [] ==> |years| == |keys| && forall i :: 0 <= i < |keys| ==> years[i] == ToInt(keys[i])
    ensures WellFormedCache(s, c) && keys != [] ==>
              (forall i, j :: 0 <= i < j < |years| ==> years[j] < years[i]) &&
              (forall y :: y in years <==> y in CachedYears(s, c))
  {
    var ascending := SortedElements(YearKeys(s, c));
    var n := |ascending|;
    keys := seq(n, i requires 0 <= i < n => ascending[n - 1 - i]);
    forall k
      ensures k in keys <==> k in ascending
    {
      if k in ascending {
        var i :| 0 <= i < n && ascending[i] == k;
        assert keys[n - 1 - i] == k;
      }
    }
    if keys == [] {
      years := [currentYear];
    } else {
      years := seq(|keys|, i requires 0 <= i < |keys| => ToInt(keys[i]));
      if WellFormedCache(s, c) {
        KeysToYears(s, c, keys, years);
      }
    }
  }

  /**
   * Over a well-formed cache the year prefixes are four-digit strings, so
   * descending string order is descending numeric order and intval recovers
   * exactly the cached years.
   */
  lemma KeysToYears(s: Store, c: Cache, keys: seq<string>, years: seq<int>)
    requires WellFormedCache(s, c)
    requires forall k :: k in keys <==> k in YearKeys(s, c)
    requires StrictlyDescending(keys)
    requires |years| == |keys| && forall i :: 0 <= i < |keys| ==> years[i] == ToInt(keys[i])
    ensures forall i, j :: 0 <= i < j < |years| ==> years[j] < years[i]
    ensures forall y :: y in years <==> y in CachedYears(s, c)
  {
    forall i | 0 <= i < |keys|
      ensures |keys[i]| == 4 && AllDigits(keys[i]) && years[i] == DigitsValue(keys[i])
      ensures years[i] in CachedYears(s, c)
    {
      assert keys[i] in YearKeys(s, c);
      var id :| id in c && Listed(s, id) && YearKey(c[id]) == keys[i];
      DateYearKey(c[id]);
    }
    forall i, j | 0 <= i < j < |years|
      ensures years[j] < years[i]
    {
      DigitOrder(keys[j], keys[i]);
    }
    forall y | y in CachedYears(s, c)
      ensures y in years
    {
      var id :| id in c && Listed(s, id) && ParseYmd(c[id]).value.year == y;
      DateYearKey(c[id]);
      assert YearKey(c[id]) in YearKeys(s, c);
      var i :| 0 <= i < |keys| && keys[i] == YearKey(c[id]);
      assert years[i] == y;
    }
  }

  /** The bounds query_posts_for_year compares against: sprintf('%04d-01-01') and sprintf('%04d-12-31'). */
  function YearStart(y: int): string
  {
    Sprintf04d(y) + "-01-01"
  }

  function YearEnd(y: int): string
  {
    Sprintf04d(y) + "-12-31"
  }

  /** `$date >= $start && $date <= $end`, compared as strings. */
  predicate InYear(v: string, y: int)
  {
    LexLe(YearStart(y), v) && LexLe(v, YearEnd(y))
  }

  lemma TwoDigits(a: char, b: char)
    requires IsDigit(a) && IsDigit(b)
    ensures AllDigits([a, b]) && DigitsValue([a, b]) == 10 * DigitOf(a) + DigitOf(b)
  {
    assert [a, b][..1] == [a];
    assert [a][..0] == [];
  }

  /** The "-MM-DD" tail of a valid date lies between "-01-01" and "-12-31". */
  lemma MonthDayBounds(m: int, dd: int)
    requires 1 <= m <= 12 && 1 <= dd <= 31
    ensures LexLe("-01-01", "-" + Pad2(m) + "-" + Pad2(dd))
    ensures LexLe("-" + Pad2(m) + "-" + Pad2(dd), "-12-31")
  {
    var M, D := Pad2(m), Pad2(dd);
    TwoDigits('0', '1');
    TwoDigits('1', '2');
    TwoDigits('3', '1');
    assert "-01-01" == "-" + ("01" + ("-" + "01"));
    assert "-12-31" == "-" + ("12" + ("-" + "31"));
    assert "-" + M + "-" + D == "-" + (M + ("-" + D));
    // lower bound
    LexLeAppend("-", "01" + ("-" + "01"), "-", M + ("-" + D));
    LexLeAppend("01", "-" + "01", M, "-" + D);
    LexLeAppend("-", "01", "-", D);
    DigitOrder("01", M);
    DigitOrderLe("01", D);
    if m == 1 {
      DigitsInjective("01", M);
    }
    // upper bound
    LexLeAppend("-", M + ("-" + D), "-", "12" + ("-" + "31"));
    LexLeAppend(M, "-" + D, "12", "-" + "31");
    LexLeAppend("-", D, "-", "31");
    DigitOrder(M, "12");
    DigitOrderLe(D, "31");
    if m == 12 {
      DigitsInjective(M, "12");
    }
  }

  /**
   * The string range of any requested year holds exactly the dates of that
   * year; for a year outside 0..9999 it holds no date at all.
   */
  lemma InYearOfDate(d: CalDate, y: int)
    ensures InYear(FormatYmd(d), y) <==> d.year == y
  {
    var A, B := Sprintf04d(y), Sprintf04d(d.year);
    var tail := "-" + Pad2(d.month) + "-" + Pad2(d.day);
    FormatSplit(d);
    assert YearStart(y) == A + "-01-01";
    assert YearEnd(y) == A + "-12-31";
    MonthDayBounds(d.month, d.day);
    if 0 <= y <= 9999 {
      RangeOfParts(A, B, tail);
    } else if y > 9999 {
      LongYearOutside(A, B, tail);
    } else {
      NegativeYearOutside(A, B, tail);
    }
  }

  /** A head of five or more digits puts no four-digit-year date inside its range. */
  lemma LongYearOutside(A: string, B: string, tail: string)
    requires |A| > 4 && |B| == 4 && AllDigits(A)
    requires tail != [] && tail[0] == '-'
    ensures !(LexLe(A + "-01-01", B + tail) && LexLe(B + tail, A + "-12-31"))
  {
    var H, x, z := A[..4], A[4..] + "-01-01", A[4..] + "-12-31";
    assert A + "-01-01" == H + x;
    assert A + "-12-31" == H + z;
    LexLeAppend(H, x, B, tail);
    LexLeAppend(B, tail, H, z);
    if LexLess(H, B) && LexLess(B, H) {
      LexLeAntisym(H, B);
    }
  }

  /** A head starting with '-' sorts below every date starting with a digit. */
  lemma NegativeYearOutside(A: string, B: string, tail: string)
    requires A != [] && A[0] == '-' && B != [] && IsDigit(B[0])
    ensures !LexLe(B + tail, A + "-12-31")
  {
  }

  /** A formatted date is its year's four digits followed by the "-MM-DD" tail. */
  lemma FormatSplit(d: CalDate)
    ensures FormatYmd(d) == Sprintf04d(d.year) + ("-" + Pad2(d.month) + "-" + Pad2(d.day))
  {
    var y, m, dd := Sprintf04d(d.year), Pad2(d.month), Pad2(d.day);
    assert y + "-" + m + "-" + dd == y + ("-" + m + "-" + dd);
  }

  /**
   * With a tail inside "-01-01" .. "-12-31", B + tail lies between A + "-01-01"
   * and A + "-12-31" exactly when the equally long heads agree.
   */
  lemma RangeOfParts(A: string, B: string, tail: string)
    requires |A| == |B|
    requires LexLe("-01-01", tail) && LexLe(tail, "-12-31")
    ensures LexLe(A + "-01-01", B + tail) && LexLe(B + tail, A + "-12-31") <==> A == B
  {
    LexLeAppend(A, "-01-01", B, tail);
    LexLeAppend(B, tail, A, "-12-31");
    if LexLess(A, B) && LexLess(B, A) {
      LexLeAntisym(A, B);
    }
  }

  /** The same, for cached text that parses. */
  lemma InYearOfText(v: string, y: int)
    requires ParseYmd(v).Some?
    ensures InYear(v, y) <==> ParseYmd(v).value.year == y
  {
    FormatOfParse(v);
    InYearOfDate(ParseYmd(v).value, y);
  }

  /** A falsy meta value ('' or '0') is never inside a year's range. */
  lemma FalsyNotInYear(v: string, y: int)
    requires Falsy(Str(v))
    ensures !InYear(v, y)
  {
    var st, en := YearStart(y), YearEnd(y);
    if v == "0" {
      if y >= 0 {
        if st[0] == '0' {
          assert LexLe(v, st) by {
            assert v[1..] == [];
          }
          if LexLe(st, v) {
            LexLeAntisym(st, v);
          }
        }
      } else {
        assert en[0] == '-';
      }
    }
  }

  /** The ids the indexed meta query returns. */
  function IndexedIds(s: Store, c: Cache, y: int): set<int>
  {
    set id | id in c && Listed(s, id) && InYear(c[id], y)
  }

  /** `!$date` for a meta read: absent (read as ''), '' or '0'. */
  predicate NeedsBackfill(c: Cache, id: int)
  {
    id !in c || Falsy(Str(c[id]))
  }

  /**
   * `c1` is `c0` after sync_report_date has run for every listed work order
   * whose cached date is missing or falsy, and for no other post.
   */
  ghost predicate Backfilled(s: Store, p: Parsers, c0: Cache, c1: Cache)
  {
    forall id :: Entry(c1, id) == BackfillEntry(s, p, c0, id, {})
  }

  /** The entry a backfill leaves for `id`, when the ids in `pending` are still to be visited. */
  function BackfillEntry(s: Store, p: Parsers, c0: Cache, id: int, pending: set<int>): Option<string>
  {
    if id in ListedIds(s) && id !in pending && NeedsBackfill(c0, id) then Entry(SyncReportDate(s, p, c0, id), id) else Entry(c0, id)
  }

  /** What a sync writes for an id depends on the cache only through that id's entry. */
  lemma SyncEntryLocal(s: Store, p: Parsers, c1: Cache, c2: Cache, id: int)
    requires Entry(c1, id) == Entry(c2, id)
    ensures Entry(SyncReportDate(s, p, c1, id), id) == Entry(SyncReportDate(s, p, c2, id), id)
  {
  }

  /**
   * DMR_Reports::query_posts_for_year. The indexed query answers when it
   * finds anything; otherwise every listed work order is visited, its cache
   * entry backfilled when missing, and kept when its date falls in the year.
   */
  method QueryPostsForYear(s: Store, p: Parsers, c: Cache, year: int) returns (ids: set<int>, c': Cache)
    ensures forall id :: id in ids <==> id in ListedIds(s) && id in c' && InYear(c'[id], year)
    ensures IndexedIds(s, c, year) != {} ==> c' == c
    ensures IndexedIds(s, c, year) == {} ==> Backfilled(s, p, c, c')
  {
    var indexed := IndexedIds(s, c, year);
    if indexed != {} {
      return indexed, c;
    }
    ids, c' := {}, c;
    var rest := ListedIds(s);
    while rest != {}
      invariant rest <= ListedIds(s)
      invariant forall id :: Entry(c', id) == BackfillEntry(s, p, c, id, rest)
      invariant forall id :: id in ids <==> id in ListedIds(s) && id !in rest && id in c' && InYear(c'[id], year)
      decreases |rest|
    {
      var pid :| pid in rest;
      var before := c';
      var date := if pid in c' then c'[pid] else "";
      if Falsy(Str(date)) {
        c' := SyncReportDate(s, p, c', pid);
        date := if pid in c' then c'[pid] else "";
      }
      BackfillStep(s, p, c, before, c', rest, pid);
      var found := ids;
      if Falsy(Str(date)) {
        FalsyNotInYear(date, year);
      } else if InYear(date, year) {
        ids := ids + {pid};
      }
      FoundStep(ListedIds(s), before, c', rest, pid, year, found, ids);
      rest := rest - {pid};
    }
  }

  /** Visiting one pending id keeps the loop's account of the ids found. */
  lemma FoundStep(listed: set<int>, cur: Cache, next: Cache, rest: set<int>, pid: int, year: int,
                  found: set<int>, found': set<int>)
    requires pid in rest && rest <= listed
    requires forall id :: id in found <==> id in listed && id !in rest && id in cur && InYear(cur[id], year)
    requires forall id :: id != pid ==> Entry(next, id) == Entry(cur, id)
    requires found' == if pid in next && InYear(next[pid], year) then found + {pid} else found
    ensures forall id :: id in found' <==> id in listed && id !in rest - {pid} && id in next && InYear(next[id], year)
  {
    forall id | id != pid
      ensures id in next <==> id in cur
      ensures id in next ==> next[id] == cur[id]
    {
      assert Entry(next, id) == Entry(cur, id);
    }
  }

  /** Visiting one pending id keeps the loop's account of the cache. */
  lemma BackfillStep(s: Store, p: Parsers, c: Cache, cur: Cache, next: Cache, rest: set<int>, pid: int)
    requires pid in rest && rest <= ListedIds(s)
    requires forall id :: Entry(cur, id) == BackfillEntry(s, p, c, id, rest)
    requires next == if NeedsBackfill(cur, pid) then SyncReportDate(s, p, cur, pid) else cur
    ensures forall id :: Entry(next, id) == BackfillEntry(s, p, c, id, rest - {pid})
    ensures forall id :: id != pid ==> Entry(next, id) == Entry(cur, id)
  {
    assert Entry(cur, pid) == Entry(c, pid) by {
      assert Entry(cur, pid) == BackfillEntry(s, p, c, pid, rest);
    }
    SyncEntryLocal(s, p, cur, c, pid);
    forall id
      ensures Entry(next, id) == BackfillEntry(s, p, c, id, rest - {pid})
    {
      assert Entry(cur, id) == BackfillEntry(s, p, c, id, rest);
      if id == pid {
        assert NeedsBackfill(cur, pid) == NeedsBackfill(c, pid);
      }
    }
  }

  /** A second backfill right after the first finds nothing to do. */
  lemma BackfillConverges(s: Store, p: Parsers, c0: Cache, c1: Cache, c2: Cache)
    requires Backfilled(s, p, c0, c1) && Backfilled(s, p, c1, c2)
    ensures c2 == c1
  {
    forall id
      ensures Entry(c2, id) == Entry(c1, id)
    {
      assert Entry(c1, id) == BackfillEntry(s, p, c0, id, {});
      assert Entry(c2, id) == BackfillEntry(s, p, c1, id, {});
      if id in ListedIds(s) && NeedsBackfill(c1, id) {
        assert NeedsBackfill(c0, id);
      }
    }
    CacheExt(c2, c1);
  }

  /**
   * After a backfill, a listed work order that still has no usable cached
   * date is one whose date cannot be computed or that sync_report_date skips.
   */
  lemma BackfillComplete(s: Store, p: Parsers, c0: Cache, c1: Cache, id: int)
    requires Backfilled(s, p, c0, c1)
    requires id in ListedIds(s) && Eligible(s, id) && NeedsBackfill(c1, id)
    ensures Expected(s, p, id).None?
  {
    assert Entry(c1, id) == BackfillEntry(s, p, c0, id, {});
    ExpectedTruthy(s, p, id);
  }

  /** A computed date is never falsy text. */
  lemma ExpectedTruthy(s: Store, p: Parsers, id: int)
    ensures Expected(s, p, id).Some? ==> !Falsy(Str(Expected(s, p, id).value))
  {
    var d := ComputeReportDate(s, p, id);
    if d != "" {
      CanonicalTruthy(d);
    }
  }

  /** Canonical `Y-m-d` text is truthy. */
  lemma CanonicalTruthy(v: string)
    requires ParseYmd(v).Some?
    ensures !Falsy(Str(v))
  {
    assert |v| == 10;
  }
}
