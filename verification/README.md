# DMR Reports: a Dafny model of the report-date resolver and aggregator

This project models the computational core of the `DMR_Reports` class of the
Dominus Milay Report WordPress plugin (`includes/class-dmr-reports.php`):

- the **Date Resolver**, which picks one canonical report date per work order:
  - `compute_report_date` chooses a custom field from the work order's category
    tags, parses it, and falls back to `post_date`;
  - `parse_any_date` dispatches over the shapes a field value can take;
  - `sync_report_date` and `sync_report_date_from_acf` keep the cached
    `dmr_report_date` meta in step with it;
- the **year index**:
  - `get_available_years` lists the distinct cached years, newest first;
  - `query_posts_for_year` returns the work orders dated in one year, with its
    soft backfill of missing cache entries;
- the **Aggregator**:
  - `aggregate_monthly_by_engineer` builds per-author monthly counts, padded
    with every engineer and sorted by name;
  - `aggregate_by_state` builds per-state counts, sorted by key.

Everything is functional. Posts are a `map<int, Post>` and the meta cache is a
`map<int, string>`. Syncing is a function from cache to cache. WordPress
lookups read those maps. The date primitives are opaque, possibly failing
functions bundled in a `Parsers` value: `DateTime::createFromFormat`,
`strtotime`, and the re-reading of a `DateTimeInterface` in the site time zone.

The PHP behaviour the code relies on is written out. It is PHP 8 behaviour,
and PHP 8.2 or later for `strtolower`:

- `strtolower` is ASCII-only (in PHP 8.0 and 8.1 it follows the locale);
- `trim` strips `" \t\n\r\0\x0B"`;
- the `(int)` cast reads leading whitespace, an optional sign and digits;
- `is_numeric` accepts integer text, including trailing whitespace;
- `sprintf('%04d')` pads with zeros, and a minus sign counts toward the width;
- `$` in PCRE also matches before a final newline;
- `strcmp` and `strcasecmp` order strings byte-wise, and so does `ksort` for
  two string keys that are not both numeric;
- `uasort` is stable.

Files and modules:

- `strings.dfy`: `Options` and `Strings` (lower-casing, trim, byte-wise order).
- `numerals.dfy`: `Numerals` (digit strings, int/string conversions, zero padding).
- `ordering.dfy`: `Ordering` (a stable insertion sort by string key, its
  stability, permutation and sum lemmas, and set-to-sorted-sequence).
- `dates.dfy`: `DateParse` (calendar dates, the `Y-m-d` round trip, PHP mixed
  values, `parse_any_date`).
- `resolver.dfy`: `Resolver` (field selection, `compute_report_date`, the syncs).
- `years.dfy`: `Years` (`get_available_years`, `query_posts_for_year`).
- `monthly.dfy`: `Monthly` (`aggregate_monthly_by_engineer`).
- `states.dfy`: `States` (`aggregate_by_state`).

## Model

| member | source | states |
|---|---|---|
| Strings.Lower | includes/class-dmr-reports.php:20-24 | strtolower keeps the length, leaves no upper-case ASCII letter, changes only `A`-`Z` (each by +32) |
| Strings.LowerIdempotent | includes/class-dmr-reports.php:20-24 | lower-casing an already lower-cased name or needle changes nothing |
| Strings.Trim | includes/class-dmr-reports.php:240 | trim() never grows the text, leaves none of `" \t\n\r\0\x0B"` at either end, and yields '' exactly when every character is one of them |
| Strings.TrimKeepsMiddle | includes/class-dmr-reports.php:240 | trim() returns a slice of its input, and everything it cuts from either end is one of `" \t\n\r\0\x0B"` |
| Strings.TrimIdempotent | includes/class-dmr-reports.php:240 | a trimmed state label is left alone by a second trim |
| Strings.LexLeTrans | includes/class-dmr-reports.php:174 | the byte-wise string order used by `>=`/`<=` on dates is transitive |
| Strings.LexLeAppend | includes/class-dmr-reports.php:174 | comparing two strings with equal-length prefixes: the prefixes decide unless equal, then the suffixes decide |
| Numerals.DigitOrder | includes/class-dmr-reports.php:174 | on digit strings of one length, string order is numeric order, so zero-padded dates compare as dates |
| Numerals.Sprintf04d | includes/class-dmr-reports.php:141-142 | sprintf('%04d', y) is, for y >= 0, a digit string of value y that is four characters long for y <= 9999 and longer above; for negative y it is '-' followed by digits of value -y, at least four characters in all; zeros pad only up to four characters, so a longer result has no leading zero |
| Numerals.ToIntOfIntToString | includes/class-dmr-reports.php:102 | the (int) cast reads back the decimal text of every int |
| Numerals.IntToStringIsNumeric | includes/class-dmr-reports.php:57 | the text of every int passes is_numeric |
| Numerals.ToIntOfDigits | includes/class-dmr-reports.php:133 | intval of a zero-padded digit string is its numeric value |
| DateParse.ParseOfFormat | includes/class-dmr-reports.php:48 | a date formatted `Y-m-d` reads back as the same date |
| DateParse.FormatOfParse | includes/class-dmr-reports.php:48 | `Y-m-d` text that reads as a date is exactly that date's formatted text (the cache text is canonical) |
| DateParse.MonthOfFormat | includes/class-dmr-reports.php:199 | the month read back from a formatted date is the date's month |
| DateParse.CompactCandidate | includes/class-dmr-reports.php:57 | an int or a string is taken for the `Ymd` path exactly when its text is eight digits (optionally followed by one newline), and what is taken is numeric |
| DateParse.EightDigitsNumeric | includes/class-dmr-reports.php:57 | eight digits, with or without one trailing newline, pass PHP 8 is_numeric |
| DateParse.TryFormats | includes/class-dmr-reports.php:63-67 | the first format that accepts the string decides the result; if none accepts, there is no result |
| DateParse.ParseAnyDate | includes/class-dmr-reports.php:54-79 | falsy input gives null; eight-digit numeric input goes through `Ymd` alone; other strings take the first accepting format of the fixed list, and strtotime only when none accepts; a DateTimeInterface is re-read; any other value gives null |
| Resolver.SelectField | includes/class-dmr-reports.php:28-39 | the if/elseif chain equals the first matching rule of the ordered table closed, scheduled, open/dispatched, with `date_requested_by_customer` as default |
| Resolver.ClosedWins | includes/class-dmr-reports.php:30-31 | a `closed` tag selects `closed_on` whatever tags surround it |
| Resolver.ScheduledBeatsOpen | includes/class-dmr-reports.php:30-33 | without `closed`, a `scheduled` tag selects `schedule_date_time` even when `open` or `dispatched` is present |
| Resolver.TermMatchIgnoresCase | includes/class-dmr-reports.php:15-26 | needles that differ only in letter case match the same term lists, and lower-casing every term's name and slug changes no match |
| Resolver.ComputeReportDate | includes/class-dmr-reports.php:11-49 | the result is '' or canonical `Y-m-d`; id 0 or an unknown post gives ''; it is non-empty exactly when the selected field or the post date parses; it is the selected field's date when that parses, else the post date's |
| Resolver.ClosedOnDecides | includes/class-dmr-reports.php:30-48 | a work order tagged `closed` whose `closed_on` parses to d is dated d, whatever else it holds |
| Resolver.NoDateAnywhere | includes/class-dmr-reports.php:41-48 | with neither the selected field nor the post date parseable the result is '' |
| Resolver.SyncReportDate | includes/class-dmr-reports.php:84-95 | only the entry of the given post may change; a non-work-order, autosave or revision leaves the cache as it was; otherwise the entry becomes the computed date, or is removed when that is ''; every value written is canonical `Y-m-d` text |
| Resolver.SyncFixpoint | includes/class-dmr-reports.php:89-94 | an entry that already holds the computed date is left as it is |
| Resolver.SyncIdempotent | includes/class-dmr-reports.php:84-95 | syncing twice with unchanged inputs gives the cache syncing once gives |
| Resolver.AcfPostId | includes/class-dmr-reports.php:100-107 | an int is the id; numeric text is cast; text starting `post_` is cast after stripping five characters; anything else is no id |
| Resolver.AcfPrefixedId | includes/class-dmr-reports.php:103-104 | "post_<id>" yields the id back |
| Resolver.AcfNumericId | includes/class-dmr-reports.php:101-102 | the decimal text of an id yields the id back |
| Resolver.SyncFromAcf | includes/class-dmr-reports.php:100-111 | no id, id 0 or a non-work-order leaves the cache alone; only the extracted id's entry may change; for an eligible work order it becomes the computed date |
| Resolver.AcfEntryPointsAgree | includes/class-dmr-reports.php:100-111 | an int id, its decimal text and "post_<id>" all lead to the same sync as sync_report_date(id) |
| Years.AvailableYears | includes/class-dmr-reports.php:116-134 | the SQL keys are exactly the distinct four-character prefixes of listed work orders' cached dates, strictly descending; the years are their intval, or exactly [currentYear] when there are none; over canonical cached dates the years strictly decrease and are exactly the cached years |
| Years.KeysToYears | includes/class-dmr-reports.php:127-133 | over canonical cached dates, descending prefixes give strictly decreasing years that are exactly the calendar years of the cached dates |
| Years.InYearOfDate | includes/class-dmr-reports.php:140-142 | for every requested year a formatted date lies between sprintf('%04d-01-01') and sprintf('%04d-12-31') as strings exactly when its year is the requested one; no date lies in the range of a year outside 0..9999 |
| Years.InYearOfText | includes/class-dmr-reports.php:174 | the same range test on a canonical cached date holds exactly when the date's year is the requested one |
| Years.FalsyNotInYear | includes/class-dmr-reports.php:174 | '' and '0' never fall inside a year's range, so the truthiness guard changes nothing |
| Years.QueryPostsForYear | includes/class-dmr-reports.php:139-181 | an id is returned exactly when it is a listed work order whose (final) cached date is in the year's string range; a non-empty indexed result is returned with the cache untouched; otherwise the cache is the backfill of the original |
| Years.BackfillStep | includes/class-dmr-reports.php:168-173 | visiting one pending work order syncs it exactly when its entry is missing or falsy and touches no other entry |
| Years.BackfillConverges | includes/class-dmr-reports.php:160-178 | a second backfill right after a first leaves the cache unchanged |
| Years.BackfillComplete | includes/class-dmr-reports.php:168-173 | after a backfill, an eligible listed work order still lacking a usable date is one whose date cannot be computed |
| Monthly.ExpectedWellFormed | includes/class-dmr-reports.php:203-210 | the twelve month counts of an author add up to the author's total |
| Monthly.CountStep | includes/class-dmr-reports.php:200-209 | counting one more post of an author turns the row held so far (or a fresh zero row) into the row of the longer list |
| Monthly.Bump | includes/class-dmr-reports.php:200-209 | one counted post adds one to its author's month and total, creating the row under the author's name first, and leaves every other row alone |
| Monthly.Tally | includes/class-dmr-reports.php:189-211 | after the counting loop there is a row exactly for each author with a counted post, holding that author's per-month counts and total; engineers are unique; the totals add up to the number of counted posts |
| Monthly.FirstName | includes/class-dmr-reports.php:214-215 | the padding name of an engineer is the display name of the first listed entry with that id |
| Monthly.Pad | includes/class-dmr-reports.php:213-222 | padding keeps the existing rows as a prefix, adds one zero row for each listed engineer without a row, and leaves the sum of totals unchanged |
| Monthly.AggregateMonthlyByEngineer | includes/class-dmr-reports.php:187-230 | rows are sorted by lower-cased name, with unique engineers and twelve months summing to the total; totals add up to the counted posts; each author with a counted post has exactly its counts, every other listed engineer a zero row, nobody else a row |
| Monthly.AggregateStable | includes/class-dmr-reports.php:224-227 | rows whose names compare equal keep the order in which the loops created them |
| Monthly.EmptyReportListsEngineers | includes/class-dmr-reports.php:213-222 | with no posts the report has a zero row for every listed engineer and for nobody else |
| Monthly.CountedInItsMonth | includes/class-dmr-reports.php:190-199 | a post with an author and a canonical date is counted under that author in the date's month |
| Ordering.SortStable | includes/class-dmr-reports.php:225-227 | the sort keeps the relative order of elements with equal keys |
| Ordering.InsertionSort | includes/class-dmr-reports.php:225-227 | the sort yields a sorted permutation of its input |
| Ordering.SortedElements | includes/class-dmr-reports.php:120-126 | a set of strings becomes a strictly ascending sequence of exactly its elements |
| States.StateLabel | includes/class-dmr-reports.php:239-241 | a label is never empty and is already trimmed; a string state with non-blank content is counted under its trimmed text, and a blank or non-string state under '(Unspecified)' |
| States.CountLabelPositive | includes/class-dmr-reports.php:242-243 | a label is counted at least once exactly when some post carries it |
| States.TallyStates | includes/class-dmr-reports.php:238-244 | the counting loop holds one entry per label that occurs, with the number of its occurrences; the counts add up to the number of ids |
| States.AggregateByState | includes/class-dmr-reports.php:236-247 | keys are strictly ascending; exactly the labels some post carries appear, each with its positive count; every key is non-empty and trimmed; the counts add up to the number of ids |
| States.BlanksIgnored | includes/class-dmr-reports.php:240 | two states that differ only in surrounding whitespace are counted under the same label |

## Left out

- WordPress and database plumbing is not modelled as calls. This covers
  `wp_get_post_terms`, `get_field`, `get_post_meta`, `get_post_field`,
  `WP_Query`, `get_posts`, `get_users`, `get_user_by` and `$wpdb`. These
  become the `Store`, `Cache`, user-name map and engineer list that the
  functions read.
- The `get_post_meta` branch taken when `get_field` does not exist is left
  out. Custom fields are always read through the field map.
- Time zones (`wp_timezone`, `setTimezone`) are opaque, and so is everything
  `DateTime::createFromFormat` and `strtotime` accept, including their lenient
  overflow rules. They are the opaque `Parsers` functions.
- `date('n', strtotime($date))` on cached text that is not canonical `Y-m-d`
  is the opaque `Site.otherMonth`. On canonical text it reads the `MM` field.
- Floating-point field values are left out. So are numeric strings with a
  fraction or an exponent, and saturation at `PHP_INT_MAX`.
- Dates outside years 0..9999 are left out (`CalDate`), as is `format('Y')`
  for such years.
- `Strings.Trim`: its contract does not say that the result is a slice of
  the input. `Strings.TrimKeepsMiddle` states that for every input. The slice
  equation stays out of the contract because it would otherwise reach every
  proof that uses `trim`.
- The indexed meta query (`BETWEEN` with `type => DATE`) and
  `LEFT(meta_value, 4)` are modelled as string operations on the cached text.
  MySQL's DATE cast of malformed values and its collation are left out.
- The order in which WordPress returns post ids is left out.
  `Years.QueryPostsForYear` returns a set.
- `States.AggregateByState`: the keys are ordered byte-wise, which is how
  `ksort` orders two string keys unless both are numeric. Numeric labels are
  ordered differently in PHP, and that order is left out. A label that is
  canonical decimal text becomes an integer key. Two numeric string keys
  (such as `"9.5"` and `"10.5"`) are compared by value, so `"9.5"` comes
  first, while the model puts `"10.5"` first. Numeric strings with a fraction
  or an exponent need floating point, which the model leaves out.
- `Monthly.Tally`: the order of rows before the sort (authors by first
  counted post, then padded engineers in list order) is not stated. Only
  its use as the tie order of the stable sort is, through
  `Monthly.AggregateStable`.
- A `WP_Error` from `wp_get_post_terms` is treated as no terms.
- The comment inside the default branch of the field selection (line 37)
  promises a requested, then scheduled, then closed fallback chain. The code
  reads only `date_requested_by_customer`, and the model follows the code.
- Repeated backfill work is not bounded. When no date resolves for a work
  order, the sync deletes its meta (line 93), so every later fallback
  scan of `query_posts_for_year` recomputes it. `Years.BackfillConverges`
  shows only that the cache stops changing.
- `get_engineer_thumbnail_html` and `render_year_filter` produce HTML over
  attachment and avatar APIs, and are left out.
- `includes/class-dmr-cpt.php` is not part of this model. It only registers
  the post type, roles and capabilities.
- `dominus-milay-report.php` is not part of this model. It is the bootstrap,
  and its `set_object_terms` closure only forwards to `sync_report_date`.
- Concurrency (last-write-wins between simultaneous syncs) is left out.
