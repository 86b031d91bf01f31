/**
 * The Date Resolver of DMR_Reports: choosing the authoritative date field from
 * a work order's category terms (compute_report_date), and keeping the cached
 * `dmr_report_date` meta in step with it (sync_report_date and its custom-field
 * save entry point, sync_report_date_from_acf).
 *
 * The post store and the meta cache are immutable maps; WordPress lookups
 * (get_post_type, wp_get_post_terms, get_field, get_post_field) read them.
 */
module Resolver {
  import opened Options
  import opened Strings
  import opened Numerals
  import opened DateParse

  /** A term of the `category` taxonomy attached to a post. */
  datatype Term = Term(name: string, slug: string)

  /** A post, as far as the reports read it. */
  datatype Post = Post(
    postType: string,
    status: string,
    author: int,                  // post_author; 0 when there is none
    terms: seq<Term>,             // its `category` terms
    fields: map<string, Mixed>,   // custom fields by key; a missing key reads as null
    postDate: string,             // post_date
    isAutosave: bool,
    isRevision: bool)

  /** Posts by id. */
  type Store = map<int, Post>

  /** The `dmr_report_date` meta by post id; an id is absent when nothing is cached. */
  type Cache = map<int, string>

  const WorkOrderType: string := "workorder"

  predicate IsWorkOrder(s: Store, id: int)
  {
    id in s && s[id].postType == WorkOrderType
  }

  /** wp_get_post_terms($id, 'category'); an unknown post has no terms. */
  function TermsOf(s: Store, id: int): seq<Term>
  {
    if id in s then s[id].terms else []
  }

  /** get_field($key, $id): null when the post or the field is missing. */
  function FieldOf(s: Store, id: int, key: string): Mixed
  {
    if id in s && key in s[id].fields then s[id].fields[key] else Null
  }

  /** get_post_field('post_date', $id): '' for an unknown post. */
  function PostDateOf(s: Store, id: int): string
  {
    if id in s then s[id].postDate else ""
  }

  /** The `$has` closure: some term's lower-cased name or slug equals the lower-cased needle. */
  predicate HasTerm(terms: seq<Term>, needle: string)
  {
    exists i :: 0 <= i < |terms| && (Lower(terms[i].name) == Lower(needle) || Lower(terms[i].slug) == Lower(needle))
  }

  /** The custom fields a report date can come from. */
  datatype DateField = ClosedOn | ScheduleDateTime | DateRequestedByCustomer

  function FieldKey(f: DateField): string
  {
    match f
    case ClosedOn => "closed_on"
    case ScheduleDateTime => "schedule_date_time"
    case DateRequestedByCustomer => "date_requested_by_customer"
  }

  /**
   * The field-selection policy as a decision table: the first rule one of
   * whose tags the post carries names the field; with no match, the default.
   */
  datatype Rule = Rule(tags: seq<string>, field: DateField)

  const PriorityRules: seq<Rule> := [
    Rule(["closed"], ClosedOn),
    Rule(["scheduled"], ScheduleDateTime),
    Rule(["open", "dispatched"], DateRequestedByCustomer)
  ]

  const DefaultField: DateField := DateRequestedByCustomer

  predicate RuleMatches(r: Rule, terms: seq<Term>)
  {
    exists k :: 0 <= k < |r.tags| && HasTerm(terms, r.tags[k])
  }

  function FirstRule(rules: seq<Rule>, terms: seq<Term>, default: DateField): DateField
  {
    if rules == [] then default
    else if RuleMatches(rules[0], terms) then rules[0].field
    else FirstRule(rules[1..], terms, default)
  }

  /** The if/elseif chain of compute_report_date choosing the field to read. */
  function SelectField(terms: seq<Term>): (f: DateField)
    ensures f == FirstRule(PriorityRules, terms, DefaultField)
  {
    var r0, r1, r2 := PriorityRules[0], PriorityRules[1], PriorityRules[2];
    assert RuleMatches(r0, terms) <==> HasTerm(terms, "closed") by {
      assert r0.tags[0] == "closed";
    }
    assert RuleMatches(r1, terms) <==> HasTerm(terms, "scheduled") by {
      assert r1.tags[0] == "scheduled";
    }
    assert RuleMatches(r2, terms) <==> HasTerm(terms, "open") || HasTerm(terms, "dispatched") by {
      assert r2.tags[0] == "open" && r2.tags[1] == "dispatched";
    }
    var rest1 := PriorityRules[1..];
    var rest2 := rest1[1..];
    var rest3 := rest2[1..];
    assert rest1[0] == r1 && rest2[0] == r2 && rest3 == [];
    assert FirstRule(rest3, terms, DefaultField) == DefaultField;
    assert FirstRule(rest2, terms, DefaultField) == if RuleMatches(r2, terms) then r2.field else DefaultField;
    assert FirstRule(rest1, terms, DefaultField) == if RuleMatches(r1, terms) then r1.field else FirstRule(rest2, terms, DefaultField);
    if HasTerm(terms, "closed") then ClosedOn
    else if HasTerm(terms, "scheduled") then ScheduleDateTime
    else if HasTerm(terms, "open") || HasTerm(terms, "dispatched") then DateRequestedByCustomer
    else DateRequestedByCustomer
  }

  /** A `closed` term wins whatever other terms surround it. */
  lemma {:induction false} ClosedWins(terms: seq<Term>, before: seq<Term>, after: seq<Term>)
    requires HasTerm(terms, "closed")
    ensures SelectField(before + terms + after) == ClosedOn
  {
    var i :| 0 <= i < |terms| && (Lower(terms[i].name) == Lower("closed") || Lower(terms[i].slug) == Lower("closed"));
    assert (before + terms + after)[|before| + i] == terms[i];
  }

  /** Without `closed`, `scheduled` wins over `open` and `dispatched`. */
  lemma ScheduledBeatsOpen(terms: seq<Term>)
    requires !HasTerm(terms, "closed") && HasTerm(terms, "scheduled")
    ensures SelectField(terms) == ScheduleDateTime
  {
  }

  /** Every term with its name and slug lower-cased. */
  function LowerTerms(ts: seq<Term>): (r: seq<Term>)
    ensures |r| == |ts|
    ensures forall i :: 0 <= i < |ts| ==> r[i] == Term(Lower(ts[i].name), Lower(ts[i].slug))
  {
    seq(|ts|, i requires 0 <= i < |ts| => Term(Lower(ts[i].name), Lower(ts[i].slug)))
  }

  /**
   * Term matching ignores case on both sides: needles that differ only in
   * case match the same term lists, and lower-casing every term's name and
   * slug changes no match.
   */
  lemma {:induction false} TermMatchIgnoresCase(ts: seq<Term>, n1: string, n2: string)
    ensures Lower(n1) == Lower(n2) ==> (HasTerm(ts, n1) <==> HasTerm(ts, n2))
    ensures HasTerm(LowerTerms(ts), n1) <==> HasTerm(ts, n1)
  {
    var lts := LowerTerms(ts);
    forall i | 0 <= i < |ts|
      ensures Lower(lts[i].name) == Lower(ts[i].name) && Lower(lts[i].slug) == Lower(ts[i].slug)
    {
      LowerIdempotent(ts[i].name);
      LowerIdempotent(ts[i].slug);
    }
  }

  /** The parsed value of the field the terms select. */
  function SelectedDate(s: Store, p: Parsers, id: int): Option<CalDate>
  {
    ParseAnyDate(p, FieldOf(s, id, FieldKey(SelectField(TermsOf(s, id)))))
  }

  /** The parsed post_date, the fallback of last resort. */
  function FallbackDate(s: Store, p: Parsers, id: int): Option<CalDate>
  {
    ParseAnyDate(p, Str(PostDateOf(s, id)))
  }

  /** The date compute_report_date settles on before formatting it. */
  function ResolvedDate(s: Store, p: Parsers, id: int): Option<CalDate>
  {
    if id == 0 then None
    else if SelectedDate(s, p, id).Some? then SelectedDate(s, p, id)
    else FallbackDate(s, p, id)
  }

  /**
   * DMR_Reports::compute_report_date: the selected field's date, else the
   * post date, as `Y-m-d`; '' when neither parses or the id is 0.
   */
  function ComputeReportDate(s: Store, p: Parsers, id: int): (r: string)
    ensures r == "" || ParseYmd(r).Some?
    ensures id == 0 || id !in s ==> r == ""
    ensures id != 0 ==> (r != "" <==> SelectedDate(s, p, id).Some? || FallbackDate(s, p, id).Some?)
    ensures id != 0 && SelectedDate(s, p, id).Some? ==> ParseYmd(r) == SelectedDate(s, p, id)
    ensures id != 0 && SelectedDate(s, p, id).None? ==> ParseYmd(r) == FallbackDate(s, p, id)
  {
    if id !in s then MissingPostUndated(s, p, id); ""
    else
      match ResolvedDate(s, p, id)
      case Some(d) => ParseOfFormat(d); FormatYmd(d)
      case None => ""
  }

  /** A post that does not exist has neither a field date nor a post date. */
  lemma MissingPostUndated(s: Store, p: Parsers, id: int)
    requires id !in s
    ensures SelectedDate(s, p, id).None? && FallbackDate(s, p, id).None?
  {
    assert Falsy(FieldOf(s, id, FieldKey(SelectField(TermsOf(s, id)))));
    assert Falsy(Str(PostDateOf(s, id)));
  }

  /** A closed work order whose `closed_on` parses is dated by it, whatever else it holds. */
  lemma ClosedOnDecides(s: Store, p: Parsers, id: int, d: CalDate)
    requires id != 0 && HasTerm(TermsOf(s, id), "closed")
    requires ParseAnyDate(p, FieldOf(s, id, "closed_on")) == Some(d)
    ensures ComputeReportDate(s, p, id) == FormatYmd(d)
  {
    FormatOfParse(ComputeReportDate(s, p, id));
  }

  /** With no parseable selected field and no parseable post date there is no report date. */
  lemma NoDateAnywhere(s: Store, p: Parsers, id: int)
    requires SelectedDate(s, p, id).None? && FallbackDate(s, p, id).None?
    ensures ComputeReportDate(s, p, id) == ""
  {
  }

  /** sync_report_date acts only on work orders that are not autosaves or revisions. */
  predicate Eligible(s: Store, id: int)
  {
    IsWorkOrder(s, id) && !s[id].isAutosave && !s[id].isRevision
  }

  /** The cache entry of one id, None when absent (get_post_meta(..., true) then reads ''). */
  function Entry(c: Cache, id: int): Option<string>
  {
    if id in c then Some(c[id]) else None
  }

  /** What the entry of `id` should hold: the computed date, or nothing when it is ''. */
  function Expected(s: Store, p: Parsers, id: int): Option<string>
  {
    var d := ComputeReportDate(s, p, id);
    if d != "" then Some(d) else None
  }

  /** Two caches that agree on every entry are the same cache. */
  lemma CacheExt(c1: Cache, c2: Cache)
    requires forall k :: Entry(c1, k) == Entry(c2, k)
    ensures c1 == c2
  {
    forall k | k in c1
      ensures k in c2 && c1[k] == c2[k]
    {
      assert Entry(c1, k) == Entry(c2, k);
    }
    forall k | k in c2
      ensures k in c1
    {
      assert Entry(c1, k) == Entry(c2, k);
    }
  }

  /**
   * DMR_Reports::sync_report_date: update_post_meta with the computed date,
   * or delete_post_meta when it is ''.
   */
  function SyncReportDate(s: Store, p: Parsers, c: Cache, id: int): (c': Cache)
    ensures forall k :: k != id ==> Entry(c', k) == Entry(c, k)
    ensures !Eligible(s, id) ==> c' == c
    ensures Eligible(s, id) ==> Entry(c', id) == Expected(s, p, id)
    ensures Eligible(s, id) ==> forall v :: v in c'.Values - c.Values ==> ParseYmd(v).Some?
  {
    if !IsWorkOrder(s, id) then c
    else if s[id].isAutosave || s[id].isRevision then c
    else
      var d := ComputeReportDate(s, p, id);
      if d != "" then c[id := d] else c - {id}
  }

  /** A cache entry already consistent with the post is left alone. */
  lemma SyncFixpoint(s: Store, p: Parsers, c: Cache, id: int)
    requires Entry(c, id) == Expected(s, p, id)
    ensures SyncReportDate(s, p, c, id) == c
  {
    CacheExt(SyncReportDate(s, p, c, id), c);
  }

  /** Syncing twice with unchanged inputs changes nothing the second time. */
  lemma SyncIdempotent(s: Store, p: Parsers, c: Cache, id: int)
    ensures SyncReportDate(s, p, SyncReportDate(s, p, c, id), id) == SyncReportDate(s, p, c, id)
  {
    var c1 := SyncReportDate(s, p, c, id);
    if Eligible(s, id) {
      SyncFixpoint(s, p, c1, id);
    }
  }

  /** The identifiers the custom-field save hook may receive. */
  datatype AcfId = AcfInt(n: int) | AcfString(s: string) | AcfOther

  const PostPrefix: string := "post_"

  /** The post id sync_report_date_from_acf extracts, None when it returns early. */
  function AcfPostId(a: AcfId): (r: Option<int>)
    ensures a.AcfInt? ==> r == Some(a.n)
    ensures a.AcfOther? ==> r.None?
    ensures a.AcfString? && IsIntegerNumeric(a.s) ==> r == Some(ToInt(a.s))
    ensures a.AcfString? && !IsIntegerNumeric(a.s) && !(|a.s| >= 5 && a.s[..5] == PostPrefix) ==> r.None?
    ensures a.AcfString? && !IsIntegerNumeric(a.s) && |a.s| >= 5 && a.s[..5] == PostPrefix ==> r == Some(ToInt(a.s[5..]))
  {
    match a
    case AcfInt(n) => Some(n)
    case AcfString(t) =>
      if IsIntegerNumeric(t) then Some(ToInt(t))
      else if |t| >= 5 && t[..5] == PostPrefix then Some(ToInt(t[5..]))
      else None
    case AcfOther => None
  }

  /** "post_<id>" yields the id back. */
  lemma AcfPrefixedId(i: int)
    ensures AcfPostId(AcfString(PostPrefix + IntToString(i))) == Some(i)
  {
    var t := PostPrefix + IntToString(i);
    assert t[0] == 'p';
    assert SkipSpace(t) == t;
    assert LeadingDigits(t) == [];
    assert t[..5] == PostPrefix && t[5..] == IntToString(i);
    ToIntOfIntToString(i);
  }

  /** A numeric string yields the number it spells. */
  lemma AcfNumericId(i: int)
    ensures AcfPostId(AcfString(IntToString(i))) == Some(i)
  {
    IntToStringIsNumeric(i);
    ToIntOfIntToString(i);
  }

  /** DMR_Reports::sync_report_date_from_acf. */
  function SyncFromAcf(s: Store, p: Parsers, c: Cache, a: AcfId): (c': Cache)
    ensures AcfPostId(a).None? || AcfPostId(a) == Some(0) ==> c' == c
    ensures forall k :: Some(k) != AcfPostId(a) ==> Entry(c', k) == Entry(c, k)
    ensures forall id :: AcfPostId(a) == Some(id) && id != 0 && Eligible(s, id) ==> Entry(c', id) == Expected(s, p, id)
    ensures forall id :: AcfPostId(a) == Some(id) && !IsWorkOrder(s, id) ==> c' == c
  {
    match AcfPostId(a)
    case None => c
    case Some(pid) =>
      if pid != 0 && IsWorkOrder(s, pid) then SyncReportDate(s, p, c, pid) else c
  }

  /**
   * The three ways the hook can name a post (an int, its numeric text, or
   * "post_<id>") all converge on sync_report_date for that post.
   */
  lemma AcfEntryPointsAgree(s: Store, p: Parsers, c: Cache, i: int)
    requires i != 0
    ensures SyncFromAcf(s, p, c, AcfInt(i)) == SyncReportDate(s, p, c, i)
    ensures SyncFromAcf(s, p, c, AcfString(IntToString(i))) == SyncReportDate(s, p, c, i)
    ensures SyncFromAcf(s, p, c, AcfString(PostPrefix + IntToString(i))) == SyncReportDate(s, p, c, i)
  {
    AcfIdSync(s, p, c, AcfInt(i), i);
    AcfNumericId(i);
    AcfIdSync(s, p, c, AcfString(IntToString(i)), i);
    AcfPrefixedId(i);
    AcfIdSync(s, p, c, AcfString(PostPrefix + IntToString(i)), i);
  }

  /** Whatever form it came in, a nonzero extracted id leads to sync_report_date for it. */
  lemma AcfIdSync(s: Store, p: Parsers, c: Cache, a: AcfId, i: int)
    requires i != 0 && AcfPostId(a) == Some(i)
    ensures SyncFromAcf(s, p, c, a) == SyncReportDate(s, p, c, i)
  {
    if !IsWorkOrder(s, i) {
      assert !Eligible(s, i);
    }
  }
}
