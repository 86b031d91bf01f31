/**
 * DMR_Reports::aggregate_by_state: how many of the given posts carry each
 * `wo_state` label, keyed by the trimmed label (a blank or non-string value
 * counts as "(Unspecified)") and ordered by key byte-wise, which is how ksort
 * orders two string keys unless both are numeric strings.
 */
module States {
  import opened Strings
  import opened Ordering
  import opened DateParse
  import opened Resolver

  const Unspecified: string := "(Unspecified)"
  const StateField: string := "wo_state"

  /** The label a post is counted under. */
  function StateLabel(s: Store, id: int): (l: string)
    ensures l != "" && Trim(l) == l
    ensures FieldOf(s, id, StateField).Str? && Trim(FieldOf(s, id, StateField).s) != "" ==> l == Trim(FieldOf(s, id, StateField).s)
    ensures !(FieldOf(s, id, StateField).Str? && Trim(FieldOf(s, id, StateField).s) != "") ==> l == Unspecified
  {
    var v := FieldOf(s, id, StateField);
    var t := if v.Str? then Trim(v.s) else "";
    if t == "" then
      TrimOfTrimmed(Unspecified);
      Unspecified
    else
      TrimIdempotent(v.s);
      t
  }

  /** The label of each post, in order. */
  function Labels(s: Store, ids: seq<int>): (ls: seq<string>)
    ensures |ls| == |ids| && forall i :: 0 <= i < |ids| ==> ls[i] == StateLabel(s, ids[i])
  {
    seq(|ids|, i requires 0 <= i < |ids| => StateLabel(s, ids[i]))
  }

  /** One entry of the result: `$states[$label] = $count`. */
  datatype StateCount = StateCount(state: string, count: nat)

  function LabelOf(e: StateCount): string
  {
    e.state
  }

  function CountOf(e: StateCount): nat
  {
    e.count
  }

  /** How many times `l` occurs in `ls`. */
  function CountLabel(ls: seq<string>, l: string): nat
  {
    if ls == [] then 0
    else CountLabel(ls[..|ls| - 1], l) + (if ls[|ls| - 1] == l then 1 else 0)
  }

  /** A label is counted at least once exactly when it occurs. */
  lemma {:induction false} CountLabelPositive(ls: seq<string>, l: string)
    ensures CountLabel(ls, l) > 0 <==> l in ls
  {
    if ls != [] {
      var prefix := ls[..|ls| - 1];
      CountLabelPositive(prefix, l);
      assert ls == prefix + [ls[|ls| - 1]];
    }
  }

  predicate HasLabel(r: seq<StateCount>, l: string)
  {
    exists i :: 0 <= i < |r| && r[i].state == l
  }

  /** The position of the entry for `l`, -1 when `isset` fails. */
  function FindLabel(r: seq<StateCount>, l: string): (i: int)
    ensures -1 <= i < |r|
    ensures i >= 0 ==> r[i].state == l
    ensures i < 0 <==> !HasLabel(r, l)
  {
    if r == [] then -1
    else if r[|r| - 1].state == l then |r| - 1
    else FindLabel(r[..|r| - 1], l)
  }

  /** Replacing an entry by one with the same key keeps the keys. */
  lemma UpdateKeepsLabels(r: seq<StateCount>, i: int, e: StateCount)
    requires DistinctBy(r, LabelOf) && 0 <= i < |r| && e.state == r[i].state
    ensures DistinctBy(r[i := e], LabelOf)
    ensures forall m :: HasLabel(r[i := e], m) <==> HasLabel(r, m)
    ensures forall j :: 0 <= j < |r| && j != i ==> r[j].state != e.state
  {
    var r' := r[i := e];
    assert forall j :: 0 <= j < |r| ==> LabelOf(r'[j]) == LabelOf(r[j]);
    forall j | 0 <= j < |r| && j != i
      ensures r[j].state != e.state
    {
      assert LabelOf(r[j]) != LabelOf(r[i]);
    }
    forall m
      ensures HasLabel(r', m) <==> HasLabel(r, m)
    {
      if HasLabel(r, m) {
        var j :| 0 <= j < |r| && r[j].state == m;
        assert r'[j].state == m;
      }
    }
  }

  /** Appending an entry for a new key. */
  lemma AppendFreshLabel(r: seq<StateCount>, e: StateCount)
    requires DistinctBy(r, LabelOf) && !HasLabel(r, e.state)
    ensures DistinctBy(r + [e], LabelOf)
    ensures forall m :: HasLabel(r + [e], m) <==> HasLabel(r, m) || m == e.state
    ensures SumOf(r + [e], CountOf) == SumOf(r, CountOf) + e.count
  {
    var r' := r + [e];
    assert forall j :: 0 <= j < |r| ==> r'[j] == r[j];
    assert r'[|r|] == e;
    forall m
      ensures HasLabel(r', m) <==> HasLabel(r, m) || m == e.state
    {
      if HasLabel(r, m) {
        var j :| 0 <= j < |r| && r[j].state == m;
        assert r'[j].state == m;
      }
    }
    SumOfAppend(r, [e], CountOf);
    assert SumOf([e], CountOf) == e.count by {
      assert [e][..0] == [];
    }
  }

  /** `r` holds, for each label of `ls`, one entry with its number of occurrences. */
  ghost predicate Tallied(ls: seq<string>, r: seq<StateCount>)
  {
    && DistinctBy(r, LabelOf)
    && (forall i :: 0 <= i < |r| ==> r[i].count == CountLabel(ls, r[i].state))
    && (forall l :: HasLabel(r, l) <==> l in ls)
    && SumOf(r, CountOf) == |ls|
  }

  /** A label seen before: its entry goes up by one. */
  lemma TallyRepeat(ls: seq<string>, r: seq<StateCount>, i: int)
    requires ls != [] && Tallied(ls[..|ls| - 1], r)
    requires 0 <= i < |r| && r[i].state == ls[|ls| - 1]
    ensures Tallied(ls, r[i := StateCount(ls[|ls| - 1], r[i].count + 1)])
  {
    var prefix, l := ls[..|ls| - 1], ls[|ls| - 1];
    assert forall m :: m in ls <==> m in prefix || m == l by {
      assert ls == prefix + [l];
    }
    assert HasLabel(r, l);
    var e := StateCount(l, r[i].count + 1);
    var r' := r[i := e];
    UpdateKeepsLabels(r, i, e);
    SumOfUpdate(r, i, e, CountOf);
    assert forall m :: CountLabel(ls, m) == CountLabel(prefix, m) + (if m == l then 1 else 0);
    assert forall j :: 0 <= j < |r'| ==> r'[j].count == CountLabel(ls, r'[j].state);
    assert forall m :: HasLabel(r', m) <==> m in ls;
  }

  /** A label not seen before: a new entry with count one. */
  lemma TallyFresh(ls: seq<string>, r: seq<StateCount>)
    requires ls != [] && Tallied(ls[..|ls| - 1], r)
    requires !HasLabel(r, ls[|ls| - 1])
    ensures Tallied(ls, r + [StateCount(ls[|ls| - 1], 1)])
  {
    var prefix, l := ls[..|ls| - 1], ls[|ls| - 1];
    assert forall m :: m in ls <==> m in prefix || m == l by {
      assert ls == prefix + [l];
    }
    var e := StateCount(l, 1);
    var r' := r + [e];
    AppendFreshLabel(r, e);
    CountLabelPositive(prefix, l);
    assert forall j :: 0 <= j < |r| ==> r'[j] == r[j] && r[j].state != l;
    assert forall j :: 0 <= j < |r'| ==> r'[j].count == CountLabel(ls, r'[j].state);
  }

  /** The counting loop: one entry per label that occurs, holding how often it occurs. */
  function TallyStates(ls: seq<string>): (r: seq<StateCount>)
    ensures DistinctBy(r, LabelOf)
    ensures forall i :: 0 <= i < |r| ==> r[i].count == CountLabel(ls, r[i].state)
    ensures forall l :: HasLabel(r, l) <==> l in ls
    ensures SumOf(r, CountOf) == |ls|
  {
    if ls == [] then []
    else
      var r := TallyStates(ls[..|ls| - 1]);
      var l := ls[|ls| - 1];
      var i := FindLabel(r, l);
      if i >= 0 then
        TallyRepeat(ls, r, i);
        r[i := StateCount(l, r[i].count + 1)]
      else
        TallyFresh(ls, r);
        r + [StateCount(l, 1)]
  }

  /** Rearranging a tally keeps it a tally. */
  lemma PermutedTally(ls: seq<string>, a: seq<StateCount>, b: seq<StateCount>)
    requires Tallied(ls, a) && multiset(a) == multiset(b)
    requires DistinctBy(b, LabelOf) && SumOf(b, CountOf) == SumOf(a, CountOf)
    ensures Tallied(ls, b)
  {
    assert forall e :: e in a <==> e in b by {
      assert forall e :: e in a <==> e in multiset(a);
      assert forall e :: e in b <==> e in multiset(b);
    }
    forall i | 0 <= i < |b|
      ensures b[i].count == CountLabel(ls, b[i].state)
    {
      assert b[i] in b;
      var j :| 0 <= j < |a| && a[j] == b[i];
    }
    forall l
      ensures HasLabel(b, l) <==> HasLabel(a, l)
    {
      if HasLabel(a, l) {
        var j :| 0 <= j < |a| && a[j].state == l;
        assert a[j] in a;
        var i :| 0 <= i < |b| && b[i] == a[j];
      }
      if HasLabel(b, l) {
        var i :| 0 <= i < |b| && b[i].state == l;
        assert b[i] in b;
        var j :| 0 <= j < |a| && a[j] == b[i];
      }
    }
  }

  /** Every entry of a tally of the posts' labels is a label some post carries. */
  lemma TallyEntries(s: Store, ids: seq<int>, r: seq<StateCount>)
    requires Tallied(Labels(s, ids), r)
    ensures forall i :: 0 <= i < |r| ==> r[i].count > 0 && r[i].state != "" && Trim(r[i].state) == r[i].state
  {
    forall i | 0 <= i < |r|
      ensures r[i].count > 0 && r[i].state != "" && Trim(r[i].state) == r[i].state
    {
      TallyEntry(s, ids, r, i);
    }
  }

  lemma TallyEntry(s: Store, ids: seq<int>, r: seq<StateCount>, i: int)
    requires Tallied(Labels(s, ids), r) && 0 <= i < |r|
    ensures r[i].count > 0 && r[i].state != "" && Trim(r[i].state) == r[i].state
  {
    var ls := Labels(s, ids);
    var l := r[i].state;
    assert HasLabel(r, l);
    assert l in ls;
    CountLabelPositive(ls, l);
    var j :| 0 <= j < |ls| && ls[j] == l;
    assert ls[j] == StateLabel(s, ids[j]);
  }

  /** A label occurs among the posts' labels exactly when some post carries it. */
  lemma LabelsMeaning(s: Store, ids: seq<int>, l: string)
    ensures l in Labels(s, ids) <==> exists j :: 0 <= j < |ids| && StateLabel(s, ids[j]) == l
  {
    var ls := Labels(s, ids);
    assert forall j :: 0 <= j < |ids| ==> (ls[j] == l <==> StateLabel(s, ids[j]) == l);
    assert l in ls <==> exists j :: 0 <= j < |ls| && ls[j] == l;
  }

  /**
   * DMR_Reports::aggregate_by_state over the post ids `ids`: exactly the
   * labels that occur, each once, with the number of posts carrying it, in
   * strictly ascending key order; the counts add up to the number of ids.
   */
  function AggregateByState(s: Store, ids: seq<int>): (r: seq<StateCount>)
    ensures StrictlySortedBy(r, LabelOf)
    ensures forall i :: 0 <= i < |r| ==> r[i].count == CountLabel(Labels(s, ids), r[i].state) && r[i].count > 0
    ensures forall l :: HasLabel(r, l) <==> exists j :: 0 <= j < |ids| && StateLabel(s, ids[j]) == l
    ensures forall i :: 0 <= i < |r| ==> r[i].state != "" && Trim(r[i].state) == r[i].state
    ensures SumOf(r, CountOf) == |ids|
  {
    var r := InsertionSort(TallyStates(Labels(s, ids)), LabelOf);
    SortedTally(s, ids, r);
    r
  }

  /** The sorted tally of the posts' labels has every property AggregateByState promises. */
  lemma SortedTally(s: Store, ids: seq<int>, r: seq<StateCount>)
    requires r == InsertionSort(TallyStates(Labels(s, ids)), LabelOf)
    ensures StrictlySortedBy(r, LabelOf)
    ensures forall i :: 0 <= i < |r| ==> r[i].count == CountLabel(Labels(s, ids), r[i].state) && r[i].count > 0
    ensures forall l :: HasLabel(r, l) <==> exists j :: 0 <= j < |ids| && StateLabel(s, ids[j]) == l
    ensures forall i :: 0 <= i < |r| ==> r[i].state != "" && Trim(r[i].state) == r[i].state
    ensures SumOf(r, CountOf) == |ids|
  {
    var ls := Labels(s, ids);
    var unsorted := TallyStates(ls);
    SortDistinct(unsorted, LabelOf, LabelOf);
    SortedDistinctIsStrict(r, LabelOf);
    SortSum(unsorted, LabelOf, CountOf);
    PermutedTally(ls, unsorted, r);
    TallyEntries(s, ids, r);
    AllLabelsMeaning(s, ids);
  }

  /** LabelsMeaning for every label at once. */
  lemma AllLabelsMeaning(s: Store, ids: seq<int>)
    ensures forall l :: l in Labels(s, ids) <==> exists j :: 0 <= j < |ids| && StateLabel(s, ids[j]) == l
  {
    forall l
      ensures l in Labels(s, ids) <==> exists j :: 0 <= j < |ids| && StateLabel(s, ids[j]) == l
    {
      LabelsMeaning(s, ids, l);
    }
  }

  /** Two posts whose states differ only in surrounding blanks are counted together. */
  lemma BlanksIgnored(s: Store, a: int, b: int, core: string, pa: string, sa: string, pb: string, sb: string)
    requires Trim(core) == core && core != ""
    requires forall k :: 0 <= k < |pa| ==> IsTrimChar(pa[k])
    requires forall k :: 0 <= k < |sa| ==> IsTrimChar(sa[k])
    requires forall k :: 0 <= k < |pb| ==> IsTrimChar(pb[k])
    requires forall k :: 0 <= k < |sb| ==> IsTrimChar(sb[k])
    requires FieldOf(s, a, StateField) == Str(pa + core + sa)
    requires FieldOf(s, b, StateField) == Str(pb + core + sb)
    ensures StateLabel(s, a) == StateLabel(s, b) == core
  {
    TrimPadded(core, pa, sa);
    TrimPadded(core, pb, sb);
  }

  /** Trimming strips any padding of trim characters around a trimmed, non-empty core. */
  lemma {:induction false} TrimPadded(core: string, pre: string, suf: string)
    requires Trim(core) == core && core != ""
    requires forall k :: 0 <= k < |pre| ==> IsTrimChar(pre[k])
    requires forall k :: 0 <= k < |suf| ==> IsTrimChar(suf[k])
    ensures Trim(pre + core + suf) == core
  {
    var t := pre + core + suf;
    TrimLeftPadded(pre, core + suf);
    assert pre + (core + suf) == t;
    TrimRightPadded(core, suf);
  }

  lemma {:induction false} TrimLeftPadded(pre: string, rest: string)
    requires forall k :: 0 <= k < |pre| ==> IsTrimChar(pre[k])
    requires rest != [] && !IsTrimChar(rest[0])
    ensures TrimLeft(pre + rest) == rest
  {
    if pre != [] {
      assert (pre + rest)[1..] == pre[1..] + rest;
      TrimLeftPadded(pre[1..], rest);
    } else {
      assert pre + rest == rest;
    }
  }

  lemma {:induction false} TrimRightPadded(rest: string, suf: string)
    requires forall k :: 0 <= k < |suf| ==> IsTrimChar(suf[k])
    requires rest != [] && !IsTrimChar(rest[|rest| - 1])
    ensures TrimRight(rest + suf) == rest
  {
    if suf != [] {
      var n := |suf| - 1;
      assert (rest + suf)[..|rest + suf| - 1] == rest + suf[..n];
      TrimRightPadded(rest, suf[..n]);
    } else {
      assert rest + suf == rest;
    }
  }
}
