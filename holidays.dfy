/** The holiday table and the three-stage filter that resolves the holiday
    of a date (`HDate._holiday_entry` in src/hdate/date.py). */
module Holidays {
  import opened Julian
  import opened Outcomes

  /** What a rule's predicates are applied to: the fields of the HDate
      object, together with the conversion module it consults. */
  datatype DateState = DateState(
    cal: Calendar,
    gdate: GDate,
    hDay: int,
    hMonth: int,
    hYear: int,
    diaspora: bool,
    hebrew: bool)

  /** One component of a rule's date: an int stands for itself, a list for
      any of its members. */
  datatype Candidates = One(n: int) | AnyOf(ns: seq<int>)

  function Values(c: Candidates): seq<int> {
    match c
    case One(n) => [n]
    case AnyOf(ns) => ns
  }

  /** Region tags of a rule. Any other tag is never kept. */
  const AnyRegion: string := ""
  const IsraelOnly: string := "ISRAEL"
  const DiasporaOnly: string := "DIASPORA"

  /** An entry of the holiday table. */
  datatype HolidayRule = HolidayRule(
    name: string,
    day: Candidates,
    month: Candidates,
    region: string,
    predicates: seq<DateState -> bool>,
    kind: int)

  /** The pairs (x, y) for every y of ys, in order. */
  function Pairs(x: int, ys: seq<int>): seq<(int, int)> {
    if ys == [] then [] else [(x, ys[0])] + Pairs(x, ys[1..])
  }

  /** The cartesian product of two lists, the first one varying slowest. */
  function Product(xs: seq<int>, ys: seq<int>): seq<(int, int)> {
    if xs == [] then [] else Pairs(xs[0], ys) + Product(xs[1..], ys)
  }

  lemma {:induction false} InPairs(x: int, ys: seq<int>, p: (int, int))
    ensures p in Pairs(x, ys) <==> p.0 == x && p.1 in ys
  {
    if ys != [] {
      InPairs(x, ys[1..], p);
      assert ys == [ys[0]] + ys[1..];
    }
  }

  /** A pair is in the product exactly when each component is in its list. */
  lemma {:induction false} InProduct(xs: seq<int>, ys: seq<int>, p: (int, int))
    ensures p in Product(xs, ys) <==> p.0 in xs && p.1 in ys
  {
    if xs != [] {
      InPairs(xs[0], ys, p);
      InProduct(xs[1..], ys, p);
      assert xs == [xs[0]] + xs[1..];
    }
  }

  /** Stage 1: the rule's date product contains (day, month). */
  predicate OnDate(rule: HolidayRule, day: int, month: int) {
    (day, month) in Product(Values(rule.day), Values(rule.month))
  }

  /** Stage 2: the rule's region tag fits the diaspora flag. */
  predicate RegionFits(region: string, diaspora: bool) {
    region == AnyRegion
    || (region == IsraelOnly && !diaspora)
    || (region == DiasporaOnly && diaspora)
  }

  /** Stage 3: every predicate of the rule holds of the date. */
  predicate AllHold(preds: seq<DateState -> bool>, st: DateState) {
    if preds == [] then true else preds[0](st) && AllHold(preds[1..], st)
  }

  lemma {:induction false} AllHoldMeansEvery(preds: seq<DateState -> bool>, st: DateState)
    ensures AllHold(preds, st) <==> forall k :: 0 <= k < |preds| ==> preds[k](st)
  {
    if preds != [] {
      AllHoldMeansEvery(preds[1..], st);
      assert forall k :: 1 <= k < |preds| ==> preds[k] == preds[1..][k - 1];
    }
  }

  /** The reference reading of the three stages as one condition on a rule. */
  predicate Matches(rule: HolidayRule, st: DateState) {
    && st.hDay in Values(rule.day)
    && st.hMonth in Values(rule.month)
    && RegionFits(rule.region, st.diaspora)
    && forall k :: 0 <= k < |rule.predicates| ==> rule.predicates[k](st)
  }

  /** A list comprehension `[r for r in rules if keep(r)]`. */
  function Filter(rules: seq<HolidayRule>, keep: HolidayRule -> bool): seq<HolidayRule> {
    if rules == [] then []
    else (if keep(rules[0]) then [rules[0]] else []) + Filter(rules[1..], keep)
  }

  ghost predicate NoneKept(rules: seq<HolidayRule>, keep: HolidayRule -> bool) {
    forall i :: 0 <= i < |rules| ==> !keep(rules[i])
  }

  ghost predicate OnlyKept(rules: seq<HolidayRule>, keep: HolidayRule -> bool, i: int) {
    && 0 <= i < |rules|
    && keep(rules[i])
    && forall j :: 0 <= j < |rules| && j != i ==> !keep(rules[j])
  }

  ghost predicate TwoKept(rules: seq<HolidayRule>, keep: HolidayRule -> bool) {
    exists i, j :: 0 <= i < j < |rules| && keep(rules[i]) && keep(rules[j])
  }

  /** A filter keeps nothing exactly when no rule satisfies its predicate. */
  lemma {:induction false} FilterEmpty(rules: seq<HolidayRule>, keep: HolidayRule -> bool)
    ensures |Filter(rules, keep)| == 0 <==> NoneKept(rules, keep)
  {
    if rules != [] {
      var tail := rules[1..];
      FilterEmpty(tail, keep);
      if NoneKept(tail, keep) && !keep(rules[0]) {
        forall i | 0 <= i < |rules| ensures !keep(rules[i]) {
          if i > 0 {
            assert rules[i] == tail[i - 1];
          }
        }
      }
      if NoneKept(rules, keep) {
        forall k | 0 <= k < |tail| ensures !keep(tail[k]) {
          assert tail[k] == rules[k + 1];
        }
      }
    }
  }

  /** A filter keeps two or more rules exactly when two rules satisfy its predicate. */
  lemma {:induction false} FilterMany(rules: seq<HolidayRule>, keep: HolidayRule -> bool)
    ensures |Filter(rules, keep)| >= 2 <==> TwoKept(rules, keep)
  {
    if rules != [] {
      var tail := rules[1..];
      FilterMany(tail, keep);
      FilterEmpty(tail, keep);
      if TwoKept(rules, keep) {
        var i, j :| 0 <= i < j < |rules| && keep(rules[i]) && keep(rules[j]);
        assert keep(tail[j - 1]);
        if i > 0 {
          assert keep(tail[i - 1]);
        }
      }
      if TwoKept(tail, keep) {
        var i, j :| 0 <= i < j < |tail| && keep(tail[i]) && keep(tail[j]);
        assert keep(rules[i + 1]) && keep(rules[j + 1]);
      }
      if keep(rules[0]) && !NoneKept(tail, keep) {
        var j :| 0 <= j < |tail| && keep(tail[j]);
        assert keep(rules[0]) && keep(rules[j + 1]);
      }
    }
  }

  /** When exactly one rule satisfies the predicate, the filter keeps just that rule. */
  lemma {:induction false} FilterSingle(rules: seq<HolidayRule>, keep: HolidayRule -> bool, i: int)
    requires OnlyKept(rules, keep, i)
    ensures Filter(rules, keep) == [rules[i]]
  {
    var tail := rules[1..];
    if i == 0 {
      assert NoneKept(tail, keep) by {
        forall k | 0 <= k < |tail| ensures !keep(tail[k]) {
          assert tail[k] == rules[k + 1];
        }
      }
      FilterEmpty(tail, keep);
    } else {
      assert OnlyKept(tail, keep, i - 1) by {
        forall k | 0 <= k < |tail| && k != i - 1 ensures !keep(tail[k]) {
          assert tail[k] == rules[k + 1];
        }
      }
      FilterSingle(tail, keep, i - 1);
    }
  }

  lemma FilterAnySingle(rules: seq<HolidayRule>, keep: HolidayRule -> bool)
    ensures forall i :: OnlyKept(rules, keep, i) ==> Filter(rules, keep) == [rules[i]]
  {
    forall i | OnlyKept(rules, keep, i) ensures Filter(rules, keep) == [rules[i]] {
      FilterSingle(rules, keep, i);
    }
  }

  /** Whatever a filter keeps is one of its rules that passes it. */
  lemma {:induction false} FilterKeeps(rules: seq<HolidayRule>, keep: HolidayRule -> bool, x: HolidayRule)
    ensures x in Filter(rules, keep) ==> x in rules && keep(x)
  {
    if rules != [] {
      FilterKeeps(rules[1..], keep, x);
      assert rules == [rules[0]] + rules[1..];
    }
  }

  /** A filter depends only on what its predicate says of the rules it sees. */
  lemma {:induction false} FilterAgree(rules: seq<HolidayRule>, f: HolidayRule -> bool, g: HolidayRule -> bool)
    requires forall i :: 0 <= i < |rules| ==> f(rules[i]) == g(rules[i])
    ensures Filter(rules, f) == Filter(rules, g)
  {
    if rules != [] {
      assert forall i :: 1 <= i < |rules| ==> rules[1..][i - 1] == rules[i];
      FilterAgree(rules[1..], f, g);
    }
  }

  /** Two filters in a row keep what both predicates keep. */
  lemma {:induction false} FilterTwice(rules: seq<HolidayRule>, f: HolidayRule -> bool, g: HolidayRule -> bool)
    ensures Filter(Filter(rules, f), g) == Filter(rules, r => f(r) && g(r))
  {
    if rules != [] {
      FilterTwice(rules[1..], f, g);
      var head := if f(rules[0]) then [rules[0]] else [];
      FilterAppend(head, Filter(rules[1..], f), g);
    }
  }

  lemma {:induction false} FilterAppend(a: seq<HolidayRule>, b: seq<HolidayRule>, g: HolidayRule -> bool)
    ensures Filter(a + b, g) == Filter(a, g) + Filter(b, g)
  {
    if a != [] {
      assert (a + b)[0] == a[0] && (a + b)[1..] == a[1..] + b;
      FilterAppend(a[1..], b, g);
      var head := if g(a[0]) then [a[0]] else [];
      calc {
        Filter(a + b, g);
        head + Filter(a[1..] + b, g);
        head + (Filter(a[1..], g) + Filter(b, g));
        (head + Filter(a[1..], g)) + Filter(b, g);
      }
    } else {
      assert a + b == b;
    }
  }

  /** The three stages as filter conditions. */
  function DateStage(st: DateState): HolidayRule -> bool {
    r => OnDate(r, st.hDay, st.hMonth)
  }

  function RegionStage(st: DateState): HolidayRule -> bool {
    (r: HolidayRule) => RegionFits(r.region, st.diaspora)
  }

  function PredicateStage(st: DateState): HolidayRule -> bool {
    (r: HolidayRule) => AllHold(r.predicates, st)
  }

  function MatchStage(st: DateState): HolidayRule -> bool {
    r => Matches(r, st)
  }

  /** The rules that survive the three stages, in table order. */
  function Survivors(table: seq<HolidayRule>, st: DateState): seq<HolidayRule> {
    Filter(Filter(Filter(table, DateStage(st)), RegionStage(st)), PredicateStage(st))
  }

  /** The survivors are exactly the rules that match the date. */
  lemma SurvivorsMatch(table: seq<HolidayRule>, st: DateState)
    ensures Survivors(table, st) == Filter(table, MatchStage(st))
  {
    var f, g, h := DateStage(st), RegionStage(st), PredicateStage(st);
    FilterTwice(table, f, g);
    var fg := (r: HolidayRule) => f(r) && g(r);
    FilterTwice(table, fg, h);
    forall i | 0 <= i < |table| ensures (fg(table[i]) && h(table[i])) == MatchStage(st)(table[i]) {
      InProduct(Values(table[i].day), Values(table[i].month), (st.hDay, st.hMonth));
      AllHoldMeansEvery(table[i].predicates, st);
    }
    FilterAgree(table, (r: HolidayRule) => fg(r) && h(r), MatchStage(st));
  }

  /** Some rule of the table matches the date. */
  predicate SomeMatch(table: seq<HolidayRule>, st: DateState) {
    exists i :: 0 <= i < |table| && Matches(table[i], st)
  }

  /** Two rules of the table match the date. */
  predicate Ambiguous(table: seq<HolidayRule>, st: DateState) {
    exists i, j :: 0 <= i < j < |table| && Matches(table[i], st) && Matches(table[j], st)
  }

  /** `_holiday_entry`: the single matching rule, the sentinel first entry of
      the table when none matches, an error when two or more match. */
  function Resolve(table: seq<HolidayRule>, st: DateState): (r: Result<HolidayRule>)
    ensures r.Failure? && r.error == AmbiguousHoliday
            <==> exists i, j :: 0 <= i < j < |table| && Matches(table[i], st) && Matches(table[j], st)
    ensures forall i :: 0 <= i < |table| && Matches(table[i], st)
                        && (forall j :: 0 <= j < |table| && j != i ==> !Matches(table[j], st))
                        ==> r == Success(table[i])
    ensures (forall i :: 0 <= i < |table| ==> !Matches(table[i], st))
            ==> r == if table == [] then Failure(IndexError) else Success(table[0])
    ensures r.Failure? <==> table == [] || Ambiguous(table, st)
    ensures r.Success? ==> r.value in table && (SomeMatch(table, st) ==> Matches(r.value, st))
  {
    var survivors := Survivors(table, st);
    SurvivorsMatch(table, st);
    FilterEmpty(table, MatchStage(st));
    FilterMany(table, MatchStage(st));
    FilterAnySingle(table, MatchStage(st));
    if |survivors| > 1 then Failure(AmbiguousHoliday)
    else if |survivors| == 1 then
      FilterKeeps(table, MatchStage(st), survivors[0]);
      Success(survivors[0])
    else if table == [] then Failure(IndexError)
    else Success(table[0])
  }

  /** A rule tagged for Israel and one tagged for the diaspora never both
      survive for the same date. */
  lemma RegionTagsExclusive(a: HolidayRule, b: HolidayRule, st: DateState)
    requires a.region == IsraelOnly && b.region == DiasporaOnly
    ensures !(Matches(a, st) && Matches(b, st))
    ensures Matches(a, st) ==> !st.diaspora
    ensures Matches(b, st) ==> st.diaspora
  {
  }
}
