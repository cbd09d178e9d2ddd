/** Calendar freshness of retained completed sessions
    (`polygon_completed_daily_production_freshness.py`). */
module Freshness {
  import opened Basics
  import opened JsonText
  import opened CalendarDates

  const MINIMUM_LAG_DAYS := 1
  const MAXIMUM_LAG_DAYS := 4

  datatype Outcome = Fresh | StaleCalendarLag | NoEligibleSession

  datatype Support = Support(
    evaluation: Date,
    rowCount: int,
    first: Option<Date>,
    latest: Option<Date>,
    eligibleCount: int,
    latestEligible: Option<Date>,
    lag: Option<int>,
    outcome: Outcome,
    result: bool)

  predicate Before(c: Date, d: Date) {
    Ordinal(c) < Ordinal(d)
  }

  predicate StrictlyIncreasing(dates: seq<Date>) {
    forall i, j :: 0 <= i < j < |dates| ==> Before(dates[i], dates[j])
  }

  predicate AllValid(dates: seq<Date>) {
    forall i :: 0 <= i < |dates| ==> Valid(dates[i])
  }

  predicate Readable(labels: seq<string>) {
    forall i :: 0 <= i < |labels| ==> ParseIso(labels[i]).Some?
  }

  function DatesOf(labels: seq<string>): (dates: seq<Date>)
    requires Readable(labels)
    ensures |dates| == |labels| && AllValid(dates)
    ensures forall i :: 0 <= i < |labels| ==> dates[i] == ParseIso(labels[i]).value
  {
    seq(|labels|, i requires 0 <= i < |labels| => ParseIso(labels[i]).value)
  }

  function Eligible(dates: seq<Date>, evaluation: Date): seq<Date> {
    if dates == [] then [] else
      var rest := Eligible(dates[..|dates| - 1], evaluation);
      var last := dates[|dates| - 1];
      if Before(last, evaluation) then rest + [last] else rest
  }

  function Classify(lag: Option<int>): Outcome {
    match lag
    case None => NoEligibleSession
    case Some(days) => if MINIMUM_LAG_DAYS <= days <= MAXIMUM_LAG_DAYS then Fresh else StaleCalendarLag
  }

  function SupportOf(dates: seq<Date>, evaluation: Date): Support {
    var eligible := Eligible(dates, evaluation);
    var latest := if eligible == [] then None else Some(eligible[|eligible| - 1]);
    var lag := if latest.None? then None else Some(Ordinal(evaluation) - Ordinal(latest.value));
    Support(evaluation, |dates|,
      if dates == [] then None else Some(dates[0]),
      if dates == [] then None else Some(dates[|dates| - 1]),
      |eligible|, latest, lag, Classify(lag), Classify(lag) == Fresh)
  }

  /** `_derive_support`: one pass over the rows, refusing unreadable, repeated or
      unordered session dates. */
  method DeriveSupport(labels: seq<string>, rowCount: int, evaluation: Date) returns (support: Option<Support>)
    ensures support.Some? <==>
        Readable(labels) && StrictlyIncreasing(DatesOf(labels)) && rowCount == |labels|
    ensures support.Some? ==> support.value == SupportOf(DatesOf(labels), evaluation)
  {
    var dates: seq<Date> := [];
    var prior: Option<Date> := None;
    for i := 0 to |labels|
      invariant |dates| == i && forall j :: 0 <= j < i ==> ParseIso(labels[j]) == Some(dates[j])
      invariant StrictlyIncreasing(dates)
      invariant prior == if i == 0 then None else Some(dates[i - 1])
    {
      var parsed := ParseIso(labels[i]);
      if parsed.None? {
        return None;
      }
      if prior.Some? && !Before(prior.value, parsed.value) {
        assert Readable(labels) ==> !Before(DatesOf(labels)[i - 1], DatesOf(labels)[i]);
        return None;
      }
      dates := dates + [parsed.value];
      prior := Some(parsed.value);
    }
    assert Readable(labels) && dates == DatesOf(labels);
    if rowCount != |dates| {
      return None;
    }
    support := Some(SupportOf(dates, evaluation));
  }

  // ---- What the outcome means ----

  /** Rows before the evaluation date are exactly the first ones. */
  lemma {:induction false} EligibleIsPrefix(dates: seq<Date>, evaluation: Date)
    requires StrictlyIncreasing(dates)
    ensures var n := |Eligible(dates, evaluation)|;
      && n <= |dates| && Eligible(dates, evaluation) == dates[..n]
      && (forall i :: 0 <= i < |dates| ==> (Before(dates[i], evaluation) <==> i < n))
  {
    if dates != [] {
      var front := dates[..|dates| - 1];
      EligibleIsPrefix(front, evaluation);
      var n := |Eligible(front, evaluation)|;
      assert forall i :: 0 <= i < |front| ==> front[i] == dates[i];
      assert n < |front| ==> Before(dates[n], dates[|dates| - 1]);
    }
  }

  predicate InWindow(d: Date, evaluation: Date) {
    MINIMUM_LAG_DAYS <= Ordinal(evaluation) - Ordinal(d) <= MAXIMUM_LAG_DAYS
  }

  /** FRESH says exactly that some retained session is one to four days old. */
  lemma {:induction false} FreshExactly(dates: seq<Date>, evaluation: Date)
    requires StrictlyIncreasing(dates)
    ensures SupportOf(dates, evaluation).result
      <==> exists i :: 0 <= i < |dates| && InWindow(dates[i], evaluation)
    ensures SupportOf(dates, evaluation).outcome == Fresh <==> SupportOf(dates, evaluation).result
    ensures SupportOf(dates, evaluation).outcome == NoEligibleSession
      <==> forall i :: 0 <= i < |dates| ==> !Before(dates[i], evaluation)
  {
    EligibleIsPrefix(dates, evaluation);
    var n := |Eligible(dates, evaluation)|;
    if i :| 0 <= i < |dates| && InWindow(dates[i], evaluation) {
      assert Before(dates[i], evaluation);
      assert i == n - 1 || Before(dates[i], dates[n - 1]);
      assert Before(dates[n - 1], evaluation);
    }
  }

  // ---- The independent field validator ----

  /** `_validate_support_fields` */
  predicate FieldsValid(s: Support) {
    && s.rowCount >= 0 && s.eligibleCount >= 0
    && (if s.rowCount == 0 then s.first.None? && s.latest.None?
        else s.first.Some? && s.latest.Some? && Ordinal(s.first.value) <= Ordinal(s.latest.value))
    && s.eligibleCount <= s.rowCount
    && if s.eligibleCount == 0 then
         s.latestEligible.None? && s.lag.None? && s.outcome == NoEligibleSession && !s.result
       else
         && s.latestEligible.Some? && s.latest.Some? && s.first.Some?
         && Ordinal(s.first.value) <= Ordinal(s.latestEligible.value) <= Ordinal(s.latest.value)
         && Before(s.latestEligible.value, s.evaluation)
         && s.lag == Some(Ordinal(s.evaluation) - Ordinal(s.latestEligible.value))
         && s.outcome == (if InWindow(s.latestEligible.value, s.evaluation) then Fresh else StaleCalendarLag)
         && s.result == InWindow(s.latestEligible.value, s.evaluation)
  }

  /** In plain numbers: what the validator accepts. */
  lemma {:induction false} FieldsExactly(s: Support)
    ensures FieldsValid(s) <==>
      && 0 <= s.eligibleCount <= s.rowCount
      && (s.first.Some? <==> s.rowCount != 0) && (s.latest.Some? <==> s.rowCount != 0)
      && (s.latestEligible.Some? <==> s.eligibleCount != 0) && (s.lag.Some? <==> s.eligibleCount != 0)
      && (s.rowCount != 0 ==> Ordinal(s.first.value) <= Ordinal(s.latest.value))
      && (s.eligibleCount != 0 ==>
            && Ordinal(s.first.value) <= Ordinal(s.latestEligible.value) <= Ordinal(s.latest.value)
            && s.lag.value == Ordinal(s.evaluation) - Ordinal(s.latestEligible.value) && s.lag.value >= 1)
      && s.outcome == (if s.eligibleCount == 0 then NoEligibleSession else if s.lag.value < 5 then Fresh else StaleCalendarLag)
      && s.result == (s.outcome == Fresh)
  {
  }

  /** In plain numbers: what is derived from the sessions of a material. */
  lemma {:induction false} DerivesExactly(dates: seq<Date>, evaluation: Date, n: nat)
    requires StrictlyIncreasing(dates) && n <= |dates|
    requires forall i :: 0 <= i < |dates| ==> (Ordinal(dates[i]) < Ordinal(evaluation) <==> i < n)
    ensures var s := SupportOf(dates, evaluation);
      && s.evaluation == evaluation && s.rowCount == |dates| && s.eligibleCount == n
      && (dates != [] ==> s.first == Some(dates[0]) && s.latest == Some(dates[|dates| - 1]))
      && (dates == [] ==> s.first == None && s.latest == None)
      && (n == 0 ==> s.latestEligible == None && s.lag == None && s.outcome == NoEligibleSession && !s.result)
      && (n > 0 ==>
            && s.latestEligible == Some(dates[n - 1]) && s.lag == Some(Ordinal(evaluation) - Ordinal(dates[n - 1]))
            && s.outcome == (if s.lag.value <= 4 then Fresh else StaleCalendarLag)
            && (s.result <==> s.lag.value <= 4))
  {
    EligibleIsPrefix(dates, evaluation);
    var m := |Eligible(dates, evaluation)|;
    var k := if m < n then m else n;
    if k < |dates| { assert Before(dates[k], evaluation) <==> k < m; }
  }

  /** Everything the derivation produces passes the validator. */
  lemma {:induction false} DerivedSupportIsValid(dates: seq<Date>, evaluation: Date)
    requires StrictlyIncreasing(dates)
    ensures FieldsValid(SupportOf(dates, evaluation))
  {
    EligibleIsPrefix(dates, evaluation);
    var n := |Eligible(dates, evaluation)|;
    if n > 0 {
      assert Before(dates[n - 1], evaluation);
      assert n - 1 == 0 || Before(dates[0], dates[n - 1]);
      assert n == |dates| || Before(dates[n - 1], dates[|dates| - 1]);
    }
    assert |dates| > 1 ==> Before(dates[0], dates[|dates| - 1]);
  }

  /** Valid fields that agree on the dates and the count agree on lag, outcome and result. */
  lemma {:induction false} ValidatorFixesOutcome(s: Support, t: Support)
    requires FieldsValid(s) && FieldsValid(t)
    requires s.evaluation == t.evaluation && s.eligibleCount == t.eligibleCount && s.latestEligible == t.latestEligible
    ensures s.lag == t.lag && s.outcome == t.outcome && s.result == t.result
  {
  }

  /** Fields that pass for a material and report its latest eligible session carry the
      derived result: the retained companion cannot claim another outcome. */
  lemma {:induction false} ValidFieldsMatchDerivation(s: Support, dates: seq<Date>)
    requires StrictlyIncreasing(dates) && FieldsValid(s)
    requires s.eligibleCount == |Eligible(dates, s.evaluation)|
    requires s.rowCount == |dates|
    requires s.eligibleCount > 0 ==> s.latestEligible == Some(dates[s.eligibleCount - 1])
    requires dates != [] ==> s.first == Some(dates[0]) && s.latest == Some(dates[|dates| - 1])
    ensures s == SupportOf(dates, s.evaluation)
  {
    EligibleIsPrefix(dates, s.evaluation);
    DerivedSupportIsValid(dates, s.evaluation);
    ValidatorFixesOutcome(s, SupportOf(dates, s.evaluation));
  }

  // ---- Staleness over time ----

  ghost predicate StaleFrom(dates: seq<Date>, evaluation: Date) {
    forall later: Date :: Valid(later) && Ordinal(later) >= Ordinal(evaluation) ==> !SupportOf(dates, later).result
  }

  const LAST_DAY := Date(9999, 12, 31)

  /** No date follows the last one that can be written. */
  lemma {:induction false} NothingAfterLastDay(d: Date)
    requires Valid(d)
    ensures Ordinal(d) <= Ordinal(LAST_DAY)
  {
    OrdinalOrder(LAST_DAY, d);
  }

  /** A result that is not fresh stays so for good exactly when no retained row is still
      to come: every row precedes the evaluation date, or lies on the last day there is. */
  lemma {:induction false} StalenessIsPermanentExactly(dates: seq<Date>, evaluation: Date)
    requires StrictlyIncreasing(dates) && AllValid(dates) && Valid(evaluation)
    requires !SupportOf(dates, evaluation).result
    ensures StaleFrom(dates, evaluation)
      <==> forall i :: 0 <= i < |dates| ==> Before(dates[i], evaluation) || dates[i] == LAST_DAY
  {
    if i :| 0 <= i < |dates| && !Before(dates[i], evaluation) && dates[i] != LAST_DAY {
      var next := NextDay(dates[i]);
      assert InWindow(dates[i], next);
      FreshExactly(dates, next);
      assert SupportOf(dates, next).result;
      assert !StaleFrom(dates, evaluation);
    } else {
      forall later: Date | Valid(later) && Ordinal(later) >= Ordinal(evaluation)
        ensures !SupportOf(dates, later).result
      {
        FreshExactly(dates, later);
        FreshExactly(dates, evaluation);
        NothingAfterLastDay(later);
      }
    }
  }
}
