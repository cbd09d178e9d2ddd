/** Date coverage checks on retained material and what they mean for freshness
    (`_qualify_material` in `polygon_completed_daily_production_qualification.py`). */
module MaterialQualification {
  import opened Basics
  import opened JsonText
  import opened CalendarDates
  import opened Freshness

  /** An instant used as an interval bound: its UTC date, and whether it is midnight UTC. */
  datatype Bound = Bound(date: Date, midnightUtc: bool)

  datatype Mapping = Mapping(external: int, instrument: int, validFrom: Bound, expires: Option<Bound>)

  datatype Target = Target(available: Instant, external: int, mappings: seq<Mapping>, selected: Mapping, labels: seq<string>)

  datatype Verdict = InputUnavailable | MappingFailure | IncompleteMaterial | Qualified(labels: seq<string>)

  predicate WellDated(m: Mapping) {
    Valid(m.validFrom.date) && (m.expires.Some? ==> Valid(m.expires.value.date))
  }

  predicate WholeDays(m: Mapping) {
    m.validFrom.midnightUtc && (m.expires.Some? ==> m.expires.value.midnightUtc)
  }

  function Relevant(mappings: seq<Mapping>, external: int): (kept: seq<Mapping>)
    ensures forall m :: m in kept <==> m in mappings && m.external == external
  {
    if mappings == [] then []
    else
      (if mappings[0].external == external then [mappings[0]] else []) + Relevant(mappings[1..], external)
  }

  /** The code's comparison of a row text with the text of the interval's days. */
  predicate CoversText(m: Mapping, text: string)
    requires WellDated(m)
  {
    StrLeq(IsoText(m.validFrom.date), text)
    && (m.expires.Some? ==> StrLess(text, IsoText(m.expires.value.date)))
  }

  predicate AllWellDated(mappings: seq<Mapping>) {
    forall i :: 0 <= i < |mappings| ==> WellDated(mappings[i])
  }

  function Covering(mappings: seq<Mapping>, text: string): seq<Mapping>
    requires AllWellDated(mappings)
  {
    if mappings == [] then []
    else (if CoversText(mappings[0], text) then [mappings[0]] else []) + Covering(mappings[1..], text)
  }

  predicate RowAccepted(mappings: seq<Mapping>, selected: Mapping, text: string)
    requires AllWellDated(mappings)
  {
    Covering(mappings, text) == [selected]
  }

  lemma {:induction false} RelevantAreWellDated(t: Target)
    requires AllWellDated(t.mappings)
    ensures AllWellDated(Relevant(t.mappings, t.external))
  {
    var kept := Relevant(t.mappings, t.external);
    forall i | 0 <= i < |kept| ensures WellDated(kept[i]) {
      assert kept[i] in t.mappings;
    }
  }

  predicate AllWholeDays(mappings: seq<Mapping>) {
    forall i :: 0 <= i < |mappings| ==> WholeDays(mappings[i])
  }

  predicate AllCovered(mappings: seq<Mapping>, selected: Mapping, labels: seq<string>)
    requires AllWellDated(mappings)
  {
    forall i :: 0 <= i < |labels| ==> RowAccepted(mappings, selected, labels[i])
  }

  predicate AllBefore(labels: seq<string>, limit: string) {
    forall i :: 0 <= i < |labels| ==> StrLess(labels[i], limit)
  }

  /** Every row is covered by one mapping, the selected one. */
  method CheckCoverage(mappings: seq<Mapping>, selected: Mapping, labels: seq<string>) returns (ok: bool)
    requires AllWellDated(mappings)
    ensures ok <==> AllCovered(mappings, selected, labels)
  {
    for i := 0 to |labels|
      invariant forall j :: 0 <= j < i ==> RowAccepted(mappings, selected, labels[j])
    {
      var covering := Covering(mappings, labels[i]);
      if |covering| != 1 || covering[0] != selected {
        assert !RowAccepted(mappings, selected, labels[i]);
        return false;
      }
      assert covering == [selected];
    }
    ok := true;
  }

  function Verdicts(t: Target, today: string, cutoff: Instant): Verdict
    requires AllWellDated(Relevant(t.mappings, t.external))
  {
    var kept := Relevant(t.mappings, t.external);
    if t.available > cutoff then InputUnavailable
    else if !AllWholeDays(kept) || !AllCovered(kept, t.selected, t.labels) then MappingFailure
    else if t.labels == [] || !AllBefore(t.labels, today) then IncompleteMaterial
    else Qualified(t.labels)
  }

  /** The checks in the order they are made; the first that fails gives the reason.
      `today` is the text of the New York analysis date. */
  method Qualify(t: Target, today: string, cutoff: Instant) returns (verdict: Verdict)
    requires AllWellDated(t.mappings) && AllWellDated(Relevant(t.mappings, t.external))
    ensures verdict == Verdicts(t, today, cutoff)
  {
    if t.available > cutoff {
      return InputUnavailable;
    }
    var kept := Relevant(t.mappings, t.external);
    for i := 0 to |kept|
      invariant forall j :: 0 <= j < i ==> WholeDays(kept[j])
    {
      if !kept[i].validFrom.midnightUtc || (kept[i].expires.Some? && !kept[i].expires.value.midnightUtc) {
        assert !WholeDays(kept[i]);
        return MappingFailure;
      }
    }
    var covered := CheckCoverage(kept, t.selected, t.labels);
    if !covered {
      return MappingFailure;
    }
    if t.labels == [] {
      return IncompleteMaterial;
    }
    for i := 0 to |t.labels|
      invariant forall j :: 0 <= j < i ==> StrLess(t.labels[j], today)
    {
      if !StrLess(t.labels[i], today) {
        return IncompleteMaterial;
      }
    }
    verdict := Qualified(t.labels);
  }

  ghost predicate Accepts(t: Target, analysis: Date, cutoff: Instant)
    requires AllWellDated(t.mappings) && Valid(analysis)
  {
    RelevantAreWellDated(t);
    var kept := Relevant(t.mappings, t.external);
    && t.available <= cutoff
    && AllWholeDays(kept) && AllCovered(kept, t.selected, t.labels)
    && t.labels != [] && AllBefore(t.labels, IsoText(analysis))
  }

  // ---- Days instead of text ----

  /** The half-open interval of days a mapping is valid on. */
  predicate CoversDay(m: Mapping, d: Date) {
    Ordinal(m.validFrom.date) <= Ordinal(d) && (m.expires.Some? ==> Ordinal(d) < Ordinal(m.expires.value.date))
  }

  lemma {:induction false} TextCoverageIsDayCoverage(m: Mapping, text: string)
    requires WellDated(m) && ParseIso(text).Some?
    ensures CoversText(m, text) <==> CoversDay(m, ParseIso(text).value)
  {
    var d := ParseIso(text).value;
    FormatParses(text);
    TextOrderIsDayOrder(m.validFrom.date, d);
    if m.expires.Some? { TextOrderIsDayOrder(d, m.expires.value.date); }
  }

  /** One survivor of the filter: one index covers, and no other does. */
  lemma {:induction false} OnlyOneCovers(mappings: seq<Mapping>, text: string, selected: Mapping) returns (at: nat)
    requires AllWellDated(mappings) && Covering(mappings, text) == [selected]
    ensures at < |mappings| && mappings[at] == selected
    ensures forall i :: 0 <= i < |mappings| ==> (CoversText(mappings[i], text) <==> i == at)
  {
    if CoversText(mappings[0], text) {
      at := 0;
      var rest := Covering(mappings[1..], text);
      assert ([mappings[0]] + rest)[0] == selected && |[mappings[0]] + rest| == 1;
      assert rest == [];
      NoneCover(mappings[1..], text);
      assert forall i :: 1 <= i < |mappings| ==> mappings[i] == mappings[1..][i - 1];
    } else {
      var later := OnlyOneCovers(mappings[1..], text, selected);
      at := later + 1;
      assert forall i :: 1 <= i < |mappings| ==> mappings[i] == mappings[1..][i - 1];
    }
  }

  lemma {:induction false} NoneCover(mappings: seq<Mapping>, text: string)
    requires AllWellDated(mappings) && Covering(mappings, text) == []
    ensures forall i :: 0 <= i < |mappings| ==> !CoversText(mappings[i], text)
  {
    if mappings != [] {
      NoneCover(mappings[1..], text);
      assert forall i :: 1 <= i < |mappings| ==> mappings[i] == mappings[1..][i - 1];
    }
  }

  /** What the two filters keep, one mapping after the other. */
  function Applicable(mappings: seq<Mapping>, external: int, text: string): seq<Mapping>
    requires AllWellDated(mappings)
  {
    if mappings == [] then []
    else (if mappings[0].external == external && CoversText(mappings[0], text) then [mappings[0]] else [])
         + Applicable(mappings[1..], external, text)
  }

  lemma {:induction false} FiltersCombine(mappings: seq<Mapping>, external: int, text: string)
    requires AllWellDated(mappings)
    ensures AllWellDated(Relevant(mappings, external))
    ensures Covering(Relevant(mappings, external), text) == Applicable(mappings, external, text)
  {
    var kept := Relevant(mappings, external);
    forall i | 0 <= i < |kept| ensures WellDated(kept[i]) { assert kept[i] in mappings; }
    if mappings != [] {
      FiltersCombine(mappings[1..], external, text);
      var rest := Relevant(mappings[1..], external);
      if mappings[0].external == external {
        assert kept == [mappings[0]] + rest && kept[1..] == rest;
      } else {
        assert kept == rest;
      }
    }
  }

  /** The mapping at `at` is the only one of the identity that is valid on the day. */
  predicate OnlyAt(mappings: seq<Mapping>, external: int, day: Date, at: nat) {
    forall i :: 0 <= i < |mappings| ==> (mappings[i].external == external && CoversDay(mappings[i], day) <==> i == at)
  }

  lemma {:induction false} HeadOnly(head: Mapping, rest: seq<Mapping>, selected: Mapping)
    ensures [head] + rest == [selected] <==> head == selected && rest == []
  {
    assert ([head] + rest)[0] == head && |[head] + rest| == 1 + |rest|;
  }

  lemma {:induction false} OneApplies(mappings: seq<Mapping>, external: int, text: string, selected: Mapping)
    requires AllWellDated(mappings) && ParseIso(text).Some?
    ensures Applicable(mappings, external, text) == [] <==> OnlyAt(mappings, external, ParseIso(text).value, |mappings|)
    ensures Applicable(mappings, external, text) == [selected]
      <==> exists at :: 0 <= at < |mappings| && mappings[at] == selected && OnlyAt(mappings, external, ParseIso(text).value, at)
  {
    var day := ParseIso(text).value;
    if mappings != [] {
      var rest := mappings[1..];
      TextCoverageIsDayCoverage(mappings[0], text);
      OneApplies(rest, external, text, selected);
      var first := mappings[0].external == external && CoversDay(mappings[0], day);
      HeadOnly(mappings[0], Applicable(rest, external, text), selected);
      ShiftOnly(mappings, external, day, |mappings|);
      if first {
        FirstOnly(mappings, external, day);
      } else {
        forall at | 0 <= at < |rest| ensures OnlyAt(mappings, external, day, at + 1) <==> OnlyAt(rest, external, day, at) {
          ShiftOnly(mappings, external, day, at + 1);
        }
        if at :| 0 <= at < |rest| && rest[at] == selected && OnlyAt(rest, external, day, at) {
          assert mappings[at + 1] == selected && OnlyAt(mappings, external, day, at + 1);
        }
        if at :| 0 <= at < |mappings| && mappings[at] == selected && OnlyAt(mappings, external, day, at) {
          assert at > 0 && rest[at - 1] == selected && OnlyAt(rest, external, day, at - 1);
        }
      }
    }
  }

  lemma {:induction false} ShiftOnly(mappings: seq<Mapping>, external: int, day: Date, at: nat)
    requires mappings != [] && at > 0
    ensures OnlyAt(mappings, external, day, at)
      <==> !(mappings[0].external == external && CoversDay(mappings[0], day)) && OnlyAt(mappings[1..], external, day, at - 1)
  {
    var rest := mappings[1..];
    if OnlyAt(mappings, external, day, at) {
      forall i | 0 <= i < |rest|
        ensures rest[i].external == external && CoversDay(rest[i], day) <==> i == at - 1
      {
        assert rest[i] == mappings[i + 1];
      }
    }
    if !(mappings[0].external == external && CoversDay(mappings[0], day)) && OnlyAt(rest, external, day, at - 1) {
      forall i | 0 <= i < |mappings|
        ensures mappings[i].external == external && CoversDay(mappings[i], day) <==> i == at
      {
        if i > 0 { assert mappings[i] == rest[i - 1]; }
      }
    }
  }

  lemma {:induction false} FirstOnly(mappings: seq<Mapping>, external: int, day: Date)
    requires mappings != [] && mappings[0].external == external && CoversDay(mappings[0], day)
    ensures forall at :: 0 < at ==> !OnlyAt(mappings, external, day, at)
    ensures OnlyAt(mappings, external, day, 0) <==> OnlyAt(mappings[1..], external, day, |mappings[1..]|)
  {
    var rest := mappings[1..];
    if OnlyAt(mappings, external, day, 0) {
      forall i | 0 <= i < |rest|
        ensures !(rest[i].external == external && CoversDay(rest[i], day))
      {
        assert rest[i] == mappings[i + 1];
      }
    }
    if OnlyAt(rest, external, day, |rest|) {
      forall i | 0 <= i < |mappings|
        ensures mappings[i].external == external && CoversDay(mappings[i], day) <==> i == 0
      {
        if i > 0 { assert mappings[i] == rest[i - 1]; }
      }
    }
  }

  /** Every interval of the identity begins and ends at midnight UTC. */
  predicate WholeIntervals(t: Target) {
    forall i :: 0 <= i < |t.mappings| && t.mappings[i].external == t.external ==>
      t.mappings[i].validFrom.midnightUtc && (t.mappings[i].expires.Some? ==> t.mappings[i].expires.value.midnightUtc)
  }

  /** The selected mapping, and no other of the identity, is valid on the day of a row. */
  predicate RowMapped(t: Target, day: Date) {
    exists at :: 0 <= at < |t.mappings| && t.mappings[at] == t.selected && OnlyAt(t.mappings, t.external, day, at)
  }

  lemma {:induction false} RowMappedExactly(t: Target, text: string)
    requires AllWellDated(t.mappings) && AllWellDated(Relevant(t.mappings, t.external)) && ParseIso(text).Some?
    ensures RowAccepted(Relevant(t.mappings, t.external), t.selected, text) <==> RowMapped(t, ParseIso(text).value)
  {
    FiltersCombine(t.mappings, t.external, text);
    OneApplies(t.mappings, t.external, text, t.selected);
  }

  lemma {:induction false} WholeIntervalsExactly(t: Target)
    ensures AllWholeDays(Relevant(t.mappings, t.external)) <==> WholeIntervals(t)
  {
    var kept := Relevant(t.mappings, t.external);
    if AllWholeDays(kept) {
      forall i | 0 <= i < |t.mappings| && t.mappings[i].external == t.external ensures WholeDays(t.mappings[i]) {
        assert t.mappings[i] in kept;
        var k :| 0 <= k < |kept| && kept[k] == t.mappings[i];
      }
    }
    if WholeIntervals(t) {
      forall k | 0 <= k < |kept| ensures WholeDays(kept[k]) {
        assert kept[k] in kept && kept[k] in t.mappings;
        var i :| 0 <= i < |t.mappings| && t.mappings[i] == kept[k];
      }
    }
  }

  /** The verdict on a material whose rows carry dates, in terms of days: available, every
      interval whole, every row on a day of the selected mapping alone, and every row before
      the analysis date. */
  lemma {:induction false} VerdictExactly(t: Target, analysis: Date, cutoff: Instant)
    requires AllWellDated(t.mappings) && AllWellDated(Relevant(t.mappings, t.external)) && Valid(analysis) && Readable(t.labels)
    ensures var dates := DatesOf(t.labels);
      Verdicts(t, IsoText(analysis), cutoff) ==
        if cutoff < t.available then InputUnavailable
        else if !(WholeIntervals(t) && forall i :: 0 <= i < |dates| ==> RowMapped(t, dates[i])) then MappingFailure
        else if |dates| == 0 || exists i :: 0 <= i < |dates| && Ordinal(analysis) <= Ordinal(dates[i]) then IncompleteMaterial
        else Qualified(t.labels)
    ensures Verdicts(t, IsoText(analysis), cutoff).Qualified? <==> Accepts(t, analysis, cutoff)
  {
    var dates := DatesOf(t.labels);
    WholeIntervalsExactly(t);
    forall i | 0 <= i < |dates|
      ensures RowAccepted(Relevant(t.mappings, t.external), t.selected, t.labels[i]) <==> RowMapped(t, dates[i])
      ensures StrLess(t.labels[i], IsoText(analysis)) <==> Ordinal(dates[i]) < Ordinal(analysis)
    {
      RowMappedExactly(t, t.labels[i]);
      FormatParses(t.labels[i]);
      TextOrderIsDayOrder(dates[i], analysis);
    }
  }

  /** Every row of an accepted material lies on a day of exactly one interval among the
      mappings of its identity, and that mapping is the selected one. */
  lemma {:induction false} RowsHaveOneMapping(t: Target, analysis: Date, cutoff: Instant, row: nat) returns (at: nat)
    requires AllWellDated(t.mappings) && Valid(analysis) && Accepts(t, analysis, cutoff)
    requires Readable(t.labels) && row < |t.labels|
    ensures var kept := Relevant(t.mappings, t.external);
      && at < |kept| && kept[at] == t.selected
      && t.selected in t.mappings && t.selected.external == t.external
      && forall i :: 0 <= i < |kept| ==> (CoversDay(kept[i], DatesOf(t.labels)[row]) <==> i == at)
  {
    var kept := Relevant(t.mappings, t.external);
    RelevantAreWellDated(t);
    assert RowAccepted(kept, t.selected, t.labels[row]);
    at := OnlyOneCovers(kept, t.labels[row], t.selected);
    assert kept[at] in t.mappings;
    forall i | 0 <= i < |kept|
      ensures CoversDay(kept[i], DatesOf(t.labels)[row]) <==> i == at
    {
      TextCoverageIsDayCoverage(kept[i], t.labels[row]);
    }
  }

  /** Material accepted by qualification, evaluated for freshness on the same New York
      date: every row is eligible and the last one is the latest. */
  lemma {:induction false} QualifiedMaterialIsWhollyEligible(t: Target, analysis: Date, cutoff: Instant)
    requires AllWellDated(t.mappings) && Valid(analysis) && Accepts(t, analysis, cutoff)
    requires Readable(t.labels) && StrictlyIncreasing(DatesOf(t.labels))
    ensures var dates := DatesOf(t.labels); var s := SupportOf(dates, analysis);
      && Eligible(dates, analysis) == dates
      && s.eligibleCount == s.rowCount == |t.labels|
      && s.latestEligible == s.latest == Some(dates[|dates| - 1])
      && s.result == InWindow(dates[|dates| - 1], analysis)
      && s.outcome != NoEligibleSession
  {
    var dates := DatesOf(t.labels);
    forall i | 0 <= i < |dates| ensures Before(dates[i], analysis) {
      LabelPrecedes(t.labels[i], analysis);
    }
    AllEligible(dates, analysis);
  }

  lemma {:induction false} LabelPrecedes(text: string, analysis: Date)
    requires ParseIso(text).Some? && Valid(analysis) && StrLess(text, IsoText(analysis))
    ensures Before(ParseIso(text).value, analysis)
  {
    FormatParses(text);
    TextOrderIsDayOrder(ParseIso(text).value, analysis);
  }

  lemma {:induction false} AllEligible(dates: seq<Date>, evaluation: Date)
    requires dates != [] && StrictlyIncreasing(dates) && forall i :: 0 <= i < |dates| ==> Before(dates[i], evaluation)
    ensures Eligible(dates, evaluation) == dates
    ensures SupportOf(dates, evaluation).latestEligible == Some(dates[|dates| - 1])
    ensures SupportOf(dates, evaluation).result == InWindow(dates[|dates| - 1], evaluation)
    ensures SupportOf(dates, evaluation).outcome != NoEligibleSession
  {
    EligibleIsPrefix(dates, evaluation);
    assert dates[..|dates|] == dates;
  }

  /** The material accepted at an analysis date stays not fresh once it is not fresh. */
  lemma {:induction false} QualifiedStalenessIsPermanent(t: Target, analysis: Date, cutoff: Instant)
    requires AllWellDated(t.mappings) && Valid(analysis) && Accepts(t, analysis, cutoff)
    requires Readable(t.labels) && StrictlyIncreasing(DatesOf(t.labels))
    requires !SupportOf(DatesOf(t.labels), analysis).result
    ensures StaleFrom(DatesOf(t.labels), analysis)
  {
    var dates := DatesOf(t.labels);
    QualifiedMaterialIsWhollyEligible(t, analysis, cutoff);
    EligibleIsPrefix(dates, analysis);
    StalenessIsPermanentExactly(dates, analysis);
  }
}
