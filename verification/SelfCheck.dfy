/** The chain generator's runtime self-check, and exactly when it fires or lets a
    refusable chain through. */
module SelfCheck {
  import opened Basics
  import opened Calendar
  import opened Backfill

  // --- the self-check -------------------------------------------------------------------------

  /** The two fields that must be zero together (bureau code 2051). */
  predicate AmountsAgree(s: Slice) {
    s.dldayexp == 0 <==> s.dlamtexp == 0.0
  }

  predicate SaneStep(a: Slice, b: Slice, maxStep: int) {
    a.dldayexp <= b.dldayexp <= a.dldayexp + maxStep
    && (a.dlyear < b.dlyear || (a.dlyear == b.dlyear && a.dlmonth < b.dlmonth))
  }

  ghost predicate SaneLife(life: seq<Slice>, maxStep: int) {
    |life| >= 2 ==>
      && life[0].dldayexp <= 31
      && (forall i :: 0 <= i < |life| ==> AmountsAgree(life[i]))
      && (forall i :: 0 < i < |life| ==> SaneStep(life[i - 1], life[i], maxStep))
  }

  ghost predicate SaneSubject(deals: seq<Deal>, maxStep: int) {
    forall d :: d in deals ==> SaneLife(d.life, maxStep)
  }

  /** The runtime self-check, returning instead of raising: false is a failed
      `assert`. */
  method AssertChainSane(deals: seq<Deal>, maxStep: int) returns (ok: bool)
    ensures ok <==> SaneSubject(deals, maxStep)
  {
    for d := 0 to |deals|
      invariant forall j :: 0 <= j < d ==> SaneLife(deals[j].life, maxStep)
    {
      var life := deals[d].life;
      if |life| >= 2 {
        if life[0].dldayexp > 31 {
          assert !SaneLife(life, maxStep);
          return false;
        }
        for i := 0 to |life|
          invariant forall j :: 0 <= j < i ==> AmountsAgree(life[j])
          invariant forall j :: 0 < j < i ==> SaneStep(life[j - 1], life[j], maxStep)
        {
          if !AmountsAgree(life[i]) || (i > 0 && !SaneStep(life[i - 1], life[i], maxStep)) {
            assert !SaneLife(life, maxStep);
            return false;
          }
        }
      }
    }
    return true;
  }

  // --- the theorem ---------------------------------------------------------------------------------

  /** `dldateclc`, when present, lies in the deal's own month. */
  predicate DateInOwnPeriod(s: Slice) {
    s.dldateclc.Some? ==> MonthNoOf(s.dldateclc.value) == EndPeriod(s)
  }

  /** Slices that come before the deal's own one. */
  function HistoryLength(s: Slice): nat
    requires s.dldpf.Some?
  {
    MonthDistance(s.dldpf.value, EndPeriod(s)) - Drops(s.dldpf.value, EndPeriod(s))
  }

  /** Adjacent historical slices: next month, and that month's length more days. */
  lemma HistoryStep(s: Slice, dpf: Day, n: int, maxStep: int)
    requires MonthNoOf(dpf) <= n && 31 <= maxStep
    ensures SaneStep(Historical(s, dpf, n), Historical(s, dpf, n + 1), maxStep)
    ensures Historical(s, dpf, n + 1).dldayexp == Historical(s, dpf, n).dldayexp + MonthDays(n + 1)
    ensures PeriodOf(Historical(s, dpf, n)) == n
  {
    hide MonthEnd;
    ZeroOnlyOnTheFirstMonthEnd(s, dpf, n);
    ZeroOnlyOnTheFirstMonthEnd(s, dpf, n + 1);
    MonthEndStep(n);
  }

  /** The first slice written starts the count within a month. */
  lemma FirstHistoricalSlice(s: Slice, dpf: Day, end: int)
    requires Drops(dpf, end) < MonthDistance(dpf, end)
    ensures 1 <= Historical(s, dpf, MonthNoOf(dpf) + Drops(dpf, end)).dldayexp <= 31
  {
    hide MonthEnd;
    var p := MonthNoOf(dpf);
    ZeroOnlyOnTheFirstMonthEnd(s, dpf, p + Drops(dpf, end));
    OrdinalFromMonthEnd(dpf);
    MonthEndStep(p);
    MonthEndStep(p - 1);
    assert MonthDays(p) == DaysInMonth(dpf.year, dpf.month) by { MonthNoInverse(dpf.year, dpf.month); }
  }

  /** The deal's own slice follows the last month end sanely exactly when its
      calculation date is past that month end by at most `maxStep` days. */
  lemma LastStep(s: Slice, dpf: Day, clc: Day, n: int, maxStep: int)
    requires MonthNoOf(dpf) <= n && Historical(s, dpf, n).dldayexp > 0
    ensures SaneStep(Historical(s, dpf, n), MakeSlice(s, dpf, clc, false), maxStep) <==>
            0 < Ordinal(clc) - MonthEnd(n) <= maxStep
  {
    hide MonthEnd, Ordinal;
    ZeroOnlyOnTheFirstMonthEnd(s, dpf, n);
    MonthOfDay(clc, n);
    MonthOrder(YearOf(n), MonthOf(n), clc.year, clc.month);
    assert MonthNo(YearOf(n), MonthOf(n)) == n;
  }

  /** A condition a caller can read off the slice before expanding it. */
  predicate FinalDateFollows(s: Slice, maxStep: int)
    requires s.dldpf.Some? && 1 <= s.dlmonth <= 12
  {
    0 < Ordinal(FinalDate(s)) - MonthEnd(EndPeriod(s) - 1) <= maxStep
  }

  /** What the chain holds before its last slice. */
  lemma HistoryPart(s: Slice, i: nat)
    requires s.dldpf.Some? && 1 <= s.dlmonth <= 12 && i < HistoryLength(s)
    ensures i < |Chain(s)|
    ensures Chain(s)[i] == Historical(s, s.dldpf.value,
                                      MonthNoOf(s.dldpf.value) + Drops(s.dldpf.value, EndPeriod(s)) + i)
  {
    hide Historical, Drops, MakeSlice, FinalDate;
  }

  lemma HistoryIsPositive(s: Slice, i: nat)
    requires s.dldpf.Some? && 1 <= s.dlmonth <= 12 && i < HistoryLength(s)
    ensures var h := Historical(s, s.dldpf.value,
                                MonthNoOf(s.dldpf.value) + Drops(s.dldpf.value, EndPeriod(s)) + i);
            h.dldayexp > 0 && h.dlamtexp == s.dlamtexp
    ensures Drops(s.dldpf.value, EndPeriod(s)) < MonthDistance(s.dldpf.value, EndPeriod(s))
  {
    var dpf := s.dldpf.value;
    var n := MonthNoOf(dpf) + Drops(dpf, EndPeriod(s)) + i;
    assert Historical(s, dpf, n).dlamtexp == s.dlamtexp;
    hide MonthEnd, Ordinal, DaysInMonth, Historical;
    ZeroOnlyOnTheFirstMonthEnd(s, dpf, n);
  }

  lemma PositiveAgrees(s: Slice)
    requires s.dldayexp > 0 && s.dlamtexp != 0.0
    ensures AmountsAgree(s)
  {
  }

  /** The slices written month by month, without the chain they end up in. */
  lemma MonthIsSane(s: Slice, dpf: Day, end: int, n: int, maxStep: int)
    requires MonthNoOf(dpf) + Drops(dpf, end) <= n && Drops(dpf, end) < MonthDistance(dpf, end)
    requires 31 <= maxStep
    ensures n == MonthNoOf(dpf) + Drops(dpf, end) ==> Historical(s, dpf, n).dldayexp <= 31
    ensures n > MonthNoOf(dpf) + Drops(dpf, end) ==>
              SaneStep(Historical(s, dpf, n - 1), Historical(s, dpf, n), maxStep)
  {
    hide MonthDistance, StartsOnMonthEnd, MonthEnd, Ordinal, DaysInMonth, Historical, SaneStep, MonthDays;
    if n == MonthNoOf(dpf) + Drops(dpf, end) {
      FirstHistoricalSlice(s, dpf, end);
    } else {
      HistoryStep(s, dpf, n - 1, maxStep);
    }
  }

  /** Inside the history every slice passes the self-check. */
  lemma HistoryIsSane(s: Slice, i: nat, maxStep: int)
    requires s.dldpf.Some? && 1 <= s.dlmonth <= 12 && s.dlamtexp != 0.0 && 31 <= maxStep
    requires i < HistoryLength(s) < |Chain(s)|
    ensures var first := MonthNoOf(s.dldpf.value) + Drops(s.dldpf.value, EndPeriod(s));
            && Chain(s)[i] == Historical(s, s.dldpf.value, first + i)
            && Chain(s)[i].dldayexp > 0
            && AmountsAgree(Chain(s)[i])
            && (i == 0 ==> Chain(s)[i].dldayexp <= 31)
            && (i > 0 ==> SaneStep(Chain(s)[i - 1], Chain(s)[i], maxStep))
  {
    hide *;
    var dpf, end := s.dldpf.value, EndPeriod(s);
    HistoryPart(s, i);
    HistoryIsPositive(s, i);
    PositiveAgrees(Chain(s)[i]);
    MonthIsSane(s, dpf, end, MonthNoOf(dpf) + Drops(dpf, end) + i, maxStep);
    if i > 0 {
      HistoryPart(s, i - 1);
    }
  }

  /** A history that is sane by itself makes the whole life sane exactly when the
      last slice follows it sanely. */
  lemma SaneUpToTheLast(life: seq<Slice>, maxStep: int)
    requires |life| >= 2 && life[0].dldayexp <= 31
    requires forall i :: 0 <= i < |life| - 1 ==> AmountsAgree(life[i])
    requires forall i :: 0 < i < |life| - 1 ==> SaneStep(life[i - 1], life[i], maxStep)
    requires life[|life| - 2].dldayexp > 0 && life[|life| - 1].dlamtexp != 0.0
    ensures SaneLife(life, maxStep) <==> SaneStep(life[|life| - 2], life[|life| - 1], maxStep)
  {
    var n := |life| - 1;
    if SaneStep(life[n - 1], life[n], maxStep) {
      assert AmountsAgree(life[n]);
    }
  }

  /** Exactly when the self-check accepts a generated chain. */
  lemma ExpandedChainIsSaneIff(s: Slice, maxStep: int)
    requires s.dldpf.Some? && 1 <= s.dlmonth <= 12 && s.dlamtexp != 0.0 && 31 <= maxStep
    ensures SaneLife(Chain(s), maxStep) <==> HistoryLength(s) == 0 || FinalDateFollows(s, maxStep)
  {
    hide MonthEnd, Ordinal, SaneStep, Historical;
    var dpf, h, chain := s.dldpf.value, HistoryLength(s), Chain(s);
    var last := MakeSlice(s, dpf, FinalDate(s), false);
    assert |chain| == h + 1 && chain[h] == last && last.dlamtexp == s.dlamtexp;
    if h > 0 {
      hide Chain, MakeSlice, HistoryLength, FinalDate, SaneLife;
      forall i | 0 <= i < h
        ensures AmountsAgree(chain[i])
        ensures i > 0 ==> SaneStep(chain[i - 1], chain[i], maxStep)
      {
        HistoryIsSane(s, i, maxStep);
      }
      HistoryIsSane(s, 0, maxStep);
      HistoryIsSane(s, h - 1, maxStep);
      SaneUpToTheLast(chain, maxStep);
      LastStep(s, dpf, FinalDate(s), EndPeriod(s) - 1, maxStep);
    }
  }

  /** What the self-check asks of a deal after expansion, in terms of the deal
      before it. */
  ghost predicate PassesCheck(deal: Deal, maxStep: int, includeFinal: bool) {
    match Classify(deal, maxStep, includeFinal)
    case UnexpectedShape => SaneLife(deal.life, maxStep)
    case Expand => HistoryLength(deal.life[0]) == 0 || FinalDateFollows(deal.life[0], maxStep)
    case _ => true
  }

  lemma ShortLifeIsSane(life: seq<Slice>, maxStep: int)
    requires |life| < 2
    ensures SaneLife(life, maxStep)
  {
  }

  lemma ExpandedDealIsSaneIff(deal: Deal, maxStep: int, includeFinal: bool)
    requires 31 <= maxStep
    ensures SaneLife(Expanded(deal, maxStep, includeFinal).life, maxStep)
            <==> PassesCheck(deal, maxStep, includeFinal)
  {
    if Classify(deal, maxStep, includeFinal).Expand? {
      ExpandedChainIsSaneIff(deal.life[0], maxStep);
    }
  }

  /** Exactly when a whole subject passes: never a failure on a subject that was cut,
      and deal by deal otherwise, including deals returned as they came. */
  lemma ExpandedSubjectIsSaneIff(deals: seq<Deal>, maxStep: int, includeFinal: bool, includeMultiDeal: bool)
    requires 31 <= maxStep
    ensures SaneSubject(ExpandedSubject(deals, maxStep, includeFinal, includeMultiDeal), maxStep)
            <==> Truncates(deals, includeMultiDeal)
                 || forall i :: 0 <= i < |deals| ==> PassesCheck(deals[i], maxStep, includeFinal)
  {
    var out := ExpandedSubject(deals, maxStep, includeFinal, includeMultiDeal);
    hide SaneLife, PassesCheck, Expanded;
    if Truncates(deals, includeMultiDeal) {
      forall d | d in out ensures SaneLife(d.life, maxStep) {
        assert |d.life| == 1;
        ShortLifeIsSane(d.life, maxStep);
      }
    } else {
      forall i | 0 <= i < |deals|
        ensures SaneLife(out[i].life, maxStep) <==> PassesCheck(deals[i], maxStep, includeFinal)
      {
        ExpandedDealIsSaneIff(deals[i], maxStep, includeFinal);
      }
      assert forall i :: 0 <= i < |out| ==> out[i] in out;
    }
  }

  /** With the calculation date in the deal's own month, the self-check can never
      fire, whatever `dldpf` and the end period are. */
  lemma SelfCheckNeverFires(deals: seq<Deal>, maxStep: int, includeFinal: bool, includeMultiDeal: bool)
    requires 31 <= maxStep
    requires forall d :: d in deals ==> |d.life| < 2
    requires forall d :: d in deals && Classify(d, maxStep, includeFinal).Expand? ==> DateInOwnPeriod(d.life[0])
    ensures SaneSubject(ExpandedSubject(deals, maxStep, includeFinal, includeMultiDeal), maxStep)
  {
    ExpandedSubjectIsSaneIff(deals, maxStep, includeFinal, includeMultiDeal);
    forall i | 0 <= i < |deals| ensures PassesCheck(deals[i], maxStep, includeFinal) {
      assert deals[i] in deals;
      if Classify(deals[i], maxStep, includeFinal).Expand? {
        OwnPeriodFollows(deals[i].life[0], maxStep);
      }
    }
  }

  lemma OwnPeriodFollows(s: Slice, maxStep: int)
    requires s.dldpf.Some? && 1 <= s.dlmonth <= 12 && DateInOwnPeriod(s) && 31 <= maxStep
    ensures FinalDateFollows(s, maxStep)
    ensures MonthNoOf(FinalDate(s)) == EndPeriod(s)
  {
    MonthNoInverse(s.dlyear, s.dlmonth);
    assert MonthNoOf(FinalDate(s)) == EndPeriod(s);
    hide MonthEnd, Ordinal, DaysInMonth, FinalDate;
    OrdinalFromMonthEnd(FinalDate(s));
    MonthEndStep(EndPeriod(s) - 1);
  }

  // --- where the promises stop ---------------------------------------------------------------------------

  const STUCK := Slice(Some(Date(2026, 1, 10)), 2026, 6, None, 200, None, 100.0, NoEndDate)

  /** A calculation date outside the deal's own month makes the generated chain fail
      the generator's own check: the last period repeats or runs backwards. */
  lemma DateOutsideThePeriodTripsTheCheck()
    ensures var s := STUCK.(dldateclc := Some(Date(2026, 5, 20)));
            && Classify(Deal("d", [s]), 92, false).Expand?
            && !DateInOwnPeriod(s)
            && !SaneLife(Expanded(Deal("d", [s]), 92, false).life, 92)
  {
    var s := STUCK.(dldateclc := Some(Date(2026, 5, 20)));
    hide MonthEnd, Ordinal, DaysBetween;
    assert Classify(Deal("d", [s]), 92, false).Expand? && HistoryLength(s) > 0;
    EarlierDateNeverFollows(s, 92);
    ExpandedChainIsSaneIff(s, 92);
    hide FinalDateFollows, Chain, SaneLife, HistoryLength;
  }

  lemma EarlierDateNeverFollows(s: Slice, maxStep: int)
    requires s.dldpf.Some? && 1 <= s.dlmonth <= 12 && MonthNoOf(FinalDate(s)) < EndPeriod(s)
    ensures !FinalDateFollows(s, maxStep)
  {
    MonthOfDay(FinalDate(s), EndPeriod(s) - 1);
    hide MonthEnd, Ordinal, FinalDate, DaysInMonth, MonthNoOf;
  }

  /** A deal that already carries two slices comes back as it is, and can trip it. */
  lemma UntouchedDealTripsTheCheck()
    ensures var deal := Deal("d", [STUCK, STUCK]);
            && Expanded(deal, 92, false) == deal
            && !SaneSubject(ExpandedSubject([deal], 92, false, false), 92)
  {
    var deal := Deal("d", [STUCK, STUCK]);
    ExpandedSubjectIsSaneIff([deal], 92, false, false);
    assert !PassesCheck([deal][0], 92, false);
  }

  /** A subject of several deals is not left untouched: all but the first slice of
      every deal is lost, and a deal without a slice gets an empty one. Only a single deal, or
      the wish for several, has every deal expanded. */
  lemma SeveralDealsAreTruncated(deals: seq<Deal>, maxStep: int, includeFinal: bool, includeMultiDeal: bool)
    ensures var out := ExpandedSubject(deals, maxStep, includeFinal, includeMultiDeal);
            && |out| == |deals|
            && (includeMultiDeal || |deals| <= 1 ==>
                  forall i :: 0 <= i < |deals| ==> out[i] == Expanded(deals[i], maxStep, includeFinal))
            && (!includeMultiDeal && |deals| > 1 ==>
                  && (forall i :: 0 <= i < |deals| ==> out[i] == Cut(deals[i]))
                  && (out == deals <==> forall i :: 0 <= i < |deals| ==>
                                          |deals[i].life| == 1 && !deals[i].life[0].dldff.Malformed?))
  {
    var out := ExpandedSubject(deals, maxStep, includeFinal, includeMultiDeal);
    if !includeMultiDeal && |deals| > 1 {
      forall i | 0 <= i < |deals|
        ensures out[i] == Cut(deals[i])
        ensures out[i] == deals[i] <==> |deals[i].life| == 1 && !deals[i].life[0].dldff.Malformed?
      {
        if |deals[i].life| == 1 && !deals[i].life[0].dldff.Malformed? {
          assert deals[i].life == [deals[i].life[0]];
        }
      }
    }
  }

  /** A deal with one slice only: its first, rid of a malformed end date, or one with every
      field missing. */
  function Cut(d: Deal): Deal {
    Deal(d.dlref, if d.life == [] then [Slice(None, 0, 0, None, 0, None, 0.0, NoEndDate)]
                  else if d.life[0].dldff == Malformed then [d.life[0].(dldff := NoEndDate)] else [d.life[0]])
  }

  /** The zero days beside a non-zero amount that the bureau refuses (code 2051) get past
      the self-check exactly when the overdue start is neither before the final date nor
      followed by a history: the one slice of such a chain is never looked at. */
  lemma CheckMissesIff(s: Slice, maxStep: int)
    requires s.dldpf.Some? && 1 <= s.dlmonth <= 12 && s.dlamtexp != 0.0 && 31 <= maxStep
    ensures (SaneLife(Chain(s), maxStep) && exists i :: 0 <= i < |Chain(s)| && !AmountsAgree(Chain(s)[i]))
            <==> HistoryLength(s) == 0 && !Before(s.dldpf.value, FinalDate(s))
  {
    var dpf, h := s.dldpf.value, HistoryLength(s);
    OrdinalOrder(dpf, FinalDate(s));
    assert |Chain(s)| == h + 1 && Chain(s)[h] == MakeSlice(s, dpf, FinalDate(s), false);
    assert !AmountsAgree(Chain(s)[h]) <==> !Before(dpf, FinalDate(s));
    if h > 0 {
      assert SaneLife(Chain(s), maxStep) ==> forall i :: 0 <= i < |Chain(s)| ==> AmountsAgree(Chain(s)[i]);
    }
  }

  /** A chain of one slice is never looked at: overdue since the very last day, it
      carries zero days beside a non-zero amount and still passes. */
  lemma CheckMissesASingleSlice()
    ensures var s := STUCK.(dldpf := Some(Date(2026, 6, 30)));
            var life := Expanded(Deal("d", [s]), 92, false).life;
            && Classify(Deal("d", [s]), 92, false).Expand?
            && SaneLife(life, 92)
            && |life| == 1 && !AmountsAgree(life[0])
  {
    var s := STUCK.(dldpf := Some(Date(2026, 6, 30)));
    assert FinalDate(s) == Date(2026, 6, 30);
    assert MonthDistance(s.dldpf.value, EndPeriod(s)) == 0;
  }
}
