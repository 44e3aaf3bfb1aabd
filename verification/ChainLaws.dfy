/** What a generated chain says, slice after slice, and what the counters of a run
    add up to. */
module ChainLaws {
  import opened Basics
  import opened Calendar
  import opened Backfill
  import opened SelfCheck

  // --- what the chain says -----------------------------------------------------------------------

  function TotalGrowth(life: seq<Slice>): int {
    if |life| < 2 then 0
    else TotalGrowth(life[..|life| - 1]) + life[|life| - 1].dldayexp - life[|life| - 2].dldayexp
  }

  lemma {:induction false} GrowthTelescopes(life: seq<Slice>)
    requires |life| >= 1
    ensures life[0].dldayexp + TotalGrowth(life) == life[|life| - 1].dldayexp
  {
    if |life| >= 2 {
      GrowthTelescopes(life[..|life| - 1]);
    }
  }

  ghost predicate ConsecutiveMonths(c: seq<Slice>, first: int) {
    forall i :: 0 <= i < |c| ==> PeriodOf(c[i]) == first + i
  }

  /** Positive from the start, at most 31 there, and growing by 1 to 31 a slice. */
  ghost predicate GrowsGradually(c: seq<Slice>) {
    && (forall i :: 0 <= i < |c| ==> c[i].dldayexp >= 1)
    && (|c| > 0 ==> c[0].dldayexp <= 31)
    && (forall i :: 0 < i < |c| ==> 1 <= c[i].dldayexp - c[i - 1].dldayexp <= 31)
  }

  /** Between slices dated at month ends: the days of the month in between. */
  ghost predicate GrowsByWholeMonths(c: seq<Slice>, first: int) {
    forall i :: 0 < i < |c| ==> c[i].dldayexp - c[i - 1].dldayexp == MonthDays(first + i)
  }

  /** The chain runs over consecutive calendar months up to the deal's own; its days
      grow gradually, by whole month lengths inside the history, and add up to the
      days between the overdue start and the final date. */
  lemma ChainIsCorrect(s: Slice)
    requires s.dldpf.Some? && 1 <= s.dlmonth <= 12 && DateInOwnPeriod(s)
    requires Before(s.dldpf.value, FinalDate(s))
    ensures var c, h := Chain(s), HistoryLength(s);
            && |c| == h + 1
            && ConsecutiveMonths(c, EndPeriod(s) - h)
            && GrowsGradually(c)
            && GrowsByWholeMonths(c[..h], EndPeriod(s) - h)
            && c[0].dldayexp + TotalGrowth(c) == DaysBetween(s.dldpf.value, FinalDate(s))
  {
    hide MonthEnd, Ordinal, FinalDate, Historical, MakeSlice;
    var c, h := Chain(s), HistoryLength(s);
    OrdinalOrder(s.dldpf.value, FinalDate(s));
    LastSlice(s);
    HistoryIsCorrect(s);
    GrowthTelescopes(c);
    hide Chain, HistoryLength, EndPeriod, Before, PeriodOf, DaysBetween, TotalGrowth, MonthDays, GrowsByWholeMonths;
    WholeChain(c, EndPeriod(s) - h);
  }

  /** From the history and the last slice to the chain. */
  lemma WholeChain(c: seq<Slice>, first: int)
    requires c != [] && ConsecutiveMonths(c[..|c| - 1], first) && GrowsGradually(c[..|c| - 1])
    requires var h := |c| - 1;
             && PeriodOf(c[h]) == first + h && c[h].dldayexp >= 1 && (h == 0 ==> c[h].dldayexp <= 31)
             && (h > 0 ==> 1 <= c[h].dldayexp - c[h - 1].dldayexp <= 31)
    ensures ConsecutiveMonths(c, first) && GrowsGradually(c)
  {
    hide PeriodOf;
    var h := |c| - 1;
    assert forall i :: 0 <= i < h ==> c[..h][i] == c[i];
  }

  lemma HistoryIsCorrect(s: Slice)
    requires s.dldpf.Some? && 1 <= s.dlmonth <= 12
    ensures var c, h := Chain(s), HistoryLength(s);
            && |c| == h + 1
            && ConsecutiveMonths(c[..h], EndPeriod(s) - h)
            && GrowsGradually(c[..h])
            && GrowsByWholeMonths(c[..h], EndPeriod(s) - h)
  {
    hide MonthEnd, Ordinal, FinalDate, Historical, MakeSlice;
    var c, h := Chain(s), HistoryLength(s);
    assert |c| == h + 1;
    hide Chain, HistoryLength, EndPeriod, PeriodOf, MonthDays;
    forall i | 0 <= i < h
      ensures PeriodOf(c[i]) == EndPeriod(s) - h + i && c[i].dldayexp >= 1
      ensures i == 0 ==> c[i].dldayexp <= 31
      ensures i > 0 ==> c[i].dldayexp - c[i - 1].dldayexp == MonthDays(EndPeriod(s) - h + i)
    {
      HistorySlice(s, i);
    }
  }

  lemma HistorySlice(s: Slice, i: nat)
    requires s.dldpf.Some? && 1 <= s.dlmonth <= 12 && i < HistoryLength(s)
    ensures var c, n := Chain(s), EndPeriod(s) - HistoryLength(s) + i;
            && c[i] == Historical(s, s.dldpf.value, n)
            && PeriodOf(c[i]) == n && c[i].dldayexp >= 1
            && (i == 0 ==> c[i].dldayexp <= 31)
            && (i > 0 ==> c[i].dldayexp - c[i - 1].dldayexp == MonthDays(n))
  {
    hide MonthEnd, Ordinal, Historical;
    var dpf := s.dldpf.value;
    var n := EndPeriod(s) - HistoryLength(s) + i;
    assert n == MonthNoOf(dpf) + Drops(dpf, EndPeriod(s)) + i;
    assert Chain(s)[i] == Historical(s, dpf, n);
    assert i > 0 ==> Chain(s)[i - 1] == Historical(s, dpf, n - 1);
    ZeroOnlyOnTheFirstMonthEnd(s, dpf, n);
    HistoryStep(s, dpf, n, 31);
    hide Chain, MonthDays, SaneStep;
    if i == 0 {
      FirstHistoricalSlice(s, dpf, EndPeriod(s));
    } else {
      HistoryStep(s, dpf, n - 1, 31);
    }
  }

  /** The deal's own slice, against whatever precedes it. */
  lemma LastSlice(s: Slice)
    requires s.dldpf.Some? && 1 <= s.dlmonth <= 12 && DateInOwnPeriod(s)
    requires Ordinal(s.dldpf.value) < Ordinal(FinalDate(s))
    ensures var c, h := Chain(s), HistoryLength(s);
            && PeriodOf(c[h]) == EndPeriod(s)
            && c[h].dldayexp == DaysBetween(s.dldpf.value, FinalDate(s)) >= 1
            && (h == 0 ==> c[h].dldayexp <= 31)
            && (h > 0 ==> 1 <= c[h].dldayexp - c[h - 1].dldayexp <= 31)
  {
    hide MonthEnd, Ordinal, FinalDate, Historical;
    var dpf, h, end := s.dldpf.value, HistoryLength(s), EndPeriod(s);
    assert Chain(s)[h] == MakeSlice(s, dpf, FinalDate(s), false);
    OwnPeriodFollows(s, 31);
    if h > 0 {
      HistorySlice(s, h - 1);
      ZeroOnlyOnTheFirstMonthEnd(s, dpf, end - 1);
    } else {
      NoHistory(s);
    }
  }

  /** Without a history the overdue start is in the deal's own month, or is the very
      end of the month before it. */
  lemma NoHistory(s: Slice)
    requires s.dldpf.Some? && 1 <= s.dlmonth <= 12 && DateInOwnPeriod(s)
    requires Ordinal(s.dldpf.value) < Ordinal(FinalDate(s)) && HistoryLength(s) == 0
    ensures DaysBetween(s.dldpf.value, FinalDate(s)) <= 31
  {
    hide MonthEnd, Ordinal, FinalDate;
    var dpf, end := s.dldpf.value, EndPeriod(s);
    var n := MonthNoOf(dpf);
    OwnPeriodFollows(s, 31);
    OrdinalFromMonthEnd(dpf);
    MonthEndStep(n - 1);
    MonthNoInverse(dpf.year, dpf.month);
    MonthOfDay(dpf, end);
    OrdinalFromMonthEnd(FinalDate(s));
    assert n <= end by {
      MonthOfDay(dpf, end);
    }
    if n < end {
      assert Drops(dpf, end) == 1 && MonthDistance(dpf, end) == 1;
    }
  }

  /** Every slice is dated within its own period, counts the days from the overdue start to
      that date, and carries the deal's present amount and flags; only the last may carry an
      end date, the deal's own. */
  lemma SlicesAreConsistent(s: Slice, i: nat)
    requires s.dldpf.Some? && 1 <= s.dlmonth <= 12 && i < |Chain(s)|
    ensures var x := Chain(s)[i];
            && x.dldateclc.Some? && x.dlyear == x.dldateclc.value.year && x.dlmonth == x.dldateclc.value.month
            && x.dldayexp == Max(0, Ordinal(x.dldateclc.value) - Ordinal(s.dldpf.value))
            && x.dlamtexp == s.dlamtexp && x.dlflstat == s.dlflstat && x.dldpf == s.dldpf
            && (if i < |Chain(s)| - 1 then x.dldff == NoEndDate && x.dldateclc == Some(LastDay(PeriodOf(x)))
                else x.dldff == (if s.dldff.EndsOn? then s.dldff else NoEndDate) && x.dldateclc == Some(FinalDate(s)))
  {
    hide Ordinal, FinalDate;
    if i < |Chain(s)| - 1 {
      HistorySlice(s, i);
    }
  }

  // --- who is expanded -----------------------------------------------------------------------------

  /** The one slice of a deal makes it one to expand. */
  predicate Stuck(s: Slice, maxStep: int, includeFinal: bool) {
    && s.dldayexp > maxStep && s.dldpf.Some? && s.dlamtexp != 0.0 && 1 <= s.dlmonth <= 12 && s.dlyear >= 2000
    && (includeFinal || s.dlflstat.None? || s.dlflstat.value !in {2, 3, 6, 7, 10, 11, 12, 13, 14})
  }

  /** A deal of one slice is replaced by its chain if it is stuck, else it keeps its slice,
      rid of a malformed end date; it ends up with several slices exactly if it is stuck and
      some month before its own ends after the overdue start. Other deals stay as they are. */
  lemma ExpandsIff(deal: Deal, maxStep: int, includeFinal: bool)
    ensures Expanded(deal, maxStep, includeFinal).dlref == deal.dlref
    ensures |deal.life| != 1 ==> Expanded(deal, maxStep, includeFinal) == deal
    ensures |deal.life| == 1 ==>
              var s, life := deal.life[0], Expanded(deal, maxStep, includeFinal).life;
              && life == (if Stuck(s, maxStep, includeFinal) then Chain(s)
                          else [if s.dldff == Malformed then s.(dldff := NoEndDate) else s])
              && (|life| >= 2 <==>
                  Stuck(s, maxStep, includeFinal)
                  && exists n :: MonthNoOf(s.dldpf.value) <= n < MonthNo(s.dlyear, s.dlmonth)
                                 && MonthEnd(n) > Ordinal(s.dldpf.value))
  {
    if |deal.life| == 1 {
      var s := deal.life[0];
      assert Classify(deal, maxStep, includeFinal).Expand? <==> Stuck(s, maxStep, includeFinal);
      if Stuck(s, maxStep, includeFinal) {
        HasHistoryIff(s);
      }
      hide Chain, MonthEnd, Ordinal, Stuck;
    }
  }

  lemma HasHistoryIff(s: Slice)
    requires s.dldpf.Some? && 1 <= s.dlmonth <= 12
    ensures |Chain(s)| >= 2 <==>
            exists n :: MonthNoOf(s.dldpf.value) <= n < MonthNo(s.dlyear, s.dlmonth)
                        && MonthEnd(n) > Ordinal(s.dldpf.value)
  {
    ChainLength(s);
    hide Chain, FinalDate;
    EndsLaterIff(s.dldpf.value, EndPeriod(s));
  }

  /** Some month before `end` ends after the start, unless the one month there is gets dropped. */
  lemma EndsLaterIff(dpf: Day, end: int)
    ensures MonthDistance(dpf, end) - Drops(dpf, end) >= 1 <==>
            exists n :: MonthNoOf(dpf) <= n < end && MonthEnd(n) > Ordinal(dpf)
  {
    ClosesAMonthIff(dpf);
    OrdinalFromMonthEnd(dpf);
    hide MonthEnd, Ordinal, DaysInMonth, MonthNoOf;
    if MonthNoOf(dpf) < end {
      var last := end - 1;
      assert MonthNoOf(dpf) < last ==> MonthEnd(last) > Ordinal(dpf);
    }
  }

  /** By default a closed deal is kept; asking for closed deals changes nothing else. */
  lemma FinalDealsAreKept(deal: Deal, maxStep: int)
    ensures |deal.life| == 1 && deal.life[0].dlflstat.Some?
            && deal.life[0].dlflstat.value in {2, 3, 6, 7, 10, 11, 12, 13, 14} ==>
              var s := deal.life[0];
              Expanded(deal, maxStep, false).life == [if s.dldff == Malformed then s.(dldff := NoEndDate) else s]
    ensures Expanded(deal, maxStep, true) != Expanded(deal, maxStep, false) ==>
              && |deal.life| == 1 && deal.life[0].dlflstat.Some?
              && deal.life[0].dlflstat.value in {2, 3, 6, 7, 10, 11, 12, 13, 14}
  {
    ExpandsIff(deal, maxStep, false);
    ExpandsIff(deal, maxStep, true);
    hide Expanded, Chain;
  }

  // --- accounting over any list of deals -------------------------------------------------------------

  function Months(deal: Deal, maxStep: int, includeFinal: bool): nat {
    if Classify(deal, maxStep, includeFinal).Expand?
    then MonthDistance(deal.life[0].dldpf.value, EndPeriod(deal.life[0])) + 1 else 0
  }

  function Written(deal: Deal, maxStep: int, includeFinal: bool): nat {
    if Classify(deal, maxStep, includeFinal).Expand? then |Chain(deal.life[0])| else 0
  }

  function Sum(deals: seq<Deal>, f: Deal -> nat): nat {
    if deals == [] then 0 else Sum(deals[..|deals| - 1], f) + f(deals[|deals| - 1])
  }

  /** Every month of every expanded deal is either written or dropped, the slices
      written are the sum of the chain lengths, and `max_slices` is their maximum. */
  lemma {:induction false} CountersAreExact(c: Counters, deals: seq<Deal>, maxStep: int, includeFinal: bool)
    ensures var r := AccountAll(c, deals, maxStep, includeFinal);
            && r.slicesWritten == c.slicesWritten + Sum(deals, d => Written(d, maxStep, includeFinal))
            && r.slicesWritten + r.zeroDaySlicesDropped
               == c.slicesWritten + c.zeroDaySlicesDropped + Sum(deals, d => Months(d, maxStep, includeFinal))
            && c.zeroDaySlicesDropped <= r.zeroDaySlicesDropped
            && r.zeroDaySlicesDropped - c.zeroDaySlicesDropped <= r.dealsExpanded - c.dealsExpanded
            && c.maxSlices <= r.maxSlices
            && (forall d :: d in deals ==> Written(d, maxStep, includeFinal) <= r.maxSlices)
            && (r.maxSlices == c.maxSlices
                || exists d :: d in deals && r.maxSlices == Written(d, maxStep, includeFinal))
  {
    hide Account, Written, Months;
    var n := |deals|;
    if n > 0 {
      var before, d := deals[..n - 1], deals[n - 1];
      assert deals == before + [d];
      CountersAreExact(c, before, maxStep, includeFinal);
      var r := AccountAll(c, before, maxStep, includeFinal);
      OneDealCounted(r, d, maxStep, includeFinal);
      assert d in deals;
    }
  }

  lemma OneDealCounted(r: Counters, d: Deal, maxStep: int, includeFinal: bool)
    ensures var r' := Account(r, d, maxStep, includeFinal);
            && r'.slicesWritten == r.slicesWritten + Written(d, maxStep, includeFinal)
            && r'.slicesWritten + r'.zeroDaySlicesDropped
               == r.slicesWritten + r.zeroDaySlicesDropped + Months(d, maxStep, includeFinal)
            && 0 <= r'.zeroDaySlicesDropped - r.zeroDaySlicesDropped <= r'.dealsExpanded - r.dealsExpanded
            && r.maxSlices <= r'.maxSlices && Written(d, maxStep, includeFinal) <= r'.maxSlices
            && (r'.maxSlices == r.maxSlices || r'.maxSlices == Written(d, maxStep, includeFinal))
  {
    hide Classify, MonthDistance;
  }

  /** How many deals the counters say were kept for this reason. */
  function KeptAs(c: Counters, v: Verdict): nat { if v in c.kept then c.kept[v] else 0 }

  predicate IsFinal(s: Slice) { s.dlflstat.Some? && s.dlflstat.value in {2, 3, 6, 7, 10, 11, 12, 13, 14} }

  /** The deal is kept for this reason: the first that applies, in the generator's order. */
  predicate KeptFor(deal: Deal, maxStep: int, includeFinal: bool, v: Verdict) {
    if v == UnexpectedShape || |deal.life| != 1 then v == UnexpectedShape && |deal.life| != 1
    else
      var s := deal.life[0];
      match v
      case BelowThreshold => s.dldayexp <= maxStep
      case BadDldpf => s.dldayexp > maxStep && s.dldpf == None
      case FinalStatus => s.dldayexp > maxStep && s.dldpf != None && IsFinal(s) && !includeFinal
      case AmtexpZero =>
        s.dldayexp > maxStep && s.dldpf != None && (IsFinal(s) ==> includeFinal) && s.dlamtexp == 0.0
      case BadPeriod =>
        && s.dldayexp > maxStep && s.dldpf != None && (IsFinal(s) ==> includeFinal) && s.dlamtexp != 0.0
        && !(1 <= s.dlmonth <= 12 && s.dlyear >= 2000)
      case _ => false
  }

  /** Every deal is counted once, as expanded if it is stuck, else under the reason it was
      kept for. */
  lemma {:induction false} EachDealIsCounted(c: Counters, deals: seq<Deal>, maxStep: int, includeFinal: bool,
                                             v: Verdict)
    requires v != Expand
    ensures var r := AccountAll(c, deals, maxStep, includeFinal);
            && KeptAs(r, v) == KeptAs(c, v) + Sum(deals, d => if KeptFor(d, maxStep, includeFinal, v) then 1 else 0)
            && r.dealsExpanded == c.dealsExpanded
               + Sum(deals, (d: Deal) => if |d.life| == 1 && Stuck(d.life[0], maxStep, includeFinal) then 1 else 0)
  {
    hide Account, KeptAs, KeptFor, Stuck;
    if deals != [] {
      var n := |deals| - 1;
      EachDealIsCounted(c, deals[..n], maxStep, includeFinal, v);
      DealIsCounted(AccountAll(c, deals[..n], maxStep, includeFinal), deals[n], maxStep, includeFinal, v);
    }
  }

  lemma DealIsCounted(c: Counters, d: Deal, maxStep: int, includeFinal: bool, v: Verdict)
    requires v != Expand
    ensures var r := Account(c, d, maxStep, includeFinal);
            && KeptAs(r, v) == KeptAs(c, v) + (if KeptFor(d, maxStep, includeFinal, v) then 1 else 0)
            && r.dealsExpanded == c.dealsExpanded
               + (if |d.life| == 1 && Stuck(d.life[0], maxStep, includeFinal) then 1 else 0)
  {
    VerdictMeans(d, maxStep, includeFinal, v);
    hide Chain, Classify, KeptFor, Stuck;
  }

  lemma VerdictMeans(d: Deal, maxStep: int, includeFinal: bool, v: Verdict)
    ensures v != Expand ==> (Classify(d, maxStep, includeFinal) == v <==> KeptFor(d, maxStep, includeFinal, v))
    ensures Classify(d, maxStep, includeFinal) == Expand <==>
            |d.life| == 1 && Stuck(d.life[0], maxStep, includeFinal)
  {
  }

  /** A day is a month's last one exactly when it closes some month from its own on. */
  lemma ClosesAMonthIff(dpf: Day)
    ensures dpf.day == DaysInMonth(dpf.year, dpf.month) <==> MonthEnd(MonthNoOf(dpf)) == Ordinal(dpf)
    ensures forall n :: MonthNoOf(dpf) < n ==> MonthEnd(n) > Ordinal(dpf)
  {
    OrdinalFromMonthEnd(dpf);
    MonthNoInverse(dpf.year, dpf.month);
    MonthEndStep(MonthNoOf(dpf) - 1);
    hide MonthEnd, Ordinal, DaysInMonth;
    forall n | MonthNoOf(dpf) < n ensures MonthEnd(n) > Ordinal(dpf) {
      MonthEndsGrow(MonthNoOf(dpf), n);
    }
  }

  /** The month a slice would be dropped from, and only that one. */
  lemma ChainLength(s: Slice)
    requires s.dldpf.Some? && 1 <= s.dlmonth <= 12
    ensures |Chain(s)| == MonthDistance(s.dldpf.value, EndPeriod(s)) + 1 - Drops(s.dldpf.value, EndPeriod(s))
    ensures Drops(s.dldpf.value, EndPeriod(s)) == 1 <==>
            exists n :: MonthNoOf(s.dldpf.value) <= n < EndPeriod(s) && MonthEnd(n) == Ordinal(s.dldpf.value)
  {
    ClosesAMonthIff(s.dldpf.value);
    hide MonthEnd, Ordinal, DaysInMonth, MonthNoOf, FinalDate, MakeSlice;
  }
}
