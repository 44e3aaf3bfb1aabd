/** The deallife chain generator: one stuck deal's single slice becomes a slice
    per calendar month, with the overdue days derived from the dates.

    `Stats.ExpandDeal` is the program's loop; `Expanded` is what it produces, in
    closed form. Values are those already parsed from JSON. */
module Backfill {
  import opened Basics
  import opened Calendar

  /** `dldff`: absent, present but not a date, or a date. */
  datatype EndDate = NoEndDate | Malformed | EndsOn(on: Day)

  datatype Slice = Slice(
    dldpf: Option<Day>, dlyear: int, dlmonth: int, dldateclc: Option<Day>,
    dldayexp: int, dlflstat: Option<int>, dlamtexp: real, dldff: EndDate)

  datatype Deal = Deal(dlref: string, life: seq<Slice>)

  /** A slice read from `{}`: every field missing. */
  const EMPTY_SLICE := Slice(None, 0, 0, None, 0, None, 0.0, NoEndDate)

  const FINAL_STATUSES: set<int> := {2, 3, 6, 7, 10, 11, 12, 13, 14}

  /** What becomes of a deal, in the order the generator asks. */
  datatype Verdict =
    UnexpectedShape | BelowThreshold | BadDldpf | FinalStatus | AmtexpZero | BadPeriod | Expand

  function Classify(deal: Deal, maxStep: int, includeFinal: bool): Verdict {
    if |deal.life| != 1 then UnexpectedShape
    else
      var s := deal.life[0];
      if s.dldayexp <= maxStep then BelowThreshold
      else if s.dldpf.None? then BadDldpf
      else if s.dlflstat.Some? && s.dlflstat.value in FINAL_STATUSES && !includeFinal then FinalStatus
      else if s.dlamtexp == 0.0 then AmtexpZero
      else if !(1 <= s.dlmonth <= 12 && s.dlyear >= 2000) then BadPeriod
      else Expand
  }

  // --- one slice ------------------------------------------------------------------

  function Clean(s: Slice): Slice {
    if s.dldff.Malformed? then s.(dldff := NoEndDate) else s
  }

  /** Whole days from `from` to `to`. */
  function DaysBetween(from: Day, to: Day): int {
    Ordinal(to) - Ordinal(from)
  }

  function MakeSlice(template: Slice, dpf: Day, clc: Day, historical: bool): Slice {
    var s := Clean(template);
    s.(dlmonth := clc.month, dlyear := clc.year, dldateclc := Some(clc),
       dldayexp := Max(0, DaysBetween(dpf, clc)),
       dldff := if historical then NoEndDate else s.dldff)
  }

  function PeriodOf(s: Slice): int { MonthNo(s.dlyear, s.dlmonth) }

  // --- the chain, in closed form ------------------------------------------------------

  /** The deal's own period: where the history stops. */
  function EndPeriod(s: Slice): int { PeriodOf(s) }

  function FinalDate(s: Slice): Day
    requires 1 <= s.dlmonth <= 12
  {
    if s.dldateclc.Some? then s.dldateclc.value
    else Date(s.dlyear, s.dlmonth, DaysInMonth(s.dlyear, s.dlmonth))
  }

  /** Calendar months from the month of `dpf` up to `end`, exclusive. */
  function MonthDistance(dpf: Day, end: int): nat {
    Max(0, end - MonthNoOf(dpf))
  }

  /** The first historical slice would carry zero overdue days. */
  predicate StartsOnMonthEnd(dpf: Day, end: int) {
    MonthNoOf(dpf) < end && dpf.day == DaysInMonth(dpf.year, dpf.month)
  }

  function Drops(dpf: Day, end: int): (k: nat)
    ensures k <= MonthDistance(dpf, end)
  {
    if StartsOnMonthEnd(dpf, end) then 1 else 0
  }

  function Historical(template: Slice, dpf: Day, month: int): Slice {
    MakeSlice(template, dpf, LastDay(month), true)
  }

  function History(template: Slice, dpf: Day, first: int, count: nat): (h: seq<Slice>)
    ensures |h| == count
    ensures forall i :: 0 <= i < count ==> h[i] == Historical(template, dpf, first + i)
  {
    seq(count, i => Historical(template, dpf, first + i))
  }

  /** Every month from the overdue start to the deal's own period, one slice each,
      skipping the first when it would be empty of overdue days. */
  function Chain(s: Slice): seq<Slice>
    requires s.dldpf.Some? && 1 <= s.dlmonth <= 12
  {
    var dpf, end := s.dldpf.value, EndPeriod(s);
    var d := Drops(dpf, end);
    History(s, dpf, MonthNoOf(dpf) + d, MonthDistance(dpf, end) - d)
    + [MakeSlice(s, dpf, FinalDate(s), false)]
  }

  function Expanded(deal: Deal, maxStep: int, includeFinal: bool): Deal {
    match Classify(deal, maxStep, includeFinal)
    case UnexpectedShape => deal
    case Expand => deal.(life := Chain(deal.life[0]))
    case _ => deal.(life := [Clean(deal.life[0])])
  }

  // --- the counters -----------------------------------------------------------------------

  datatype Counters = Counters(
    kept: map<Verdict, nat>, keptMultiDeal: nat, dealsExpanded: nat, slicesWritten: nat,
    maxSlices: nat, zeroDaySlicesDropped: nat, dldffStripped: nat, dldffDroppedHistorical: nat)

  function Bump(m: map<Verdict, nat>, v: Verdict): map<Verdict, nat> {
    m[v := (if v in m then m[v] else 0) + 1]
  }

  /** What building one chain adds: a malformed end date is stripped from every month
      visited, a real one from every month but the last. */
  function Chained(c: Counters, s: Slice): Counters
    requires s.dldpf.Some?
  {
    var months := MonthDistance(s.dldpf.value, EndPeriod(s));
    c.(zeroDaySlicesDropped := c.zeroDaySlicesDropped + Drops(s.dldpf.value, EndPeriod(s)),
       dldffStripped := c.dldffStripped + (if s.dldff.Malformed? then months + 1 else 0),
       dldffDroppedHistorical := c.dldffDroppedHistorical + (if s.dldff.EndsOn? then months else 0))
  }

  /** What one deal adds to the counters. */
  function Account(c: Counters, deal: Deal, maxStep: int, includeFinal: bool): Counters {
    match Classify(deal, maxStep, includeFinal)
    case UnexpectedShape => c.(kept := Bump(c.kept, UnexpectedShape))
    case Expand =>
      var s := deal.life[0];
      var n := |Chain(s)|;
      Chained(c, s).(dealsExpanded := c.dealsExpanded + 1,
                     slicesWritten := c.slicesWritten + n,
                     maxSlices := Max(c.maxSlices, n))
    case v =>
      c.(kept := Bump(c.kept, v),
         dldffStripped := c.dldffStripped + (if deal.life[0].dldff.Malformed? then 1 else 0))
  }

  /** What one month of the walk adds to the counters. */
  function OneMonth(c: Counters, s: Slice, empty: bool): Counters {
    c.(zeroDaySlicesDropped := c.zeroDaySlicesDropped + (if empty then 1 else 0),
       dldffStripped := c.dldffStripped + (if s.dldff.Malformed? then 1 else 0),
       dldffDroppedHistorical := c.dldffDroppedHistorical + (if s.dldff.EndsOn? then 1 else 0))
  }

  function Walked(c: Counters, s: Slice, walked: nat, dropped: nat): Counters {
    c.(zeroDaySlicesDropped := c.zeroDaySlicesDropped + dropped,
       dldffStripped := c.dldffStripped + (if s.dldff.Malformed? then walked else 0),
       dldffDroppedHistorical := c.dldffDroppedHistorical + (if s.dldff.EndsOn? then walked else 0))
  }

  /** The state of the walk on reaching month `n`: months before it are written, except
      an empty first one. */
  predicate WalkedTo(c: Counters, s: Slice, dpf: Day, n: int, chain: seq<Slice>, c': Counters) {
    var first := MonthNoOf(dpf);
    var drops := Drops(dpf, EndPeriod(s));
    && first <= n
    && chain == History(s, dpf, first + drops, Max(0, n - first - drops))
    && c' == Walked(c, s, n - first, if n == first then 0 else drops)
  }

  lemma MonthStep(c: Counters, s: Slice, dpf: Day, n: int)
    requires n < EndPeriod(s)
    ensures forall chain, c' | WalkedTo(c, s, dpf, n, chain, c') ::
              var h := Historical(s, dpf, n);
              WalkedTo(c, s, dpf, n + 1, if h.dldayexp == 0 then chain else chain + [h],
                       OneMonth(c', s, h.dldayexp == 0))
  {
    if MonthNoOf(dpf) <= n {
      ZeroOnlyOnTheFirstMonthEnd(s, dpf, n);
    }
    var start := MonthNoOf(dpf) + Drops(dpf, EndPeriod(s));
    if start <= n {
      HistoryGrows(s, dpf, start, n - start);
    }
    hide Historical, MonthEnd, Ordinal, DaysInMonth, History;
  }

  lemma WalkStarts(c: Counters, s: Slice)
    requires s.dldpf.Some?
    ensures WalkedTo(c, s, s.dldpf.value, MonthNoOf(s.dldpf.value), [], c)
  {
    hide Historical;
  }

  /** At the deal's own period the walk has written everything but the last slice. */
  lemma WalkEnds(c: Counters, s: Slice, n: int, chain: seq<Slice>, c': Counters)
    requires s.dldpf.Some? && 1 <= s.dlmonth <= 12
    requires WalkedTo(c, s, s.dldpf.value, n, chain, c')
    requires EndPeriod(s) <= n && (n == EndPeriod(s) || n == MonthNoOf(s.dldpf.value))
    ensures chain + [MakeSlice(s, s.dldpf.value, FinalDate(s), false)] == Chain(s)
    ensures Chained(c, s) == c'.(dldffStripped := c'.dldffStripped + (if s.dldff.Malformed? then 1 else 0))
  {
    hide Historical, MakeSlice, FinalDate, DaysInMonth, History;
  }

  lemma HistoryGrows(template: Slice, dpf: Day, first: int, count: nat)
    ensures History(template, dpf, first, count + 1)
            == History(template, dpf, first, count) + [Historical(template, dpf, first + count)]
  {
    hide Historical;
  }

  lemma MonthSlice(template: Slice, dpf: Day, y: int, m: int)
    requires 1 <= m <= 12
    ensures MakeSlice(template, dpf, Date(y, m, DaysInMonth(y, m)), true)
            == Historical(template, dpf, MonthNo(y, m))
  {
    MonthNoInverse(y, m);
  }

  /** The `stats` dictionary every function of the generator writes into. */
  class Stats {
    var counters: Counters

    constructor ()
      ensures counters == Counters(map[], 0, 0, 0, 0, 0, 0, 0)
    {
      counters := Counters(map[], 0, 0, 0, 0, 0, 0, 0);
    }

    method CleanSlice(template: Slice) returns (s: Slice)
      modifies this
      ensures s == Clean(template)
      ensures counters == old(counters).(dldffStripped :=
                            old(counters.dldffStripped) + if template.dldff.Malformed? then 1 else 0)
    {
      s := template;
      if s.dldff.Malformed? {
        s := s.(dldff := NoEndDate);
        counters := counters.(dldffStripped := counters.dldffStripped + 1);
      }
    }

    method BuildSlice(template: Slice, dpf: Day, clc: Day, historical: bool) returns (s: Slice)
      modifies this
      ensures s == MakeSlice(template, dpf, clc, historical)
      ensures counters == old(counters).(
                dldffStripped := old(counters.dldffStripped) + (if template.dldff.Malformed? then 1 else 0),
                dldffDroppedHistorical := old(counters.dldffDroppedHistorical)
                                          + (if historical && template.dldff.EndsOn? then 1 else 0))
    {
      s := CleanSlice(template);
      s := s.(dlmonth := clc.month, dlyear := clc.year, dldateclc := Some(clc),
              dldayexp := Max(0, DaysBetween(dpf, clc)));
      if historical && s.dldff.EndsOn? {
        s := s.(dldff := NoEndDate);
        counters := counters.(dldffDroppedHistorical := counters.dldffDroppedHistorical + 1);
      }
    }

    /** One month of the walk: its slice is written, unless it is empty of overdue days. */
    method WriteMonth(current: Slice, dpf: Day, y: int, m: int, chain: seq<Slice>) returns (chain': seq<Slice>)
      requires 1 <= m <= 12
      modifies this
      ensures var h := Historical(current, dpf, MonthNo(y, m));
              && chain' == (if h.dldayexp == 0 then chain else chain + [h])
              && counters == OneMonth(old(counters), current, h.dldayexp == 0)
    {
      MonthSlice(current, dpf, y, m);
      hide MakeSlice, Historical;
      var slice := BuildSlice(current, dpf, Date(y, m, DaysInMonth(y, m)), true);
      chain' := chain;
      if slice.dldayexp == 0 {
        counters := counters.(zeroDaySlicesDropped := counters.zeroDaySlicesDropped + 1);
      } else {
        chain' := chain' + [slice];
      }
    }

    /** Walk the months from `dpf` to the deal's own period, then append the deal's
        own slice: the walk produces exactly the closed-form chain. */
    method BuildChain(current: Slice) returns (chain: seq<Slice>)
      requires current.dldpf.Some? && 1 <= current.dlmonth <= 12
      modifies this
      ensures chain == Chain(current)
      ensures counters == Chained(old(counters), current)
    {
      var dpf := current.dldpf.value;
      ghost var first, end := MonthNoOf(dpf), EndPeriod(current);
      WalkStarts(counters, current);
      assert end == MonthNo(current.dlyear, current.dlmonth) && first == MonthNo(dpf.year, dpf.month);
      hide WalkedTo, MakeSlice, Historical, Chain, Chained, FinalDate, DaysInMonth, MonthNo, EndPeriod, MonthNoOf;
      chain := [];
      var y, m := dpf.year, dpf.month;
      MonthOrder(y, m, current.dlyear, current.dlmonth);
      while y < current.dlyear || (y == current.dlyear && m < current.dlmonth)
        invariant 1 <= m <= 12
        invariant first <= MonthNo(y, m) && (MonthNo(y, m) <= end || MonthNo(y, m) == first)
        invariant MonthNo(y, m) < end <==> y < current.dlyear || (y == current.dlyear && m < current.dlmonth)
        invariant WalkedTo(old(counters), current, dpf, MonthNo(y, m), chain, counters)
        decreases end - MonthNo(y, m)
      {
        MonthStep(old(counters), current, dpf, MonthNo(y, m));
        chain := WriteMonth(current, dpf, y, m, chain);
        NextMonth(y, m);
        m := m + 1;
        if m > 12 {
          m, y := 1, y + 1;
        }
        MonthOrder(y, m, current.dlyear, current.dlmonth);
      }
      WalkEnds(old(counters), current, MonthNo(y, m), chain, counters);
      var last := BuildSlice(current, dpf, FinalDate(current), false);
      chain := chain + [last];
    }

    method ExpandDeal(deal: Deal, maxStep: int, includeFinal: bool) returns (out: Deal)
      modifies this
      ensures out == Expanded(deal, maxStep, includeFinal)
      ensures counters == Account(old(counters), deal, maxStep, includeFinal)
    {
      if |deal.life| != 1 {
        counters := counters.(kept := Bump(counters.kept, UnexpectedShape));
        return deal;
      }
      var current := deal.life[0];
      var verdict := Classify(deal, maxStep, includeFinal);
      if verdict != Expand {
        counters := counters.(kept := Bump(counters.kept, verdict));
        var s := CleanSlice(current);
        return deal.(life := [s]);
      }
      var chain := BuildChain(current);
      out := deal.(life := chain);
      counters := counters.(
        dealsExpanded := counters.dealsExpanded + 1,
        slicesWritten := counters.slicesWritten + |chain|,
        maxSlices := Max(counters.maxSlices, |chain|));
    }

    /** A subject with several deals is cut to one cleaned slice per deal unless
        asked otherwise; else every deal is expanded in turn. */
    method ExpandSubject(deals: seq<Deal>, maxStep: int, includeFinal: bool, includeMultiDeal: bool)
      returns (out: seq<Deal>)
      modifies this
      ensures out == ExpandedSubject(deals, maxStep, includeFinal, includeMultiDeal)
      ensures Truncates(deals, includeMultiDeal) ==>
                counters == old(counters).(
                  keptMultiDeal := old(counters.keptMultiDeal) + |deals|,
                  dldffStripped := old(counters.dldffStripped) + MalformedHeads(deals))
      ensures !Truncates(deals, includeMultiDeal) ==>
                counters == AccountAll(old(counters), deals, maxStep, includeFinal)
    {
      out := [];
      hide Account, Expanded, Clean;
      if Truncates(deals, includeMultiDeal) {
        NoHeads(deals);
        counters := counters.(keptMultiDeal := counters.keptMultiDeal + |deals|);
        for i := 0 to |deals|
          invariant |out| == i && forall j :: 0 <= j < i ==> out[j] == Truncated(deals[j])
          invariant counters == old(counters).(
                      keptMultiDeal := old(counters.keptMultiDeal) + |deals|,
                      dldffStripped := old(counters.dldffStripped) + MalformedHeads(deals[..i]))
        {
          OneMoreHead(deals, i);
          hide MalformedHeads;
          var s := CleanSlice(Head(deals[i]));
          out := out + [deals[i].(life := [s])];
        }
        assert deals[..|deals|] == deals;
      } else {
        for i := 0 to |deals|
          invariant |out| == i && forall j :: 0 <= j < i ==> out[j] == Expanded(deals[j], maxStep, includeFinal)
          invariant counters == AccountAll(old(counters), deals[..i], maxStep, includeFinal)
        {
          OneMoreAccount(old(counters), deals, maxStep, includeFinal, i);
          hide AccountAll;
          var d := ExpandDeal(deals[i], maxStep, includeFinal);
          out := out + [d];
        }
        assert deals[..|deals|] == deals;
      }
    }
  }

  lemma NoHeads(deals: seq<Deal>)
    ensures MalformedHeads(deals[..0]) == 0
  {
  }

  lemma OneMoreHead(deals: seq<Deal>, i: nat)
    requires i < |deals|
    ensures MalformedHeads(deals[..i + 1])
            == MalformedHeads(deals[..i]) + (if Head(deals[i]).dldff.Malformed? then 1 else 0)
  {
    assert deals[..i + 1][..i] == deals[..i];
  }

  lemma OneMoreAccount(c: Counters, deals: seq<Deal>, maxStep: int, includeFinal: bool, i: nat)
    requires i < |deals|
    ensures AccountAll(c, deals[..i + 1], maxStep, includeFinal)
            == Account(AccountAll(c, deals[..i], maxStep, includeFinal), deals[i], maxStep, includeFinal)
  {
    hide Account;
    assert deals[..i + 1][..i] == deals[..i];
  }

  predicate Truncates(deals: seq<Deal>, includeMultiDeal: bool) {
    |deals| > 1 && !includeMultiDeal
  }

  function Head(d: Deal): Slice {
    if d.life == [] then EMPTY_SLICE else d.life[0]
  }

  function Truncated(d: Deal): Deal { d.(life := [Clean(Head(d))]) }

  function MalformedHeads(deals: seq<Deal>): nat {
    if deals == [] then 0
    else MalformedHeads(deals[..|deals| - 1]) + (if Head(deals[|deals| - 1]).dldff.Malformed? then 1 else 0)
  }

  function ExpandedSubject(deals: seq<Deal>, maxStep: int, includeFinal: bool, includeMultiDeal: bool): seq<Deal> {
    if Truncates(deals, includeMultiDeal) then seq(|deals|, j requires 0 <= j < |deals| => Truncated(deals[j]))
    else seq(|deals|, j requires 0 <= j < |deals| => Expanded(deals[j], maxStep, includeFinal))
  }

  function AccountAll(c: Counters, deals: seq<Deal>, maxStep: int, includeFinal: bool): Counters {
    if deals == [] then c
    else Account(AccountAll(c, deals[..|deals| - 1], maxStep, includeFinal), deals[|deals| - 1], maxStep, includeFinal)
  }

  // --- derived days -------------------------------------------------------------------------

  /** Only the very first month can derive zero days, and only when `dpf` is that
      month's last day. */
  lemma ZeroOnlyOnTheFirstMonthEnd(s: Slice, dpf: Day, n: int)
    requires MonthNoOf(dpf) <= n
    ensures Historical(s, dpf, n).dldayexp == MonthEnd(n) - Ordinal(dpf) >= 0
    ensures Historical(s, dpf, n).dldayexp == 0 <==>
            n == MonthNoOf(dpf) && dpf.day == DaysInMonth(dpf.year, dpf.month)
  {
    var p := MonthNoOf(dpf);
    MonthNoInverse(dpf.year, dpf.month);
    OrdinalFromMonthEnd(dpf);
    MonthEndStep(p - 1);
    MonthEndsGrow(p, n);
  }
}
