/** The stratified sample of the backfill generator: every risky shape first, then an even
    spread over the rest. Lines that do not parse are already left out. */
module Sampling {
  import opened Basics

  datatype Entry = Entry(deals: nat, span: int, bytes: nat, line: string)

  function LinesOf(parsed: seq<Entry>): set<string> {
    set e | e in parsed :: e.line
  }

  ghost predicate NoRepeats(s: seq<string>) {
    forall i, j :: 0 <= i < j < |s| ==> s[i] != s[j]
  }

  ghost predicate DistinctLines(parsed: seq<Entry>) {
    forall i, j :: 0 <= i < j < |parsed| ==> parsed[i].line != parsed[j].line
  }

  function Taken(picked: seq<string>): set<string> {
    set l | l in picked
  }

  // --- stable order by number of deals, most first ------------------------------------

  function Place(sorted: seq<Entry>, e: Entry): seq<Entry> {
    if sorted == [] || sorted[0].deals < e.deals then [e] + sorted
    else [sorted[0]] + Place(sorted[1..], e)
  }

  function ByDeals(parsed: seq<Entry>): seq<Entry> {
    if parsed == [] then [] else Place(ByDeals(parsed[..|parsed| - 1]), parsed[|parsed| - 1])
  }

  ghost predicate Descending(s: seq<Entry>) {
    forall i, j :: 0 <= i < j < |s| ==> s[i].deals >= s[j].deals
  }

  lemma {:induction false} PlaceKeepsOrder(s: seq<Entry>, e: Entry)
    requires Descending(s)
    ensures Descending(Place(s, e))
    ensures forall x :: x in Place(s, e) <==> x in s || x == e
  {
    if s != [] && s[0].deals >= e.deals {
      PlaceKeepsOrder(s[1..], e);
      assert s == [s[0]] + s[1..];
      var rest := Place(s[1..], e);
      forall j | 0 <= j < |rest| ensures s[0].deals >= rest[j].deals {
        assert rest[j] in rest;
      }
    }
  }

  lemma {:induction false} ByDealsIsSorted(parsed: seq<Entry>)
    ensures Descending(ByDeals(parsed))
    ensures forall x :: x in ByDeals(parsed) <==> x in parsed
  {
    if parsed != [] {
      var n := |parsed| - 1;
      ByDealsIsSorted(parsed[..n]);
      PlaceKeepsOrder(ByDeals(parsed[..n]), parsed[n]);
      assert parsed == parsed[..n] + [parsed[n]];
    }
  }

  /** The entries with this number of deals, as listed. */
  function WithDeals(s: seq<Entry>, deals: nat): seq<Entry> {
    if s == [] then [] else (if s[0].deals == deals then [s[0]] else []) + WithDeals(s[1..], deals)
  }

  lemma {:induction false} WithDealsOfParts(a: seq<Entry>, b: seq<Entry>, deals: nat)
    ensures WithDeals(a + b, deals) == WithDeals(a, deals) + WithDeals(b, deals)
  {
    if a == [] {
      assert a + b == b;
    } else {
      WithDealsStep(a, deals);
      WithDealsStep(a + b, deals);
      hide WithDeals;
      WithDealsOfParts(a[1..], b, deals);
      assert (a + b)[1..] == a[1..] + b && (a + b)[0] == a[0];
    }
  }

  lemma WithDealsStep(s: seq<Entry>, deals: nat)
    requires s != []
    ensures WithDeals(s, deals) == (if s[0].deals == deals then [s[0]] else []) + WithDeals(s[1..], deals)
  {
  }

  lemma {:induction false} NoneHasMore(s: seq<Entry>, deals: nat)
    requires forall i :: 0 <= i < |s| ==> s[i].deals < deals
    ensures WithDeals(s, deals) == []
  {
    if s != [] {
      NoneHasMore(s[1..], deals);
    }
  }

  lemma {:induction false} PlaceGoesLast(s: seq<Entry>, e: Entry, deals: nat)
    requires Descending(s)
    ensures WithDeals(Place(s, e), deals) == WithDeals(s, deals) + (if e.deals == deals then [e] else [])
  {
    if s == [] || s[0].deals < e.deals {
      assert ([e] + s)[1..] == s;
      if e.deals == deals {
        NoneHasMore(s, deals);
      }
    } else {
      PlaceGoesLast(s[1..], e, deals);
      assert Place(s, e)[1..] == Place(s[1..], e);
    }
  }

  /** The order is stable: entries with equally many deals stay in input order. */
  lemma {:induction false} ByDealsIsStable(parsed: seq<Entry>, deals: nat)
    ensures WithDeals(ByDeals(parsed), deals) == WithDeals(parsed, deals)
  {
    if parsed != [] {
      var n := |parsed| - 1;
      ByDealsIsStable(parsed[..n], deals);
      ByDealsIsSorted(parsed[..n]);
      PlaceGoesLast(ByDeals(parsed[..n]), parsed[n], deals);
      WithDealsOfParts(parsed[..n], [parsed[n]], deals);
      assert parsed == parsed[..n] + [parsed[n]] && [parsed[n]][1..] == [];
    }
  }

  // --- what has to be in the sample -------------------------------------------------------

  predicate LongestSpan(parsed: seq<Entry>, e: Entry) {
    e in parsed && forall x :: x in parsed ==> x.span <= e.span
  }

  predicate LargestLine(parsed: seq<Entry>, e: Entry) {
    e in parsed && forall x :: x in parsed ==> x.bytes <= e.bytes
  }

  /** `max(parsed, key=...)`: the first entry no other exceeds. */
  function FirstLongest(parsed: seq<Entry>): (e: Entry)
    requires parsed != []
    ensures LongestSpan(parsed, e)
  {
    if |parsed| == 1 then parsed[0]
    else
      var n := |parsed| - 1;
      var best := FirstLongest(parsed[..n]);
      assert parsed == parsed[..n] + [parsed[n]];
      if parsed[n].span > best.span then parsed[n] else best
  }

  function FirstLargest(parsed: seq<Entry>): (e: Entry)
    requires parsed != []
    ensures LargestLine(parsed, e)
  {
    if |parsed| == 1 then parsed[0]
    else
      var n := |parsed| - 1;
      var best := FirstLargest(parsed[..n]);
      assert parsed == parsed[..n] + [parsed[n]];
      if parsed[n].bytes > best.bytes then parsed[n] else best
  }

  /** Of several that long it is the first. */
  lemma {:induction false} FirstOfTheLongest(parsed: seq<Entry>) returns (i: nat)
    requires parsed != []
    ensures i < |parsed| && parsed[i] == FirstLongest(parsed)
    ensures forall j :: 0 <= j < i ==> parsed[j].span < parsed[i].span
  {
    LongestStep(parsed);
    hide FirstLongest;
    i := 0;
    if |parsed| > 1 {
      i := FirstOfTheLongest(parsed[..|parsed| - 1]);
      if FirstLongest(parsed) != FirstLongest(parsed[..|parsed| - 1]) {
        i := |parsed| - 1;
      }
    }
  }

  lemma LongestStep(parsed: seq<Entry>)
    requires parsed != []
    ensures |parsed| == 1 ==> FirstLongest(parsed) == parsed[0]
    ensures |parsed| > 1 ==>
              var n := |parsed| - 1;
              || FirstLongest(parsed) == FirstLongest(parsed[..n])
              || (FirstLongest(parsed) == parsed[n] && forall j :: 0 <= j < n ==> parsed[j].span < parsed[n].span)
  {
    if |parsed| > 1 {
      var n := |parsed| - 1;
      forall j | 0 <= j < n ensures parsed[j].span <= FirstLongest(parsed[..n]).span {
        assert parsed[..n][j] in parsed[..n];
      }
    }
  }

  /** And of several that large. */
  lemma {:induction false} FirstOfTheLargest(parsed: seq<Entry>) returns (i: nat)
    requires parsed != []
    ensures i < |parsed| && parsed[i] == FirstLargest(parsed)
    ensures forall j :: 0 <= j < i ==> parsed[j].bytes < parsed[i].bytes
  {
    LargestStep(parsed);
    hide FirstLargest;
    i := 0;
    if |parsed| > 1 {
      i := FirstOfTheLargest(parsed[..|parsed| - 1]);
      if FirstLargest(parsed) != FirstLargest(parsed[..|parsed| - 1]) {
        i := |parsed| - 1;
      }
    }
  }

  lemma LargestStep(parsed: seq<Entry>)
    requires parsed != []
    ensures |parsed| == 1 ==> FirstLargest(parsed) == parsed[0]
    ensures |parsed| > 1 ==>
              var n := |parsed| - 1;
              || FirstLargest(parsed) == FirstLargest(parsed[..n])
              || (FirstLargest(parsed) == parsed[n] && forall j :: 0 <= j < n ==> parsed[j].bytes < parsed[n].bytes)
  {
    if |parsed| > 1 {
      var n := |parsed| - 1;
      forall j | 0 <= j < n ensures parsed[j].bytes <= FirstLargest(parsed[..n]).bytes {
        assert parsed[..n][j] in parsed[..n];
      }
    }
  }

  function MultiDeal(parsed: seq<Entry>): set<string> {
    set e | e in parsed && e.deals >= 2 :: e.line
  }

  /** The multi-deal entries at the front of a descending order. */
  function Leading(sorted: seq<Entry>): seq<Entry> {
    if sorted == [] || sorted[0].deals < 2 then [] else [sorted[0]] + Leading(sorted[1..])
  }

  /** The lines in that order, each at its first occurrence. */
  function FirstOccurrences(entries: seq<Entry>): seq<string> {
    if entries == [] then []
    else
      var n := |entries| - 1;
      var before := FirstOccurrences(entries[..n]);
      if entries[n].line in before then before else before + [entries[n].line]
  }

  function Mandatory(parsed: seq<Entry>): set<string>
    requires parsed != []
  {
    MultiDeal(parsed) + {FirstLongest(parsed).line, FirstLargest(parsed).line}
  }

  // --- the rest ---------------------------------------------------------------------------

  function Rest(parsed: seq<Entry>, seen: set<string>): seq<string> {
    if parsed == [] then []
    else
      var n := |parsed| - 1;
      Rest(parsed[..n], seen) + (if parsed[n].line in seen then [] else [parsed[n].line])
  }

  lemma {:induction false} RestMembers(parsed: seq<Entry>, seen: set<string>)
    ensures forall l :: l in Rest(parsed, seen) <==> l in LinesOf(parsed) && l !in seen
  {
    if parsed != [] {
      var n := |parsed| - 1;
      RestMembers(parsed[..n], seen);
      assert parsed == parsed[..n] + [parsed[n]];
      assert LinesOf(parsed) == LinesOf(parsed[..n]) + {parsed[n].line};
    }
  }

  /** In input order. */
  lemma {:induction false} RestOfParts(a: seq<Entry>, b: seq<Entry>, seen: set<string>)
    ensures Rest(a + b, seen) == Rest(a, seen) + Rest(b, seen)
  {
    if b == [] {
      assert a + b == a;
    } else {
      var n := |b| - 1;
      RestOfParts(a, b[..n], seen);
      assert (a + b)[..|a + b| - 1] == a + b[..n];
    }
  }

  lemma LastLineIsNew(parsed: seq<Entry>)
    requires parsed != [] && DistinctLines(parsed)
    ensures var n := |parsed| - 1;
            && DistinctLines(parsed[..n])
            && parsed[n].line !in LinesOf(parsed[..n])
            && LinesOf(parsed) == LinesOf(parsed[..n]) + {parsed[n].line}
  {
    var n := |parsed| - 1;
    assert parsed == parsed[..n] + [parsed[n]];
    forall i | 0 <= i < n ensures parsed[..n][i].line != parsed[n].line {
      assert parsed[i].line != parsed[n].line;
    }
  }

  /** With distinct lines, what is not seen is listed once and accounts for the others. */
  lemma {:induction false} RestCounts(parsed: seq<Entry>, seen: set<string>)
    requires DistinctLines(parsed)
    ensures NoRepeats(Rest(parsed, seen))
    ensures |Rest(parsed, seen)| + |LinesOf(parsed) * seen| == |parsed|
  {
    if parsed == [] {
      assert LinesOf(parsed) * seen == {};
    } else {
      var n := |parsed| - 1;
      var before, line := LinesOf(parsed[..n]), parsed[n].line;
      LastLineIsNew(parsed);
      RestCounts(parsed[..n], seen);
      RestMembers(parsed[..n], seen);
      hide LinesOf, DistinctLines;
      if line in seen {
        assert (before + {line}) * seen == before * seen + {line};
      } else {
        assert (before + {line}) * seen == before * seen;
      }
    }
  }

  function Times(a: int, b: int): int { a * b }

  lemma OneMoreTime(a: int, b: int)
    ensures Times(a + 1, b) == Times(a, b) + b
    ensures Times(0, b) == 0
  {
  }

  lemma {:induction false} TimesGrows(a: int, b: int, step: int)
    requires a < b && step >= 1
    ensures Times(a, step) < Times(b, step)
    decreases b - a
  {
    OneMoreTime(b - 1, step);
    hide Times;
    if a < b - 1 {
      TimesGrows(a, b - 1, step);
    }
  }

  /** Every `step`-th of `len` items, `step` the floored quotient, is enough for `need`. */
  lemma StrideIsEnough(len: nat, need: nat, taken: nat)
    requires len >= need >= 1
    ensures len / need >= 1
    ensures Times(taken, len / need) >= len ==> taken >= need
  {
    var step := len / need;
    assert len == need * step + len % need;
    assert step >= 1;
    if taken < need {
      TimesGrows(taken, need, step);
    }
  }

  lemma StrideIsOne(len: nat, need: nat)
    requires 1 <= len < need
    ensures len / need == 0
  {
  }

  // --- the program -------------------------------------------------------------------------------

  class Sample {
    var picked: seq<string>
    var seen: set<string>

    ghost predicate Valid()
      reads this
    {
      seen == Taken(picked) && NoRepeats(picked) && |picked| == |seen|
    }

    constructor ()
      ensures Valid() && picked == []
    {
      picked, seen := [], {};
    }

    method Take(line: string)
      requires Valid()
      modifies this
      ensures Valid()
      ensures picked == if line in old(seen) then old(picked) else old(picked) + [line]
      ensures seen == old(seen) + {line}
    {
      if line !in seen {
        seen := seen + {line};
        picked := picked + [line];
      }
    }

    /** Multi-deal subjects, most deals first. */
    method TakeMultiDeal(parsed: seq<Entry>)
      requires Valid() && picked == []
      modifies this
      ensures Valid() && seen == MultiDeal(parsed)
      ensures picked == FirstOccurrences(Leading(ByDeals(parsed)))
    {
      hide NoRepeats, Descending, LinesOf, MultiDeal, ByDeals, FirstOccurrences, Leading;
      var sorted := ByDeals(parsed);
      ByDealsIsSorted(parsed);
      NoLines(sorted);
      LeadingStarts(sorted);
      var i := 0;
      while i < |sorted| && sorted[i].deals >= 2
        invariant 0 <= i <= |sorted| && Valid()
        invariant forall j :: 0 <= j < i ==> sorted[j].deals >= 2
        invariant seen == LinesOf(sorted[..i]) && picked == FirstOccurrences(sorted[..i])
        invariant Leading(sorted) == sorted[..i] + Leading(sorted[i..])
      {
        Take(sorted[i].line);
        OneMoreLine(sorted, i);
        LeadingFrom(sorted, i);
        i := i + 1;
      }
      PrefixIsMultiDeal(parsed, sorted, i);
      LeadingStops(sorted, i);
      assert Leading(sorted) == sorted[..i];
    }

    method TakeMandatory(parsed: seq<Entry>)
      requires Valid() && picked == [] && parsed != []
      modifies this
      ensures Valid() && seen == Mandatory(parsed)
      ensures FirstOccurrences(Leading(ByDeals(parsed))) <= picked
    {
      var longest, largest := FirstLongest(parsed).line, FirstLargest(parsed).line;
      assert Mandatory(parsed) == MultiDeal(parsed) + {longest} + {largest};
      hide NoRepeats, MultiDeal, Mandatory, LongestSpan, LargestLine, FirstOccurrences, Leading, ByDeals, FirstLongest,
           FirstLargest, Taken;
      TakeMultiDeal(parsed);
      ghost var front := picked;
      Take(longest);
      assert front <= picked;
      Take(largest);
      assert front <= picked;
    }

    /** An even spread over `rest`, until `want` lines are picked. */
    method TakeSpread(rest: seq<string>, want: int)
      requires Valid() && (forall l :: l in rest ==> l !in seen)
      requires |picked| < want && rest != []
      modifies this
      ensures Valid() && old(seen) <= seen && seen <= old(seen) + Taken(rest)
      ensures |picked| <= want && old(picked) <= picked
      ensures NoRepeats(rest) ==>
                && |picked| == Min(want, |old(picked)| + |rest|)
                && picked == old(picked) + Strided(rest, Stride(|rest|, want - |old(picked)|), |picked| - |old(picked)|)
    {
      hide Times, NoRepeats, Unseen, Taken, Strided;
      AllUnseen(rest, seen);
      ghost var need := want - |picked|;
      var step := Stride(|rest|, want - |picked|);
      NoneStrided(rest, step);
      var i := 0;
      ghost var taken: nat := 0;
      OneMoreTime(0, step);
      while i < |rest| && |picked| < want
        invariant Valid() && 0 <= i && i == Times(taken, step)
        invariant |picked| <= want && old(picked) <= picked
        invariant NoRepeats(rest) ==> picked == old(picked) + Strided(rest, step, taken)
        invariant old(seen) <= seen && seen <= old(seen) + Taken(rest)
        invariant NoRepeats(rest) ==> |picked| == |old(picked)| + taken && Unseen(rest, i, seen)
        invariant step == 1 ==> i == taken <= |rest|
        decreases |rest| - i
      {
        UnseenNext(rest, i, step, seen);
        OneMoreStrided(rest, step, taken);
        Take(rest[i]);
        OneMoreTime(taken, step);
        i, taken := i + step, taken + 1;
      }
      if |rest| >= need {
        StrideIsEnough(|rest|, need, taken);
      } else {
        StrideIsOne(|rest|, need);
      }
    }
  }

  /** The step that spreads `need` picks over `len` items. */
  function Stride(len: nat, need: int): int { Max(1, len / Max(1, need)) }

  /** The first `count` of every `step`-th item. */
  function Strided(rest: seq<string>, step: int, count: nat): (s: seq<string>)
    ensures |s| == count
  {
    if count == 0 then []
    else
      var at := Times(count - 1, step);
      Strided(rest, step, count - 1) + [if 0 <= at < |rest| then rest[at] else ""]
  }

  /** The picks lie as far apart as they can: with a wider step there would not be enough. */
  lemma StrideIsWidest(len: nat, need: nat)
    requires 1 <= need
    ensures Stride(len, need) >= 1
    ensures if need <= len then need * Stride(len, need) <= len < need * (Stride(len, need) + 1)
            else Stride(len, need) == 1
  {
    var step := Stride(len, need);
    assert len == need * (len / need) + len % need;
    if need <= len {
      assert len / need >= 1;
      assert need * (step + 1) == need * step + need;
    }
  }

  /** The picks are those at every `step`-th place. */
  lemma {:induction false} StridedAt(rest: seq<string>, step: int, count: nat, k: nat)
    requires k < count && 0 <= k * step < |rest|
    ensures Strided(rest, step, count)[k] == rest[k * step]
  {
    if k < count - 1 {
      StridedAt(rest, step, count - 1, k);
    } else {
      assert Times(k, step) == k * step;
    }
  }

  lemma NoneStrided(rest: seq<string>, step: int)
    ensures Strided(rest, step, 0) == []
  {
  }

  lemma OneMoreStrided(rest: seq<string>, step: int, count: nat)
    requires 0 <= Times(count, step) < |rest|
    ensures Strided(rest, step, count + 1) == Strided(rest, step, count) + [rest[Times(count, step)]]
  {
  }

  /** Nothing from position `i` on was picked. */
  ghost predicate Unseen(rest: seq<string>, i: int, seen: set<string>) {
    forall j :: 0 <= j < |rest| && i <= j ==> rest[j] !in seen
  }

  lemma UnseenNext(rest: seq<string>, i: nat, step: int, seen: set<string>)
    requires i < |rest| && step >= 1
    ensures NoRepeats(rest) && Unseen(rest, i, seen) ==> rest[i] !in seen && Unseen(rest, i + step, seen + {rest[i]})
    ensures {rest[i]} <= Taken(rest)
  {
  }

  lemma AllUnseen(rest: seq<string>, seen: set<string>)
    requires forall l :: l in rest ==> l !in seen
    ensures Unseen(rest, 0, seen)
  {
  }

  lemma NoLines(s: seq<Entry>)
    ensures LinesOf(s[..0]) == {} && FirstOccurrences(s[..0]) == []
  {
  }

  lemma OneMoreLine(s: seq<Entry>, i: nat)
    requires i < |s|
    ensures LinesOf(s[..i + 1]) == LinesOf(s[..i]) + {s[i].line}
    ensures FirstOccurrences(s[..i + 1]) == var before := FirstOccurrences(s[..i]);
                                            if s[i].line in before then before else before + [s[i].line]
  {
    assert s[..i + 1] == s[..i] + [s[i]];
  }

  /** Walking past a multi-deal entry. */
  lemma LeadingFrom(sorted: seq<Entry>, i: nat)
    requires i < |sorted| && sorted[i].deals >= 2
    ensures sorted[..i] + Leading(sorted[i..]) == sorted[..i + 1] + Leading(sorted[i + 1..])
  {
    hide Leading;
    LeadingStep(sorted[i..]);
    assert sorted[i..][1..] == sorted[i + 1..];
    Shift(sorted[..i], sorted[i], Leading(sorted[i + 1..]));
    assert sorted[..i + 1] == sorted[..i] + [sorted[i]];
  }

  lemma Shift(a: seq<Entry>, e: Entry, b: seq<Entry>)
    ensures a + ([e] + b) == (a + [e]) + b
  {
  }

  lemma LeadingStarts(sorted: seq<Entry>)
    ensures Leading(sorted) == sorted[..0] + Leading(sorted[0..])
  {
    hide Leading;
    assert sorted[0..] == sorted;
  }

  lemma LeadingStops(sorted: seq<Entry>, i: nat)
    requires i <= |sorted| && (i < |sorted| ==> sorted[i].deals < 2)
    ensures Leading(sorted[i..]) == []
  {
    LeadingStep(sorted[i..]);
    hide Leading;
  }

  lemma LeadingStep(tail: seq<Entry>)
    ensures Leading(tail) == if tail == [] || tail[0].deals < 2 then [] else [tail[0]] + Leading(tail[1..])
  {
  }

  /** Where the descending order drops below two deals, all multi-deal subjects are behind. */
  lemma PrefixIsMultiDeal(parsed: seq<Entry>, sorted: seq<Entry>, i: nat)
    requires Descending(sorted) && i <= |sorted| && forall x :: x in sorted <==> x in parsed
    requires forall j :: 0 <= j < i ==> sorted[j].deals >= 2
    requires i < |sorted| ==> sorted[i].deals < 2
    ensures LinesOf(sorted[..i]) == MultiDeal(parsed)
  {
    forall e | e in parsed && e.deals >= 2 ensures e in sorted[..i] {
      var j :| 0 <= j < |sorted| && sorted[j] == e;
      assert j < i;
    }
    forall e | e in sorted[..i] ensures e in parsed && e.deals >= 2 {
      assert e in sorted;
    }
  }

  lemma MandatoryAreLines(parsed: seq<Entry>)
    requires parsed != []
    ensures Mandatory(parsed) <= LinesOf(parsed)
  {
  }

  /** The sample: with nothing to choose from it fails; else no line twice, every line from
      the input, first every multi-deal line, by deals, a longest span, a largest line; and, of distinct
      lines, exactly as many as wanted, unless more are mandatory or fewer exist. */
  method Stratified(parsed: seq<Entry>, want: int) returns (sample: Option<seq<string>>)
    ensures sample.None? <==> parsed == []
    ensures sample.Some? ==>
              && NoRepeats(sample.value)
              && FirstOccurrences(Leading(ByDeals(parsed))) <= sample.value
              && Mandatory(parsed) <= Taken(sample.value) <= LinesOf(parsed)
              && |sample.value| <= Max(|Mandatory(parsed)|, want)
              && (DistinctLines(parsed) ==> |sample.value| == Max(|Mandatory(parsed)|, Min(want, |parsed|)))
  {
    hide Mandatory, LinesOf, DistinctLines, NoRepeats, FirstOccurrences, Leading, ByDeals, Strided;
    if parsed == [] {
      return None;
    }
    var s := new Sample();
    s.TakeMandatory(parsed);
    MandatoryAreLines(parsed);
    var rest := Rest(parsed, s.seen);
    RestMembers(parsed, s.seen);
    assert Taken(rest) <= LinesOf(parsed);
    if DistinctLines(parsed) {
      RestCounts(parsed, s.seen);
      assert LinesOf(parsed) * s.seen == s.seen;
    }
    if |s.picked| < want && rest != [] {
      s.TakeSpread(rest, want);
    }
    return Some(s.picked);
  }
}
