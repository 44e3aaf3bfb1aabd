/** Lines lost to a re-run: from a raw line the enricher refuses, through the quarantine file
    it is written to, to the pieces that file is cut into when it is dropped back. */
module LostLines {
  import opened Basics
  import opened Json
  import opened Lines
  import D = Documents
  import opened QuarantineFile
  import opened EnrichFile
  import E = EnrichLine

  /** A line refused with a break in the reason is written as one record and read back as
      two pieces, both refused by any enrichment. */
  lemma RefusedLineIsLost(raw: string, m: Members, before: string, c: char, after: string,
                          enrich: Members -> Verdict, again: Members -> Verdict)
    requires Loads(raw) == Some(Obj(m)) && !IsRecord(Obj(m)) && Unbroken(raw) && !Blank(raw)
    requires enrich(m) == Refused(before + [c] + after)
    requires Plain(before) && IsWideBreak(c) && Plain(after)
    requires after != "" && 'A' <= after[0] <= 'Z' && after[0] != 'E'
    ensures var rs := Rejects(NumberedLines(Splitlines(raw)), enrich);
            && rs == [QRecord(1, before + [c] + after, raw)]
            && var cut := NumberedLines(Splitlines(FileText(Dumps(rs))));
               |cut| == 2 && Fate(cut[0].raw, again).Refused? && Fate(cut[1].raw, again).Refused?
  {
    OneLine(raw);
    UnbrokenIsPlain(raw);
    CutRecordIsLost(1, before, c, after, raw, again);
    hide Loads, IsRecord, Unbroken, Blank, Plain, Splitlines, FileText, Dumps;
    var line := Numbered(1, raw);
    assert Fate(raw, enrich) == enrich(m);
    assert [line][..0] == [];
    assert Rejects([line], enrich) == [] + [QRecord(1, before + [c] + after, raw)];
  }

  lemma OneLine(raw: string)
    requires Unbroken(raw) && !Blank(raw)
    ensures NumberedLines(Splitlines(raw)) == [Numbered(1, raw)]
  {
    NoBreak(raw);
    AllNumbered([raw]);
  }

  lemma {:induction false} NoBreak(text: string)
    requires Unbroken(text)
    ensures FirstBreak(text) == |text|
  {
    if text != "" {
      NoBreak(text[1..]);
    }
  }

  // --- such a line, for any deal reference with a line separator in it ---------------------------

  const SEPARATOR: char := 0x2028 as char

  /** The reference as JSON text, its separator escaped. */
  function Escaped(a: string, b: string): string {
    "\"" + EscapeAll(a) + ("\\u2028" + (EscapeAll(b) + "\""))
  }

  /** A raw line with a tax id and one deal. */
  function RawLine(inn: string, a: string, b: string): string {
    "{" + (Entry("inn", Quote(inn)) + (", " + (Entry("deals", "[{" + (Entry("dlref", Escaped(a, b)) + "}]")) + "}")))
  }

  function Reference(a: string, b: string): string { a + [SEPARATOR] + b }

  function LineMembers(inn: string, a: string, b: string): Members {
    Member("inn", Str(inn),
           Member("deals", Arr(Item(Obj(Member("dlref", Str(Reference(a, b)), NoMember)), NoItem)), NoMember))
  }

  lemma {:induction false} EscapedText(a: string, more: string)
    ensures ParseString(EscapeAll(a) + more)
            == var p := ParseString(more); if p.Fail? then Fail else Ok(a + p.value, p.rest)
  {
    hide ParseString, Escape;
    if a == "" {
      assert EscapeAll(a) + more == more;
      assert ParseString(more).Ok? ==> a + ParseString(more).value == ParseString(more).value;
    } else {
      EscapedText(a[1..], more);
      CharacterStep(a[0], EscapeAll(a[1..]) + more);
      assert EscapeAll(a) + more == Escape(a[0]) + (EscapeAll(a[1..]) + more);
      var p := ParseString(more);
      assert p.Ok? ==> [a[0]] + (a[1..] + p.value) == a + p.value;
    }
  }

  lemma SeparatorStep(more: string)
    ensures ParseString("\\u2028" + more)
            == var p := ParseString(more); if p.Fail? then Fail else Ok([SEPARATOR] + p.value, p.rest)
  {
    var text := "\\u2028" + more;
    assert text[1..][1..] == "2028" + more && text[1..][0] == 'u';
    assert HexFour("2028" + more) == Some(0x2028) && ("2028" + more)[4..] == more;
    assert Unescape(text[1..]) == Ok(SEPARATOR, more);
  }

  lemma ReferenceRoundTrip(a: string, b: string, tail: string)
    ensures ParseValue(Escaped(a, b) + tail) == Ok(Str(Reference(a, b)), tail)
  {
    StringRoundTrip(b, tail);
    var last := EscapeAll(b) + "\"" + tail;
    SeparatorStep(last);
    EscapedText(a, "\\u2028" + last);
    hide ParseString, EscapeAll;
    var text := Escaped(a, b) + tail;
    assert text[0] == '"' && text[1..] == EscapeAll(a) + ("\\u2028" + last);
    assert SkipSpace(text) == text;
    assert a + ([SEPARATOR] + b) == Reference(a, b);
  }

  /** An object with one member, as the last thing before `tail`. */
  lemma OneMember(key: string, value: string, x: Value, tail: string)
    requires ParseValue(value + ("}" + tail)) == Ok(x, "}" + tail)
    ensures ParseMembers(Entry(key, value) + ("}" + tail)) == Ok(Member(key, x, NoMember), tail)
  {
    hide ParseValue, ParseMembers, ParseString, Quote;
    var after := "}" + tail;
    var whole := value + after;
    var text := Entry(key, value) + after;
    EntryThen(key, value, after);
    QuoteRoundTrip(key, ": " + whole);
    assert after[0] == '}' && after[1..] == tail && !IsSpace('}');
    MemberStep(text, key, whole, x, after);
  }

  lemma DealsLoad(a: string, b: string, tail: string)
    ensures ParseValue("[{" + (Entry("dlref", Escaped(a, b)) + "}]") + tail)
            == Ok(Arr(Item(Obj(Member("dlref", Str(Reference(a, b)), NoMember)), NoItem)), tail)
  {
    var deal := Member("dlref", Str(Reference(a, b)), NoMember);
    var close := "]" + tail;
    ReferenceRoundTrip(a, b, "}" + close);
    OneMember("dlref", Escaped(a, b), Str(Reference(a, b)), close);
    hide ParseValue, ParseMembers, ParseItems, Escaped, Quote, Reference;
    var inside := Entry("dlref", Escaped(a, b)) + ("}" + close);
    assert inside[0] == '"' by { QuoteOpens("dlref"); assert inside[0] == Quote("dlref")[0]; }
    ObjectStep(inside, deal, close);
    assert close[0] == ']' && close[1..] == tail && !IsSpace(']') && !IsSpace('{');
    ItemStep("{" + inside, Obj(deal), close);
    ArrayStep("{" + inside, Item(Obj(deal), NoItem), tail);
    hide *;
    Brackets(Entry("dlref", Escaped(a, b)), tail);
  }

  lemma Brackets(e: string, tail: string)
    ensures "[" + ("{" + (e + ("}" + ("]" + tail)))) == "[{" + (e + "}]") + tail
  {
  }

  /** A member with text for its value, and what follows it. */
  lemma TextMember(key: string, t: string, rest: string, members: Members, tail: string)
    requires ParseMembers(rest) == Ok(members, tail)
    ensures ParseMembers(Entry(key, Quote(t)) + (", " + rest)) == Ok(Member(key, Str(t), members), tail)
  {
    var after := ", " + rest;
    StringStep(t, after);
    SpaceIsSkipped(rest);
    EntryThen(key, Quote(t), after);
    QuoteRoundTrip(key, ": " + (Quote(t) + after));
    assert after[0] == ',' && after[1..] == " " + rest && !IsSpace(',');
    hide *;
    MemberStep(Entry(key, Quote(t)) + after, key, Quote(t) + after, Str(t), after);
  }

  lemma RawLineLoads(inn: string, a: string, b: string)
    ensures Loads(RawLine(inn, a, b)) == Some(Obj(LineMembers(inn, a, b)))
  {
    var deals := "[{" + (Entry("dlref", Escaped(a, b)) + "}]");
    var list := Arr(Item(Obj(Member("dlref", Str(Reference(a, b)), NoMember)), NoItem));
    DealsLoad(a, b, "}");
    assert "}" + "" == "}";
    OneMember("deals", deals, list, "");
    var rest := Entry("deals", deals) + "}";
    TextMember("inn", inn, rest, Member("deals", list, NoMember), "");
    var text := Entry("inn", Quote(inn)) + (", " + rest);
    assert RawLine(inn, a, b) == "{" + text;
    QuoteOpens("inn");
    assert text[0] == Quote("inn")[0];
    assert SkipSpace("") == "";
    hide ParseValue, ParseMembers, RawLine, Entry, Quote, Escaped, SkipSpace;
    ObjectStep(text, LineMembers(inn, a, b), "");
  }

  /** The raw line is one visible line. */
  lemma RawLineIsOneLine(inn: string, a: string, b: string)
    requires Plain(inn) && Plain(a) && Plain(b)
    ensures Unbroken(RawLine(inn, a, b)) && !Blank(RawLine(inn, a, b))
  {
    KeysArePlain();
    QuoteBreaks(inn);
    EscapeAllBreaks(a);
    EscapeAllBreaks(b);
    hide Unbroken, Plain, Quote, EscapeAll, Entry;
    UnbrokenParts("\"", EscapeAll(a));
    UnbrokenParts(EscapeAll(b), "\"");
    UnbrokenParts("\\u2028", EscapeAll(b) + "\"");
    UnbrokenParts("\"" + EscapeAll(a), "\\u2028" + (EscapeAll(b) + "\""));
    assert Unbroken(Escaped(a, b));
    hide Escaped;
    EntryBreaks("dlref", Escaped(a, b));
    var deal := Entry("dlref", Escaped(a, b));
    UnbrokenParts(deal, "}]");
    UnbrokenParts("[{", deal + "}]");
    var deals := Entry("deals", "[{" + (deal + "}]"));
    EntryBreaks("deals", "[{" + (deal + "}]"));
    EntryBreaks("inn", Quote(inn));
    UnbrokenParts(deals, "}");
    UnbrokenParts(", ", deals + "}");
    UnbrokenParts(Entry("inn", Quote(inn)), ", " + (deals + "}"));
    UnbrokenParts("{", Entry("inn", Quote(inn)) + (", " + (deals + "}")));
    assert RawLine(inn, a, b)[0] == '{';
  }

  lemma KeysArePlain()
    ensures Unbroken("\"") && Unbroken("\\u2028") && Unbroken("}]") && Unbroken("[{") && Unbroken("{") && Unbroken("}")
    ensures Unbroken(", ") && Plain("inn") && Plain("deals") && Plain("dlref")
  {
  }

  lemma LineIsNoRecord(inn: string, a: string, b: string)
    ensures !IsRecord(Obj(LineMembers(inn, a, b)))
    ensures Lookup(LineMembers(inn, a, b), "inn") == Some(Str(inn))
    ensures Lookup(LineMembers(inn, a, b), "deals")
            == Some(Arr(Item(Obj(Member("dlref", Str(Reference(a, b)), NoMember)), NoItem)))
    ensures Lookup(Member("dlref", Str(Reference(a, b)), NoMember), "dlref") == Some(Str(Reference(a, b)))
  {
    assert |"inn"| == 3 && |"deals"| == 5 && |"line_no"| == 7 && |"reason"| == 6 && |"line"| == 4;
    var list := Arr(Item(Obj(Member("dlref", Str(Reference(a, b)), NoMember)), NoItem));
    var rest := Member("deals", list, NoMember);
    LookupStep("deals", list, NoMember, "inn");
    LookupStep("deals", list, NoMember, "deals");
    LookupStep("inn", Str(inn), rest, "inn");
    LookupStep("inn", Str(inn), rest, "deals");
    LookupStep("dlref", Str(Reference(a, b)), NoMember, "dlref");
    assert "inn" in Keys(LineMembers(inn, a, b));
    hide Lookup, Keys;
  }

  /** A reference that neither starts nor ends with white space. */
  lemma StrippedReference(a: string, b: string)
    requires a != "" && !IsWhiteSpace(a[0]) && b != "" && !IsWhiteSpace(b[|b| - 1])
    ensures D.Strip(Reference(a, b)) == Reference(a, b)
  {
    var r := Reference(a, b);
    assert r[0] == a[0] && r[|r| - 1] == b[|b| - 1];
  }

  predicate IsWhiteSpace(c: char) { D.IsSpace(c) }

  lemma LineIsUnknown(inn: string, a: string, b: string, x: Context)
    requires x.Valid() && D.Strip(inn) != "" && Reference(a, b) !in x.rows
    requires a != "" && !IsWhiteSpace(a[0]) && b != "" && !IsWhiteSpace(b[|b| - 1])
    ensures EnrichMembers(x, LineMembers(inn, a, b))
            == Refused("dlref " + a + [SEPARATOR] + (b + " not found in cabinet DB"))
  {
    SubjectOfLine(inn, a, b, x);
    StrippedReference(a, b);
    hide D.Strip, SubjectOf, LineMembers;
    var deals := [Reference(a, b)];
    assert E.FirstBadDeal(deals, x.rows) == Some(E.UnknownReference(Reference(a, b)));
    hide E.FirstBadDeal;
    Message(a, b);
  }

  lemma SubjectOfLine(inn: string, a: string, b: string, x: Context)
    ensures SubjectOf(x, LineMembers(inn, a, b)).inn == inn
    ensures SubjectOf(x, LineMembers(inn, a, b)).deals == [Reference(a, b)]
  {
    LineIsNoRecord(inn, a, b);
    hide Lookup, LineMembers, Reference;
    var deal := Member("dlref", Str(Reference(a, b)), NoMember);
    assert References(x, NoItem) == [] && Text(x, Lookup(deal, "dlref")) == Reference(a, b);
    assert References(x, Item(Obj(deal), NoItem)) == [Reference(a, b)];
  }

  lemma Message(a: string, b: string)
    ensures "dlref " + Reference(a, b) + " not found in cabinet DB"
            == "dlref " + a + [SEPARATOR] + (b + " not found in cabinet DB")
  {
  }

  /** It happens to every line with a tax id whose one deal refers, with a line separator
      before a capital letter, to an application the cabinet does not know: the line is
      quarantined, and dropping the quarantine file back loses it, whatever the cabinet
      holds by then. */
  lemma LineIsLost(inn: string, a: string, b: string, x: Context, later: Context)
    requires x.Valid() && later.Valid() && D.Strip(inn) != "" && Reference(a, b) !in x.rows
    requires Plain(inn) && Plain(a) && Plain(b) && a != "" && !IsWhiteSpace(a[0])
    requires b != "" && !IsWhiteSpace(b[|b| - 1]) && 'A' <= b[0] <= 'Z' && b[0] != 'E'
    ensures var raw := RawLine(inn, a, b);
            var rs := Rejects(NumberedLines(Splitlines(raw)), Enricher(x));
            && |rs| == 1 && rs[0].line == raw
            && var cut := NumberedLines(Splitlines(FileText(Dumps(rs))));
               |cut| == 2 && Fate(cut[0].raw, Enricher(later)).Refused? && Fate(cut[1].raw, Enricher(later)).Refused?
  {
    RawLineLoads(inn, a, b);
    RawLineIsOneLine(inn, a, b);
    LineIsNoRecord(inn, a, b);
    LineIsUnknown(inn, a, b, x);
    WordsArePlain(a, b);
    hide Loads, RawLine, IsRecord, Unbroken, Blank, EnrichMembers, LineMembers, Plain, D.Strip, Reference;
    RefusedLineIsLost(RawLine(inn, a, b), LineMembers(inn, a, b), "dlref " + a, SEPARATOR,
                      b + " not found in cabinet DB", Enricher(x), Enricher(later));
  }

  lemma WordsArePlain(a: string, b: string)
    requires Plain(a) && Plain(b)
    ensures Plain("dlref " + a) && Plain(b + " not found in cabinet DB") && IsWideBreak(SEPARATOR)
  {
    assert Plain("dlref ") && Plain(" not found in cabinet DB");
  }
}
