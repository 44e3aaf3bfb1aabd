/** The quarantine file as text: one dumped record a line, read back by `splitlines`, which
    also cuts at characters that JSON leaves as they are. */
module QuarantineFile {
  import opened Basics
  import opened Json
  import opened Lines

  // --- cutting text into lines -----------------------------------------------------------

  /** What `str.splitlines` cuts at. */
  predicate IsBreak(c: char) {
    10 <= c as int <= 13 || 28 <= c as int <= 30 || IsWideBreak(c)
  }

  /** The breaks beyond ASCII: next line, line separator, paragraph separator. */
  predicate IsWideBreak(c: char) { c as int in {0x85, 0x2028, 0x2029} }

  predicate Unbroken(s: string) { forall i :: 0 <= i < |s| ==> !IsBreak(s[i]) }

  predicate Plain(s: string) { forall i :: 0 <= i < |s| ==> !IsWideBreak(s[i]) }

  function FirstBreak(text: string): (n: nat)
    ensures n <= |text| && (n < |text| ==> IsBreak(text[n]))
    ensures Unbroken(text[..n])
  {
    if text == "" || IsBreak(text[0]) then 0
    else
      var n := FirstBreak(text[1..]);
      assert text[..n + 1] == [text[0]] + text[1..][..n];
      n + 1
  }

  /** Carriage return and line feed are one break. */
  function BreakLength(text: string, n: nat): nat
    requires n < |text|
  {
    if text[n] == '\r' && n + 1 < |text| && text[n + 1] == '\n' then 2 else 1
  }

  /** `text.splitlines()`: nothing after a last break. */
  function Splitlines(text: string): seq<string> {
    if text == "" then []
    else
      var n := FirstBreak(text);
      if n == |text| then [text] else [text[..n]] + Splitlines(text[n + BreakLength(text, n)..])
  }

  lemma {:induction false} PiecesAreUnbroken(text: string)
    ensures forall i :: 0 <= i < |Splitlines(text)| ==> Unbroken(Splitlines(text)[i])
    decreases |text|
  {
    hide Unbroken;
    if text != "" {
      var n := FirstBreak(text);
      assert Unbroken(text[..n]);
      if n < |text| {
        PiecesAreUnbroken(text[n + BreakLength(text, n)..]);
      } else {
        assert text[..n] == text;
      }
    }
  }

  /** `"\n".join(lines) + "\n"`, or no file at all. */
  function FileText(lines: seq<string>): string {
    if lines == [] then "" else lines[0] + "\n" + FileText(lines[1..])
  }

  lemma {:induction false} BreakAfter(line: string, rest: string)
    requires Unbroken(line)
    ensures FirstBreak(line + "\n" + rest) == |line|
  {
    var text := line + "\n" + rest;
    if line != "" {
      assert text[1..] == line[1..] + "\n" + rest;
      BreakAfter(line[1..], rest);
    }
  }

  lemma FirstLineCut(line: string, rest: string)
    requires Unbroken(line)
    ensures Splitlines(line + "\n" + rest) == [line] + Splitlines(rest)
  {
    BreakAfter(line, rest);
    var text := line + "\n" + rest;
    assert text[..|line|] == line && text[|line|] == '\n' && text[|line| + 1..] == rest;
    hide Unbroken, FirstBreak;
  }

  /** Cutting a written file gives its lines back exactly when none holds a break. */
  lemma {:induction false} FileRoundTripIff(lines: seq<string>)
    ensures Splitlines(FileText(lines)) == lines <==> forall i :: 0 <= i < |lines| ==> Unbroken(lines[i])
  {
    hide Unbroken;
    PiecesAreUnbroken(FileText(lines));
    if forall i :: 0 <= i < |lines| ==> Unbroken(lines[i]) {
      UnbrokenLinesComeBack(lines);
    }
  }

  lemma {:induction false} UnbrokenLinesComeBack(lines: seq<string>)
    requires forall i :: 0 <= i < |lines| ==> Unbroken(lines[i])
    ensures Splitlines(FileText(lines)) == lines
  {
    hide Unbroken, Splitlines;
    if lines == [] {
      NothingCut();
    } else {
      UnbrokenLinesComeBack(lines[1..]);
      FirstLineCut(lines[0], FileText(lines[1..]));
    }
  }

  lemma NothingCut()
    ensures Splitlines("") == []
  {
  }

  /** Text is cut at exactly these characters, a carriage return and line feed being one. */
  lemma CutAtIff(c: char)
    ensures Splitlines("a" + [c] + "b") == ["a", "b"] <==>
            c in "\n\r" || c as int in {0x0B, 0x0C, 0x1C, 0x1D, 0x1E, 0x85, 0x2028, 0x2029}
    ensures Splitlines("a" + ['\r'] + "\nb") == ["a", "b"] && Splitlines("a" + ['\n'] + "\rb") == ["a", "", "b"]
    ensures Splitlines("a" + ['\r'] + "\n") == ["a"]
  {
    CutInTheMiddle(c);
    LineFeedFollows();
    LineFeedLast();
    CarriageReturnFollows();
    hide Splitlines;
  }

  lemma LetterIsALine()
    ensures Splitlines("b") == ["b"] && FirstBreak("b") == 1
  {
    assert "b"[1..] == "" && FirstBreak("") == 0;
  }

  lemma BreakBehind(c: char, rest: string)
    requires IsBreak(c)
    ensures var text := "a" + [c] + rest;
            FirstBreak(text) == 1 && Splitlines(text) == ["a"] + Splitlines(text[1 + BreakLength(text, 1)..])
  {
    var text := "a" + [c] + rest;
    assert text[1..] == [c] + rest && text[..1] == "a";
    assert FirstBreak([c] + rest) == 0;
    assert FirstBreak(text) == 1;
    hide FirstBreak;
  }

  lemma CutInTheMiddle(c: char)
    ensures Splitlines("a" + [c] + "b") == ["a", "b"] <==> IsBreak(c)
  {
    var text := "a" + [c] + "b";
    LetterIsALine();
    if IsBreak(c) {
      BreakBehind(c, "b");
      hide Splitlines;
      assert text[2..] == "b";
    } else {
      hide Splitlines;
      assert text[1..] == [c] + "b" && ([c] + "b")[1..] == "b";
      assert FirstBreak([c] + "b") == 2;
      assert FirstBreak(text) == 3;
      WholeLine(text);
    }
  }

  lemma WholeLine(text: string)
    requires text != "" && FirstBreak(text) == |text|
    ensures Splitlines(text) == [text]
  {
    hide FirstBreak;
  }

  lemma LineFeedFollows()
    ensures Splitlines("a" + ['\r'] + "\nb") == ["a", "b"]
  {
    var text := "a" + ['\r'] + "\nb";
    LetterIsALine();
    BreakBehind('\r', "\nb");
    hide Splitlines, FirstBreak;
    assert BreakLength(text, 1) == 2 && text[3..] == "b";
  }

  lemma LineFeedLast()
    ensures Splitlines("a" + ['\r'] + "\n") == ["a"]
  {
    var text := "a" + ['\r'] + "\n";
    BreakBehind('\r', "\n");
    NothingCut();
    hide Splitlines, FirstBreak;
    assert BreakLength(text, 1) == 2 && text[3..] == "";
  }

  lemma CarriageReturnFollows()
    ensures Splitlines("a" + ['\n'] + "\rb") == ["a", "", "b"]
  {
    var text := "a" + ['\n'] + "\rb";
    LetterIsALine();
    BreakBehind('\n', "\rb");
    EmptyFirst();
    hide Splitlines, FirstBreak;
    assert BreakLength(text, 1) == 1 && text[2..] == "\rb";
  }

  lemma EmptyFirst()
    ensures Splitlines("\rb") == ["", "b"]
  {
    LetterIsALine();
    assert FirstBreak("\rb") == 0;
    hide FirstBreak;
    assert "\rb"[..0] == "" && "\rb"[1..] == "b";
  }

  // --- breaks in a dumped record ---------------------------------------------------------

  lemma UnbrokenParts(a: string, b: string)
    ensures Unbroken(a + b) <==> Unbroken(a) && Unbroken(b)
  {
    if Unbroken(a + b) {
      forall i | 0 <= i < |a| ensures !IsBreak(a[i]) {
        assert (a + b)[i] == a[i];
      }
      forall i | 0 <= i < |b| ensures !IsBreak(b[i]) {
        assert (a + b)[|a| + i] == b[i];
      }
    }
  }

  /** Escaping takes care of the ASCII breaks and of no other. */
  lemma EscapeBreaks(c: char)
    ensures Unbroken(Escape(c)) <==> !IsWideBreak(c)
  {
    if IsWideBreak(c) {
      assert Escape(c) == [c] && IsBreak(Escape(c)[0]);
    }
  }

  lemma {:induction false} EscapeAllBreaks(s: string)
    ensures Unbroken(EscapeAll(s)) <==> Plain(s)
  {
    hide Escape, Unbroken, IsWideBreak;
    if s == "" {
      NothingUnbroken();
    } else {
      EscapeAllBreaks(s[1..]);
      EscapeBreaks(s[0]);
      UnbrokenParts(Escape(s[0]), EscapeAll(s[1..]));
      assert s == [s[0]] + s[1..];
    }
  }

  lemma NothingUnbroken()
    ensures Unbroken("") && Unbroken("\"") && Unbroken(": ") && Unbroken(", ") && Unbroken("{") && Unbroken("}")
    ensures Plain("line_no") && Plain("reason") && Plain("line")
  {
  }

  lemma QuoteBreaks(s: string)
    ensures Unbroken(Quote(s)) <==> Plain(s)
  {
    EscapeAllBreaks(s);
    NothingUnbroken();
    hide Unbroken, Plain, EscapeAll;
    UnbrokenParts("\"" + EscapeAll(s), "\"");
    UnbrokenParts("\"", EscapeAll(s));
  }

  lemma NumberUnbroken(n: nat)
    ensures Unbroken(Decimal(n))
  {
    DecimalDigits(n);
  }

  function Entry(key: string, value: string): string { Quote(key) + (": " + value) }

  lemma EntryBreaks(key: string, value: string)
    requires Plain(key)
    ensures Unbroken(Entry(key, value)) <==> Unbroken(value)
  {
    QuoteBreaks(key);
    NothingUnbroken();
    hide Unbroken, Plain, Quote;
    UnbrokenParts(Quote(key), ": " + value);
    UnbrokenParts(": ", value);
  }

  /** A dumped record, spelled out. */
  lemma DumpText(r: QRecord)
    ensures Dump(r) == "{" + Entry("line_no", Decimal(r.lineNo)) + (", " + Entry("reason", Quote(r.reason))
                       + (", " + Entry("line", Quote(r.line)) + "}"))
  {
    hide Quote, Decimal;
    var last := Member("line", Str(r.line), NoMember);
    var mid := Member("reason", Str(r.reason), last);
    assert PrintMembers(NoMember) == "}";
    assert PrintMembers(last) == ", " + Entry("line", Quote(r.line)) + "}";
    assert PrintMembers(mid) == ", " + Entry("reason", Quote(r.reason)) + PrintMembers(last);
    assert Print(RecordValue(r)) == "{" + Entry("line_no", Decimal(r.lineNo)) + PrintMembers(mid);
  }

  /** A dumped record is one line exactly when neither its reason nor its line holds a
      break beyond ASCII. */
  lemma DumpBreaks(r: QRecord)
    ensures Unbroken(Dump(r)) <==> Plain(r.reason) && Plain(r.line)
  {
    DumpText(r);
    NothingUnbroken();
    NumberUnbroken(r.lineNo);
    EntryBreaks("line_no", Decimal(r.lineNo));
    EntryBreaks("reason", Quote(r.reason));
    EntryBreaks("line", Quote(r.line));
    QuoteBreaks(r.reason);
    QuoteBreaks(r.line);
    hide *;
    var a, b, c := Entry("line_no", Decimal(r.lineNo)), Entry("reason", Quote(r.reason)), Entry("line", Quote(r.line));
    UnbrokenParts("{" + a, ", " + b + (", " + c + "}"));
    UnbrokenParts("{", a);
    UnbrokenParts(", " + b, ", " + c + "}");
    UnbrokenParts(", ", b);
    UnbrokenParts(", " + c, "}");
    UnbrokenParts(", ", c);
  }

  // --- the whole file ------------------------------------------------------------------------

  function Dumps(rs: seq<QRecord>): (s: seq<string>)
    ensures |s| == |rs| && forall i :: 0 <= i < |s| ==> s[i] == Dump(rs[i])
  {
    seq(|rs|, i requires 0 <= i < |rs| => Dump(rs[i]))
  }

  /** The quarantine file is cut back into exactly the records written to it if and only if
      no reason and no line holds a break beyond ASCII. */
  lemma QuarantineFileIff(rs: seq<QRecord>)
    ensures Splitlines(FileText(Dumps(rs))) == Dumps(rs)
            <==> forall i :: 0 <= i < |rs| ==> Plain(rs[i].reason) && Plain(rs[i].line)
  {
    hide Dump, Unbroken, Plain, Splitlines, FileText;
    FileRoundTripIff(Dumps(rs));
    forall i | 0 <= i < |rs| ensures Unbroken(Dumps(rs)[i]) <==> Plain(rs[i].reason) && Plain(rs[i].line) {
      DumpBreaks(rs[i]);
    }
  }

  lemma {:induction false} RejectsKeepRaw(lines: seq<Numbered>, enrich: Members -> Verdict, i: nat)
    requires i < |Rejects(lines, enrich)|
    ensures exists x :: x in lines && x.raw == Rejects(lines, enrich)[i].line
  {
    hide Fate;
    var n := |lines| - 1;
    if i < |Rejects(lines[..n], enrich)| {
      RejectsKeepRaw(lines[..n], enrich, i);
      var x :| x in lines[..n] && x.raw == Rejects(lines, enrich)[i].line;
      assert x in lines;
    } else {
      assert lines[n] in lines;
    }
  }

  /** Lines that were themselves cut from a file hold no break, so for what one run of the
      enricher quarantines the reasons alone decide. */
  lemma WrittenQuarantineIff(text: string, enrich: Members -> Verdict)
    ensures var rs := Rejects(NumberedLines(Splitlines(text)), enrich);
            Splitlines(FileText(Dumps(rs))) == Dumps(rs) <==> forall i :: 0 <= i < |rs| ==> Plain(rs[i].reason)
  {
    hide Plain, Splitlines, FileText, Dump, Rejects;
    var pieces := Splitlines(text);
    var rs := Rejects(NumberedLines(pieces), enrich);
    QuarantineFileIff(rs);
    PiecesAreUnbroken(text);
    forall i | 0 <= i < |rs| ensures Plain(rs[i].line) {
      RejectsKeepRaw(NumberedLines(pieces), enrich, i);
      var x :| x in NumberedLines(pieces) && x.raw == rs[i].line;
      RawIsPiece(pieces, x);
      UnbrokenIsPlain(x.raw);
    }
  }

  lemma RawIsPiece(pieces: seq<string>, x: Numbered)
    requires x in NumberedLines(pieces)
    ensures 1 <= x.lineNo <= |pieces| && x.raw == pieces[x.lineNo - 1]
  {
    NumbersAreTrue(pieces);
    hide Blank, NumberedLines;
  }

  lemma UnbrokenIsPlain(s: string)
    requires Unbroken(s)
    ensures Plain(s)
  {
  }

  /** A file that is cut back right is also read back right: every record under its place in
      the file, and each parses to what its original line parses to. */
  lemma QuarantineFileReadBack(rs: seq<QRecord>)
    requires forall i :: 0 <= i < |rs| ==> Plain(rs[i].reason) && Plain(rs[i].line)
    ensures var numbered := NumberedLines(Splitlines(FileText(Dumps(rs))));
            && |numbered| == |rs|
            && forall i :: 0 <= i < |rs| ==>
                 numbered[i] == Numbered(i + 1, Dump(rs[i])) && ParseLine(numbered[i].raw) == Loads(rs[i].line)
  {
    hide Plain, Splitlines, FileText, Dump, Blank, ParseLine, Loads;
    QuarantineFileIff(rs);
    forall i | 0 <= i < |rs| ensures !Blank(Dump(rs[i])) && ParseLine(Dump(rs[i])) == Loads(rs[i].line) {
      DumpIsNotBlank(rs[i]);
      QuarantineRoundTrip(rs[i]);
    }
    AllNumbered(Dumps(rs));
  }

  lemma DumpIsNotBlank(r: QRecord)
    ensures !Blank(Dump(r))
  {
    DumpText(r);
    hide Entry, Quote, Decimal;
    assert Dump(r)[0] == '{';
  }

  lemma {:induction false} AllNumbered(lines: seq<string>)
    requires forall i :: 0 <= i < |lines| ==> !Blank(lines[i])
    ensures |NumberedLines(lines)| == |lines|
    ensures forall i :: 0 <= i < |lines| ==> NumberedLines(lines)[i] == Numbered(i + 1, lines[i])
  {
    hide Blank;
    if lines != [] {
      AllNumbered(lines[..|lines| - 1]);
    }
  }

  // --- a record cut in two -------------------------------------------------------------------

  /** A string literal that never closes is refused. */
  lemma {:induction false} UnclosedString(s: string)
    ensures ParseString(EscapeAll(s)) == Fail
  {
    if s != "" {
      CharacterStep(s[0], EscapeAll(s[1..]));
      UnclosedString(s[1..]);
      hide ParseString, Escape;
    }
  }

  lemma UnclosedValue(s: string)
    ensures ParseValue("\"" + EscapeAll(s)) == Fail
  {
    UnclosedString(s);
    hide ParseString, EscapeAll;
    var text := "\"" + EscapeAll(s);
    assert text[1..] == EscapeAll(s) && SkipSpace(text) == text;
  }

  /** A member whose value does not parse. */
  lemma MemberFails(key: string, value: string)
    requires ParseValue(value) == Fail
    ensures ParseMembers(Entry(key, value)) == Fail
  {
    QuoteRoundTrip(key, ": " + value);
    SpaceIsSkipped(value);
    hide ParseValue, ParseString, Quote;
    var text := Entry(key, value);
    assert SkipSpace(text) == text && SkipSpace(": " + value) == ": " + value;
    assert (": " + value)[1..] == " " + value;
  }

  /** What the first piece of a record cut in its reason looks like. */
  function FirstPiece(lineNo: nat, before: string): string {
    "{" + (Entry("line_no", Decimal(lineNo)) + (", " + Entry("reason", "\"" + EscapeAll(before))))
  }

  lemma FirstPieceIsRefused(lineNo: nat, before: string)
    ensures Loads(FirstPiece(lineNo, before)).None?
  {
    UnclosedValue(before);
    var value := "\"" + EscapeAll(before);
    MemberFails("reason", value);
    SecondMemberFails("line_no", lineNo, Entry("reason", value));
    var text := Entry("line_no", Decimal(lineNo)) + (", " + Entry("reason", value));
    assert text[0] == '"';
    hide Entry, Decimal, EscapeAll, ParseMembers, ParseValue;
    BraceFails(text);
  }

  lemma SecondMemberFails(key: string, n: nat, second: string)
    requires ParseMembers(second) == Fail
    ensures ParseMembers(Entry(key, Decimal(n)) + (", " + second)) == Fail
  {
    SpaceIsSkipped(second);
    DecimalIsANumber(n);
    var after := ", " + second;
    NumberRoundTrip(Decimal(n), after);
    var value, text := Decimal(n) + after, Entry(key, Decimal(n)) + after;
    EntryThen(key, Decimal(n), after);
    QuoteRoundTrip(key, ": " + value);
    assert after[0] == ',' && after[1..] == " " + second;
    hide *;
    NotSpace();
    MemberStep(text, key, value, Num(Decimal(n)), after);
  }

  lemma NotSpace()
    ensures !IsSpace(',')
  {
  }

  lemma EntryThen(key: string, value: string, after: string)
    ensures Entry(key, value) + after == Quote(key) + (": " + (value + after))
  {
    hide Quote;
  }

  lemma BraceFails(text: string)
    requires text != "" && text[0] == '"' && ParseMembers(text) == Fail
    ensures ParseValue("{" + text) == Fail
  {
    hide ParseMembers;
    assert ("{" + text)[1..] == text;
    assert SkipSpace("{" + text) == "{" + text && SkipSpace(text) == text;
  }

  /** The rest of the record after the cut. */
  function SecondPiece(after: string, line: string): string {
    EscapeAll(after) + "\"" + (", " + Entry("line", Quote(line)) + "}")
  }

  /** Text that starts with a capital letter is not JSON. */
  lemma CapitalIsRefused(text: string)
    requires text != "" && 'A' <= text[0] <= 'Z' && text[0] != 'E'
    ensures ParseValue(text) == Fail
  {
    assert SkipSpace(text) == text;
    assert NumberRun(text) == 0;
  }

  lemma {:induction false} EscapeAllParts(a: string, b: string)
    ensures EscapeAll(a + b) == EscapeAll(a) + EscapeAll(b)
  {
    hide Escape;
    if a == "" {
      assert a + b == b;
    } else {
      EscapeAllParts(a[1..], b);
      assert (a + b)[1..] == a[1..] + b && (a + b)[0] == a[0];
    }
  }

  /** A break in the reason cuts the record in two. */
  lemma CutInTheReason(lineNo: nat, before: string, c: char, after: string, line: string)
    requires Plain(before) && IsWideBreak(c) && Plain(after) && Plain(line)
    ensures Splitlines(FileText(Dumps([QRecord(lineNo, before + [c] + after, line)])))
            == [FirstPiece(lineNo, before), SecondPiece(after, line)]
  {
    var r := QRecord(lineNo, before + [c] + after, line);
    var first, second := FirstPiece(lineNo, before), SecondPiece(after, line);
    CutDump(lineNo, before, c, after, line);
    PiecesUnbroken(lineNo, before, after, line);
    hide Dump, FirstPiece, SecondPiece, Unbroken, Plain, FileText, Splitlines, IsWideBreak;
    assert Dumps([r]) == [Dump(r)];
    OneLineText(Dump(r));
    CutInTwo(first, c, second);
  }

  lemma CutInTwo(first: string, c: char, second: string)
    requires Unbroken(first) && Unbroken(second) && IsWideBreak(c)
    ensures Splitlines(first + [c] + second + "\n") == [first, second]
  {
    hide Unbroken, Splitlines, FileText, IsWideBreak;
    CutAt(first, c, second + "\n");
    OneLineText(second);
    UnbrokenLinesComeBack([second]);
    assert first + [c] + second + "\n" == first + [c] + (second + "\n");
  }

  lemma OneLineText(line: string)
    ensures FileText([line]) == line + "\n"
  {
    assert [line][1..] == [] && FileText([]) == "";
  }

  lemma CutAt(line: string, c: char, rest: string)
    requires Unbroken(line) && IsWideBreak(c)
    ensures Splitlines(line + [c] + rest) == [line] + Splitlines(rest)
  {
    BreakAt(line, c, rest);
    var text := line + [c] + rest;
    assert text[..|line|] == line && text[|line|] == c && text[|line| + 1..] == rest;
    hide Unbroken, FirstBreak;
  }

  lemma {:induction false} BreakAt(line: string, c: char, rest: string)
    requires Unbroken(line) && IsWideBreak(c)
    ensures FirstBreak(line + [c] + rest) == |line|
  {
    var text := line + [c] + rest;
    if line != "" {
      assert text[1..] == line[1..] + [c] + rest;
      BreakAt(line[1..], c, rest);
    }
  }

  lemma CutDump(lineNo: nat, before: string, c: char, after: string, line: string)
    requires IsWideBreak(c)
    ensures Dump(QRecord(lineNo, before + [c] + after, line))
            == FirstPiece(lineNo, before) + [c] + SecondPiece(after, line)
  {
    DumpText(QRecord(lineNo, before + [c] + after, line));
    CutQuote(before, c, after);
    var open, close := "\"" + EscapeAll(before), EscapeAll(after) + "\"";
    CutEntry("reason", open, [c] + close);
    hide Dump, EscapeAll, Decimal, Quote, Entry;
    Regroup(Entry("line_no", Decimal(lineNo)), Entry("reason", open), c, close,
            ", " + Entry("line", Quote(line)) + "}");
  }

  lemma CutQuote(before: string, c: char, after: string)
    requires IsWideBreak(c)
    ensures Quote(before + [c] + after) == "\"" + EscapeAll(before) + ([c] + (EscapeAll(after) + "\""))
  {
    hide EscapeAll, Escape;
    EscapeAllParts(before + [c], after);
    EscapeAllParts(before, [c]);
    WideIsRaw(c);
    Requote(EscapeAll(before), c, EscapeAll(after));
  }

  lemma WideIsRaw(c: char)
    requires IsWideBreak(c)
    ensures EscapeAll([c]) == [c]
  {
    assert Escape(c) == [c];
    assert [c][1..] == "" && EscapeAll("") == "";
    hide Escape;
  }

  lemma Requote(a: string, c: char, b: string)
    ensures "\"" + (a + [c] + b) + "\"" == "\"" + a + ([c] + (b + "\""))
  {
  }

  lemma CutEntry(key: string, a: string, b: string)
    ensures Entry(key, a + b) == Entry(key, a) + b
  {
    hide Quote;
  }

  lemma Regroup(a: string, p: string, c: char, q: string, t: string)
    ensures "{" + a + (", " + (p + ([c] + q)) + t) == "{" + (a + (", " + p)) + [c] + (q + t)
  {
  }

  lemma PiecesUnbroken(lineNo: nat, before: string, after: string, line: string)
    requires Plain(before) && Plain(after) && Plain(line)
    ensures Unbroken(FirstPiece(lineNo, before)) && Unbroken(SecondPiece(after, line))
  {
    NothingUnbroken();
    NumberUnbroken(lineNo);
    EscapeAllBreaks(before);
    EscapeAllBreaks(after);
    QuoteBreaks(line);
    EntryBreaks("line_no", Decimal(lineNo));
    EntryBreaks("reason", "\"" + EscapeAll(before));
    EntryBreaks("line", Quote(line));
    hide Unbroken, Plain, Entry, EscapeAll, Quote, Decimal;
    UnbrokenParts("\"", EscapeAll(before));
    var a, b := Entry("line_no", Decimal(lineNo)), Entry("reason", "\"" + EscapeAll(before));
    UnbrokenParts("{", a + (", " + b));
    UnbrokenParts(a, ", " + b);
    UnbrokenParts(", ", b);
    var e := Entry("line", Quote(line));
    UnbrokenParts(EscapeAll(after) + "\"", ", " + e + "}");
    UnbrokenParts(EscapeAll(after), "\"");
    UnbrokenParts(", " + e, "}");
    UnbrokenParts(", ", e);
  }

  lemma SecondPieceIsRefused(after: string, line: string)
    requires after != "" && 'A' <= after[0] <= 'Z' && after[0] != 'E'
    ensures SecondPiece(after, line) != "" && !Blank(SecondPiece(after, line)) && Loads(SecondPiece(after, line)).None?
  {
    assert Escape(after[0]) == [after[0]];
    assert EscapeAll(after)[0] == after[0];
    hide EscapeAll, Entry, Quote, ParseValue;
    assert SecondPiece(after, line)[0] == after[0];
    CapitalIsRefused(SecondPiece(after, line));
  }

  /** It happens: a deal reference with a line separator in it, quoted in the reason. Both
      halves of the record are refused whatever the cabinet says, and the line is lost to
      the re-run. */
  lemma CutRecordIsLost(lineNo: nat, before: string, c: char, after: string, line: string, enrich: Members -> Verdict)
    requires Plain(before) && IsWideBreak(c) && Plain(after) && Plain(line)
    requires after != "" && 'A' <= after[0] <= 'Z' && after[0] != 'E'
    ensures var numbered := NumberedLines(Splitlines(FileText(Dumps([QRecord(lineNo, before + [c] + after, line)]))));
            |numbered| == 2 && Fate(numbered[0].raw, enrich).Refused? && Fate(numbered[1].raw, enrich).Refused?
  {
    hide *;
    var first, second := FirstPiece(lineNo, before), SecondPiece(after, line);
    CutInTheReason(lineNo, before, c, after, line);
    FirstPieceIsRefused(lineNo, before);
    FirstPieceIsNotBlank(lineNo, before);
    SecondPieceIsRefused(after, line);
    AllNumbered([first, second]);
    BrokenIsRefused(first, enrich);
    BrokenIsRefused(second, enrich);
  }

  lemma FirstPieceIsNotBlank(lineNo: nat, before: string)
    ensures !Blank(FirstPiece(lineNo, before))
  {
    hide Entry, Decimal, EscapeAll;
    assert FirstPiece(lineNo, before)[0] == '{';
  }

  lemma BrokenIsRefused(raw: string, enrich: Members -> Verdict)
    requires Loads(raw).None?
    ensures Fate(raw, enrich).Refused?
  {
  }
}
