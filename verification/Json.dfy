/** JSON text as the enricher reads and writes it: `json.dumps(..., ensure_ascii=False)`
    and `json.loads`. A number is kept as its literal. String escaping follows section 7
    of RFC 8259. */
module Json {
  import opened Basics

  datatype Value =
    | Null | Bool(b: bool) | Num(literal: string) | Str(s: string) | Arr(items: Items) | Obj(members: Members)

  datatype Items = NoItem | Item(first: Value, rest: Items)

  datatype Members = NoMember | Member(key: string, value: Value, rest: Members)

  datatype Parsed<+T> = Fail | Ok(value: T, rest: string)

  // --- strings ---------------------------------------------------------------------

  function HexDigit(d: int): char
    requires 0 <= d < 16
  {
    "0123456789abcdef"[d]
  }

  function Escape(c: char): string {
    if c == '"' then "\\\"" else if c == '\\' then "\\\\"
    else if c == '\n' then "\\n" else if c == '\r' then "\\r" else if c == '\t' then "\\t"
    else if c as int == 8 then "\\b" else if c as int == 12 then "\\f"
    else if c as int < 32 then "\\u00" + [HexDigit(c as int / 16), HexDigit(c as int % 16)]
    else [c]
  }

  function EscapeAll(s: string): string {
    if s == "" then "" else Escape(s[0]) + EscapeAll(s[1..])
  }

  function HexValue(c: char): Option<int> {
    if '0' <= c <= '9' then Some(c as int - '0' as int)
    else if 'a' <= c <= 'f' then Some(c as int - 'a' as int + 10)
    else if 'A' <= c <= 'F' then Some(c as int - 'A' as int + 10)
    else None
  }

  function HexFour(s: string): Option<int> {
    if |s| < 4 then None
    else
      var a, b, c, d := HexValue(s[0]), HexValue(s[1]), HexValue(s[2]), HexValue(s[3]);
      if a.None? || b.None? || c.None? || d.None? then None
      else Some(((a.value * 16 + b.value) * 16 + c.value) * 16 + d.value)
  }

  /** The character a `\u` escape denotes, and what follows it: a surrogate needs its
      partner. */
  function UnicodeEscape(s: string): (p: Parsed<char>)
    ensures p.Ok? ==> |p.rest| < |s|
  {
    var n := HexFour(s);
    if n.None? then Fail
    else if 0 <= n.value < 0xD800 || 0xE000 <= n.value < 0x1_0000 then Ok(n.value as char, s[4..])
    else if 0xD800 <= n.value < 0xDC00 && |s| >= 6 && s[4] == '\\' && s[5] == 'u' then
      var m := HexFour(s[6..]);
      if m.Some? && 0xDC00 <= m.value < 0xE000
      then Ok((0x1_0000 + (n.value - 0xD800) * 0x400 + (m.value - 0xDC00)) as char, s[10..])
      else Fail
    else Fail
  }

  /** One escape sequence, after its backslash. */
  function Unescape(s: string): (p: Parsed<char>)
    ensures p.Ok? ==> |p.rest| < |s|
  {
    if s == "" then Fail
    else match s[0]
      case '"' => Ok('"', s[1..])
      case '\\' => Ok('\\', s[1..])
      case '/' => Ok('/', s[1..])
      case 'n' => Ok('\n', s[1..])
      case 'r' => Ok('\r', s[1..])
      case 't' => Ok('\t', s[1..])
      case 'b' => Ok(8 as char, s[1..])
      case 'f' => Ok(12 as char, s[1..])
      case 'u' => UnicodeEscape(s[1..])
      case _ => Fail
  }

  /** The rest of a string literal, after its opening quote. Raw control characters are
      refused. */
  function ParseString(s: string): (p: Parsed<string>)
    ensures p.Ok? ==> |p.rest| < |s|
    decreases |s|
  {
    if s == "" || s[0] as int < 32 then Fail
    else if s[0] == '"' then Ok("", s[1..])
    else
      var first := if s[0] == '\\' then Unescape(s[1..]) else Ok(s[0], s[1..]);
      if first.Fail? then Fail
      else
        var more := ParseString(first.rest);
        if more.Fail? then Fail else Ok([first.value] + more.value, more.rest)
  }

  /** Four hexadecimal digits, in either case, spell this number. */
  ghost predicate Spells(s: string, n: int) {
    |s| == 4 && exists a, b, c, d :: IsHex(s[0], a) && IsHex(s[1], b) && IsHex(s[2], c) && IsHex(s[3], d)
                                     && n == 4096 * a + 256 * b + 16 * c + d
  }

  predicate IsHex(c: char, d: int) {
    0 <= d < 16 && (c == "0123456789abcdef"[d] || c == "0123456789ABCDEF"[d])
  }

  lemma HexIsRead(c: char, d: int)
    ensures IsHex(c, d) <==> HexValue(c) == Some(d)
    ensures IsHex(c, d) ==> 0 <= d < 16
  {
  }

  lemma FourAreRead(s: string, tail: string, n: int)
    requires Spells(s, n)
    ensures HexFour(s + tail) == Some(n) && 0 <= n < 0x1_0000
  {
    hide HexValue, IsHex, HexFour;
    var a, b, c, d :| IsHex(s[0], a) && IsHex(s[1], b) && IsHex(s[2], c) && IsHex(s[3], d)
                      && n == 4096 * a + 256 * b + 16 * c + d;
    HexIsRead(s[0], a);
    HexIsRead(s[1], b);
    HexIsRead(s[2], c);
    HexIsRead(s[3], d);
    FourDigits(s + tail, a, b, c, d);
  }

  lemma FourDigits(s: string, a: int, b: int, c: int, d: int)
    requires |s| >= 4 && HexValue(s[0]) == Some(a) && HexValue(s[1]) == Some(b) && HexValue(s[2]) == Some(c)
             && HexValue(s[3]) == Some(d)
    ensures HexFour(s) == Some(4096 * a + 256 * b + 16 * c + d)
  {
    hide HexValue;
  }

  /** Any character may be escaped by its number in UTF-16: one unit of four digits, or beyond
      16 bits a pair of surrogates. */
  lemma UnicodeEscapeIsRead(c: char, high: string, low: string, tail: string)
    ensures Spells(high, c as int) ==> Unescape("u" + high + tail) == Ok(c, tail)
    ensures c as int >= 0x1_0000 && Spells(high, 0xD800 + (c as int - 0x1_0000) / 0x400)
            && Spells(low, 0xDC00 + (c as int - 0x1_0000) % 0x400) ==>
              Unescape("u" + high + "\\u" + low + tail) == Ok(c, tail)
  {
    hide Spells, Unescape;
    if Spells(high, c as int) {
      OneUnitIsRead(c, high, tail);
    }
    var n := c as int - 0x1_0000;
    if n >= 0 && Spells(high, 0xD800 + n / 0x400) && Spells(low, 0xDC00 + n % 0x400) {
      FourAreRead(high, "\\u" + low + tail, 0xD800 + n / 0x400);
      FourAreRead(low, tail, 0xDC00 + n % 0x400);
      FourLong(high, 0xD800 + n / 0x400);
      FourLong(low, 0xDC00 + n % 0x400);
      PairIsRead(c, high, low, tail);
      AfterTheU(high, "\\u" + low + tail);
      assert "u" + high + "\\u" + low + tail == "u" + high + ("\\u" + low + tail);
    }
  }

  lemma FourLong(s: string, n: int)
    requires Spells(s, n)
    ensures |s| == 4
  {
  }

  lemma AfterTheU(s: string, tail: string)
    ensures Unescape("u" + s + tail) == UnicodeEscape(s + tail)
  {
    assert ("u" + s + tail)[1..] == s + tail;
    hide UnicodeEscape;
  }

  lemma OneUnitIsRead(c: char, s: string, tail: string)
    requires Spells(s, c as int)
    ensures Unescape("u" + s + tail) == Ok(c, tail)
  {
    FourAreRead(s, tail, c as int);
    AfterTheU(s, tail);
    FourLong(s, c as int);
    hide HexFour, Spells, Unescape;
    assert (s + tail)[4..] == tail;
  }

  lemma PairIsRead(c: char, high: string, low: string, tail: string)
    requires var n := c as int - 0x1_0000;
             && n >= 0 && |high| == 4 && |low| == 4
             && HexFour(high + ("\\u" + low + tail)) == Some(0xD800 + n / 0x400)
             && HexFour(low + tail) == Some(0xDC00 + n % 0x400)
    ensures UnicodeEscape(high + ("\\u" + low + tail)) == Ok(c, tail)
  {
    hide HexFour;
    var s := high + ("\\u" + low + tail);
    assert s[4] == '\\' && s[5] == 'u' && s[6..] == low + tail && s[10..] == tail;
  }

  /** The short escapes; a raw control character ends the literal in failure. */
  lemma ShortEscapes(c: char, tail: string)
    requires c as int < 32
    ensures Unescape("\"" + tail) == Ok('"', tail) && Unescape("\\" + tail) == Ok('\\', tail)
    ensures Unescape("/" + tail) == Ok('/', tail) && Unescape("n" + tail) == Ok('\n', tail)
    ensures Unescape("r" + tail) == Ok('\r', tail) && Unescape("t" + tail) == Ok('\t', tail)
    ensures Unescape("b" + tail) == Ok(8 as char, tail) && Unescape("f" + tail) == Ok(12 as char, tail)
    ensures ParseString([c] + tail) == Fail
  {
  }

  lemma UnescapeControl(n: int, tail: string)
    requires 0 <= n < 32
    ensures Unescape("u00" + [HexDigit(n / 16), HexDigit(n % 16)] + tail) == Ok(n as char, tail)
  {
    var s := "00" + [HexDigit(n / 16), HexDigit(n % 16)] + tail;
    assert ("u00" + [HexDigit(n / 16), HexDigit(n % 16)] + tail)[1..] == s;
    assert s[0] == '0' && s[1] == '0' && s[4..] == tail;
    assert HexValue(HexDigit(n / 16)) == Some(n / 16) && HexValue(HexDigit(n % 16)) == Some(n % 16);
    assert HexFour(s) == Some(n);
  }

  /** Reading one escaped character gives the character back. */
  lemma EscapedCharacter(c: char, tail: string)
    ensures var e := Escape(c);
            && e != "" && e[0] as int >= 32 && e[0] != '"'
            && (if e[0] == '\\' then Unescape((e + tail)[1..]) == Ok(c, tail) else e == [c])
  {
    var n := c as int;
    if n < 32 && c !in {'\n', '\r', '\t'} && n != 8 && n != 12 {
      UnescapeControl(n, tail);
      assert (Escape(c) + tail)[1..] == "u00" + [HexDigit(n / 16), HexDigit(n % 16)] + tail;
    } else if Escape(c)[0] == '\\' {
      assert |Escape(c)| == 2;
      assert (Escape(c) + tail)[1..] == [Escape(c)[1]] + tail;
      assert ([Escape(c)[1]] + tail)[1..] == tail;
    }
  }

  /** Reading a literal that starts with an escaped character. */
  lemma CharacterStep(c: char, more: string)
    ensures ParseString(Escape(c) + more)
            == var p := ParseString(more); if p.Fail? then Fail else Ok([c] + p.value, p.rest)
  {
    EscapedCharacter(c, more);
    hide Escape, Unescape;
    var e := Escape(c);
    var text := e + more;
    assert text[0] == e[0];
    if e[0] != '\\' {
      assert text[1..] == more;
    }
  }

  /** Any text survives being written as a string literal and read back. */
  lemma {:induction false} StringRoundTrip(s: string, tail: string)
    ensures ParseString(EscapeAll(s) + "\"" + tail) == Ok(s, tail)
  {
    if s == "" {
      assert EscapeAll(s) + "\"" + tail == "\"" + tail;
      assert ("\"" + tail)[1..] == tail;
    } else {
      hide Escape, ParseString;
      var more := EscapeAll(s[1..]) + "\"" + tail;
      assert EscapeAll(s) + "\"" + tail == Escape(s[0]) + more;
      hide EscapeAll;
      StringRoundTrip(s[1..], tail);
      CharacterStep(s[0], more);
      assert s == [s[0]] + s[1..];
    }
  }

  // --- numbers ---------------------------------------------------------------------------

  predicate InNumber(c: char) { IsDigit(c) || c in {'-', '+', '.', 'e', 'E'} }

  function DigitRun(s: string): (n: nat)
    ensures n <= |s|
  {
    if s != "" && IsDigit(s[0]) then 1 + DigitRun(s[1..]) else 0
  }

  function NumberRun(s: string): (n: nat)
    ensures n <= |s|
  {
    if s != "" && InNumber(s[0]) then 1 + NumberRun(s[1..]) else 0
  }

  predicate ExponentOk(s: string) {
    s == ""
    || (s[0] in {'e', 'E'}
        && (var t := if |s| > 1 && s[1] in {'+', '-'} then s[2..] else s[1..];
            t != "" && DigitRun(t) == |t|))
  }

  predicate FractionOk(s: string) {
    if s != "" && s[0] == '.' then DigitRun(s[1..]) > 0 && ExponentOk(s[1 + DigitRun(s[1..])..])
    else ExponentOk(s)
  }

  /** `-?(0|[1-9]\d*)(\.\d+)?([eE][-+]?\d+)?` */
  predicate NumberOk(literal: string) {
    var s := if literal != "" && literal[0] == '-' then literal[1..] else literal;
    var k := DigitRun(s);
    k > 0 && (s[0] == '0' ==> k == 1) && FractionOk(s[k..])
  }

  function Decimal(n: nat): string {
    if n < 10 then [('0' as int + n) as char] else Decimal(n / 10) + [('0' as int + n % 10) as char]
  }

  lemma {:induction false} DigitRunAll(s: string)
    requires forall i :: 0 <= i < |s| ==> IsDigit(s[i])
    ensures DigitRun(s) == |s|
  {
    if s != "" {
      DigitRunAll(s[1..]);
    }
  }

  lemma {:induction false} DecimalDigits(n: nat)
    ensures var d := Decimal(n);
            && d != "" && (forall i :: 0 <= i < |d| ==> IsDigit(d[i]))
            && (d[0] == '0' ==> |d| == 1)
            && (n > 0 ==> d[0] != '0')
  {
    if n >= 10 {
      DecimalDigits(n / 10);
    }
  }

  lemma DecimalIsANumber(n: nat)
    ensures NumberOk(Decimal(n))
  {
    DecimalDigits(n);
    DigitRunAll(Decimal(n));
    assert Decimal(n)[0] != '-' by { assert IsDigit(Decimal(n)[0]); }
    assert Decimal(n)[|Decimal(n)|..] == "";
  }

  lemma {:induction false} NumberRunStops(literal: string, tail: string)
    requires forall i :: 0 <= i < |literal| ==> InNumber(literal[i])
    requires tail == "" || !InNumber(tail[0])
    ensures NumberRun(literal + tail) == |literal|
  {
    if literal == "" {
      assert literal + tail == tail;
    } else {
      NumberRunStops(literal[1..], tail);
      assert (literal + tail)[1..] == literal[1..] + tail;
    }
  }

  lemma {:induction false} DigitsAreDigits(s: string)
    ensures forall i :: 0 <= i < DigitRun(s) ==> IsDigit(s[i])
  {
    if s != "" && IsDigit(s[0]) {
      DigitsAreDigits(s[1..]);
    }
  }

  lemma ExponentCharacters(s: string)
    requires ExponentOk(s)
    ensures forall i :: 0 <= i < |s| ==> InNumber(s[i])
  {
    if s != "" {
      var k := if |s| > 1 && s[1] in {'+', '-'} then 2 else 1;
      DigitsAreDigits(s[k..]);
      forall i | k <= i < |s| ensures InNumber(s[i]) {
        assert s[i] == s[k..][i - k];
      }
    }
  }

  lemma FractionCharacters(s: string)
    requires FractionOk(s)
    ensures forall i :: 0 <= i < |s| ==> InNumber(s[i])
  {
    if s != "" && s[0] == '.' {
      var k := 1 + DigitRun(s[1..]);
      DigitsAreDigits(s[1..]);
      ExponentCharacters(s[k..]);
      forall i | 0 <= i < |s| ensures InNumber(s[i]) {
        if 1 <= i < k {
          assert s[i] == s[1..][i - 1];
        } else if k <= i {
          assert s[i] == s[k..][i - k];
        }
      }
    } else {
      ExponentCharacters(s);
    }
  }

  lemma NumberCharacters(literal: string)
    requires NumberOk(literal)
    ensures literal != "" && forall i :: 0 <= i < |literal| ==> InNumber(literal[i])
  {
    var sign := if literal[0] == '-' then 1 else 0;
    var s := literal[sign..];
    assert sign == 0 ==> s == literal;
    var k := DigitRun(s);
    DigitsAreDigits(s);
    FractionCharacters(s[k..]);
    forall i | 0 <= i < |literal| ensures InNumber(literal[i]) {
      if sign <= i < sign + k {
        assert literal[i] == s[i - sign];
      } else if sign + k <= i {
        assert literal[i] == s[k..][i - sign - k];
      }
    }
  }

  // --- writing ------------------------------------------------------------------------------

  function Quote(s: string): string { "\"" + EscapeAll(s) + "\"" }

  function Print(v: Value): string {
    match v
    case Null => "null"
    case Bool(b) => if b then "true" else "false"
    case Num(literal) => literal
    case Str(s) => Quote(s)
    case Arr(NoItem) => "[]"
    case Arr(Item(x, rest)) => "[" + Print(x) + PrintItems(rest)
    case Obj(NoMember) => "{}"
    case Obj(Member(k, x, rest)) => "{" + (Quote(k) + (": " + Print(x))) + PrintMembers(rest)
  }

  function PrintItems(items: Items): string {
    match items
    case NoItem => "]"
    case Item(x, rest) => ", " + (Print(x) + PrintItems(rest))
  }

  function PrintMembers(members: Members): string {
    match members
    case NoMember => "}"
    case Member(k, x, rest) => ", " + (Quote(k) + (": " + Print(x))) + PrintMembers(rest)
  }

  // --- reading --------------------------------------------------------------------------------

  predicate IsSpace(c: char) { c in {' ', '\t', '\n', '\r'} }

  function SkipSpace(s: string): (t: string)
    ensures |t| <= |s|
  {
    if s != "" && IsSpace(s[0]) then SkipSpace(s[1..]) else s
  }

  function ParseLiteral(s: string, word: string, v: Value): (p: Parsed<Value>)
    requires word != ""
    ensures p.Ok? ==> |p.rest| < |s|
  {
    if word <= s then Ok(v, s[|word|..]) else Fail
  }

  function ParseValue(text: string): (p: Parsed<Value>)
    ensures p.Ok? ==> |p.rest| < |text|
    decreases |text|, 0
  {
    var s := SkipSpace(text);
    if s == "" then Fail
    else if s[0] == '"' then
      var p := ParseString(s[1..]);
      if p.Fail? then Fail else Ok(Str(p.value), p.rest)
    else if s[0] == '[' then
      var inside := SkipSpace(s[1..]);
      if inside != "" && inside[0] == ']' then Ok(Arr(NoItem), inside[1..])
      else
        var p := ParseItems(s[1..]);
        if p.Fail? then Fail else Ok(Arr(p.value), p.rest)
    else if s[0] == '{' then
      var inside := SkipSpace(s[1..]);
      if inside != "" && inside[0] == '}' then Ok(Obj(NoMember), inside[1..])
      else
        var p := ParseMembers(s[1..]);
        if p.Fail? then Fail else Ok(Obj(p.value), p.rest)
    else if s[0] == 'n' then ParseLiteral(s, "null", Null)
    else if s[0] == 't' then ParseLiteral(s, "true", Bool(true))
    else if s[0] == 'f' then ParseLiteral(s, "false", Bool(false))
    else
      var k := NumberRun(s);
      if k > 0 && NumberOk(s[..k]) then Ok(Num(s[..k]), s[k..]) else Fail
  }

  function ParseItems(text: string): (p: Parsed<Items>)
    ensures p.Ok? ==> |p.rest| < |text|
    decreases |text|, 1
  {
    var first := ParseValue(text);
    if first.Fail? then Fail
    else
      var s := SkipSpace(first.rest);
      if s == "" then Fail
      else if s[0] == ']' then Ok(Item(first.value, NoItem), s[1..])
      else if s[0] == ',' then
        var more := ParseItems(s[1..]);
        if more.Fail? then Fail else Ok(Item(first.value, more.value), more.rest)
      else Fail
  }

  function ParseMembers(text: string): (p: Parsed<Members>)
    ensures p.Ok? ==> |p.rest| < |text|
    decreases |text|, 1
  {
    var s := SkipSpace(text);
    if s == "" || s[0] != '"' then Fail
    else
      var key := ParseString(s[1..]);
      if key.Fail? then Fail
      else
        var t := SkipSpace(key.rest);
        if t == "" || t[0] != ':' then Fail
        else
          var v := ParseValue(t[1..]);
          if v.Fail? then Fail
          else
            var u := SkipSpace(v.rest);
            if u == "" then Fail
            else if u[0] == '}' then Ok(Member(key.value, v.value, NoMember), u[1..])
            else if u[0] == ',' then
              var more := ParseMembers(u[1..]);
              if more.Fail? then Fail else Ok(Member(key.value, v.value, more.value), more.rest)
            else Fail
  }

  /** `json.loads`: one value and nothing after it but space. */
  function Loads(text: string): Option<Value> {
    var p := ParseValue(text);
    if p.Ok? && SkipSpace(p.rest) == "" then Some(p.value) else None
  }

  // --- which texts are numbers --------------------------------------------------------------------

  predicate SomeDigits(s: string) { s != "" && forall i :: 0 <= i < |s| ==> IsDigit(s[i]) }

  ghost predicate ExponentPart(x: string) {
    x == "" || exists sign, d :: x == [x[0]] + sign + d && x[0] in {'e', 'E'} && sign in {"", "+", "-"} && SomeDigits(d)
  }

  ghost predicate FractionPart(x: string) {
    x == "" || (x[0] == '.' && SomeDigits(x[1..]))
  }

  /** An integer without leading zeros, then possibly a fraction, then possibly an exponent. */
  ghost predicate IsNumber(s: string) {
    exists sign, whole, fraction, exponent :: MadeOf(s, sign, whole, fraction, exponent)
  }

  ghost predicate MadeOf(s: string, sign: string, whole: string, fraction: string, exponent: string) {
    && s == sign + (whole + (fraction + exponent)) && (sign == "" || sign == "-") && SomeDigits(whole)
    && (whole[0] == '0' ==> |whole| == 1) && FractionPart(fraction) && ExponentPart(exponent)
  }

  lemma {:induction false} DigitRunStops(d: string, tail: string)
    requires forall i :: 0 <= i < |d| ==> IsDigit(d[i])
    requires tail == "" || !IsDigit(tail[0])
    ensures DigitRun(d + tail) == |d|
  {
    if d == "" {
      assert d + tail == tail;
    } else {
      DigitRunStops(d[1..], tail);
      assert (d + tail)[1..] == d[1..] + tail;
    }
  }

  lemma ExponentIff(x: string)
    ensures ExponentOk(x) <==> ExponentPart(x)
  {
    if ExponentOk(x) && x != "" {
      var k := if |x| > 1 && x[1] in {'+', '-'} then 2 else 1;
      DigitsAreDigits(x[k..]);
      assert x == [x[0]] + x[1..k] + x[k..] && SomeDigits(x[k..]);
      assert x[1..k] == "" || x[1..k] == [x[1]];
    }
    if ExponentPart(x) && x != "" {
      var sign, d :| x == [x[0]] + sign + d && x[0] in {'e', 'E'} && sign in {"", "+", "-"} && SomeDigits(d);
      DigitRunAll(d);
      assert sign == "" ==> x[1] == d[0];
      assert x[|sign| + 1..] == d;
      hide DigitRun;
    }
  }

  lemma FractionMadeOf(fraction: string, exponent: string)
    requires FractionPart(fraction) && ExponentPart(exponent)
    ensures FractionOk(fraction + exponent)
  {
    var x := fraction + exponent;
    ExponentIff(exponent);
    hide ExponentOk, ExponentPart, DigitRun;
    assert exponent == "" || exponent[0] in {'e', 'E'} by { ExponentStart(exponent); }
    if fraction == "" {
      assert x == exponent;
    } else {
      DigitRunStops(fraction[1..], exponent);
      assert x[1..] == fraction[1..] + exponent && x[|fraction|..] == exponent;
    }
  }

  lemma ExponentStart(x: string)
    requires ExponentPart(x)
    ensures x == "" || x[0] == 'e' || x[0] == 'E'
  {
  }

  lemma FractionParts(x: string) returns (m: nat)
    requires FractionOk(x)
    ensures m <= |x| && FractionPart(x[..m]) && ExponentPart(x[m..])
  {
    m := if x != "" && x[0] == '.' then 1 + DigitRun(x[1..]) else 0;
    if m > 0 {
      DigitsAreDigits(x[1..]);
      assert x[..m][1..] == x[1..][..m - 1];
    }
    ExponentIff(x[m..]);
    hide ExponentOk, ExponentPart, DigitRun;
  }

  /** A number behind its sign. */
  lemma BehindTheSign(sign: string, t: string)
    requires sign == "-" || (sign == "" && (t == "" || t[0] != '-'))
    ensures NumberOk(sign + t) <==>
            var k := DigitRun(t); k > 0 && (t[0] == '0' ==> k == 1) && FractionOk(t[k..])
  {
    assert (sign + t)[|sign|..] == t && (sign == "" ==> sign + t == t);
    hide FractionOk, DigitRun;
  }

  lemma NumberOkIff(s: string)
    ensures NumberOk(s) <==> IsNumber(s)
  {
    hide NumberOk, MadeOf;
    if NumberOk(s) {
      var sign, whole, fraction, exponent := PartsOfANumber(s);
    }
    if IsNumber(s) {
      var sign, whole, fraction, exponent :| MadeOf(s, sign, whole, fraction, exponent);
      PartsAreANumber(s, sign, whole, fraction, exponent);
    }
  }

  lemma InThree(t: string, k: nat, m: nat)
    requires k <= |t| && m <= |t| - k
    ensures t == t[..k] + (t[k..][..m] + t[k..][m..])
  {
    assert t == t[..k] + t[k..] && t[k..] == t[k..][..m] + t[k..][m..];
  }

  lemma WholePart(t: string)
    requires DigitRun(t) > 0 && (t[0] == '0' ==> DigitRun(t) == 1)
    ensures var whole := t[..DigitRun(t)]; SomeDigits(whole) && (whole[0] == '0' ==> |whole| == 1)
  {
    DigitsAreDigits(t);
    hide DigitRun;
  }

  lemma SplitSign(s: string) returns (sign: string, t: string)
    requires NumberOk(s)
    ensures (sign == "" || sign == "-") && s == sign + t
    ensures var k := DigitRun(t); k > 0 && (t[0] == '0' ==> k == 1) && FractionOk(t[k..])
  {
    sign := if s != "" && s[0] == '-' then "-" else "";
    t := s[|sign|..];
    assert s == sign + t;
    BehindTheSign(sign, t);
    hide NumberOk, FractionOk, DigitRun;
  }

  lemma PartsOfANumber(s: string) returns (sign: string, whole: string, fraction: string, exponent: string)
    requires NumberOk(s)
    ensures MadeOf(s, sign, whole, fraction, exponent)
  {
    hide NumberOk, FractionOk, DigitRun, FractionPart, ExponentPart, SomeDigits;
    var t;
    sign, t := SplitSign(s);
    WholePart(t);
    var k := DigitRun(t);
    var m := FractionParts(t[k..]);
    InThree(t, k, m);
    whole, fraction, exponent := t[..k], t[k..][..m], t[k..][m..];
  }

  lemma PartsAreANumber(s: string, sign: string, whole: string, fraction: string, exponent: string)
    requires MadeOf(s, sign, whole, fraction, exponent)
    ensures NumberOk(s)
  {
    var rest := fraction + exponent;
    ExponentStart(exponent);
    assert rest == "" || !IsDigit(rest[0]);
    FractionMadeOf(fraction, exponent);
    DigitRunStops(whole, rest);
    hide NumberOk, FractionOk, DigitRun, FractionPart, ExponentPart;
    assert (whole + rest)[|whole|..] == rest && (whole + rest)[0] == whole[0];
    BehindTheSign(sign, whole + rest);
  }

  /** Text of nothing but the characters of numbers is read as itself if it is a number, else
      refused. */
  lemma NumberIsReadIff(s: string)
    requires s != "" && forall i :: 0 <= i < |s| ==> InNumber(s[i])
    ensures Loads(s) == if IsNumber(s) then Some(Num(s)) else None
  {
    NumberOkIff(s);
    NumberRunStops(s, "");
    assert s + "" == s && s[..|s|] == s && s[|s|..] == "";
    assert InNumber(s[0]) && !IsSpace(s[0]);
    hide NumberOk, IsNumber, NumberRun, ParseString, ParseItems, ParseMembers, ParseLiteral;
    assert SkipSpace(s) == s && SkipSpace("") == "";
  }

  // --- round trip ---------------------------------------------------------------------------------

  /** Every number in the value is a JSON number literal. */
  predicate WellFormed(v: Value) {
    match v
    case Num(literal) => NumberOk(literal)
    case Arr(items) => WellFormedItems(items)
    case Obj(members) => WellFormedMembers(members)
    case _ => true
  }

  predicate WellFormedItems(items: Items) {
    items.NoItem? || (WellFormed(items.first) && WellFormedItems(items.rest))
  }

  predicate WellFormedMembers(members: Members) {
    members.NoMember? || (WellFormed(members.value) && WellFormedMembers(members.rest))
  }

  /** What can follow a value: not something that would continue a number. */
  predicate Delimits(tail: string) { tail == "" || !InNumber(tail[0]) }

  /** A printed value starts with neither space nor a closing bracket. */
  lemma FirstCharacter(v: Value)
    requires WellFormed(v)
    ensures Print(v) != "" && !IsSpace(Print(v)[0]) && Print(v)[0] !in {']', '}'}
  {
    if v.Num? {
      NumberCharacters(v.literal);
    }
  }

  lemma SpaceIsSkipped(s: string)
    ensures ParseValue(" " + s) == ParseValue(s)
    ensures ParseMembers(" " + s) == ParseMembers(s)
  {
    assert (" " + s)[1..] == s;
    assert SkipSpace(" " + s) == SkipSpace(s);
  }

  lemma NumberRoundTrip(literal: string, tail: string)
    requires NumberOk(literal) && Delimits(tail)
    ensures ParseValue(literal + tail) == Ok(Num(literal), tail)
  {
    NumberCharacters(literal);
    NumberRunStops(literal, tail);
    var s := literal + tail;
    assert s[0] == literal[0];
    assert SkipSpace(s) == s;
    assert s[..|literal|] == literal && s[|literal|..] == tail;
  }

  lemma QuoteRoundTrip(s: string, tail: string)
    ensures Quote(s) + tail != "" && (Quote(s) + tail)[0] == '"'
    ensures ParseString((Quote(s) + tail)[1..]) == Ok(s, tail)
  {
    StringRoundTrip(s, tail);
    assert (Quote(s) + tail)[1..] == EscapeAll(s) + "\"" + tail;
  }

  lemma LiteralRoundTrip(v: Value, tail: string)
    requires v.Null? || v.Bool?
    ensures ParseValue(Print(v) + tail) == Ok(v, tail)
  {
    var s := Print(v) + tail;
    assert s[0] == Print(v)[0];
    assert SkipSpace(s) == s;
    assert Print(v) <= s && s[|Print(v)|..] == tail;
  }

  /** From the inside of a non-empty array to the array. */
  lemma ArrayStep(inside: string, items: Items, tail: string)
    requires inside != "" && !IsSpace(inside[0]) && inside[0] != ']'
    requires ParseItems(inside) == Ok(items, tail)
    ensures ParseValue("[" + inside) == Ok(Arr(items), tail)
  {
    hide ParseItems;
    assert ("[" + inside)[1..] == inside;
    assert SkipSpace("[" + inside) == "[" + inside && SkipSpace(inside) == inside;
  }

  lemma ObjectStep(inside: string, members: Members, tail: string)
    requires inside != "" && inside[0] == '"'
    requires ParseMembers(inside) == Ok(members, tail)
    ensures ParseValue("{" + inside) == Ok(Obj(members), tail)
  {
    hide ParseMembers;
    assert ("{" + inside)[1..] == inside;
    assert SkipSpace("{" + inside) == "{" + inside && SkipSpace(inside) == inside;
  }

  lemma EmptyStep(tail: string)
    ensures ParseValue("[]" + tail) == Ok(Arr(NoItem), tail)
    ensures ParseValue("{}" + tail) == Ok(Obj(NoMember), tail)
  {
    assert ("[]" + tail)[1..] == "]" + tail && ("]" + tail)[1..] == tail;
    assert ("{}" + tail)[1..] == "}" + tail && ("}" + tail)[1..] == tail;
    assert SkipSpace("[]" + tail) == "[]" + tail && SkipSpace("]" + tail) == "]" + tail;
    assert SkipSpace("{}" + tail) == "{}" + tail && SkipSpace("}" + tail) == "}" + tail;
  }

  lemma StringStep(t: string, tail: string)
    ensures ParseValue(Quote(t) + tail) == Ok(Str(t), tail)
  {
    QuoteRoundTrip(t, tail);
    hide ParseString, Quote;
    var s := Quote(t) + tail;
    assert SkipSpace(s) == s;
  }

  /** Every well-formed value survives being written and read back, whatever follows. */
  lemma {:induction false} RoundTrip(v: Value, tail: string)
    requires WellFormed(v) && (v.Num? ==> Delimits(tail))
    ensures ParseValue(Print(v) + tail) == Ok(v, tail)
    decreases v
  {
    hide ParseValue, ParseItems, ParseMembers, Quote, NumberOk;
    match v
    case Num(literal) => NumberRoundTrip(literal, tail);
    case Str(t) => StringStep(t, tail);
    case Arr(items) =>
      EmptyStep(tail);
      if items.Item? {
        ItemsRoundTrip(items, tail);
        ArrayText(items, tail);
        ArrayStep(Print(items.first) + (PrintItems(items.rest) + tail), items, tail);
      }
    case Obj(members) =>
      EmptyStep(tail);
      if members.Member? {
        MembersRoundTrip(members, tail);
        ObjectText(members, tail);
        ObjectStep(PrintMember(members) + (PrintMembers(members.rest) + tail), members, tail);
      }
    case _ => LiteralRoundTrip(v, tail);
  }

  lemma ArrayText(items: Items, tail: string)
    requires items.Item? && WellFormedItems(items)
    ensures var inside := Print(items.first) + (PrintItems(items.rest) + tail);
            && inside != "" && !IsSpace(inside[0]) && inside[0] != ']'
            && Print(Arr(items)) + tail == "[" + inside
  {
    FirstCharacter(items.first);
    hide IsSpace, PrintItems, NumberOk;
    var inside := Print(items.first) + (PrintItems(items.rest) + tail);
    assert inside[0] == Print(items.first)[0];
    assert Print(Arr(items)) + tail == "[" + inside;
  }

  lemma ObjectText(members: Members, tail: string)
    requires members.Member?
    ensures var inside := PrintMember(members) + (PrintMembers(members.rest) + tail);
            && inside != "" && inside[0] == '"'
            && Print(Obj(members)) + tail == "{" + inside
  {
    hide *;
    PrintObject(members);
    var first, rest := PrintMember(members), PrintMembers(members.rest);
    assert (first + (rest + tail))[0] == first[0];
    assert "{" + first + rest + tail == "{" + (first + (rest + tail));
  }

  lemma PrintObject(members: Members)
    requires members.Member?
    ensures PrintMember(members) != "" && PrintMember(members)[0] == '"'
    ensures Print(Obj(members)) == "{" + PrintMember(members) + PrintMembers(members.rest)
  {
    QuoteOpens(members.key);
    hide Quote, PrintMembers;
    assert PrintMember(members)[0] == Quote(members.key)[0];
  }

  lemma QuoteOpens(s: string)
    ensures Quote(s) != "" && Quote(s)[0] == '"'
  {
    hide EscapeAll;
  }

  /** The first member of a list, as printed. */
  function PrintMember(members: Members): string
    requires members.Member?
  {
    Quote(members.key) + (": " + Print(members.value))
  }

  /** One item and what `PrintItems` prints after it. */
  lemma ItemStep(text: string, x: Value, after: string)
    requires ParseValue(text) == Ok(x, after) && after != "" && !IsSpace(after[0])
    ensures after[0] == ']' ==> ParseItems(text) == Ok(Item(x, NoItem), after[1..])
    ensures after[0] == ',' ==>
              ParseItems(text) == var more := ParseItems(after[1..]);
                                  if more.Fail? then Fail else Ok(Item(x, more.value), more.rest)
  {
    hide ParseValue;
    assert SkipSpace(after) == after;
  }

  lemma {:induction false} ItemsRoundTrip(items: Items, tail: string)
    requires items.Item? && WellFormedItems(items)
    ensures ParseItems(Print(items.first) + (PrintItems(items.rest) + tail)) == Ok(items, tail)
    decreases items
  {
    hide ParseValue, ParseItems, Print, NumberOk;
    var x, rest, after := items.first, items.rest, PrintItems(items.rest) + tail;
    assert after[0] == PrintItems(rest)[0];
    RoundTrip(x, after);
    ItemStep(Print(x) + after, x, after);
    if rest.NoItem? {
      assert after[1..] == tail;
    } else {
      ItemsRoundTrip(rest, tail);
      var next := Print(rest.first) + (PrintItems(rest.rest) + tail);
      assert PrintItems(rest) == ", " + (Print(rest.first) + PrintItems(rest.rest));
      assert after[1..] == " " + next;
      ItemsAfterSpace(next);
    }
  }

  lemma ItemsAfterSpace(s: string)
    ensures ParseItems(" " + s) == ParseItems(s)
  {
    SpaceIsSkipped(s);
    hide ParseValue;
  }

  lemma MemberStep(text: string, k: string, value: string, x: Value, after: string)
    requires text != "" && text[0] == '"' && ParseString(text[1..]) == Ok(k, ": " + value)
    requires ParseValue(value) == Ok(x, after) && after != "" && !IsSpace(after[0])
    ensures after[0] == '}' ==> ParseMembers(text) == Ok(Member(k, x, NoMember), after[1..])
    ensures after[0] == ',' ==>
              ParseMembers(text) == var more := ParseMembers(after[1..]);
                                    if more.Fail? then Fail else Ok(Member(k, x, more.value), more.rest)
  {
    SpaceIsSkipped(value);
    hide ParseValue, ParseString;
    assert SkipSpace(text) == text && SkipSpace(": " + value) == ": " + value && SkipSpace(after) == after;
    assert (": " + value)[1..] == " " + value;
  }

  lemma {:induction false} MembersRoundTrip(members: Members, tail: string)
    requires members.Member? && WellFormedMembers(members)
    ensures ParseMembers(PrintMember(members) + (PrintMembers(members.rest) + tail)) == Ok(members, tail)
    decreases members
  {
    hide ParseValue, ParseMembers, Quote, Print, NumberOk;
    var k, x, rest, after := members.key, members.value, members.rest, PrintMembers(members.rest) + tail;
    assert after[0] == PrintMembers(rest)[0];
    var text, value := PrintMember(members) + after, Print(x) + after;
    assert text == Quote(k) + (": " + value);
    QuoteRoundTrip(k, ": " + value);
    RoundTrip(x, after);
    MemberStep(text, k, value, x, after);
    if rest.NoMember? {
      assert after[1..] == tail;
    } else {
      MembersRoundTrip(rest, tail);
      var next := PrintMember(rest) + (PrintMembers(rest.rest) + tail);
      assert after[1..] == " " + next;
      SpaceIsSkipped(next);
    }
  }

  lemma LoadsDumps(v: Value)
    requires WellFormed(v)
    ensures Loads(Print(v)) == Some(v)
  {
    RoundTrip(v, "");
    assert Print(v) + "" == Print(v);
  }

  /** Behind a value nothing but space may follow. */
  lemma NothingFollows(v: Value, tail: string)
    requires WellFormed(v) && (v.Num? ==> Delimits(tail))
    ensures Loads(Print(v) + tail) == if forall i :: 0 <= i < |tail| ==> tail[i] in " \t\n\r" then Some(v) else None
  {
    RoundTrip(v, tail);
    SpaceOnly(tail);
    hide ParseValue, Print, SkipSpace;
  }

  lemma {:induction false} SpaceOnly(s: string)
    ensures SkipSpace(s) == "" <==> forall i :: 0 <= i < |s| ==> s[i] in " \t\n\r"
  {
    if s != "" {
      SpaceOnly(s[1..]);
      assert IsSpace(s[0]) <==> s[0] in " \t\n\r";
      assert forall i :: 0 < i < |s| ==> s[i] == s[1..][i - 1];
    }
  }
}
