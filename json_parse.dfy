/**
 * `JSON.parse` on the JSON texts that `JSON.stringify` writes: literals,
 * integers, strings with escapes, arrays and objects, no insignificant
 * whitespace. The round trip `ParseJson(Print(v)) == Some(v)` shows that the
 * parse-back step of the hashing replacers never fails and that distinct
 * values print distinct texts.
 */
module JsonParse {
  import opened JsonValue
  import opened JsonText

  predicate IsHexChar(c: char)
  {
    ('0' <= c <= '9') || ('a' <= c <= 'f') || ('A' <= c <= 'F')
  }

  function HexValue(c: char): (d: nat)
    requires IsHexChar(c)
    ensures d < 16
  {
    if '0' <= c <= '9' then (c as int) - ('0' as int)
    else if 'a' <= c <= 'f' then (c as int) - ('a' as int) + 10
    else (c as int) - ('A' as int) + 10
  }

  /** The character an escape stands for; `s` starts just after the backslash. */
  function ParseEscape(s: string): (r: Option<(char, string)>)
    ensures r.Some? ==> |r.value.1| < |s|
  {
    if |s| == 0 then None
    else if s[0] == '"' then Some(('"', s[1..]))
    else if s[0] == '\\' then Some(('\\', s[1..]))
    else if s[0] == '/' then Some(('/', s[1..]))
    else if s[0] == 'b' then Some((0x08 as char, s[1..]))
    else if s[0] == 'f' then Some((0x0C as char, s[1..]))
    else if s[0] == 'n' then Some((0x0A as char, s[1..]))
    else if s[0] == 'r' then Some((0x0D as char, s[1..]))
    else if s[0] == 't' then Some((0x09 as char, s[1..]))
    else if s[0] == 'u' && |s| >= 5 && IsHexChar(s[1]) && IsHexChar(s[2]) && IsHexChar(s[3]) && IsHexChar(s[4]) then
      var code := 4096 * HexValue(s[1]) + 256 * HexValue(s[2]) + 16 * HexValue(s[3]) + HexValue(s[4]);
      if 0xD800 <= code < 0xE000 then None else Some((code as char, s[5..]))
    else None
  }

  /** The characters of a string literal up to its closing quote, and what follows it. */
  function ParseStringBody(s: string): (r: Option<(string, string)>)
    ensures r.Some? ==> |r.value.1| < |s|
  {
    if |s| == 0 then None
    else if s[0] == '"' then Some(("", s[1..]))
    else if s[0] == '\\' then
      match ParseEscape(s[1..])
      case None => None
      case Some((c, rest)) =>
        match ParseStringBody(rest)
        case None => None
        case Some((t, r)) => Some(([c] + t, r))
    else if (s[0] as int) < 0x20 then None
    else
      match ParseStringBody(s[1..])
      case None => None
      case Some((t, r)) => Some(([s[0]] + t, r))
  }

  /** The number of decimal digits at the start of `s`. */
  function DigitRun(s: string): (k: nat)
    ensures k <= |s|
  {
    if |s| == 0 || !IsDigit(s[0]) then 0 else 1 + DigitRun(s[1..])
  }

  function DigitsValue(d: string): nat
    requires forall i :: 0 <= i < |d| ==> IsDigit(d[i])
  {
    if |d| == 0 then 0
    else
      var last := d[|d| - 1];
      assert IsDigit(last);
      10 * DigitsValue(d[..|d| - 1]) + ((last as int) - ('0' as int))
  }

  lemma DigitRunDigits(s: string)
    ensures forall i :: 0 <= i < DigitRun(s) ==> IsDigit(s[i])
  {
    if |s| > 0 && IsDigit(s[0]) {
      DigitRunDigits(s[1..]);
    }
  }

  /** A natural number without leading zeros ("0" alone is zero). */
  function ParseNat(s: string): (r: Option<(nat, string)>)
    ensures r.Some? ==> |r.value.1| < |s|
  {
    if |s| == 0 || !IsDigit(s[0]) then None
    else if s[0] == '0' then Some((0, s[1..]))
    else
      var k := DigitRun(s);
      DigitRunDigits(s);
      Some((DigitsValue(s[..k]), s[k..]))
  }

  function ParseNumber(s: string): (r: Option<(Json, string)>)
    ensures r.Some? ==> |r.value.1| < |s|
  {
    if |s| > 0 && s[0] == '-' then
      match ParseNat(s[1..])
      case None => None
      case Some((n, r)) => Some((JNum(-(n as int)), r))
    else
      match ParseNat(s)
      case None => None
      case Some((n, r)) => Some((JNum(n), r))
  }

  /** One JSON value at the start of `s`, and the text after it. */
  function ParseValue(s: string): (r: Option<(Json, string)>)
    decreases |s|, 0
    ensures r.Some? ==> |r.value.1| < |s|
  {
    if |s| == 0 then None
    else if s[0] == 'n' then (if |s| >= 4 && s[..4] == "null" then Some((JNull, s[4..])) else None)
    else if s[0] == 't' then (if |s| >= 4 && s[..4] == "true" then Some((JBool(true), s[4..])) else None)
    else if s[0] == 'f' then (if |s| >= 5 && s[..5] == "false" then Some((JBool(false), s[5..])) else None)
    else if s[0] == '"' then
      match ParseStringBody(s[1..])
      case None => None
      case Some((t, r)) => Some((JStr(t), r))
    else if s[0] == '[' then
      if |s| >= 2 && s[1] == ']' then Some((JArr([]), s[2..]))
      else
        match ParseElements(s[1..])
        case None => None
        case Some((es, r)) => Some((JArr(es), r))
    else if s[0] == '{' then
      if |s| >= 2 && s[1] == '}' then Some((JObj([]), s[2..]))
      else
        match ParseMembers(s[1..])
        case None => None
        case Some((ms, r)) => Some((JObj(ms), r))
    else if s[0] == '-' || IsDigit(s[0]) then ParseNumber(s)
    else None
  }

  /** The elements of a non-empty array and the text after its closing bracket. */
  function ParseElements(s: string): (r: Option<(seq<Json>, string)>)
    decreases |s|, 1
    ensures r.Some? ==> |r.value.1| < |s|
  {
    match ParseValue(s)
    case None => None
    case Some((v, r)) =>
      if |r| == 0 then None
      else if r[0] == ']' then Some(([v], r[1..]))
      else if r[0] == ',' then
        match ParseElements(r[1..])
        case None => None
        case Some((vs, r2)) => Some(([v] + vs, r2))
      else None
  }

  /** The members of a non-empty object and the text after its closing brace. */
  function ParseMembers(s: string): (r: Option<(seq<(string, Json)>, string)>)
    decreases |s|, 1
    ensures r.Some? ==> |r.value.1| < |s|
  {
    if |s| == 0 || s[0] != '"' then None
    else
      match ParseStringBody(s[1..])
      case None => None
      case Some((k, r)) =>
        if |r| == 0 || r[0] != ':' then None
        else
          match ParseValue(r[1..])
          case None => None
          case Some((v, r2)) =>
            if |r2| == 0 then None
            else if r2[0] == '}' then Some(([(k, v)], r2[1..]))
            else if r2[0] == ',' then
              match ParseMembers(r2[1..])
              case None => None
              case Some((ms, r3)) => Some(([(k, v)] + ms, r3))
            else None
  }

  /** `JSON.parse(text)`: one value and nothing after it, or a SyntaxError (None). */
  function ParseJson(text: string): Option<Json>
  {
    match ParseValue(text)
    case Some((v, rest)) => if rest == "" then Some(v) else None
    case None => None
  }


  // ---------------------------------------------------------------------
  // Round trip
  // ---------------------------------------------------------------------

  /** Text that may follow a printed value: it cannot extend a number. */
  predicate Delimited(rest: string)
  {
    rest == [] || !IsDigit(rest[0])
  }

  /** Parsing the text of `v` followed by any delimited text gives `v` and stops right after it. */
  ghost predicate RoundTrips(v: Json)
  {
    forall rest :: Delimited(rest) ==> ParseValue(Print(v) + rest) == Some((v, rest))
  }

  lemma HexDigitValue(d: nat)
    requires d < 16
    ensures IsHexChar(HexDigit(d)) && HexValue(HexDigit(d)) == d
  {
  }

  /** A two-character escape (`\"`, `\\`, `\b`, `\t`, `\n`, `\f`, `\r`) reads back as its character. */
  lemma ShortEscapeParses(c: char, tail: string)
    requires c == '"' || c == '\\' || c as int in {0x08, 0x09, 0x0A, 0x0C, 0x0D}
    ensures |EscapeChar(c)| == 2 && EscapeChar(c)[0] == '\\'
    ensures ParseEscape(EscapeChar(c)[1..] + tail) == Some((c, tail))
  {
    var t := EscapeChar(c)[1..] + tail;
    assert t[1..] == tail;
  }

  /** How `EscapeChar` writes a control character that has no two-character escape. */
  lemma ControlEscapeShape(c: char)
    requires (c as int) < 0x20 && !(c as int in {0x08, 0x09, 0x0A, 0x0C, 0x0D})
    ensures var n := c as int;
            EscapeChar(c) == ['\\', 'u', '0', '0', HexDigit(n / 16), HexDigit(n % 16)]
  {
  }

  /** A `\u00XX` escape reads back as its character. */
  lemma UnicodeEscapeParses(c: char, tail: string)
    requires (c as int) < 0x20 && !(c as int in {0x08, 0x09, 0x0A, 0x0C, 0x0D})
    ensures |EscapeChar(c)| == 6 && EscapeChar(c)[0] == '\\'
    ensures ParseEscape(EscapeChar(c)[1..] + tail) == Some((c, tail))
  {
    var n := c as int;
    ControlEscapeShape(c);
    var t := EscapeChar(c)[1..] + tail;
    HexDigitValue(n / 16);
    HexDigitValue(n % 16);
    assert t[0] == 'u' && t[1] == '0' && t[2] == '0' && t[3] == HexDigit(n / 16) && t[4] == HexDigit(n % 16);
    assert t[5..] == tail;
  }

  /** How `ParseStringBody` proceeds over a backslash escape. */
  lemma BodyEscapeStep(t: string, c: char, after: string, s: string, r: string)
    requires |t| > 0 && t[0] == '\\' && ParseEscape(t[1..]) == Some((c, after))
    requires ParseStringBody(after) == Some((s, r))
    ensures ParseStringBody(t) == Some(([c] + s, r))
  {
  }

  /** How `ParseStringBody` proceeds over a character written as itself. */
  lemma BodyPlainStep(t: string, s: string, r: string)
    requires |t| > 0 && t[0] != '"' && t[0] != '\\' && (t[0] as int) >= 0x20
    requires ParseStringBody(t[1..]) == Some((s, r))
    ensures ParseStringBody(t) == Some(([t[0]] + s, r))
  {
  }

  /** A character with a two-character escape, in front of a string body. */
  lemma ShortCharParses(c: char, tail: string, s: string, r: string)
    requires c == '"' || c == '\\' || c as int in {0x08, 0x09, 0x0A, 0x0C, 0x0D}
    requires ParseStringBody(tail) == Some((s, r))
    ensures ParseStringBody(EscapeChar(c) + tail) == Some(([c] + s, r))
  {
    var e := EscapeChar(c);
    ShortEscapeParses(c, tail);
    var t := e + tail;
    assert t[0] == e[0];
    assert t[1..] == e[1..] + tail;
    BodyEscapeStep(t, c, tail, s, r);
  }

  /** A control character written as `\u00XX`, in front of a string body. */
  lemma ControlCharParses(c: char, tail: string, s: string, r: string)
    requires (c as int) < 0x20 && !(c as int in {0x08, 0x09, 0x0A, 0x0C, 0x0D})
    requires ParseStringBody(tail) == Some((s, r))
    ensures ParseStringBody(EscapeChar(c) + tail) == Some(([c] + s, r))
  {
    var e := EscapeChar(c);
    UnicodeEscapeParses(c, tail);
    var t := e + tail;
    assert t[0] == e[0];
    assert t[1..] == e[1..] + tail;
    BodyEscapeStep(t, c, tail, s, r);
  }

  /** A character written as itself, in front of a string body. */
  lemma PlainCharParses(c: char, tail: string, s: string, r: string)
    requires c != '"' && c != '\\' && (c as int) >= 0x20
    requires ParseStringBody(tail) == Some((s, r))
    ensures ParseStringBody(EscapeChar(c) + tail) == Some(([c] + s, r))
  {
    assert EscapeChar(c) == [c];
    var t := [c] + tail;
    assert t[0] == c && t[1..] == tail;
    BodyPlainStep(t, s, r);
  }

  /** One escaped character in front of a string body is read back. */
  lemma EscapeCharParses(c: char, tail: string, s: string, r: string)
    requires ParseStringBody(tail) == Some((s, r))
    ensures ParseStringBody(EscapeChar(c) + tail) == Some(([c] + s, r))
  {
    var n := c as int;
    if c == '"' || c == '\\' || n in {0x08, 0x09, 0x0A, 0x0C, 0x0D} {
      ShortCharParses(c, tail, s, r);
    } else if n < 0x20 {
      ControlCharParses(c, tail, s, r);
    } else {
      PlainCharParses(c, tail, s, r);
    }
  }

  lemma {:induction false} EscapeParses(s: string, rest: string)
    ensures ParseStringBody(Escape(s) + "\"" + rest) == Some((s, rest))
  {
    if |s| == 0 {
      assert Escape(s) + "\"" + rest == "\"" + rest;
      assert ("\"" + rest)[1..] == rest;
    } else {
      var tail := Escape(s[1..]) + "\"" + rest;
      assert Escape(s) + "\"" + rest == EscapeChar(s[0]) + tail;
      EscapeParses(s[1..], rest);
      EscapeCharParses(s[0], tail, s[1..], rest);
      assert [s[0]] + s[1..] == s;
    }
  }

  lemma QuoteParses(s: string, rest: string)
    ensures ParseValue(Quote(s) + rest) == Some((JStr(s), rest))
  {
    var t := Quote(s) + rest;
    assert t[0] == '"';
    assert t[1..] == Escape(s) + "\"" + rest;
    EscapeParses(s, rest);
  }

  lemma {:induction false} DigitRunOfDigits(d: string, rest: string)
    requires forall i :: 0 <= i < |d| ==> IsDigit(d[i])
    requires Delimited(rest)
    ensures DigitRun(d + rest) == |d|
  {
    if |d| == 0 {
      assert d + rest == rest;
    } else {
      assert (d + rest)[1..] == d[1..] + rest;
      DigitRunOfDigits(d[1..], rest);
    }
  }

  lemma {:induction false} DigitsValueOf(n: nat)
    ensures DigitsValue(NatToString(n)) == n
  {
    if n >= 10 {
      var d := NatToString(n);
      assert d[..|d| - 1] == NatToString(n / 10);
      DigitsValueOf(n / 10);
    }
  }

  lemma NatParses(n: nat, rest: string)
    requires Delimited(rest)
    ensures ParseNat(NatToString(n) + rest) == Some((n, rest))
  {
    var d := NatToString(n);
    var t := d + rest;
    if n == 0 {
      assert t[0] == '0' && t[1..] == rest;
    } else {
      DigitRunOfDigits(d, rest);
      assert t[..|d|] == d;
      assert t[|d|..] == rest;
      DigitsValueOf(n);
    }
  }

  /** A text that starts like a number is parsed as one. */
  lemma ParseValueNumber(s: string)
    requires |s| > 0 && (s[0] == '-' || IsDigit(s[0]))
    ensures ParseValue(s) == ParseNumber(s)
  {
  }

  lemma NegativeParses(n: nat, rest: string)
    requires Delimited(rest)
    ensures ParseNumber("-" + NatToString(n) + rest) == Some((JNum(-(n as int)), rest))
  {
    var t := "-" + NatToString(n) + rest;
    assert t[1..] == NatToString(n) + rest;
    NatParses(n, rest);
  }

  lemma NonNegativeParses(n: nat, rest: string)
    requires Delimited(rest)
    ensures ParseNumber(NatToString(n) + rest) == Some((JNum(n), rest))
  {
    var t := NatToString(n) + rest;
    assert t[0] == NatToString(n)[0];
    assert t[0] != '-';
    NatParses(n, rest);
  }

  lemma IntParsesA(n: int, rest: string)
    requires Delimited(rest)
    ensures ParseNumber(IntToString(n) + rest) == Some((JNum(n), rest))
  {
    if n < 0 {
      var d := NatToString(-n);
      assert IntToString(n) == "-" + d;
      NegativeParses(-n, rest);
    } else {
      assert IntToString(n) == NatToString(n);
      NonNegativeParses(n, rest);
    }
  }

  lemma IntParses(n: int, rest: string)
    requires Delimited(rest)
    ensures ParseValue(IntToString(n) + rest) == Some((JNum(n), rest))
  {
    IntParsesA(n, rest);
    var t := IntToString(n) + rest;
    assert |t| > 0 && (t[0] == '-' || IsDigit(t[0])) by {
      if n >= 0 { assert t[0] == NatToString(n)[0]; }
    }
    ParseValueNumber(t);
  }

  /** A value that round-trips reads back in front of any delimited text. */
  lemma UseRoundTrip(v: Json, rest: string)
    requires RoundTrips(v) && Delimited(rest)
    ensures ParseValue(Print(v) + rest) == Some((v, rest))
  {
  }

  /** How `ParseElements` proceeds once a value has been read. */
  lemma ElementsStep(s: string, v: Json, after: string)
    requires ParseValue(s) == Some((v, after))
    requires |after| > 0 && (after[0] == ']' || after[0] == ',')
    ensures after[0] == ']' ==> ParseElements(s) == Some(([v], after[1..]))
    ensures after[0] == ',' ==>
              ParseElements(s) ==
              match ParseElements(after[1..])
              case None => None
              case Some((vs, r2)) => Some(([v] + vs, r2))
  {
  }

  /** The text of a non-empty element list: its first element is read, then the rest. */
  lemma ElementsFront(es: seq<Json>, rest: string)
    requires |es| > 0 && RoundTrips(es[0])
    ensures |es| == 1 ==> ParseElements(Join(ElementTexts(es), ",") + "]" + rest) == Some((es, rest))
    ensures |es| > 1 ==>
              ParseElements(Join(ElementTexts(es), ",") + "]" + rest) ==
              match ParseElements(Join(ElementTexts(es[1..]), ",") + "]" + rest)
              case None => None
              case Some((tl, r2)) => Some(([es[0]] + tl, r2))
  {
    var ts := ElementTexts(es);
    if |es| == 1 {
      var after := "]" + rest;
      assert Join(ts, ",") + "]" + rest == Print(es[0]) + after;
      UseRoundTrip(es[0], after);
      ElementsStep(Print(es[0]) + after, es[0], after);
      assert after[1..] == rest;
      assert [es[0]] == es;
    } else {
      var tail := Join(ts[1..], ",") + "]" + rest;
      var after := "," + tail;
      assert Join(ts, ",") + "]" + rest == Print(es[0]) + after;
      UseRoundTrip(es[0], after);
      ElementsStep(Print(es[0]) + after, es[0], after);
      assert after[1..] == tail;
      assert ts[1..] == ElementTexts(es[1..]);
    }
  }

  lemma {:induction false} ElementsParse(es: seq<Json>, rest: string)
    requires |es| > 0
    requires forall i :: 0 <= i < |es| ==> RoundTrips(es[i])
    ensures ParseElements(Join(ElementTexts(es), ",") + "]" + rest) == Some((es, rest))
  {
    ElementsFront(es, rest);
    if |es| > 1 {
      assert forall i :: 0 <= i < |es[1..]| ==> es[1..][i] == es[i + 1];
      ElementsParse(es[1..], rest);
      assert [es[0]] + es[1..] == es;
    }
  }

  /** The key of a member is read back up to its closing quote. */
  lemma KeyParses(k: string, u: string)
    ensures |Quote(k) + u| > 0 && (Quote(k) + u)[0] == '"'
    ensures ParseStringBody((Quote(k) + u)[1..]) == Some((k, u))
  {
    var t := Quote(k) + u;
    assert t[1..] == Escape(k) + "\"" + u;
    EscapeParses(k, u);
  }

  /** How `ParseMembers` proceeds once a key and its value have been read. */
  lemma MembersStep(s: string, k: string, u: string, v: Json, after: string)
    requires |s| > 0 && s[0] == '"' && ParseStringBody(s[1..]) == Some((k, u))
    requires |u| > 0 && u[0] == ':' && ParseValue(u[1..]) == Some((v, after))
    requires |after| > 0 && (after[0] == '}' || after[0] == ',')
    ensures after[0] == '}' ==> ParseMembers(s) == Some(([(k, v)], after[1..]))
    ensures after[0] == ',' ==>
              ParseMembers(s) ==
              match ParseMembers(after[1..])
              case None => None
              case Some((ms, r3)) => Some(([(k, v)] + ms, r3))
  {
  }

  /** One `"key":value` text followed by a separator or the closing brace. */
  lemma MemberParses(k: string, v: Json, after: string)
    requires ParseValue(Print(v) + after) == Some((v, after))
    requires |after| > 0 && (after[0] == '}' || after[0] == ',')
    ensures after[0] == '}' ==> ParseMembers(Quote(k) + ":" + Print(v) + after) == Some(([(k, v)], after[1..]))
    ensures after[0] == ',' ==>
              ParseMembers(Quote(k) + ":" + Print(v) + after) ==
              match ParseMembers(after[1..])
              case None => None
              case Some((ms, r3)) => Some(([(k, v)] + ms, r3))
  {
    var pv := Print(v) + after;
    var u := ":" + pv;
    assert Quote(k) + ":" + Print(v) + after == Quote(k) + u;
    assert u[1..] == pv;
    KeyParses(k, u);
    MembersStep(Quote(k) + u, k, u, v, after);
  }

  lemma TextShape(q: string, p: string, j: string, rest: string)
    ensures q + ":" + p + "," + j + "}" + rest == q + ":" + p + ("," + (j + "}" + rest))
  {
  }

  /** The text of a non-empty member list: its first member is read, then the rest. */
  lemma MembersFront(ms: seq<(string, Json)>, rest: string)
    requires |ms| > 0 && RoundTrips(ms[0].1)
    ensures |ms| == 1 ==> ParseMembers(Join(MemberTexts(ms), ",") + "}" + rest) == Some((ms, rest))
    ensures |ms| > 1 ==>
              ParseMembers(Join(MemberTexts(ms), ",") + "}" + rest) ==
              match ParseMembers(Join(MemberTexts(ms[1..]), ",") + "}" + rest)
              case None => None
              case Some((tl, r3)) => Some(([ms[0]] + tl, r3))
  {
    var ts := MemberTexts(ms);
    var k := ms[0].0;
    var v := ms[0].1;
    if |ms| == 1 {
      var after := "}" + rest;
      assert Join(ts, ",") + "}" + rest == Quote(k) + ":" + Print(v) + after;
      assert Delimited(after);
      MemberParses(k, v, after);
      assert after[1..] == rest;
      assert [(k, v)] == ms;
    } else {
      var tail := Join(ts[1..], ",") + "}" + rest;
      var after := "," + tail;
      TextShape(Quote(k), Print(v), Join(ts[1..], ","), rest);
      assert Delimited(after);
      MemberParses(k, v, after);
      assert after[1..] == tail;
      assert ts[1..] == MemberTexts(ms[1..]);
    }
  }

  lemma {:induction false} MembersParse(ms: seq<(string, Json)>, rest: string)
    requires |ms| > 0
    requires forall i :: 0 <= i < |ms| ==> RoundTrips(ms[i].1)
    ensures ParseMembers(Join(MemberTexts(ms), ",") + "}" + rest) == Some((ms, rest))
  {
    MembersFront(ms, rest);
    if |ms| > 1 {
      assert forall i :: 0 <= i < |ms[1..]| ==> ms[1..][i] == ms[i + 1];
      MembersParse(ms[1..], rest);
      assert [ms[0]] + ms[1..] == ms;
    }
  }

  /** No printed value starts with a closing bracket. */
  lemma PrintStart(v: Json)
    ensures |Print(v)| > 0 && Print(v)[0] != ']'
  {
    if v.JNum? && v.n >= 0 {
      assert IsDigit(NatToString(v.n)[0]);
    }
  }

  lemma JoinHead(ts: seq<string>)
    requires |ts| > 0 && |ts[0]| > 0
    ensures |Join(ts, ",")| > 0 && Join(ts, ",")[0] == ts[0][0]
  {
  }

  /** How `ParseValue` reads a non-empty array. */
  lemma ValueArrayStep(t: string, es: seq<Json>, rest: string)
    requires |t| >= 2 && t[0] == '[' && t[1] != ']'
    requires ParseElements(t[1..]) == Some((es, rest))
    ensures ParseValue(t) == Some((JArr(es), rest))
  {
  }

  /** How `ParseValue` reads a non-empty object. */
  lemma ValueObjectStep(t: string, ms: seq<(string, Json)>, rest: string)
    requires |t| >= 2 && t[0] == '{' && t[1] != '}'
    requires ParseMembers(t[1..]) == Some((ms, rest))
    ensures ParseValue(t) == Some((JObj(ms), rest))
  {
  }

  /** The brackets around an element list whose text reads back. */
  lemma ArrayShell(es: seq<Json>, rest: string)
    requires |es| > 0
    requires ParseElements(Join(ElementTexts(es), ",") + "]" + rest) == Some((es, rest))
    ensures ParseValue(Print(JArr(es)) + rest) == Some((JArr(es), rest))
  {
    PrintArray(es);
    var ts := ElementTexts(es);
    var body := Join(ts, ",") + "]" + rest;
    var t := "[" + body;
    assert Print(JArr(es)) + rest == t;
    assert t[1..] == body;
    PrintStart(es[0]);
    JoinHead(ts);
    assert t[1] == body[0];
    ValueArrayStep(t, es, rest);
  }

  /** The braces around a member list whose text reads back. */
  lemma ObjectShell(ms: seq<(string, Json)>, rest: string)
    requires |ms| > 0
    requires ParseMembers(Join(MemberTexts(ms), ",") + "}" + rest) == Some((ms, rest))
    ensures ParseValue(Print(JObj(ms)) + rest) == Some((JObj(ms), rest))
  {
    PrintObject(ms);
    var ts := MemberTexts(ms);
    var body := Join(ts, ",") + "}" + rest;
    var t := "{" + body;
    assert Print(JObj(ms)) + rest == t;
    assert t[1..] == body;
    JoinHead(ts);
    assert t[1] == body[0];
    ValueObjectStep(t, ms, rest);
  }

  lemma EmptyArrayParses(rest: string)
    ensures ParseValue(Print(JArr([])) + rest) == Some((JArr([]), rest))
  {
    PrintArray([]);
    var t := Print(JArr([])) + rest;
    assert t == "[]" + rest;
    assert t[2..] == rest;
  }

  lemma EmptyObjectParses(rest: string)
    ensures ParseValue(Print(JObj([])) + rest) == Some((JObj([]), rest))
  {
    PrintObject([]);
    var t := Print(JObj([])) + rest;
    assert t == "{}" + rest;
    assert t[2..] == rest;
  }

  lemma ArrayParses(es: seq<Json>, rest: string)
    requires forall i :: 0 <= i < |es| ==> RoundTrips(es[i])
    requires Delimited(rest)
    ensures ParseValue(Print(JArr(es)) + rest) == Some((JArr(es), rest))
  {
    if |es| == 0 {
      EmptyArrayParses(rest);
    } else {
      ElementsParse(es, rest);
      ArrayShell(es, rest);
    }
  }

  lemma ObjectParses(ms: seq<(string, Json)>, rest: string)
    requires forall i :: 0 <= i < |ms| ==> RoundTrips(ms[i].1)
    requires Delimited(rest)
    ensures ParseValue(Print(JObj(ms)) + rest) == Some((JObj(ms), rest))
  {
    if |ms| == 0 {
      EmptyObjectParses(rest);
    } else {
      MembersParse(ms, rest);
      ObjectShell(ms, rest);
    }
  }

  /** Every value reads back from its text, whatever delimited text follows. */
  lemma {:induction false} PrintParses(v: Json)
    ensures RoundTrips(v)
  {
    forall rest | Delimited(rest)
      ensures ParseValue(Print(v) + rest) == Some((v, rest))
    {
      match v
      case JNull =>
        assert (Print(v) + rest)[..4] == "null";
      case JBool(b) =>
        if b {
          assert (Print(v) + rest)[..4] == "true";
        } else {
          assert (Print(v) + rest)[..5] == "false";
        }
      case JNum(n) =>
        IntParses(n, rest);
      case JStr(s) =>
        QuoteParses(s, rest);
      case JArr(es) =>
        forall i | 0 <= i < |es| ensures RoundTrips(es[i]) {
          PrintParses(es[i]);
        }
        ArrayParses(es, rest);
      case JObj(ms) =>
        forall i | 0 <= i < |ms| ensures RoundTrips(ms[i].1) {
          PrintParses(ms[i].1);
        }
        ObjectParses(ms, rest);
    }
  }

  /** `try { return JSON.parse(item); } catch (e) { return item; }` */
  function ParseBack(t: string): (v: Json)
    ensures ParseJson(t).Some? ==> v == ParseJson(t).value
    ensures ParseJson(t).None? ==> v == JStr(t)
  {
    match ParseJson(t)
    case Some(x) => x
    case None => JStr(t)
  }

  /** `JSON.parse(JSON.stringify(v))` gives `v` back. */
  lemma {:induction false} RoundTrip(v: Json)
    ensures ParseJson(Print(v)) == Some(v)
  {
    PrintParses(v);
    assert Delimited("");
    assert Print(v) + "" == Print(v);
  }

  /** Distinct values have distinct JSON texts. */
  lemma {:induction false} PrintInjective(a: Json, b: Json)
    ensures Print(a) == Print(b) ==> a == b
  {
    RoundTrip(a);
    RoundTrip(b);
  }

  /** Parsing back a printed value never reaches the `catch`: it yields the value. */
  lemma ParseBackPrint(v: Json)
    ensures ParseBack(Print(v)) == v
  {
    RoundTrip(v);
  }
}
