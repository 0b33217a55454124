/**
 * The text `JSON.stringify(v)` produces with no replacer: string quoting as
 * ECMAScript's QuoteJSONString defines it, integers in decimal, no
 * insignificant whitespace.
 */
module JsonText {
  import opened JsonValue

  function HexDigit(d: nat): (c: char)
    requires d < 16
  {
    "0123456789abcdef"[d]
  }

  /** The escape JSON.stringify writes for one character of a string. */
  function EscapeChar(c: char): string
  {
    var n := c as int;
    if c == '"' then "\\\""
    else if c == '\\' then "\\\\"
    else if n == 0x08 then "\\b"
    else if n == 0x09 then "\\t"
    else if n == 0x0A then "\\n"
    else if n == 0x0C then "\\f"
    else if n == 0x0D then "\\r"
    else if n < 0x20 then "\\u00" + [HexDigit(n / 16), HexDigit(n % 16)]
    else [c]
  }

  function Escape(s: string): string
  {
    if |s| == 0 then "" else EscapeChar(s[0]) + Escape(s[1..])
  }

  /** A string literal: the escaped characters between double quotes. */
  function Quote(s: string): string
  {
    "\"" + Escape(s) + "\""
  }

  /** `JSON.stringify(v)` */
  function Print(v: Json): string
  {
    match v
    case JNull => "null"
    case JBool(b) => if b then "true" else "false"
    case JNum(n) => IntToString(n)
    case JStr(s) => Quote(s)
    case JArr(es) => "[" + Join(seq(|es|, i requires 0 <= i < |es| => Print(es[i])), ",") + "]"
    case JObj(ms) => "{" + Join(seq(|ms|, i requires 0 <= i < |ms| => Quote(ms[i].0) + ":" + Print(ms[i].1)), ",") + "}"
  }

  /** The texts of the elements of an array, in order. */
  function ElementTexts(es: seq<Json>): (ts: seq<string>)
    ensures |ts| == |es| && forall i :: 0 <= i < |es| ==> ts[i] == Print(es[i])
  {
    seq(|es|, i requires 0 <= i < |es| => Print(es[i]))
  }

  /** The `"key":value` texts of the members of an object, in order. */
  function MemberTexts(ms: seq<(string, Json)>): (ts: seq<string>)
    ensures |ts| == |ms| && forall i :: 0 <= i < |ms| ==> ts[i] == Quote(ms[i].0) + ":" + Print(ms[i].1)
  {
    seq(|ms|, i requires 0 <= i < |ms| => Quote(ms[i].0) + ":" + Print(ms[i].1))
  }

  lemma PrintArray(es: seq<Json>)
    ensures Print(JArr(es)) == "[" + Join(ElementTexts(es), ",") + "]"
  {
    assert ElementTexts(es) == seq(|es|, i requires 0 <= i < |es| => Print(es[i]));
  }

  lemma PrintObject(ms: seq<(string, Json)>)
    ensures Print(JObj(ms)) == "{" + Join(MemberTexts(ms), ",") + "}"
  {
    assert MemberTexts(ms) == seq(|ms|, i requires 0 <= i < |ms| => Quote(ms[i].0) + ":" + Print(ms[i].1));
  }
}
