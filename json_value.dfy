/**
 * JavaScript values as JSON carries them, and the few JavaScript built-ins the
 * hashing pipeline applies to them: truthiness, `String(v)`, property lookup
 * and decimal number formatting.
 */
module JsonValue {

  datatype Option<+T> = None | Some(value: T)

  /** A thrown JavaScript error: its `name` ("TypeError", "Error", ...) and message. */
  datatype JsError = JsError(name: string, message: string)
  {
    /** `error.toString()` */
    function ToString(): string { name + ": " + message }
  }

  /** Either the value an operation returns or the error it throws. */
  datatype Result<+T> = Ok(value: T) | Thrown(error: JsError)

  /**
   * A JavaScript value reachable by JSON. Numbers are integers; an object is
   * the list of its own enumerable properties in insertion order, and a
   * JavaScript object never holds the same key twice.
   */
  datatype Json =
    | JNull
    | JBool(b: bool)
    | JNum(n: int)
    | JStr(s: string)
    | JArr(elems: seq<Json>)
    | JObj(members: seq<(string, Json)>)
  {
    /** `typeof v === 'object'`, which is true of null as well. */
    predicate IsTypeofObject() { JNull? || JArr? || JObj? }

    /** `v !== null && typeof v === 'object'` */
    predicate IsComposite() { JArr? || JObj? }

    /** JavaScript truthiness: null, false, 0 and "" are falsy. */
    predicate Truthy()
    {
      match this
      case JNull => false
      case JBool(b) => b
      case JNum(n) => n != 0
      case JStr(s) => s != ""
      case _ => true
    }
  }

  function DigitChar(d: nat): (c: char)
    requires d < 10
    ensures '0' <= c <= '9' && (c as int) - ('0' as int) == d
  {
    "0123456789"[d]
  }

  predicate IsDigit(c: char) { '0' <= c <= '9' }

  /** The decimal digits of `n`, without leading zeros. */
  function NatToString(n: nat): (s: string)
    ensures |s| >= 1 && forall i :: 0 <= i < |s| ==> IsDigit(s[i])
    ensures s[0] == '0' <==> n == 0
    ensures n == 0 ==> s == "0"
  {
    if n < 10 then [DigitChar(n)] else NatToString(n / 10) + [DigitChar(n % 10)]
  }

  /** `String(n)` for an integer-valued number. */
  function IntToString(i: int): string
  {
    if i < 0 then "-" + NatToString(-i) else NatToString(i)
  }

  /** `ts.join(sep)` */
  function Join(ts: seq<string>, sep: string): string
  {
    if |ts| == 0 then "" else if |ts| == 1 then ts[0] else ts[0] + sep + Join(ts[1..], sep)
  }

  /**
   * `String(v)`: an array is the comma-join of its elements, with null
   * elements as the empty string; every object is "[object Object]".
   */
  function ToStr(v: Json): string
  {
    match v
    case JNull => "null"
    case JBool(b) => if b then "true" else "false"
    case JNum(n) => IntToString(n)
    case JStr(s) => s
    case JArr(es) => Join(seq(|es|, i requires 0 <= i < |es| => if es[i].JNull? then "" else ToStr(es[i])), ",")
    case JObj(_) => "[object Object]"
  }

  /** The value stored under `key` in the members of an object, if any. */
  function Lookup(ms: seq<(string, Json)>, key: string): (r: Option<Json>)
    ensures r.Some? <==> exists i :: 0 <= i < |ms| && ms[i].0 == key
    ensures r.Some? ==> exists i :: 0 <= i < |ms| && ms[i] == (key, r.value)
  {
    if |ms| == 0 then None
    else if ms[0].0 == key then Some(ms[0].1)
    else
      var r := Lookup(ms[1..], key);
      assert forall i :: 1 <= i < |ms| ==> ms[i] == ms[1..][i - 1];
      r
  }

  /**
   * `v[key]` for a value that is not null: only an object has the
   * properties this pipeline reads, so every other value yields `undefined`.
   */
  function Get(v: Json, key: string): Option<Json>
  {
    if v.JObj? then Lookup(v.members, key) else None
  }

  /** `v[key] || dflt` */
  function GetOr(v: Json, key: string, dflt: Json): (r: Json)
    ensures Get(v, key).Some? && Get(v, key).value.Truthy() ==> r == Get(v, key).value
    ensures Get(v, key).None? || !Get(v, key).value.Truthy() ==> r == dflt
  {
    match Get(v, key)
    case Some(x) => if x.Truthy() then x else dflt
    case None => dflt
  }

  /** The largest element of `s`, or 0 for the empty sequence. */
  function MaxOf(s: seq<nat>): (m: nat)
    ensures forall i :: 0 <= i < |s| ==> s[i] <= m
    ensures m == 0 || exists i :: 0 <= i < |s| && s[i] == m
  {
    if |s| == 0 then 0
    else
      var m := MaxOf(s[1..]);
      assert forall i :: 1 <= i < |s| ==> s[i] == s[1..][i - 1];
      if s[0] > m then s[0] else m
  }

  /** Nesting depth: the measure that recursion over re-built values decreases. */
  function Depth(v: Json): nat
  {
    match v
    case JArr(es) => 1 + MaxOf(seq(|es|, i requires 0 <= i < |es| => Depth(es[i])))
    case JObj(ms) => 1 + MaxOf(seq(|ms|, i requires 0 <= i < |ms| => Depth(ms[i].1)))
    case _ => 0
  }

  lemma ElementShallower(es: seq<Json>)
    ensures forall e :: e in es ==> Depth(e) < Depth(JArr(es))
  {
    var ds := seq(|es|, i requires 0 <= i < |es| => Depth(es[i]));
    forall e | e in es ensures Depth(e) < Depth(JArr(es)) {
      var i :| 0 <= i < |es| && es[i] == e;
      assert ds[i] <= MaxOf(ds);
    }
  }

  lemma MemberShallower(ms: seq<(string, Json)>)
    ensures forall m :: m in ms ==> Depth(m.1) < Depth(JObj(ms))
  {
    var ds := seq(|ms|, i requires 0 <= i < |ms| => Depth(ms[i].1));
    forall m | m in ms ensures Depth(m.1) < Depth(JObj(ms)) {
      var i :| 0 <= i < |ms| && ms[i] == m;
      assert ds[i] <= MaxOf(ds);
    }
  }

  /** An array whose elements are all shallower than `d` is at most `d` deep. */
  lemma ArrayDepthBound(es: seq<Json>, d: nat)
    requires d >= 1
    requires forall e :: e in es ==> Depth(e) < d
    ensures Depth(JArr(es)) <= d
  {
    var ds := seq(|es|, i requires 0 <= i < |es| => Depth(es[i]));
    if MaxOf(ds) != 0 {
      var i :| 0 <= i < |ds| && ds[i] == MaxOf(ds);
      assert es[i] in es;
    }
  }

  /** An object whose member values are all shallower than `d` is at most `d` deep. */
  lemma ObjectDepthBound(ms: seq<(string, Json)>, d: nat)
    requires d >= 1
    requires forall m :: m in ms ==> Depth(m.1) < d
    ensures Depth(JObj(ms)) <= d
  {
    var ds := seq(|ms|, i requires 0 <= i < |ms| => Depth(ms[i].1));
    if MaxOf(ds) != 0 {
      var i :| 0 <= i < |ds| && ds[i] == MaxOf(ds);
      assert ms[i] in ms;
    }
  }

  /** The keys of an object, in insertion order. */
  function Keys(ms: seq<(string, Json)>): (ks: seq<string>)
    ensures |ks| == |ms| && forall i :: 0 <= i < |ms| ==> ks[i] == ms[i].0
  {
    seq(|ms|, i requires 0 <= i < |ms| => ms[i].0)
  }

  /** No key occurs twice among the members, as in every JavaScript object. */
  predicate DistinctKeys(ms: seq<(string, Json)>)
  {
    forall i, j :: 0 <= i < j < |ms| ==> ms[i].0 != ms[j].0
  }

  // ---------------------------------------------------------------------
  // Positions inside a value
  // ---------------------------------------------------------------------

  /** The value at `path` inside `v`: each step picks an array element or an object member by position. */
  function At(v: Json, path: seq<nat>): Option<Json>
  {
    if |path| == 0 then Some(v)
    else
      match v
      case JArr(es) => if path[0] < |es| then At(es[path[0]], path[1..]) else None
      case JObj(ms) => if path[0] < |ms| then At(ms[path[0]].1, path[1..]) else None
      case _ => None
  }

  /** `v` with the value at `path` replaced by `x`; everything else stays where it was. */
  function Replace(v: Json, path: seq<nat>, x: Json): Json
  {
    if |path| == 0 then x
    else
      match v
      case JArr(es) =>
        if path[0] < |es| then JArr(es[path[0] := Replace(es[path[0]], path[1..], x)]) else v
      case JObj(ms) =>
        if path[0] < |ms| then JObj(ms[path[0] := (ms[path[0]].0, Replace(ms[path[0]].1, path[1..], x))]) else v
      case _ => v
  }

  /** After a replacement the new value is found at the path. */
  lemma {:induction false} AtReplace(v: Json, path: seq<nat>, x: Json)
    requires At(v, path).Some?
    ensures At(Replace(v, path, x), path) == Some(x)
  {
    if |path| > 0 {
      match v
      case JArr(es) => AtReplace(es[path[0]], path[1..], x);
      case JObj(ms) => AtReplace(ms[path[0]].1, path[1..], x);
    }
  }
}
