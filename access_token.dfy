/**
 * `saveAccessToken(accessToken)` in Code.js: a blank token is refused, a
 * token whose trimmed form is not `ak_` followed by sixteen ASCII letters or
 * digits is refused, and anything else is stored trimmed. The document
 * property store is the caller's business here: the result says what would
 * be stored.
 */
module AccessToken {
  import opened JsonValue

  /** The characters `String.prototype.trim` removes: WhiteSpace and LineTerminator. */
  predicate IsJsSpace(c: char)
  {
    ('\U{0009}' <= c <= '\U{000D}') || c == '\U{0020}' || c == '\U{00A0}' || c == '\U{1680}' ||
    ('\U{2000}' <= c <= '\U{200A}') || c == '\U{2028}' || c == '\U{2029}' || c == '\U{202F}' ||
    c == '\U{205F}' || c == '\U{3000}' || c == '\U{FEFF}'
  }

  predicate AllSpace(s: string)
  {
    forall i :: 0 <= i < |s| ==> IsJsSpace(s[i])
  }

  /** Drops leading white space. */
  function TrimStart(s: string): (r: string)
    ensures |r| <= |s| && r == s[|s| - |r|..]
    ensures AllSpace(s[..|s| - |r|])
    ensures r == [] || !IsJsSpace(r[0])
  {
    if |s| > 0 && IsJsSpace(s[0]) then
      var r := TrimStart(s[1..]);
      assert s[..|s| - |r|] == [s[0]] + s[1..][..|s| - 1 - |r|];
      r
    else s
  }

  /** Drops trailing white space. */
  function TrimEnd(s: string): (r: string)
    ensures |r| <= |s| && r == s[..|r|]
    ensures AllSpace(s[|r|..])
    ensures r == [] || !IsJsSpace(r[|r| - 1])
  {
    if |s| > 0 && IsJsSpace(s[|s| - 1]) then
      var r := TrimEnd(s[..|s| - 1]);
      assert s[|r|..] == s[..|s| - 1][|r|..] + [s[|s| - 1]];
      r
    else s
  }

  /** `s.trim()` */
  function Trim(s: string): string
  {
    TrimEnd(TrimStart(s))
  }

  /**
   * `s.trim()` is the one middle part of `s` that is either empty or starts
   * and ends with a character that is not white space, between two runs of
   * white space.
   */
  lemma {:induction false} TrimSplits(s: string)
    ensures exists i, j :: 0 <= i <= j <= |s| && Trim(s) == s[i..j] && AllSpace(s[..i]) && AllSpace(s[j..])
    ensures Trim(s) == [] || (!IsJsSpace(Trim(s)[0]) && !IsJsSpace(Trim(s)[|Trim(s)| - 1]))
  {
    var a := TrimStart(s);
    var m := TrimEnd(a);
    var i := |s| - |a|;
    var j := i + |m|;
    assert m == a[..|m|];
    assert m == s[i..j];
    assert s[j..] == a[|m|..];
    assert AllSpace(s[..i]) && AllSpace(s[j..]);
    if m != [] {
      assert m[0] == a[0];
    }
  }

  /** Trimming ignores white space around the middle part: `(ws1 + m + ws2).trim() == m.trim()`. */
  lemma {:induction false} TrimIgnoresPadding(ws1: string, m: string, ws2: string)
    requires AllSpace(ws1) && AllSpace(ws2)
    ensures Trim(ws1 + m + ws2) == Trim(m)
  {
    if |ws1| > 0 {
      assert (ws1 + m + ws2)[1..] == ws1[1..] + m + ws2;
      TrimIgnoresPadding(ws1[1..], m, ws2);
    } else {
      assert ws1 + m + ws2 == m + ws2;
      TrimStartKeepsEnd(m, ws2);
      TrimEndPadding(TrimStart(m), ws2);
    }
  }

  /** Leading white space is cut from the front only, so a suffix survives it. */
  lemma {:induction false} TrimStartKeepsEnd(m: string, ws2: string)
    requires AllSpace(ws2)
    ensures TrimStart(m + ws2) == TrimStart(m) + ws2 || (TrimStart(m) == [] && TrimStart(m + ws2) == [])
  {
    if |m| > 0 {
      assert (m + ws2)[0] == m[0];
      if IsJsSpace(m[0]) {
        assert (m + ws2)[1..] == m[1..] + ws2;
        TrimStartKeepsEnd(m[1..], ws2);
      }
    } else {
      assert m + ws2 == ws2;
      AllSpaceTrimStart(ws2);
    }
  }

  lemma {:induction false} AllSpaceTrimStart(ws: string)
    requires AllSpace(ws)
    ensures TrimStart(ws) == []
  {
    if |ws| > 0 {
      AllSpaceTrimStart(ws[1..]);
    }
  }

  lemma {:induction false} TrimEndPadding(m: string, ws2: string)
    requires AllSpace(ws2)
    ensures TrimEnd(m + ws2) == TrimEnd(m)
  {
    if |ws2| > 0 {
      var s := m + ws2;
      assert s[..|s| - 1] == m + ws2[..|ws2| - 1];
      TrimEndPadding(m, ws2[..|ws2| - 1]);
    } else {
      assert m + ws2 == m;
    }
  }

  /** Trimming twice is trimming once. */
  lemma TrimIdempotent(s: string)
    ensures Trim(Trim(s)) == Trim(s)
  {
    var m := Trim(s);
    TrimSplits(s);
  }

  /** `[a-zA-Z0-9]` */
  predicate IsAsciiAlnum(c: char)
  {
    ('a' <= c <= 'z') || ('A' <= c <= 'Z') || ('0' <= c <= '9')
  }

  /** `[a-zA-Z0-9]{n}$`, matched one character at a time. */
  function AlnumRun(s: string, n: nat): (b: bool)
    ensures b <==> |s| == n && forall i :: 0 <= i < |s| ==> IsAsciiAlnum(s[i])
  {
    if n == 0 then s == []
    else |s| > 0 && IsAsciiAlnum(s[0]) && AlnumRun(s[1..], n - 1)
  }

  /** `/^ak_[a-zA-Z0-9]{16}$/.test(t)` */
  function TokenPatternTest(t: string): (b: bool)
    ensures b <==> |t| == 19 && t[..3] == "ak_" && forall i :: 3 <= i < 19 ==> IsAsciiAlnum(t[i])
  {
    var ok := |t| >= 3 && t[..3] == "ak_" && AlnumRun(t[3..], 16);
    assert ok ==> forall i :: 3 <= i < |t| ==> t[i] == t[3..][i - 3];
    assert |t| == 19 && t[..3] == "ak_" && (forall i :: 3 <= i < 19 ==> IsAsciiAlnum(t[i])) ==>
      forall i :: 0 <= i < 16 ==> t[3..][i] == t[i + 3];
    ok
  }

  const EmptyTokenError: string := "Access token cannot be empty"
  const FormatError: string := "Invalid access token format. Expected: ak_[16 alphanumeric characters]"

  /** `{ success: true }` after storing `stored`, or `{ success: false, error }`. */
  datatype SaveResult = Saved(stored: string) | Rejected(error: string)

  /** `saveAccessToken(accessToken)` for a string argument, `None` standing for `null` or `undefined`. */
  function SaveAccessToken(token: Option<string>): (r: SaveResult)
    ensures r.Saved? <==> token.Some? && TokenPatternTest(Trim(token.value))
    ensures r.Saved? ==> r.stored == Trim(token.value)
    ensures r.Rejected? && (token.None? || Trim(token.value) == []) ==> r.error == EmptyTokenError
    ensures r.Rejected? && token.Some? && Trim(token.value) != [] ==> r.error == FormatError
  {
    match token
    case None => Rejected(EmptyTokenError)
    case Some(s) =>
      if s == [] || Trim(s) == [] then Rejected(EmptyTokenError)
      else if !TokenPatternTest(Trim(s)) then Rejected(FormatError)
      else Saved(Trim(s))
  }

  /** A token of the accepted shape contains no white space. */
  lemma PatternHasNoSpace(t: string)
    requires TokenPatternTest(t)
    ensures forall i :: 0 <= i < |t| ==> !IsJsSpace(t[i])
  {
    forall i | 0 <= i < |t| ensures !IsJsSpace(t[i]) {
      if i < 3 {
        assert t[i] == t[..3][i];
      } else {
        assert IsAsciiAlnum(t[i]);
      }
    }
  }

  /** A token of the accepted shape is saved exactly as given. */
  lemma PatternSavedAsIs(t: string)
    requires TokenPatternTest(t)
    ensures Trim(t) == t
    ensures SaveAccessToken(Some(t)) == Saved(t)
  {
    PatternHasNoSpace(t);
    assert TrimStart(t) == t;
    assert TrimEnd(t) == t;
  }

  /** A stored token has no white space and is accepted again as it is. */
  lemma StoredTokenStable(s: string)
    requires SaveAccessToken(Some(s)).Saved?
    ensures var t := SaveAccessToken(Some(s)).stored;
            |t| == 19 && (forall i :: 0 <= i < |t| ==> !IsJsSpace(t[i])) &&
            SaveAccessToken(Some(t)) == Saved(t)
  {
    PatternHasNoSpace(Trim(s));
    PatternSavedAsIs(Trim(s));
  }

  /** White space around a token never changes the outcome. */
  lemma PaddingIrrelevant(ws1: string, s: string, ws2: string)
    requires AllSpace(ws1) && AllSpace(ws2)
    ensures SaveAccessToken(Some(ws1 + s + ws2)) == SaveAccessToken(Some(s))
  {
    TrimIgnoresPadding(ws1, s, ws2);
    assert Trim(s) == Trim([] + s + []) by {
      assert [] + s + [] == s;
    }
  }
}
