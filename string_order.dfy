/**
 * The order in which JavaScript compares strings (`a < b`, and the default
 * comparator of `Array.prototype.sort`): lexicographic on UTF-16 code units.
 * Characters here are Unicode scalar values; `Rank` places each one where its
 * first UTF-16 code unit puts it, so comparing ranks character by character
 * orders strings as their code-unit sequences are ordered.
 */
module StringOrder {
  import opened Sorting

  /**
   * The position of a character in UTF-16 code-unit order: characters below
   * U+D800 keep their code, supplementary characters (whose first unit is a
   * surrogate, 0xD800..0xDBFF) come next in code-point order, and characters
   * U+E000..U+FFFF come last.
   */
  function Rank(c: char): (r: int)
    ensures (c as int) < 0xD800 ==> r == c as int
    ensures (c as int) >= 0x10000 ==> r == c as int - 0x10000 + 0xD800
    ensures 0xE000 <= (c as int) < 0x10000 ==> r > 0x10D7FF
    ensures 0xD800 <= r
      <==> (c as int) >= 0xE000
  {
    var n := c as int;
    if n < 0xD800 then n
    else if n < 0x10000 then n + 0x100000
    else n - 0x10000 + 0xD800
  }

  lemma RankInjective(a: char, b: char)
    ensures Rank(a) == Rank(b) ==> a == b
  {
  }

  /** `a <= b` on JavaScript strings. */
  predicate StrLe(a: string, b: string)
  {
    if |a| == 0 then true
    else if |b| == 0 then false
    else if a[0] == b[0] then StrLe(a[1..], b[1..])
    else Rank(a[0]) < Rank(b[0])
  }

  lemma {:induction false} StrLeReflexive(a: string)
    ensures StrLe(a, a)
  {
    if |a| > 0 {
      StrLeReflexive(a[1..]);
    }
  }

  lemma {:induction false} StrLeTotal(a: string, b: string)
    ensures StrLe(a, b) || StrLe(b, a)
  {
    if |a| > 0 && |b| > 0 {
      if a[0] == b[0] {
        StrLeTotal(a[1..], b[1..]);
      } else {
        RankInjective(a[0], b[0]);
      }
    }
  }

  lemma {:induction false} StrLeTransitive(a: string, b: string, c: string)
    requires StrLe(a, b) && StrLe(b, c)
    ensures StrLe(a, c)
  {
    if |a| > 0 && |b| > 0 && |c| > 0 {
      if a[0] == b[0] && b[0] == c[0] {
        StrLeTransitive(a[1..], b[1..], c[1..]);
      } else {
        RankInjective(a[0], c[0]);
      }
    }
  }

  lemma {:induction false} StrLeAntisymmetric(a: string, b: string)
    requires StrLe(a, b) && StrLe(b, a)
    ensures a == b
  {
    if |a| > 0 && |b| > 0 {
      StrLeAntisymmetric(a[1..], b[1..]);
      assert a == [a[0]] + a[1..] && b == [b[0]] + b[1..];
    }
  }

  // ---------------------------------------------------------------------
  // The code-unit order itself
  // ---------------------------------------------------------------------

  /** The UTF-16 code units of one character: a surrogate pair above U+FFFF. */
  function Utf16Char(c: char): (u: seq<int>)
    ensures 1 <= |u| <= 2
  {
    var n := c as int;
    if n < 0x10000 then [n]
    else [0xD800 + (n - 0x10000) / 0x400, 0xDC00 + (n - 0x10000) % 0x400]
  }

  /** The UTF-16 code units of a string. */
  function Utf16(s: string): seq<int>
  {
    if |s| == 0 then [] else Utf16Char(s[0]) + Utf16(s[1..])
  }

  /** Lexicographic order on code units, the order JavaScript compares strings in. */
  predicate UnitsLe(a: seq<int>, b: seq<int>)
  {
    if |a| == 0 then true
    else if |b| == 0 then false
    else if a[0] == b[0] then UnitsLe(a[1..], b[1..])
    else a[0] < b[0]
  }

  /** A surrogate pair: a high surrogate, a low surrogate, and the code point they spell. */
  lemma SurrogatePair(c: char)
    requires (c as int) >= 0x10000
    ensures var u := Utf16Char(c);
            |u| == 2 && 0xD800 <= u[0] < 0xDC00 && 0xDC00 <= u[1] < 0xE000 &&
            c as int == 0x10000 + (u[0] - 0xD800) * 0x400 + (u[1] - 0xDC00)
  {
  }

  lemma {:induction false} UnitsLeCommonPrefix(u: seq<int>, x: seq<int>, y: seq<int>)
    ensures UnitsLe(u + x, u + y) == UnitsLe(x, y)
  {
    if |u| > 0 {
      assert (u + x)[0] == u[0] && (u + y)[0] == u[0];
      assert (u + x)[1..] == u[1..] + x && (u + y)[1..] == u[1..] + y;
      UnitsLeCommonPrefix(u[1..], x, y);
    } else {
      assert u + x == x && u + y == y;
    }
  }

  lemma UnitsLeFirstDiffer(u: seq<int>, v: seq<int>, x: seq<int>, y: seq<int>)
    requires |u| > 0 && |v| > 0 && u[0] != v[0]
    ensures UnitsLe(u + x, v + y) == (u[0] < v[0])
  {
    assert (u + x)[0] == u[0] && (v + y)[0] == v[0];
  }

  lemma UnitsLeSecondDiffer(u: seq<int>, v: seq<int>, x: seq<int>, y: seq<int>)
    requires |u| == 2 && |v| == 2 && u[0] == v[0] && u[1] != v[1]
    ensures UnitsLe(u + x, v + y) == (u[1] < v[1])
  {
    assert (u + x)[0] == u[0] && (v + y)[0] == v[0];
    assert (u + x)[1..] == [u[1]] + x && (v + y)[1..] == [v[1]] + y;
    UnitsLeFirstDiffer([u[1]], [v[1]], x, y);
  }

  /** Two different characters compare by their code units as their ranks compare. */
  lemma CharUnitsOrder(c1: char, c2: char, x: seq<int>, y: seq<int>)
    requires c1 != c2
    ensures UnitsLe(Utf16Char(c1) + x, Utf16Char(c2) + y) == (Rank(c1) < Rank(c2))
  {
    var n1, n2 := c1 as int, c2 as int;
    var u1, u2 := Utf16Char(c1), Utf16Char(c2);
    if n1 >= 0x10000 {
      SurrogatePair(c1);
    }
    if n2 >= 0x10000 {
      SurrogatePair(c2);
    }
    if n1 >= 0x10000 && n2 >= 0x10000 && u1[0] == u2[0] {
      UnitsLeSecondDiffer(u1, u2, x, y);
    } else {
      UnitsLeFirstDiffer(u1, u2, x, y);
    }
  }

  /** `StrLe` is the lexicographic order of the strings' UTF-16 code units. */
  lemma {:induction false} StrLeIsUtf16Order(a: string, b: string)
    ensures StrLe(a, b) <==> UnitsLe(Utf16(a), Utf16(b))
  {
    if |a| == 0 {
      assert Utf16(a) == [];
    } else if |b| == 0 {
      assert Utf16(b) == [];
      assert |Utf16(a)| > 0;
    } else if a[0] == b[0] {
      StrLeIsUtf16Order(a[1..], b[1..]);
      UnitsLeCommonPrefix(Utf16Char(a[0]), Utf16(a[1..]), Utf16(b[1..]));
    } else {
      CharUnitsOrder(a[0], b[0], Utf16(a[1..]), Utf16(b[1..]));
    }
  }

  /** The comparator that orders values by the string `key` gives each of them. */
  function ByKey<T(!new)>(key: T -> string): (le: (T, T) -> bool)
    ensures forall a, b :: le(a, b) == StrLe(key(a), key(b))
  {
    (a, b) => StrLe(key(a), key(b))
  }

  /** The string order is a total order. */
  lemma StrLeOrder()
    ensures TotalPreorder(StrLe)
    ensures forall a, b :: StrLe(a, b) && StrLe(b, a) ==> a == b
  {
    forall a, b ensures StrLe(a, b) || StrLe(b, a) {
      StrLeTotal(a, b);
    }
    forall a, b, c | StrLe(a, b) && StrLe(b, c) ensures StrLe(a, c) {
      StrLeTransitive(a, b, c);
    }
    forall a, b | StrLe(a, b) && StrLe(b, a) ensures a == b {
      StrLeAntisymmetric(a, b);
    }
  }

  /** Ordering by a string key is total and transitive. */
  lemma ByKeyPreorder<T(!new)>(key: T -> string)
    ensures TotalPreorder(ByKey(key))
  {
    var le := ByKey(key);
    forall a, b ensures le(a, b) || le(b, a) {
      StrLeTotal(key(a), key(b));
    }
    forall a, b, c | le(a, b) && le(b, c) ensures le(a, c) {
      StrLeTransitive(key(a), key(b), key(c));
    }
  }

  /** When no two distinct elements share a key, ordering by that key has no ties among them. */
  lemma ByKeyAntisymmetric<T(!new)>(s: seq<T>, key: T -> string)
    requires forall i, j :: 0 <= i < |s| && 0 <= j < |s| && key(s[i]) == key(s[j]) ==> s[i] == s[j]
    ensures AntisymmetricOn(s, ByKey(key))
  {
    forall i, j | 0 <= i < |s| && 0 <= j < |s| && ByKey(key)(s[i], s[j]) && ByKey(key)(s[j], s[i])
      ensures s[i] == s[j]
    {
      StrLeAntisymmetric(key(s[i]), key(s[j]));
    }
  }
}
