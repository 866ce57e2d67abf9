/** Decimal digit strings, integer rendering in the style of Rust's `{}` and ASCII lower-casing. */
module Strings {
  import opened NumberTheory


  predicate IsDigit(c: char) {
    '0' <= c <= '9'
  }

  predicate AllDigits(s: string) {
    forall i :: 0 <= i < |s| ==> IsDigit(s[i])
  }

  function DigitChar(d: nat): (c: char)
    requires d < 10
    ensures IsDigit(c) && c as int - '0' as int == d
  {
    ('0' as int + d) as char
  }

  /** The value of a string of decimal digits, most significant first. */
  function DigitsValue(s: string): nat
    requires AllDigits(s)
  {
    if |s| == 0 then 0 else 10 * DigitsValue(s[..|s| - 1]) + (s[|s| - 1] as int - '0' as int)
  }

  /** Shortest decimal rendering of a natural number. */
  function NatToString(n: nat): (s: string)
    ensures |s| >= 1 && AllDigits(s)
    ensures |s| > 1 ==> s[0] != '0'
  {
    if n < 10 then [DigitChar(n)] else NatToString(n / 10) + [DigitChar(n % 10)]
  }

  /** Rendering of an integer: a leading '-' for negatives, then the digits. */
  function IntToString(i: int): (s: string)
    ensures |s| >= 1 && (s[0] == '-' <==> i < 0)
    ensures forall k :: 0 <= k < |s| ==> s[k] == '-' || IsDigit(s[k])
  {
    if i < 0 then "-" + NatToString(-i) else NatToString(i)
  }

  /** Reading back the rendered digits gives the number. */
  lemma {:induction false} NatToStringValue(n: nat)
    ensures DigitsValue(NatToString(n)) == n
  {
    if n >= 10 {
      var s := NatToString(n);
      assert s[..|s| - 1] == NatToString(n / 10);
      NatToStringValue(n / 10);
    }
  }

  /** Rendering is injective, because reading back inverts it. */
  lemma NatToStringInjective(m: nat, n: nat)
    requires NatToString(m) == NatToString(n)
    ensures m == n
  {
    NatToStringValue(m);
    NatToStringValue(n);
  }

  /** Renderings of integers are injective too: the sign is the first character. */
  lemma IntToStringInjective(i: int, j: int)
    requires IntToString(i) == IntToString(j)
    ensures i == j
  {
    var s, t := IntToString(i), IntToString(j);
    if i < 0 && j < 0 {
      assert s[1..] == NatToString(-i) && t[1..] == NatToString(-j);
      NatToStringInjective(-i, -j);
    } else if i >= 0 && j >= 0 {
      NatToStringInjective(i, j);
    }
  }

  /** ASCII lower-casing of one character; other characters are kept. */
  function LowerChar(c: char): (d: char)
    ensures 'A' <= c <= 'Z' ==> 'a' <= d <= 'z' && d as int - 'a' as int == c as int - 'A' as int
    ensures !('A' <= c <= 'Z') ==> d == c
  {
    if 'A' <= c <= 'Z' then (c as int - 'A' as int + 'a' as int) as char else c
  }

  function ToLower(s: string): (t: string)
    ensures |t| == |s| && forall i :: 0 <= i < |s| ==> t[i] == LowerChar(s[i])
  {
    if |s| == 0 then [] else [LowerChar(s[0])] + ToLower(s[1..])
  }

  /** Lower-casing twice is lower-casing once. */
  lemma ToLowerIdempotent(s: string)
    ensures ToLower(ToLower(s)) == ToLower(s)
  {
  }

  function CountChar(s: string, c: char): nat {
    if |s| == 0 then 0 else (if s[0] == c then 1 else 0) + CountChar(s[1..], c)
  }

  /** The standard library's `split` on one character: the pieces between occurrences of c. */
  function SplitOn(s: string, c: char): (r: seq<string>)
    ensures |r| == CountChar(s, c) + 1
    ensures forall i :: 0 <= i < |r| ==> c !in r[i]
  {
    if |s| == 0 then [""]
    else
      var rest := SplitOn(s[1..], c);
      if s[0] == c then [""] + rest else [[s[0]] + rest[0]] + rest[1..]
  }

  /** The pieces joined with c between them. */
  function Join(pieces: seq<string>, c: char): string
    requires |pieces| >= 1
  {
    if |pieces| == 1 then pieces[0] else pieces[0] + [c] + Join(pieces[1..], c)
  }

  /** Joining the pieces back with the separator gives the original string. */
  lemma {:induction false} JoinSplitOn(s: string, c: char)
    ensures Join(SplitOn(s, c), c) == s
  {
    if |s| > 0 {
      var rest := SplitOn(s[1..], c);
      JoinSplitOn(s[1..], c);
      if s[0] != c && |rest| > 1 {
        assert Join(rest, c) == rest[0] + [c] + Join(rest[1..], c);
        assert Join([[s[0]] + rest[0]] + rest[1..], c) == [s[0]] + rest[0] + [c] + Join(rest[1..], c);
      }
    }
  }

  /** A string without c is one piece. */
  lemma {:induction false} SplitOnAbsent(u: string, c: char)
    requires c !in u
    ensures SplitOn(u, c) == [u]
  {
    if |u| > 0 {
      SplitOnAbsent(u[1..], c);
      assert [u[0]] + u[1..] == u;
    }
  }

  /** The first piece is everything before the first c. */
  lemma {:induction false} SplitOnFirst(u: string, c: char, v: string)
    requires c !in u
    ensures SplitOn(u + [c] + v, c) == [u] + SplitOn(v, c)
  {
    var w := u + [c] + v;
    if |u| > 0 {
      assert w[0] == u[0] && w[1..] == u[1..] + [c] + v;
      SplitOnFirst(u[1..], c, v);
      assert [u[0]] + u[1..] == u;
    } else {
      assert w[0] == c && w[1..] == v;
    }
  }

  /** Splitting separates u [c] v back into u and v when c occurs in neither. */
  lemma SplitOnOnce(u: string, c: char, v: string)
    requires c !in u && c !in v
    ensures SplitOn(u + [c] + v, c) == [u, v]
  {
    SplitOnFirst(u, c, v);
    SplitOnAbsent(v, c);
  }

  /** u [c] v determines u and v when c does not occur in u. */
  lemma SeparatorUnique(u1: string, v1: string, u2: string, v2: string, c: char)
    requires c !in u1 && c !in u2 && u1 + [c] + v1 == u2 + [c] + v2
    ensures u1 == u2 && v1 == v2
  {
    SplitOnFirst(u1, c, v1);
    SplitOnFirst(u2, c, v2);
    assert u1 == SplitOn(u1 + [c] + v1, c)[0];
    assert u2 == SplitOn(u2 + [c] + v2, c)[0];
    assert v1 == (u1 + [c] + v1)[|u1| + 1..];
    assert v2 == (u2 + [c] + v2)[|u2| + 1..];
  }

  /** The digits of x padded with leading zeros to exactly k characters (x < 10^k). */
  function Pad(x: nat, k: nat): (s: string)
    ensures |s| == k && AllDigits(s)
  {
    if k == 0 then "" else Pad(x / 10, k - 1) + [DigitChar(x % 10)]
  }

  lemma {:induction false} DigitsValueConcat(u: string, v: string)
    requires AllDigits(u) && AllDigits(v)
    ensures AllDigits(u + v) && DigitsValue(u + v) == DigitsValue(u) * Pow10(|v|) + DigitsValue(v)
    decreases |v|
  {
    if |v| == 0 {
      assert u + v == u;
    } else {
      var w := u + v;
      var v' := v[..|v| - 1];
      assert w[..|w| - 1] == u + v';
      DigitsValueConcat(u, v');
      assert DigitsValue(w) == 10 * DigitsValue(u + v') + (v[|v| - 1] as int - '0' as int);
      assert DigitsValue(v) == 10 * DigitsValue(v') + (v[|v| - 1] as int - '0' as int);
      ShiftDigit(DigitsValue(u), DigitsValue(v'), v[|v| - 1] as int - '0' as int, Pow10(|v'|));
    }
  }

  lemma ShiftDigit(hi: int, lo: int, d: int, p: int)
    ensures 10 * (hi * p + lo) + d == hi * (10 * p) + (10 * lo + d)
  {
  }

  lemma {:induction false} PadValue(x: nat, k: nat)
    requires x < Pow10(k)
    ensures DigitsValue(Pad(x, k)) == x
  {
    if k > 0 {
      var s := Pad(x, k);
      assert s[..|s| - 1] == Pad(x / 10, k - 1);
      PadValue(x / 10, k - 1);
    }
  }
}
