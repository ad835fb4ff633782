/** The ECMAScript built-ins the palette logic relies on (`Math.round`, the `%`
    operator on numbers, `parseInt` with radix 16, `String.prototype.substring`
    and `String.prototype.replace` with a one-character pattern), stated over
    Dafny's exact integers and reals. */
module JsBuiltins {

  import Seqs

  /** What `parseInt` returns: an integer, or NaN when no digit could be read. */
  datatype Parsed = NaN | Num(n: int)

  /** `Math.round(x)`: the nearest integer, a half rounded towards +infinity. */
  function Round(x: real): (r: int)
    ensures r as real - 0.5 <= x < r as real + 0.5
  {
    (x + 0.5).Floor
  }

  /** The integer part of `x`, rounded towards zero. */
  function Trunc(x: real): (r: int)
    ensures 0.0 <= x ==> 0 <= r && r as real <= x < r as real + 1.0
    ensures x < 0.0 ==> r <= 0 && r as real - 1.0 < x <= r as real
  {
    if x >= 0.0 then x.Floor else -((-x).Floor)
  }

  /** `x % 360` on numbers: the remainder of the division truncated towards
      zero, which carries the sign of the dividend. */
  function Rem360(x: real): (r: real)
    ensures 0.0 <= x ==> 0.0 <= r < 360.0
    ensures x < 0.0 ==> -360.0 < r <= 0.0
    ensures ((x - r) / 360.0).Floor as real == (x - r) / 360.0
  {
    var turns := Trunc(x / 360.0);
    WholeTurns(x);
    x - turns as real * 360.0
  }

  /** Taking away the whole turns of `x` leaves less than one turn, on the side
      of zero where `x` lies. */
  lemma WholeTurns(x: real)
    ensures var r := x - Trunc(x / 360.0) as real * 360.0;
      && (0.0 <= x ==> 0.0 <= r < 360.0)
      && (x < 0.0 ==> -360.0 < r <= 0.0)
      && (x - r) / 360.0 == Trunc(x / 360.0) as real
      && ((x - r) / 360.0).Floor as real == (x - r) / 360.0
  {
    var q := x / 360.0;
    assert x == q * 360.0;
    if x >= 0.0 {
      assert 0.0 <= q;
    } else {
      assert q < 0.0;
    }
  }

  /** For a dividend in [0, 720), `% 360` subtracts 360 at most once. */
  lemma RemOnce(x: real)
    requires 0.0 <= x < 720.0
    ensures Rem360(x) == if x < 360.0 then x else x - 360.0
  {
    if x < 360.0 {
      assert Trunc(x / 360.0) == 0;
    } else {
      assert Trunc(x / 360.0) == 1;
    }
  }

  /** The characters `parseInt` skips before the number: WhiteSpace (tab, vertical
      tab, form feed, space, no-break space, byte-order mark and the Unicode space
      separators) and LineTerminator. */
  predicate IsStrWhiteSpace(c: char) {
    c == '\t' || c == '\n' || c == '\U{000B}' || c == '\U{000C}' || c == '\r' ||
    c == ' ' || c == '\U{00A0}' || c == '\U{1680}' ||
    ('\U{2000}' <= c <= '\U{200A}') ||
    c == '\U{2028}' || c == '\U{2029}' || c == '\U{202F}' || c == '\U{205F}' ||
    c == '\U{3000}' || c == '\U{FEFF}'
  }

  /** A digit of radix 16, in either case. */
  predicate IsHexDigit(c: char) {
    '0' <= c <= '9' || 'a' <= c <= 'f' || 'A' <= c <= 'F'
  }

  function DigitValue(c: char): (v: nat)
    requires IsHexDigit(c)
    ensures v < 16
  {
    if '0' <= c <= '9' then c as int - '0' as int
    else if 'a' <= c <= 'f' then c as int - 'a' as int + 10
    else c as int - 'A' as int + 10
  }

  /** `s` with its leading white space removed. */
  function TrimStart(s: string): string
  {
    if s != [] && IsStrWhiteSpace(s[0]) then TrimStart(s[1..]) else s
  }

  /** `TrimStart` removes exactly the leading run of white space: what it drops
      is white space and what it keeps is a suffix that does not start with any. */
  lemma {:induction false} TrimStartSpec(s: string)
    ensures var r := TrimStart(s);
      && |r| <= |s| && r == s[|s| - |r|..]
      && (forall i :: 0 <= i < |s| - |r| ==> IsStrWhiteSpace(s[i]))
      && (r == [] || !IsStrWhiteSpace(r[0]))
  {
    if s != [] && IsStrWhiteSpace(s[0]) {
      var t := s[1..];
      TrimStartSpec(t);
      var r := TrimStart(t);
      assert TrimStart(s) == r;
      assert s[|s| - |r|..] == t[|t| - |r|..];
      forall i | 0 <= i < |s| - |r| ensures IsStrWhiteSpace(s[i]) {
        if i > 0 {
          assert s[i] == t[i - 1];
        }
      }
    }
  }

  /** The length of the longest prefix of `s` made of hex digits. */
  function HexPrefixLength(s: string): (k: nat)
    ensures k <= |s|
    ensures forall i :: 0 <= i < k ==> IsHexDigit(s[i])
    ensures k == |s| || !IsHexDigit(s[k])
  {
    if s != [] && IsHexDigit(s[0]) then 1 + HexPrefixLength(s[1..]) else 0
  }

  /** The value of a string of hex digits, most significant first. */
  function HexValue(digits: string): (v: nat)
    requires forall i :: 0 <= i < |digits| ==> IsHexDigit(digits[i])
  {
    if digits == [] then 0
    else HexValue(digits[..|digits| - 1]) * 16 + DigitValue(digits[|digits| - 1])
  }

  /** `parseInt(s, 16)`: skip leading white space, read an optional sign and an
      optional `0x`/`0X` prefix, then as many hex digits as follow; NaN when
      there are none. */
  function ParseIntHex(s: string): (p: Parsed)
  {
    var t := TrimStart(s);
    var negative := t != [] && t[0] == '-';
    var u := if t != [] && (t[0] == '-' || t[0] == '+') then t[1..] else t;
    var w := if |u| >= 2 && u[0] == '0' && (u[1] == 'x' || u[1] == 'X') then u[2..] else u;
    var k := HexPrefixLength(w);
    if k == 0 then NaN
    else if negative then Num(-(HexValue(w[..k]) as int))
    else Num(HexValue(w[..k]))
  }

  lemma HexDigitIsNotSpace(c: char)
    requires IsHexDigit(c)
    ensures !IsStrWhiteSpace(c) && c != '-' && c != '+'
  {
  }

  /** Two hex digits are read as one byte. */
  lemma ParseTwoHexDigits(s: string)
    requires |s| == 2 && IsHexDigit(s[0]) && IsHexDigit(s[1])
    ensures ParseIntHex(s) == Num(16 * DigitValue(s[0]) + DigitValue(s[1]))
    ensures 0 <= 16 * DigitValue(s[0]) + DigitValue(s[1]) <= 255
  {
    HexDigitIsNotSpace(s[0]);
    assert TrimStart(s) == s;
    assert HexPrefixLength(s) == 2 by {
      assert HexPrefixLength(s[1..][1..]) == 0;
    }
    assert s[..2] == s;
    assert HexValue(s) == DigitValue(s[0]) * 16 + DigitValue(s[1]) by {
      assert s[..1] == [s[0]] && s[..1][..0] == [];
      assert HexValue(s[..1]) == DigitValue(s[0]);
    }
  }

  /** A string that does not start, after white space, with a sign or a hex digit
      reads as NaN. */
  lemma ParseNoDigit(s: string)
    requires var t := TrimStart(s); t == [] || !(IsHexDigit(t[0]) || t[0] == '-' || t[0] == '+')
    ensures ParseIntHex(s) == NaN
  {
  }

  function Min(a: int, b: int): int {
    if a <= b then a else b
  }

  function Max(a: int, b: int): int {
    if a <= b then b else a
  }

  /** `s.substring(start, end)`: both bounds are clamped to the length of `s`
      and the smaller one is taken as the start. */
  function Substring(s: string, start: nat, end: nat): (r: string)
    ensures start <= end <= |s| ==> r == s[start..end]
    ensures end <= start <= |s| ==> r == s[end..start]
    ensures start <= |s| <= end ==> r == s[start..]
    ensures end <= |s| <= start ==> r == s[end..]
    ensures |s| <= start && |s| <= end ==> r == []
  {
    var a := Min(start, |s|);
    var b := Min(end, |s|);
    s[Min(a, b)..Max(a, b)]
  }

  /** `s.replace(c, "")` for a one-character pattern: only the first occurrence
      of `c` is removed. */
  function RemoveFirst(s: string, c: char): string
  {
    if s == [] then []
    else if s[0] == c then s[1..]
    else [s[0]] + RemoveFirst(s[1..], c)
  }

  /** Without `c` the string is unchanged. */
  lemma {:induction false} RemoveFirstAbsent(s: string, c: char)
    requires c !in s
    ensures RemoveFirst(s, c) == s
  {
    if s != [] {
      assert s == [s[0]] + s[1..];
      RemoveFirstAbsent(s[1..], c);
    }
  }

  /** With `c` present, exactly the character at its first position is gone. */
  lemma {:induction false} RemoveFirstPresent(s: string, c: char)
    requires c in s
    ensures var p := Seqs.Position(s, c);
      RemoveFirst(s, c) == s[..p] + s[p + 1..] && |RemoveFirst(s, c)| == |s| - 1
  {
    if s[0] != c {
      var p := Seqs.Position(s, c);
      assert s == [s[0]] + s[1..];
      assert c in s[1..];
      assert p == 1 + Seqs.Position(s[1..], c);
      RemoveFirstPresent(s[1..], c);
      assert s[..p] == [s[0]] + s[1..][..p - 1];
      assert s[p + 1..] == s[1..][p..];
    }
  }

  /** Without `c` the string is unchanged; otherwise exactly the character at the
      first position of `c` is gone. */
  lemma RemoveFirstSpec(s: string, c: char)
    ensures c !in s ==> RemoveFirst(s, c) == s
    ensures c in s ==> var p := Seqs.Position(s, c);
      RemoveFirst(s, c) == s[..p] + s[p + 1..] && |RemoveFirst(s, c)| == |s| - 1
  {
    if c in s {
      RemoveFirstPresent(s, c);
    } else {
      RemoveFirstAbsent(s, c);
    }
  }
}
