/**
 The few JavaScript string built-ins the clock readout is made of:
 `String(n)` on a small non-negative integer, `padStart`, `repeat` and the global
 single-character `replace(/ /g, …)`. Decimal parsing reads `String(n)`
 back, stripping a leading filler undoes `padStart`, and replacing in the
 opposite direction undoes `replace`; `repeat` is pinned down by its length
 and contents.
 */
module Text {

  /** Every character of `s` is `c`. */
  predicate AllChar(s: string, c: char) {
    forall i :: 0 <= i < |s| ==> s[i] == c
  }

  predicate IsDigit(c: char) {
    '0' <= c <= '9'
  }

  predicate AllDigits(s: string) {
    forall i :: 0 <= i < |s| ==> IsDigit(s[i])
  }

  function DigitChar(d: nat): (c: char)
    requires d < 10
    ensures IsDigit(c)
    ensures c as int - '0' as int == d
  {
    ('0' as int + d) as char
  }

  /** The decimal value of a digit string; the empty string reads as 0. */
  function ParseDecimal(s: string): nat
    requires AllDigits(s)
  {
    if |s| == 0 then 0
    else ParseDecimal(s[..|s| - 1]) * 10 + (s[|s| - 1] as int - '0' as int)
  }

  /**
   `String(n)` for a non-negative integer below 10^21, where JavaScript
   spells it in plain decimal: its shortest decimal spelling.
   */
  function NatToString(n: nat): (r: string)
    ensures AllDigits(r)
    ensures 1 <= |r|
    ensures |r| == 1 <==> n < 10
    ensures n < 100 ==> |r| <= 2
  {
    if n < 10 then [DigitChar(n)] else NatToString(n / 10) + [DigitChar(n % 10)]
  }

  /** `String(n)` reads back as `n` and has no leading zero. */
  lemma {:induction false} NatToStringReadsBack(n: nat)
    ensures ParseDecimal(NatToString(n)) == n
    ensures NatToString(n)[0] == '0' ==> n == 0
  {
    var r := NatToString(n);
    if 10 <= n {
      NatToStringReadsBack(n / 10);
      assert r[..|r| - 1] == NatToString(n / 10);
    }
  }

  /** `c.repeat(n)`. */
  function Repeat(c: char, n: nat): (r: string)
    ensures |r| == n
    ensures AllChar(r, c)
  {
    if n == 0 then [] else [c] + Repeat(c, n - 1)
  }

  /**
   `s.padStart(width, fill)` for a one-character `fill`: strings already
   `width` long or longer come back unchanged, shorter ones get copies of
   `fill` in front until they are exactly `width` long.
   */
  function PadStart(s: string, width: nat, fill: char): (r: string)
    ensures |r| == if |s| < width then width else |s|
  {
    if width <= |s| then s else Repeat(fill, width - |s|) + s
  }

  /** What `PadStart` puts in front is nothing but the filler, and what follows it is the original text. */
  lemma PadStartShape(s: string, width: nat, fill: char)
    ensures var r := PadStart(s, width, fill);
      && r[|r| - |s|..] == s
      && AllChar(r[..|r| - |s|], fill)
  {
    var r := PadStart(s, width, fill);
    if |s| < width {
      assert r[..|r| - |s|] == Repeat(fill, width - |s|);
    }
  }

  /** `s` with every leading `c` removed. */
  function TrimStart(s: string, c: char): (r: string)
    ensures |r| <= |s|
    ensures r == s[|s| - |r|..]
    ensures AllChar(s[..|s| - |r|], c)
    ensures |r| == 0 || r[0] != c
  {
    if 0 < |s| && s[0] == c then TrimStart(s[1..], c) else s
  }

  /** `s.replace(/x/g, y)` for single characters `x` and `y`. */
  function ReplaceAll(s: string, x: char, y: char): (r: string)
    ensures |r| == |s|
    ensures forall i {:trigger r[i]} :: 0 <= i < |s| && s[i] == x ==> r[i] == y
    ensures forall i {:trigger r[i]} :: 0 <= i < |s| && s[i] != x ==> r[i] == s[i]
  {
    if |s| == 0 then [] else [if s[0] == x then y else s[0]] + ReplaceAll(s[1..], x, y)
  }

  /** Stripping the filler undoes padding with it, when the padded text does not itself start with the filler. */
  lemma {:induction false} TrimPadStart(s: string, width: nat, fill: char)
    requires |s| == 0 || s[0] != fill
    ensures TrimStart(PadStart(s, width, fill), fill) == s
  {
    var p := PadStart(s, width, fill);
    var k := |p| - |s|;
    PadStartShape(s, width, fill);
    TrimStartOfFillerPrefix(p[..k], s, fill);
    assert p == p[..k] + s;
  }

  lemma {:induction false} TrimStartOfFillerPrefix(pre: string, s: string, fill: char)
    requires AllChar(pre, fill)
    requires |s| == 0 || s[0] != fill
    ensures TrimStart(pre + s, fill) == s
    decreases |pre|
  {
    if |pre| > 0 {
      assert (pre + s)[1..] == pre[1..] + s;
      TrimStartOfFillerPrefix(pre[1..], s, fill);
    } else {
      assert pre + s == s;
    }
  }

  /** A leading `'0'` does not change the value of a digit string. */
  lemma {:induction false} ParseDecimalLeadingZero(s: string)
    requires AllDigits(s)
    ensures AllDigits("0" + s)
    ensures ParseDecimal("0" + s) == ParseDecimal(s)
    decreases |s|
  {
    if |s| > 0 {
      var t := "0" + s;
      assert t[..|t| - 1] == "0" + s[..|s| - 1];
      ParseDecimalLeadingZero(s[..|s| - 1]);
    } else {
      assert ("0" + s)[..0] == [];
    }
  }

  /** Replacing distributes over concatenation. */
  lemma {:induction false} ReplaceAllConcat(a: string, b: string, x: char, y: char)
    ensures ReplaceAll(a + b, x, y) == ReplaceAll(a, x, y) + ReplaceAll(b, x, y)
  {
    var l := ReplaceAll(a + b, x, y);
    var r := ReplaceAll(a, x, y) + ReplaceAll(b, x, y);
    assert |l| == |r|;
    forall i | 0 <= i < |l|
      ensures l[i] == r[i]
    {
      if i < |a| {
        assert (a + b)[i] == a[i];
      } else {
        assert (a + b)[i] == b[i - |a|];
      }
    }
  }

  /** Replacing `x` by `y` is undone by replacing `y` back by `x` when `y` did not occur to begin with. */
  lemma ReplaceAllRoundTrip(s: string, x: char, y: char)
    requires y !in s
    ensures ReplaceAll(ReplaceAll(s, x, y), y, x) == s
  {
    var t := ReplaceAll(s, x, y);
    var u := ReplaceAll(t, y, x);
    forall i | 0 <= i < |s|
      ensures u[i] == s[i]
    {
      assert s[i] != y;
    }
  }
}
