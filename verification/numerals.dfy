/** Decimal numerals: `int(s)` on a digit string, `str(n)` on a natural
    number, and `s.zfill(width)`, with the facts that tie them together
    (printing then reading gives the number back; leading zeros do not
    change the value; a canonical zero-padded numeral is reproduced exactly).
 */
module Numerals {
  import opened Text

  function DigitValue(c: char): nat
    requires IsDigit(c)
  {
    c as int - '0' as int
  }

  function DigitChar(d: nat): (c: char)
    requires d < 10
    ensures IsDigit(c) && DigitValue(c) == d
  {
    ('0' as int + d) as char
  }

  function Pow10(k: nat): (r: nat)
    ensures r >= 1
  {
    if k == 0 then 1 else 10 * Pow10(k - 1)
  }

  /** `int(s)` for a string of ASCII digits (the empty string reads as 0). */
  function Value(s: string): (r: nat)
    requires AllDigits(s)
    ensures r < Pow10(|s|)
  {
    if |s| == 0 then 0 else Value(s[..|s| - 1]) * 10 + DigitValue(s[|s| - 1])
  }

  /** `str(n)`: the shortest decimal numeral of `n`. */
  function Show(n: nat): (r: string)
    ensures IsDigits(r)
    ensures Value(r) == n
    ensures |r| > 1 ==> r[0] != '0'
  {
    if n < 10 then [DigitChar(n)]
    else
      var p := Show(n / 10);
      var r := p + [DigitChar(n % 10)];
      assert r[..|r| - 1] == p;
      r
  }

  function Zeros(k: nat): (r: string)
    ensures |r| == k && AllDigits(r)
    ensures forall i :: 0 <= i < k ==> r[i] == '0'
  {
    if k == 0 then [] else Zeros(k - 1) + ['0']
  }

  /** `s.zfill(width)` for a digit string: pad on the left with '0' up to
      `width` characters; a longer string is returned unchanged. */
  function ZFill(s: string, width: nat): (r: string)
    ensures |r| == if |s| < width then width else |s|
    ensures AllDigits(s) ==> AllDigits(r)
    ensures r[|r| - |s|..] == s
  {
    if |s| < width then Zeros(width - |s|) + s else s
  }

  /** Leading zeros do not change the value of a numeral. */
  lemma {:induction false} ValueLeadingZeros(k: nat, s: string)
    requires AllDigits(s)
    ensures AllDigits(Zeros(k) + s)
    ensures Value(Zeros(k) + s) == Value(s)
  {
    var z := Zeros(k) + s;
    if |s| == 0 {
      assert z == Zeros(k);
      ValueOfZeros(k);
    } else {
      var init := s[..|s| - 1];
      assert z[..|z| - 1] == Zeros(k) + init;
      ValueLeadingZeros(k, init);
    }
  }

  lemma {:induction false} ValueOfZeros(k: nat)
    ensures Value(Zeros(k)) == 0
  {
    if k > 0 {
      ValueOfZeros(k - 1);
      ValueAppend(Zeros(k - 1), '0');
    }
  }

  /** Appending a digit multiplies the value by ten and adds the digit. */
  lemma ValueAppend(u: string, c: char)
    requires AllDigits(u) && IsDigit(c)
    ensures AllDigits(u + [c])
    ensures Value(u + [c]) == Value(u) * 10 + DigitValue(c)
  {
    assert (u + [c])[..|u|] == u;
  }

  /** A number printed and zero-filled to a width it fits in is a digit
      string of exactly that width that reads back as the number. */
  lemma ZFillShow(n: nat, width: nat)
    requires 1 <= width && n < Pow10(width)
    ensures |ZFill(Show(n), width)| == width
    ensures IsDigits(ZFill(Show(n), width)) && Value(ZFill(Show(n), width)) == n
  {
    ShowLength(n, width);
    ValueZFill(Show(n), width);
  }

  /** Zero-padding keeps the value. */
  lemma ValueZFill(s: string, width: nat)
    requires AllDigits(s)
    ensures Value(ZFill(s, width)) == Value(s)
  {
    if |s| < width {
      ValueLeadingZeros(width - |s|, s);
    }
  }

  /** A number below 10^k prints in at most k characters. */
  lemma {:induction false} ShowLength(n: nat, k: nat)
    requires 1 <= k && n < Pow10(k)
    ensures |Show(n)| <= k
  {
    if n >= 10 {
      assert n / 10 < Pow10(k - 1);
      ShowLength(n / 10, k - 1);
    }
  }

  /** Two digit strings of the same length and the same value are the same
      string. */
  lemma {:induction false} ValueInjective(a: string, b: string)
    requires AllDigits(a) && AllDigits(b) && |a| == |b| && Value(a) == Value(b)
    ensures a == b
  {
    if |a| > 0 {
      var n := |a| - 1;
      var a', b' := a[..n], b[..n];
      assert a == a' + [a[n]] && b == b' + [b[n]];
      ValueAppend(a', a[n]);
      ValueAppend(b', b[n]);
      LastDigit(Value(a'), DigitValue(a[n]), Value(b'), DigitValue(b[n]));
      ValueInjective(a', b');
    }
  }

  /** The last decimal digit and the rest of a number are determined by it. */
  lemma LastDigit(x: nat, d: nat, y: nat, e: nat)
    requires d < 10 && e < 10 && x * 10 + d == y * 10 + e
    ensures x == y && d == e
  {
  }

  /** Reading a digit string and printing it back zero-filled to the
      string's own width reproduces the string exactly. */
  lemma ZFillShowValue(t: string)
    requires IsDigits(t)
    ensures ZFill(Show(Value(t)), |t|) == t
  {
    var n := Value(t);
    ShowLength(n, |t|);
    ValueZFill(Show(n), |t|);
    ValueInjective(ZFill(Show(n), |t|), t);
  }
}
