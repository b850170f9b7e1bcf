/** The two JDK string routines the core leans on: `Integer.parseInt` and
    `String.compareTo`. */
module JavaText {
  import opened Wrappers
  import opened Bytes

  predicate IsDigit(c: char) { '0' <= c <= '9' }

  function DigitValue(c: char): (d: nat)
    requires IsDigit(c)
    ensures d < 10
  {
    (c as int) - ('0' as int)
  }

  function DigitChar(d: nat): (c: char)
    requires d < 10
    ensures IsDigit(c) && DigitValue(c) == d
  {
    (('0' as int) + d) as char
  }

  predicate AllDigits(s: string) { forall i :: 0 <= i < |s| ==> IsDigit(s[i]) }

  /** The decimal value of a digit string, most significant digit first. */
  function DigitsValue(s: string): nat
    requires AllDigits(s)
  {
    if |s| == 0 then 0 else DigitsValue(s[..|s| - 1]) * 10 + DigitValue(s[|s| - 1])
  }

  /** `Integer.parseInt` restricted to ASCII: an optional '-' or '+', at least one digit
      '0'-'9', and a value inside the 32-bit range; anything else is a NumberFormatException
      (`None`). Java also reads the decimal digits of other scripts; those are not modelled. */
  function ParseInt(s: string): (r: Option<int>)
    ensures r.Some? ==> IsInt32(r.value)
    ensures r.Some? ==> |s| > 0
    ensures |s| > 0 && AllDigits(s) && DigitsValue(s) < TWO_31 ==> r == Some(DigitsValue(s))
  {
    if |s| == 0 then None
    else
      var negative := s[0] == '-';
      var body := if s[0] == '-' || s[0] == '+' then s[1..] else s;
      if |body| == 0 || !AllDigits(body) then None
      else
        var v: int := if negative then 0 - DigitsValue(body) as int else DigitsValue(body);
        if IsInt32(v) then Some(v) else None
  }

  /** The decimal digits of a natural number, without leading zeros. */
  function Digits(n: nat): (s: string)
    ensures |s| > 0 && AllDigits(s)
    decreases n
  {
    if n < 10 then [DigitChar(n)] else Digits(n / 10) + [DigitChar(n % 10)]
  }

  lemma {:induction false} DigitsValueOfDigits(n: nat)
    ensures DigitsValue(Digits(n)) == n
    decreases n
  {
    if n >= 10 {
      var s := Digits(n);
      assert s[..|s| - 1] == Digits(n / 10);
      DigitsValueOfDigits(n / 10);
    }
  }

  /** `String.valueOf(int)`. */
  function ShowInt(n: int): (s: string)
    ensures |s| > 0
  {
    if n < 0 then "-" + Digits(-n) else Digits(n)
  }

  /** Printing an int and parsing it back gives the same int. */
  lemma {:induction false} ParseShowInt(n: int)
    requires IsInt32(n)
    ensures ParseInt(ShowInt(n)) == Some(n)
  {
    if n < 0 {
      DigitsValueOfDigits(-n);
      assert ShowInt(n)[1..] == Digits(-n);
    } else {
      DigitsValueOfDigits(n);
    }
  }

  /** `new String(bytes)` on the one-byte characters the model admits. */
  function AsText(bytes: seq<uint8>): (s: string)
    ensures |s| == |bytes| && forall k :: 0 <= k < |bytes| ==> s[k] as int == bytes[k] as int
  {
    seq(|bytes|, k requires 0 <= k < |bytes| => bytes[k] as char)
  }

  lemma AsTextInjective(a: seq<uint8>, b: seq<uint8>)
    requires AsText(a) == AsText(b)
    ensures a == b
  {
    assert |a| == |b|;
    forall i | 0 <= i < |a| ensures a[i] == b[i] {
      assert AsText(a)[i] == AsText(b)[i];
    }
  }

  /** The code of each character of a string. Dafny characters are Unicode scalar values, so
      these agree with the UTF-16 units `String.compareTo` sees only below U+10000, which
      covers the one-byte characters keys are made of. */
  function Codes(s: string): (r: seq<int>)
    ensures |r| == |s|
    ensures forall i :: 0 <= i < |s| ==> r[i] == s[i] as int
  {
    seq(|s|, i requires 0 <= i < |s| => s[i] as int)
  }

  lemma CodesInjective(a: string, b: string)
    requires Codes(a) == Codes(b)
    ensures a == b
  {
    assert |a| == |b|;
    forall i | 0 <= i < |a| ensures a[i] == b[i] {
      assert Codes(a)[i] == Codes(b)[i];
    }
  }

  /** `String.compareTo`: the difference of the first differing units, or of the lengths
      when one string is a prefix of the other. */
  function CompareTo(a: seq<int>, b: seq<int>): int
  {
    if |a| == 0 || |b| == 0 then |a| - |b|
    else if a[0] != b[0] then a[0] - b[0]
    else CompareTo(a[1..], b[1..])
  }

  lemma {:induction false} CompareToZeroIffEqual(a: seq<int>, b: seq<int>)
    ensures CompareTo(a, b) == 0 <==> a == b
  {
    if |a| == 0 || |b| == 0 {
    } else if a[0] != b[0] {
    } else {
      CompareToZeroIffEqual(a[1..], b[1..]);
      if a[1..] == b[1..] {
        assert a == [a[0]] + a[1..] && b == [b[0]] + b[1..];
      }
    }
  }

  lemma {:induction false} CompareToAntisymmetric(a: seq<int>, b: seq<int>)
    ensures CompareTo(a, b) == -CompareTo(b, a)
  {
    if |a| != 0 && |b| != 0 && a[0] == b[0] {
      CompareToAntisymmetric(a[1..], b[1..]);
    }
  }

  lemma {:induction false} CompareToTransitive(a: seq<int>, b: seq<int>, c: seq<int>)
    requires CompareTo(a, b) < 0 && CompareTo(b, c) < 0
    ensures CompareTo(a, c) < 0
  {
    if |a| == 0 || |b| == 0 || |c| == 0 {
    } else if a[0] != b[0] || b[0] != c[0] {
    } else {
      CompareToTransitive(a[1..], b[1..], c[1..]);
    }
  }

  /** Two sequences that agree up to a position and differ there compare by the difference
      at that position. */
  lemma {:induction false} CompareToFirstDifference(a: seq<int>, b: seq<int>, i: nat)
    requires i < |a| && i < |b| && a[..i] == b[..i] && a[i] != b[i]
    ensures CompareTo(a, b) == a[i] - b[i]
  {
    if i > 0 {
      assert a[0] == a[..i][0] == b[..i][0] == b[0];
      assert a[1..][..i - 1] == a[1..i] == a[..i][1..];
      assert b[1..][..i - 1] == b[1..i] == b[..i][1..];
      CompareToFirstDifference(a[1..], b[1..], i - 1);
    }
  }
}
