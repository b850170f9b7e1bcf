/** Index keys: the fixed-length byte strings the B+ tree stores, their normalisation to the
    column length, and the comparison the tree orders them by. */
module Keys {
  import opened Wrappers
  import opened Bytes
  import opened JavaText

  type Key = seq<uint8>

  /** The fill byte `'&'` that pads a key to the column length. */
  const PAD: uint8 := 38

  const INT_KEY: int := -1
  const FLOAT_KEY: int := 0

  /** The key types the model covers: int (-1) and char(n) (n > 0); float keys are left out. */
  predicate KnownKeyType(keyType: int)
  {
    keyType == INT_KEY || keyType > 0
  }

  /** The key the tree works with: the caller's bytes copied into a `columnLength` array and
      the rest filled with `'&'`. A null key is a NullPointerException and a key longer than
      the column runs off the array. */
  function Normalize(columnLength: nat, original: Option<seq<uint8>>): (r: Result<Key>)
    ensures original.None? ==> r == Failure(NullPointer)
    ensures original.Some? && |original.value| > columnLength ==> r == Failure(IndexOutOfBounds)
    ensures original.Some? && |original.value| <= columnLength ==>
      && r.Success? && |r.value| == columnLength
      && r.value[..|original.value|] == original.value
      && forall i :: |original.value| <= i < columnLength ==> r.value[i] == PAD
  {
    match original
    case None => Failure(NullPointer)
    case Some(k) =>
      if |k| > columnLength then Failure(IndexOutOfBounds)
      else Success(k + seq(columnLength - |k|, i => PAD))
  }

  /** A normalised key normalises to itself, so the leaf's second padding pass is harmless. */
  lemma NormalizeIdempotent(columnLength: nat, original: Option<seq<uint8>>)
    requires Normalize(columnLength, original).Success?
    ensures Normalize(columnLength, Some(Normalize(columnLength, original).value)) == Normalize(columnLength, original)
  {
    var k := Normalize(columnLength, original).value;
    assert k + seq(0, i => PAD) == k;
  }

  /** How the pad byte orders a padded key against a key one byte longer with the same
      prefix: the padded key is the smaller exactly when the longer key's next byte is above
      `'&'`, the larger exactly when it is below, and the two pad to the same key exactly when
      that byte is `'&'` itself. */
  lemma PaddedKeyOrder(keyType: int, columnLength: nat, prefix: Key, c: uint8)
    requires keyType != INT_KEY && |prefix| < columnLength
    ensures var a := Normalize(columnLength, Some(prefix)).value;
      var b := Normalize(columnLength, Some(prefix + [c])).value;
      && (Less(keyType, a, b) <==> c > PAD)
      && (Less(keyType, b, a) <==> c < PAD)
      && (a == b <==> c == PAD)
  {
    var a := Normalize(columnLength, Some(prefix)).value;
    var b := Normalize(columnLength, Some(prefix + [c])).value;
    var i := |prefix|;
    assert a[i] == PAD;
    assert b[i] == (prefix + [c])[i] == c;
    forall j | 0 <= j < i ensures a[j] == b[j] {
      assert a[j] == a[..i][j] == prefix[j];
      assert b[j] == b[..i + 1][j] == (prefix + [c])[j] == prefix[j];
    }
    if c == PAD {
      assert forall j :: 0 <= j < columnLength ==> a[j] == b[j];
      assert a == b;
      CompareToZeroIffEqual(Units(a), Units(b));
    } else {
      var ua, ub := Units(a), Units(b);
      assert ua[..i] == ub[..i] by {
        forall j | 0 <= j < i ensures ua[j] == ub[j] {
          assert ua[j] == AsText(a)[j] as int == a[j] as int;
          assert ub[j] == AsText(b)[j] as int == b[j] as int;
        }
      }
      assert ua[i] == PAD as int && ub[i] == c as int;
      CompareToFirstDifference(ua, ub, i);
      CompareToFirstDifference(ub, ua, i);
    }
  }

  /** The UTF-16 units String.compareTo sees in a key. */
  function Units(k: Key): seq<int>
  {
    Codes(AsText(k))
  }

  /** A key the int comparison can read: four bytes when the key type is int. */
  predicate Fits(keyType: int, k: Key)
  {
    keyType == INT_KEY ==> |k| == 4
  }

  /** compareTo as written: int keys compare by the 32-bit difference `num1 - num2`, char
      keys by String.compareTo. */
  function CompareAsWritten(keyType: int, a: Key, b: Key): int
  {
    if keyType == INT_KEY && |a| == 4 && |b| == 4 then Wrap32(DecodeInt32(a) - DecodeInt32(b))
    else CompareTo(Units(a), Units(b))
  }

  /** The 32-bit difference has the wrong sign when it overflows: the smallest int compares
      above 1. */
  lemma CompareAsWrittenOverflows()
    ensures DecodeInt32([128, 0, 0, 0]) == -TWO_31 && DecodeInt32([0, 0, 0, 1]) == 1
    ensures CompareAsWritten(INT_KEY, [128, 0, 0, 0], [0, 0, 0, 1]) > 0
  {
    assert Unsigned32([128, 0, 0, 0]) == TWO_31;
    assert Wrap32(-TWO_31 - 1) == TWO_31 - 1;
  }

  /** compareTo as intended: the sign of the true difference for int keys (what
      Integer.compare gives), String.compareTo for char keys. */
  function Compare(keyType: int, a: Key, b: Key): (r: int)
    ensures keyType == INT_KEY && |a| == 4 && |b| == 4 ==>
      (r < 0 <==> DecodeInt32(a) < DecodeInt32(b)) && (r > 0 <==> DecodeInt32(a) > DecodeInt32(b))
  {
    if keyType == INT_KEY && |a| == 4 && |b| == 4 then
      var x := DecodeInt32(a);
      var y := DecodeInt32(b);
      if x < y then -1 else if x == y then 0 else 1
    else CompareTo(Units(a), Units(b))
  }

  /** Wherever the difference does not overflow, the written comparison agrees in sign with
      the intended one. */
  lemma CompareAsWrittenAgreesWithoutOverflow(keyType: int, a: Key, b: Key)
    requires keyType == INT_KEY && |a| == 4 && |b| == 4 ==> IsInt32(DecodeInt32(a) - DecodeInt32(b))
    ensures (CompareAsWritten(keyType, a, b) < 0 <==> Compare(keyType, a, b) < 0)
    ensures (CompareAsWritten(keyType, a, b) == 0 <==> Compare(keyType, a, b) == 0)
  {
  }

  predicate Less(keyType: int, a: Key, b: Key)
  {
    Compare(keyType, a, b) < 0
  }

  /** A zero comparison means equal keys, whatever their lengths. */
  lemma CompareZeroMeansEqual(keyType: int, a: Key, b: Key)
    ensures Compare(keyType, a, b) == 0 ==> a == b
  {
    if keyType == INT_KEY && |a| == 4 && |b| == 4 {
      if DecodeInt32(a) == DecodeInt32(b) {
        DecodeInt32Injective(a, b);
      }
    } else {
      CompareToZeroIffEqual(Units(a), Units(b));
      if Units(a) == Units(b) {
        CodesInjective(AsText(a), AsText(b));
        AsTextInjective(a, b);
      }
    }
  }

  lemma CompareZeroIffEqual(keyType: int, a: Key, b: Key)
    requires Fits(keyType, a) && Fits(keyType, b)
    ensures Compare(keyType, a, b) == 0 <==> a == b
  {
    if keyType == INT_KEY {
      if DecodeInt32(a) == DecodeInt32(b) {
        DecodeInt32Injective(a, b);
      }
    } else {
      CompareToZeroIffEqual(Units(a), Units(b));
      if Units(a) == Units(b) {
        CodesInjective(AsText(a), AsText(b));
        AsTextInjective(a, b);
      }
    }
  }

  lemma CompareAntisymmetric(keyType: int, a: Key, b: Key)
    requires Fits(keyType, a) && Fits(keyType, b)
    ensures Compare(keyType, a, b) < 0 <==> Compare(keyType, b, a) > 0
  {
    if !(keyType == INT_KEY) {
      CompareToAntisymmetric(Units(a), Units(b));
    }
  }

  lemma LessTransitive(keyType: int, a: Key, b: Key, c: Key)
    requires Fits(keyType, a) && Fits(keyType, b) && Fits(keyType, c)
    requires Less(keyType, a, b) && Less(keyType, b, c)
    ensures Less(keyType, a, c)
  {
    if !(keyType == INT_KEY) {
      CompareToTransitive(Units(a), Units(b), Units(c));
    }
  }

  /** Two keys that fit are equal or ordered one way or the other. */
  lemma LessTotal(keyType: int, a: Key, b: Key)
    requires Fits(keyType, a) && Fits(keyType, b)
    ensures a == b || Less(keyType, a, b) || Less(keyType, b, a)
    ensures !(Less(keyType, a, b) && Less(keyType, b, a))
    ensures !Less(keyType, a, a)
  {
    CompareZeroIffEqual(keyType, a, b);
    CompareAntisymmetric(keyType, a, b);
    CompareAntisymmetric(keyType, b, a);
    CompareZeroIffEqual(keyType, a, a);
  }
}
