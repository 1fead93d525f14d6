/** Comparison of texts, as the string operators do it. Characters are signed. */
module StringOrder {
  import opened Bytes

  /** A character of the host's signed `char` type. */
  function Signed(b: byte): int { if b < 128 then b else b - 256 }

  /** The lexicographic order. */
  predicate Less(a: seq<byte>, b: seq<byte>)
  {
    b != [] && (a == [] || Signed(a[0]) < Signed(b[0]) || (a[0] == b[0] && Less(a[1..], b[1..])))
  }

  lemma {:induction false} CommonPrefix(a: seq<byte>, b: seq<byte>, i: nat)
    requires i <= |a| && i <= |b| && a[..i] == b[..i]
    ensures Less(a, b) == Less(a[i..], b[i..])
  {
    if i > 0 {
      assert a[0] == a[..i][0] == b[..i][0];
      assert a[1..][..i - 1] == a[..i][1..] && b[1..][..i - 1] == b[..i][1..];
      CommonPrefix(a[1..], b[1..], i - 1);
      assert a[1..][i - 1..] == a[i..] && b[1..][i - 1..] == b[i..];
    }
  }

  /**
  The texts agree before position `i`, and there either `a` ends and `b` does not, or the byte of `a` is the
  smaller one, both read as numbers from -128 to 127.
  */
  predicate SmallerFrom(a: seq<byte>, b: seq<byte>, i: nat)
  {
    && i <= |a| && i < |b| && a[..i] == b[..i]
    && (i < |a| ==>
          var x: int, y: int := a[i], b[i];
          (if x >= 128 then x - 256 else x) < (if y >= 128 then y - 256 else y))
  }

  lemma SameStart(a: seq<byte>, b: seq<byte>, i: nat)
    ensures SmallerFrom(a, b, i) && i > 0 ==> a != [] && a[0] == b[0]
  {
    assert SmallerFrom(a, b, i) && i > 0 ==> a[0] == a[..i][0] == b[..i][0] == b[0];
  }

  /** The order is decided at the first position where the texts differ. */
  lemma {:induction false} LessIff(a: seq<byte>, b: seq<byte>)
    ensures Less(a, b) <==> exists i: nat :: SmallerFrom(a, b, i)
  {
    if b == [] {
    } else if a == [] || Signed(a[0]) < Signed(b[0]) {
      assert SmallerFrom(a, b, 0);
    } else if a[0] == b[0] {
      LessIff(a[1..], b[1..]);
      if i: nat :| SmallerFrom(a, b, i) {
        assert a[1..i] == a[..i][1..] == b[..i][1..] == b[1..i];
        assert i > 0 && a[1..][..i - 1] == a[1..i] && b[1..][..i - 1] == b[1..i];
        assert SmallerFrom(a[1..], b[1..], i - 1);
      }
      if i: nat :| SmallerFrom(a[1..], b[1..], i) {
        assert a[..i + 1] == [a[0]] + a[1..][..i] && b[..i + 1] == [b[0]] + b[1..][..i];
        assert SmallerFrom(a, b, i + 1);
      }
    } else {
      forall i: nat {
        SameStart(a, b, i);
      }
    }
  }

  /** `operator<`. */
  method LessThan(a: seq<byte>, b: seq<byte>) returns (less: bool)
    ensures less == Less(a, b)
    ensures less <==> exists i: nat :: SmallerFrom(a, b, i)
  {
    LessIff(a, b);
    var shorter := if |a| < |b| then |a| else |b|;
    var i := 0;
    while i < shorter
      invariant 0 <= i <= shorter && a[..i] == b[..i]
    {
      CommonPrefix(a, b, i);
      if Signed(a[i]) < Signed(b[i]) {
        return true;
      }
      if Signed(a[i]) > Signed(b[i]) {
        return false;
      }
      i := i + 1;
    }
    CommonPrefix(a, b, shorter);
    return |a| < |b|;
  }

  /** `operator==`. */
  method Equals(a: seq<byte>, b: seq<byte>) returns (equal: bool)
    ensures equal == (a == b)
  {
    if |a| != |b| {
      return false;
    }
    var i := 0;
    while i < |a|
      invariant 0 <= i <= |a| && a[..i] == b[..i]
    {
      if a[i] != b[i] {
        return false;
      }
      i := i + 1;
    }
    return true;
  }

  /** Exactly one of `<`, `==`, `>` holds. */
  lemma {:induction false} Trichotomy(a: seq<byte>, b: seq<byte>)
    ensures Less(a, b) ==> a != b && !Less(b, a)
    ensures !Less(a, b) && a != b ==> Less(b, a)
  {
    if a != [] && b != [] && a[0] == b[0] {
      Trichotomy(a[1..], b[1..]);
      assert a == [a[0]] + a[1..] && b == [b[0]] + b[1..];
    }
  }

  lemma {:induction false} LessTransitive(a: seq<byte>, b: seq<byte>, c: seq<byte>)
    requires Less(a, b) && Less(b, c)
    ensures Less(a, c)
  {
    if a != [] && a[0] == b[0] == c[0] {
      LessTransitive(a[1..], b[1..], c[1..]);
    }
  }
}
