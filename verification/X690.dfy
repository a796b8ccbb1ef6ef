/** DER as ITU-T X.690 writes it: lengths, integers and named bits by their values. */
module X690 {
  import opened Bytes

  // ---- Lengths (sections 8.1.3 and 10.1) ----

  /** The one definite length of `n`: short below 128, else a count and that many octets, the first not zero. */
  predicate IsLength(octets: Bytes, n: nat) {
    if n < 128 then octets == [n]
    else |octets| >= 2 && octets[0] == 128 + (|octets| - 1) && octets[1] != 0 && FromBigEndian(octets[1..]) == n
  }

  // ---- Integers (section 8.3) ----

  /** The content octets of a number that is not negative: the sign bit clear, no octet to spare. */
  predicate IsInteger(content: Bytes, n: nat) {
    && content != [] && content[0] < 128
    && (|content| > 1 && content[0] == 0 ==> content[1] >= 128)
    && FromBigEndian(content) == n
  }

  lemma {:induction false} LeadingZeros(k: nat, b: Bytes)
    ensures FromBigEndian(Zeros(k) + b) == FromBigEndian(b)
    decreases k
  {
    if k == 0 {
      assert Zeros(0) + b == b;
    } else {
      LeadingZeros(k - 1, b);
      FirstByteWeighsMost(0, Zeros(k - 1) + b);
      assert Zeros(k) + b == [0] + (Zeros(k - 1) + b);
    }
  }

  /** Strings of one length are equal when their numbers are. */
  lemma SameNumber(a: Bytes, b: Bytes)
    requires |a| == |b| && FromBigEndian(a) == FromBigEndian(b)
    ensures a == b
  {
    FromBigEndianRoundTrip(a);
    FromBigEndianRoundTrip(b);
  }

  lemma AtLeast(a: Bytes)
    requires a != [] && a[0] != 0
    ensures FromBigEndian(a) >= Pow256(|a| - 1)
  {
    hide FromBigEndian, Pow256;
    FirstByteWeighsMost(a[0], a[1..]);
    assert a == [a[0]] + a[1..];
    Times(a[0], Pow256(|a| - 1));
  }

  lemma Times(a: nat, p: nat)
    requires a >= 1
    ensures a * p >= p
  {
  }

  /** A string that does not start in zero is no longer than one of the same number. */
  lemma NoLonger(a: Bytes, b: Bytes)
    requires a != [] && a[0] != 0 && FromBigEndian(a) == FromBigEndian(b)
    ensures |a| <= |b|
  {
    hide FromBigEndian, Pow256;
    AtLeast(a);
    FromBigEndianRoundTrip(b);
    if |b| < |a| {
      Pow256Grows(|b|, |a| - 1);
    }
  }

  lemma {:induction false} Pow256Grows(a: nat, b: nat)
    requires a <= b
    ensures Pow256(a) <= Pow256(b)
  {
    if a < b {
      Pow256Grows(a, b - 1);
    }
  }

  /** The content without the octet that only clears the sign. */
  function Significant(content: Bytes): (m: Bytes) {
    if |content| > 1 && content[0] == 0 then content[1..] else content
  }

  lemma SignificantOf(content: Bytes, n: nat)
    requires IsInteger(content, n)
    ensures FromBigEndian(Significant(content)) == n
    ensures if n == 0 then content == [0] else Significant(content)[0] != 0
  {
    var m := Significant(content);
    if m != content {
      FirstByteWeighsMost(0, m);
      assert content == [0] + m;
    }
    if m[0] != 0 {
      AtLeast(m);
    } else {
      assert m[..0] == [];
    }
  }

  /** A number has one such content. */
  lemma IntegerUnique(a: Bytes, b: Bytes, n: nat)
    requires IsInteger(a, n) && IsInteger(b, n)
    ensures a == b
  {
    hide FromBigEndian;
    SignificantOf(a, n);
    SignificantOf(b, n);
    if n != 0 {
      NoLonger(Significant(a), Significant(b));
      NoLonger(Significant(b), Significant(a));
      SameNumber(Significant(a), Significant(b));
      assert a == if Significant(a)[0] >= 128 then [0] + Significant(a) else Significant(a);
      assert b == if Significant(b)[0] >= 128 then [0] + Significant(b) else Significant(b);
    }
  }

  // ---- Named bits (section 8.6) ----

  /** Bit `i` of a bit string's data, the first bit being the most significant of the first octet. */
  predicate HasBit(data: Bytes, i: nat) {
    i / 8 < |data| && data[i / 8] as int / Weight(7 - i % 8) % 2 == 1
  }

  function Weight(i: nat): (w: nat)
    ensures w >= 1
  {
    if i == 0 then 1 else 2 * Weight(i - 1)
  }
}
