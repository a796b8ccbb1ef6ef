/** Bytes, big-endian integers, and the few sequence facts every other module needs. */
module Bytes {

  type Byte = x: int | 0 <= x < 256
  type Bytes = seq<Byte>

  datatype Option<+T> = None | Some(value: T) {
    predicate IsFailure() {
      None?
    }

    function PropagateFailure<U>(): Option<U>
      requires None?
    {
      None
    }

    function Extract(): T
      requires Some?
    {
      value
    }
  }

  datatype Result<+T, +E> = Ok(value: T) | Err(error: E) {
    predicate IsFailure() {
      Err?
    }

    function PropagateFailure<U>(): Result<U, E>
      requires Err?
    {
      Err(error)
    }

    function Extract(): T
      requires Ok?
    {
      value
    }
  }

  const TWO64: nat := 0x1_0000_0000_0000_0000

  // ---- Fixed-width big-endian fields ----

  function U16(n: nat): (b: Bytes)
    requires n < 0x1_0000
    ensures |b| == 2
  {
    [n / 256, n % 256]
  }

  function U24(n: nat): (b: Bytes)
    requires n < 0x100_0000
    ensures |b| == 3
  {
    [n / 0x1_0000] + U16(n % 0x1_0000)
  }

  function GetU16(b: Bytes, at: nat): (n: nat)
    requires at + 2 <= |b|
    ensures n < 0x1_0000
    ensures b[at..at + 2] == U16(n)
  {
    (b[at] as int) * 256 + b[at + 1] as int
  }

  function GetU24(b: Bytes, at: nat): (n: nat)
    requires at + 3 <= |b|
    ensures n < 0x100_0000
    ensures b[at..at + 3] == U24(n)
  {
    var low := GetU16(b, at + 1);
    assert b[at..at + 3] == [b[at]] + b[at + 1..at + 3];
    (b[at] as int) * 0x1_0000 + low
  }

  /** The most significant byte comes first. */
  lemma FieldsAreBigEndian(n: nat)
    ensures n < 0x1_0000 ==> U16(n)[0] as int * 0x100 + U16(n)[1] as int == n
    ensures n < 0x100_0000 ==> U24(n)[0] as int * 0x1_0000 + U24(n)[1] as int * 0x100 + U24(n)[2] as int == n
  {
  }

  // ---- Big-endian integers of any width ----

  function Pow256(k: nat): (r: nat)
    ensures r >= 1
  {
    if k == 0 then 1 else 256 * Pow256(k - 1)
  }

  /** The low `k` bytes of `n`, most significant first. */
  function BigEndian(n: nat, k: nat): (b: Bytes)
    ensures |b| == k
  {
    if k == 0 then [] else BigEndian(n / 256, k - 1) + [n % 256]
  }

  function FromBigEndian(b: Bytes): (n: nat)
  {
    if b == [] then 0 else FromBigEndian(b[..|b| - 1]) * 256 + b[|b| - 1]
  }

  lemma {:induction false} BigEndianRoundTrip(n: nat, k: nat)
    requires n < Pow256(k)
    ensures FromBigEndian(BigEndian(n, k)) == n
  {
    if k > 0 {
      BigEndianRoundTrip(n / 256, k - 1);
      assert BigEndian(n, k)[..k - 1] == BigEndian(n / 256, k - 1);
    }
  }

  /** The first byte weighs the most. */
  lemma {:induction false} FirstByteWeighsMost(b: Byte, rest: Bytes)
    ensures FromBigEndian([b] + rest) == b * Pow256(|rest|) + FromBigEndian(rest)
  {
    var all := [b] + rest;
    if rest == [] {
      assert all[..0] == [];
    } else {
      var init := rest[..|rest| - 1];
      FirstByteWeighsMost(b, init);
      assert all[..|all| - 1] == [b] + init;
      assert 256 * (b * Pow256(|init|)) == b * (256 * Pow256(|init|));
    }
  }

  lemma {:induction false} FromBigEndianRoundTrip(b: Bytes)
    ensures FromBigEndian(b) < Pow256(|b|)
    ensures BigEndian(FromBigEndian(b), |b|) == b
  {
    if b != [] {
      FromBigEndianRoundTrip(b[..|b| - 1]);
      assert b == b[..|b| - 1] + [b[|b| - 1]];
    }
  }

  // ---- Sequences ----

  function Zeros(n: nat): (z: Bytes)
    ensures |z| == n
    ensures forall i :: 0 <= i < n ==> z[i] == 0
  {
    seq(n, _ => 0)
  }

  function Flatten(parts: seq<Bytes>): (b: Bytes)
  {
    if parts == [] then [] else parts[0] + Flatten(parts[1..])
  }

  lemma {:induction false} FlattenAppend(a: seq<Bytes>, b: seq<Bytes>)
    ensures Flatten(a + b) == Flatten(a) + Flatten(b)
  {
    hide Flatten;
    if a == [] {
      assert a + b == b;
      assert Flatten(a) == [] by { FlattenNone(); }
      assert [] + Flatten(b) == Flatten(b);
    } else {
      FlattenAppend(a[1..], b);
      assert (a + b)[1..] == a[1..] + b;
      FlattenCons(a);
      FlattenCons(a + b);
      assert a[0] + (Flatten(a[1..]) + Flatten(b)) == a[0] + Flatten(a[1..]) + Flatten(b);
    }
  }

  lemma FlattenNone()
    ensures Flatten([]) == []
  {
  }

  lemma FlattenCons(a: seq<Bytes>)
    requires a != []
    ensures Flatten(a) == a[0] + Flatten(a[1..])
  {
  }

  lemma FlattenOne(a: Bytes)
    ensures Flatten([a]) == a
  {
  }

  /** The bytes of an ASCII literal. */
  function Ascii(s: string): (b: Bytes)
    ensures |b| == |s|
    ensures forall i :: 0 <= i < |s| ==> b[i] == s[i] as int % 256
  {
    seq(|s|, i requires 0 <= i < |s| => s[i] as int % 256)
  }

  /** Equal concatenations with equal-length heads have equal parts. */
  lemma SplitEqual(a: Bytes, b: Bytes, c: Bytes, d: Bytes)
    requires |a| == |c| && a + b == c + d
    ensures a == c && b == d
  {
    assert a == (a + b)[..|a|] && c == (c + d)[..|c|];
    assert b == (a + b)[|a|..] && d == (c + d)[|c|..];
  }

  /** `s` with the bytes from `at` on overwritten by `src`. */
  function Splice(s: Bytes, at: nat, src: Bytes): (r: Bytes)
    requires at + |src| <= |s|
    ensures |r| == |s|
  {
    s[..at] + src + s[at + |src|..]
  }

  /** Adjacent writes are one write. */
  lemma SpliceAdjacent(s: Bytes, at: nat, a: Bytes, b: Bytes)
    requires at + |a| + |b| <= |s|
    ensures Splice(Splice(s, at, a), at + |a|, b) == Splice(s, at, a + b)
  {
  }

  /** Rewriting the tail of a write. */
  lemma SpliceTail(s: Bytes, at: nat, a: Bytes, b: Bytes, c: Bytes)
    requires at + |a| + |b| <= |s| && |b| == |c|
    ensures Splice(Splice(s, at, a + b), at + |a|, c) == Splice(s, at, a + c)
    ensures Splice(s, at, a + b)[at + |a|..at + |a| + |b|] == b
  {
  }

  lemma SpliceReads(s: Bytes, at: nat, src: Bytes)
    requires at + |src| <= |s|
    ensures Splice(s, at, src)[at..at + |src|] == src
    ensures at == 0 ==> Splice(s, at, src)[..|src|] == src
  {
  }

  /** Byte-addressed copy of `src` into `dst` at offset `at`. */
  method CopyBytes(dst: array<Byte>, at: nat, src: Bytes)
    requires at + |src| <= dst.Length
    modifies dst
    ensures dst[..] == Splice(old(dst[..]), at, src)
  {
    var i := 0;
    while i < |src|
      invariant 0 <= i <= |src|
      invariant forall j :: 0 <= j < i ==> dst[at + j] == src[j]
      invariant forall j :: 0 <= j < at || at + i <= j < dst.Length ==> dst[j] == old(dst[j])
    {
      dst[at + i] := src[i];
      i := i + 1;
    }
  }
}
