/** Bytes, exclusive or, big-endian numbers and the masking of section 5.3 of RFC 6455. */
module Bytes {
  type byte = x: int | 0 <= x < 256

  /** The four bytes of a masking key. */
  type Key = k: seq<byte> | |k| == 4 witness [0, 0, 0, 0]

  datatype Option<+T> = None | Some(value: T)

  // -- Exclusive or ------------------------------------------------------

  function Pow2(k: nat): (p: nat)
    ensures p >= 1
  {
    if k == 0 then 1 else 2 * Pow2(k - 1)
  }

  /** Exclusive or of the lowest k bits of a and b. */
  function XorBits(a: nat, b: nat, k: nat): (r: nat)
    ensures r < Pow2(k)
  {
    if k == 0 then 0
    else (if a % 2 == b % 2 then 0 else 1) + 2 * XorBits(a / 2, b / 2, k - 1)
  }

  lemma {:induction false} XorBitsCancel(a: nat, b: nat, k: nat)
    requires a < Pow2(k)
    ensures XorBits(XorBits(a, b, k), b, k) == a
  {
    if k > 0 {
      XorBitsStep(a, b, k);
      XorBitsStep(XorBits(a, b, k), b, k);
      hide XorBits;
      XorBitsCancel(a / 2, b / 2, k - 1);
    }
  }

  lemma XorBitsStep(a: nat, b: nat, k: nat)
    requires k > 0
    ensures XorBits(a, b, k) % 2 == if a % 2 == b % 2 then 0 else 1
    ensures XorBits(a, b, k) / 2 == XorBits(a / 2, b / 2, k - 1)
  {
  }

  lemma Pow2Of8()
    ensures Pow2(8) == 256
  {
    assert Pow2(4) == 16;
    assert Pow2(6) == 64;
  }

  function Xor(a: byte, b: byte): byte {
    Pow2Of8();
    XorBits(a, b, 8)
  }

  /** Bit i of a number. */
  function Bit(a: nat, i: nat): nat { a / Pow2(i) % 2 }

  lemma BitStep(a: nat, i: nat)
    ensures Bit(a, 0) == a % 2 && Bit(a, i + 1) == Bit(a / 2, i)
  {
    DivTwice(a, Pow2(i));
  }

  lemma NextMultiple(p: nat, q: nat, n: nat)
    requires p < q
    ensures p * n + n <= q * n
  {
    var d := q - p - 1;
    assert (p + 1 + d) * n == (p + 1) * n + d * n;
    assert d * n >= 0;
  }

  /** The quotient is the number of times n goes into a. */
  lemma Quotient(a: nat, n: nat, q: nat)
    requires n > 0 && q * n <= a < q * n + n
    ensures a / n == q
  {
    if a / n < q {
      NextMultiple(a / n, q, n);
    } else if a / n > q {
      NextMultiple(q, a / n, n);
    }
  }

  lemma DivTwice(a: nat, n: nat)
    requires n > 0
    ensures a / (2 * n) == a / 2 / n
  {
    var q := a / 2 / n;
    assert a / 2 == q * n + a / 2 % n;
    assert q * (2 * n) == 2 * (q * n);
    Quotient(a, 2 * n, q);
  }

  lemma {:induction false} XorBitsBits(a: nat, b: nat, k: nat, i: nat)
    requires i < k
    ensures Bit(XorBits(a, b, k), i) == if Bit(a, i) == Bit(b, i) then 0 else 1
  {
    hide Bit, Pow2;
    XorBitsStep(a, b, k);
    BitStep(a, if i == 0 then 0 else i - 1);
    BitStep(b, if i == 0 then 0 else i - 1);
    BitStep(XorBits(a, b, k), if i == 0 then 0 else i - 1);
    if i > 0 {
      XorBitsBits(a / 2, b / 2, k - 1, i - 1);
    }
  }

  /** Exclusive or, bit by bit: a bit is set exactly when the bits of a and b differ. */
  lemma XorIsExclusiveOr(a: byte, b: byte, i: nat)
    requires i < 8
    ensures Xor(a, b) / Pow2(i) % 2 == 1 <==> a / Pow2(i) % 2 != b / Pow2(i) % 2
  {
    XorBitsBits(a, b, 8, i);
  }

  lemma XorCancel(a: byte, b: byte)
    ensures Xor(Xor(a, b), b) == a
  {
    Pow2Of8();
    XorBitsCancel(a, b, 8);
  }

  lemma {:induction false} XorBitsSame(a: nat, b: nat, k: nat)
    requires a < Pow2(k) && b < Pow2(k)
    ensures XorBits(a, b, k) == a <==> b == 0
  {
    if k > 0 {
      XorBitsSame(a / 2, b / 2, k - 1);
    }
  }

  /** Only a zero key byte leaves a byte as it is. */
  lemma XorSame(a: byte, b: byte)
    ensures Xor(a, b) == a <==> b == 0
  {
    Pow2Of8();
    XorBitsSame(a, b, 8);
  }

  // -- Masking -----------------------------------------------------------

  /** The payload bytes at offset off, each combined with its key byte. */
  function Mask(key: Option<Key>, data: seq<byte>, off: nat): (m: seq<byte>)
    ensures |m| == |data|
  {
    match key
    case None => data
    case Some(k) => seq(|data|, i requires 0 <= i < |data| => Xor(data[i], k[(off + i) % 4]))
  }

  /** Masking twice with one key gives the payload back, whatever the offset. */
  lemma MaskCancels(key: Option<Key>, data: seq<byte>, off: nat)
    ensures Mask(key, Mask(key, data, off), off) == data
  {
    if key.Some? {
      forall i | 0 <= i < |data|
        ensures Mask(key, Mask(key, data, off), off)[i] == data[i]
      {
        XorCancel(data[i], key.value[(off + i) % 4]);
      }
    }
  }

  /** Masking piecewise is masking the whole, when each piece is given its offset. */
  lemma MaskConcat(key: Option<Key>, a: seq<byte>, b: seq<byte>, off: nat)
    ensures Mask(key, a + b, off) == Mask(key, a, off) + Mask(key, b, off + |a|)
  {
    if key.Some? {
      var l, r := Mask(key, a + b, off), Mask(key, a, off) + Mask(key, b, off + |a|);
      forall i | 0 <= i < |a| + |b|
        ensures l[i] == r[i]
      {
        if i >= |a| {
          assert off + i == (off + |a|) + (i - |a|);
        }
      }
    }
  }

  /** A key leaves a payload as it is exactly when every key byte it reaches is zero. */
  lemma MaskIsIdentity(key: Key, data: seq<byte>)
    ensures Mask(Some(key), data, 0) == data <==> forall i | 0 <= i < |data| :: key[i % 4] == 0
  {
    hide Xor;
    var m := Mask(Some(key), data, 0);
    forall i | 0 <= i < |data|
      ensures m[i] == data[i] <==> key[i % 4] == 0
    {
      XorSame(data[i], key[i % 4]);
    }
    if forall i | 0 <= i < |data| :: key[i % 4] == 0 {
      assert forall i | 0 <= i < |data| :: m[i] == data[i];
      assert m == data;
    }
  }

  // -- Big-endian numbers ------------------------------------------------

  function Pow256(k: nat): (p: nat)
    ensures p >= 1
  {
    if k == 0 then 1 else 256 * Pow256(k - 1)
  }

  lemma Pow256Values()
    ensures Pow256(2) == 0x1_0000
    ensures Pow256(8) == 0x1_0000_0000_0000_0000
  {
    assert Pow256(4) == 0x1_0000_0000;
    assert Pow256(6) == 0x1_0000_0000_0000;
  }

  /** n in network byte order on k bytes. */
  function BigEndian(n: nat, k: nat): (s: seq<byte>)
    ensures |s| == k
  {
    if k == 0 then [] else BigEndian(n / 256, k - 1) + [n % 256]
  }

  function FromBigEndian(s: seq<byte>): nat {
    if s == [] then 0 else 256 * FromBigEndian(s[..|s| - 1]) + s[|s| - 1]
  }

  lemma {:induction false} BigEndianDecodes(n: nat, k: nat)
    requires n < Pow256(k)
    ensures FromBigEndian(BigEndian(n, k)) == n
  {
    if k > 0 {
      BigEndianDecodes(n / 256, k - 1);
      var s := BigEndian(n, k);
      assert s[..k - 1] == BigEndian(n / 256, k - 1);
    }
  }

  lemma {:induction false} FromBigEndianEncodes(s: seq<byte>)
    ensures FromBigEndian(s) < Pow256(|s|)
    ensures BigEndian(FromBigEndian(s), |s|) == s
  {
    if s != [] {
      var t := s[..|s| - 1];
      FromBigEndianEncodes(t);
      assert FromBigEndian(s) / 256 == FromBigEndian(t);
      assert s == t + [s[|s| - 1]];
    }
  }
}
