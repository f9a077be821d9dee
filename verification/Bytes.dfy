/**
 Unsigned 8-bit values and the bit operations the firmware performs on them, written as
 arithmetic on bounded integers.
 */
module Bytes {

  /** `uint8_t`. */
  type Byte = b: int | 0 <= b < 256

  /** `b & mask != 0` for the single-bit masks from 0x08 up. */
  predicate HasBit(b: Byte, mask: int) {
    if mask == 0x80 then b >= 128
    else if mask == 0x40 then b % 128 >= 64
    else if mask == 0x20 then b % 64 >= 32
    else if mask == 0x10 then b % 32 >= 16
    else b % 16 >= 8
  }

  /** `uint8_t` addition; a negative operand subtracts. */
  function Add8(a: int, b: int): Byte {
    (a + b) % 256
  }

  /** Integer addition of two bytes, before any truncation. */
  function Plus(a: int, b: int): int {
    a + b
  }

  /** `a | b`, bit by bit. */
  function Or(a: nat, b: nat): nat {
    if a == 0 && b == 0 then 0
    else 2 * Or(a / 2, b / 2) + (if a % 2 == 1 || b % 2 == 1 then 1 else 0)
  }

  function Pow2(k: nat): nat {
    if k == 0 then 1 else 2 * Pow2(k - 1)
  }

  /** Or-ing bits into places that are zero is adding them. */
  lemma {:induction false} OrAdds(a: nat, b: nat, k: nat)
    requires b < Pow2(k)
    ensures Or(a * Pow2(k), b) == a * Pow2(k) + b
    decreases k, a
  {
    if k > 0 {
      var p := Pow2(k - 1);
      assert a * Pow2(k) == 2 * (a * p);
      OrAdds(a, b / 2, k - 1);
    } else if a > 0 {
      assert a * Pow2(0) == a;
      OrAdds(a / 2, 0, 0);
      assert a / 2 * Pow2(0) == a / 2;
    }
  }

  /** Four bytes, the most significant first. */
  function Word32(b3: int, b2: int, b1: int, b0: int): int {
    b3 * 0x1000000 + b2 * 0x10000 + b1 * 0x100 + b0
  }

  /** Four bytes shifted into place and or-ed. */
  lemma Word32IsOr(b3: nat, b2: nat, b1: nat, b0: nat)
    requires b3 < 256 && b2 < 256 && b1 < 256 && b0 < 256
    ensures Or(Or(Or(b3 * 0x1000000, b2 * 0x10000), b1 * 0x100), b0) == Word32(b3, b2, b1, b0)
  {
    hide Or, Pow2;
    BytePowers();
    OrAdds(b3, b2 * 0x10000, 24);
    var high := b3 * 0x100 + b2;
    assert b3 * 0x1000000 + b2 * 0x10000 == high * 0x10000;
    OrAdds(high, b1 * 0x100, 16);
    var middle := high * 0x100 + b1;
    assert high * 0x10000 + b1 * 0x100 == middle * 0x100;
    OrAdds(middle, b0, 8);
  }

  lemma BytePowers()
    ensures Pow2(8) == 0x100 && Pow2(16) == 0x10000 && Pow2(24) == 0x1000000
  {
    assert Pow2(4) == 16 && Pow2(8) == 256;
    assert Pow2(12) == 0x1000 && Pow2(16) == 0x10000;
    assert Pow2(20) == 0x100000 && Pow2(24) == 0x1000000;
  }

  /** A mask with one bit from 08 up selects the bit at its place. */
  lemma HasBitIsBit(b: Byte)
    ensures (HasBit(b, 0x80) <==> b / 128 % 2 == 1) && (HasBit(b, 0x40) <==> b / 64 % 2 == 1)
    ensures (HasBit(b, 0x20) <==> b / 32 % 2 == 1) && (HasBit(b, 0x10) <==> b / 16 % 2 == 1)
    ensures HasBit(b, 0x08) <==> b / 8 % 2 == 1
  {
    HalfOf(b, 64);
    HalfOf(b, 32);
    HalfOf(b, 16);
    HalfOf(b, 8);
  }

  lemma HalfOf(b: Byte, h: nat)
    requires h == 64 || h == 32 || h == 16 || h == 8
    ensures b % (2 * h) >= h <==> b / h % 2 == 1
  {
    if h == 64 {
    } else if h == 32 {
    } else if h == 16 {
    }
  }

  /** What a `String` built from a NUL-terminated copy of `s` holds. */
  function CString(s: seq<Byte>): (r: seq<Byte>)
    ensures |r| <= |s|
    ensures 0 !in r
    ensures r <= s && (|r| < |s| ==> s[|r|] == 0)
    ensures 0 !in s ==> r == s
  {
    if s == [] || s[0] == 0 then [] else [s[0]] + CString(s[1..])
  }

  /** The sum of a byte sequence, before any truncation. */
  function Sum(s: seq<Byte>): nat {
    if s == [] then 0 else Sum(s[..|s| - 1]) + s[|s| - 1]
  }

  lemma {:induction false} SumAppend(s: seq<Byte>, t: seq<Byte>)
    ensures Sum(s + t) == Sum(s) + Sum(t)
  {
    if t == [] {
      assert s + t == s;
    } else {
      assert (s + t)[..|s + t| - 1] == s + t[..|t| - 1];
      SumAppend(s, t[..|t| - 1]);
    }
  }
}

/** `memcpy` and the sequence update it performs. */
module Memory {
  import opened Bytes

  /** `d` with `s` written over it from `at` on. */
  function Splice<T>(d: seq<T>, at: nat, s: seq<T>): (r: seq<T>)
    requires at + |s| <= |d|
    ensures |r| == |d|
    ensures forall i :: 0 <= i < |d| ==> r[i] == if at <= i < at + |s| then s[i - at] else d[i]
  {
    d[..at] + s + d[at + |s|..]
  }

  /** Copies `s`, taken from another object, to `dst + at`. */
  method MemCpy<T>(dst: array<T>, at: nat, s: seq<T>)
    requires at + |s| <= dst.Length
    modifies dst
    ensures dst[..] == Splice(old(dst[..]), at, s)
  {
    for i := 0 to |s|
      invariant forall j :: 0 <= j < dst.Length ==> dst[j] == if at <= j < at + i then s[j - at] else old(dst[j])
    {
      dst[at + i] := s[i];
    }
  }
}

module Options {

  datatype Option<+T> = None | Some(value: T)
}
