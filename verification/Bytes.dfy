/** Bytes and the little-endian 32-bit words that the C++, C and Python sides put on the wire. */
module Bytes {
  type Byte = b: int | 0 <= b < 256

  const U32 := 0x1_0000_0000

  /** A uint32_t. */
  type Word = n: int | 0 <= n < U32

  function Min(a: int, b: int): int {
    if a < b then a else b
  }

  /** Byte i is `0xFF & (n >> (8 * i))`. */
  function Le32(n: nat): (s: seq<Byte>)
    requires n < U32
    ensures |s| == 4
  {
    var n1 := n / 256;
    var n2 := n1 / 256;
    [n % 256, n1 % 256, n2 % 256, n2 / 256]
  }

  /** The bytes of `s` OR-ed together, byte i shifted left by 8 * i; the bit ranges are disjoint, so the OR is a sum. */
  function FromLe(s: seq<Byte>): nat {
    if s == [] then 0 else s[0] + 256 * FromLe(s[1..])
  }

  /** `b << (8 * i)`. */
  function ShiftLeft(b: Byte, i: nat): nat {
    if i == 0 then b else 256 * ShiftLeft(b, i - 1)
  }

  lemma {:induction false} FromLeSnoc(s: seq<Byte>, b: Byte)
    ensures FromLe(s + [b]) == FromLe(s) + ShiftLeft(b, |s|)
  {
    if s == [] {
      assert (s + [b])[1..] == [];
    } else {
      assert (s + [b])[1..] == s[1..] + [b];
      FromLeSnoc(s[1..], b);
    }
  }

  lemma FromLe32(s: seq<Byte>)
    requires |s| == 4
    ensures FromLe(s) == s[0] + 256 * s[1] + 0x1_0000 * s[2] + 0x100_0000 * s[3] < U32
  {
    assert s[1..][1..] == s[2..] && s[2..][1..] == s[3..] && s[3..][1..] == [];
    assert FromLe(s[3..]) == s[3];
    assert FromLe(s[2..]) == s[2] as int + 256 * s[3] as int;
    assert FromLe(s[1..]) == s[1] as int + 256 * FromLe(s[2..]);
  }

  lemma FromLeShort(s: seq<Byte>)
    requires |s| <= 4
    ensures FromLe(s) < U32
  {
    if |s| == 4 {
      FromLe32(s);
    } else if |s| > 0 {
      FromLeBound(s);
    }
  }

  lemma {:induction false} FromLeBound(s: seq<Byte>)
    requires |s| <= 3
    ensures FromLe(s) < 0x100_0000
    ensures |s| <= 2 ==> FromLe(s) < 0x1_0000
    ensures |s| <= 1 ==> FromLe(s) < 256
  {
    if |s| > 0 {
      FromLeBound(s[1..]);
    }
  }

  lemma Le32RoundTrip(n: nat)
    requires n < U32
    ensures FromLe(Le32(n)) == n
  {
    FromLe32(Le32(n));
    var n1 := n / 256;
    var n2 := n1 / 256;
    assert n == n % 256 + 256 * n1 && n1 == n1 % 256 + 256 * n2 && n2 == n2 % 256 + 256 * (n2 / 256);
  }

  lemma Le32OfBytes(s: seq<Byte>)
    requires |s| == 4
    ensures FromLe(s) < U32 && Le32(FromLe(s)) == s
  {
    FromLe32(s);
    var high: int := s[1] as int + 256 * s[2] as int + 0x1_0000 * s[3] as int;
    assert FromLe(s) == s[0] as int + 256 * high;
    assert FromLe(s) % 256 == s[0] && FromLe(s) / 256 == high;
    assert high % 256 == s[1] && high / 256 == s[2] as int + 256 * s[3] as int;
  }
}
