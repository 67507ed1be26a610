// FNVHash64 of hw1/HashTable.c, on 64-bit values with explicit wrap-around.
module Fnv {
  import opened Wrappers
  import opened ChainTable
  import opened SurvivorLaws
  import opened WordSpec

  const FNV1_64_INIT: Key := 0xcbf29ce484222325
  const FNV_64_PRIME := 0x100000001b3
  const FNV_64_PRIME_INVERSE := 0xce965057aff6957b

  // Exclusive or of the low n bits.
  function XorBits(a: nat, b: nat, n: nat): nat {
    if n == 0 then 0 else (a % 2 + b % 2) % 2 + 2 * XorBits(a / 2, b / 2, n - 1)
  }

  // hval ^= octet, on all 64 bits.
  function XorOctet(hval: Key, octet: Byte): Key {
    XorBitsBounded(hval, octet, 64);
    XorBits(hval, octet, 64)
  }

  function Pow2(n: nat): nat {
    if n == 0 then 1 else 2 * Pow2(n - 1)
  }

  lemma {:induction false} XorBitsBounded(a: nat, b: nat, n: nat)
    ensures XorBits(a, b, n) < Pow2(n)
    ensures n == 64 ==> Pow2(n) == TWO_64
    decreases n
  {
    if n != 0 {
      XorBitsBounded(a / 2, b / 2, n - 1);
    }
    if n == 64 {
      PowersOfTwo();
    }
  }

  lemma PowersOfTwo()
    ensures Pow2(64) == TWO_64
  {
    assert Pow2(8) == 256;
    hide Pow2;
    PowersAdd(8, 8);
    PowersAdd(16, 16);
    PowersAdd(32, 32);
  }

  lemma {:induction false} PowersAdd(m: nat, n: nat)
    ensures Pow2(m + n) == Pow2(m) * Pow2(n)
    decreases n
  {
    if n != 0 {
      PowersAdd(m, n - 1);
    }
  }

  // hval *= FNV_64_PRIME, modulo 2^64.
  function TimesPrime(hval: Key): Key {
    hval * FNV_64_PRIME % TWO_64
  }

  function Round(hval: Key, octet: Byte): Key {
    TimesPrime(XorOctet(hval, octet))
  }

  function Rounds(hval: Key, buffer: seq<Byte>): Key {
    if buffer == [] then hval else Round(Rounds(hval, buffer[..|buffer| - 1]), buffer[|buffer| - 1])
  }

  method FNVHash64(buffer: seq<Byte>) returns (hval: Key)
    ensures hval == Rounds(FNV1_64_INIT, buffer)
  {
    hide Round;
    hval := FNV1_64_INIT;
    var bp := 0;
    while bp < |buffer|
      invariant 0 <= bp <= |buffer|
      invariant hval == Rounds(FNV1_64_INIT, buffer[..bp])
    {
      assert buffer[..bp + 1][..bp] == buffer[..bp];
      hval := OneOctet(hval, buffer[bp]);
      bp := bp + 1;
    }
    assert buffer[..bp] == buffer;
  }

  method OneOctet(hval: Key, octet: Byte) returns (r: Key)
    ensures r == Round(hval, octet)
  {
    hide XorOctet, TimesPrime;
    r := XorOctet(hval, octet);
    r := TimesPrime(r);
  }

  lemma LowBit(a: nat, b: nat, n: nat)
    requires 0 < n
    ensures XorBits(a, b, n) % 2 == (a % 2 + b % 2) % 2
    ensures XorBits(a, b, n) / 2 == XorBits(a / 2, b / 2, n - 1)
  {
    BitAndHalf(XorBits(a, b, n), (a % 2 + b % 2) % 2, XorBits(a / 2, b / 2, n - 1));
  }

  lemma BitAndHalf(x: nat, bit: nat, half: nat)
    requires bit < 2 && x == bit + 2 * half
    ensures x % 2 == bit && x / 2 == half
  {
  }

  function Bit(a: nat, i: nat): nat {
    if i == 0 then a % 2 else Bit(a / 2, i - 1)
  }

  lemma {:induction false} XorBitsBit(a: nat, b: nat, n: nat, i: nat)
    requires i < n
    ensures Bit(XorBits(a, b, n), i) == (Bit(a, i) + Bit(b, i)) % 2
    decreases i
  {
    LowBit(a, b, n);
    if i > 0 {
      XorBitsBit(a / 2, b / 2, n - 1, i - 1);
    }
  }

  // A bit of the result is set exactly if it is set in one of state and octet.
  lemma XorOctetBit(hval: Key, octet: Byte, i: nat)
    requires i < 64
    ensures Bit(XorOctet(hval, octet), i) == (Bit(hval, i) + Bit(octet, i)) % 2
  {
    XorBitsBit(hval, octet, 64, i);
  }

  lemma BitCancels(a: nat, b: nat)
    ensures ((a % 2 + b % 2) % 2 + b % 2) % 2 == a % 2
  {
  }

  // Whatever a round xors in, xoring it in again takes it out.
  lemma {:induction false} XorBitsCancels(a: nat, b: nat, n: nat)
    requires a < Pow2(n)
    ensures XorBits(XorBits(a, b, n), b, n) == a
    decreases n
  {
    if n != 0 {
      var x := XorBits(a, b, n);
      LowBit(a, b, n);
      LowBit(x, b, n);
      BitCancels(a, b);
      hide XorBits;
      XorBitsCancels(a / 2, b / 2, n - 1);
    }
  }

  lemma BitSeparates(a: nat, b: nat, c: nat)
    requires (a % 2 + b % 2) % 2 == (a % 2 + c % 2) % 2
    ensures b % 2 == c % 2
  {
  }

  // Different octets change the same state differently.
  lemma {:induction false} XorBitsSeparates(a: nat, b: nat, c: nat, n: nat)
    requires b < Pow2(n) && c < Pow2(n) && XorBits(a, b, n) == XorBits(a, c, n)
    ensures b == c
    decreases n
  {
    hide XorBits;
    if n != 0 {
      LowBit(a, b, n);
      LowBit(a, c, n);
      BitSeparates(a, b, c);
      XorBitsSeparates(a / 2, b / 2, c / 2, n - 1);
    }
  }

  // The prime is invertible modulo 2^64.
  lemma TimesPrimeCancels(hval: Key)
    ensures TimesPrime(hval) * FNV_64_PRIME_INVERSE % TWO_64 == hval
  {
    var q, r := hval * FNV_64_PRIME / TWO_64, TimesPrime(hval);
    InverseTimesRest(hval, q, r);
    MultipleDropsOut(r * FNV_64_PRIME_INVERSE, hval, hval * 0xce9650590f - q * FNV_64_PRIME_INVERSE);
  }

  // With hval * prime == q * 2^64 + r, and prime * inverse == 1 + 2^64 * 0xce9650590f.
  lemma InverseTimesRest(hval: int, q: int, r: int)
    requires hval * 0x100000001b3 == q * 0x1_0000_0000_0000_0000 + r
    ensures r * 0xce965057aff6957b == hval + 0x1_0000_0000_0000_0000 * (hval * 0xce9650590f - q * 0xce965057aff6957b)
  {
  }

  lemma MultipleDropsOut(x: int, h: int, t: int)
    requires 0 <= h < TWO_64 && x == h + 0x1_0000_0000_0000_0000 * t
    ensures x % TWO_64 == h
  {
  }

  // For each octet, a round maps different states to different states.
  lemma RoundIsInjective(g: Key, h: Key, octet: Byte)
    requires Round(g, octet) == Round(h, octet)
    ensures g == h
  {
    hide TimesPrime, XorBits, Pow2;
    TimesPrimeCancels(XorOctet(g, octet));
    TimesPrimeCancels(XorOctet(h, octet));
    PowersOfTwo();
    XorBitsCancels(g, octet, 64);
    XorBitsCancels(h, octet, 64);
  }

  // From each state, different octets lead to different states.
  lemma OctetsSeparate(hval: Key, b: Byte, c: Byte)
    requires Round(hval, b) == Round(hval, c)
    ensures b == c
  {
    hide TimesPrime, XorBits, Pow2;
    TimesPrimeCancels(XorOctet(hval, b));
    TimesPrimeCancels(XorOctet(hval, c));
    PowersOfTwo();
    XorBitsSeparates(hval, b, c, 64);
  }

  lemma {:induction false} RoundsAreInjective(g: Key, h: Key, buffer: seq<Byte>)
    requires Rounds(g, buffer) == Rounds(h, buffer)
    ensures g == h
    decreases |buffer|
  {
    hide Round;
    if buffer != [] {
      var init := buffer[..|buffer| - 1];
      RoundIsInjective(Rounds(g, init), Rounds(h, init), buffer[|buffer| - 1]);
      RoundsAreInjective(g, h, init);
    }
  }

  lemma {:induction false} RoundsSplit(hval: Key, left: seq<Byte>, right: seq<Byte>)
    ensures Rounds(hval, left + right) == Rounds(Rounds(hval, left), right)
    decreases |right|
  {
    hide Round;
    var all := left + right;
    if right == [] {
      assert all == left;
    } else {
      RoundsSplit(hval, left, right[..|right| - 1]);
      assert all[..|all| - 1] == left + right[..|right| - 1];
    }
  }

  // Two buffers of equal length that differ in exactly one octet never collide.
  lemma OneOctetDifferenceIsSeen(left: seq<Byte>, b: Byte, c: Byte, right: seq<Byte>)
    requires b != c
    ensures Rounds(FNV1_64_INIT, left + [b] + right) != Rounds(FNV1_64_INIT, left + [c] + right)
  {
    hide Round;
    var h := Rounds(FNV1_64_INIT, left);
    forall x: Byte
      ensures Rounds(FNV1_64_INIT, left + [x] + right) == Rounds(Round(h, x), right)
    {
      RoundsSplit(FNV1_64_INIT, left + [x], right);
      assert (left + [x])[..|left|] == left;
    }
    if Rounds(Round(h, b), right) == Rounds(Round(h, c), right) {
      RoundsAreInjective(Round(h, b), Round(h, c), right);
      OctetsSeparate(h, b, c);
    }
  }

  lemma {:induction false} XorWithZero(a: nat, n: nat)
    requires a < Pow2(n)
    ensures XorBits(a, 0, n) == a
    decreases n
  {
    if n != 0 {
      XorWithZero(a / 2, n - 1);
    }
  }

  lemma FromLowBit(a: nat, b: nat, n: nat)
    requires 0 < n
    ensures XorBits(a, b, n) == (a % 2 + b % 2) % 2 + 2 * XorBits(a / 2, b / 2, n - 1)
  {
  }

  lemma PowerOf57()
    ensures Pow2(57) * 128 == TWO_64
  {
    PowersOfTwo();
    assert Pow2(7) == 128;
    hide Pow2;
    PowersAdd(57, 7);
  }

  lemma XorOfA()
    ensures XorBits(FNV1_64_INIT, 97, 64) == 0xcbf29ce484222344
  {
    hide XorBits, Pow2;
    PowerOf57();
    FromLowBit(0xcbf29ce484222325, 97, 64);
    FromLowBit(0x65f94e7242111192, 48, 63);
    FromLowBit(0x32fca739210888c9, 24, 62);
    FromLowBit(0x197e539c90844464, 12, 61);
    FromLowBit(0xcbf29ce48422232, 6, 60);
    FromLowBit(0x65f94e724211119, 3, 59);
    FromLowBit(0x32fca739210888c, 1, 58);
    XorWithZero(0x197e539c9084446, 57);
  }

  lemma HashOfA()
    ensures Rounds(FNV1_64_INIT, ['a' as int]) == 0xaf63dc4c8601ec8c
  {
    hide XorBits, Pow2;
    XorOfA();
    assert ['a' as int][..0] == [];
  }

  // The program's own hash of a word need not survive hasKey: that of "a" does
  // not.  Any table stores what is inserted for it, and none ever finds it.
  lemma WordIsLost<V>(t: Buckets<V>, value: V)
    requires 0 < |t|
    ensures var kv := KeyValue(Rounds(FNV1_64_INIT, ['a' as int]), value);
            && kv in Pairs(Insert(t, kv))
            && Find(t, kv.key) != Some(kv)
            && Find(Insert(t, kv), kv.key) != Some(kv)
  {
    HashOfA();
    var kv := KeyValue(Rounds(FNV1_64_INIT, ['a' as int]), value);
    hide Rounds, Insert, Find, Pairs;
    InsertedIsStored(t, kv);
    FindsOnlyNarrow(t, kv.key);
    FindsOnlyNarrow(Insert(t, kv), kv.key);
  }
}
