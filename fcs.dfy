/**
 * src/transport/hdlc.rs: the frame check sequence and the address field of the HDLC frames
 * the transports build. The FCS is the MSB-first CRC with polynomial 0x1021, initial value
 * 0xFFFF and final XOR 0xFFFF, as the code computes it (each octet is folded into the high
 * eight bits of the register). Addresses are written in 1 to 4 octets of seven bits each,
 * the low bit marking the last octet.
 */
module HdlcCodec {
  import opened Bytes

  const HdlcFlag: byte := 0x7E
  const MaxHdlcFrameSize: nat := 2048
  const LlcHeader: seq<byte> := [0xE6, 0xE6, 0x00]
  const Fcs16Polynomial: bv16 := 0x1021
  const Fcs16Init: bv16 := 0xFFFF
  const Fcs16XorOutput: bv16 := 0xFFFF
  const HdlcFormatType3: byte := 0xA0
  const HdlcControlIFrame: byte := 0x10
  const HdlcMinFrameSize: nat := 11
  const HdlcMaxOverheadBytes: nat := 20

  datatype HdlcError = FrameTooLarge | FrameTooShort | InvalidFlag | InvalidFrame | FcsError | BufferTooSmall | TransportError

  /** One pass of the inner loop: shift left, folding in the polynomial when the top bit is set. */
  function ShiftBit(fcs: bv16): bv16 {
    if fcs & 0x8000 != 0 then (fcs << 1) ^ Fcs16Polynomial else fcs << 1
  }

  function ShiftBits(fcs: bv16, k: nat): bv16
    decreases k
  {
    if k == 0 then fcs else ShiftBit(ShiftBits(fcs, k - 1))
  }

  /** Eight flags as the low eight bits of a register, `f0` the lowest. */
  function Octet(f0: bool, f1: bool, f2: bool, f3: bool, f4: bool, f5: bool, f6: bool, f7: bool): (r: bv16)
    ensures r < 256
  {
    (if f0 then 0x01 else 0) | (if f1 then 0x02 else 0) | (if f2 then 0x04 else 0) | (if f3 then 0x08 else 0)
    | (if f4 then 0x10 else 0) | (if f5 then 0x20 else 0) | (if f6 then 0x40 else 0) | (if f7 then 0x80 else 0)
  }
  /** Each flag is one bit of the register. */
  lemma OctetInjective(f0: bool, f1: bool, f2: bool, f3: bool, f4: bool, f5: bool, f6: bool, f7: bool,
                       g0: bool, g1: bool, g2: bool, g3: bool, g4: bool, g5: bool, g6: bool, g7: bool)
    requires Octet(f0, f1, f2, f3, f4, f5, f6, f7) == Octet(g0, g1, g2, g3, g4, g5, g6, g7)
    ensures f0 == g0 && f1 == g1 && f2 == g2 && f3 == g3 && f4 == g4 && f5 == g5 && f6 == g6 && f7 == g7
  {
  }
  /** Binary digit `i` of `n`, the lowest first. */
  function Digit(n: nat, i: nat): bool
    decreases i
  {
    if i == 0 then n % 2 == 1 else Digit(n / 2, i - 1)
  }
  /** `byte as u16`: bit i of the register is binary digit i of the octet. */
  function Widen(b: byte): (r: bv16)
    ensures r < 256
  {
    Octet(Digit(b, 0), Digit(b, 1), Digit(b, 2), Digit(b, 3), Digit(b, 4), Digit(b, 5), Digit(b, 6), Digit(b, 7))
  }
  /** The lowest `k` binary digits of `n` and `m` agree. */
  predicate SameDigits(n: nat, m: nat, k: nat)
    decreases k
  {
    k == 0 || (n % 2 == m % 2 && SameDigits(n / 2, m / 2, k - 1))
  }
  function Pow2(k: nat): nat
  {
    if k == 0 then 1 else 2 * Pow2(k - 1)
  }
  /** Numbers below 2^k are determined by their k lowest digits. */
  lemma {:induction false} DigitsDetermine(n: nat, m: nat, k: nat)
    requires n < Pow2(k) && m < Pow2(k) && SameDigits(n, m, k)
    ensures n == m
    decreases k
  {
    if k > 0 {
      DigitsDetermine(n / 2, m / 2, k - 1);
    }
  }
  lemma {:induction false} SameDigitsFromDigits(n: nat, m: nat, k: nat)
    requires forall i :: 0 <= i < k ==> Digit(n, i) == Digit(m, i)
    ensures SameDigits(n, m, k)
    decreases k
  {
    if k > 0 {
      assert Digit(n, 0) == Digit(m, 0);
      forall i | 0 <= i < k - 1
        ensures Digit(n / 2, i) == Digit(m / 2, i)
      {
        assert Digit(n, i + 1) == Digit(m, i + 1);
      }
      SameDigitsFromDigits(n / 2, m / 2, k - 1);
    }
  }
  lemma WidenSameDigits(b: byte, c: byte)
    requires Widen(b) == Widen(c)
    ensures forall i :: 0 <= i < 8 ==> Digit(b, i) == Digit(c, i)
  {
    OctetInjective(Digit(b, 0), Digit(b, 1), Digit(b, 2), Digit(b, 3), Digit(b, 4), Digit(b, 5), Digit(b, 6), Digit(b, 7),
      Digit(c, 0), Digit(c, 1), Digit(c, 2), Digit(c, 3), Digit(c, 4), Digit(c, 5), Digit(c, 6), Digit(c, 7));
    forall i | 0 <= i < 8
      ensures Digit(b, i) == Digit(c, i)
    {
      assert i == 0 || i == 1 || i == 2 || i == 3 || i == 4 || i == 5 || i == 6 || i == 7;
    }
  }
  /** Widening keeps the value, so different octets stay different. */
  lemma WidenInjective(b: byte, c: byte)
    requires b != c
    ensures Widen(b) != Widen(c)
  {
    if Widen(b) == Widen(c) {
      WidenSameDigits(b, c);
      SameDigitsFromDigits(b, c, 8);
      assert Pow2(8) == 256;
      DigitsDetermine(b, c, 8);
    }
  }

  /** One octet of the outer loop: XOR it into the high eight bits, then eight shifts. */
  function FeedOctet(fcs: bv16, u: bv16): bv16 {
    ShiftBits(fcs ^ (u << 8), 8)
  }

  /** The register after the octets of `data`, from `fcs` on. */
  function RegisterFrom(fcs: bv16, data: seq<byte>): bv16
    decreases |data|, 1
  {
    if |data| == 0 then fcs else FeedFirst(fcs, data)
  }

  /** One step of `RegisterFrom`: the first octet, then the rest. */
  function FeedFirst(fcs: bv16, data: seq<byte>): bv16
    requires |data| > 0
    decreases |data|, 0
  {
    RegisterFrom(FeedOctet(fcs, Widen(data[0])), data[1..])
  }

  /** `compute_fcs`. */
  function Fcs(data: seq<byte>): bv16 {
    RegisterFrom(Fcs16Init, data) ^ Fcs16XorOutput
  }

  /** The source's loop over the octets of `data`. */
  method ComputeFcs(data: seq<byte>) returns (fcs: bv16)
    ensures fcs == Fcs(data)
  {
    fcs := Fcs16Init;
    var i := 0;
    while i < |data|
      invariant 0 <= i <= |data|
      invariant RegisterFrom(fcs, data[i..]) == RegisterFrom(Fcs16Init, data)
    {
      RegisterStep(fcs, data, i);
      fcs := ShiftOctet(fcs, Widen(data[i]));
      i := i + 1;
    }
    fcs := fcs ^ Fcs16XorOutput;
  }

  /** The source's inner loop: the octet into the high bits, then its eight bits shifted out. */
  method ShiftOctet(register: bv16, octet: bv16) returns (fcs: bv16)
    ensures fcs == FeedOctet(register, octet)
  {
    var start := register ^ (octet << 8);
    fcs := start;
    var k := 0;
    while k < 8
      invariant 0 <= k <= 8
      invariant fcs == ShiftBits(start, k)
    {
      ghost var previous := fcs;
      if fcs & 0x8000 != 0 {
        fcs := (fcs << 1) ^ Fcs16Polynomial;
      } else {
        fcs := fcs << 1;
      }
      ShiftBitStep(previous, fcs);
      k := k + 1;
    }
  }

  /** Each branch of the inner loop's body computes one shift. */
  lemma ShiftBitStep(x: bv16, y: bv16)
    requires x & 0x8000 != 0 ==> y == (x << 1) ^ Fcs16Polynomial
    requires x & 0x8000 == 0 ==> y == x << 1
    ensures y == ShiftBit(x)
  {
  }

  /** One turn of the outer loop: the register of the rest after feeding the next octet. */
  lemma RegisterStep(fcs: bv16, data: seq<byte>, i: nat)
    requires i < |data|
    ensures RegisterFrom(fcs, data[i..]) == RegisterFrom(FeedOctet(fcs, Widen(data[i])), data[i + 1..])
  {
    assert data[i..][0] == data[i] && data[i..][1..] == data[i + 1..];
  }

  /** The FCS of no octets is 0: the initial value and the final XOR cancel. */
  lemma FcsOfNothing()
    ensures Fcs([]) == 0
  {
  }

  /** The register can be computed in pieces: over `a`, then over `b` from there. */
  lemma {:induction false} RegisterAppend(fcs: bv16, a: seq<byte>, b: seq<byte>)
    ensures RegisterFrom(fcs, a + b) == RegisterFrom(RegisterFrom(fcs, a), b)
    decreases |a|
  {
    if |a| == 0 {
      assert a + b == b;
    } else {
      assert (a + b)[0] == a[0];
      assert (a + b)[1..] == a[1..] + b;
      RegisterAppend(FeedOctet(fcs, Widen(a[0])), a[1..], b);
    }
  }

  /**
   * A shift loses no information: the dropped top bit reappears as the polynomial's low bit,
   * so two different registers stay different.
   */
  lemma ShiftBitInjective(x: bv16, y: bv16)
    requires x != y
    ensures ShiftBit(x) != ShiftBit(y)
  {
    if x & 0x8000 != y & 0x8000 {
      TopBitsDiffer(x, y);
    } else if x & 0x8000 != 0 {
      TopBitsSet(x, y);
    } else {
      TopBitsClear(x, y);
    }
  }

  lemma TopBitsDiffer(x: bv16, y: bv16)
    requires x & 0x8000 != y & 0x8000
    ensures ShiftBit(x) & 1 != ShiftBit(y) & 1
  {
  }

  lemma TopBitsSet(x: bv16, y: bv16)
    requires x != y && x & 0x8000 != 0 && y & 0x8000 != 0
    ensures ShiftBit(x) != ShiftBit(y)
  {
  }

  lemma TopBitsClear(x: bv16, y: bv16)
    requires x != y && x & 0x8000 == 0 && y & 0x8000 == 0
    ensures ShiftBit(x) != ShiftBit(y)
  {
  }

  lemma {:induction false} ShiftBitsInjective(x: bv16, y: bv16, k: nat)
    requires x != y
    ensures ShiftBits(x, k) != ShiftBits(y, k)
    decreases k
  {
    if k > 0 {
      ShiftBitsInjective(x, y, k - 1);
      ShiftBitInjective(ShiftBits(x, k - 1), ShiftBits(y, k - 1));
    }
  }

  /** Two different registers stay different over the same octets. */
  lemma {:induction false} RegistersStayApart(x: bv16, y: bv16, data: seq<byte>)
    requires x != y
    ensures RegisterFrom(x, data) != RegisterFrom(y, data)
    decreases |data|
  {
    if |data| > 0 {
      var u := Widen(data[0]);
      FeedOctetKeepsApart(x, y, u);
      RegistersStayApart(FeedOctet(x, u), FeedOctet(y, u), data[1..]);
    }
  }

  lemma FeedOctetKeepsApart(x: bv16, y: bv16, u: bv16)
    requires x != y
    ensures FeedOctet(x, u) != FeedOctet(y, u)
  {
    XorApart(x, y, u << 8);
    ShiftBitsInjective(x ^ (u << 8), y ^ (u << 8), 8);
  }

  lemma XorApart(x: bv16, y: bv16, b: bv16)
    requires x != y
    ensures x ^ b != y ^ b
  {
  }

  /** Two different octets fed into the same register give different registers. */
  lemma FeedOctetInjective(fcs: bv16, u: bv16, v: bv16)
    requires u != v && u < 256 && v < 256
    ensures FeedOctet(fcs, u) != FeedOctet(fcs, v)
  {
    OctetShiftApart(fcs, u, v);
    ShiftBitsInjective(fcs ^ (u << 8), fcs ^ (v << 8), 8);
  }

  lemma OctetShiftApart(fcs: bv16, u: bv16, v: bv16)
    requires u != v && u < 256 && v < 256
    ensures fcs ^ (u << 8) != fcs ^ (v << 8)
  {
  }

  /** The FCS detects every change of a single octet, wherever it is. */
  lemma SingleOctetChangeDetected(prefix: seq<byte>, b: byte, c: byte, suffix: seq<byte>)
    requires b != c
    ensures Fcs(prefix + [b] + suffix) != Fcs(prefix + [c] + suffix)
  {
    SplitAtOctet(prefix, b, suffix);
    SplitAtOctet(prefix, c, suffix);
    ChangedOctetApart(RegisterFrom(Fcs16Init, prefix), b, c, suffix);
    FcsApart(prefix + [b] + suffix, prefix + [c] + suffix);
  }

  lemma SplitAtOctet(prefix: seq<byte>, b: byte, suffix: seq<byte>)
    ensures RegisterFrom(Fcs16Init, prefix + [b] + suffix) == RegisterFrom(RegisterFrom(Fcs16Init, prefix), [b] + suffix)
  {
    assert prefix + [b] + suffix == prefix + ([b] + suffix);
    RegisterAppend(Fcs16Init, prefix, [b] + suffix);
  }

  /** The final XOR keeps different registers different. */
  lemma FcsApart(x: seq<byte>, y: seq<byte>)
    requires RegisterFrom(Fcs16Init, x) != RegisterFrom(Fcs16Init, y)
    ensures Fcs(x) != Fcs(y)
  {
    XorApart(RegisterFrom(Fcs16Init, x), RegisterFrom(Fcs16Init, y), Fcs16XorOutput);
  }

  /** From the same register on, octet strings differing only in their first octet end apart. */
  lemma ChangedOctetApart(r: bv16, b: byte, c: byte, suffix: seq<byte>)
    requires b != c
    ensures RegisterFrom(r, [b] + suffix) != RegisterFrom(r, [c] + suffix)
  {
    assert ([b] + suffix)[0] == b && ([b] + suffix)[1..] == suffix;
    assert ([c] + suffix)[0] == c && ([c] + suffix)[1..] == suffix;
    WidenInjective(b, c);
    FeedOctetInjective(r, Widen(b), Widen(c));
    RegistersStayApart(FeedOctet(r, Widen(b)), FeedOctet(r, Widen(c)), suffix);
  }

  /** `weight` when the bit `mask` of `x` is set, else 0. */
  function BitValue(x: bv16, mask: bv16, weight: nat): nat {
    if x & mask != 0 then weight else 0
  }

  /** Bits 0 to 3 of `x` as a number. */
  function LowNibble(x: bv16): (n: nat)
    ensures n < 16
  {
    BitValue(x, 0x01, 1) + BitValue(x, 0x02, 2) + BitValue(x, 0x04, 4) + BitValue(x, 0x08, 8)
  }

  /** Bits 4 to 7 of `x` as a number. */
  function HighNibble(x: bv16): (n: nat)
    ensures n < 16
  {
    BitValue(x, 0x10, 1) + BitValue(x, 0x20, 2) + BitValue(x, 0x40, 4) + BitValue(x, 0x80, 8)
  }

  /** `(x & 0xFF) as u8`: the low eight bits of `x`. */
  function LowOctet(x: bv16): byte {
    LowNibble(x) + 16 * HighNibble(x)
  }

  /** The low octet is the value of the masked register. */
  lemma LowOctetIsMasked(x: bv16)
    ensures LowOctet(x) == (x & 0xFF) as int
  {
  }

  /** Equal low octets mean equal low eight bits. */
  lemma LowOctetsAgree(x: bv16, y: bv16)
    requires LowOctet(x) == LowOctet(y)
    ensures x & 0xFF == y & 0xFF
  {
    DigitPairs(LowNibble(x), HighNibble(x), LowNibble(y), HighNibble(y));
    LowNibblesAgree(x, y);
    HighNibblesAgree(x, y);
    NibblesJoin(x, y);
  }

  lemma LowNibblesAgree(x: bv16, y: bv16)
    requires LowNibble(x) == LowNibble(y)
    ensures x & 0x0F == y & 0x0F
  {
  }

  lemma HighNibblesAgree(x: bv16, y: bv16)
    requires HighNibble(x) == HighNibble(y)
    ensures x & 0xF0 == y & 0xF0
  {
  }

  lemma DigitPairs(a: nat, b: nat, c: nat, d: nat)
    requires a < 16 && c < 16 && a + 16 * b == c + 16 * d
    ensures a == c && b == d
  {
  }

  lemma NibblesJoin(x: bv16, y: bv16)
    requires x & 0x0F == y & 0x0F && x & 0xF0 == y & 0xF0
    ensures x & 0xFF == y & 0xFF
  {
  }

  /**
   * How HCS and FCS are stored: `(x & 0xFF) as u8`, then `((x >> 8) & 0xFF) as u8`, low
   * octet first.
   */
  function LowHigh(x: bv16): (s: seq<byte>)
    ensures |s| == 2
  {
    [LowOctet(x), LowOctet(x >> 8)]
  }

  /** `u16::from_le_bytes` of the two stored octets gives the register back. */
  lemma LowHighValue(x: bv16)
    ensures LowHigh(x)[0] as int + 256 * (LowHigh(x)[1] as int) == x as int
  {
    LowOctetIsMasked(x);
    LowOctetIsMasked(x >> 8);
    assert (x & 0xFF) as int + 256 * ((x >> 8) & 0xFF) as int == x as int;
  }

  /** Two registers stored alike are equal. */
  lemma LowHighInjective(x: bv16, y: bv16)
    requires LowHigh(x) == LowHigh(y)
    ensures x == y
  {
    assert LowOctet(x) == LowHigh(x)[0] && LowOctet(x >> 8) == LowHigh(x)[1];
    assert LowOctet(y) == LowHigh(y)[0] && LowOctet(y >> 8) == LowHigh(y)[1];
    OctetsAgree(x, y);
  }

  lemma OctetsAgree(x: bv16, y: bv16)
    requires LowOctet(x) == LowOctet(y) && LowOctet(x >> 8) == LowOctet(y >> 8)
    ensures x == y
  {
    LowOctetsAgree(x, y);
    HighOctetsAgree(x, y);
    OctetsJoin(x, y);
  }

  lemma HighOctetsAgree(x: bv16, y: bv16)
    requires LowOctet(x >> 8) == LowOctet(y >> 8)
    ensures (x >> 8) & 0xFF == (y >> 8) & 0xFF
  {
    LowOctetsAgree(x >> 8, y >> 8);
  }

  lemma OctetsJoin(x: bv16, y: bv16)
    requires x & 0xFF == y & 0xFF && (x >> 8) & 0xFF == (y >> 8) & 0xFF
    ensures x == y
  {
  }

  /** The address octets `encode_address` writes: 1 up to 0x7F, 2 up to 0x3FFF, 3 up to 0x1FFFFF, otherwise 4. */
  function AddressSize(a: u32): (n: nat)
    ensures 1 <= n <= 4
  {
    if a <= 0x7F then 1 else if a <= 0x3FFF then 2 else if a <= 0x1F_FFFF then 3 else 4
  }

  /**
   * `encode_address`: seven bits of the address per octet, low bits first, shifted left by
   * one, with the low bit set in the last octet. `(x << 1) & 0xFE` and the `as u8` cast of the
   * last octet both keep the seven bits `(a >> 7i) mod 128`.
   */
  function AddressBytes(a: u32): (s: seq<byte>)
    ensures |s| == AddressSize(a)
    ensures s[|s| - 1] % 2 == 1
    ensures forall i :: 0 <= i < |s| - 1 ==> s[i] % 2 == 0
  {
    var q1 := a / 128;
    var q2 := q1 / 128;
    var q3 := q2 / 128;
    if a <= 0x7F then [2 * (a % 128) + 1]
    else if a <= 0x3FFF then [2 * (a % 128), 2 * (q1 % 128) + 1]
    else if a <= 0x1F_FFFF then [2 * (a % 128), 2 * (q1 % 128), 2 * (q2 % 128) + 1]
    else [2 * (a % 128), 2 * (q1 % 128), 2 * (q2 % 128), 2 * (q3 % 128) + 1]
  }

  /** The receiver's reading of an address field: Σ (b_i >> 1) << 7i. */
  function AddressValue(s: seq<byte>): nat
    decreases |s|
  {
    if |s| == 0 then 0 else s[0] / 2 + 128 * AddressValue(s[1..])
  }

  lemma AddressValueCons(b: byte, s: seq<byte>)
    ensures AddressValue([b] + s) == b / 2 + 128 * AddressValue(s)
  {
    assert ([b] + s)[1..] == s;
  }

  /** The value read from address octets carrying the digits `d0`, `d1`, ... below 128. */
  lemma OctetsValue(d0: nat, d1: nat, d2: nat, d3: nat)
    requires d0 < 128 && d1 < 128 && d2 < 128 && d3 < 128
    ensures AddressValue([2 * d0 + 1]) == d0
    ensures AddressValue([2 * d0, 2 * d1 + 1]) == d0 + 128 * d1
    ensures AddressValue([2 * d0, 2 * d1, 2 * d2 + 1]) == d0 + 128 * (d1 + 128 * d2)
    ensures AddressValue([2 * d0, 2 * d1, 2 * d2, 2 * d3 + 1]) == d0 + 128 * (d1 + 128 * (d2 + 128 * d3))
  {
    LastOctetValue(d0);
    LastOctetValue(d1);
    LastOctetValue(d2);
    LastOctetValue(d3);
    var s1: seq<byte> := [2 * d1 + 1];
    var s2: seq<byte> := [2 * d1, 2 * d2 + 1];
    var s3: seq<byte> := [2 * d1, 2 * d2, 2 * d3 + 1];
    FirstOctetValue(d0, s1);
    FirstOctetValue(d0, s2);
    FirstOctetValue(d0, s3);
    ThreeOctets(d1, d2, d3);
    TwoOctets(d1, d2);
  }

  lemma LastOctetValue(d: nat)
    requires d < 128
    ensures AddressValue([2 * d + 1]) == d
  {
    AddressValueCons(2 * d + 1, []);
  }

  lemma FirstOctetValue(d: nat, s: seq<byte>)
    requires d < 128
    ensures AddressValue([2 * d] + s) == d + 128 * AddressValue(s)
  {
    AddressValueCons(2 * d, s);
  }

  lemma TwoOctets(d1: nat, d2: nat)
    requires d1 < 128 && d2 < 128
    ensures AddressValue([2 * d1, 2 * d2 + 1]) == d1 + 128 * d2
  {
    LastOctetValue(d2);
    FirstOctetValue(d1, [2 * d2 + 1]);
    assert [2 * d1, 2 * d2 + 1] == [2 * d1] + [2 * d2 + 1];
  }

  lemma ThreeOctets(d1: nat, d2: nat, d3: nat)
    requires d1 < 128 && d2 < 128 && d3 < 128
    ensures AddressValue([2 * d1, 2 * d2, 2 * d3 + 1]) == d1 + 128 * (d2 + 128 * d3)
  {
    TwoOctets(d2, d3);
    FirstOctetValue(d1, [2 * d2, 2 * d3 + 1]);
    assert [2 * d1, 2 * d2, 2 * d3 + 1] == [2 * d1] + [2 * d2, 2 * d3 + 1];
  }

  /** Reading the octets back recovers every address of 28 bits; the bits above are lost in the fourth octet. */
  lemma AddressRoundTrip(a: u32)
    ensures AddressValue(AddressBytes(a)) == a % 0x1000_0000
    ensures a <= 0x0FFF_FFFF ==> AddressValue(AddressBytes(a)) == a
  {
    var q1 := a / 128;
    var q2 := q1 / 128;
    var q3 := q2 / 128;
    var d0, d1, d2, d3 := a % 128, q1 % 128, q2 % 128, q3 % 128;
    AddressDigits(a, q1, q2, q3);
    OctetsValue(d0, d1, d2, d3);
    if a <= 0x7F {
    } else if a <= 0x3FFF {
    } else if a <= 0x1F_FFFF {
    } else {
    }
  }

  /** The septets read back as the address: exactly for the sizes that hold it, modulo 2^28 in four octets. */
  lemma AddressDigits(a: u32, q1: nat, q2: nat, q3: nat)
    requires q1 == a / 128 && q2 == q1 / 128 && q3 == q2 / 128
    ensures a <= 0x7F ==> a % 128 == a && a < 0x1000_0000
    ensures 0x7F < a <= 0x3FFF ==> a % 128 + 128 * (q1 % 128) == a
    ensures 0x3FFF < a <= 0x1F_FFFF ==> a % 128 + 128 * (q1 % 128 + 128 * (q2 % 128)) == a
    ensures a % 128 + 128 * (q1 % 128 + 128 * (q2 % 128 + 128 * (q3 % 128))) == a % 0x1000_0000
    ensures a < 0x1000_0000 ==> a % 0x1000_0000 == a
  {
    DivMod128(a);
    DivMod128(q1);
    DivMod128(q2);
    DivMod128(q3);
    FourSeptets(a, q1, q2, q3, q3 / 128);
  }

  lemma DivMod128(n: nat)
    ensures n == 128 * (n / 128) + n % 128 && n % 128 < 128
  {
  }

  lemma FourSeptets(a: nat, q1: nat, q2: nat, q3: nat, q4: nat)
    requires a == 128 * q1 + a % 128 && q1 == 128 * q2 + q1 % 128 && q2 == 128 * q3 + q2 % 128 && q3 == 128 * q4 + q3 % 128
    requires a % 128 < 128 && q1 % 128 < 128 && q2 % 128 < 128 && q3 % 128 < 128
    ensures a % 128 + 128 * (q1 % 128 + 128 * (q2 % 128 + 128 * (q3 % 128))) == a % 0x1000_0000
  {
    assert a == 0x1000_0000 * q4 + (a % 128 + 128 * (q1 % 128 + 128 * (q2 % 128 + 128 * (q3 % 128))));
  }

  /** A one-octet address is `(a << 1) | 1`. */
  lemma OneOctetAddress(a: u32)
    requires a <= 0x7F
    ensures AddressBytes(a) == [2 * a + 1]
  {
  }

  /** `copy_from_slice` of `src` into `dst` from `at` on, or the same stores one octet at a time. */
  method CopySlice(dst: array<byte>, at: nat, src: seq<byte>)
    requires at + |src| <= dst.Length
    modifies dst
    ensures dst[..at] == old(dst[..at]) && dst[at..at + |src|] == src
    ensures dst[at + |src|..] == old(dst[at + |src|..])
  {
    forall i | 0 <= i < |src| {
      dst[at + i] := src[i];
    }
  }

  /** The octets of `AddressBytes`, from the four seven-bit digits of the address. */
  lemma AddressOctets(a: u32, d0: nat, d1: nat, d2: nat, d3: nat)
    requires d0 == a % 128 && d1 == (a / 128) % 128 && d2 == (a / 128 / 128) % 128 && d3 == (a / 128 / 128 / 128) % 128
    ensures a <= 0x7F ==> AddressBytes(a) == [2 * d0 + 1]
    ensures 0x7F < a <= 0x3FFF ==> AddressBytes(a) == [2 * d0, 2 * d1 + 1]
    ensures 0x3FFF < a <= 0x1F_FFFF ==> AddressBytes(a) == [2 * d0, 2 * d1, 2 * d2 + 1]
    ensures 0x1F_FFFF < a ==> AddressBytes(a) == [2 * d0, 2 * d1, 2 * d2, 2 * d3 + 1]
  {
  }

  /** `encode_address` into `buffer` from `offset` on: only the address octets are written. */
  method EncodeAddress(a: u32, buffer: array<byte>, offset: nat) returns (len: nat)
    requires offset + AddressSize(a) <= buffer.Length
    modifies buffer
    ensures len == AddressSize(a)
    ensures buffer[offset..offset + len] == AddressBytes(a)
    ensures buffer[..offset] == old(buffer[..offset]) && buffer[offset + len..] == old(buffer[offset + len..])
  {
    // `a >> 7`, `a >> 14` and `a >> 21`, each taken modulo 128 by the mask or the cast.
    var d0, q1 := a % 128, a / 128;
    var d1, q2 := q1 % 128, q1 / 128;
    var d2, q3 := q2 % 128, q2 / 128;
    var d3 := q3 % 128;
    AddressOctets(a, d0, d1, d2, d3);
    var octets: seq<byte>;
    if a <= 0x7F {
      octets := [2 * d0 + 1];
    } else if a <= 0x3FFF {
      octets := [2 * d0, 2 * d1 + 1];
    } else if a <= 0x1F_FFFF {
      octets := [2 * d0, 2 * d1, 2 * d2 + 1];
    } else {
      octets := [2 * d0, 2 * d1, 2 * d2, 2 * d3 + 1];
    }
    CopySlice(buffer, offset, octets);
    len := |octets|;
  }
}
