/**
 * Octets and the fixed-width integers the codecs are built from: every multi-byte
 * integer on the wire is big-endian, and signed integers are two's complement of the
 * same width (the `to_be_bytes` / `be_u16` … `be_i64` pairs used throughout the library).
 */
module Bytes {

  type byte = x: int | 0 <= x < 256

  type u16 = x: int | 0 <= x < 0x1_0000
  type u32 = x: int | 0 <= x < 0x1_0000_0000
  type u64 = x: int | 0 <= x < 0x1_0000_0000_0000_0000
  type i8 = x: int | -0x80 <= x < 0x80
  type i16 = x: int | -0x8000 <= x < 0x8000
  type i32 = x: int | -0x8000_0000 <= x < 0x8000_0000
  type i64 = x: int | -0x8000_0000_0000_0000 <= x < 0x8000_0000_0000_0000

  datatype Option<T> = None | Some(value: T)

  datatype Result<T, E> = Ok(value: T) | Err(error: E)

  /** 256 to the power n: one more than the largest unsigned integer of n octets. */
  function Pow256(n: nat): (r: nat)
    ensures r >= 1
    ensures n > 0 ==> r >= 256
  {
    if n == 0 then 1 else 256 * Pow256(n - 1)
  }

  /** The n-octet big-endian form of v, as `to_be_bytes` writes it. */
  function BeBytes(v: nat, n: nat): (s: seq<byte>)
    requires v < Pow256(n)
    ensures |s| == n
  {
    if n == 0 then [] else DivBound(v, n); BeBytes(v / 256, n - 1) + [v % 256]
  }

  /** The unsigned value of big-endian octets, as `be_u16` / `be_u32` / `be_u64` read it. */
  function BeValue(s: seq<byte>): (v: nat)
    ensures v < Pow256(|s|)
  {
    if |s| == 0 then 0 else ValueBound(BeValue(s[..|s| - 1]), s[|s| - 1], |s| - 1); BeValue(s[..|s| - 1]) * 256 + s[|s| - 1]
  }

  lemma DivBound(v: nat, n: nat)
    requires n > 0 && v < Pow256(n)
    ensures v / 256 < Pow256(n - 1)
  {
  }

  lemma ValueBound(h: nat, b: byte, n: nat)
    requires h < Pow256(n)
    ensures h * 256 + b < Pow256(n + 1)
  {
  }

  /** Reading back what `to_be_bytes` wrote gives the value. */
  lemma {:induction false} BeValueOfBytes(v: nat, n: nat)
    requires v < Pow256(n)
    ensures BeValue(BeBytes(v, n)) == v
  {
    if n > 0 {
      DivBound(v, n);
      var s := BeBytes(v, n);
      assert s[..n - 1] == BeBytes(v / 256, n - 1);
      BeValueOfBytes(v / 256, n - 1);
    }
  }

  /** Writing back the value of n octets gives the octets: the encoding is a bijection. */
  lemma {:induction false} BeBytesOfValue(s: seq<byte>)
    ensures BeBytes(BeValue(s), |s|) == s
  {
    if |s| > 0 {
      var h := BeValue(s[..|s| - 1]);
      ValueBound(h, s[|s| - 1], |s| - 1);
      assert (h * 256 + s[|s| - 1]) / 256 == h;
      assert (h * 256 + s[|s| - 1]) % 256 == s[|s| - 1];
      BeBytesOfValue(s[..|s| - 1]);
    }
  }

  /** The number of n-octet values on each side of zero in two's complement. */
  function Half(n: nat): int { Pow256(n) / 2 }

  /** Two's complement: the unsigned n-octet pattern of a signed value. */
  function ToTwos(v: int, n: nat): (u: nat)
    requires n > 0 && -Half(n) <= v < Half(n)
    ensures u < Pow256(n)
    ensures v >= 0 ==> u == v
  {
    if v < 0 then v + Pow256(n) else v
  }

  /** The signed value an n-octet pattern stands for. */
  function FromTwos(u: nat, n: nat): (v: int)
    requires n > 0 && u < Pow256(n)
    ensures -Half(n) <= v < Half(n)
  {
    if u < Half(n) then u else u - Pow256(n)
  }

  lemma TwosRoundTrip(v: int, n: nat)
    requires n > 0 && -Half(n) <= v < Half(n)
    ensures FromTwos(ToTwos(v, n), n) == v
  {
  }

  lemma TwosOfSigned(u: nat, n: nat)
    requires n > 0 && u < Pow256(n)
    ensures ToTwos(FromTwos(u, n), n) == u
  {
  }

  /** Integers that fit in n octets, unsigned or signed. */
  predicate Unsigned(v: int, n: nat) { 0 <= v < Pow256(n) }
  predicate Signed(v: int, n: nat) { n > 0 && -Half(n) <= v < Half(n) }

  /** A big-endian unsigned integer of n octets. */
  function EncodeUnsigned(v: int, n: nat): (s: seq<byte>)
    requires Unsigned(v, n)
    ensures |s| == n
  {
    BeBytes(v, n)
  }

  /** A big-endian two's-complement integer of n octets. */
  function EncodeSigned(v: int, n: nat): (s: seq<byte>)
    requires Signed(v, n)
    ensures |s| == n
  {
    BeBytes(ToTwos(v, n), n)
  }

  /** `be_uN`: n octets as a big-endian unsigned integer, or nothing when fewer are left. */
  function TakeUnsigned(s: seq<byte>, n: nat): (r: Option<(int, seq<byte>)>)
    ensures r.Some? <==> |s| >= n
    ensures r.Some? ==> Unsigned(r.value.0, n) && r.value.1 == s[n..]
  {
    if |s| < n then None else Some((BeValue(s[..n]), s[n..]))
  }

  /** `be_iN`: n octets as a big-endian two's-complement integer. */
  function TakeSigned(s: seq<byte>, n: nat): (r: Option<(int, seq<byte>)>)
    requires n > 0
    ensures r.Some? <==> |s| >= n
    ensures r.Some? ==> Signed(r.value.0, n) && r.value.1 == s[n..]
  {
    if |s| < n then None else Some((FromTwos(BeValue(s[..n]), n), s[n..]))
  }

  lemma {:induction false} TakeUnsignedEncoded(v: int, n: nat, rest: seq<byte>)
    requires Unsigned(v, n)
    ensures TakeUnsigned(EncodeUnsigned(v, n) + rest, n) == Some((v, rest))
  {
    var s := EncodeUnsigned(v, n) + rest;
    assert s[..n] == EncodeUnsigned(v, n);
    assert s[n..] == rest;
    BeValueOfBytes(v, n);
  }

  lemma {:induction false} TakeSignedEncoded(v: int, n: nat, rest: seq<byte>)
    requires Signed(v, n)
    ensures TakeSigned(EncodeSigned(v, n) + rest, n) == Some((v, rest))
  {
    var s := EncodeSigned(v, n) + rest;
    assert s[..n] == EncodeSigned(v, n);
    assert s[n..] == rest;
    BeValueOfBytes(ToTwos(v, n), n);
    TwosRoundTrip(v, n);
  }

  /** What `be_uN` read is written back by `to_be_bytes`: nothing is lost. */
  lemma {:induction false} TakeUnsignedSound(s: seq<byte>, n: nat)
    requires TakeUnsigned(s, n).Some?
    ensures EncodeUnsigned(TakeUnsigned(s, n).value.0, n) + TakeUnsigned(s, n).value.1 == s
  {
    BeBytesOfValue(s[..n]);
    assert s[..n] + s[n..] == s;
  }

  lemma {:induction false} TakeSignedSound(s: seq<byte>, n: nat)
    requires n > 0 && TakeSigned(s, n).Some?
    ensures EncodeSigned(TakeSigned(s, n).value.0, n) + TakeSigned(s, n).value.1 == s
  {
    BeBytesOfValue(s[..n]);
    TwosOfSigned(BeValue(s[..n]), n);
    assert s[..n] + s[n..] == s;
  }
}
