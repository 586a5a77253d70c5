/**
 * The parsing and writing steps the xDLMS APDUs are built from: single octets,
 * big-endian u16 / u32 fields (`nom::number::streaming::be_u16` / `be_u32` and
 * `ByteBuffer::push_u16` / `push_u32` of src/data.rs), and lists of `count` items
 * read one after another by a loop that advances a `remaining` cursor.
 */
module Wire {
  import opened Bytes

  /** `nom::number::streaming::u8`. */
  function TakeByte(s: seq<byte>): (r: Option<(byte, seq<byte>)>)
    ensures r.Some? <==> |s| >= 1
    ensures r.Some? ==> [r.value.0] + r.value.1 == s
  {
    if |s| < 1 then None else Some((s[0], s[1..]))
  }

  lemma TakeByteOf(b: byte, rest: seq<byte>)
    ensures TakeByte([b] + rest) == Some((b, rest))
  {
    assert ([b] + rest)[1..] == rest;
  }

  /** `be_u16`. */
  function TakeU16(s: seq<byte>): (r: Option<(u16, seq<byte>)>)
    ensures r.Some? <==> |s| >= 2
    ensures r.Some? ==> r.value.1 == s[2..]
  {
    match TakeUnsigned(s, 2)
    case None => None
    case Some((v, rest)) => Some((v, rest))
  }

  /** `be_u32`. */
  function TakeU32(s: seq<byte>): (r: Option<(u32, seq<byte>)>)
    ensures r.Some? <==> |s| >= 4
    ensures r.Some? ==> r.value.1 == s[4..]
  {
    match TakeUnsigned(s, 4)
    case None => None
    case Some((v, rest)) => Some((v, rest))
  }

  /** `push_u16`: two big-endian octets. */
  function U16Bytes(v: u16): (s: seq<byte>)
    ensures |s| == 2
  {
    EncodeUnsigned(v, 2)
  }

  /** `push_u32`: four big-endian octets. */
  function U32Bytes(v: u32): (s: seq<byte>)
    ensures |s| == 4
  {
    EncodeUnsigned(v, 4)
  }

  /** The two octets of a u16: high, then low. */
  lemma U16Digits(v: u16)
    ensures U16Bytes(v) == [v / 256, v % 256]
  {
    assert BeBytes(v / 256, 1) == BeBytes(v / 256 / 256, 0) + [v / 256 % 256];
  }

  lemma {:induction false} TakeU16Of(v: u16, rest: seq<byte>)
    ensures TakeU16(U16Bytes(v) + rest) == Some((v, rest))
  {
    TakeUnsignedEncoded(v, 2, rest);
  }

  lemma {:induction false} TakeU32Of(v: u32, rest: seq<byte>)
    ensures TakeU32(U32Bytes(v) + rest) == Some((v, rest))
  {
    TakeUnsignedEncoded(v, 4, rest);
  }

  /** Regrouping a concatenation, for the round-trip proofs that peel fields off the front. */
  lemma Regroup<T>(a: seq<T>, b: seq<T>, c: seq<T>)
    ensures a + b + c == a + (b + c)
  {
  }

  lemma HeadRegroup(x: byte, y: byte, z: byte, t: seq<byte>)
    ensures [x, y, z] + t == [x, y] + ([z] + t)
  {
  }

  /** Adds the items parsed so far in front of what the rest of a list parse yields. */
  function PrependAll<T>(items: seq<T>, r: Option<(seq<T>, seq<byte>)>): Option<(seq<T>, seq<byte>)> {
    match r
    case None => None
    case Some((more, rest)) => Some((items + more, rest))
  }

  /** `count` items, each read by p from where the previous one stopped; any failure fails the list. */
  function ParseMany<T>(p: seq<byte> -> Option<(T, seq<byte>)>, s: seq<byte>, count: nat): (r: Option<(seq<T>, seq<byte>)>)
    ensures r.Some? ==> |r.value.0| == count
    decreases count
  {
    if count == 0 then Some(([], s))
    else
      match p(s)
      case None => None
      case Some((x, rest)) => PrependAll([x], ParseMany(p, rest, count - 1))
  }

  /** The items written one after another. */
  function EncodeMany<T>(enc: T -> seq<byte>, xs: seq<T>): seq<byte>
    decreases |xs|
  {
    if |xs| == 0 then [] else enc(xs[0]) + EncodeMany(enc, xs[1..])
  }

  lemma {:induction false} EncodeManySnoc<T>(enc: T -> seq<byte>, xs: seq<T>, x: T)
    ensures EncodeMany(enc, xs + [x]) == EncodeMany(enc, xs) + enc(x)
    decreases |xs|
  {
    if |xs| == 0 {
      assert xs + [x] == [x];
      assert [x][1..] == [];
    } else {
      assert (xs + [x])[1..] == xs[1..] + [x];
      EncodeManySnoc(enc, xs[1..], x);
    }
  }

  /**
   * The encoders' `for item in list { ... }`: appends every item's encoding to buf0.
   */
  method AppendMany<T>(buf0: seq<byte>, enc: T -> seq<byte>, xs: seq<T>) returns (buf: seq<byte>)
    ensures buf == buf0 + EncodeMany(enc, xs)
  {
    buf := buf0;
    for i := 0 to |xs|
      invariant buf == buf0 + EncodeMany(enc, xs[..i])
    {
      EncodeManySnoc(enc, xs[..i], xs[i]);
      assert xs[..i + 1] == xs[..i] + [xs[i]];
      buf := buf + enc(xs[i]);
    }
    assert xs[..|xs|] == xs;
  }

  lemma ParseManyStep<T>(p: seq<byte> -> Option<(T, seq<byte>)>, items: seq<T>, s: seq<byte>, k: nat, x: T, rest: seq<byte>)
    requires k > 0 && p(s) == Some((x, rest))
    ensures PrependAll(items, ParseMany(p, s, k)) == PrependAll(items + [x], ParseMany(p, rest, k - 1))
  {
    match ParseMany(p, rest, k - 1)
    case None =>
    case Some((more, r)) =>
      assert items + ([x] + more) == (items + [x]) + more;
  }

  /**
   * The parsers' `for _ in 0..count { let (input, x) = p(remaining)?; items.push(x); remaining = input; }`.
   */
  method ParseManyLoop<T>(p: seq<byte> -> Option<(T, seq<byte>)>, input: seq<byte>, count: nat)
    returns (r: Option<(seq<T>, seq<byte>)>)
    ensures r == ParseMany(p, input, count)
  {
    var items: seq<T> := [];
    var remaining := input;
    var i := 0;
    assert PrependAll(items, ParseMany(p, input, count)) == ParseMany(p, input, count) by {
      match ParseMany(p, input, count)
      case None =>
      case Some((more, rest)) => assert items + more == more;
    }
    while i < count
      invariant i <= count
      invariant ParseMany(p, input, count) == PrependAll(items, ParseMany(p, remaining, count - i))
    {
      match p(remaining)
      case None =>
        return None;
      case Some((x, rest)) =>
        ParseManyStep(p, items, remaining, count - i, x, rest);
        items := items + [x];
        remaining := rest;
      i := i + 1;
    }
    assert items + [] == items;
    return Some((items, remaining));
  }

  /** Parsing what EncodeMany wrote, followed by anything, gives the items back and stops at the rest. */
  lemma {:induction false} ParseManyEncoded<T>(p: seq<byte> -> Option<(T, seq<byte>)>, enc: T -> seq<byte>, xs: seq<T>, rest: seq<byte>)
    requires forall x, r :: x in xs ==> p(enc(x) + r) == Some((x, r))
    ensures ParseMany(p, EncodeMany(enc, xs) + rest, |xs|) == Some((xs, rest))
    decreases |xs|
  {
    if |xs| > 0 {
      var tail := EncodeMany(enc, xs[1..]) + rest;
      assert EncodeMany(enc, xs) + rest == enc(xs[0]) + tail;
      assert p(enc(xs[0]) + tail) == Some((xs[0], tail));
      assert forall x, r :: x in xs[1..] ==> p(enc(x) + r) == Some((x, r)) by {
        forall x, r | x in xs[1..] ensures p(enc(x) + r) == Some((x, r)) {
          assert x in xs;
        }
      }
      ParseManyEncoded(p, enc, xs[1..], rest);
      assert [xs[0]] + xs[1..] == xs;
    } else {
      assert EncodeMany(enc, xs) + rest == rest;
    }
  }

  /** Parsing loses nothing when each item's parse does: the list written back is the input it came from. */
  lemma {:induction false} ParseManySound<T>(p: seq<byte> -> Option<(T, seq<byte>)>, enc: T -> seq<byte>, s: seq<byte>, count: nat)
    requires forall t :: p(t).Some? ==> enc(p(t).value.0) + p(t).value.1 == t
    requires ParseMany(p, s, count).Some?
    ensures EncodeMany(enc, ParseMany(p, s, count).value.0) + ParseMany(p, s, count).value.1 == s
    decreases count
  {
    if count > 0 {
      var (x, rest) := p(s).value;
      ParseManySound(p, enc, rest, count - 1);
      var (more, r) := ParseMany(p, rest, count - 1).value;
      assert ParseMany(p, s, count).value == ([x] + more, r);
      assert ([x] + more)[1..] == more;
    }
  }
}
