/**
 * The big-endian splitters `transform_u64_to_array_of_u8` and
 * `transform_u128_to_array_of_u8`: byte `i` of a `w`-byte result is
 * `(x >> 8(w-1-i)) & 0xff`, so the most significant byte comes first.
 */
module ByteSplit {
  import opened Ints

  /** The number a big-endian byte string stands for. */
  function BigEndianValue(s: seq<uint8>): (v: nat)
    ensures v < Pow256(|s|)
  {
    if |s| == 0 then 0
    else
      var hi := BigEndianValue(s[..|s| - 1]);
      DigitBound(hi, Pow256(|s| - 1), s[|s| - 1]);
      hi * 0x100 + s[|s| - 1]
  }

  lemma DigitBound(hi: nat, p: nat, d: nat)
    requires hi < p && d < 0x100
    ensures hi * 0x100 + d < 0x100 * p
  {
    MulLe(hi + 1, p, 0x100);
  }

  /** `(x >> 8k) & 0xff`: byte `k` of `x`, counting from the least significant. */
  function ByteAt(x: nat, k: nat): uint8
  {
    x / Pow256(k) % 0x100
  }

  /** The low `w` bytes of `x`, most significant first, built by peeling off the
      lowest byte: the reference definition, whose value is easy to reason about.
      `Split` below has the splitters' own shape, one shift per byte, and
      `SplitValue` shows the two agree. */
  function Bytes(x: nat, w: nat): (r: seq<uint8>)
    ensures |r| == w
  {
    if w == 0 then [] else Bytes(x / 0x100, w - 1) + [x % 0x100]
  }

  /** The bytes stand for `x` cut to `w` bytes. */
  lemma {:induction false} BytesValue(x: nat, w: nat)
    ensures BigEndianValue(Bytes(x, w)) == x % Pow256(w)
  {
    if w > 0 {
      var s := Bytes(x, w);
      assert s[..w - 1] == Bytes(x / 0x100, w - 1);
      BytesValue(x / 0x100, w - 1);
      ModOfProduct(x, 0x100, Pow256(w - 1));
    }
  }

  /** Byte `i` of `Bytes(x, w)` holds bits `8(w-1-i)` to `8(w-i)` of `x`. */
  lemma {:induction false} BytesAt(x: nat, w: nat, i: nat)
    requires i < w
    ensures Bytes(x, w)[i] == ByteAt(x, w - 1 - i)
  {
    if i < w - 1 {
      BytesAt(x / 0x100, w - 1, i);
      ModOfProduct(x, 0x100, Pow256(w - 2 - i));
    }
  }

  /** Every byte string is the bytes of its own value. */
  lemma {:induction false} BytesOfValue(s: seq<uint8>)
    ensures Bytes(BigEndianValue(s), |s|) == s
  {
    if |s| > 0 {
      var init, last := s[..|s| - 1], s[|s| - 1];
      var hi := BigEndianValue(init);
      DivModUnique(BigEndianValue(s), 0x100, hi, last);
      BytesOfValue(init);
      assert s == init + [last];
    }
  }

  /** Two byte strings of one length with the same value are the same. */
  lemma BigEndianInjective(s: seq<uint8>, t: seq<uint8>)
    requires |s| == |t| && BigEndianValue(s) == BigEndianValue(t)
    ensures s == t
  {
    BytesOfValue(s);
    BytesOfValue(t);
  }

  /** Bytes `w-1` down to `0` of `x`, each taken on its own: the shape of the splitters. */
  function Split(x: nat, w: nat): (r: seq<uint8>)
    ensures |r| == w
  {
    if w == 0 then [] else [ByteAt(x, w - 1)] + Split(x, w - 1)
  }

  /** Byte `i` of the split is byte `w-1-i` of `x`, most significant first. */
  lemma {:induction false} SplitAt(x: nat, w: nat, i: nat)
    requires i < w
    ensures Split(x, w)[i] == ByteAt(x, w - 1 - i)
  {
    if i > 0 {
      SplitAt(x, w - 1, i - 1);
    }
  }

  /** The split of `x` into `w` bytes stands for `x` cut to `w` bytes. */
  lemma SplitValue(x: nat, w: nat)
    ensures BigEndianValue(Split(x, w)) == x % Pow256(w)
  {
    forall i | 0 <= i < w
      ensures Split(x, w)[i] == Bytes(x, w)[i]
    {
      SplitAt(x, w, i);
      BytesAt(x, w, i);
    }
    assert Split(x, w) == Bytes(x, w);
    BytesValue(x, w);
  }

  /** `transform_u64_to_array_of_u8`: the eight bytes `(x >> 56) & 0xff` down to
      `x & 0xff`, whose big-endian value is `x`. */
  function U64ToBigEndian(x: uint64): (r: seq<uint8>)
    ensures |r| == 8 && BigEndianValue(r) == x
  {
    Pow256Values();
    SplitValue(x, 8);
    Split(x, 8)
  }

  /** `transform_u128_to_array_of_u8`: the sixteen bytes `(x >> 120) & 0xff` down to
      `x & 0xff`, whose big-endian value is `x`. */
  function U128ToBigEndian(x: uint128): (r: seq<uint8>)
    ensures |r| == 16 && BigEndianValue(r) == x
  {
    Pow256Values();
    SplitValue(x, 16);
    Split(x, 16)
  }

  lemma Pow256Values()
    ensures Pow256(8) == TWO_64 && Pow256(16) == TWO_128
  {
  }

  /** Every eight bytes are the split of the `u64` they stand for. */
  lemma U64FromBigEndian(s: seq<uint8>)
    requires |s| == 8
    ensures BigEndianValue(s) < TWO_64 && U64ToBigEndian(BigEndianValue(s)) == s
  {
    Pow256Values();
    BigEndianInjective(U64ToBigEndian(BigEndianValue(s)), s);
  }

  /** Every sixteen bytes are the split of the `u128` they stand for. */
  lemma U128FromBigEndian(s: seq<uint8>)
    requires |s| == 16
    ensures BigEndianValue(s) < TWO_128 && U128ToBigEndian(BigEndianValue(s)) == s
  {
    Pow256Values();
    BigEndianInjective(U128ToBigEndian(BigEndianValue(s)), s);
  }
}
