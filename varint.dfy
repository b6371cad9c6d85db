/**
 * The zigzag variable-length integer codec of `src/util.rs`: the binary
 * encoding of Avro `int` and `long` values.
 *
 * A buffer that the source extends in place (`&mut Vec<u8>`) is passed in and
 * returned extended; a reader is an input sequence plus the position of the
 * next unread byte.
 */
module Varint {
  import opened Wrappers
  import opened Ints

  /** The ways a read of a varint can fail. */
  datatype DecodeError =
    | Overflow         // "Overflow when decoding integer value": ten groups, all continued
    | IntOutOfRange    // "int out of range": the long does not fit an `i32`
    | UnexpectedEof    // `read_exact` ran out of input before the terminating byte

  /** A value read from the input and the position just after it. */
  datatype Decoded<+T> = Decoded(value: T, next: nat)

  // ---------------------------------------------------------------------------
  // Zigzag mapping

  /** The textbook zigzag code: `0, -1, 1, -2, 2, ...` go to `0, 1, 2, 3, 4, ...`. */
  function ZigZag(n: int): (u: nat)
    ensures u % 2 == 0 <==> n >= 0
  {
    if n >= 0 then 2 * n else -2 * n - 1
  }

  /** `(n << 1) ^ (n >> 63)` on `i64`. The shift wraps; `n >> 63` is all ones
      for a negative `n` and zero otherwise, so the xor is a bitwise NOT
      (`-x - 1`) or nothing. Only on [-2^62, 2^62) is the result the textbook
      zigzag code; elsewhere the wrapped shift makes it negative. */
  function ZigI64Value(n: int64): (z: int64)
    ensures -TWO_62 <= n < TWO_62 ==> z == ZigZag(n)
    ensures n >= TWO_62 || n < -TWO_62 ==> z < 0
  {
    WrapI64Double(n);
    var shifted: int := WrapI64(2 * n);
    if n < 0 then -shifted - 1 else shifted
  }

  /** `i64::from((n << 1) ^ (n >> 31))` on `i32`: the same mapping at 32 bits,
      then sign-extended, so a wrapped shift again gives a negative value. */
  function ZigI32Value(n: int32): (z: int64)
    ensures -TWO_30 <= n < TWO_30 ==> z == ZigZag(n)
    ensures n >= TWO_30 || n < -TWO_30 ==> z < 0
  {
    WrapI32Double(n);
    var shifted: int := WrapI32(2 * n);
    if n < 0 then -shifted - 1 else shifted
  }

  /** The zag step of `zag_i64` applied to the decoded `u64` `z`: an even `z`
      gives `(z >> 1) as i64`, an odd one `!(z >> 1) as i64`. It inverts the
      textbook zigzag code. */
  function Zag(z: uint64): (n: int64)
    ensures n >= 0 <==> z % 2 == 0
    ensures ZigZag(n) == z
  {
    if z % 2 == 0 then WrapI64(z / 2)
    else WrapI64Above(TWO_64 - 1 - z / 2); WrapI64(TWO_64 - 1 - z / 2)
  }

  /** Read as `u64`, the zigzag value of every `i64` is its textbook code: the
      wrap of the shift and the wrap of the cast cancel. */
  lemma UnsignedZigLong(n: int64)
    ensures AsU64(ZigI64Value(n)) == ZigZag(n)
  {
    WrapI64Double(n);
  }

  /** Zag undoes the textbook code of every `i64`. */
  lemma ZagOfZigZag(n: int64)
    ensures ZigZag(n) < TWO_64 && Zag(ZigZag(n)) == n
  {
    var u := ZigZag(n);
    if n >= 0 {
      assert u / 2 == n;
    } else {
      assert u / 2 == -(n as int) - 1;
      WrapI64Above(TWO_64 + n);
    }
  }

  /** Zig then zag gives back every `i64`, once the zigzag value is read as unsigned. */
  lemma ZagOfZig(n: int64)
    ensures Zag(AsU64(ZigI64Value(n))) == n
  {
    UnsignedZigLong(n);
    ZagOfZigZag(n);
  }

  /** Zag then zig gives back every `u64`: zag is onto and one-to-one. */
  lemma ZigOfZag(z: uint64)
    ensures AsU64(ZigI64Value(Zag(z))) == z
  {
    UnsignedZigLong(Zag(z));
  }

  // ---------------------------------------------------------------------------
  // Variable-length groups

  /** What `encode_variable(z)` pushes: while `z > 0x7F`, the low seven bits with
      the continuation bit (`0x80 | (z & 0x7F)`) and `z >>= 7`; then `z & 0x7F`.
      A negative `z` is `<= 0x7F` at once and gives the single byte `z & 0x7F`
      (Dafny's `%` is Euclidean, so `z % 0x80` is that byte for negative `z` too). */
  function VarintBytes(z: int): (r: seq<uint8>)
    ensures |r| >= 1 && r[|r| - 1] < 0x80
    ensures forall k :: 0 <= k < |r| - 1 ==> r[k] >= 0x80
    decreases if z > 0 then z else 0
  {
    if z <= 0x7F then [z % 0x80]
    else [0x80 + z % 0x80] + VarintBytes(z / 0x80)
  }

  /** One byte exactly when `z <= 0x7F`, which takes in every negative `z`. */
  lemma {:induction false} VarintSingleByte(z: int)
    ensures |VarintBytes(z)| == 1 <==> z <= 0x7F
    ensures z < 0 ==> VarintBytes(z) == [z % 0x80]
  {
    if z > 0x7F {
      assert |VarintBytes(z)| == 1 + |VarintBytes(z / 0x80)|;
    }
  }

  /** A value below `2^(7k)` takes at most `k` bytes: at most `ceil(bits / 7)`. */
  lemma {:induction false} VarintLength(z: int, k: nat)
    requires 0 <= z < Pow128(k) && k >= 1
    ensures |VarintBytes(z)| <= k
  {
    if z > 0x7F {
      assert Pow128(1) == 0x80;
      assert z / 0x80 < Pow128(k - 1);
      VarintLength(z / 0x80, k - 1);
    }
  }

  /** `encode_variable`: appends the groups of `z` to `buffer`. */
  method EncodeVariable(z: int64, buffer: seq<uint8>) returns (out: seq<uint8>)
    ensures out == buffer + VarintBytes(z)
  {
    var rest: int := z;
    out := buffer;
    while true
      invariant out + VarintBytes(rest) == buffer + VarintBytes(z)
      decreases if rest > 0 then rest else 0
    {
      if rest <= 0x7F {
        out := out + [rest % 0x80];
        return;
      } else {
        out := out + [0x80 + rest % 0x80];
        rest := rest / 0x80;
      }
    }
  }

  /** The bytes `zig_i64(n)` appends: the Avro encoding of a `long`. */
  function ZigLong(n: int64): seq<uint8>
  {
    VarintBytes(ZigI64Value(n))
  }

  /** The bytes `zig_i32(n)` appends: the Avro encoding of an `int`. */
  function ZigInt(n: int32): seq<uint8>
  {
    VarintBytes(ZigI32Value(n))
  }

  /** `zig_i64`: appends the zigzag encoding of `n` to `buffer`. */
  method ZigI64(n: int64, buffer: seq<uint8>) returns (out: seq<uint8>)
    ensures out == buffer + ZigLong(n)
  {
    out := EncodeVariable(ZigI64Value(n), buffer);
  }

  /** `zig_i32`: appends the zigzag encoding of `n` to `buffer`. */
  method ZigI32(n: int32, buffer: seq<uint8>) returns (out: seq<uint8>)
    ensures out == buffer + ZigInt(n)
  {
    out := EncodeVariable(ZigI32Value(n), buffer);
  }

  /** `test_zig_i64`: `i32::MAX` as a `long`. */
  lemma ZigLongMaxInt()
    ensures ZigLong(2147483647) == [254, 255, 255, 255, 15]
  {
    assert ZigI64Value(2147483647) == 4294967294;
    assert VarintBytes(15) == [15];
    assert VarintBytes(2047) == [255, 15];
    assert VarintBytes(262143) == [255, 255, 15];
    assert VarintBytes(33554431) == [255, 255, 255, 15];
  }

  /** `test_zig_i64`: `i32::MAX + 1` as a `long`. */
  lemma ZigLongAboveMaxInt()
    ensures ZigLong(2147483648) == [128, 128, 128, 128, 16]
  {
    assert ZigI64Value(2147483648) == 4294967296;
    assert VarintBytes(16) == [16];
    assert VarintBytes(2048) == [128, 16];
    assert VarintBytes(262144) == [128, 128, 16];
    assert VarintBytes(33554432) == [128, 128, 128, 16];
  }

  /** `test_zig_i64`: `i32::MIN` as a `long`. */
  lemma ZigLongMinInt()
    ensures ZigLong(-2147483648) == [255, 255, 255, 255, 15]
  {
    assert ZigI64Value(-2147483648) == 4294967295;
    assert VarintBytes(15) == [15];
    assert VarintBytes(2047) == [255, 15];
    assert VarintBytes(262143) == [255, 255, 15];
    assert VarintBytes(33554431) == [255, 255, 255, 15];
  }

  /** `test_zig_i64`: `i32::MIN - 1` as a `long`. */
  lemma ZigLongBelowMinInt()
    ensures ZigLong(-2147483649) == [129, 128, 128, 128, 16]
  {
    assert ZigI64Value(-2147483649) == 4294967297;
    assert VarintBytes(16) == [16];
    assert VarintBytes(2048) == [128, 16];
    assert VarintBytes(262144) == [128, 128, 16];
    assert VarintBytes(33554432) == [128, 128, 128, 16];
  }

  /** `test_zigzag`: `zig_i32(42)` and `zig_i64(42)` write the same bytes. */
  lemma ZigIntFortyTwo()
    ensures ZigInt(42) == ZigLong(42) == [84]
  {
  }

  /** Both widths give the same bytes wherever the 32-bit shift does not wrap. */
  lemma ZigWidthsAgree(n: int32)
    requires -TWO_30 <= n < TWO_30
    ensures ZigInt(n) == ZigLong(n)
  {
  }

  /** Outside [-2^62, 2^62) the wrapped shift leaves a negative zigzag value,
      and `encode_variable` emits one byte for it. */
  lemma ZigLongOutsideRange(n: int64)
    requires n >= TWO_62 || n < -TWO_62
    ensures |ZigLong(n)| == 1
  {
    VarintSingleByte(ZigI64Value(n));
  }

  /** The same for `zig_i32` outside [-2^30, 2^30). */
  lemma ZigIntOutsideRange(n: int32)
    requires n >= TWO_30 || n < -TWO_30
    ensures |ZigInt(n)| == 1
  {
    VarintSingleByte(ZigI32Value(n));
  }

  // ---------------------------------------------------------------------------
  // Decoding

  /** `u64::from(b & 0x7F) << (7 * j)`, for the payload `low = b & 0x7F` of a
      byte `b`: group `j`, with whatever passes bit 63 dropped. */
  function Group(low: nat, j: nat): (g: nat)
    requires low < 0x80 && j <= 9
    ensures g < TWO_64
  {
    low * Pow128(j) % TWO_64
  }

  /** A group is not cut short while its product stays below `2^64`, which holds up to group 8. */
  lemma GroupValue(low: nat, j: nat)
    requires low < 0x80 && j <= 9
    ensures low * Pow128(j) < TWO_64 ==> Group(low, j) == low * Pow128(j)
    ensures j <= 8 ==> Group(low, j) == low * Pow128(j) && Group(low, j) < 0x80 * Pow128(j)
    ensures j == 9 ==> Group(low, j) == (low % 2) * TWO_63
  {
    var p := Pow128(j);
    if j <= 8 {
      Pow128Values();
      Pow128Monotone(j, 8);
      SmallGroup(low, p);
    } else if j == 9 {
      Pow128Values();
      TopGroup(low);
    }
    ProductBelowModulus(low, p, TWO_64);
  }

  /** Group 9 keeps only the lowest bit of its payload, as bit 63. */
  lemma TopGroup(low: nat)
    requires low < 0x80
    ensures low * TWO_63 % TWO_64 == (low % 2) * TWO_63
  {
    ModOfProduct(low * TWO_63, TWO_63, 2);
    assert low * TWO_63 / TWO_63 == low;
  }

  /** The product bounds behind `GroupValue`, with the weight `p` as a plain number. */
  lemma SmallGroup(low: nat, p: nat)
    requires low < 0x80 && 0 < p <= 0x100_0000_0000_0000
    ensures low * p < TWO_64 && low * p < 0x80 * p
  {
    MulLe(low, 0x7F, p);
    MulLe(p, 0x100_0000_0000_0000, 0x7F);
    assert 0x80 * p == 0x7F * p + p;
  }

  /** `decode_variable` from position `pos` at group `j`, with `acc` holding the
      groups read so far. Each group lies above every bit of `acc`
      (`acc < 2^(7j)`), so the source's `i |= group` is an addition here. */
  function DecodeGroups(input: seq<uint8>, pos: nat, j: nat, acc: nat): (r: Result<Decoded<uint64>, DecodeError>)
    requires j <= 10 && (j <= 9 ==> acc < Pow128(j))
    ensures r.Ok? ==> pos < r.value.next <= pos + 10 - j && r.value.next <= |input|
    decreases 10 - j
  {
    if j > 9 then Err(Overflow)
    else if pos >= |input| then Err(UnexpectedEof)
    else
      var b := input[pos];
      GroupFits(acc, b % 0x80, j);
      var i := acc + Group(b % 0x80, j);
      if b < 0x80 then Ok(Decoded(i, pos + 1))
      else DecodeGroups(input, pos + 1, j + 1, i)
  }

  /** A new group is a multiple of `2^(7j)` while `acc` lies below `2^(7j)`: the
      two share no bit, so `acc | group` is `acc + group`. The sum stays below
      `2^64`, and below `2^(7(j+1))` while another group may follow. */
  lemma GroupFits(acc: nat, low: nat, j: nat)
    requires low < 0x80 && j <= 9 && acc < Pow128(j)
    ensures Group(low, j) % Pow128(j) == 0
    ensures acc + Group(low, j) < TWO_64
    ensures j <= 8 ==> acc + Group(low, j) < Pow128(j + 1)
  {
    Pow128Values();
    GroupValue(low, j);
    var p := Pow128(j);
    if j <= 8 {
      DivModUnique(low * p, p, low, 0);
    } else {
      DivModUnique((low % 2) * TWO_63, TWO_63, low % 2, 0);
    }
  }

  /** What `decode_variable` reads from `input` at `pos`: the value and the next position. */
  function DecodeVar(input: seq<uint8>, pos: nat): (r: Result<Decoded<uint64>, DecodeError>)
    ensures r.Ok? ==> pos < r.value.next <= pos + 10
  {
    DecodeGroups(input, pos, 0, 0)
  }

  /** `decode_variable`: reads continued seven-bit groups, and fails after ten
      groups that all carry the continuation bit, or when the input ends first. */
  method DecodeVariable(input: seq<uint8>, pos: nat) returns (r: Result<Decoded<uint64>, DecodeError>)
    ensures r == DecodeVar(input, pos)
  {
    var i: nat := 0;
    var j: nat := 0;
    var p: nat := pos;
    while true
      invariant j <= 10 && (j <= 9 ==> i < Pow128(j))
      invariant DecodeGroups(input, p, j, i) == DecodeVar(input, pos)
      decreases 10 - j
    {
      if j > 9 {
        return Err(Overflow);
      }
      if p >= |input| {
        return Err(UnexpectedEof);
      }
      var b := input[p];
      p := p + 1;
      GroupFits(i, b % 0x80, j);
      i := i + Group(b % 0x80, j);
      if b < 0x80 {
        return Ok(Decoded(i, p));
      }
      j := j + 1;
    }
  }

  /** The bytes at positions [from, to) are all present and all carry the continuation bit. */
  predicate Continued(input: seq<uint8>, from: nat, to: nat)
  {
    to <= |input| && forall k :: from <= k < to ==> input[k] >= 0x80
  }

  /** A continued byte adds its group and hands on to the next group. */
  lemma DecodeGroupsStep(input: seq<uint8>, pos: nat, j: nat, acc: nat) returns (acc': nat)
    requires j <= 9 && acc < Pow128(j) && pos < |input| && input[pos] >= 0x80
    ensures acc' == acc + Group(input[pos] % 0x80, j)
    ensures j + 1 <= 9 ==> acc' < Pow128(j + 1)
    ensures DecodeGroups(input, pos, j, acc) == DecodeGroups(input, pos + 1, j + 1, acc')
  {
    var b := input[pos];
    GroupFits(acc, b % 0x80, j);
    acc' := acc + Group(b % 0x80, j);
  }

  /** Overflow exactly when the bytes up to group ten are all there and all continued. */
  lemma {:induction false} DecodeGroupsOverflow(input: seq<uint8>, pos: nat, j: nat, acc: nat)
    requires j <= 10 && (j <= 9 ==> acc < Pow128(j))
    requires j < 10 || pos <= |input|
    ensures DecodeGroups(input, pos, j, acc) == Err(Overflow) <==> Continued(input, pos, pos + 10 - j)
    decreases 10 - j
  {
    if j > 9 {
    } else if pos >= |input| {
      assert !Continued(input, pos, pos + 10 - j);
    } else if input[pos] < 0x80 {
      assert !Continued(input, pos, pos + 10 - j);
    } else {
      var acc' := DecodeGroupsStep(input, pos, j, acc);
      DecodeGroupsOverflow(input, pos + 1, j + 1, acc');
      assert Continued(input, pos, pos + 10 - j) <==> Continued(input, pos + 1, pos + 10 - j);
    }
  }

  /** End of input exactly when the input stops, within ten bytes, before a byte without the continuation bit. */
  lemma {:induction false} DecodeGroupsEof(input: seq<uint8>, pos: nat, j: nat, acc: nat)
    requires j <= 10 && (j <= 9 ==> acc < Pow128(j))
    requires j < 10 || pos <= |input|
    ensures DecodeGroups(input, pos, j, acc) == Err(UnexpectedEof) <==>
      (|input| < pos + 10 - j && (pos >= |input| || Continued(input, pos, |input|)))
    decreases 10 - j
  {
    if j > 9 {
    } else if pos >= |input| {
    } else if input[pos] < 0x80 {
      assert !Continued(input, pos, |input|);
    } else {
      var acc' := DecodeGroupsStep(input, pos, j, acc);
      DecodeGroupsEof(input, pos + 1, j + 1, acc');
      assert Continued(input, pos, |input|) <==> (pos + 1 >= |input| || Continued(input, pos + 1, |input|));
    }
  }

  /** The error cases of `decode_variable`, each with both directions. */
  lemma DecodeVarErrors(input: seq<uint8>, pos: nat)
    ensures DecodeVar(input, pos) == Err(Overflow) <==> Continued(input, pos, pos + 10)
    ensures DecodeVar(input, pos) == Err(UnexpectedEof) <==>
      |input| < pos + 10 && forall k :: pos <= k < |input| ==> input[k] >= 0x80
    ensures DecodeVar(input, pos) != Err(IntOutOfRange)
  {
    DecodeGroupsOverflow(input, pos, 0, 0);
    DecodeGroupsEof(input, pos, 0, 0);
  }

  /** The source's `test_overflow` input fails because it runs out after five
      continued bytes, not because of the ten-group guard. */
  lemma OverflowTestStopsAtEndOfInput()
    ensures DecodeVar([0xE1, 0xE1, 0xE1, 0xE1, 0xE1], 0) == Err(UnexpectedEof)
  {
    DecodeVarErrors([0xE1, 0xE1, 0xE1, 0xE1, 0xE1], 0);
  }

  /** The sum `decode_variable` forms from the bytes of `VarintBytes(u)` read as group `j` onward. */
  function GroupsOf(u: nat, j: nat): nat
    requires j + |VarintBytes(u)| <= 10
    decreases u
  {
    Group(u % 0x80, j) + (if u > 0x7F then GroupsOf(u / 0x80, j + 1) else 0)
  }

  /** Decoding the groups of `u` placed at `pos`, as group `j` onward, adds `GroupsOf(u, j)`. */
  lemma {:induction false} DecodeGroupsOfVarint(u: nat, input: seq<uint8>, pos: nat, j: nat, acc: nat)
    requires j + |VarintBytes(u)| <= 10 && acc < Pow128(j)
    requires pos + |VarintBytes(u)| <= |input| && input[pos..pos + |VarintBytes(u)|] == VarintBytes(u)
    ensures DecodeGroups(input, pos, j, acc).Ok?
    ensures DecodeGroups(input, pos, j, acc).value == Decoded(acc + GroupsOf(u, j), pos + |VarintBytes(u)|)
    decreases u
  {
    if u <= 0x7F {
      assert input[pos] == input[pos..pos + |VarintBytes(u)|][0] == VarintBytes(u)[0] == u;
      DecodeLastGroup(u, input, pos, j, acc);
    } else {
      var acc' := DecodeNextGroup(u, input, pos, j, acc);
      DecodeGroupsOfVarint(u / 0x80, input, pos + 1, j + 1, acc');
    }
  }

  /** The last byte of a varint ends the decoding. */
  lemma DecodeLastGroup(u: nat, input: seq<uint8>, pos: nat, j: nat, acc: nat)
    requires u <= 0x7F && j <= 9 && acc < Pow128(j)
    requires pos < |input| && input[pos] == u
    ensures DecodeGroups(input, pos, j, acc) == Ok(Decoded(acc + GroupsOf(u, j), pos + 1))
  {
    GroupFits(acc, u, j);
  }

  /** A continued byte of a varint adds its group and passes on to the rest. */
  lemma DecodeNextGroup(u: nat, input: seq<uint8>, pos: nat, j: nat, acc: nat) returns (acc': nat)
    requires u > 0x7F && j + |VarintBytes(u)| <= 10 && acc < Pow128(j)
    requires pos + |VarintBytes(u)| <= |input| && input[pos..pos + |VarintBytes(u)|] == VarintBytes(u)
    ensures j + 1 + |VarintBytes(u / 0x80)| <= 10 && acc' < Pow128(j + 1)
    ensures pos + 1 + |VarintBytes(u / 0x80)| == pos + |VarintBytes(u)|
    ensures input[pos + 1..pos + 1 + |VarintBytes(u / 0x80)|] == VarintBytes(u / 0x80)
    ensures DecodeGroups(input, pos, j, acc) == DecodeGroups(input, pos + 1, j + 1, acc')
    ensures acc' + GroupsOf(u / 0x80, j + 1) == acc + GroupsOf(u, j)
  {
    VarintHead(u, input, pos);
    assert input[pos] % 0x80 == u % 0x80;
    acc' := DecodeGroupsStep(input, pos, j, acc);
  }

  /** The first byte of a varint of `u > 0x7F` carries the low group and the continuation bit;
      the varint of `u / 0x80` follows it. */
  lemma VarintHead(u: nat, input: seq<uint8>, pos: nat)
    requires u > 0x7F
    requires pos + |VarintBytes(u)| <= |input| && input[pos..pos + |VarintBytes(u)|] == VarintBytes(u)
    ensures |VarintBytes(u)| == 1 + |VarintBytes(u / 0x80)|
    ensures input[pos] == 0x80 + u % 0x80
    ensures input[pos + 1..pos + |VarintBytes(u)|] == VarintBytes(u / 0x80)
  {
    var enc := VarintBytes(u);
    assert enc[0] == 0x80 + u % 0x80 && enc[1..] == VarintBytes(u / 0x80);
    SliceHead(input, pos, enc);
  }

  /** A slice of `input` that equals `s` starts with `s[0]` and goes on with `s[1..]`. */
  lemma SliceHead(input: seq<uint8>, pos: nat, s: seq<uint8>)
    requires |s| >= 1 && pos + |s| <= |input| && input[pos..pos + |s|] == s
    ensures input[pos] == s[0] && input[pos + 1..pos + |s|] == s[1..]
  {
    assert input[pos] == input[pos..pos + |s|][0];
    assert input[pos + 1..pos + |s|] == input[pos..pos + |s|][1..];
  }

  /** Without truncation, the groups of `u` from group `j` add up to `u * 2^(7j)`. */
  lemma {:induction false} GroupsOfValue(u: nat, j: nat)
    requires j + |VarintBytes(u)| <= 10 && u * Pow128(j) < TWO_64
    ensures GroupsOf(u, j) == u * Pow128(j)
    decreases u
  {
    var p := Pow128(j);
    var lo, hi := u % 0x80, u / 0x80;
    SplitLowGroup(u, p, 0);
    GroupValue(lo, j);
    assert Group(lo, j) == lo * p;
    if u > 0x7F {
      assert |VarintBytes(u)| == 1 + |VarintBytes(hi)|;
      assert Pow128(j + 1) == 0x80 * p;
      GroupsOfValue(hi, j + 1);
      assert GroupsOf(u, j) == lo * p + hi * (0x80 * p);
    } else {
      assert lo == u;
      assert GroupsOf(u, j) == lo * p;
    }
  }

  /** The arithmetic of one step: the low group of `u` plus the rest, both weighted by `p`. */
  lemma SplitLowGroup(u: nat, p: nat, acc: nat)
    requires acc < p
    ensures (u % 0x80) * p <= u * p
    ensures acc + (u % 0x80) * p < 0x80 * p
    ensures (u / 0x80) * (0x80 * p) <= u * p
    ensures acc + (u % 0x80) * p + (u / 0x80) * (0x80 * p) == acc + u * p
  {
    var lo, hi := u % 0x80, u / 0x80;
    MulLe(lo, u, p);
    MulLe(lo, 0x7F, p);
    assert u == 0x80 * hi + lo;
    assert hi * (0x80 * p) == (0x80 * hi) * p;
    MulLe(0x80 * hi, u, p);
    assert u * p == (0x80 * hi) * p + lo * p;
  }

  /** `decode_variable` reads back every unsigned 64-bit value `encode_variable` wrote. */
  lemma DecodeVarOfVarint(u: uint64, input: seq<uint8>, pos: nat)
    requires pos + |VarintBytes(u)| <= |input| && input[pos..pos + |VarintBytes(u)|] == VarintBytes(u)
    ensures DecodeVar(input, pos) == Ok(Decoded(u, pos + |VarintBytes(u)|))
  {
    Pow128Values();
    VarintLength(u, 10);
    DecodeGroupsOfVarint(u, input, pos, 0, 0);
    GroupsOfValue(u, 0);
  }

  // ---------------------------------------------------------------------------
  // Reading `long` and `int`

  /** `zag_i64`: a varint read as a `u64`, then unzigzagged. */
  function ZagI64(input: seq<uint8>, pos: nat): (r: Result<Decoded<int64>, DecodeError>)
    ensures r.Ok? <==> DecodeVar(input, pos).Ok?
    ensures r.Ok? ==> pos < r.value.next <= pos + 10
    ensures r.Err? ==> r.error != IntOutOfRange
  {
    DecodeVarErrors(input, pos);
    match DecodeVar(input, pos)
    case Ok(d) => Ok(Decoded(Zag(d.value), d.next))
    case Err(e) => Err(e)
  }

  /** `zag_i32`: a long that must fit `i32`, or "int out of range". */
  function ZagI32(input: seq<uint8>, pos: nat): (r: Result<Decoded<int32>, DecodeError>)
    ensures r.Ok? <==> ZagI64(input, pos).Ok? && -TWO_31 <= ZagI64(input, pos).value.value < TWO_31
    ensures r.Ok? ==> r.value.value == ZagI64(input, pos).value.value && r.value.next == ZagI64(input, pos).value.next
    ensures r.Err? && ZagI64(input, pos).Ok? ==> r.error == IntOutOfRange
    ensures ZagI64(input, pos).Err? ==> r.Err? && r.error == ZagI64(input, pos).error
  {
    match ZagI64(input, pos)
    case Err(e) => Err(e)
    case Ok(d) =>
      if d.value < -TWO_31 || d.value > TWO_31 - 1 then Err(IntOutOfRange)
      else var v: int32 := d.value; Ok(Decoded(v, d.next))
  }

  /** `read_long`: reads one `long`, consuming one to ten bytes. */
  function ReadLong(input: seq<uint8>, pos: nat): (r: Result<Decoded<int64>, DecodeError>)
    ensures r.Ok? ==> pos < r.value.next <= pos + 10
    ensures r.Err? ==> r.error == Overflow || r.error == UnexpectedEof
  {
    DecodeVarErrors(input, pos);
    ZagI64(input, pos)
  }

  /** Round trip of `long` on the range where the shift does not wrap. */
  lemma ZigZagLong(n: int64, input: seq<uint8>, pos: nat)
    requires -TWO_62 <= n < TWO_62
    requires pos + |ZigLong(n)| <= |input| && input[pos..pos + |ZigLong(n)|] == ZigLong(n)
    ensures ZagI64(input, pos) == Ok(Decoded(n, pos + |ZigLong(n)|))
  {
    ZagOfZigZag(n);
    ZagOfVarint(ZigZag(n), input, pos);
  }

  /** Round trip of `int` on the range where the 32-bit shift does not wrap. */
  lemma ZigZagInt(n: int32, input: seq<uint8>, pos: nat)
    requires -TWO_30 <= n < TWO_30
    requires pos + |ZigInt(n)| <= |input| && input[pos..pos + |ZigInt(n)|] == ZigInt(n)
    ensures ZagI32(input, pos) == Ok(Decoded(n, pos + |ZigInt(n)|))
  {
    var u := ZigZag(n);
    assert ZigInt(n) == VarintBytes(u);
    ZagOfZigZag(n);
    ZagOfVarint(u, input, pos);
    assert Zag(u) == n;
    ZagI32OfInt(input, pos, n, pos + |ZigInt(n)|);
  }

  /** A long that fits `i32` passes through `zag_i32` unchanged. */
  lemma ZagI32OfInt(input: seq<uint8>, pos: nat, n: int32, next: nat)
    requires ZagI64(input, pos).Ok? && ZagI64(input, pos).value == Decoded(n, next)
    ensures ZagI32(input, pos) == Ok(Decoded(n, next))
  {
  }

  // ---------------------------------------------------------------------------
  // The encodings with the zigzag value taken as unsigned

  /** The zigzag code of `n` with `(n << 1) ^ (n >> 63)` read as `u64` before the
      groups are emitted, so that no value is cut short to one byte. */
  function ZigLongUnsigned(n: int64): (r: seq<uint8>)
    ensures -TWO_62 <= n < TWO_62 ==> r == ZigLong(n)
  {
    VarintBytes(AsU64(ZigI64Value(n)))
  }

  /** The same for `int`: the 32-bit zigzag code read as `u32`. */
  function ZigIntUnsigned(n: int32): (r: seq<uint8>)
    ensures -TWO_30 <= n < TWO_30 ==> r == ZigInt(n)
  {
    VarintBytes(ZigI32Value(n) % TWO_32)
  }

  /** With the unsigned reading, every `long` comes back. */
  lemma ZigZagLongUnsigned(n: int64, input: seq<uint8>, pos: nat)
    requires pos + |ZigLongUnsigned(n)| <= |input| && input[pos..pos + |ZigLongUnsigned(n)|] == ZigLongUnsigned(n)
    ensures ZagI64(input, pos) == Ok(Decoded(n, pos + |ZigLongUnsigned(n)|))
  {
    UnsignedZigLong(n);
    ZagOfZigZag(n);
    ZagOfVarint(ZigZag(n), input, pos);
  }

  /** Read as `u32`, the 32-bit zigzag code is the textbook one for every `int`. */
  lemma UnsignedZigInt(n: int32)
    ensures ZigI32Value(n) % TWO_32 == ZigZag(n)
  {
    WrapI32Double(n);
    var z := ZigI32Value(n);
    if z < 0 {
      DivModUnique(z, TWO_32, -1, ZigZag(n));
    } else {
      DivModUnique(z, TWO_32, 0, ZigZag(n));
    }
  }

  /** With the unsigned reading, every `int` comes back. */
  lemma ZigZagIntUnsigned(n: int32, input: seq<uint8>, pos: nat)
    requires pos + |ZigIntUnsigned(n)| <= |input| && input[pos..pos + |ZigIntUnsigned(n)|] == ZigIntUnsigned(n)
    ensures ZagI32(input, pos) == Ok(Decoded(n, pos + |ZigIntUnsigned(n)|))
  {
    var u := ZigZag(n);
    UnsignedZigInt(n);
    assert ZigIntUnsigned(n) == VarintBytes(u);
    ZagOfZigZag(n);
    ZagOfVarint(u, input, pos);
    assert Zag(u) == n;
    ZagI32OfInt(input, pos, n, pos + |ZigIntUnsigned(n)|);
  }

  /** `zag_i64` reads back the zag of every `u64` written by `encode_variable`. */
  lemma ZagOfVarint(u: uint64, input: seq<uint8>, pos: nat)
    requires pos + |VarintBytes(u)| <= |input| && input[pos..pos + |VarintBytes(u)|] == VarintBytes(u)
    ensures ZagI64(input, pos) == Ok(Decoded(Zag(u), pos + |VarintBytes(u)|))
  {
    DecodeVarOfVarint(u, input, pos);
  }

  /** As written, `2^62` encodes to the same single byte as `0`, so it reads back as `0`. */
  lemma ZigLongCollision()
    ensures ZigLong(TWO_62) == ZigLong(0) == [0]
    ensures ZagI64(ZigLong(TWO_62), 0) == Ok(Decoded(0, 1))
  {
    assert ZigI64Value(TWO_62) == -TWO_63;
  }

  /** As written, `2^30` encodes to the same single byte as `0` in `zig_i32`. */
  lemma ZigIntCollision()
    ensures ZigInt(TWO_30) == ZigInt(0) == [0]
    ensures ZagI32(ZigInt(TWO_30), 0) == Ok(Decoded(0, 1))
  {
    assert ZigI32Value(TWO_30) == -TWO_31;
  }
}
