/**
 * The object-container `Writer`: a header (magic, metadata map, sync marker)
 * written once, then one block per `extend` call: the value count, the
 * payload length, the compressed payload and the marker again.
 *
 * The serializer, the schema's value encoder, the metadata-map encoder, the
 * codec's compressor and the schema's JSON rendering are not part of this
 * model; they are function-valued fields the writer is given. The sink is the
 * sequence of bytes written so far, and every write appends in full.
 */
module Container {
  import opened Wrappers
  import opened Ints
  import Varint

  /** Why a call fails: a collaborator's own error (serializer, JSON
      rendering, compression), or a value the schema's encoder rejects. */
  datatype Error = Collaborator(reason: string) | SchemaMismatch

  /** A compression codec: the name written under "avro.codec", and `compress`. */
  datatype Codec = Codec(name: seq<uint8>, compress: seq<uint8> -> Result<seq<uint8>, string>)

  /** `Codec::Null`: named "null", and leaves the bytes as they are. */
  const NULL_CODEC: Codec := Codec([0x6E, 0x75, 0x6C, 0x6C], s => Ok(s))

  /** What the writer uses of its schema: its JSON text, the serializer of
      user values `S` to Avro values `V`, the encoder of such values, and the
      encoder of the header's metadata map. */
  datatype Schema<!S, !V> = Schema(
    json: Result<seq<uint8>, string>,
    serialize: S -> Result<V, string>,
    encode: V -> Option<seq<uint8>>,
    encodeMetadata: map<string, seq<uint8>> -> Option<seq<uint8>>)

  /** 'O', 'b', 'j', 1: the four bytes every container file starts with. */
  const MAGIC: seq<uint8> := [0x4F, 0x62, 0x6A, 0x01]

  /** The header's metadata map: the schema's JSON text and the codec's name. */
  function Metadata(json: seq<uint8>, codec: Codec): (m: map<string, seq<uint8>>)
    ensures m.Keys == {"avro.schema", "avro.codec"}
    ensures m["avro.schema"] == json && m["avro.codec"] == codec.name
  {
    map["avro.schema" := json, "avro.codec" := codec.name]
  }

  /** The bytes one call writes, and what it returns. */
  datatype Step = Step(written: seq<uint8>, result: Result<nat, Error>)

  /** `header`: the metadata is built first, so a JSON failure writes nothing;
      the magic is written before the metadata is encoded, so a metadata the
      map encoder rejects leaves the magic behind. On success it answers the
      number of bytes written. */
  function HeaderStep<S, V>(schema: Schema<S, V>, codec: Codec, marker: seq<uint8>): (s: Step)
    ensures s.result.Ok? <==> schema.json.Ok? && schema.encodeMetadata(Metadata(schema.json.value, codec)).Some?
    ensures s.result.Ok? ==> s.result.value == |s.written| && |s.written| >= |MAGIC| + |marker|
    ensures s.result.Ok? ==> s.written[..|MAGIC|] == MAGIC && s.written[|s.written| - |marker|..] == marker
    ensures s.result.Ok? ==> s.written == MAGIC + schema.encodeMetadata(Metadata(schema.json.value, codec)).value + marker
    ensures s.result.Err? ==> s.written == [] || s.written == MAGIC
    ensures schema.json.Err? ==> s.written == []
  {
    match schema.json
    case Err(e) => Step([], Err(Collaborator(e)))
    case Ok(json) =>
      match schema.encodeMetadata(Metadata(json, codec))
      case None => Step(MAGIC, Err(SchemaMismatch))
      case Some(meta) => Step(MAGIC + meta + marker, Ok(|MAGIC| + |meta| + |marker|))
  }

  /** `append_raw(&Schema::Long, n)` for a count or a length: the `long`
      zigzag varint of `n` taken as `i64`. */
  function LongOf(n: nat): seq<uint8>
  {
    Varint.ZigLong(WrapI64(n))
  }

  /** One data block: count, payload length, payload, marker. */
  function BlockBytes(marker: seq<uint8>, count: nat, payload: seq<uint8>): seq<uint8>
  {
    LongOf(count) + LongOf(|payload|) + payload + marker
  }

  /** One value serialized and then encoded, as the loop of `extend` does it. */
  function ValueEncoding<S, V>(schema: Schema<S, V>, value: S): (r: Result<seq<uint8>, Error>)
    ensures r.Ok? <==> schema.serialize(value).Ok? && schema.encode(schema.serialize(value).value).Some?
    ensures r.Ok? ==> r.value == schema.encode(schema.serialize(value).value).value
    ensures schema.serialize(value).Err? ==> r == Err(Collaborator(schema.serialize(value).error))
    ensures schema.serialize(value).Ok? && schema.encode(schema.serialize(value).value).None? ==> r == Err(SchemaMismatch)
  {
    match schema.serialize(value)
    case Err(e) => Err(Collaborator(e))
    case Ok(v) =>
      match schema.encode(v)
      case None => Err(SchemaMismatch)
      case Some(stream) => Ok(stream)
  }

  /** The loop of `extend`: every value encoded in order, stopping at the first failure. */
  function EncodeValues<S, V>(schema: Schema<S, V>, values: seq<S>): (r: Result<seq<seq<uint8>>, Error>)
    ensures r.Ok? ==> |r.value| == |values|
  {
    if |values| == 0 then Ok([])
    else
      match EncodeValues(schema, values[..|values| - 1])
      case Err(e) => Err(e)
      case Ok(prefix) =>
        match ValueEncoding(schema, values[|values| - 1])
        case Err(e) => Err(e)
        case Ok(stream) => Ok(prefix + [stream])
  }

  /** The chunks joined in order, as the fold of `extend` does it. */
  function Concat(chunks: seq<seq<uint8>>): seq<uint8>
  {
    if |chunks| == 0 then [] else Concat(chunks[..|chunks| - 1]) + chunks[|chunks| - 1]
  }

  /** The payload of a block: the values' encodings joined, then compressed as one unit. */
  function Payload<S, V>(schema: Schema<S, V>, codec: Codec, values: seq<S>): (r: Result<seq<uint8>, Error>)
    ensures r.Ok? ==> EncodeValues(schema, values).Ok?
  {
    match EncodeValues(schema, values)
    case Err(e) => Err(e)
    case Ok(chunks) =>
      match codec.compress(Concat(chunks))
      case Err(e) => Err(Collaborator(e))
      case Ok(payload) => Ok(payload)
  }

  /** What one `extend` call writes, returns, and leaves in `has_header`. */
  datatype Outcome = Outcome(written: seq<uint8>, result: Result<nat, Error>, hasHeader: bool)

  /** `extend`: nothing is written before the payload is ready; then the
      header if none was written yet, then the block. The answer is the
      block's size alone. */
  function ExtendOutcome<S, V>(schema: Schema<S, V>, codec: Codec, marker: seq<uint8>, hasHeader: bool, values: seq<S>): Outcome
  {
    match Payload(schema, codec, values)
    case Err(e) => Outcome([], Err(e), hasHeader)
    case Ok(payload) =>
      var block := BlockBytes(marker, |values|, payload);
      if hasHeader then Outcome(block, Ok(|block|), true)
      else
        var h := HeaderStep(schema, codec, marker);
        match h.result
        case Err(e) => Outcome(h.written, Err(e), false)
        case Ok(_) => Outcome(h.written + block, Ok(|block|), true)
  }

  class Writer<S, V> {
    const schema: Schema<S, V>
    const codec: Codec
    /** The sync marker, drawn once and never changed. */
    const marker: seq<uint8>
    /** Everything written so far. */
    var sink: seq<uint8>
    var hasHeader: bool

    /** `with_codec`: the marker is the sixteen bytes drawn at random. */
    constructor WithCodec(schema: Schema<S, V>, writer: seq<uint8>, codec: Codec, marker: seq<uint8>)
      requires |marker| == 16
      ensures this.schema == schema && this.codec == codec && this.marker == marker
      ensures sink == writer && !hasHeader
    {
      this.schema := schema;
      this.codec := codec;
      this.marker := marker;
      sink := writer;
      hasHeader := false;
    }

    /** `new`: a writer with the null codec. */
    constructor New(schema: Schema<S, V>, writer: seq<uint8>, marker: seq<uint8>)
      requires |marker| == 16
      ensures this.schema == schema && this.codec == NULL_CODEC && this.marker == marker
      ensures sink == writer && !hasHeader
    {
      this.schema := schema;
      this.codec := NULL_CODEC;
      this.marker := marker;
      sink := writer;
      hasHeader := false;
    }

    /** `append_raw`, given what the schema's encoder made of the value. */
    method AppendRaw(encoded: Option<seq<uint8>>) returns (r: Result<nat, Error>)
      modifies this
      ensures encoded.Some? ==> sink == old(sink) + encoded.value && r == Ok(|encoded.value|)
      ensures encoded.None? ==> sink == old(sink) && r == Err(SchemaMismatch)
      ensures hasHeader == old(hasHeader)
    {
      match encoded
      case Some(stream) =>
        sink := sink + stream;
        r := Ok(|stream|);
      case None =>
        r := Err(SchemaMismatch);
    }

    /** `append_marker`: writes the marker. */
    method AppendMarker() returns (n: nat)
      modifies this
      ensures sink == old(sink) + marker && n == |marker|
      ensures hasHeader == old(hasHeader)
    {
      sink := sink + marker;
      n := |marker|;
    }

    /** `header`: magic, metadata, marker. It leaves `has_header` alone, so a
        direct call followed by `extend` writes the header twice. */
    method Header() returns (r: Result<nat, Error>)
      modifies this
      ensures sink == old(sink) + HeaderStep(schema, codec, marker).written
      ensures r == HeaderStep(schema, codec, marker).result
      ensures hasHeader == old(hasHeader)
    {
      match schema.json
      case Err(e) =>
        r := Err(Collaborator(e));
      case Ok(json) =>
        var metadata := Metadata(json, codec);
        var magic := AppendRaw(Some(MAGIC));
        var meta := AppendRaw(schema.encodeMetadata(metadata));
        if meta.Err? {
          r := Err(meta.error);
          return;
        }
        var m := AppendMarker();
        r := Ok(magic.value + meta.value + m);
    }

    /** The loop of `extend` that serializes and encodes each value in turn,
        pushing each encoding, until one fails. The source also counts the
        pushes in `num_values`; on success that count is `|values|`, the
        length of the result, which is what `Extend` writes as the block count. */
    method EncodeEach(values: seq<S>) returns (r: Result<seq<seq<uint8>>, Error>)
      ensures r == EncodeValues(schema, values)
    {
      var v: seq<seq<uint8>> := [];
      var k := 0;
      while k < |values|
        invariant 0 <= k <= |values|
        invariant EncodeValues(schema, values[..k]) == Ok(v)
      {
        assert values[..k + 1][..k] == values[..k];
        match schema.serialize(values[k])
        case Err(e) =>
          EncodeValuesPrefixError(schema, values, k + 1);
          return Err(Collaborator(e));
        case Ok(s) =>
          match schema.encode(s)
          case None =>
            EncodeValuesPrefixError(schema, values, k + 1);
            return Err(SchemaMismatch);
          case Some(stream) =>
            v := v + [stream];
        k := k + 1;
      }
      assert values[..k] == values;
      r := Ok(v);
    }

    /** `extend`: encodes every value, joins and compresses the encodings,
        and only then writes: the header once, then the block. */
    method Extend(values: seq<S>) returns (r: Result<nat, Error>)
      modifies this
      ensures sink == old(sink) + ExtendOutcome(schema, codec, marker, old(hasHeader), values).written
      ensures r == ExtendOutcome(schema, codec, marker, old(hasHeader), values).result
      ensures hasHeader == ExtendOutcome(schema, codec, marker, old(hasHeader), values).hasHeader
    {
      var payload := PreparePayload(values);
      if payload.Err? {
        return Err(payload.error);
      }
      if !hasHeader {
        var h := Header();
        if h.Err? {
          return Err(h.error);
        }
        hasHeader := true;
      }
      var n := WriteBlock(|values|, payload.value);
      r := Ok(n);
    }

    /** The part of `extend` before its first write: encode, join, compress. */
    method PreparePayload(values: seq<S>) returns (r: Result<seq<uint8>, Error>)
      ensures r == Payload(schema, codec, values)
    {
      var encoded := EncodeEach(values);
      if encoded.Err? {
        return Err(encoded.error);
      }
      var stream := Join(encoded.value);
      var compressed := codec.compress(stream);
      if compressed.Err? {
        return Err(Collaborator(compressed.error));
      }
      r := Ok(compressed.value);
    }

    /** The tail of `extend`: count, length, payload, marker, and their total size. */
    method WriteBlock(count: nat, payload: seq<uint8>) returns (n: nat)
      modifies this
      ensures sink == old(sink) + BlockBytes(marker, count, payload) && n == |BlockBytes(marker, count, payload)|
      ensures hasHeader == old(hasHeader)
    {
      ghost var before := sink;
      var c := AppendRaw(Some(LongOf(count)));
      var l := AppendRaw(Some(LongOf(|payload|)));
      sink := sink + payload;
      var m := AppendMarker();
      AppendFour(before, LongOf(count), LongOf(|payload|), payload, marker);
      n := c.value + l.value + |payload| + m;
    }

    /** `append`: `extend` with the one value. */
    method Append(value: S) returns (r: Result<nat, Error>)
      modifies this
      ensures sink == old(sink) + ExtendOutcome(schema, codec, marker, old(hasHeader), [value]).written
      ensures r == ExtendOutcome(schema, codec, marker, old(hasHeader), [value]).result
      ensures hasHeader == ExtendOutcome(schema, codec, marker, old(hasHeader), [value]).hasHeader
    {
      r := Extend([value]);
    }

    /** `into_inner`: the bytes written, header and blocks included. */
    method IntoInner() returns (w: seq<uint8>)
      ensures w == sink
    {
      w := sink;
    }
  }

  /** The fold of `extend` that joins the encodings into one buffer. */
  method Join(chunks: seq<seq<uint8>>) returns (stream: seq<uint8>)
    ensures stream == Concat(chunks)
  {
    stream := [];
    var i := 0;
    while i < |chunks|
      invariant 0 <= i <= |chunks| && stream == Concat(chunks[..i])
    {
      assert chunks[..i + 1][..i] == chunks[..i];
      stream := stream + chunks[i];
      i := i + 1;
    }
    assert chunks[..i] == chunks;
  }

  /** Four writes in a row append their bytes joined. */
  lemma AppendFour(s: seq<uint8>, a: seq<uint8>, b: seq<uint8>, c: seq<uint8>, d: seq<uint8>)
    ensures s + a + b + c + d == s + (a + b + c + d)
  {
  }

  // ---------------------------------------------------------------------------
  // Properties of the specification

  /** Once a prefix of the values fails, the whole batch fails with its error. */
  lemma {:induction false} EncodeValuesPrefixError<S, V>(schema: Schema<S, V>, values: seq<S>, k: nat)
    requires k <= |values| && EncodeValues(schema, values[..k]).Err?
    ensures EncodeValues(schema, values) == EncodeValues(schema, values[..k])
    decreases |values| - k
  {
    if k < |values| {
      var next := values[..k + 1];
      assert next[..k] == values[..k];
      EncodeValuesPrefixError(schema, values, k + 1);
    } else {
      assert values[..k] == values;
    }
  }

  /** The batch encodes exactly when every value does; the encodings then come
      in input order, and otherwise the error is that of the first failing value. */
  lemma {:induction false} EncodeValuesInOrder<S, V>(schema: Schema<S, V>, values: seq<S>)
    ensures EncodeValues(schema, values).Ok? <==> forall i :: 0 <= i < |values| ==> ValueEncoding(schema, values[i]).Ok?
    ensures EncodeValues(schema, values).Ok? ==>
      forall i :: 0 <= i < |values| ==> EncodeValues(schema, values).value[i] == ValueEncoding(schema, values[i]).value
    ensures EncodeValues(schema, values).Err? ==>
      exists i :: 0 <= i < |values| && ValueEncoding(schema, values[i]).Err?
        && EncodeValues(schema, values).error == ValueEncoding(schema, values[i]).error
        && forall j :: 0 <= j < i ==> ValueEncoding(schema, values[j]).Ok?
  {
    if |values| > 0 {
      var n := |values| - 1;
      var init := values[..n];
      EncodeValuesInOrder(schema, init);
      assert forall i :: 0 <= i < n ==> init[i] == values[i];
    }
  }

  /** Joining two runs of chunks joins their bytes. */
  lemma {:induction false} ConcatAppend(a: seq<seq<uint8>>, b: seq<seq<uint8>>)
    ensures Concat(a + b) == Concat(a) + Concat(b)
    decreases |b|
  {
    if |b| == 0 {
      assert a + b == a;
    } else {
      var n := |b| - 1;
      var ab := a + b;
      assert ab[..|ab| - 1] == a + b[..n];
      assert ab[|ab| - 1] == b[n];
      ConcatAppend(a, b[..n]);
      calc {
        Concat(ab);
        Concat(a + b[..n]) + b[n];
        Concat(a) + Concat(b[..n]) + b[n];
        Concat(a) + Concat(b);
      }
    }
  }

  /** A count or length below `2^62` is written as its textbook zigzag varint
      and read back by `read_long`. */
  lemma LongOfReadsBack(n: nat, input: seq<uint8>, pos: nat)
    requires n < TWO_62
    requires pos + |LongOf(n)| <= |input| && input[pos..pos + |LongOf(n)|] == LongOf(n)
    ensures Varint.ReadLong(input, pos) == Ok(Varint.Decoded(n, pos + |LongOf(n)|))
  {
    Varint.ZigZagLong(n, input, pos);
  }

  /** A block reads back: `read_long` gives the count, then the payload length;
      the payload and the marker follow, and nothing else. */
  lemma BlockFraming(marker: seq<uint8>, count: nat, payload: seq<uint8>)
    requires count < TWO_62 && |payload| < TWO_62
    ensures var block := BlockBytes(marker, count, payload);
      var c := |LongOf(count)|;
      var l := |LongOf(|payload|)|;
      Varint.ReadLong(block, 0) == Ok(Varint.Decoded(count, c))
      && Varint.ReadLong(block, c) == Ok(Varint.Decoded(|payload|, c + l))
      && block[c + l..c + l + |payload|] == payload
      && block[c + l + |payload|..] == marker
  {
    var cb, lb := LongOf(count), LongOf(|payload|);
    FourParts(cb, lb, payload, marker);
    LongOfReadsBack(count, BlockBytes(marker, count, payload), 0);
    LongOfReadsBack(|payload|, BlockBytes(marker, count, payload), |cb|);
  }

  /** Each of four joined runs is found again at its offset. */
  lemma FourParts(a: seq<uint8>, b: seq<uint8>, c: seq<uint8>, d: seq<uint8>)
    ensures var s := a + b + c + d;
      && s[..|a|] == a && s[|a|..|a| + |b|] == b
      && s[|a| + |b|..|a| + |b| + |c|] == c && s[|a| + |b| + |c|..] == d
  {
    var s := a + b + c + d;
    assert s[..|a|] == a;
    assert s[|a|..|a| + |b|] == b;
    assert s[|a| + |b|..|a| + |b| + |c|] == c;
    assert s[|a| + |b| + |c|..] == d;
  }

  /** A failed encoding or compression writes nothing and leaves `has_header` alone. */
  lemma ExtendFailureWritesNothing<S, V>(schema: Schema<S, V>, codec: Codec, marker: seq<uint8>, hasHeader: bool, values: seq<S>)
    requires Payload(schema, codec, values).Err?
    ensures ExtendOutcome(schema, codec, marker, hasHeader, values) == Outcome([], Err(Payload(schema, codec, values).error), hasHeader)
  {
  }

  /** With a header already written, `extend` writes the block alone; otherwise
      it writes the header first and sets the flag only when the header succeeded.
      On success the answer is the block's size, without the header's. */
  lemma ExtendHeaderOnce<S, V>(schema: Schema<S, V>, codec: Codec, marker: seq<uint8>, hasHeader: bool, values: seq<S>)
    requires Payload(schema, codec, values).Ok?
    ensures var o := ExtendOutcome(schema, codec, marker, hasHeader, values);
      var block := BlockBytes(marker, |values|, Payload(schema, codec, values).value);
      var h := HeaderStep(schema, codec, marker);
      && (hasHeader ==> o == Outcome(block, Ok(|block|), true))
      && (!hasHeader && h.result.Ok? ==> o == Outcome(h.written + block, Ok(|block|), true))
      && (!hasHeader && h.result.Err? ==> o == Outcome(h.written, h.result, false))
  {
  }

  /** The block's count is the number of values, and its payload is the
      compressed join of their encodings in input order. */
  lemma ExtendBlockContents<S, V>(schema: Schema<S, V>, codec: Codec, values: seq<S>)
    requires Payload(schema, codec, values).Ok?
    ensures EncodeValues(schema, values).Ok? && |EncodeValues(schema, values).value| == |values|
    ensures codec.compress(Concat(EncodeValues(schema, values).value)) == Ok(Payload(schema, codec, values).value)
    ensures forall i :: 0 <= i < |values| ==>
      ValueEncoding(schema, values[i]).Ok? && EncodeValues(schema, values).value[i] == ValueEncoding(schema, values[i]).value
  {
    EncodeValuesInOrder(schema, values);
  }

  /** An empty batch still writes a block: count 0, and whatever the codec
      makes of no bytes; with the null codec, an empty payload. */
  lemma ExtendEmpty<S, V>(schema: Schema<S, V>, codec: Codec, marker: seq<uint8>)
    ensures codec.compress([]).Ok? ==> Payload(schema, codec, []) == Ok(codec.compress([]).value)
    ensures codec.compress([]).Ok? ==> BlockBytes(marker, 0, codec.compress([]).value) == [0] + LongOf(|codec.compress([]).value|) + codec.compress([]).value + marker
    ensures Payload(schema, NULL_CODEC, []) == Ok([])
    ensures BlockBytes(marker, 0, []) == [0, 0] + marker
  {
    assert Varint.ZigLong(0) == [0];
  }

  /** `append` writes a block with count 1, encoded as the byte 2. */
  lemma AppendCountsOne<S, V>(schema: Schema<S, V>, codec: Codec, marker: seq<uint8>, value: S)
    requires Payload(schema, codec, [value]).Ok?
    ensures BlockBytes(marker, 1, Payload(schema, codec, [value]).value)[0] == 2
  {
    assert Varint.ZigLong(1) == [2];
  }

  /** Calling `header` by hand and then `extend` writes the header twice: the
      flag only follows `extend`'s own header. */
  method HeaderTwice<S, V>(schema: Schema<S, V>, marker: seq<uint8>, value: S) returns (written: seq<uint8>)
    requires |marker| == 16
    requires HeaderStep(schema, NULL_CODEC, marker).result.Ok? && Payload(schema, NULL_CODEC, [value]).Ok?
    ensures var h := HeaderStep(schema, NULL_CODEC, marker).written;
      written == h + h + BlockBytes(marker, 1, Payload(schema, NULL_CODEC, [value]).value)
  {
    var w := new Writer<S, V>.New(schema, [], marker);
    ghost var h := HeaderStep(schema, NULL_CODEC, marker).written;
    ghost var block := BlockBytes(marker, 1, Payload(schema, NULL_CODEC, [value]).value);
    var a := w.Header();
    assert w.sink == h && !w.hasHeader;
    var b := w.Append(value);
    ExtendHeaderOnce(schema, NULL_CODEC, marker, false, [value]);
    assert w.sink == h + (h + block);
    written := w.IntoInner();
  }

  /** A fresh writer given two values writes the header once, then one block
      per value in call order. */
  method AppendTwice<S, V>(schema: Schema<S, V>, codec: Codec, marker: seq<uint8>, x: S, y: S) returns (written: seq<uint8>)
    requires |marker| == 16
    requires HeaderStep(schema, codec, marker).result.Ok?
    requires Payload(schema, codec, [x]).Ok? && Payload(schema, codec, [y]).Ok?
    ensures written == HeaderStep(schema, codec, marker).written
      + BlockBytes(marker, 1, Payload(schema, codec, [x]).value)
      + BlockBytes(marker, 1, Payload(schema, codec, [y]).value)
  {
    var w := new Writer<S, V>.WithCodec(schema, [], codec, marker);
    ghost var h := HeaderStep(schema, codec, marker).written;
    ghost var blockX := BlockBytes(marker, 1, Payload(schema, codec, [x]).value);
    ghost var blockY := BlockBytes(marker, 1, Payload(schema, codec, [y]).value);
    var a := w.Append(x);
    ExtendHeaderOnce(schema, codec, marker, false, [x]);
    assert w.sink == h + blockX && w.hasHeader;
    var b := w.Append(y);
    ExtendHeaderOnce(schema, codec, marker, true, [y]);
    assert w.sink == h + blockX + blockY;
    written := w.IntoInner();
  }
}
