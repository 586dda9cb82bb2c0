/** The embedding BLOB codec: a header byte and little-endian words, or the older raw words. */
module EmbeddingBlob {
  import opened Basics

  /** A byte, and a 32-bit float as its bit pattern. */
  type Byte = b: nat | b < 0x100
  type Word = w: nat | w < 0x1_0000_0000

  const HEADER_LE_F32: Byte := 0x01
  const HEADER_BE_F32: Byte := 0x02

  datatype FormatError = UnknownHeader(header: Byte) | BigEndianUnsupported | MalformedLength(length: nat)

  function ToLeBytes(w: Word): seq<Byte> {
    [w % 0x100, (w / 0x100) % 0x100, (w / 0x1_0000) % 0x100, w / 0x100_0000]
  }

  function LeValue(a: nat, b: nat, c: nat, d: nat): nat {
    a + 0x100 * b + 0x1_0000 * c + 0x100_0000 * d
  }

  function FromLeBytes(bs: seq<Byte>): Word
    requires |bs| == 4
  {
    LeValue(bs[0], bs[1], bs[2], bs[3])
  }

  lemma BytesRoundTrip(w: Word)
    ensures FromLeBytes(ToLeBytes(w)) == w
  {
    var a, b, c := w / 0x100, w / 0x1_0000, w / 0x100_0000;
    assert w == 0x100 * a + w % 0x100;
    assert a == 0x100 * b + a % 0x100;
    assert b == 0x100 * c + b % 0x100;
  }

  lemma WordRoundTrip(bs: seq<Byte>)
    requires |bs| == 4
    ensures ToLeBytes(FromLeBytes(bs)) == bs
  {
    LeDigits(bs[0], bs[1], bs[2], bs[3]);
  }

  lemma LeDigits(a: nat, b: nat, c: nat, d: nat)
    requires a < 0x100 && b < 0x100 && c < 0x100
    ensures var w := LeValue(a, b, c, d);
            w % 0x100 == a && (w / 0x100) % 0x100 == b && (w / 0x1_0000) % 0x100 == c && w / 0x100_0000 == d
  {
    Digit(0x100, 0x1_0000 * d + 0x100 * c + b, a);
    Digit(0x100, 0x100 * d + c, b);
    Digit(0x1_0000, 0x100 * d + c, 0x100 * b + a);
    Digit(0x100, d, c);
    Digit(0x100_0000, d, 0x1_0000 * c + 0x100 * b + a);
  }

  lemma Digit(base: nat, high: nat, low: nat)
    requires low < base && (base == 0x100 || base == 0x1_0000 || base == 0x100_0000)
    ensures (base * high + low) / base == high && (base * high + low) % base == low
  {
    var w := base * high + low;
    if base == 0x100 {
      assert w == 0x100 * (w / 0x100) + w % 0x100;
    } else if base == 0x1_0000 {
      assert w == 0x1_0000 * (w / 0x1_0000) + w % 0x1_0000;
    } else {
      assert w == 0x100_0000 * (w / 0x100_0000) + w % 0x100_0000;
    }
  }

  /** The words one after the other, four bytes each: the older format. */
  function RawBytes(v: seq<Word>): (bs: seq<Byte>)
    ensures |bs| == 4 * |v|
  {
    if v == [] then [] else RawBytes(v[..|v| - 1]) + ToLeBytes(v[|v| - 1])
  }

  method EncodeEmbeddingBlob(embedding: seq<Word>) returns (out: seq<Byte>)
    ensures out == [HEADER_LE_F32] + RawBytes(embedding)
    ensures |out| == 1 + 4 * |embedding| && out[0] == 0x01
    ensures forall i :: 0 <= i < |embedding| ==> WordAt(out, 1 + 4 * i, embedding[i])
  {
    out := [HEADER_LE_F32];
    for i := 0 to |embedding|
      invariant out == [HEADER_LE_F32] + RawBytes(embedding[..i])
    {
      assert embedding[..i + 1][..i] == embedding[..i];
      out := out + ToLeBytes(embedding[i]);
    }
    assert embedding[..|embedding|] == embedding;
    forall i | 0 <= i < |embedding| ensures WordAt(out, 1 + 4 * i, embedding[i]) {
      RawWordAt(embedding, i);
    }
  }

  /** The word stands at the position, its lowest byte first. */
  predicate WordAt(bs: seq<Byte>, at: nat, w: Word) {
    at + 4 <= |bs| &&
    var a: nat, b: nat, c: nat, d: nat := bs[at], bs[at + 1], bs[at + 2], bs[at + 3];
    a + 0x100 * b + 0x1_0000 * c + 0x100_0000 * d == w
  }

  lemma {:induction false} RawWordAt(v: seq<Word>, i: nat)
    requires i < |v|
    ensures WordAt(RawBytes(v), 4 * i, v[i])
  {
    var init := v[..|v| - 1];
    if i < |init| {
      RawWordAt(init, i);
    } else {
      BytesRoundTrip(v[i]);
      assert RawBytes(v)[4 * i..] == ToLeBytes(v[i]);
      assert forall x :: 0 <= x < 4 ==> RawBytes(v)[4 * i + x] == ToLeBytes(v[i])[x];
    }
  }

  /** The four-byte chunks of a payload, as words; a short last chunk is ignored. */
  function Words(payload: seq<Byte>): (v: seq<Word>)
    ensures |v| == |payload| / 4
    decreases |payload|
  {
    if |payload| < 4 then [] else [FromLeBytes(payload[..4])] + Words(payload[4..])
  }

  function DecodeEmbeddingBlob(bytes: seq<Byte>): Result<seq<Word>, FormatError> {
    if bytes == [] then Ok([])
    else if |bytes| % 4 == 1 then
      if bytes[0] == HEADER_LE_F32 then Ok(Words(bytes[1..]))
      else if bytes[0] == HEADER_BE_F32 then Err(BigEndianUnsupported)
      else Err(UnknownHeader(bytes[0]))
    else if |bytes| % 4 == 0 then Ok(Words(bytes))
    else Err(MalformedLength(|bytes|))
  }

  function DecodedDim(bytes: seq<Byte>): nat {
    if bytes == [] then 0
    else if |bytes| % 4 == 1 then (|bytes| - 1) / 4
    else |bytes| / 4
  }

  lemma FirstWord(payload: seq<Byte>, head: seq<Byte>, tail: seq<Byte>)
    requires |head| == 4 && payload == head + tail
    ensures Words(payload) == [FromLeBytes(head)] + Words(tail)
  {
    assert payload[..4] == head && payload[4..] == tail;
  }

  lemma {:induction false} WordsConcat(a: seq<Byte>, b: seq<Byte>)
    requires |a| % 4 == 0
    ensures Words(a + b) == Words(a) + Words(b)
    decreases |a|
  {
    if a == [] {
      assert a + b == b;
    } else {
      var head, tail := a[..4], a[4..];
      WordsConcat(tail, b);
      FirstWord(a, head, tail);
      FirstWord(a + b, head, tail + b);
    }
  }

  lemma OneWord(bs: seq<Byte>)
    requires |bs| == 4
    ensures Words(bs) == [FromLeBytes(bs)]
  {
  }

  lemma WordsSnoc(bs: seq<Byte>, four: seq<Byte>)
    requires |bs| % 4 == 0 && |four| == 4
    ensures Words(bs + four) == Words(bs) + [FromLeBytes(four)]
  {
    WordsConcat(bs, four);
    OneWord(four);
  }

  lemma {:induction false} WordsOfRaw(v: seq<Word>)
    ensures Words(RawBytes(v)) == v
  {
    if v != [] {
      var init, last := v[..|v| - 1], v[|v| - 1];
      WordsOfRaw(init);
      WordsSnoc(RawBytes(init), ToLeBytes(last));
      BytesRoundTrip(last);
      assert v == init + [last];
    }
  }

  lemma {:induction false} RawOfWords(payload: seq<Byte>)
    requires |payload| % 4 == 0
    ensures RawBytes(Words(payload)) == payload
    decreases |payload|
  {
    if payload != [] {
      var n := |payload| - 4;
      var init, last := payload[..n], payload[n..];
      assert payload == init + last;
      WordsConcat(init, last);
      RawOfWords(init);
      OneWord(last);
      WordRoundTrip(last);
      assert Words(payload)[..|Words(init)|] == Words(init);
    }
  }

  /**
   Decoding undoes both formats: a headed blob and a legacy raw blob of one
   vector decode to that vector, and their lengths can never be confused.
   */
  lemma DecodeUndoesEncode(v: seq<Word>)
    ensures var headed, legacy := [HEADER_LE_F32] + RawBytes(v), RawBytes(v);
            && DecodeEmbeddingBlob(headed) == Ok(v) && DecodeEmbeddingBlob(legacy) == Ok(v)
            && |headed| % 4 == 1 && |legacy| % 4 == 0
            && DecodedDim(headed) == DecodedDim(legacy) == |v|
  {
    WordsOfRaw(v);
    var raw := RawBytes(v);
    BothForms(raw);
  }

  /** What the two formats of a payload decode to. */
  lemma BothForms(raw: seq<Byte>)
    requires |raw| % 4 == 0
    ensures DecodeEmbeddingBlob(raw) == Ok(Words(raw)) && DecodedDim(raw) == |raw| / 4
    ensures var headed := [HEADER_LE_F32] + raw;
            |headed| % 4 == 1 && DecodeEmbeddingBlob(headed) == Ok(Words(raw)) && DecodedDim(headed) == |raw| / 4
  {
    var headed := [HEADER_LE_F32] + raw;
    OneMore(|raw|);
    assert |headed| == |raw| + 1 && headed[0] == HEADER_LE_F32 && headed[1..] == raw;
  }

  lemma OneMore(n: nat)
    requires n % 4 == 0
    ensures (n + 1) % 4 == 1
  {
  }

  /** Decoding succeeds exactly on these blobs; it then yields as many words as `decoded_dim` says. */
  lemma DecodeSucceedsIff(bytes: seq<Byte>)
    ensures DecodeEmbeddingBlob(bytes).Ok? <==>
              |bytes| % 4 == 0 || (|bytes| % 4 == 1 && bytes[0] == HEADER_LE_F32)
    ensures DecodeEmbeddingBlob(bytes).Ok? ==> |DecodeEmbeddingBlob(bytes).value| == DecodedDim(bytes)
  {
  }

  /** What a blob that does not decode is refused for. */
  lemma DecodeErrors(bytes: seq<Byte>)
    ensures DecodeEmbeddingBlob(bytes) == Err(MalformedLength(|bytes|)) <==> |bytes| % 4 in {2, 3}
    ensures DecodeEmbeddingBlob(bytes) == Err(BigEndianUnsupported) <==> |bytes| % 4 == 1 && bytes[0] == 0x02
    ensures |bytes| % 4 != 1 ==> DecodedDim(bytes) == |bytes| / 4
    ensures |bytes| % 4 == 1 && bytes[0] !in {0x01, 0x02} ==> DecodeEmbeddingBlob(bytes) == Err(UnknownHeader(bytes[0]))
  {
  }

  /** A blob without its header, if it has one. */
  function Payload(bytes: seq<Byte>): seq<Byte> {
    if |bytes| % 4 == 1 then bytes[1..] else bytes
  }

  lemma DecodesPayload(bytes: seq<Byte>)
    requires DecodeEmbeddingBlob(bytes).Ok?
    ensures DecodeEmbeddingBlob(bytes).value == Words(Payload(bytes)) && |Payload(bytes)| % 4 == 0
    ensures |bytes| % 4 == 1 ==> bytes[0] == HEADER_LE_F32
  {
  }

  /** Re-encoding what was decoded gives back a headed blob, or puts the header on a legacy one. */
  lemma EncodeUndoesDecode(bytes: seq<Byte>)
    requires DecodeEmbeddingBlob(bytes).Ok?
    ensures var again := [HEADER_LE_F32] + RawBytes(DecodeEmbeddingBlob(bytes).value);
            again == if |bytes| % 4 == 1 then bytes else [HEADER_LE_F32] + bytes
  {
    DecodesPayload(bytes);
    RawOfWords(Payload(bytes));
    if |bytes| % 4 == 1 { assert bytes == [HEADER_LE_F32] + bytes[1..]; }
  }
}
