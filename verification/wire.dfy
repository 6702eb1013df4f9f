/** The p0f v3 query API wire format (section 4 of the p0f README): the
    21-byte query and the 232-byte response, little-endian, fields in
    declared order with no padding. */
module Wire {
  import opened Bytes
  import opened Layout
  import opened Results

  const RequestMagic: U32 := 0x50304601
  const ResponseMagic: U32 := 0x50304602

  const StatusBadQuery: U32 := 0x00
  const StatusOk: U32 := 0x10
  const StatusNoMatch: U32 := 0x20

  const AddrIPv4: Byte := 0x04
  const AddrIPv6: Byte := 0x06

  const MatchFuzzy: Byte := 0x01
  const MatchGeneric: Byte := 0x02

  /** The `[16]uint8` address buffer. */
  type Address = s: seq<Byte> | |s| == 16 witness Zeros(16)

  /** A `[32]uint8` text buffer, NUL-padded by the daemon. */
  type Text32 = s: seq<Byte> | |s| == 32 witness Zeros(32)

  datatype Query = Query(magic: U32, addressType: Byte, address: Address)

  datatype Response = Response(
    magic: U32,
    status: U32,
    firstSeen: U32,
    lastSeen: U32,
    totalCount: U32,
    uptimeMinutes: U32,
    upModDays: U32,
    lastNat: U32,
    lastChg: U32,
    distance: I16,
    badSw: Byte,
    osMatchQ: Byte,
    osName: Text32,
    osFlavor: Text32,
    httpName: Text32,
    httpFlavor: Text32,
    linkType: Text32,
    language: Text32)

  /** Offsets of `Query`'s fields in declared order, then its size:
      magic at 0, address family at 4, address at 5. */
  const QueryLayout: seq<nat> := [0, 4, 5, 21]

  /** Offsets of `Response`'s fields in declared order, then its size:
      magic, status and the seven counters every 4 bytes from 0, distance at
      36, the bad-software flag at 38, match quality at 39, then the six
      32-byte texts from 40. */
  const ResponseLayout: seq<nat> :=
    [0, 4, 8, 12, 16, 20, 24, 28, 32, 36, 38, 39, 40, 72, 104, 136, 168, 200, 232]

  const QuerySize: nat := 21
  const ResponseSize: nat := 232

  lemma Layouts()
    ensures IsLayout(QueryLayout) && Size(QueryLayout) == QuerySize
    ensures IsLayout(ResponseLayout) && Size(ResponseLayout) == ResponseSize
  {
  }

  /** Why decoding failed: `binary.Read` reads the whole struct with
      `io.ReadFull`, which reports `io.EOF` when no byte was available and
      `io.ErrUnexpectedEOF` when only part of the struct was. */
  datatype DecodeError = EndOfInput | UnexpectedEndOfInput

  // ---- Query -------------------------------------------------------------

  function QueryFields(q: Query): (fs: seq<seq<Byte>>)
    ensures Fits(fs, QueryLayout)
  {
    Pow256Widths();
    [ToLe(q.magic, 4), [q.addressType], q.address]
  }

  /** `binary.Write(&querybuf, binary.LittleEndian, query)`. */
  function EncodeQuery(q: Query): (w: seq<Byte>)
    ensures |w| == QuerySize
    ensures FromLe(w[0..4]) == q.magic
    ensures w[4] == q.addressType
    ensures w[5..21] == q.address
  {
    var fs := QueryFields(q);
    Layouts();
    SplitFlatten(fs, QueryLayout);
    Pow256Widths();
    FromLeToLe(q.magic, 4);
    assert Split(Flatten(fs), QueryLayout)[1] == [q.addressType];
    Flatten(fs)
  }

  /** A field-by-field reader of the query layout (the daemon's side). */
  function DecodeQuery(w: seq<Byte>): (q: Query)
    requires |w| == QuerySize
  {
    Layouts();
    var fs := Split(w, QueryLayout);
    Pow256Widths();
    Query(FromLe(fs[0]), fs[1][0], fs[2])
  }

  lemma QueryRoundTrip(q: Query)
    ensures DecodeQuery(EncodeQuery(q)) == q
  {
    Pow256Widths();
    Layouts();
    SplitFlatten(QueryFields(q), QueryLayout);
    FromLeToLe(q.magic, 4);
  }

  lemma QueryBytesRoundTrip(w: seq<Byte>)
    requires |w| == QuerySize
    ensures EncodeQuery(DecodeQuery(w)) == w
  {
    Layouts();
    Pow256Widths();
    var fs := Split(w, QueryLayout);
    ToLeFromLe(fs[0]);
    assert [fs[1][0]] == fs[1];
    assert QueryFields(DecodeQuery(w)) == fs;
    FlattenSplit(w, QueryLayout);
  }

  // ---- Response ----------------------------------------------------------

  function ResponseFields(r: Response): (fs: seq<seq<Byte>>)
    ensures Fits(fs, ResponseLayout)
  {
    Pow256Widths();
    [ ToLe(r.magic, 4), ToLe(r.status, 4), ToLe(r.firstSeen, 4),
      ToLe(r.lastSeen, 4), ToLe(r.totalCount, 4), ToLe(r.uptimeMinutes, 4),
      ToLe(r.upModDays, 4), ToLe(r.lastNat, 4), ToLe(r.lastChg, 4),
      ToLe(FromSigned16(r.distance), 2), [r.badSw], [r.osMatchQ],
      r.osName, r.osFlavor, r.httpName, r.httpFlavor, r.linkType, r.language ]
  }

  /** The bytes the daemon sends for a response: the partner of
      `DecodeResponse`. */
  function EncodeResponse(r: Response): (w: seq<Byte>)
    ensures |w| == ResponseSize
  {
    Layouts();
    SplitFlatten(ResponseFields(r), ResponseLayout);
    Flatten(ResponseFields(r))
  }

  /** The widths the response layout gives its fields. */
  lemma ResponseWidths(fs: seq<seq<Byte>>)
    requires Fits(fs, ResponseLayout)
    ensures |fs| == 18
    ensures |fs[0]| == |fs[1]| == |fs[2]| == |fs[3]| == |fs[4]| == 4
    ensures |fs[5]| == |fs[6]| == |fs[7]| == |fs[8]| == 4
    ensures |fs[9]| == 2 && |fs[10]| == 1 && |fs[11]| == 1
    ensures |fs[12]| == |fs[13]| == |fs[14]| == 32
    ensures |fs[15]| == |fs[16]| == |fs[17]| == 32
  {
    var os := ResponseLayout;
    assert os[0] == 0 && os[1] == 4 && |fs[0]| + os[0] == os[1];
    assert os[1] == 4 && os[2] == 8 && |fs[1]| + os[1] == os[2];
    assert os[2] == 8 && os[3] == 12 && |fs[2]| + os[2] == os[3];
    assert os[3] == 12 && os[4] == 16 && |fs[3]| + os[3] == os[4];
    assert os[4] == 16 && os[5] == 20 && |fs[4]| + os[4] == os[5];
    assert os[5] == 20 && os[6] == 24 && |fs[5]| + os[5] == os[6];
    assert os[6] == 24 && os[7] == 28 && |fs[6]| + os[6] == os[7];
    assert os[7] == 28 && os[8] == 32 && |fs[7]| + os[7] == os[8];
    assert os[8] == 32 && os[9] == 36 && |fs[8]| + os[8] == os[9];
    assert os[9] == 36 && os[10] == 38 && |fs[9]| + os[9] == os[10];
    assert os[10] == 38 && os[11] == 39 && |fs[10]| + os[10] == os[11];
    assert os[11] == 39 && os[12] == 40 && |fs[11]| + os[11] == os[12];
    assert os[12] == 40 && os[13] == 72 && |fs[12]| + os[12] == os[13];
    assert os[13] == 72 && os[14] == 104 && |fs[13]| + os[13] == os[14];
    assert os[14] == 104 && os[15] == 136 && |fs[14]| + os[14] == os[15];
    assert os[15] == 136 && os[16] == 168 && |fs[15]| + os[15] == os[16];
    assert os[16] == 168 && os[17] == 200 && |fs[16]| + os[16] == os[17];
    assert os[17] == 200 && os[18] == 232 && |fs[17]| + os[17] == os[18];
  }

  /** Converts each field's bytes to its value, as `binary.Read` does. */
  function ResponseFromFields(fs: seq<seq<Byte>>): (r: Response)
    requires Fits(fs, ResponseLayout)
  {
    Pow256Widths();
    ResponseWidths(fs);
    Response(
      FromLe(fs[0]), FromLe(fs[1]), FromLe(fs[2]), FromLe(fs[3]),
      FromLe(fs[4]), FromLe(fs[5]), FromLe(fs[6]), FromLe(fs[7]),
      FromLe(fs[8]), ToSigned16(FromLe(fs[9])), fs[10][0], fs[11][0],
      fs[12], fs[13], fs[14], fs[15], fs[16], fs[17])
  }

  /** Reads a full response buffer field by field in declared order. */
  function ParseResponse(w: seq<Byte>): (r: Response)
    requires |w| == ResponseSize
  {
    Layouts();
    ResponseFromFields(Split(w, ResponseLayout))
  }

  lemma FieldsOfResponse(r: Response)
    ensures ResponseFromFields(ResponseFields(r)) == r
  {
    Pow256Widths();
    FromLeToLe(r.magic, 4);
    FromLeToLe(r.status, 4);
    FromLeToLe(r.firstSeen, 4);
    FromLeToLe(r.lastSeen, 4);
    FromLeToLe(r.totalCount, 4);
    FromLeToLe(r.uptimeMinutes, 4);
    FromLeToLe(r.upModDays, 4);
    FromLeToLe(r.lastNat, 4);
    FromLeToLe(r.lastChg, 4);
    FromLeToLe(FromSigned16(r.distance), 2);
  }

  lemma ResponseOfFields(fs: seq<seq<Byte>>)
    requires Fits(fs, ResponseLayout)
    ensures ResponseFields(ResponseFromFields(fs)) == fs
  {
    Pow256Widths();
    ResponseWidths(fs);
    forall i | 0 <= i < 9
      ensures ToLe(FromLe(fs[i]), 4) == fs[i]
    {
      ToLeFromLe(fs[i]);
    }
    ToLeFromLe(fs[9]);
    assert [fs[10][0]] == fs[10];
    assert [fs[11][0]] == fs[11];
  }

  lemma ParseEncode(r: Response)
    ensures ParseResponse(EncodeResponse(r)) == r
  {
    Layouts();
    SplitFlatten(ResponseFields(r), ResponseLayout);
    FieldsOfResponse(r);
  }

  lemma EncodeParse(w: seq<Byte>)
    requires |w| == ResponseSize
    ensures EncodeResponse(ParseResponse(w)) == w
  {
    Layouts();
    var fs := Split(w, ResponseLayout);
    ResponseOfFields(fs);
    FlattenSplit(w, ResponseLayout);
  }

  /** `binary.Read(buf, binary.LittleEndian, resp)` on the bytes read. It
      checks neither magic nor status, and ignores bytes past the struct. */
  function DecodeResponse(b: seq<Byte>): (r: Result<Response, DecodeError>)
    ensures r.Ok? <==> |b| >= ResponseSize
    ensures r == Err(EndOfInput) <==> |b| == 0
    ensures r == Err(UnexpectedEndOfInput) <==> 0 < |b| < ResponseSize
    ensures r.Ok? ==> EncodeResponse(r.value) == b[..ResponseSize]
  {
    if |b| == 0 then Err(EndOfInput)
    else if |b| < ResponseSize then Err(UnexpectedEndOfInput)
    else
      EncodeParse(b[..ResponseSize]);
      Ok(ParseResponse(b[..ResponseSize]))
  }

  /** Every field of a decoded response comes from its fixed offset. */
  lemma DecodeResponseOffsets(b: seq<Byte>)
    requires |b| >= ResponseSize
    ensures DecodeResponse(b).Ok?
    ensures var r := DecodeResponse(b).value;
      && r.magic == FromLe(b[0..4])
      && r.status == FromLe(b[4..8])
      && r.firstSeen == FromLe(b[8..12])
      && r.lastSeen == FromLe(b[12..16])
      && r.totalCount == FromLe(b[16..20])
      && r.uptimeMinutes == FromLe(b[20..24])
      && r.upModDays == FromLe(b[24..28])
      && r.lastNat == FromLe(b[28..32])
      && r.lastChg == FromLe(b[32..36])
      && r.distance % 0x1_0000 == FromLe(b[36..38])
      && r.badSw == b[38]
      && r.osMatchQ == b[39]
      && r.osName == b[40..72]
      && r.osFlavor == b[72..104]
      && r.httpName == b[104..136]
      && r.httpFlavor == b[136..168]
      && r.linkType == b[168..200]
      && r.language == b[200..232]
  {
    Layouts();
    var w := b[..ResponseSize];
    var fs := Split(w, ResponseLayout);
    assert DecodeResponse(b) == Ok(ResponseFromFields(fs));
    DecodedField(b, 0);
    DecodedField(b, 1);
    DecodedField(b, 2);
    DecodedField(b, 3);
    DecodedField(b, 4);
    DecodedField(b, 5);
    DecodedField(b, 6);
    DecodedField(b, 7);
    DecodedField(b, 8);
    DecodedField(b, 9);
    DecodedField(b, 10);
    DecodedField(b, 11);
    DecodedField(b, 12);
    DecodedField(b, 13);
    DecodedField(b, 14);
    DecodedField(b, 15);
    DecodedField(b, 16);
    DecodedField(b, 17);
  }

  /** Field i of the response read from b is b's own slice at that field's
      offset: `SplitAt` for the response layout, moved from the 232-byte
      prefix that is decoded to the whole buffer that was read. */
  lemma DecodedField(b: seq<Byte>, i: nat)
    requires |b| >= ResponseSize
    requires i < 18
    ensures IsLayout(ResponseLayout)
    ensures ResponseLayout[i] <= ResponseLayout[i + 1] <= ResponseSize
    ensures Split(b[..ResponseSize], ResponseLayout)[i]
      == b[ResponseLayout[i]..ResponseLayout[i + 1]]
  {
    Layouts();
    SplitAt(b[..ResponseSize], ResponseLayout, i);
  }

  lemma ResponseRoundTrip(r: Response)
    ensures DecodeResponse(EncodeResponse(r)) == Ok(r)
  {
    ParseEncode(r);
    assert EncodeResponse(r)[..ResponseSize] == EncodeResponse(r);
  }
}
