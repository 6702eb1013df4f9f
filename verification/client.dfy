/** The client side of one p0f query: building the query for an address,
    the single write-then-read exchange on the daemon's socket, classifying
    the reply, and the one-line summary of a response. */
module Client {
  import opened Bytes
  import opened Results
  import opened Wire

  // ---- Inputs the client cannot compute itself ----------------------------

  type IPv4Bytes = s: seq<Byte> | |s| == 4 witness Zeros(4)

  /** An address as the client sees it: its 4-byte form (`ip.To4()`) and its
      16-byte form (`ip.To16()`), each absent when Go returns nil. */
  datatype IP = IP(to4: Option<IPv4Bytes>, to16: Option<Address>)

  datatype WriteOutcome = WriteOk | WriteFailed

  /** What the one `Read` into the 232-byte buffer produced: the bytes it
      placed there (`readbuf[0:n]`), or an error. */
  datatype ReadOutcome = ReadOk(data: seq<Byte>) | ReadFailed

  /** How the daemon's socket behaves for this one exchange. */
  datatype Socket = Socket(write: WriteOutcome, read: ReadOutcome)

  // ---- Errors ------------------------------------------------------------

  datatype SocketOp = Writing | Reading

  /** The errors `QueryIP` returns, one constructor per return site. Only
      `SocketCommunication` wraps `ErrSocketCommunication`, the error callers
      are told to catch before reconnecting. */
  datatype QueryError =
    | CreateQuery
    | SocketCommunication(op: SocketOp)
    | ConvertResponse(cause: DecodeError)
    | BadMagic(magic: U32)
    | BadQuery
    | UnknownStatus(status: U32)

  /** What one call of `QueryIP` did: the bytes it wrote to the socket (if
      it wrote), the size of the buffer it read into (if it read), and what
      it returned. */
  datatype Exchange = Exchange(
    written: Option<seq<Byte>>,
    readCapacity: Option<nat>,
    result: Result<Response, QueryError>)

  // ---- Building the query -------------------------------------------------

  /** The loop that copies the address bytes into `query.Address`, one byte
      per step, starting at index idx. */
  function CopyInto(dst: Address, src: seq<Byte>, idx: nat): (r: Address)
    requires idx + |src| <= 16
    ensures forall i :: 0 <= i < |src| ==> r[idx + i] == src[i]
    ensures forall i :: 0 <= i < 16 && !(idx <= i < idx + |src|) ==> r[i] == dst[i]
    decreases |src|
  {
    if src == [] then dst else CopyInto(dst[idx := src[0]], src[1..], idx + 1)
  }

  /** `createQueryForIP`: the IPv4 form wins when there is one; an address
      with neither form is an error. */
  function CreateQueryForIP(ip: IP): (r: Result<Query, QueryError>)
    ensures r.Ok? <==> ip.to4.Some? || ip.to16.Some?
    ensures r.Err? ==> r.error == CreateQuery
    ensures r.Ok? ==> r.value.magic == RequestMagic
    ensures ip.to4.Some? ==>
      && r.Ok?
      && r.value.addressType == AddrIPv4
      && r.value.address[..4] == ip.to4.value
      && forall i :: 4 <= i < 16 ==> r.value.address[i] == 0
    ensures ip.to4.None? && ip.to16.Some? ==>
      && r.Ok?
      && r.value.addressType == AddrIPv6
      && r.value.address == ip.to16.value
  {
    var ipBytes: Option<seq<Byte>> := if ip.to4.Some? then ip.to4 else ip.to16;
    var family := if ip.to4.Some? then AddrIPv4 else AddrIPv6;
    if ipBytes.None? then
      Err(CreateQuery)
    else
      Ok(Query(RequestMagic, family, CopyInto(Zeros(16), ipBytes.value, 0)))
  }

  // ---- Interpreting the reply ---------------------------------------------

  /** The checks after a successful decode: magic first, then status. */
  function Classify(resp: Response): (r: Result<Response, QueryError>)
    ensures resp.magic != ResponseMagic ==> r == Err(BadMagic(resp.magic))
    ensures r.Ok? <==>
      resp.magic == ResponseMagic && (resp.status == StatusOk || resp.status == StatusNoMatch)
    ensures r.Ok? ==> r.value == resp
    ensures r == Err(BadQuery) <==>
      resp.magic == ResponseMagic && resp.status == StatusBadQuery
    ensures r == Err(UnknownStatus(resp.status)) <==>
      && resp.magic == ResponseMagic
      && resp.status != StatusOk && resp.status != StatusNoMatch
      && resp.status != StatusBadQuery
  {
    if resp.magic != ResponseMagic then Err(BadMagic(resp.magic))
    else if resp.status == StatusOk then Ok(resp)
    else if resp.status == StatusNoMatch then Ok(resp)
    else if resp.status == StatusBadQuery then Err(BadQuery)
    else Err(UnknownStatus(resp.status))
  }

  // ---- The exchange -------------------------------------------------------

  /** `QueryIP`: build and encode the query, write it, read into a buffer of
      the response's size, decode, classify. Each failure returns at once. */
  function QueryIP(ip: IP, socket: Socket): (x: Exchange)
    ensures x.written.None? <==> CreateQueryForIP(ip).Err?
    ensures x.written.None? ==> x.readCapacity.None? && x.result == Err(CreateQuery)
    ensures x.written.Some? ==>
      && |x.written.value| == QuerySize
      && DecodeQuery(x.written.value) == CreateQueryForIP(ip).value
    ensures x.readCapacity.Some? <==> x.written.Some? && socket.write.WriteOk?
    ensures x.readCapacity.Some? ==> x.readCapacity.value == ResponseSize
    ensures x.written.Some? && socket.write.WriteFailed? ==>
      x.result == Err(SocketCommunication(Writing))
    ensures x.readCapacity.Some? && socket.read.ReadFailed? ==>
      x.result == Err(SocketCommunication(Reading))
    ensures (x.result.Err? && x.result.error.SocketCommunication?) <==>
      x.written.Some? && (socket.write.WriteFailed? || socket.read.ReadFailed?)
    ensures (x.result.Err? && x.result.error.ConvertResponse?) <==>
      x.readCapacity.Some? && socket.read.ReadOk? && |socket.read.data| < ResponseSize
    ensures x.result.Ok? ==>
      && x.readCapacity.Some?
      && socket.read.ReadOk?
      && |socket.read.data| >= ResponseSize
      && EncodeResponse(x.result.value) == socket.read.data[..ResponseSize]
      && x.result.value.magic == ResponseMagic
      && (x.result.value.status == StatusOk || x.result.value.status == StatusNoMatch)
  {
    match CreateQueryForIP(ip)
    case Err(_) => Exchange(None, None, Err(CreateQuery))
    case Ok(query) =>
      var bytes := EncodeQuery(query);
      QueryRoundTrip(query);
      if socket.write.WriteFailed? then
        Exchange(Some(bytes), None, Err(SocketCommunication(Writing)))
      else
        var answer := match socket.read
          case ReadFailed => Err(SocketCommunication(Reading))
          case ReadOk(data) =>
            match DecodeResponse(data)
            case Err(cause) => Err(ConvertResponse(cause))
            case Ok(resp) => Classify(resp);
        Exchange(Some(bytes), Some(ResponseSize), answer)
  }

  /** What goes on the wire is the encoding of the query built for the
      address, and nothing is written when no query could be built. */
  lemma QueryIPWritesQuery(ip: IP, socket: Socket)
    ensures CreateQueryForIP(ip).Err? ==> QueryIP(ip, socket).written == None
    ensures CreateQueryForIP(ip).Ok? ==>
      QueryIP(ip, socket).written == Some(EncodeQuery(CreateQueryForIP(ip).value))
  {
    var x := QueryIP(ip, socket);
    if CreateQueryForIP(ip).Ok? {
      QueryBytesRoundTrip(x.written.value);
    }
  }

  /** When the daemon answers with the encoding of resp, the client's
      verdict is that of resp itself: it gets back exactly what was sent. */
  lemma QueryIPReceivesResponse(ip: IP, resp: Response)
    requires ip.to4.Some? || ip.to16.Some?
    ensures QueryIP(ip, Socket(WriteOk, ReadOk(EncodeResponse(resp)))).result == Classify(resp)
  {
    ResponseRoundTrip(resp);
  }

  /** A magic other than the response magic is an error whatever the status
      and whatever else the reply holds. */
  lemma QueryIPBadMagic(ip: IP, data: seq<Byte>)
    requires ip.to4.Some? || ip.to16.Some?
    requires |data| >= ResponseSize
    requires FromLe(data[0..4]) != ResponseMagic
    ensures QueryIP(ip, Socket(WriteOk, ReadOk(data))).result
      == Err(BadMagic(FromLe(data[0..4])))
  {
    DecodeResponseOffsets(data);
  }

  /** The reply's status word at bytes 4..8 decides between success and the
      status errors once the magic is right. */
  lemma QueryIPStatus(ip: IP, data: seq<Byte>)
    requires ip.to4.Some? || ip.to16.Some?
    requires |data| >= ResponseSize
    requires FromLe(data[0..4]) == ResponseMagic
    ensures var r := QueryIP(ip, Socket(WriteOk, ReadOk(data))).result;
      && (r.Ok? <==> FromLe(data[4..8]) in {StatusOk, StatusNoMatch})
      && (r == Err(BadQuery) <==> FromLe(data[4..8]) == StatusBadQuery)
      && (r.Err? && r.error.UnknownStatus? <==>
            FromLe(data[4..8]) !in {StatusOk, StatusNoMatch, StatusBadQuery})
  {
    DecodeResponseOffsets(data);
  }

  /** `127.0.0.1`: `To4` gives its four bytes, so the query is an IPv4 one. */
  lemma IPv4LoopbackQuery()
    ensures var v4mapped := [0, 0, 0, 0, 0, 0, 0, 0, 0, 0, 0xff, 0xff, 127, 0, 0, 1];
      CreateQueryForIP(IP(Some([127, 0, 0, 1]), Some(v4mapped)))
      == Ok(Query(RequestMagic, AddrIPv4, [127, 0, 0, 1, 0, 0, 0, 0, 0, 0, 0, 0, 0, 0, 0, 0]))
  {
    var v4mapped := [0, 0, 0, 0, 0, 0, 0, 0, 0, 0, 0xff, 0xff, 127, 0, 0, 1];
    var q := CreateQueryForIP(IP(Some([127, 0, 0, 1]), Some(v4mapped))).value;
    var expected := [127, 0, 0, 1, 0, 0, 0, 0, 0, 0, 0, 0, 0, 0, 0, 0];
    assert forall i :: 0 <= i < 4 ==> q.address[i] == q.address[..4][i];
    assert forall i :: 0 <= i < 16 ==> q.address[i] == expected[i];
    assert q.address == expected;
  }

  /** `::1`: no 4-byte form, so the query is an IPv6 one with all 16 bytes. */
  lemma IPv6LoopbackQuery()
    ensures var loopback := [0, 0, 0, 0, 0, 0, 0, 0, 0, 0, 0, 0, 0, 0, 0, 1];
      CreateQueryForIP(IP(None, Some(loopback))) == Ok(Query(RequestMagic, AddrIPv6, loopback))
  {
  }

  // ---- Summary line -------------------------------------------------------

  /** The bytes of an ASCII string. */
  function Ascii(s: string): (b: seq<Byte>)
    requires forall i :: 0 <= i < |s| ==> s[i] as int < 0x80
    ensures |b| == |s|
    ensures forall i :: 0 <= i < |s| ==> b[i] == s[i] as int
  {
    seq(|s|, i requires 0 <= i < |s| => s[i] as int)
  }

  const Space: Byte := 0x20
  const FuzzySuffix: seq<Byte> := Ascii(" (fuzzy)")
  const GenericSuffix: seq<Byte> := Ascii(" (generic)")

  predicate EndsWith(s: seq<Byte>, suffix: seq<Byte>)
  {
    |suffix| <= |s| && s[|s| - |suffix|..] == suffix
  }

  /** `Response.String`: the OS name and flavour, each printed as all 32
      raw bytes (NULs included), then the match quality. */
  function Describe(r: Response): (s: seq<Byte>)
    ensures |s| == 65 + (if r.osMatchQ == MatchFuzzy then |FuzzySuffix| else |GenericSuffix|)
    ensures s[..32] == r.osName
    ensures s[32] == Space
    ensures s[33..65] == r.osFlavor
    ensures EndsWith(s, FuzzySuffix) <==> r.osMatchQ == MatchFuzzy
    ensures EndsWith(s, GenericSuffix) <==> r.osMatchQ != MatchFuzzy
  {
    var text := r.osName + [Space] + r.osFlavor;
    // The suffixes differ where " (fuzzy)" has its space and "generic)" its 'g'.
    assert |FuzzySuffix| == 8 && FuzzySuffix[0] == Space;
    assert |GenericSuffix| == 10 && GenericSuffix[2] == 'g' as int;
    if r.osMatchQ == MatchFuzzy then
      var s := text + FuzzySuffix;
      assert s[|s| - 10..][2] != GenericSuffix[2];
      s
    else
      var s := text + GenericSuffix;
      assert s[|s| - 8..][0] != FuzzySuffix[0];
      s
  }
}
