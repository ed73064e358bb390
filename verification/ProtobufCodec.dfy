/**
 The checksummed codec for typed messages. A frame is a length, a name length, the NUL-terminated type
 name, the serialised message and the Adler-32 checksum of everything between the two.
 */
module ProtobufCodecs {
  import opened Bytes
  import opened Options
  import opened Buffers
  import opened Framing
  import opened Adler32

  const HEADER_LEN := 4
  const MIN_MESSAGE_LEN := 2 * HEADER_LEN + 2
  const MAX_MESSAGE_LEN := 64 * 1024 * 1024

  datatype ErrorCode = InvalidLength | CheckSumError | InvalidNameLen | UnknownMessageType | ParseError

  /** The message types: their names, and the serialisation that the protobuf library provides. */
  datatype Types<!M> = Types(
    nameOf: M -> seq<Byte>,
    serialize: M -> seq<Byte>,
    known: seq<Byte> -> bool,
    parse: (seq<Byte>, seq<Byte>) -> Option<M>)

  /** Every message has a known, non-empty type name and is parsed back from its own serialisation. */
  ghost predicate Faithful<M(!new)>(types: Types<M>) {
    forall m ::
      types.nameOf(m) != [] && types.known(types.nameOf(m))
      && types.parse(types.nameOf(m), types.serialize(m)) == Some(m)
  }

  datatype Parsed<M> = Ok(message: M) | Err(code: ErrorCode)

  /** The body of a frame, checksum included. */
  function Parse<M>(types: Types<M>, body: seq<Byte>): Parsed<M>
    requires |body| >= MIN_MESSAGE_LEN
  {
    var end := |body| - HEADER_LEN;
    if ToSigned(Checksum(body[..end])) != Decode32(body[end..]) then Err(CheckSumError)
    else
      var nameLen := Decode32(body);
      if !(2 <= nameLen <= |body| - 2 * HEADER_LEN) then Err(InvalidNameLen)
      else
        var name := body[HEADER_LEN..HEADER_LEN + nameLen - 1];
        if !types.known(name) then Err(UnknownMessageType)
        else
          match types.parse(name, body[HEADER_LEN + nameLen..end])
          case Some(m) => Ok(m)
          case None => Err(ParseError)
  }

  /** One turn of the `onMessage` loop. */
  function Head<M>(types: Types<M>, s: seq<Byte>): Step<M, ErrorCode> {
    if |s| < MIN_MESSAGE_LEN + HEADER_LEN then More
    else
      var len := Decode32(s);
      if len > MAX_MESSAGE_LEN || len < MIN_MESSAGE_LEN then Bad(InvalidLength)
      else if |s| >= len + HEADER_LEN then
        match Parse(types, s[HEADER_LEN..HEADER_LEN + len])
        case Ok(m) => Frame(HEADER_LEN + len, m)
        case Err(code) => Bad(code)
      else More
  }

  ghost function Steps<M(!new)>(types: Types<M>): seq<Byte> -> Step<M, ErrorCode> {
    s => Head(types, s)
  }

  /** The head of a buffer that holds a whole frame: it is read off the frame alone. */
  lemma HeadAt<M>(types: Types<M>, s: seq<Byte>, len: int, body: seq<Byte>)
    requires MIN_MESSAGE_LEN <= len <= MAX_MESSAGE_LEN && |s| >= len + HEADER_LEN && Decode32(s) == len
    requires body == s[HEADER_LEN..HEADER_LEN + len]
    ensures Head(types, s) == match Parse(types, body)
                              case Ok(m) => Frame(HEADER_LEN + len, m)
                              case Err(code) => Bad(code)
  {
  }

  lemma HeadStable<M>(types: Types<M>, s: seq<Byte>, t: seq<Byte>)
    requires Head(types, s).Frame?
    ensures Head(types, s + t) == Head(types, s)
  {
    var len := Decode32(s);
    var body := s[HEADER_LEN..HEADER_LEN + len];
    assert (s + t)[HEADER_LEN..HEADER_LEN + len] == body;
    HeadAt(types, s, len, body);
    HeadAt(types, s + t, len, body);
  }

  lemma HeadIsLawful<M(!new)>(types: Types<M>)
    ensures Lawful(Steps(types))
  {
    var step := Steps(types);
    forall s, t | step(s).Frame? ensures step(s + t) == step(s) {
      HeadStable(types, s, t);
    }
  }

  // ---------- encoding ----------

  /** A size cast to 32 bits. */
  function Cast(n: nat): Int32 {
    ToSigned(n % 0x1_0000_0000)
  }

  /** The name's length, the name, one more byte, and the message. */
  function Parts(name: seq<Byte>, z: Byte, data: seq<Byte>): seq<Byte> {
    Encode32(Cast(|name| + 1)) + (name + [z]) + data
  }

  /** What the checksum covers, and the checksum. */
  function Seal(payload: seq<Byte>): seq<Byte> {
    payload + Encode32(ToSigned(Checksum(payload)))
  }

  function Payload<M>(types: Types<M>, m: M): seq<Byte> {
    Parts(types.nameOf(m), 0, types.serialize(m))
  }

  function Body<M>(types: Types<M>, m: M): seq<Byte> {
    Seal(Payload(types, m))
  }

  function Encode<M>(types: Types<M>, m: M): seq<Byte> {
    Encode32(Cast(|Body(types, m)|)) + Body(types, m)
  }

  /** A body carries its checksum. */
  lemma BodyChecks(payload: seq<Byte>, body: seq<Byte>)
    requires body == Seal(payload)
    ensures |body| == |payload| + HEADER_LEN && body[..|payload|] == payload
    ensures Decode32(body[|payload|..]) == ToSigned(Checksum(payload))
  {
  }

  /** The parts of a payload, found by the name length it starts with. */
  lemma PayloadParts(name: seq<Byte>, z: Byte, data: seq<Byte>, body: seq<Byte>, sum: seq<Byte>)
    requires |name| + 1 < 0x8000_0000 && |sum| == HEADER_LEN
    requires body == Parts(name, z, data) + sum
    ensures Decode32(body) == |name| + 1
    ensures body[HEADER_LEN..HEADER_LEN + |name|] == name
    ensures body[HEADER_LEN + |name| + 1..|body| - HEADER_LEN] == data
  {
    var header := Encode32(Cast(|name| + 1));
    DecodeEncode32(Cast(|name| + 1), name + [z] + data + sum);
    assert body == header + (name + [z] + data + sum);
    Slices(header, name, [z], data, sum);
  }

  lemma Slices(a: seq<Byte>, b: seq<Byte>, c: seq<Byte>, d: seq<Byte>, e: seq<Byte>)
    ensures var s := a + (b + c) + d + e;
            s[|a|..|a| + |b|] == b && s[|a| + |b| + |c|..|s| - |e|] == d
  {
  }

  /** A message whose body is within the limit is parsed back from it. */
  lemma ParseOfBody<M(!new)>(types: Types<M>, m: M)
    requires Faithful(types) && |Body(types, m)| <= MAX_MESSAGE_LEN
    ensures |Body(types, m)| >= MIN_MESSAGE_LEN && Parse(types, Body(types, m)) == Ok(m)
  {
    var name, data, payload, body := types.nameOf(m), types.serialize(m), Payload(types, m), Body(types, m);
    assert name != [] && types.parse(name, data) == Some(m);
    BodyChecks(payload, body);
    PayloadParts(name, 0, data, body, Encode32(ToSigned(Checksum(payload))));
  }

  lemma HeadOfBody<M>(types: Types<M>, body: seq<Byte>, m: M)
    requires MIN_MESSAGE_LEN <= |body| <= MAX_MESSAGE_LEN && Parse(types, body) == Ok(m)
    ensures Head(types, Encode32(Cast(|body|)) + body) == Frame(HEADER_LEN + |body|, m)
  {
    LengthThenBody(body);
    HeadAt(types, Encode32(Cast(|body|)) + body, |body|, body);
  }

  lemma LengthThenBody(body: seq<Byte>)
    requires |body| <= MAX_MESSAGE_LEN
    ensures var s := Encode32(Cast(|body|)) + body;
            |s| == HEADER_LEN + |body| && Decode32(s) == |body| && s[HEADER_LEN..HEADER_LEN + |body|] == body
  {
    DecodeEncode32(Cast(|body|), body);
  }

  lemma HeadOfEncode<M(!new)>(types: Types<M>, m: M)
    requires Faithful(types) && |Body(types, m)| <= MAX_MESSAGE_LEN
    ensures Head(types, Encode(types, m)) == Frame(|Encode(types, m)|, m)
  {
    ParseOfBody(types, m);
    HeadOfBody(types, Body(types, m), m);
  }

  /** A list of messages within the limit survives encoding and any chunking of the stream. */
  lemma RoundTrip<M(!new)>(types: Types<M>, ms: seq<M>, chunks: seq<seq<Byte>>)
    requires Faithful(types) && forall m :: m in ms ==> |Body(types, m)| <= MAX_MESSAGE_LEN
    requires Flatten(chunks) == EncodeAll(m => Encode(types, m), ms)
    ensures (HeadIsLawful(types); Feed(Steps(types), [], chunks)) == Decoded(ms, [])
  {
    HeadIsLawful(types);
    var encode := m => Encode(types, m);
    forall m | m in ms ensures Readable(Steps(types), encode, m) {
      HeadOfEncode(types, m);
    }
    DecodeEncodeAll(Steps(types), encode, ms);
    ChunkingIsInvisible(Steps(types), [], chunks);
    assert [] + Flatten(chunks) == Flatten(chunks);
  }

  // ---------- what a body is taken for ----------

  predicate HasParts(body: seq<Byte>, name: seq<Byte>, z: Byte, data: seq<Byte>) {
    0 < |name| < 0x7fff_ffff && body == Seal(Parts(name, z, data))
  }

  lemma SealOf(body: seq<Byte>, end: nat)
    requires |body| == end + HEADER_LEN && ToSigned(Checksum(body[..end])) == Decode32(body[end..])
    ensures body == Seal(body[..end])
  {
    EncodeDecode32(body[end..]);
  }

  lemma SealedIff(body: seq<Byte>)
    requires |body| >= HEADER_LEN
    ensures var end := |body| - HEADER_LEN;
            ToSigned(Checksum(body[..end])) == Decode32(body[end..]) <==> exists payload :: body == Seal(payload)
  {
    var end := |body| - HEADER_LEN;
    if ToSigned(Checksum(body[..end])) == Decode32(body[end..]) {
      SealOf(body, end);
    }
    forall payload | body == Seal(payload) ensures ToSigned(Checksum(body[..end])) == Decode32(body[end..]) {
      BodyChecks(payload, body);
    }
  }

  /** The parts of a body whose name length is within bounds. */
  lemma PartsOf(body: seq<Byte>, n: nat, end: nat)
    requires MIN_MESSAGE_LEN <= |body| == end + HEADER_LEN && Decode32(body) == n && 2 <= n <= end - HEADER_LEN
    ensures Parts(body[HEADER_LEN..HEADER_LEN + n - 1], body[HEADER_LEN + n - 1], body[HEADER_LEN + n..end])
         == body[..end]
  {
    LengthOf(body, n);
    Reassemble(body, HEADER_LEN, HEADER_LEN + n - 1, end);
  }

  lemma LengthOf(body: seq<Byte>, n: nat)
    requires |body| >= HEADER_LEN && Decode32(body) == n
    ensures Encode32(Cast(n)) == body[..HEADER_LEN]
  {
    EncodeDecode32(body[..HEADER_LEN]);
    assert Decode32(body[..HEADER_LEN]) == n == Cast(n);
  }

  lemma Reassemble(s: seq<Byte>, a: nat, b: nat, c: nat)
    requires a <= b < c <= |s|
    ensures s[..a] + (s[a..b] + [s[b]]) + s[b + 1..c] == s[..c] && s[..c] + s[c..] == s
  {
  }

  /** What a body that can be taken apart is: judged by its name and its message. */
  predicate Judged<M(==)>(types: Types<M>, p: Parsed<M>, name: seq<Byte>, data: seq<Byte>) {
    p == if !types.known(name) then Err(UnknownMessageType)
         else if types.parse(name, data).None? then Err(ParseError)
         else Ok(types.parse(name, data).value)
  }

  lemma ParseOfParts<M>(types: Types<M>, body: seq<Byte>, name: seq<Byte>, z: Byte, data: seq<Byte>)
    requires |body| >= MIN_MESSAGE_LEN && HasParts(body, name, z, data)
    ensures Judged(types, Parse(types, body), name, data)
  {
    var payload := Parts(name, z, data);
    BodyChecks(payload, body);
    PayloadParts(name, z, data, body, Encode32(ToSigned(Checksum(payload))));
  }

  lemma PartsExist<M>(types: Types<M>, body: seq<Byte>)
    requires |body| >= MIN_MESSAGE_LEN
    requires Parse(types, body) != Err(CheckSumError) && Parse(types, body) != Err(InvalidNameLen)
    ensures exists name, z, data :: HasParts(body, name, z, data)
  {
    var end, n := |body| - HEADER_LEN, Decode32(body);
    PartsOf(body, n, end);
    SealOf(body, end);
    assert HasParts(body, body[HEADER_LEN..HEADER_LEN + n - 1], body[HEADER_LEN + n - 1], body[HEADER_LEN + n..end]);
  }

  /**
   What becomes of every body: a checksum error exactly if it does not end in the checksum of what comes before;
   a name error exactly if it does and cannot be taken apart; else it is judged by its name and its message.
   */
  lemma ParseExact<M>(types: Types<M>, body: seq<Byte>)
    requires |body| >= MIN_MESSAGE_LEN
    ensures Parse(types, body) == Err(CheckSumError) <==> !exists payload :: body == Seal(payload)
    ensures Parse(types, body) == Err(InvalidNameLen) <==>
            (exists payload :: body == Seal(payload)) && !exists name, z, data :: HasParts(body, name, z, data)
    ensures forall name, z, data :: HasParts(body, name, z, data) ==> Judged(types, Parse(types, body), name, data)
  {
    SealedIff(body);
    forall name, z, data | HasParts(body, name, z, data) ensures Judged(types, Parse(types, body), name, data) {
      ParseOfParts(types, body, name, z, data);
    }
    if Parse(types, body) != Err(CheckSumError) && Parse(types, body) != Err(InvalidNameLen) {
      PartsExist(types, body);
    }
  }

  // ---------- corruption ----------

  /** A body that checks, with one byte changed, does not: in the covered part or in the checksum itself. */
  lemma AlteredBodyFails<M>(types: Types<M>, body: seq<Byte>, altered: seq<Byte>, k: int)
    requires |body| >= MIN_MESSAGE_LEN && DifferAt(body, altered, k)
    requires Parse(types, body) != Err(CheckSumError)
    ensures Parse(types, altered) == Err(CheckSumError)
  {
    var end := |body| - HEADER_LEN;
    if k < end {
      SplitBefore(body, altered, k, end);
      OneByteChangesChecksum(body[..end], altered[..end], k);
      DifferentSums(Checksum(body[..end]), Checksum(altered[..end]));
    } else {
      SplitBehind(body, altered, k, end);
    }
  }

  lemma DifferentSums(x: int, y: int)
    requires 0 <= x < 0x1_0000_0000 && 0 <= y < 0x1_0000_0000 && x != y
    ensures ToSigned(x) != ToSigned(y)
  {
  }

  lemma SplitBefore(a: seq<Byte>, b: seq<Byte>, k: int, end: int)
    requires DifferAt(a, b, k) && k < end <= |a|
    ensures DifferAt(a[..end], b[..end], k) && a[end..] == b[end..]
  {
  }

  lemma SplitBehind(a: seq<Byte>, b: seq<Byte>, k: int, end: int)
    requires DifferAt(a, b, k) && end <= k && 0 <= end == |a| - HEADER_LEN
    ensures a[..end] == b[..end] && Decode32(a[end..]) != Decode32(b[end..])
  {
    var a', b' := a[end..], b[end..];
    assert a'[..4][k - end] == a[k] && b'[..4][k - end] == b[k];
    if Decode32(a') == Decode32(b') {
      DecodeInjective(a', b');
    }
  }

  /** A delivered frame, with one byte behind its length changed, is refused for its checksum. */
  lemma AlteredFrameFails<M>(types: Types<M>, s: seq<Byte>, altered: seq<Byte>, k: int)
    requires Head(types, s).Frame? && DifferAt(s, altered, k) && HEADER_LEN <= k < Head(types, s).size
    ensures Head(types, altered) == Bad(CheckSumError)
  {
    var len := Decode32(s);
    var body, body' := s[HEADER_LEN..HEADER_LEN + len], altered[HEADER_LEN..HEADER_LEN + len];
    assert DifferAt(body, body', k - HEADER_LEN) by {
      assert forall i :: 0 <= i < len ==> body[i] == s[i + HEADER_LEN] && body'[i] == altered[i + HEADER_LEN];
    }
    HeadAt(types, s, len, body);
    HeadAt(types, altered, len, body');
    AlteredBodyFails(types, body, body', k - HEADER_LEN);
  }

  // ---------- the methods ----------

  /** What a pass over the buffer delivers and leaves. */
  ghost function Pass<M(!new)>(types: Types<M>, s: seq<Byte>): Decoded<M> {
    HeadIsLawful(types);
    Decode(Steps(types), s)
  }

  lemma PassStep<M(!new)>(types: Types<M>, s: seq<Byte>)
    ensures match Head(types, s)
            case Frame(size, m) =>
              0 < size <= |s|
              && Pass(types, s) == Decoded([m] + Pass(types, s[size..]).messages, Pass(types, s[size..]).rest)
            case _ => Pass(types, s) == Decoded([], s)
  {
  }

  /** `onMessage`: delivers messages until the head is incomplete, or bad, which it reports. */
  method OnMessage<M(!new)>(types: Types<M>, buf: Buffer) returns (messages: seq<M>, error: Option<ErrorCode>)
    requires buf.Valid()
    modifies buf
    ensures buf.Valid()
    ensures Pass(types, old(buf.Contents())) == Decoded(messages, buf.Contents())
    ensures match Head(types, buf.Contents())
            case Bad(code) => error == Some(code)
            case _ => error == None
  {
    messages, error := [], None;
    ghost var all := Pass(types, buf.Contents());
    while true
      invariant buf.Valid()
      invariant all == Prefixed(messages, Pass(types, buf.Contents()))
      decreases buf.Readable()
    {
      ghost var before := Pass(types, buf.Contents());
      var head := Turn(types, buf);
      match head {
        case More =>
          return;
        case Bad(code) =>
          error := Some(code);
          return;
        case Frame(size, m) =>
          PrefixedAgain(messages, m, before, Pass(types, buf.Contents()));
          messages := messages + [m];
      }
    }
  }

  /** One turn of the loop: looks at the head and takes a message off the buffer. */
  method Turn<M(!new)>(types: Types<M>, buf: Buffer) returns (head: Step<M, ErrorCode>)
    requires buf.Valid()
    modifies buf`readerIndex
    ensures buf.Valid() && head == Head(types, old(buf.Contents()))
    ensures head.Frame? ==> Pass(types, old(buf.Contents())) == Prefixed([head.message], Pass(types, buf.Contents()))
                            && buf.Readable() < old(buf.Readable())
    ensures !head.Frame? ==> buf.Contents() == old(buf.Contents())
                             && Pass(types, old(buf.Contents())) == Decoded([], buf.Contents())
  {
    PassStep(types, buf.Contents());
    head := Look(types, buf);
    if head.Frame? {
      buf.Retrieve(head.size);
    }
  }

  lemma SliceOfSlice(data: seq<Byte>, lo: nat, hi: nat, a: nat, b: nat)
    requires lo <= hi <= |data| && a <= b <= hi - lo
    ensures data[lo..hi][a..b] == data[lo + a..lo + b]
  {
    var inner, outer := data[lo..hi][a..b], data[lo + a..lo + b];
    assert |inner| == |outer|;
    forall i | 0 <= i < |inner| ensures inner[i] == outer[i] {
      assert inner[i] == data[lo..hi][a + i];
    }
  }

  /** The tests of one turn of the loop, on the buffer itself. */
  method Look<M>(types: Types<M>, buf: Buffer) returns (head: Step<M, ErrorCode>)
    requires buf.Valid()
    ensures head == Head(types, buf.Contents())
  {
    if buf.Readable() < MIN_MESSAGE_LEN + HEADER_LEN {
      return More;
    }
    var len := buf.PeekInt32();
    if len > MAX_MESSAGE_LEN || len < MIN_MESSAGE_LEN {
      return Bad(InvalidLength);
    }
    if buf.Readable() < len + HEADER_LEN {
      return More;
    }
    var body := buf.data[buf.readerIndex + HEADER_LEN..buf.readerIndex + HEADER_LEN + len];
    SliceOfSlice(buf.data, buf.readerIndex, buf.writerIndex, HEADER_LEN, HEADER_LEN + len);
    HeadAt(types, buf.Contents(), len, body);
    match Parse(types, body)
    case Ok(m) => head := Frame(HEADER_LEN + len, m);
    case Err(code) => head := Bad(code);
  }

  /** `fillEmptyBuffer`: name, message and checksum appended, the length put in front. */
  method FillEmptyBuffer<M>(types: Types<M>, buf: Buffer, m: M)
    requires buf.Valid() && buf.Contents() == []
    modifies buf
    ensures buf.Valid() && buf.Contents() == Encode(types, m)
  {
    FillPayload(types, buf, m);
    var payload := buf.Contents();
    buf.AppendInt32(ToSigned(Checksum(payload)));
    assert buf.Contents() == Body(types, m);
    buf.Prepend(Encode32(Cast(buf.Readable())));
  }

  method FillPayload<M>(types: Types<M>, buf: Buffer, m: M)
    requires buf.Valid() && buf.Contents() == []
    modifies buf
    ensures buf.Valid() && buf.Contents() == Payload(types, m) && buf.readerIndex >= CHEAP_PREPEND
  {
    var typeName := types.nameOf(m);
    buf.AppendInt32(Cast(|typeName| + 1));
    assert buf.Contents() == Encode32(Cast(|typeName| + 1));
    buf.Append(typeName + [0]);
    var data := types.serialize(m);
    buf.EnsureWritableBytes(|data|);
    buf.Place(data);
  }
}
