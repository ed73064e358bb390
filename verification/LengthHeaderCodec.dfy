/** The length-prefixed string codec of the chat server. */
module LengthHeaderCodecs {
  import opened Bytes
  import opened Buffers
  import opened Framing

  const HEADER_LEN := 4
  const MAX_LEN := 65536

  type Text = seq<Byte>

  /** One turn of the `onMessage` loop; the error is the invalid length. */
  function Head(s: seq<Byte>): Step<Text, int> {
    if |s| < HEADER_LEN then More
    else
      var len := Decode32(s);
      if len > MAX_LEN || len < 0 then Bad(len)
      else if |s| >= len + HEADER_LEN then Frame(len + HEADER_LEN, s[HEADER_LEN..len + HEADER_LEN])
      else More
  }

  /** The length as the header can hold it, then the message. */
  function Encode(m: Text): seq<Byte> {
    Encode32(ToSigned(|m| % 0x1_0000_0000)) + m
  }

  lemma HeadIsLawful()
    ensures Lawful(Head)
  {
    forall s, t | Head(s).Frame? ensures Head(s + t) == Head(s) {
      var len := Decode32(s);
      assert (s + t)[HEADER_LEN..len + HEADER_LEN] == s[HEADER_LEN..len + HEADER_LEN];
    }
  }

  /** Messages within the limit are read back; longer ones, up to what the header can hold, are refused. */
  lemma HeadOfEncode(m: Text)
    ensures |m| <= MAX_LEN ==> Head(Encode(m)) == Frame(|Encode(m)|, m)
    ensures MAX_LEN < |m| < 0x1_0000_0000 ==> Head(Encode(m)).Bad?
  {
    var header := Encode32(ToSigned(|m| % 0x1_0000_0000));
    DecodeEncode32(ToSigned(|m| % 0x1_0000_0000), m);
    assert (header + m)[HEADER_LEN..|m| + HEADER_LEN] == m;
  }

  /** What a pass over the buffer delivers and leaves. */
  ghost function Pass(s: seq<Byte>): Decoded<Text> {
    HeadIsLawful();
    Decode(Head, s)
  }

  lemma PassStep(s: seq<Byte>)
    ensures match Head(s)
            case Frame(size, m) => size <= |s| && Pass(s) == Prefixed([m], Pass(s[size..]))
            case _ => Pass(s) == Decoded([], s)
  {
  }

  /** A list of messages within the limit survives encoding and any chunking of the stream. */
  lemma RoundTrip(ms: seq<Text>, chunks: seq<seq<Byte>>)
    requires forall m :: m in ms ==> |m| <= MAX_LEN
    requires Flatten(chunks) == EncodeAll(Encode, ms)
    ensures (HeadIsLawful(); Feed(Head, [], chunks)) == Decoded(ms, [])
  {
    HeadIsLawful();
    forall m | m in ms ensures Readable(Head, Encode, m) {
      HeadOfEncode(m);
    }
    DecodeEncodeAll(Head, Encode, ms);
    ChunkingIsInvisible(Head, [], chunks);
    assert [] + Flatten(chunks) == Flatten(chunks);
  }

  /** `onMessage`: delivers every complete message and leaves the rest; `shut` if it met an invalid length. */
  method OnMessage(buf: Buffer) returns (messages: seq<Text>, shut: bool)
    requires buf.Valid()
    modifies buf
    ensures buf.Valid()
    ensures Pass(old(buf.Contents())) == Decoded(messages, buf.Contents())
    ensures shut <==> Head(buf.Contents()).Bad?
  {
    messages, shut := [], false;
    ghost var all := Pass(buf.Contents());
    while buf.Readable() >= HEADER_LEN
      invariant buf.Valid() && !shut
      invariant all == Prefixed(messages, Pass(buf.Contents()))
      decreases buf.Readable()
    {
      var len := buf.PeekInt32();
      if len > MAX_LEN || len < 0 {
        shut := true;
        break;
      } else if buf.Readable() >= len + HEADER_LEN {
        ghost var before := Pass(buf.Contents());
        var m := TakeMessage(buf, len);
        PrefixedAgain(messages, m, before, Pass(buf.Contents()));
        messages := messages + [m];
      } else {
        break;
      }
    }
    PassStep(buf.Contents());
  }

  /** A connection's input: each chunk read is appended, then decoded. All chunks deliver what the stream holds. */
  method Receive(buf: Buffer, chunks: seq<seq<Byte>>) returns (messages: seq<Text>)
    requires buf.Valid() && !Head(buf.Contents()).Frame?
    modifies buf
    ensures buf.Valid() && Pass(old(buf.Contents()) + Flatten(chunks)) == Decoded(messages, buf.Contents())
  {
    messages := [];
    ghost var was := buf.Contents();
    var i := 0;
    FeedNone(was, chunks);
    while i < |chunks|
      invariant 0 <= i <= |chunks| && buf.Valid()
      invariant Fed(was, chunks[..i]) == Decoded(messages, buf.Contents())
    {
      buf.Append(chunks[i]);
      var ms, _ := OnMessage(buf);
      FeedOne(was, chunks, i, messages, ms, buf.Contents());
      messages := messages + ms;
      i := i + 1;
    }
    assert chunks[..i] == chunks;
    HeadIsLawful();
    ChunkingIsInvisible(Head, was, chunks);
  }

  ghost function Fed(rest: seq<Byte>, chunks: seq<seq<Byte>>): Decoded<Text> {
    HeadIsLawful();
    Feed(Head, rest, chunks)
  }

  lemma FeedNone(rest: seq<Byte>, chunks: seq<seq<Byte>>)
    ensures Fed(rest, chunks[..0]) == Decoded([], rest)
  {
  }

  /** One more chunk is one more pass. */
  lemma FedAppend(rest: seq<Byte>, chunks: seq<seq<Byte>>, chunk: seq<Byte>)
    ensures Fed(rest, chunks + [chunk])
         == Prefixed(Fed(rest, chunks).messages, Pass(Fed(rest, chunks).rest + chunk))
  {
    HeadIsLawful();
    FeedAppend(Head, rest, chunks, chunk);
  }

  lemma FeedOne(rest: seq<Byte>, chunks: seq<seq<Byte>>, i: nat, messages: seq<Text>, ms: seq<Text>, left: seq<Byte>)
    requires i < |chunks| && Fed(rest, chunks[..i]).messages == messages
    requires Pass(Fed(rest, chunks[..i]).rest + chunks[i]) == Decoded(ms, left)
    ensures Fed(rest, chunks[..i + 1]) == Decoded(messages + ms, left)
  {
    NextChunk(chunks, i);
    FedAppend(rest, chunks[..i], chunks[i]);
  }

  lemma NextChunk(chunks: seq<seq<Byte>>, i: nat)
    requires i < |chunks|
    ensures chunks[..i + 1] == chunks[..i] + [chunks[i]]
  {
  }

  /** The head of a buffer that holds a whole message. */
  lemma HeadAt(s: seq<Byte>, len: nat)
    requires |s| >= len + HEADER_LEN && len <= MAX_LEN && Decode32(s) == len
    ensures Head(s) == Frame(len + HEADER_LEN, s[HEADER_LEN..len + HEADER_LEN])
  {
  }

  /** Retrieves the header and then the message. */
  method TakeMessage(buf: Buffer, len: nat) returns (m: Text)
    requires buf.Valid() && |buf.Contents()| >= len + HEADER_LEN && len <= MAX_LEN && Decode32(buf.Contents()) == len
    modifies buf`readerIndex
    ensures buf.Valid() && buf.Readable() < old(buf.Readable())
    ensures Pass(old(buf.Contents())) == Prefixed([m], Pass(buf.Contents()))
  {
    ghost var s := buf.Contents();
    HeadAt(s, len);
    PassStep(s);
    SplitFrame(s, len);
    buf.Retrieve(HEADER_LEN);
    m := buf.RetrieveAsString(len);
  }

  lemma SplitFrame(s: seq<Byte>, len: nat)
    requires |s| >= len + HEADER_LEN
    ensures s[HEADER_LEN..][..len] == s[HEADER_LEN..len + HEADER_LEN]
    ensures s[HEADER_LEN..][len..] == s[len + HEADER_LEN..]
  {
  }

  /** `send`: appends the message to a fresh buffer and puts its length in front. */
  method BuildFrame(m: Text) returns (buf: Buffer)
    ensures fresh(buf) && buf.Valid() && buf.Contents() == Encode(m)
  {
    buf := new Buffer();
    buf.Append(m);
    buf.Prepend(Encode32(ToSigned(|m| % 0x1_0000_0000)));
    assert [] + m == m;
  }
}
