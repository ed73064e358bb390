/**
 Message framing over a byte stream. A step looks at the head of the buffer: it needs more bytes, or the
 head is bad, or it is a frame of `size` bytes holding `message`.
 */
module Framing {
  import opened Bytes
  import opened Sequences

  datatype Step<M, E> = More | Bad(error: E) | Frame(size: nat, message: M)

  /** What a decoding pass leaves: the messages delivered and the bytes kept. */
  datatype Decoded<M> = Decoded(messages: seq<M>, rest: seq<Byte>)

  /** A frame is not empty, lies in the buffer, and does not depend on what follows it. */
  ghost predicate Lawful<M(!new), E(!new)>(step: seq<Byte> -> Step<M, E>) {
    && (forall s :: step(s).Frame? ==> 0 < step(s).size <= |s|)
    && (forall s, t {:trigger step(s + t)} :: step(s).Frame? ==> step(s + t) == step(s))
  }

  /** Delivers frames until the head is incomplete or bad; the `onMessage` loop. */
  ghost function Decode<M(!new), E(!new)>(step: seq<Byte> -> Step<M, E>, s: seq<Byte>): Decoded<M>
    requires Lawful(step)
    decreases |s|
  {
    match step(s)
    case Frame(size, m) =>
      var d := Decode(step, s[size..]);
      Decoded([m] + d.messages, d.rest)
    case _ => Decoded([], s)
  }

  /** Bytes arriving in chunks, each followed by a decoding pass. */
  ghost function Feed<M(!new), E(!new)>(step: seq<Byte> -> Step<M, E>, rest: seq<Byte>,
                                               chunks: seq<seq<Byte>>): Decoded<M>
    requires Lawful(step)
    decreases |chunks|
  {
    if chunks == [] then Decoded([], rest)
    else
      var d := Decode(step, rest + chunks[0]);
      var e := Feed(step, d.rest, chunks[1..]);
      Decoded(d.messages + e.messages, e.rest)
  }

  function Flatten(chunks: seq<seq<Byte>>): seq<Byte> {
    if chunks == [] then [] else chunks[0] + Flatten(chunks[1..])
  }

  /** Decoding in two passes is decoding at once. */
  lemma {:induction false} DecodeSplits<M(!new), E(!new)>(step: seq<Byte> -> Step<M, E>, s: seq<Byte>, t: seq<Byte>)
    requires Lawful(step)
    ensures var d := Decode(step, s); var e := Decode(step, d.rest + t);
            Decode(step, s + t) == Decoded(d.messages + e.messages, e.rest)
    decreases |s|
  {
    match step(s)
    case Frame(size, m) =>
      var d := Decode(step, s[size..]);
      var e := Decode(step, d.rest + t);
      assert step(s + t) == step(s);
      DropOfConcat(s, t, size);
      DecodeSplits(step, s[size..], t);
      Associative([m], d.messages, e.messages);
    case _ =>
      NothingBefore(Decode(step, s + t).messages);
  }

  lemma DropOfConcat(s: seq<Byte>, t: seq<Byte>, n: nat)
    requires n <= |s|
    ensures (s + t)[n..] == s[n..] + t
  {
  }

  lemma NothingBefore<M>(a: seq<M>)
    ensures [] + a == a
  {
  }

  /** The rest of a pass starts with no complete frame. */
  lemma {:induction false} RestIsStuck<M(!new), E(!new)>(step: seq<Byte> -> Step<M, E>, s: seq<Byte>)
    requires Lawful(step)
    ensures !step(Decode(step, s).rest).Frame?
    decreases |s|
  {
    if step(s).Frame? {
      RestIsStuck(step, s[step(s).size..]);
    }
  }

  lemma FeedSingle<M(!new), E(!new)>(step: seq<Byte> -> Step<M, E>, rest: seq<Byte>, chunk: seq<Byte>)
    requires Lawful(step)
    ensures Feed(step, rest, [chunk]) == Decode(step, rest + chunk)
  {
  }

  lemma Split(chunks: seq<seq<Byte>>, chunk: seq<Byte>)
    requires chunks != []
    ensures (chunks + [chunk])[0] == chunks[0] && (chunks + [chunk])[1..] == chunks[1..] + [chunk]
  {
  }

  /** Messages already delivered, before those of a later pass. */
  function Prefixed<M>(messages: seq<M>, d: Decoded<M>): Decoded<M> {
    Decoded(messages + d.messages, d.rest)
  }

  lemma PrefixedAgain<M>(messages: seq<M>, m: M, d: Decoded<M>, e: Decoded<M>)
    requires d == Prefixed([m], e)
    ensures Prefixed(messages, d) == Prefixed(messages + [m], e)
  {
  }

  /** One more chunk is one more pass. */
  lemma {:induction false} FeedAppend<M(!new), E(!new)>(step: seq<Byte> -> Step<M, E>, rest: seq<Byte>,
                                                         chunks: seq<seq<Byte>>, chunk: seq<Byte>)
    requires Lawful(step)
    ensures var d := Feed(step, rest, chunks); var e := Decode(step, d.rest + chunk);
            Feed(step, rest, chunks + [chunk]) == Decoded(d.messages + e.messages, e.rest)
    decreases |chunks|
  {
    if chunks == [] {
      FeedSingle(step, rest, chunk);
      assert chunks + [chunk] == [chunk];
    } else {
      var d := Decode(step, rest + chunks[0]);
      var f := Feed(step, d.rest, chunks[1..]);
      var e := Decode(step, f.rest + chunk);
      FeedAppend(step, d.rest, chunks[1..], chunk);
      Split(chunks, chunk);
      Associative(d.messages, f.messages, e.messages);
    }
  }

  lemma FlattenStep(rest: seq<Byte>, chunks: seq<seq<Byte>>)
    requires chunks != []
    ensures rest + Flatten(chunks) == rest + chunks[0] + Flatten(chunks[1..])
  {
  }

  /** However a stream is cut into chunks, the same messages are delivered and the same bytes kept. */
  lemma {:induction false} ChunkingIsInvisible<M(!new), E(!new)>(step: seq<Byte> -> Step<M, E>, rest: seq<Byte>,
                                                                  chunks: seq<seq<Byte>>)
    requires Lawful(step) && !step(rest).Frame?
    ensures Feed(step, rest, chunks) == Decode(step, rest + Flatten(chunks))
    decreases |chunks|
  {
    if chunks == [] {
      assert rest + [] == rest;
    } else {
      var s, t := rest + chunks[0], Flatten(chunks[1..]);
      FlattenStep(rest, chunks);
      RestIsStuck(step, s);
      ChunkingIsInvisible(step, Decode(step, s).rest, chunks[1..]);
      DecodeSplits(step, s, t);
    }
  }

  // ---------- encoding ----------

  function EncodeAll<M>(encode: M -> seq<Byte>, ms: seq<M>): seq<Byte> {
    if ms == [] then [] else encode(ms[0]) + EncodeAll(encode, ms[1..])
  }

  /** The encoding of `m` is read back as a frame, whatever follows. */
  ghost predicate Readable<M(!new), E(!new)>(step: seq<Byte> -> Step<M, E>, encode: M -> seq<Byte>, m: M) {
    encode(m) != [] && step(encode(m)) == Frame(|encode(m)|, m)
  }

  /** The encodings of a list of messages decode to that list, with nothing left over. */
  lemma {:induction false} DecodeEncodeAll<M(!new), E(!new)>(step: seq<Byte> -> Step<M, E>, encode: M -> seq<Byte>,
                                                              ms: seq<M>)
    requires Lawful(step) && forall m :: m in ms ==> Readable(step, encode, m)
    ensures Decode(step, EncodeAll(encode, ms)) == Decoded(ms, [])
    decreases |ms|
  {
    if ms == [] {
      assert !step([]).Frame?;
    } else {
      var head, tail := encode(ms[0]), EncodeAll(encode, ms[1..]);
      assert Readable(step, encode, ms[0]);
      assert step(head + tail) == step(head);
      assert (head + tail)[|head|..] == tail;
      DecodeEncodeAll(step, encode, ms[1..]);
      assert [ms[0]] + ms[1..] == ms;
    }
  }
}
