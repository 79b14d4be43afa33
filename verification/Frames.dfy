/**
  MILO-Link framing: the layout both ends write (`receiver/src/engine/link.rs`,
  `host/core/transport.py`), the receiver's incremental parser over 64-byte USB reads
  (`receiver/src/main.rs`) and the host's blocking frame reader.
*/
module Frames {
  import opened Bits
  import opened Wrappers

  const MAX_FRAME_LEN: nat := 512 * 1024

  datatype Frame = Frame(opcode: u8, payload: seq<u8>)

  // ---------- layout ----------

  function ToBytes32(n: u32): (s: seq<u8>)
    ensures |s| == 4
  {
    var m: int := n;
    [m / 0x100_0000, m / 0x1_0000 % 0x100, m / 0x100 % 0x100, m % 0x100]
  }

  function FromBytes32(s: seq<u8>): u32
    requires |s| == 4
  {
    0x100_0000 * (s[0] as int) + 0x1_0000 * (s[1] as int) + 0x100 * (s[2] as int) + s[3] as int
  }

  lemma FromToBytes32(n: u32)
    ensures FromBytes32(ToBytes32(n)) == n
  {
    var a, b, c := n / 0x100, n / 0x1_0000, n / 0x100_0000;
    assert b == a / 0x100 && c == b / 0x100;
  }

  lemma ToFromBytes32(s: seq<u8>)
    requires |s| == 4
    ensures ToBytes32(FromBytes32(s)) == s
  {
    var n := FromBytes32(s);
    assert n / 0x100 == 0x1_0000 * (s[0] as int) + 0x100 * (s[1] as int) + s[2] as int;
    assert n / 0x1_0000 == 0x100 * (s[0] as int) + s[1] as int;
    assert n / 0x100_0000 == s[0] as int;
  }

  /** The length field holds the payload length cut to 32 bits. */
  function Serialize(f: Frame): (s: seq<u8>)
    ensures |s| == 5 + |f.payload|
  {
    [f.opcode] + ToBytes32(|f.payload| % 0x1_0000_0000) + f.payload
  }

  /** Opcode, payload length with its highest byte first, payload. */
  lemma FrameLayout(f: Frame)
    requires |f.payload| < 0x1_0000_0000
    ensures var s := Serialize(f);
      && s[0] == f.opcode && s[5..] == f.payload
      && 0x100_0000 * (s[1] as int) + 0x1_0000 * (s[2] as int) + 0x100 * (s[3] as int) + s[4] as int == |f.payload|
  {
    hide ToBytes32;
    var n := ToBytes32(|f.payload|);
    FromToBytes32(|f.payload|);
    assert Serialize(f)[1..5] == n;
  }

  function SerializeAll(frames: seq<Frame>): seq<u8> {
    if frames == [] then [] else Serialize(frames[0]) + SerializeAll(frames[1..])
  }

  lemma {:induction false} SerializeAppend(a: seq<Frame>, b: seq<Frame>)
    ensures SerializeAll(a + b) == SerializeAll(a) + SerializeAll(b)
  {
    hide Serialize;
    if a == [] {
      assert a + b == b;
    } else {
      SerializeAppend(a[1..], b);
      Assoc(Serialize(a[0]), SerializeAll(a[1..]), SerializeAll(b));
      assert (a + b)[0] == a[0] && (a + b)[1..] == a[1..] + b;
    }
  }

  /** The payload length a header announces. */
  function Announced(s: seq<u8>): u32
    requires |s| >= 5
  {
    FromBytes32(s[1..5])
  }

  lemma AnnouncedPrefix(a: seq<u8>, b: seq<u8>)
    requires |a| >= 5
    ensures Announced(a + b) == Announced(a)
  {
    assert (a + b)[1..5] == a[1..5];
  }

  lemma AnnouncedSerialized(f: Frame, rest: seq<u8>)
    requires |f.payload| < 0x1_0000_0000
    ensures Announced(Serialize(f) + rest) == |f.payload|
    ensures (Serialize(f) + rest)[0] == f.opcode
    ensures (Serialize(f) + rest)[5..5 + |f.payload|] == f.payload
    ensures (Serialize(f) + rest)[5 + |f.payload|..] == rest
  {
    var s := Serialize(f) + rest;
    assert s[1..5] == ToBytes32(|f.payload|);
    FromToBytes32(|f.payload|);
  }

  // ---------- the incremental parser ----------

  datatype Drained = Drained(frames: seq<Frame>, rest: seq<u8>)

  predicate Oversized(buf: seq<u8>) {
    |buf| >= 5 && Announced(buf) > MAX_FRAME_LEN
  }

  /** An acceptable frame is in the buffer from its first to its last byte. */
  predicate Complete(buf: seq<u8>) {
    |buf| >= 5 && Announced(buf) <= MAX_FRAME_LEN && |buf| >= 5 + Announced(buf)
  }

  function Head(buf: seq<u8>): Frame
    requires Complete(buf)
  {
    Frame(buf[0], buf[5..5 + Announced(buf)])
  }

  function Tail(buf: seq<u8>): (t: seq<u8>)
    requires Complete(buf)
    ensures |t| < |buf|
  {
    buf[5 + Announced(buf)..]
  }

  /** What the parsing loop takes out of the buffer: complete frames, and nothing is left behind an oversized header. */
  function Drain(buf: seq<u8>): Drained
    decreases |buf|
  {
    if Complete(buf) then
      var more := Drain(Tail(buf));
      Drained([Head(buf)] + more.frames, more.rest)
    else if Oversized(buf) then Drained([], [])
    else Drained([], buf)
  }

  /** No header the loop would meet announces more than MAX_FRAME_LEN. */
  predicate Legal(stream: seq<u8>)
    decreases |stream|
  {
    !Oversized(stream) && (Complete(stream) ==> Legal(Tail(stream)))
  }

  /** More bytes behind a header change neither what it announces nor the frame it starts. */
  lemma HeadTailPrefix(a: seq<u8>, b: seq<u8>)
    ensures Oversized(a) ==> Oversized(a + b)
    ensures Complete(a) ==> Complete(a + b) && Head(a + b) == Head(a) && Tail(a + b) == Tail(a) + b && !Oversized(a + b)
  {
  }

  /** Taking a frame out of the buffer loses nothing. */
  lemma HeadTailBytes(s: seq<u8>)
    requires Complete(s)
    ensures Serialize(Head(s)) + Tail(s) == s
    ensures !Oversized(s)
  {
    hide FromBytes32, ToBytes32;
    ToFromBytes32(s[1..5]);
    var n := Announced(s);
    assert [s[0]] + s[1..5] + s[5..5 + n] == s[..5 + n];
    assert s[..5 + n] + s[5 + n..] == s;
  }

  /** A written frame is complete as soon as its last byte is there. */
  lemma HeadTailSerialized(f: Frame, rest: seq<u8>)
    requires |f.payload| <= MAX_FRAME_LEN
    ensures Complete(Serialize(f) + rest)
    ensures Head(Serialize(f) + rest) == f && Tail(Serialize(f) + rest) == rest
    ensures !Oversized(Serialize(f) + rest)
  {
    hide Serialize, Announced;
    AnnouncedSerialized(f, rest);
  }

  function Concat(chunks: seq<seq<u8>>): seq<u8> {
    if chunks == [] then [] else chunks[0] + Concat(chunks[1..])
  }

  /** The buffer and the frames extracted over a run of reads. */
  function Feed(buf: seq<u8>, chunks: seq<seq<u8>>): Drained
    decreases |chunks|
  {
    if chunks == [] then Drained([], buf)
    else
      var now := Drain(buf + chunks[0]);
      var later := Feed(now.rest, chunks[1..]);
      Drained(now.frames + later.frames, later.rest)
  }

  /** The Pico receiver's `frame_buf` and its loop. */
  class FrameBuffer {
    var frameBuf: seq<u8>
    var extracted: seq<Frame>

    constructor ()
      ensures frameBuf == [] && extracted == []
    {
      frameBuf, extracted := [], [];
    }

    /** One successful read: append it, then take every complete frame out. */
    method OnRead(chunk: seq<u8>)
      modifies this
      ensures frameBuf == Drain(old(frameBuf) + chunk).rest
      ensures extracted == old(extracted) + Drain(old(frameBuf) + chunk).frames
    {
      hide FromBytes32;
      frameBuf := frameBuf + chunk;
      while |frameBuf| >= 5
        invariant extracted + Drain(frameBuf).frames == old(extracted) + Drain(old(frameBuf) + chunk).frames
        invariant Drain(frameBuf).rest == Drain(old(frameBuf) + chunk).rest
        decreases |frameBuf|
      {
        ghost var before, taken := frameBuf, extracted;
        var opcode := frameBuf[0];
        var plen := FromBytes32(frameBuf[1..5]);
        if plen > MAX_FRAME_LEN {
          frameBuf := [];
          break;
        }
        if |frameBuf| < 5 + plen { break; }
        var payload := frameBuf[5..5 + plen];
        frameBuf := frameBuf[5 + plen..];
        extracted := extracted + [Frame(opcode, payload)];
        assert Complete(before) && Head(before) == Frame(opcode, payload) && Tail(before) == frameBuf;
        Assoc(taken, [Head(before)], Drain(frameBuf).frames);
      }
    }

    /** A run of reads, however the bytes are split. */
    method OnReads(chunks: seq<seq<u8>>)
      modifies this
      ensures frameBuf == Feed(old(frameBuf), chunks).rest
      ensures extracted == old(extracted) + Feed(old(frameBuf), chunks).frames
    {
      hide Drain;
      ghost var whole := Feed(frameBuf, chunks);
      for i := 0 to |chunks|
        invariant Feed(frameBuf, chunks[i..]).rest == whole.rest
        invariant extracted + Feed(frameBuf, chunks[i..]).frames == old(extracted) + whole.frames
      {
        assert chunks[i..][1..] == chunks[i + 1..];
        ghost var before, now := extracted, Drain(frameBuf + chunks[i]);
        OnRead(chunks[i]);
        Assoc(before, now.frames, Feed(frameBuf, chunks[i + 1..]).frames);
      }
    }
  }

  // ---------- properties of the parser ----------

  /** Draining in two goes is draining once, and sees the same headers. */
  lemma {:induction false} DrainAppend(a: seq<u8>, b: seq<u8>)
    requires Legal(a)
    ensures Drain(a + b).frames == Drain(a).frames + Drain(Drain(a).rest + b).frames
    ensures Drain(a + b).rest == Drain(Drain(a).rest + b).rest
    ensures Legal(a + b) <==> Legal(Drain(a).rest + b)
    decreases |a|
  {
    hide Oversized, Complete, Head, Tail;
    HeadTailPrefix(a, b);
    if Complete(a) {
      DrainAppend(Tail(a), b);
      var h, t := [Head(a)], Drain(Tail(a));
      assert h + (t.frames + Drain(t.rest + b).frames) == h + t.frames + Drain(t.rest + b).frames;
    }
  }

  /** No byte lies behind the first oversized header. */
  predicate Settled(stream: seq<u8>)
    decreases |stream|
  {
    if Oversized(stream) then |stream| == 5 else Complete(stream) ==> Settled(Tail(stream))
  }

  lemma {:induction false} LegalIsSettled(s: seq<u8>)
    requires Legal(s)
    ensures Settled(s)
    decreases |s|
  {
    hide Oversized, Complete, Tail;
    if Complete(s) { LegalIsSettled(Tail(s)); }
  }

  /** Draining a legal beginning leaves the rest of a stream exactly as settled as it was. */
  lemma {:induction false} SettledAppend(a: seq<u8>, b: seq<u8>)
    requires Legal(a)
    ensures Settled(a + b) <==> Settled(Drain(a).rest + b)
    decreases |a|
  {
    hide Oversized, Complete, Head, Tail;
    HeadTailPrefix(a, b);
    if Complete(a) { SettledAppend(Tail(a), b); }
  }

  /** Behind an oversized header nothing is kept, and in a settled stream nothing follows. */
  lemma {:induction false} IllegalPrefix(a: seq<u8>, b: seq<u8>)
    requires !Legal(a)
    ensures !Legal(a + b) && Drain(a).rest == []
    ensures Settled(a + b) ==> b == []
    decreases |a|
  {
    hide Complete, Head, Tail, Announced;
    HeadTailPrefix(a, b);
    if Oversized(a) {
      OversizedOnly(a);
      assert |a + b| == |a| + |b|;
    } else {
      IllegalPrefix(Tail(a), b);
    }
  }

  lemma OversizedOnly(s: seq<u8>)
    requires Oversized(s)
    ensures !Complete(s) && |s| >= 5
  {
  }

  lemma {:induction false} FeedEmpty(chunks: seq<seq<u8>>)
    requires Concat(chunks) == []
    ensures Feed([], chunks) == Drained([], [])
    decreases |chunks|
  {
    if chunks != [] {
      assert chunks[0] == [] && Concat(chunks[1..]) == [];
      assert [] + chunks[0] == [];
      FeedEmpty(chunks[1..]);
    }
  }

  /** On a settled stream the way it is split into reads makes no difference. */
  lemma {:induction false} ChunkingIrrelevant(buf: seq<u8>, chunks: seq<seq<u8>>)
    requires chunks != [] && Settled(buf + Concat(chunks))
    ensures Feed(buf, chunks) == Drain(buf + Concat(chunks))
    decreases |chunks|
  {
    hide Drain, Legal, Settled;
    var first, more := buf + chunks[0], Concat(chunks[1..]);
    assert buf + Concat(chunks) == first + more;
    if !Legal(first) {
      IllegalPrefix(first, more);
      FeedEmpty(chunks[1..]);
      assert first + more == first;
      assert Drain(first).frames + [] == Drain(first).frames;
    } else {
      DrainAppend(first, more);
      SettledAppend(first, more);
      if |chunks| == 1 {
        assert first + more == first;
      } else {
        ChunkingIrrelevant(Drain(first).rest, chunks[1..]);
      }
    }
  }

  /** A stream that is not settled meets its oversized header before its last byte. */
  lemma {:induction false} UnsettledMeetsHeader(s: seq<u8>)
    requires !Settled(s)
    ensures |s| > 5 && !Legal(s[..|s| - 1])
    decreases |s|
  {
    var a, b := s[..|s| - 1], s[|s| - 1..];
    assert a + b == s;
    if Oversized(s) {
      AnnouncedPrefix(a, b);
      OversizedOnly(a);
    } else {
      UnsettledMeetsHeader(Tail(s));
      AnnouncedPrefix(a, b);
      assert Tail(a) == Tail(s)[..|Tail(s)| - 1];
      HeadTailPrefix(a, b);
    }
  }

  /** Held back for a read of its own, the last byte of such a stream stays in the buffer; otherwise it is dropped. */
  lemma LastByteApart(s: seq<u8>)
    requires !Settled(s)
    ensures Feed([], [s]).rest == []
    ensures Feed([], [s[..|s| - 1], s[|s| - 1..]]).rest == s[|s| - 1..]
  {
    hide Drain, Legal, Settled;
    UnsettledMeetsHeader(s);
    var a, b := s[..|s| - 1], s[|s| - 1..];
    assert a + b == s;
    IllegalPrefix(a, b);
    IllegalPrefix(s, []);
    FeedOne(s, []);
    FeedOne(a, [b]);
    FeedOne(b, []);
    assert [s] + [] == [s] && [a] + [b] == [a, b] && [b] + [] == [b];
    FeedNothing([]);
    ShortBuffer(b);
    FeedNothing(b);
  }

  lemma ShortBuffer(s: seq<u8>)
    requires |s| < 5
    ensures Drain(s) == Drained([], s)
  {
  }

  /**
    The loop depends on how a stream is split into reads exactly if some byte lies behind its first oversized
    header: otherwise every split gives the frames and the residual that one read gives.
  */
  lemma SplitIndependentIffSettled(s: seq<u8>)
    ensures Settled(s) <==> forall chunks :: chunks != [] && Concat(chunks) == s ==> Feed([], chunks) == Feed([], [s])
  {
    hide Drain, Legal, Settled, Feed;
    if Settled(s) {
      forall chunks | chunks != [] && Concat(chunks) == s
        ensures Feed([], chunks) == Feed([], [s])
      {
        assert [] + Concat(chunks) == s;
        ChunkingIrrelevant([], chunks);
        ConcatOne(s);
        ChunkingIrrelevant([], [s]);
      }
    } else {
      UnsettledMeetsHeader(s);
      var apart := [s[..|s| - 1], s[|s| - 1..]];
      LastByteApart(s);
      assert Concat(apart) == s by {
        assert apart[1..] == [s[|s| - 1..]];
        ConcatOne(s[|s| - 1..]);
      }
    }
  }

  lemma ConcatOne(s: seq<u8>)
    ensures Concat([s]) == s && [] + s == s
  {
    assert [s][1..] == [];
  }

  /** What draining keeps: the frames taken out, written again, and the bytes left are the buffer. */
  lemma {:induction false} DrainConserves(buf: seq<u8>)
    ensures Legal(buf) ==> SerializeAll(Drain(buf).frames) + Drain(buf).rest == buf
    ensures !Legal(buf) ==> |SerializeAll(Drain(buf).frames)| + |Drain(buf).rest| < |buf|
    decreases |buf|
  {
    hide Oversized, Complete, Head, Tail, Serialize;
    if Complete(buf) {
      var f, more := Head(buf), Drain(Tail(buf));
      HeadTailBytes(buf);
      DrainConserves(Tail(buf));
      assert ([f] + more.frames)[1..] == more.frames;
      assert Serialize(f) + (SerializeAll(more.frames) + more.rest) == Serialize(f) + SerializeAll(more.frames) + more.rest;
    } else if Oversized(buf) {
      OversizedOnly(buf);
    }
  }

  /**
    Bytes are conserved exactly on streams without oversized headers: the extracted frames, written
    again, followed by `frame_buf`, are the bytes received.
  */
  lemma ConservesIffLegal(buf: seq<u8>, chunks: seq<seq<u8>>)
    requires Drain(buf) == Drained([], buf) && Legal(buf)
    ensures SerializeAll(Feed(buf, chunks).frames) + Feed(buf, chunks).rest == buf + Concat(chunks)
       <==> Legal(buf + Concat(chunks))
    ensures |SerializeAll(Feed(buf, chunks).frames)| + |Feed(buf, chunks).rest| <= |buf + Concat(chunks)|
  {
    if chunks == [] {
      assert buf + Concat(chunks) == buf;
    } else {
      FeedSize(buf, chunks);
      if Legal(buf + Concat(chunks)) {
        LegalIsSettled(buf + Concat(chunks));
        ChunkingIrrelevant(buf, chunks);
        DrainConserves(buf + Concat(chunks));
      }
    }
  }

  /** An oversized header loses bytes however they arrive. */
  lemma {:induction false} FeedSize(buf: seq<u8>, chunks: seq<seq<u8>>)
    requires chunks != []
    ensures |SerializeAll(Feed(buf, chunks).frames)| + |Feed(buf, chunks).rest| <= |buf + Concat(chunks)|
    ensures !Legal(buf + Concat(chunks)) ==>
      |SerializeAll(Feed(buf, chunks).frames)| + |Feed(buf, chunks).rest| < |buf + Concat(chunks)|
    decreases |chunks|
  {
    hide Drain, Legal, SerializeAll;
    var first, more := buf + chunks[0], Concat(chunks[1..]);
    assert buf + Concat(chunks) == first + more;
    var now := Drain(first);
    DrainConserves(first);
    SerializeAppend(now.frames, Feed(now.rest, chunks[1..]).frames);
    if Legal(first) { DrainAppend(first, more); }
    if |chunks| == 1 {
      SerializeAppend(now.frames, []);
      assert now.frames + [] == now.frames;
      assert first + more == first;
      assert |SerializeAll([])| == 0;
    } else {
      FeedSize(now.rest, chunks[1..]);
    }
  }

  predicate AllFit(frames: seq<Frame>) {
    forall f :: f in frames ==> |f.payload| <= 524288
  }

  /** Any prefix of a legal stream of frames yields the frames it completes and keeps the start of the next one. */
  lemma {:induction false} PrefixExtracts(frames: seq<Frame>, n: nat) returns (k: nat)
    requires AllFit(frames) && n <= |SerializeAll(frames)|
    ensures k <= |frames| && Legal(SerializeAll(frames)[..n])
    ensures Drain(SerializeAll(frames)[..n]).frames == frames[..k]
    ensures k == |frames| ==> Drain(SerializeAll(frames)[..n]).rest == []
    ensures k < |frames| ==> Drain(SerializeAll(frames)[..n]).rest < Serialize(frames[k])
  {
    hide Oversized, Complete, Head, Tail, Serialize;
    var all := SerializeAll(frames);
    if frames == [] {
      k := 0;
      EmptyBuffer();
    } else {
      var f, more := frames[0], SerializeAll(frames[1..]);
      var size := 5 + |f.payload|;
      if n < size {
        k := 0;
        PartialFrame(f, more, n);
      } else {
        assert all[..n] == Serialize(f) + more[..n - size];
        HeadTailSerialized(f, more[..n - size]);
        k := PrefixExtracts(frames[1..], n - size);
        assert [f] + frames[1..][..k] == frames[..k + 1];
        k := k + 1;
      }
    }
  }

  lemma EmptyBuffer()
    ensures !Oversized([]) && !Complete([])
  {
  }

  lemma PartialFrame(f: Frame, more: seq<u8>, n: nat)
    requires |f.payload| <= MAX_FRAME_LEN && n < 5 + |f.payload|
    ensures !Complete((Serialize(f) + more)[..n]) && !Oversized((Serialize(f) + more)[..n])
    ensures (Serialize(f) + more)[..n] < Serialize(f)
  {
    hide Announced, Serialize;
    var s := Serialize(f);
    assert (s + more)[..n] == s[..n];
    if n >= 5 {
      AnnouncedSerialized(f, []);
      assert s + [] == s;
      assert s[..n] + s[n..] == s;
      AnnouncedPrefix(s[..n], s[n..]);
    }
  }

  /**
    Frames written by `write_frame` and delivered in any split into reads come out as exactly that list,
    with nothing left in the buffer.
  */
  lemma FramesArrive(frames: seq<Frame>, chunks: seq<seq<u8>>)
    requires AllFit(frames) && Concat(chunks) == SerializeAll(frames)
    ensures Feed([], chunks) == Drained(frames, [])
  {
    hide Drain, Legal, SerializeAll;
    var all := SerializeAll(frames);
    assert all[..|all|] == all;
    var k := PrefixExtracts(frames, |all|);
    DrainConserves(all);
    if k < |frames| {
      StartsWithHead(frames[k..]);
      assert frames[..k] + frames[k..] == frames;
      SerializeAppend(frames[..k], frames[k..]);
      assert false;
    }
    assert frames[..k] == frames;
    assert [] + Concat(chunks) == all;
    if chunks == [] {
      if frames != [] { StartsWithHead(frames); }
    } else {
      LegalIsSettled(all);
      ChunkingIrrelevant([], chunks);
    }
  }

  lemma StartsWithHead(frames: seq<Frame>)
    requires frames != []
    ensures |SerializeAll(frames)| >= |Serialize(frames[0])| >= 5
  {
  }

  /** Whatever arrives, the buffer between reads never holds a complete frame, and stays below 5 + MAX_FRAME_LEN bytes. */
  lemma {:induction false} ResidualBounded(buf: seq<u8>)
    ensures Drain(Drain(buf).rest) == Drained([], Drain(buf).rest)
    ensures |Drain(buf).rest| < 5 + 524288
    decreases |buf|
  {
    if Complete(buf) {
      hide Announced;
      ResidualBounded(Tail(buf));
    }
  }

  lemma FeedOne(chunk: seq<u8>, chunks: seq<seq<u8>>)
    ensures Feed([], [chunk] + chunks).frames == Drain(chunk).frames + Feed(Drain(chunk).rest, chunks).frames
    ensures Feed([], [chunk] + chunks).rest == Feed(Drain(chunk).rest, chunks).rest
  {
    var all := [chunk] + chunks;
    assert all[1..] == chunks;
    assert [] + all[0] == chunk;
  }

  /** The loop is not chunk-independent past an oversized header: the same bytes, split differently, give different frames. */
  lemma OversizeDependsOnChunking(header: seq<u8>, f: Frame)
    requires |header| == 5 && Announced(header) > MAX_FRAME_LEN && |f.payload| <= MAX_FRAME_LEN
    ensures Feed([], [header + Serialize(f)]) == Drained([], [])
    ensures Feed([], [header, Serialize(f)]) == Drained([f], [])
  {
    hide Complete, Head, Tail, Oversized, Serialize, Feed;
    var s := Serialize(f);
    assert Oversized(header + s) && !Complete(header + s) && Oversized(header) && !Complete(header) by { OversizedHeader(header, s); }
    assert s + [] == s;
    HeadTailSerialized(f, []);
    EmptyBuffer();
    FeedOne(header + s, []);
    FeedOne(header, [s]);
    FeedOne(s, []);
    assert [header + s] + [] == [header + s] && [header] + [s] == [header, s] && [s] + [] == [s];
    assert [f] + [] == [f];
    FeedNothing([]);
  }

  lemma OversizedHeader(header: seq<u8>, s: seq<u8>)
    requires |header| == 5 && Announced(header) > MAX_FRAME_LEN
    ensures Oversized(header + s) && !Complete(header + s) && Oversized(header) && !Complete(header)
  {
    hide Announced;
    AnnouncedPrefix(header, s);
  }

  lemma FeedNothing(buf: seq<u8>)
    ensures Feed(buf, []) == Drained([], buf)
  {
  }

  // ---------- the host's frame reader ----------

  predicate AllPositive(sizes: seq<nat>) {
    forall i :: 0 <= i < |sizes| ==> sizes[i] > 0
  }

  /** The reads allowed are enough for `n` bytes, even if each yields no more than one. */
  predicate Enough(sizes: seq<nat>, n: nat) {
    AllPositive(sizes) && |sizes| >= n
  }

  predicate BeginsWith(data: seq<u8>, f: Frame) {
    |f.payload| < 0x1_0000_0000 && Serialize(f) <= data
  }

  /** A byte source with short reads; when `sizes` is used up the deadline has passed. */
  class Port {
    var data: seq<u8>
    var sizes: seq<nat>

    /** One `read(n)`: at most `n` bytes, possibly none. */
    method Read(n: nat) returns (chunk: seq<u8>)
      requires sizes != []
      modifies this
      ensures |chunk| <= n && old(data) == chunk + data
      ensures sizes == old(sizes)[1..]
      ensures old(sizes)[0] > 0 && n > 0 && old(data) != [] ==> |chunk| > 0
    {
      var k := sizes[0];
      if k > n { k := n; }
      if k > |data| { k := |data|; }
      chunk := data[..k];
      data := data[k..];
      sizes := sizes[1..];
    }

    /** The accumulation loop of `read_frame`: `None` is the timeout, which drops what was read. */
    method ReadExact(n: nat) returns (r: Option<seq<u8>>, ghost taken: seq<u8>)
      modifies this
      ensures old(data) == taken + data
      ensures r.Some? ==> r.value == taken && |taken| == n
      ensures r.None? ==> |taken| < n && sizes == []
      ensures |old(data)| >= n && Enough(old(sizes), n) ==> r.Some? && AllPositive(sizes) && |sizes| >= |old(sizes)| - n
    {
      var buf: seq<u8> := [];
      while |buf| < n
        invariant |buf| <= n && old(data) == buf + data
        invariant |old(data)| >= n && Enough(old(sizes), n) ==> AllPositive(sizes) && |sizes| >= |old(sizes)| - |buf|
        decreases |sizes|
      {
        if sizes == [] { return None, buf; }
        var chunk := Read(n - |buf|);
        buf := buf + chunk;
      }
      return Some(buf), buf;
    }

    /**
      `SerialTransport.read_frame`: a frame takes exactly its own bytes; a timeout comes only when no read is left
      and loses the start of one frame; a frame that is there and can be read in time is returned.
    */
    method ReadFrame() returns (r: Option<Frame>, ghost taken: seq<u8>)
      modifies this
      ensures old(data) == taken + data
      ensures r.Some? ==> taken == Serialize(r.value)
      ensures r.None? ==> sizes == [] && (|taken| < 5 || |taken| < 5 + Announced(taken))
      ensures forall f :: BeginsWith(old(data), f) && Enough(old(sizes), 5 + |f.payload|) ==>
        r == Some(f) && data == old(data)[5 + |f.payload|..]
    {
      hide FromBytes32, ToBytes32;
      ghost var all, allowed := data, sizes;
      forall f | BeginsWith(all, f) && Enough(allowed, 5 + |f.payload|)
        ensures |all| >= 5 + |f.payload| && Enough(allowed, 5) && Announced(all) == |f.payload|
        ensures f == Frame(all[0], all[5..5 + Announced(all)])
      {
        AnnouncedSerialized(f, all[5 + |f.payload|..]);
        assert all == Serialize(f) + all[5 + |f.payload|..];
      }
      var header, t1 := ReadExact(5);
      if header.None? { return None, t1; }
      var opcode := header.value[0];
      var plen := FromBytes32(header.value[1..5]);
      var payload, t2 := ReadExact(plen);
      taken := t1 + t2;
      AnnouncedPrefix(t1, t2);
      if payload.None? { return None, taken; }
      SplitFrame(t1, t2);
      return Some(Frame(opcode, payload.value)), taken;
    }
  }

  lemma SplitFrame(header: seq<u8>, payload: seq<u8>)
    requires |header| == 5 && |payload| == Announced(header)
    ensures Serialize(Frame(header[0], payload)) == header + payload
  {
    hide FromBytes32, ToBytes32;
    ToFromBytes32(header[1..5]);
    assert [header[0]] + header[1..5] == header;
  }

  /** A frame the port yields is the frame that was written at the front of its data. */
  lemma SerializeInjective(f: Frame, g: Frame, a: seq<u8>, b: seq<u8>)
    requires |f.payload| < 0x1_0000_0000 && |g.payload| < 0x1_0000_0000
    requires Serialize(f) + a == Serialize(g) + b
    ensures f == g && a == b
  {
    hide Serialize, Announced;
    AnnouncedSerialized(f, a);
    AnnouncedSerialized(g, b);
  }
}
