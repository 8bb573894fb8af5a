/** HEP3 reassembly: the buffer loop of `handle_hep_client` and the frame parser. */
module HepStream {
  import opened PyText
  import opened Octets

  /** `struct.unpack('!H', b[i:i+2])` */
  function Word(b: seq<Byte>, i: nat): (n: nat)
    requires i + 2 <= |b|
    ensures n < 0x1_0000
  {
    var high: int, low: int := b[i], b[i + 1];
    high * 256 + low
  }

  // ------------------------------------------------------------ reassembly

  /** The frames taken from a stream and what is left in the buffer.  A frame that declares
      length zero is cut off forever without shortening the buffer: the loop is `stuck` and
      nothing more is read. */
  datatype Stream = Stream(frames: seq<seq<Byte>>, rest: seq<Byte>, stuck: bool)

  /** Draining a buffer from its front. */
  function Drain(b: seq<Byte>): Stream
    decreases |b|
  {
    if |b| <= 6 then Stream([], b, false)
    else
      var total := Word(b, 4);
      if |b| < total then Stream([], b, false)
      else if total == 0 then Stream([], b, true)
      else
        var more := Drain(b[total..]);
        more.(frames := [b[..total]] + more.frames)
  }

  function Join(parts: seq<seq<Byte>>): seq<Byte>
  {
    if parts == [] then [] else parts[0] + Join(parts[1..])
  }

  /** What the client thread knows after one more segment; a stuck loop leaves it unread. */
  function Feed(s: Stream, segment: seq<Byte>): Stream
  {
    if s.stuck then s.(rest := s.rest + segment)
    else
      var more := Drain(s.rest + segment);
      more.(frames := s.frames + more.frames)
  }

  function FeedAll(s: Stream, segments: seq<seq<Byte>>): Stream
    decreases |segments|
  {
    if segments == [] then s else FeedAll(Feed(s, segments[0]), segments[1..])
  }

  /** Draining is not disturbed by bytes that arrive later. */
  lemma {:induction false} DrainMore(b: seq<Byte>, c: seq<Byte>)
    ensures Feed(Drain(b), c) == Drain(b + c)
    decreases |b|
  {
    hide Word;
    NothingFed(b + c);
    if |b| > 6 {
      var total := Word(b, 4);
      SameFront(b, c);
      if |b| >= total && total > 0 {
        DrainMore(b[total..], c);
        FeedCons(b[..total], Drain(b[total..]), c);
      }
    }
  }

  lemma SameFront(b: seq<Byte>, c: seq<Byte>)
    requires |b| > 6
    ensures var total := Word(b, 4);
      && Word(b + c, 4) == total
      && (total <= |b| ==> (b + c)[total..] == b[total..] + c && (b + c)[..total] == b[..total])
  {
  }

  lemma FeedCons(first: seq<Byte>, s: Stream, c: seq<Byte>)
    ensures Feed(s.(frames := [first] + s.frames), c) == Feed(s, c).(frames := [first] + Feed(s, c).frames)
  {
    hide Drain;
    if !s.stuck {
      var last := Drain(s.rest + c).frames;
      assert ([first] + s.frames) + last == [first] + (s.frames + last);
    }
  }

  lemma NothingFed(b: seq<Byte>)
    ensures [] + Drain(b).frames == Drain(b).frames
  {
  }

  lemma {:induction false} FeedAllMore(b: seq<Byte>, segments: seq<seq<Byte>>)
    ensures FeedAll(Drain(b), segments) == Drain(b + Join(segments))
    decreases |segments|
  {
    hide Drain, Feed;
    if segments == [] {
      assert b + [] == b;
    } else {
      DrainMore(b, segments[0]);
      FeedAllMore(b + segments[0], segments[1..]);
      assert b + segments[0] + Join(segments[1..]) == b + Join(segments);
    }
  }

  /** Frames and leftover depend on the bytes received, not on how they were cut up. */
  lemma SplitDoesNotMatter(segments: seq<seq<Byte>>, segments': seq<seq<Byte>>)
    requires Join(segments) == Join(segments')
    ensures FeedAll(Stream([], [], false), segments) == FeedAll(Stream([], [], false), segments')
  {
    hide FeedAll, Drain;
    FeedsLikeWhole(segments);
    FeedsLikeWhole(segments');
  }

  lemma FeedsLikeWhole(segments: seq<seq<Byte>>)
    ensures FeedAll(Stream([], [], false), segments) == Drain(Join(segments))
  {
    hide FeedAll;
    FeedAllMore([], segments);
    assert [] + Join(segments) == Join(segments);
  }

  /** No byte is lost or invented. */
  lemma {:induction false} DrainConserves(b: seq<Byte>)
    ensures Join(Drain(b).frames) + Drain(b).rest == b
    decreases |b|
  {
    hide Word, Join;
    JoinNothing(b);
    if |b| > 6 {
      var total := Word(b, 4);
      if |b| >= total && total > 0 {
        DrainConserves(b[total..]);
        var more := Drain(b[total..]);
        JoinCons(b[..total], more.frames, more.rest);
        Halves(b, total);
      }
    }
  }

  lemma Halves(b: seq<Byte>, n: nat)
    requires n <= |b|
    ensures b[..n] + b[n..] == b
  {
  }

  lemma JoinNothing(b: seq<Byte>)
    ensures Join([]) + b == b
  {
  }

  /** No whole frame stays behind. */
  lemma {:induction false} DrainStops(b: seq<Byte>)
    ensures var s := Drain(b);
      !s.stuck ==> |s.rest| <= 6 || |s.rest| < Word(s.rest, 4)
    decreases |b|
  {
    hide Word;
    if |b| > 6 {
      var total := Word(b, 4);
      if |b| >= total && total > 0 { DrainStops(b[total..]); }
    }
  }

  // --------------------------------------------------- where the loop hangs

  /** Where the frame that starts at `j` ends, if all of it is there. */
  function FrameEnd(b: seq<Byte>, j: nat): (r: Option<nat>)
    ensures r.Some? ==> j < r.value <= |b|
  {
    if |b| <= j + 6 || Word(b, j + 4) == 0 || j + Word(b, j + 4) > |b| then None
    else Some(j + Word(b, j + 4))
  }

  /** The positions of a stream at which a frame starts: its front, and the end of each whole frame. */
  predicate IsOffset(b: seq<Byte>, i: nat)
    decreases i
  {
    i == 0 || exists j: nat :: j < i && IsOffset(b, j) && FrameEnd(b, j) == Some(i)
  }

  predicate ZeroHeaderAt(b: seq<Byte>, i: nat)
  {
    |b| > i + 6 && Word(b, i + 4) == 0
  }

  lemma FrameEndShift(b: seq<Byte>, t: nat, j: nat)
    requires t <= |b|
    ensures FrameEnd(b, t + j) == (if FrameEnd(b[t..], j).None? then None else Some(t + FrameEnd(b[t..], j).value))
    ensures ZeroHeaderAt(b, t + j) <==> ZeroHeaderAt(b[t..], j)
  {
  }

  /** The offsets after the first frame are those of the stream behind it. */
  lemma {:induction false} OffsetBehind(b: seq<Byte>, i: nat)
    requires IsOffset(b, i) && i > 0
    ensures FrameEnd(b, 0).Some? && FrameEnd(b, 0).value <= i && IsOffset(b[FrameEnd(b, 0).value..], i - FrameEnd(b, 0).value)
    decreases i
  {
    hide FrameEnd;
    var j: nat :| j < i && IsOffset(b, j) && FrameEnd(b, j) == Some(i);
    if j > 0 {
      OffsetBehind(b, j);
      var t := FrameEnd(b, 0).value;
      FrameEndShift(b, t, j - t);
      assert IsOffset(b[t..], j - t);
    }
  }

  lemma {:induction false} OffsetAhead(b: seq<Byte>, i: nat)
    requires FrameEnd(b, 0).Some? && IsOffset(b[FrameEnd(b, 0).value..], i)
    ensures IsOffset(b, FrameEnd(b, 0).value + i)
    decreases i
  {
    hide FrameEnd;
    var t := FrameEnd(b, 0).value;
    if i == 0 {
      assert IsOffset(b, 0);
    } else {
      var j: nat :| j < i && IsOffset(b[t..], j) && FrameEnd(b[t..], j) == Some(i);
      OffsetAhead(b, j);
      FrameEndShift(b, t, j);
      assert IsOffset(b, t + j);
    }
  }

  /** The loop hangs exactly if, at a position where a frame starts, a header of more than six
      bytes declares length zero. */
  lemma {:induction false} HangsIff(b: seq<Byte>)
    ensures Drain(b).stuck <==> exists i: nat :: IsOffset(b, i) && ZeroHeaderAt(b, i)
    decreases |b|
  {
    hide Word;
    assert IsOffset(b, 0);
    var end := FrameEnd(b, 0);
    if end.Some? {
      var t := end.value;
      HangsIff(b[t..]);
      if Drain(b[t..]).stuck {
        var i: nat :| IsOffset(b[t..], i) && ZeroHeaderAt(b[t..], i);
        OffsetAhead(b, i);
        FrameEndShift(b, t, i);
        assert IsOffset(b, t + i) && ZeroHeaderAt(b, t + i);
      } else {
        forall i: nat | IsOffset(b, i) ensures !ZeroHeaderAt(b, i) {
          if i > 0 {
            OffsetBehind(b, i);
            FrameEndShift(b, t, i - t);
          }
        }
      }
    } else {
      forall i: nat | IsOffset(b, i) ensures i == 0 {
        if i > 0 { OffsetBehind(b, i); }
      }
      assert ZeroHeaderAt(b, 0) ==> Drain(b).stuck;
    }
  }

  /** A stream in which every header at the start of a frame declares a length is drained. */
  lemma LengthsSuffice(b: seq<Byte>)
    requires forall i: nat :: IsOffset(b, i) && i + 6 < |b| ==> Word(b, i + 4) > 0
    ensures !Drain(b).stuck
  {
    hide Word, Drain, IsOffset;
    HangsIff(b);
  }

  /** Seven bytes are enough to hang the loop. */
  lemma SevenBytesHang(b: seq<Byte>)
    requires |b| >= 7 && b[4] == 0 && b[5] == 0
    ensures Drain(b).stuck && Drain(b).frames == []
  {
  }

  lemma JoinCons(first: seq<Byte>, frames: seq<seq<Byte>>, rest: seq<Byte>)
    ensures Join([first] + frames) + rest == first + (Join(frames) + rest)
  {
    assert ([first] + frames)[1..] == frames;
  }

  /** Every frame handed on has the length that its own header declares. */
  lemma {:induction false} FramesAreWhole(b: seq<Byte>, i: nat)
    requires i < |Drain(b).frames|
    ensures var frame := Drain(b).frames[i]; frame != [] && (|frame| >= 6 ==> |frame| == Word(frame, 4))
    decreases |b|
  {
    if i > 0 {
      FramesAreWhole(b[Word(b, 4)..], i - 1);
    } else {
      var frame := b[..Word(b, 4)];
      assert |frame| >= 6 ==> Word(frame, 4) == Word(b, 4);
    }
  }

  /** The client loop.  An empty segment is the end of the connection. */
  method HandleClient(segments: seq<seq<Byte>>) returns (s: Stream, read: nat)
    ensures read <= |segments| && (s.stuck || read == |segments| || segments[read] == [])
    ensures s == Drain(Join(segments[..read]))
    ensures forall i :: 0 <= i < read ==> segments[i] != []
  {
    hide Drain;
    var frames: seq<seq<Byte>> := [];
    var data: seq<Byte> := [];
    read := 0;
    DrainsNothing();
    while read < |segments| && segments[read] != []
      invariant read <= |segments|
      invariant Drain(Join(segments[..read])) == Stream(frames, data, false)
      invariant forall i :: 0 <= i < read ==> segments[i] != []
    {
      JoinLast(segments[..read], segments[read]);
      assert segments[..read + 1] == segments[..read] + [segments[read]];
      DrainMore(Join(segments[..read]), segments[read]);
      data := data + segments[read];
      read := read + 1;
      var more := TakeFrames(data);
      frames, data := frames + more.frames, more.rest;
      if more.stuck {
        return Stream(frames, data, true), read;
      }
    }
    s := Stream(frames, data, false);
  }

  lemma DrainsNothing()
    ensures Drain(Join([])) == Stream([], [], false)
  {
  }

  lemma {:induction false} JoinLast(parts: seq<seq<Byte>>, last: seq<Byte>)
    ensures Join(parts + [last]) == Join(parts) + last
  {
    if parts == [] {
      assert parts + [last] == [last];
      assert [last][1..] == [];
      assert last + [] == last;
    } else {
      JoinLast(parts[1..], last);
      assert (parts + [last])[1..] == parts[1..] + [last];
    }
  }

  /** The inner loop, which hands each frame to the parser. */
  method TakeFrames(buffer: seq<Byte>) returns (s: Stream)
    ensures s == Drain(buffer)
  {
    hide Word;
    var data := buffer;
    var frames: seq<seq<Byte>> := [];
    NothingFed(data);
    while |data| > 6
      invariant Drain(buffer) == Drain(data).(frames := frames + Drain(data).frames)
      decreases |data|
    {
      var total := Word(data, 4);
      if |data| < total {
        break;
      }
      if total == 0 {
        assert frames + [] == frames;
        return Stream(frames, data, true);
      }
      ghost var more := Drain(data[total..]).frames;
      assert frames + ([data[..total]] + more) == frames + [data[..total]] + more;
      frames := frames + [data[..total]];
      data := data[total..];
    }
    assert frames + [] == frames;
    s := Stream(frames, data, false);
  }

  // ------------------------------------------------------------ frame parsing

  /** The chunk table from position `idx` on. */
  function Chunks(data: seq<Byte>, idx: nat, found: map<nat, seq<Byte>>): map<nat, seq<Byte>>
    decreases |data| - idx
  {
    if idx + 6 > |data| then found
    else
      var length := Word(data, idx + 4);
      if length < 6 then found
      else Chunks(data, idx + length, found[Word(data, idx + 2) := Slice(data, idx + 6, idx + length)])
  }

  function Lookup(m: map<nat, seq<Byte>>, k: nat): seq<Byte>
  {
    if k in m then m[k] else []
  }

  /** (call id, SIP message), as bytes; `None` for a frame of another protocol. */
  method ParseHep3(data: seq<Byte>) returns (r: Option<(seq<Byte>, seq<Byte>)>)
    ensures r.Some? <==> Slice(data, 0, 4) == [0x48, 0x45, 0x50, 0x33]
    ensures r.Some? ==>
      r.value == (Lookup(Chunks(data, 6, map[]), 0x0011), Lookup(Chunks(data, 6, map[]), 0x000f))
  {
    hide Word, Slice;
    if Slice(data, 0, 4) != [0x48, 0x45, 0x50, 0x33] {
      return None;
    }
    var idx := 6;
    var chunks: map<nat, seq<Byte>> := map[];
    while idx < |data|
      invariant Chunks(data, idx, chunks) == Chunks(data, 6, map[])
      decreases |data| - idx
    {
      if idx + 6 > |data| {
        break;
      }
      var chunkType := Word(data, idx + 2);
      var chunkLen := Word(data, idx + 4);
      if chunkLen < 6 {
        break;
      }
      chunks := chunks[chunkType := Slice(data, idx + 6, idx + chunkLen)];
      idx := idx + chunkLen;
    }
    r := Some((Lookup(chunks, 0x0011), Lookup(chunks, 0x000f)));
  }

  /** A chunk as a sender writes it. */
  datatype Chunk = Chunk(vendor: nat, kind: nat, payload: seq<Byte>)

  predicate ChunkFits(c: Chunk)
  {
    c.vendor < 0x1_0000 && c.kind < 0x1_0000 && |c.payload| + 6 < 0x1_0000
  }

  function WordBytes(n: nat): seq<Byte>
    requires n < 0x1_0000
  {
    [n / 256, n % 256]
  }

  function WriteChunk(c: Chunk): (r: seq<Byte>)
    requires ChunkFits(c)
    ensures |r| == 6 + |c.payload| && r[6..] == c.payload
    ensures Word(r, 2) == c.kind && Word(r, 4) == |r|
  {
    WordBytes(c.vendor) + WordBytes(c.kind) + WordBytes(|c.payload| + 6) + c.payload
  }

  function WriteChunks(cs: seq<Chunk>): seq<Byte>
    requires forall c :: c in cs ==> ChunkFits(c)
  {
    if cs == [] then [] else WriteChunk(cs[0]) + WriteChunks(cs[1..])
  }

  /** The last chunk of each kind wins. */
  function Latest(cs: seq<Chunk>, found: map<nat, seq<Byte>>): map<nat, seq<Byte>>
  {
    if cs == [] then found else Latest(cs[1..], found[cs[0].kind := cs[0].payload])
  }

  /** Bytes at which the chunk loop stops: too few for a chunk header, or a header that declares
      less than its own six bytes. */
  predicate EndsChunks(tail: seq<Byte>)
  {
    |tail| < 6 || Word(tail, 4) < 6
  }

  /** Written chunks are read back, after any header and with any tail that ends the loop. */
  lemma {:induction false} ChunksReadBack(head: seq<Byte>, cs: seq<Chunk>, tail: seq<Byte>, found: map<nat, seq<Byte>>)
    requires (forall c :: c in cs ==> ChunkFits(c)) && EndsChunks(tail)
    ensures Chunks(head + WriteChunks(cs) + tail, |head|, found) == Latest(cs, found)
    decreases |cs|
  {
    hide WriteChunk, ChunkFits;
    if cs == [] {
      TailEnds(head, tail, found);
      assert head + WriteChunks(cs) + tail == head + tail;
    } else {
      var first, rest := WriteChunk(cs[0]), WriteChunks(cs[1..]);
      var data := head + WriteChunks(cs) + tail;
      Assoc(head, first, rest);
      assert data == (head + first) + rest + tail;
      ChunkAt(head, first, rest + tail);
      Assoc(head + first, rest, tail);
      ChunksReadBack(head + first, cs[1..], tail, found[cs[0].kind := cs[0].payload]);
    }
  }

  lemma TailEnds(head: seq<Byte>, tail: seq<Byte>, found: map<nat, seq<Byte>>)
    requires EndsChunks(tail)
    ensures Chunks(head + tail, |head|, found) == found
  {
    if |tail| >= 6 { assert Word(head + tail, |head| + 4) == Word(tail, 4); }
  }

  /** A last chunk that is cut off after its header keeps what there is of its payload. */
  lemma {:induction false} CutChunk(head: seq<Byte>, cs: seq<Chunk>, c: Chunk, k: nat, found: map<nat, seq<Byte>>)
    requires (forall x :: x in cs ==> ChunkFits(x)) && ChunkFits(c) && k <= |c.payload|
    ensures Chunks(head + WriteChunks(cs) + WriteChunk(c)[..6 + k], |head|, found) == Latest(cs, found)[c.kind := c.payload[..k]]
    decreases |cs|
  {
    hide WriteChunk, ChunkFits, Chunks;
    var cut := WriteChunk(c)[..6 + k];
    if cs == [] {
      CutLast(head, c, k, found);
      assert head + WriteChunks(cs) + cut == head + cut;
    } else {
      var first, rest := WriteChunk(cs[0]), WriteChunks(cs[1..]);
      assert head + (first + rest) + cut == head + first + (rest + cut);
      ChunkStep(head, cs[0], rest + cut, found);
      Assoc(head + first, rest, cut);
      CutChunk(head + first, cs[1..], c, k, found[cs[0].kind := cs[0].payload]);
    }
  }

  lemma ChunkStep(head: seq<Byte>, c: Chunk, rest: seq<Byte>, found: map<nat, seq<Byte>>)
    requires ChunkFits(c)
    ensures var data := head + WriteChunk(c) + rest;
      Chunks(data, |head|, found) == Chunks(data, |head + WriteChunk(c)|, found[c.kind := c.payload])
  {
    hide WriteChunk, ChunkFits;
    ChunkAt(head, WriteChunk(c), rest);
  }

  lemma CutLast(head: seq<Byte>, c: Chunk, k: nat, found: map<nat, seq<Byte>>)
    requires ChunkFits(c) && k <= |c.payload|
    ensures Chunks(head + WriteChunk(c)[..6 + k], |head|, found) == found[c.kind := c.payload[..k]]
  {
    hide WriteChunk, ChunkFits;
    var cut := WriteChunk(c)[..6 + k];
    assert head + cut + [] == head + cut;
    assert Word(cut, 2) == c.kind && Word(cut, 4) == 6 + |c.payload|;
    CutAt(head, cut, |c.payload|);
    assert cut[6..] == c.payload[..k];
  }

  lemma CutAt(head: seq<Byte>, cut: seq<Byte>, n: nat)
    requires 6 <= |cut| <= 6 + n
    ensures var data := head + cut + [];
      && Word(data, |head| + 2) == Word(cut, 2) && Word(data, |head| + 4) == Word(cut, 4)
      && Slice(data, |head| + 6, |head| + 6 + n) == cut[6..]
  {
  }

  lemma ChunkAt(head: seq<Byte>, chunk: seq<Byte>, rest: seq<Byte>)
    requires |chunk| >= 6
    ensures var data := head + chunk + rest;
      && Word(data, |head| + 2) == Word(chunk, 2) && Word(data, |head| + 4) == Word(chunk, 4)
      && Slice(data, |head| + 6, |head| + |chunk|) == chunk[6..]
  {
  }

  /** The payload of the last chunk of a kind, or nothing. */
  function LastPayload(cs: seq<Chunk>, kind: nat): seq<Byte>
  {
    if cs == [] then []
    else if cs[|cs| - 1].kind == kind then cs[|cs| - 1].payload
    else LastPayload(cs[..|cs| - 1], kind)
  }

  lemma {:induction false} LatestSnoc(cs: seq<Chunk>, c: Chunk, found: map<nat, seq<Byte>>)
    ensures Latest(cs + [c], found) == Latest(cs, found)[c.kind := c.payload]
    decreases |cs|
  {
    if cs == [] {
      assert cs + [c] == [c];
      assert [c][1..] == [];
    } else {
      ConcatTail(cs, [c]);
      LatestSnoc(cs[1..], c, found[cs[0].kind := cs[0].payload]);
    }
  }

  lemma {:induction false} LatestIsLast(cs: seq<Chunk>, kind: nat)
    ensures Lookup(Latest(cs, map[]), kind) == LastPayload(cs, kind)
    decreases |cs|
  {
    hide Latest;
    if cs == [] {
      assert Latest([], map[]) == map[] by { NothingWritten(); }
    } else {
      var n := |cs| - 1;
      LatestIsLast(cs[..n], kind);
      LatestSnoc(cs[..n], cs[n], map[]);
      assert cs == cs[..n] + [cs[n]];
    }
  }

  lemma NothingWritten()
    ensures Latest([], map[]) == map[]
  {
  }

  /** A HEP3 message as a capture agent writes it: the call id is the last chunk 0x0011 and the
      SIP message the last chunk 0x000f, whatever else is in between, and nothing where there is
      no such chunk. */
  method ParseWritten(length: seq<Byte>, cs: seq<Chunk>, tail: seq<Byte>) returns (r: Option<(seq<Byte>, seq<Byte>)>)
    requires |length| == 2 && (forall c :: c in cs ==> ChunkFits(c)) && EndsChunks(tail)
    ensures r == Some((LastPayload(cs, 0x0011), LastPayload(cs, 0x000f)))
  {
    hide Chunks, WriteChunks, ChunkFits;
    var head := [0x48, 0x45, 0x50, 0x33] + length;
    var data := head + WriteChunks(cs) + tail;
    assert Slice(data, 0, 4) == [0x48, 0x45, 0x50, 0x33];
    r := ParseHep3(data);
    ChunksReadBack(head, cs, tail, map[]);
    LatestIsLast(cs, 0x0011);
    LatestIsLast(cs, 0x000f);
  }
}
