/**
 The reliable carrier: a byte stream that arrives in chunks of any size, cut back into
 the frames that were written to it.
 */
module StreamReader {
  import opened Bytes
  import opened Wire

  /** A run of more empty chunks than this ends the stream. */
  const MAX_EMPTY_READS := 64

  // ---- what a chunked stream is worth ----------------------------------------------

  /** The bytes a reader gets out of `chunks` after `run` empty ones: all, up to a storm of empty chunks. */
  function Usable(chunks: seq<bytes>, run: nat): bytes {
    if |chunks| == 0 then []
    else if chunks[0] != [] then chunks[0] + Usable(chunks[1..], 0)
    else if run + 1 > MAX_EMPTY_READS then []
    else Usable(chunks[1..], run + 1)
  }

  /** Some of the `n` chunks from `lo` on is not empty. */
  ghost predicate SomeIn(chunks: seq<bytes>, lo: int, n: int) {
    exists k :: 0 <= lo <= k < lo + n && k < |chunks| && chunks[k] != []
  }

  /** No 65 empty chunks in a row, counting the `run` empty ones already read. */
  ghost predicate Calm(chunks: seq<bytes>, run: nat) {
    && run <= MAX_EMPTY_READS
    && (65 - run <= |chunks| ==> SomeIn(chunks, 0, 65 - run))
    && forall i | 0 <= i <= |chunks| - 65 :: SomeIn(chunks, i, 65)
  }

  lemma CalmTail(chunks: seq<bytes>, run: nat)
    requires Calm(chunks, run) && |chunks| > 0
    ensures chunks[0] != [] ==> Calm(chunks[1..], 0)
    ensures chunks[0] == [] ==> run + 1 <= MAX_EMPTY_READS && Calm(chunks[1..], run + 1)
  {
    var rest := chunks[1..];
    forall i | 0 <= i <= |rest| - 65 ensures SomeIn(rest, i, 65) {
      SomeTail(chunks, i + 1, 65);
    }
    if chunks[0] == [] && 65 - run <= |chunks| {
      SomeLater(chunks, 65 - run);
    } else if |chunks| > 65 {
      SomeTail(chunks, 1, 65);
    }
  }

  lemma SomeTail(chunks: seq<bytes>, lo: int, n: int)
    requires SomeIn(chunks, lo, n) && lo > 0
    ensures SomeIn(chunks[1..], lo - 1, n)
  {
    var k :| 0 <= lo <= k < lo + n && k < |chunks| && chunks[k] != [];
    assert chunks[1..][k - 1] == chunks[k];
  }

  lemma SomeLater(chunks: seq<bytes>, n: int)
    requires |chunks| > 0 && chunks[0] == [] && SomeIn(chunks, 0, n)
    ensures SomeIn(chunks[1..], 0, n - 1) && n > 1
  {
    var k :| 0 <= k < n && k < |chunks| && chunks[k] != [];
    assert chunks[1..][k - 1] == chunks[k];
  }

  /** Without such a run every byte is usable, however the stream is cut. */
  lemma {:induction false} CalmIsWhole(chunks: seq<bytes>, run: nat)
    requires Calm(chunks, run)
    ensures Usable(chunks, run) == Concat(chunks)
  {
    hide Calm;
    if |chunks| > 0 {
      CalmTail(chunks, run);
      CalmIsWhole(chunks[1..], if chunks[0] == [] then run + 1 else 0);
    }
  }

  lemma {:induction false} AllEmptyEnds(chunks: seq<bytes>, n: nat, run: nat)
    requires n <= |chunks| && run <= MAX_EMPTY_READS < run + n && forall i | 0 <= i < n :: chunks[i] == []
    ensures Usable(chunks, run) == []
  {
    if run < MAX_EMPTY_READS {
      AllEmptyEnds(chunks[1..], n - 1, run + 1);
    }
  }

  /** A run of 65 empty chunks ends the stream there, whatever comes after it. */
  lemma {:induction false} StormEnds(before: seq<bytes>, storm: seq<bytes>, after: seq<bytes>, run: nat)
    requires run <= MAX_EMPTY_READS && Calm(before, run)
    requires |storm| == 65 && forall i | 0 <= i < 65 :: storm[i] == []
    ensures Usable(before + storm + after, run) == Concat(before)
  {
    hide Calm;
    var all := before + storm + after;
    if |before| == 0 {
      assert forall i | 0 <= i < 65 :: all[i] == storm[i];
      AllEmptyEnds(all, 65, run);
    } else {
      assert all[1..] == before[1..] + storm + after;
      CalmTail(before, run);
      StormEnds(before[1..], storm, after, if before[0] == [] then run + 1 else 0);
    }
  }

  // ---- frames in a byte string ---------------------------------------------------------

  /** Why the loop over frames stopped: the stream ended inside (or before) a frame, or one was unreadable. */
  datatype End = CutOff | Unreadable

  function ParseAll(b: bytes): (seq<WtFrame>, End)
    decreases |b|
  {
    if |b| < HEADER_LEN || |b| < HEADER_LEN + HeaderLength(b) then ([], CutOff)
    else
      var n := HEADER_LEN + HeaderLength(b);
      var f := ParseFrame(b[..n]);
      if f.None? then ([], Unreadable)
      else
        var (rest, end) := ParseAll(b[n..]);
        ([f.value] + rest, end)
  }

  function EncodeAll(fs: seq<WtFrame>): bytes {
    if |fs| == 0 then [] else EncodeFrame(fs[0]) + EncodeAll(fs[1..])
  }

  lemma HeaderReads(f: WtFrame, tail: bytes)
    requires FitsFrame(f)
    ensures var b := EncodeFrame(f) + tail;
      |b| >= HEADER_LEN && HeaderLength(b) == |f.payload| && b[..HEADER_LEN + |f.payload|] == EncodeFrame(f)
  {
    FrameLayout(f);
    LeFields(|f.payload|, 4);
    var b := EncodeFrame(f) + tail;
    assert b[14..18] == EncodeFrame(f)[14..18];
  }

  lemma PrefixWaits(g: WtFrame, cut: nat)
    requires FitsFrame(g) && cut < |EncodeFrame(g)|
    ensures ParseAll(EncodeFrame(g)[..cut]) == ([], CutOff)
  {
    FrameLayout(g);
    LeFields(|g.payload|, 4);
    if cut >= HEADER_LEN {
      assert EncodeFrame(g)[..cut][14..18] == EncodeFrame(g)[14..18];
    }
  }

  /** Frames are self-delimiting: written one after another and cut off inside the next, they read back exactly. */
  lemma {:induction false} FramesReadBack(fs: seq<WtFrame>, g: WtFrame, cut: nat)
    requires (forall f | f in fs :: FitsFrame(f)) && FitsFrame(g) && cut < |EncodeFrame(g)|
    ensures ParseAll(EncodeAll(fs) + EncodeFrame(g)[..cut]) == (fs, CutOff)
  {
    hide EncodeFrame, ParseFrame, HeaderLength;
    var tail := EncodeFrame(g)[..cut];
    if |fs| == 0 {
      PrefixWaits(g, cut);
      assert EncodeAll(fs) + tail == tail;
    } else {
      var rest := EncodeAll(fs[1..]) + tail;
      var b := EncodeAll(fs) + tail;
      assert b == EncodeFrame(fs[0]) + rest;
      HeaderReads(fs[0], rest);
      FrameRoundTrip(fs[0], [], 0);
      FrameSize(fs[0]);
      assert b[HEADER_LEN + HeaderLength(b)..] == rest;
      FramesReadBack(fs[1..], g, cut);
      assert [fs[0]] + fs[1..] == fs;
    }
  }

  lemma FrameSize(f: WtFrame)
    ensures |EncodeFrame(f)| == HEADER_LEN + |f.payload|
  {}

  lemma {:induction false} ConcatSize(parts: seq<bytes>)
    requires forall i | 0 <= i < |parts| :: parts[i] != []
    ensures |Concat(parts)| >= |parts|
  {
    if |parts| > 0 {
      ConcatSize(parts[1..]);
    }
  }

  // ---- the reader --------------------------------------------------------------------------

  /** One stream being read: the chunks still to come, and what was read beyond the last request. */
  class Reader {
    var chunks: seq<bytes>
    var queued: seq<bytes>
    var queuedBytes: nat
    var emptyReads: nat

    ghost predicate Valid()
      reads this
    {
      && queuedBytes == |Concat(queued)|
      && (forall i | 0 <= i < |queued| :: queued[i] != [])
      && (queued != [] ==> emptyReads == 0)
    }

    /** Everything this stream can still deliver. */
    ghost function Rest(): bytes
      reads this
    {
      Concat(queued) + Usable(chunks, emptyReads)
    }

    constructor (chunks: seq<bytes>)
      ensures Valid() && Rest() == Usable(chunks, 0)
    {
      this.chunks := chunks;
      queued := [];
      queuedBytes := 0;
      emptyReads := 0;
      new;
      assert [] + Usable(chunks, 0) == Usable(chunks, 0);
    }

    /** Moves up to `room` bytes from the queue's head into `out` at `off`. */
    method TakeQueued(out: array<bv8>, off: nat) returns (take: nat)
      requires Valid() && queuedBytes > 0 && off < out.Length
      modifies `queued, `queuedBytes, `emptyReads, out
      ensures Valid() && 0 < take <= out.Length - off && take <= |old(Rest())|
      ensures out[..off] == old(out[..off]) && out[off..off + take] == old(Rest())[..take]
      ensures Rest() == old(Rest())[take..]
    {
      hide Usable;
      assert queued != [];
      var head := queued[0];
      take := if |head| < out.Length - off then |head| else out.Length - off;
      forall k | 0 <= k < take {
        out[off + k] := head[k];
      }
      queuedBytes := queuedBytes - take;
      emptyReads := 0;
      if take == |head| {
        queued := queued[1..];
      } else {
        queued := [head[take..]] + queued[1..];
        assert Concat(queued) == head[take..] + Concat(queued[1..]);
      }
      assert old(Rest()) == head + (Concat(old(queued[1..])) + Usable(chunks, 0));
    }

    /** One read: false at the end of the stream or of the reader's patience. */
    method Fill() returns (ok: bool)
      requires Valid() && queuedBytes == 0
      modifies `chunks, `queued, `queuedBytes, `emptyReads
      ensures ok ==> Valid() && Rest() == old(Rest()) && |chunks| < old(|chunks|)
      ensures !ok ==> old(Rest()) == []
    {
      NothingQueued();
      if |chunks| == 0 {
        return false;
      }
      var value := chunks[0];
      chunks := chunks[1..];
      if |value| == 0 {
        emptyReads := emptyReads + 1;
        if emptyReads > MAX_EMPTY_READS {
          return false;
        }
        return true;
      }
      emptyReads := 0;
      queued := queued + [value];
      queuedBytes := queuedBytes + |value|;
      assert queued[1..] == [];
      return true;
    }

    lemma NothingQueued()
      requires Valid() && queuedBytes == 0
      ensures queued == []
    {
      ConcatSize(queued);
    }

    /** Exactly the next `n` bytes, or nothing if the stream has fewer left. */
    method ReadExact(n: nat) returns (r: Option<bytes>)
      requires Valid()
      modifies this
      ensures n <= |old(Rest())| ==> r == Some(old(Rest())[..n]) && Valid() && Rest() == old(Rest())[n..]
      ensures n > |old(Rest())| ==> r == None
    {
      hide Usable, Concat, this.Valid, this.Rest;
      var out := new bv8[n];
      var off := 0;
      ghost var all := Rest();
      while off < n
        invariant 0 <= off <= n && off <= |all|
        invariant Valid() && Rest() == all[off..]
        invariant out[..off] == all[..off]
        decreases |chunks|, n - off
      {
        if queuedBytes > 0 {
          var take := TakeQueued(out, off);
          assert all[off..][take..] == all[off + take..];
          assert out[..off + take] == out[..off] + out[off..off + take];
          assert all[..off + take] == all[..off] + all[off..][..take];
          off := off + take;
        } else {
          var ok := Fill();
          if !ok {
            return None;
          }
        }
      }
      assert out[..n] == out[..];
      return Some(out[..]);
    }

    /** Frame after frame until the stream ends or holds something this build cannot read. */
    method ReadFrames() returns (frames: seq<WtFrame>, end: End)
      requires Valid()
      modifies this
      ensures (frames, end) == ParseAll(old(Rest()))
    {
      hide ParseFrame, HeaderLength, Usable, this.Valid, this.Rest;
      frames := [];
      ghost var all := Rest();
      assert [] + ParseAll(all).0 == ParseAll(all).0;
      while true
        invariant Valid()
        invariant ParseAll(all) == (frames + ParseAll(Rest()).0, ParseAll(Rest()).1)
        decreases |Rest()|
      {
        ghost var b := Rest();
        var head := ReadExact(HEADER_LEN);
        if head.None? {
          assert frames + [] == frames;
          return frames, CutOff;
        }
        HeadLength(b);
        var len := HeaderLength(head.value);
        var payload := ReadExact(len);
        if payload.None? {
          assert frames + [] == frames;
          return frames, CutOff;
        }
        Joined(b, len);
        var frame := ParseFrame(head.value + payload.value);
        if frame.None? {
          assert frames + [] == frames;
          return frames, Unreadable;
        }
        assert frames + ([frame.value] + ParseAll(Rest()).0) == (frames + [frame.value]) + ParseAll(Rest()).0;
        frames := frames + [frame.value];
      }
    }
  }

  lemma HeadLength(b: bytes)
    requires |b| >= HEADER_LEN
    ensures HeaderLength(b[..HEADER_LEN]) == HeaderLength(b)
  {
    assert b[..HEADER_LEN][14..18] == b[14..18];
  }

  lemma Joined(b: bytes, len: nat)
    requires |b| >= HEADER_LEN + len
    ensures b[..HEADER_LEN] + b[HEADER_LEN..][..len] == b[..HEADER_LEN + len]
    ensures b[HEADER_LEN..][len..] == b[HEADER_LEN + len..]
  {}

  /**
   Chunk independence: however the bytes of some frames, and the start of one more, are cut into chunks, with at
   most 64 empty ones in a row, the reader gets exactly those frames.
   */
  method ReadChunked(chunks: seq<bytes>, ghost fs: seq<WtFrame>, ghost g: WtFrame, ghost cut: nat)
    returns (frames: seq<WtFrame>, end: End)
    requires (forall f | f in fs :: FitsFrame(f)) && FitsFrame(g) && cut < |EncodeFrame(g)|
    requires Calm(chunks, 0) && Concat(chunks) == EncodeAll(fs) + EncodeFrame(g)[..cut]
    ensures frames == fs && end == CutOff
  {
    hide ParseAll, Calm;
    CalmIsWhole(chunks, 0);
    FramesReadBack(fs, g, cut);
    var reader := new Reader(chunks);
    frames, end := reader.ReadFrames();
  }

  /** Two ways of cutting one byte string, valid frames or not, read alike. */
  lemma ChunkingIsInvisible(xs: seq<bytes>, ys: seq<bytes>)
    requires Calm(xs, 0) && Calm(ys, 0) && Concat(xs) == Concat(ys)
    ensures ParseAll(Usable(xs, 0)) == ParseAll(Usable(ys, 0))
  {
    CalmIsWhole(xs, 0);
    CalmIsWhole(ys, 0);
  }
}
