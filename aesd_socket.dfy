/** The packet loop of aesdsocket's handle_client: bytes received from one
    client are gathered into `packet`; each newline appends the whole packet to
    the data file and echoes the entire file back to the client.

    The data file and the bytes sent are sequences; recv results are given as
    the sequence of chunks it returns, and the first failing realloc as the
    index of the byte it was growing the packet for. */
module AesdSocket {
  import opened Bytes

  /** The session, one step of the byte loop at a time: the data file, the
      pending packet, every byte sent back so far and the packets flushed. */
  datatype Session = Session(file: seq<byte>, packet: seq<byte>, sent: seq<byte>, flushed: seq<seq<byte>>)

  function Start(file: seq<byte>): Session
  {
    Session(file, [], [], [])
  }

  /** One pass of the inner loop, for received byte `c`. */
  function Step(s: Session, c: byte): Session
  {
    var packet := s.packet + [c];
    if c == NEWLINE then
      var file := s.file + packet;
      Session(file, [], s.sent + file, s.flushed + [packet])
    else
      Session(s.file, packet, s.sent, s.flushed)
  }

  /** The session after the bytes of `stream`, in order. */
  function Run(s: Session, stream: seq<byte>): Session
  {
    if stream == [] then s
    else Step(Run(s, stream[..|stream| - 1]), stream[|stream| - 1])
  }

  /** What the client is sent when packets `ps` are flushed, in order, onto a
      file holding `file`: after each one, the whole file as it then is. */
  function Echoes(file: seq<byte>, ps: seq<seq<byte>>): seq<byte>
  {
    if ps == [] then []
    else Echoes(file, ps[..|ps| - 1]) + (file + Concat(ps))
  }

  /** Processing one more byte is one more Step. */
  lemma RunSnoc(s: Session, a: seq<byte>, c: byte)
    ensures Run(s, a + [c]) == Step(Run(s, a), c)
  {
    assert (a + [c])[..|a|] == a;
  }

  /** The terminated part of `w` goes to the file, the rest stays pending:
      one Step keeps that so. */
  lemma StepSplit(r: Session, c: byte, base: seq<byte>, w: seq<byte>)
    requires r.file == base + w[..LastNewlineEnd(w)] && r.packet == w[LastNewlineEnd(w)..]
    ensures Step(r, c).file == base + (w + [c])[..LastNewlineEnd(w + [c])]
    ensures Step(r, c).packet == (w + [c])[LastNewlineEnd(w + [c])..]
  {
    var n := LastNewlineEnd(w);
    var w' := w + [c];
    LastNewlineEndSnoc(w, c);
    var t := Step(r, c);
    if c == NEWLINE {
      assert t.file == r.file + (r.packet + [c]) && t.packet == [];
      calc {
        t.file;
        base + w[..n] + (w[n..] + [c]);
        { assert w[..n] + w[n..] == w; }
        base + w';
        { assert w'[..|w'|] == w'; }
        base + w'[..LastNewlineEnd(w')];
      }
      assert w'[|w'|..] == [];
    } else {
      assert t.file == r.file && t.packet == r.packet + [c];
      assert w'[..n] == w[..n];
      assert w'[n..] == w[n..] + [c];
    }
  }

  /** The data file under any byte stream, from a session whose pending packet
      holds no newline. With `w` the pending packet followed by the stream and
      `n` the end of its last newline: the file gains exactly `w[..n]`, and the
      packet is the unterminated rest `w[n..]`, so it again holds no newline. */
  lemma {:induction false} RunFile(s: Session, stream: seq<byte>)
    requires NoNewline(s.packet)
    ensures Run(s, stream).file == s.file + (s.packet + stream)[..LastNewlineEnd(s.packet + stream)]
    ensures Run(s, stream).packet == (s.packet + stream)[LastNewlineEnd(s.packet + stream)..]
    ensures NoNewline(Run(s, stream).packet)
  {
    LastNewlineEndSplits(s.packet + stream);
    if stream == [] {
      assert s.packet + stream == s.packet;
      LastNewlineEndNone(s.packet);
    } else {
      var pre := stream[..|stream| - 1];
      var c := stream[|stream| - 1];
      assert stream == pre + [c];
      assert s.packet + stream == (s.packet + pre) + [c];
      RunFile(s, pre);
      RunSnoc(s, pre, c);
      StepSplit(Run(s, pre), c, s.file, s.packet + pre);
    }
  }

  /** The packets flushed since session `s`. */
  function FlushedSince(s: Session, stream: seq<byte>): seq<seq<byte>>
  {
    var r := Run(s, stream);
    if |s.flushed| <= |r.flushed| then r.flushed[|s.flushed|..] else []
  }

  /** One Step flushes its packet exactly on a newline. */
  lemma FlushedSinceSnoc(s: Session, pre: seq<byte>, c: byte)
    requires |s.flushed| <= |Run(s, pre).flushed|
    ensures FlushedSince(s, pre + [c]) ==
      if c == NEWLINE then FlushedSince(s, pre) + [Run(s, pre).packet + [c]] else FlushedSince(s, pre)
  {
    RunSnoc(s, pre, c);
    var r := Run(s, pre);
    var m := |s.flushed|;
    if c == NEWLINE {
      var p := r.packet + [c];
      assert Step(r, c).flushed == r.flushed + [p];
      assert (r.flushed + [p])[m..] == r.flushed[m..] + [p];
    } else {
      assert Step(r, c).flushed == r.flushed;
    }
  }

  /** One Step flushes its packet exactly on a newline, and the flushed packet is
      a complete command. */
  lemma StepFlushes(s: Session, pre: seq<byte>, c: byte)
    requires NoNewline(Run(s, pre).packet)
    requires |s.flushed| <= |Run(s, pre).flushed|
    ensures FlushedSince(s, pre + [c]) ==
      if c == NEWLINE then FlushedSince(s, pre) + [Run(s, pre).packet + [c]] else FlushedSince(s, pre)
    ensures c == NEWLINE ==> IsCommand(Run(s, pre).packet + [c])
  {
    FlushedSinceSnoc(s, pre, c);
    var p := Run(s, pre).packet + [c];
    assert p[..|p| - 1] == Run(s, pre).packet;
  }

  /** The packets a stream flushes, in stream order, are together exactly the
      terminated part `w[..n]` of the pending packet followed by the stream. */
  lemma {:induction false} RunFlushed(s: Session, stream: seq<byte>)
    requires NoNewline(s.packet)
    ensures Concat(FlushedSince(s, stream)) == (s.packet + stream)[..LastNewlineEnd(s.packet + stream)]
  {
    if stream == [] {
      assert s.packet + stream == s.packet;
      LastNewlineEndNone(s.packet);
      assert FlushedSince(s, stream) == [];
    } else {
      var pre := stream[..|stream| - 1];
      var c := stream[|stream| - 1];
      assert stream == pre + [c];
      RunFlushed(s, pre);
      RunFile(s, pre);
      FlushesPerNewline(s, pre);
      StepFlushes(s, pre, c);
      FlushedConcatStep(FlushedSince(s, pre), Run(s, pre).packet, s.packet + pre, c);
      assert s.packet + stream == s.packet + pre + [c];
    }
  }

  /** The step of RunFlushed, on the flushed packets `fs`, the pending packet
      `p` and the bytes `w` seen so far. */
  lemma FlushedConcatStep(fs: seq<seq<byte>>, p: seq<byte>, w: seq<byte>, c: byte)
    requires Concat(fs) == w[..LastNewlineEnd(w)] && p == w[LastNewlineEnd(w)..]
    ensures Concat(if c == NEWLINE then fs + [p + [c]] else fs) == (w + [c])[..LastNewlineEnd(w + [c])]
  {
    var n := LastNewlineEnd(w);
    LastNewlineEndSnoc(w, c);
    if c == NEWLINE {
      ConcatSnoc(fs, p + [c]);
      assert w[..n] + w[n..] == w;
      assert (w + [c])[..|w| + 1] == w + [c];
    } else {
      assert (w + [c])[..n] == w[..n];
    }
  }

  /** Every packet a stream flushes is a complete command: it ends with its
      only newline. */
  lemma {:induction false} RunFlushedCommands(s: Session, stream: seq<byte>)
    requires NoNewline(s.packet)
    ensures forall k :: 0 <= k < |FlushedSince(s, stream)| ==> IsCommand(FlushedSince(s, stream)[k])
  {
    if stream == [] {
      assert FlushedSince(s, stream) == [];
    } else {
      var pre := stream[..|stream| - 1];
      var c := stream[|stream| - 1];
      assert stream == pre + [c];
      RunFlushedCommands(s, pre);
      RunFile(s, pre);
      FlushesPerNewline(s, pre);
      StepFlushes(s, pre, c);
    }
  }

  /** After each flush the client is sent the whole data file as it then is. */
  lemma {:induction false} RunSent(s: Session, stream: seq<byte>)
    ensures Run(s, stream).sent == s.sent + Echoes(s.file, FlushedSince(s, stream))
    ensures Run(s, stream).file == s.file + Concat(FlushedSince(s, stream))
  {
    if stream == [] {
      assert FlushedSince(s, stream) == [];
    } else {
      var pre := stream[..|stream| - 1];
      var c := stream[|stream| - 1];
      assert stream == pre + [c];
      RunSent(s, pre);
      FlushesPerNewline(s, pre);
      RunSnoc(s, pre, c);
      FlushedSinceSnoc(s, pre, c);
      StepSent(Run(s, pre), c, s.sent, s.file, FlushedSince(s, pre));
    }
  }

  /** The step of RunSent, on values. */
  lemma StepSent(r: Session, c: byte, sent: seq<byte>, file: seq<byte>, fs: seq<seq<byte>>)
    requires r.sent == sent + Echoes(file, fs) && r.file == file + Concat(fs)
    ensures var fs' := if c == NEWLINE then fs + [r.packet + [c]] else fs;
      Step(r, c).sent == sent + Echoes(file, fs') && Step(r, c).file == file + Concat(fs')
  {
    if c == NEWLINE {
      var p := r.packet + [c];
      var fs' := fs + [p];
      ConcatSnoc(fs, p);
      assert fs'[..|fs'| - 1] == fs;
      assert Echoes(file, fs') == Echoes(file, fs) + (file + Concat(fs'));
    }
  }

  /** A stretch of bytes with `k` newlines (one recv chunk, say) flushes
      exactly `k` packets, appended after those flushed before it. */
  lemma {:induction false} FlushesPerNewline(s: Session, chunk: seq<byte>)
    ensures |Run(s, chunk).flushed| == |s.flushed| + CountNewlines(chunk)
    ensures Run(s, chunk).flushed[..|s.flushed|] == s.flushed
  {
    if chunk != [] {
      var pre := chunk[..|chunk| - 1];
      FlushesPerNewline(s, pre);
      var r0 := Run(s, pre);
      RunSnoc(s, pre, chunk[|chunk| - 1]);
      assert chunk == pre + [chunk[|chunk| - 1]];
      assert (r0.flushed + [r0.packet + [chunk[|chunk| - 1]]])[..|s.flushed|] == r0.flushed[..|s.flushed|];
    }
  }

  /** Processing a stream in two parts is processing it whole. */
  lemma {:induction false} RunAppend(s: Session, a: seq<byte>, b: seq<byte>)
    ensures Run(s, a + b) == Run(Run(s, a), b)
  {
    if b == [] {
      assert a + b == a;
    } else {
      assert (a + b)[..|a + b| - 1] == a + b[..|b| - 1];
      RunAppend(s, a, b[..|b| - 1]);
    }
  }

  /** The bytes recv delivers before it first returns 0 (an empty chunk). */
  function Received(chunks: seq<seq<byte>>): seq<byte>
  {
    if chunks == [] || chunks[0] == [] then [] else chunks[0] + Received(chunks[1..])
  }

  lemma {:induction false} ReceivedSplit(chunks: seq<seq<byte>>, i: nat)
    requires i < |chunks| && forall k :: 0 <= k <= i ==> chunks[k] != []
    ensures Received(chunks) == Concat(chunks[..i]) + chunks[i] + Received(chunks[i + 1..])
  {
    if i == 0 {
      assert chunks[..0] == [];
      assert chunks[1..] == chunks[i + 1..];
    } else {
      ReceivedSplit(chunks[1..], i - 1);
      assert chunks[1..][..i - 1] == chunks[..i][1..];
      assert chunks[1..][i - 1] == chunks[i];
      assert chunks[1..][i..] == chunks[i + 1..];
    }
  }

  lemma {:induction false} ReceivedAll(chunks: seq<seq<byte>>, i: nat)
    requires i <= |chunks| && forall k :: 0 <= k < i ==> chunks[k] != []
    requires i == |chunks| || chunks[i] == []
    ensures Received(chunks) == Concat(chunks[..i])
  {
    if i == 0 {
      assert chunks[..0] == [];
    } else {
      ReceivedAll(chunks[1..], i - 1);
      assert chunks[1..][..i - 1] == chunks[..i][1..];
    }
  }

  /** The bytes the packet loop gets through: all that is received, unless a
      realloc fails first, at the byte with index `k`. */
  function Processed(chunks: seq<seq<byte>>, reallocFailsAt: Option<nat>): seq<byte>
  {
    var rx := Received(chunks);
    if reallocFailsAt.Some? && reallocFailsAt.value < |rx| then rx[..reallocFailsAt.value] else rx
  }

  /** From a fresh session, the file gains the terminated part of the stream. */
  lemma RunFromStart(file: seq<byte>, stream: seq<byte>)
    ensures Run(Start(file), stream).file == file + stream[..LastNewlineEnd(stream)]
  {
    assert Start(file).packet + stream == stream;
    RunFile(Start(file), stream);
  }

  /** sizeof(buffer): recv and the echo's fread both use this one array. */
  const BufferSize: nat := 1024

  /** The bytes the echo's last successful fread leaves at the front of
      `buffer`: the final piece of the file, read in BufferSize pieces. */
  function LastEchoPiece(file: seq<byte>): (piece: seq<byte>)
    ensures |piece| <= BufferSize
    ensures file != [] ==> 0 < |piece| <= |file| && piece == file[|file| - |piece|..]
    ensures file != [] ==> |piece| == (|file| - 1) % BufferSize + 1
  {
    if file == [] then []
    else
      var start := (|file| - 1) / BufferSize * BufferSize;
      assert start <= |file| - 1 < start + BufferSize;
      file[start..]
  }

  /** `buffer` after one fread has read `piece` into its front. */
  function Clobbered(buffer: seq<byte>, piece: seq<byte>): (b: seq<byte>)
    ensures |b| == |buffer|
    ensures forall k :: 0 <= k < |buffer| ==> b[k] == if k < |piece| then piece[k] else buffer[k]
  {
    if |piece| >= |buffer| then piece[..|buffer|] else piece + buffer[|piece|..]
  }

  /** `buffer` after the echo's freads, from file offset `from` on: each reads
      the next BufferSize (or fewer, at the end) bytes of the file into the
      front of `buffer`, until one reads nothing. */
  function EchoBuffer(buffer: seq<byte>, file: seq<byte>, from: nat): (b: seq<byte>)
    ensures |b| == |buffer|
    decreases |file| - from
  {
    if from >= |file| then buffer
    else
      var to := if from + BufferSize <= |file| then from + BufferSize else |file|;
      EchoBuffer(Clobbered(buffer, file[from..to]), file, to)
  }

  /** A file that fits in the buffer is echoed by a single fread. */
  lemma EchoShort(buffer: seq<byte>, file: seq<byte>)
    requires |file| <= BufferSize
    ensures EchoBuffer(buffer, file, 0) == Clobbered(buffer, file)
  {
    if file == [] {
      assert buffer[0..] == buffer;
    } else {
      assert file[0..|file|] == file;
    }
  }

  /** A file longer than the buffer leaves no byte of a recv chunk (which
      never exceeds BufferSize) in `buffer`: the first fread overwrites it
      all, and the later ones overwrite file bytes with file bytes. */
  lemma EchoLong(buffer: seq<byte>, file: seq<byte>)
    requires |buffer| <= BufferSize < |file|
    ensures EchoBuffer(buffer, file, 0) == EchoBuffer(file[..|buffer|], file, BufferSize)
  {
    assert Clobbered(buffer, file[0..BufferSize]) == file[..|buffer|];
  }

  /** Whatever the freads before it, the last one decides the front of
      `buffer`: it holds the file's last piece. */
  lemma {:induction false} EchoBufferFront(buffer: seq<byte>, file: seq<byte>, from: nat)
    requires from % BufferSize == 0 && from < |file|
    ensures var p := LastEchoPiece(file);
      var n := if |p| <= |buffer| then |p| else |buffer|;
      EchoBuffer(buffer, file, from)[..n] == p[..n]
    decreases |file| - from
  {
    var p := LastEchoPiece(file);
    var n := if |p| <= |buffer| then |p| else |buffer|;
    if from + BufferSize < |file| {
      var to := from + BufferSize;
      EchoBufferFront(Clobbered(buffer, file[from..to]), file, to);
    } else {
      var m := from / BufferSize;
      assert from == m * BufferSize;
      assert (|file| - 1) / BufferSize == m;
      assert p == file[from..];
      var to := if from + BufferSize <= |file| then from + BufferSize else |file|;
      assert to == |file| && file[from..to] == p;
      var b := Clobbered(buffer, p);
      assert EchoBuffer(buffer, file, from) == EchoBuffer(b, file, to);
      assert b[..n] == p[..n];
    }
  }

  /** The byte loop over one recv chunk as the code is written: after a flush,
      the echo's freads have overwritten the front of `buffer`, so the bytes
      still to be processed from it are the file's bytes, not the client's. */
  function ChunkAsWritten(s: Session, buffer: seq<byte>, i: nat): (r: Session)
    ensures |r.flushed| >= |s.flushed|
    decreases |buffer| - i
  {
    if i >= |buffer| then s
    else
      var c := buffer[i];
      var next := Step(s, c);
      ChunkAsWritten(next, if c == NEWLINE then EchoBuffer(buffer, next.file, 0) else buffer, i + 1)
  }

  /** A chunk is processed as received exactly when no flush clobbers a byte
      still to be read: when its only newline is its last byte, say. */
  lemma {:induction false} ChunkAsWrittenAgrees(s: Session, buffer: seq<byte>, i: nat)
    requires i <= |buffer| && forall k :: i <= k < |buffer| - 1 ==> buffer[k] != NEWLINE
    ensures ChunkAsWritten(s, buffer, i) == Run(s, buffer[i..])
    decreases |buffer| - i
  {
    if i == |buffer| {
      assert buffer[i..] == [];
    } else {
      var c := buffer[i];
      ChunkAsWrittenStep(s, buffer, i);
      ChunkAsWrittenAgrees(Step(s, c), buffer, i + 1);
      assert buffer[i..] == [c] + buffer[i + 1..];
      RunAppend(s, [c], buffer[i + 1..]);
      assert [c] == [] + [c];
      RunSnoc(s, [], c);
    }
  }

  /** One pass of the as-written byte loop. */
  lemma ChunkAsWrittenStep(s: Session, buffer: seq<byte>, i: nat)
    requires i < |buffer|
    ensures var next := Step(s, buffer[i]);
      ChunkAsWritten(s, buffer, i) ==
      ChunkAsWritten(next, if buffer[i] == NEWLINE then EchoBuffer(buffer, next.file, 0) else buffer, i + 1)
  {
  }

  /** A four-byte chunk starting with the command "a\n", on a data file of
      four bytes: the flush of "a\n" echoes the six-byte file, whose first
      fread puts the old file's four bytes over the chunk. */
  lemma FirstCommandEchoed(earlier: seq<byte>, chunk: seq<byte>)
    requires |earlier| == 4 && |chunk| == 4 && chunk[0] == 97 && chunk[1] == NEWLINE
    ensures var after := earlier + [97, NEWLINE];
      ChunkAsWritten(Start(earlier), chunk, 0) ==
      ChunkAsWritten(Session(after, [], after, [[97, NEWLINE]]), earlier, 2)
  {
    var after := earlier + [97, NEWLINE];
    var s0 := Start(earlier);
    var s1 := Step(s0, 97);
    ChunkAsWrittenStep(s0, chunk, 0);
    ChunkAsWrittenStep(s1, chunk, 1);
    assert s1.packet + [NEWLINE] == [97, NEWLINE];
    var s2 := Step(s1, NEWLINE);
    assert s2.file == after;
    assert s2.sent == [] + after == after;
    assert s2.flushed == [] + [[97, NEWLINE]] == [[97, NEWLINE]];
    assert s2 == Session(after, [], after, [[97, NEWLINE]]);
    EchoShort(chunk, after);
    assert Clobbered(chunk, after) == after[..4] == earlier;
  }

  /** The rest of the overwritten chunk is the old file's last line, which is
      flushed as a second packet. */
  lemma OldLineFlushed(earlier: seq<byte>)
    requires |earlier| == 4 && earlier[2] != NEWLINE && earlier[3] == NEWLINE
    ensures var after := earlier + [97, NEWLINE];
      var r := ChunkAsWritten(Session(after, [], after, [[97, NEWLINE]]), earlier, 2);
      r.file == after + [earlier[2], NEWLINE] && |r.flushed| == 2
  {
    var after := earlier + [97, NEWLINE];
    var s2 := Session(after, [], after, [[97, NEWLINE]]);
    var s3 := Step(s2, earlier[2]);
    ChunkAsWrittenStep(s2, earlier, 2);
    ChunkAsWrittenStep(s3, earlier, 3);
    assert s3.packet + [NEWLINE] == [earlier[2], NEWLINE];
  }

  /** "xyz\n", already in the data file when a client connects. */
  const EarlierData: seq<byte> := [120, 121, 122, NEWLINE]
  /** "a\nb\n", the client's one recv chunk. */
  const TwoCommands: seq<byte> := [97, NEWLINE, 98, NEWLINE]

  /** As written, the chunk appends "a\nz\n": the echo of "xyz\na\n" has
      overwritten the pending "b\n" with "z\n". */
  lemma ClobberedExample()
    ensures ChunkAsWritten(Start(EarlierData), TwoCommands, 0).file == EarlierData + [97, NEWLINE] + [122, NEWLINE]
  {
    FirstCommandEchoed(EarlierData, TwoCommands);
    OldLineFlushed(EarlierData);
  }

  /** The clobbering is observable: the data file ends up different from the
      one the bytes the client sent would give. */
  lemma EchoClobbersPendingBytes()
    ensures Run(Start(EarlierData), TwoCommands).file == EarlierData + TwoCommands
    ensures ChunkAsWritten(Start(EarlierData), TwoCommands, 0).file != Run(Start(EarlierData), TwoCommands).file
  {
    ClobberedExample();
    RunFromStart(EarlierData, TwoCommands);
    assert LastNewlineEnd(TwoCommands) == 4;
    assert TwoCommands[..4] == TwoCommands;
    assert (EarlierData + [97, NEWLINE] + [122, NEWLINE])[6] == 122;
    assert (EarlierData + TwoCommands)[6] == 98;
  }

  /** "x\ny\n", already in the data file when a client connects. */
  const TwoLines: seq<byte> := [120, NEWLINE, 121, NEWLINE]
  /** "a\nbc", a recv chunk with one newline. */
  const OneNewline: seq<byte> := [97, NEWLINE, 98, 99]

  /** As written, a chunk with one newline can flush two packets: "a\nbc" on a
      file holding "x\ny\n" flushes "a\n" and then "y\n" from the echo, where
      the bytes the client sent flush only "a\n". */
  lemma EchoAddsFlush()
    ensures CountNewlines(OneNewline) == 1
    ensures |Run(Start(TwoLines), OneNewline).flushed| == 1
    ensures |ChunkAsWritten(Start(TwoLines), OneNewline, 0).flushed| == 2
  {
    FirstCommandEchoed(TwoLines, OneNewline);
    OldLineFlushed(TwoLines);
    var a, an, anb := [97], [97, NEWLINE], [97, NEWLINE, 98];
    assert a[..0] == [] && an[..1] == a && anb[..2] == an && OneNewline[..3] == anb;
    assert CountNewlines(a) == 0;
    assert CountNewlines(an) == 1;
    assert CountNewlines(anb) == 1;
    FlushesPerNewline(Start(TwoLines), OneNewline);
  }

  /** The bookkeeping of one pass of handle_client's byte loop: byte `j` of
      `buffer` extends the bytes done so far, and processing it is one Step. */
  lemma ReceiveByte(file: seq<byte>, done: seq<byte>, buffer: seq<byte>, j: nat, before: seq<byte>)
    requires j < |buffer| && done == before + buffer[..j]
    ensures before + buffer[..j + 1] == done + [buffer[j]]
    ensures Run(Start(file), done + [buffer[j]]) == Step(Run(Start(file), done), buffer[j])
  {
    assert buffer[..j + 1] == buffer[..j] + [buffer[j]];
    RunSnoc(Start(file), done, buffer[j]);
  }

  /** A realloc that fails at byte `j` of chunk `i` stops the loop with
      exactly the bytes before it processed. */
  lemma ProcessedStop(chunks: seq<seq<byte>>, i: nat, j: nat, reallocFailsAt: Option<nat>)
    requires i < |chunks| && forall k :: 0 <= k <= i ==> chunks[k] != []
    requires j < |chunks[i]| && reallocFailsAt == Some(|Concat(chunks[..i])| + j)
    ensures Processed(chunks, reallocFailsAt) == Concat(chunks[..i]) + chunks[i][..j]
  {
    ReceivedSplit(chunks, i);
    var before := Concat(chunks[..i]);
    var rx := Received(chunks);
    assert rx == before + (chunks[i] + Received(chunks[i + 1..]));
    assert rx[..|before| + j] == before + chunks[i][..j];
  }

  /** When recv reports the end first, everything received was processed. */
  lemma ProcessedAll(chunks: seq<seq<byte>>, i: nat, reallocFailsAt: Option<nat>)
    requires i <= |chunks| && forall k :: 0 <= k < i ==> chunks[k] != []
    requires i == |chunks| || chunks[i] == []
    requires reallocFailsAt.Some? ==> reallocFailsAt.value >= |Concat(chunks[..i])|
    ensures Processed(chunks, reallocFailsAt) == Concat(chunks[..i])
  {
    ReceivedAll(chunks, i);
  }

  /** handle_client, from the fopen of the data file to the end of the
      connection. Returns the new content of the data file and every byte
      sent back: the file gains exactly the received bytes up to the last
      newline processed, and pending bytes (the connection ends, or realloc
      fails) are never written. */
  method HandleClient(file: seq<byte>, chunks: seq<seq<byte>>, fopenOk: bool, reallocFailsAt: Option<nat>)
    returns (newFile: seq<byte>, sent: seq<byte>)
    ensures !fopenOk ==> newFile == file && sent == []
    ensures fopenOk ==>
      var p := Processed(chunks, reallocFailsAt);
      && newFile == Run(Start(file), p).file
      && sent == Run(Start(file), p).sent
      && newFile == file + p[..LastNewlineEnd(p)]
  {
    if !fopenOk {
      return file, [];
    }
    var fp := file;
    sent := [];
    var packet: seq<byte> := [];
    var packetSize := 0;
    ghost var flushed: seq<seq<byte>> := [];
    ghost var done: seq<byte> := [];
    var received := 0;
    var i := 0;
    while i < |chunks| && |chunks[i]| > 0
      invariant 0 <= i <= |chunks|
      invariant forall k :: 0 <= k < i ==> chunks[k] != []
      invariant done == Concat(chunks[..i]) && received == |done|
      invariant reallocFailsAt.Some? ==> reallocFailsAt.value >= received
      invariant Session(fp, packet, sent, flushed) == Run(Start(file), done)
      invariant packetSize == |packet|
      decreases |chunks| - i
    {
      var buffer := chunks[i];
      ghost var before := done;
      var j := 0;
      while j < |buffer|
        invariant 0 <= j <= |buffer|
        invariant done == before + buffer[..j] && received == |before| + j
        invariant reallocFailsAt.Some? ==> reallocFailsAt.value >= received
        invariant Session(fp, packet, sent, flushed) == Run(Start(file), done)
        invariant packetSize == |packet|
        decreases |buffer| - j
      {
        var c := buffer[j];
        if reallocFailsAt.Some? && reallocFailsAt.value == received {
          ProcessedStop(chunks, i, j, reallocFailsAt);
          RunFromStart(file, done);
          return fp, sent;
        }
        ReceiveByte(file, done, buffer, j, before);
        ghost var next := Step(Session(fp, packet, sent, flushed), c);
        done := done + [c];
        packet := packet + [c];
        packetSize := packetSize + 1;
        if c == NEWLINE {
          fp := fp + packet;
          sent := sent + fp;
          flushed := flushed + [packet];
          packet := [];
          packetSize := 0;
        }
        assert Session(fp, packet, sent, flushed) == next;
        received := received + 1;
        j := j + 1;
      }
      assert buffer[..j] == buffer;
      ConcatPrefixStep(chunks, i);
      i := i + 1;
    }
    ProcessedAll(chunks, i, reallocFailsAt);
    RunFromStart(file, done);
    newFile := fp;
  }
}
