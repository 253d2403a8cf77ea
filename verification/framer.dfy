/**
  `RxSTOMPParser`: the incremental framer.  Bytes arrive in chunks; the framer
  appends each chunk to its buffer (`readData`), cuts the buffer at NULs, strips
  leading line feeds from every segment, parses what is left and decides what
  stays in the buffer.

  `Feed` is the framer as written, and the one the connection model reads
  through: once any NUL has arrived the whole buffer is cleared, including an
  incomplete frame after the last NUL.  `FeedRetaining` is the corrected
  framer, which keeps that incomplete frame for the next chunk.
 */
module Framer {
  import opened Wrappers
  import opened Text
  import opened Commands
  import opened Headers
  import opened Frames
  import opened FrameLaws

  /** The frames one call returns and the buffer it leaves. */
  datatype FeedResult = FeedResult(frames: seq<Frame>, buffer: string)

  // ---------------------------------------------------------------------------
  // One segment

  /** A segment with its leading empty lines dropped (`while msg.first == "" { msg.remove(at: 0) }`). */
  function Filtered(seg: string): string
  {
    Join(DropLeadingEmpty(Split(seg, LineFeed)), LineFeed)
  }

  /** Dropping the leading empty lines strips exactly the leading line feeds. */
  lemma FilteredStrips(seg: string)
    ensures Filtered(seg) == StripLeading(seg, LineFeed)
    ensures Filtered(seg) == "" <==> forall k :: 0 <= k < |seg| ==> seg[k] == LineFeed
  {
    DropLeadingEmptyStrips(seg, LineFeed);
    var t := StripLeading(seg, LineFeed);
    if t != "" {
      assert seg[|seg| - |t|] == t[0];
    }
  }

  /** What `try? RxSTOMPFrame(text:)` leaves for a filtered segment: nothing when it is empty or parsing throws. */
  function FrameOf(t: string): seq<Frame>
  {
    if t == "" then []
    else
      match Parse(t)
      case Success(f) => [f]
      case Failure(_) => []
  }

  /** The frames of the segments, in order (the `for command in commands` loop). */
  function SegmentFrames(segs: seq<string>): seq<Frame>
    decreases |segs|
  {
    if |segs| == 0 then [] else SegmentFrames(segs[..|segs| - 1]) + SegmentFrame(Last(segs))
  }

  /**
    The frame one segment yields: leading line feeds (empty first lines) are
    dropped one by one; what is left once the segment starts with another
    character is parsed.
   */
  function SegmentFrame(seg: string): seq<Frame>
    decreases |seg|
  {
    if seg == "" then []
    else if seg[0] == LineFeed then SegmentFrame(seg[1..])
    else FrameOf(seg)
  }

  /** A segment yields what parsing its filtered text yields, as the loop body computes it. */
  lemma {:induction false} SegmentFrameFiltered(seg: string)
    ensures SegmentFrame(seg) == FrameOf(Filtered(seg))
    decreases |seg|
  {
    FilteredStrips(seg);
    if seg != "" && seg[0] == LineFeed {
      SegmentFrameFiltered(seg[1..]);
      FilteredStrips(seg[1..]);
    }
  }

  /** A segment yields at most one frame, exactly when its filtered text parses; the frame is that parse and never a heartbeat. */
  lemma SegmentFrameMeaning(seg: string)
    ensures |SegmentFrame(seg)| <= 1
    ensures |SegmentFrame(seg)| == 1 <==> Filtered(seg) != "" && Parse(Filtered(seg)).Success?
    ensures |SegmentFrame(seg)| == 1 ==>
      Parse(Filtered(seg)) == Success(SegmentFrame(seg)[0]) && SegmentFrame(seg)[0].command != Ping
  {
    var t := Filtered(seg);
    SegmentFrameFiltered(seg);
    FilteredStrips(seg);
    if t != "" {
      assert t[0] != LineFeed;
      assert t != [LineFeed];
    }
  }

  /** A segment on its own yields its frame. */
  lemma SingleSegment(seg: string)
    ensures SegmentFrames([seg]) == SegmentFrame(seg)
  {
    assert [seg][..0] == [];
  }

  /** A segment made only of line feeds yields nothing. */
  lemma LineFeedsOnly(seg: string)
    requires forall k :: 0 <= k < |seg| ==> seg[k] == LineFeed
    ensures SegmentFrames([seg]) == []
  {
    SingleSegment(seg);
    SegmentFrameFiltered(seg);
    FilteredStrips(seg);
  }

  // ---------------------------------------------------------------------------
  // Many segments

  /** The frames of two runs of segments are the frames of each. */
  lemma {:induction false} SegmentFramesAppend(a: seq<string>, b: seq<string>)
    ensures SegmentFrames(a + b) == SegmentFrames(a) + SegmentFrames(b)
    decreases |b|
  {
    if |b| == 0 {
      assert a + b == a;
    } else {
      var b' := b[..|b| - 1];
      assert (a + b)[..|a + b| - 1] == a + b';
      assert Last(a + b) == Last(b);
      SegmentFramesAppend(a, b');
    }
  }

  /** At most one frame per segment; every frame is the parse of some segment, and none is a heartbeat. */
  lemma {:induction false} SegmentFramesLaws(segs: seq<string>)
    ensures |SegmentFrames(segs)| <= |segs|
    ensures forall k :: 0 <= k < |SegmentFrames(segs)| ==>
      SegmentFrames(segs)[k].command != Ping &&
      exists i :: 0 <= i < |segs| && Parse(Filtered(segs[i])) == Success(SegmentFrames(segs)[k])
    decreases |segs|
  {
    if |segs| > 0 {
      var init := segs[..|segs| - 1];
      SegmentFramesLaws(init);
      SegmentFrameMeaning(Last(segs));
      var fs := SegmentFrames(segs);
      forall k | 0 <= k < |fs|
        ensures fs[k].command != Ping &&
          exists i :: 0 <= i < |segs| && Parse(Filtered(segs[i])) == Success(fs[k])
      {
        if k < |SegmentFrames(init)| {
          var i :| 0 <= i < |init| && Parse(Filtered(init[i])) == Success(SegmentFrames(init)[k]);
          assert segs[i] == init[i];
        } else {
          assert Parse(Filtered(segs[|segs| - 1])) == Success(fs[k]);
        }
      }
    }
  }

  /** A trailing empty segment, what follows a final NUL, adds nothing. */
  lemma SegmentFramesEmptyTail(a: seq<string>)
    ensures SegmentFrames(a + [""]) == SegmentFrames(a)
  {
    SegmentFramesAppend(a, [""]);
    LineFeedsOnly("");
  }

  /** A segment that fails to parse is skipped; the segments around it still yield their frames. */
  lemma FaultIsolation(a: seq<string>, bad: string, b: seq<string>)
    requires Parse(Filtered(bad)).Failure?
    ensures SegmentFrames(a + [bad] + b) == SegmentFrames(a) + SegmentFrames(b)
  {
    SkippedSegment(bad);
    SegmentFramesAppend(a + [bad], b);
    SegmentFramesAppend(a, [bad]);
  }

  /** A segment that fails to parse yields nothing. */
  lemma SkippedSegment(bad: string)
    requires Parse(Filtered(bad)).Failure?
    ensures SegmentFrames([bad]) == []
  {
    SingleSegment(bad);
    SegmentFrameFiltered(bad);
  }

  // ---------------------------------------------------------------------------
  // The framer as written

  /**
    `parse(data:)` as written: with no NUL (and not a lone line feed) the text
    waits in the buffer; otherwise every segment is parsed and the whole buffer
    is cleared.
   */
  function Feed(buffer: string, chunk: string): (r: FeedResult)
    ensures NullChar !in buffer + chunk && buffer + chunk != [LineFeed] ==> r == FeedResult([], buffer + chunk)
    ensures NullChar in buffer + chunk || buffer + chunk == [LineFeed] ==>
      r.buffer == "" && r.frames == SegmentFrames(Split(buffer + chunk, NullChar))
  {
    var text := buffer + chunk;
    var segs := Split(text, NullChar);
    SplitSingle(text, NullChar);
    if |segs| == 1 && segs[0] != [LineFeed] then
      SplitNoSeparator(text, NullChar);
      FeedResult([], text)
    else
      FeedResult(SegmentFrames(segs), "")
  }

  /**
    Once a NUL has arrived (or the text is a lone line feed) the frames of one
    call are the frames of every segment; before that there are none.  At most
    one frame per segment, and never a heartbeat.
   */
  lemma FeedFrames(buffer: string, chunk: string)
    ensures var segs := Split(buffer + chunk, NullChar); var r := Feed(buffer, chunk);
      && (NullChar in buffer + chunk || buffer + chunk == [LineFeed] ==> r.frames == SegmentFrames(segs))
      && (NullChar !in buffer + chunk && buffer + chunk != [LineFeed] ==> r.frames == [])
      && |r.frames| <= |segs|
      && forall k :: 0 <= k < |r.frames| ==> r.frames[k].command != Ping
  {
    SegmentFramesLaws(Split(buffer + chunk, NullChar));
  }

  /** `parse(data:)` as a loop over the segments, as the source writes it. */
  method FeedLoop(buffer: string, chunk: string) returns (frames: seq<Frame>, rest: string)
    ensures FeedResult(frames, rest) == Feed(buffer, chunk)
  {
    var readData := buffer + chunk;
    frames := [];
    var commands := Split(readData, NullChar);
    if |commands| == 1 && commands[0] != [LineFeed] {
      return frames, readData;
    }
    var i := 0;
    while i < |commands|
      invariant 0 <= i <= |commands|
      invariant frames == SegmentFrames(commands[..i])
    {
      var command := commands[i];
      var filteredCommand := Filtered(command);
      assert commands[..i + 1] == commands[..i] + [command];
      NextSegment(commands[..i], command);
      if filteredCommand != "" {
        var parsed := Parse(filteredCommand);
        if parsed.Success? {
          frames := frames + [parsed.value];
        }
      }
      i := i + 1;
    }
    assert commands[..i] == commands;
    rest := "";
  }

  /** One more segment adds what parsing its filtered text yields. */
  lemma NextSegment(done: seq<string>, seg: string)
    ensures SegmentFrames(done + [seg]) == SegmentFrames(done) + FrameOf(Filtered(seg))
  {
    SegmentFramesAppend(done, [seg]);
    SingleSegment(seg);
    SegmentFrameFiltered(seg);
  }

  /** Text after the last NUL is dropped: an incomplete frame behind a complete one is lost. */
  lemma FeedDropsRemainder(buffer: string, chunk: string, done: string, partial: string)
    requires buffer + chunk == done + [NullChar] + partial
    ensures Feed(buffer, chunk).buffer == ""
  {
  }

  // ---------------------------------------------------------------------------
  // The framer that keeps an incomplete frame

  /** Like `Feed`, but only the segments followed by a NUL are parsed, and the text after the last NUL stays buffered. */
  function FeedRetaining(buffer: string, chunk: string): FeedResult
  {
    var segs := Split(buffer + chunk, NullChar);
    FeedResult(SegmentFrames(segs[..|segs| - 1]), Last(segs))
  }

  /**
    The retaining framer buffers exactly the text after the last NUL: a suffix
    of the text, without NUL, preceded by a NUL unless it is the whole text;
    a text without NUL is buffered whole.
   */
  lemma FeedRetainingLaws(buffer: string, chunk: string)
    ensures var r := FeedRetaining(buffer, chunk); var text := buffer + chunk;
      && NullChar !in r.buffer
      && |r.buffer| <= |text| && text[|text| - |r.buffer|..] == r.buffer
      && (|r.buffer| == |text| || text[|text| - |r.buffer| - 1] == NullChar)
      && (NullChar !in text ==> r == FeedResult([], text))
  {
    var text := buffer + chunk;
    SplitLast(text, NullChar);
    SplitPartsFree(text, NullChar);
    if NullChar !in text {
      SplitNoSeparator(text, NullChar);
    }
  }

  /** A text ending in NUL splits into more than one segment, the last of them empty. */
  lemma SplitEndingInNul(text: string)
    requires EndsWith(text, NullChar)
    ensures var segs := Split(text, NullChar); |segs| > 1 && segs == segs[..|segs| - 1] + [""]
  {
    var x := text[..|text| - 1];
    assert text == x + [NullChar];
    SplitAppend(x, [NullChar], NullChar);
    assert [NullChar] == "" + [NullChar] + "";
    SplitCons("", "", NullChar);
    SplitNoSeparator("", NullChar);
  }

  /** Both framers agree when the text ends in NUL, and when it holds no NUL and is not a lone line feed. */
  lemma FeedAgreement(buffer: string, chunk: string)
    requires EndsWith(buffer + chunk, NullChar) ||
      (NullChar !in buffer + chunk && buffer + chunk != [LineFeed])
    ensures Feed(buffer, chunk) == FeedRetaining(buffer, chunk)
  {
    var text := buffer + chunk;
    if EndsWith(text, NullChar) {
      var segs := Split(text, NullChar);
      SplitEndingInNul(text);
      SegmentFramesEmptyTail(segs[..|segs| - 1]);
    } else {
      FeedRetainingLaws(buffer, chunk);
    }
  }

  /**
    Cutting the text after `x`: the segments completed in the whole text are
    those completed in `x`, then those completed in the remainder of `x`
    followed by `b`; both leave the same incomplete segment.
   */
  lemma SplitChunks(x: string, b: string)
    ensures var sx := Split(x, NullChar); var sp := Split(Last(sx) + b, NullChar); var s := Split(x + b, NullChar);
      s[..|s| - 1] == sx[..|sx| - 1] + sp[..|sp| - 1] && Last(s) == Last(sp)
  {
    var sx, sb := Split(x, NullChar), Split(b, NullChar);
    var p := Last(sx);
    var sp := Split(p + b, NullChar);
    assert sp == [p + sb[0]] + sb[1..] by {
      SplitPartsFree(x, NullChar);
      SplitNoSeparator(p, NullChar);
      SplitAppend(p, b, NullChar);
      assert Split(p, NullChar)[..0] == [];
    }
    assert Split(x + b, NullChar) == sx[..|sx| - 1] + sp by {
      SplitAppend(x, b, NullChar);
    }
    InitOfAppend(sx[..|sx| - 1], sp);
  }

  /** Dropping the last element of a concatenation drops it from the second part. */
  lemma InitOfAppend<T>(u: seq<T>, v: seq<T>)
    requires |v| > 0
    ensures (u + v)[..|u + v| - 1] == u + v[..|v| - 1] && Last(u + v) == Last(v)
  {
  }

  /** Feeding the text in two chunks yields the same frames, in the same order, and the same buffer as feeding it at once. */
  lemma FeedRetainingChunkIndependent(buffer: string, a: string, b: string)
    ensures var r1 := FeedRetaining(buffer, a); var r2 := FeedRetaining(r1.buffer, b);
      var r := FeedRetaining(buffer, a + b);
      r1.frames + r2.frames == r.frames && r2.buffer == r.buffer
  {
    assert FeedRetaining(buffer, a) == FeedRetaining("", buffer + a) by {
      assert "" + (buffer + a) == buffer + a;
    }
    assert FeedRetaining(buffer, a + b) == FeedRetaining("", (buffer + a) + b) by {
      assert "" + ((buffer + a) + b) == buffer + (a + b);
    }
    RetainingAppend(buffer + a, b);
  }

  /** The chunk law for a whole text `x` followed by `b`. */
  lemma RetainingAppend(x: string, b: string)
    ensures var r1 := FeedRetaining("", x); var r2 := FeedRetaining(r1.buffer, b);
      var r := FeedRetaining("", x + b);
      r1.frames + r2.frames == r.frames && r2.buffer == r.buffer
  {
    var sx := Split(x, NullChar);
    var sp := Split(Last(sx) + b, NullChar);
    assert "" + x == x && "" + (x + b) == x + b;
    SplitChunks(x, b);
    SegmentFramesAppend(sx[..|sx| - 1], sp[..|sp| - 1]);
  }

  // ---------------------------------------------------------------------------
  // A stream of complete frames

  /** The frames a sender writes, back to back. */
  function Stream(fs: seq<Frame>): string
  {
    if |fs| == 0 then "" else Serialize(fs[0]) + Stream(fs[1..])
  }

  /** A frame the framer can carry: it serialises and parses back, and holds no NUL before its terminator. */
  predicate Transmittable(f: Frame)
  {
    Serializable(f) && NullChar !in FrameText(f)
  }

  /** The frame the receiver gets for a sent frame: the same command, the header lines read back, the body made present. */
  function Delivered(f: Frame): Frame
  {
    Frame(f.command, InsertLines([], Lines(f.headers)), Some(f.body.GetOr("")))
  }

  /** The delivered frame is what parsing the serialised frame gives: the sent command, header set and body. */
  lemma DeliveredMatchesSent(f: Frame)
    requires Serializable(f)
    ensures Parse(Serialize(f)) == Success(Delivered(f))
    ensures var d := Delivered(f);
      d.command == f.command && PairSet(d.headers) == PairSet(f.headers) && d.body == Some(f.body.GetOr(""))
  {
    ParseFrameText(f, [NullChar]);
    RoundTrip(f);
  }

  /** What the receiver gets for each sent frame, in order. */
  function Received(fs: seq<Frame>): (rs: seq<Frame>)
    ensures |rs| == |fs|
  {
    if |fs| == 0 then [] else [Delivered(fs[0])] + Received(fs[1..])
  }

  /** The i-th received frame is the delivered form of the i-th sent frame. */
  lemma {:induction false} ReceivedAt(fs: seq<Frame>)
    ensures forall i :: 0 <= i < |fs| ==> Received(fs)[i] == Delivered(fs[i])
    decreases |fs|
  {
    if |fs| > 0 {
      ReceivedAt(fs[1..]);
      assert forall i :: 1 <= i < |fs| ==> Received(fs)[i] == Received(fs[1..])[i - 1] && fs[i] == fs[1..][i - 1];
    }
  }

  /** The NUL-separated segments of a stream: one frame text per frame, then an empty remainder. */
  lemma {:induction false} SplitStream(fs: seq<Frame>)
    requires forall i :: 0 <= i < |fs| ==> Transmittable(fs[i])
    ensures Split(Stream(fs), NullChar) == Texts(fs) + [""]
    decreases |fs|
  {
    if |fs| > 0 {
      assert forall i :: 0 <= i < |fs[1..]| ==> fs[1..][i] == fs[i + 1];
      SplitStream(fs[1..]);
      assert Stream(fs) == FrameText(fs[0]) + [NullChar] + Stream(fs[1..]);
      SplitCons(FrameText(fs[0]), Stream(fs[1..]), NullChar);
    }
  }

  /** The frame texts of the frames. */
  function Texts(fs: seq<Frame>): (ts: seq<string>)
    ensures |ts| == |fs|
  {
    if |fs| == 0 then [] else [FrameText(fs[0])] + Texts(fs[1..])
  }

  /** Each frame text is one segment that yields the received frame. */
  lemma TextSegment(f: Frame)
    requires Transmittable(f)
    ensures SegmentFrames([FrameText(f)]) == [Delivered(f)]
  {
    var t := FrameText(f);
    SingleSegment(t);
    RawValueShape(f.command);
    assert t[0] == f.command.RawValue()[0];
    ParseFrameText(f, "");
    assert t + "" == t;
  }

  /** The segments of the frame texts yield the received frames. */
  lemma {:induction false} SegmentFramesOfTexts(fs: seq<Frame>)
    requires forall i :: 0 <= i < |fs| ==> Transmittable(fs[i])
    ensures SegmentFrames(Texts(fs)) == Received(fs)
    decreases |fs|
  {
    if |fs| > 0 {
      assert forall i :: 0 <= i < |fs[1..]| ==> fs[1..][i] == fs[i + 1];
      SegmentFramesOfTexts(fs[1..]);
      TextSegment(fs[0]);
      SegmentFramesAppend([FrameText(fs[0])], Texts(fs[1..]));
    }
  }

  /** Both framers deliver a stream of complete frames in one call, frame for frame, and leave nothing behind. */
  lemma FeedStream(fs: seq<Frame>)
    requires forall i :: 0 <= i < |fs| ==> Transmittable(fs[i])
    ensures Feed("", Stream(fs)) == FeedResult(Received(fs), "")
    ensures FeedRetaining("", Stream(fs)) == FeedResult(Received(fs), "")
  {
    SplitStream(fs);
    SegmentFramesOfTexts(fs);
    FeedCompleteSegments(Stream(fs), Texts(fs), Received(fs));
  }

  /** A text whose last character is its last NUL: both framers parse every segment before it and leave nothing behind. */
  lemma FeedCompleteSegments(text: string, ts: seq<string>, frames: seq<Frame>)
    requires Split(text, NullChar) == ts + [""]
    requires SegmentFrames(ts) == frames
    ensures Feed("", text) == FeedResult(frames, "")
    ensures FeedRetaining("", text) == FeedResult(frames, "")
  {
    var segs := Split(text, NullChar);
    assert "" + text == text;
    assert segs[..|segs| - 1] == ts;
    SegmentFramesEmptyTail(ts);
    SplitSingle(text, NullChar);
  }

  /** Wherever the stream is cut into two chunks, the retaining framer delivers every frame exactly once. */
  lemma FeedRetainingAnyCut(fs: seq<Frame>, k: nat)
    requires forall i :: 0 <= i < |fs| ==> Transmittable(fs[i])
    requires k <= |Stream(fs)|
    ensures var s := Stream(fs); var r1 := FeedRetaining("", s[..k]); var r2 := FeedRetaining(r1.buffer, s[k..]);
      r1.frames + r2.frames == Received(fs) && r2.buffer == ""
  {
    FeedStream(fs);
    FeedRetainingCut(Stream(fs), k, Received(fs));
  }

  /** When one call on a text delivers everything and leaves nothing, so do two calls on any cut of it. */
  lemma FeedRetainingCut(text: string, k: nat, frames: seq<Frame>)
    requires k <= |text|
    requires FeedRetaining("", text) == FeedResult(frames, "")
    ensures var r1 := FeedRetaining("", text[..k]); var r2 := FeedRetaining(r1.buffer, text[k..]);
      r1.frames + r2.frames == frames && r2.buffer == ""
  {
    assert text[..k] + text[k..] == text;
    FeedRetainingChunkIndependent("", text[..k], text[k..]);
  }

  // ---------------------------------------------------------------------------
  // The lost frame

  /** A segment whose first line names no command yields nothing. */
  lemma UndefinedSegment(seg: string)
    requires |seg| > 0 && seg[0] != LineFeed
    requires CommandFromText(Split(seg, LineFeed)[0]).Failure?
    ensures SegmentFrames([seg]) == []
  {
    SingleSegment(seg);
    assert seg != [LineFeed];
    assert Parse(seg).Failure?;
  }

  /** A text with exactly one NUL: the frames of the two segments around it, and the buffer is cleared. */
  lemma FeedTwoSegments(text: string, t: string, p: string)
    requires NullChar !in t && NullChar !in p && text == t + [NullChar] + p
    ensures Feed("", text) == FeedResult(SegmentFrames([t, p]), "")
  {
    assert "" + text == text;
    assert Split(text, NullChar) == [t, p] by {
      SplitCons(t, p, NullChar);
      SplitNoSeparator(p, NullChar);
    }
  }

  /** A complete frame followed by the start of a frame whose first line names no command: one frame, and the buffer is cleared. */
  lemma FeedCompleteThenPartial(f: Frame, p: string)
    requires Transmittable(f)
    requires NullChar !in p && |p| > 0 && p[0] != LineFeed
    requires CommandFromText(Split(p, LineFeed)[0]).Failure?
    ensures Feed("", Serialize(f) + p) == FeedResult([Delivered(f)], "")
  {
    var t := FrameText(f);
    assert SegmentFrames([t, p]) == [Delivered(f)] by {
      TwoSegments(t, p);
      TextSegment(f);
      UndefinedSegment(p);
    }
    FeedTwoSegments(Serialize(f) + p, t, p);
  }

  /** Two segments yield the frames of each, in order. */
  lemma TwoSegments(t: string, p: string)
    ensures SegmentFrames([t, p]) == SegmentFrames([t]) + SegmentFrames([p])
  {
    assert [t, p] == [t] + [p];
    SegmentFramesAppend([t], [p]);
  }

  /** A text whose only NUL ends it: the frame of the one segment before it, and the buffer is cleared. */
  lemma FeedOneSegment(text: string, t: string)
    requires NullChar !in t && text == t + [NullChar]
    ensures Feed("", text) == FeedResult(SegmentFrames([t]), "")
  {
    assert "" + text == text;
    var segs := Split(text, NullChar);
    assert segs == [t, ""] by {
      assert text == t + [NullChar] + "";
      SplitCons(t, "", NullChar);
      SplitNoSeparator("", NullChar);
    }
    assert SegmentFrames(segs) == SegmentFrames([t]) by {
      assert segs == [t] + [""];
      SegmentFramesEmptyTail([t]);
    }
  }

  /** The rest of a frame whose first line names no command, then its NUL: nothing, and the buffer is cleared. */
  lemma FeedUndefinedThenNul(q: string)
    requires NullChar !in q && |q| > 0 && q[0] != LineFeed
    requires CommandFromText(Split(q, LineFeed)[0]).Failure?
    ensures Feed("", q + [NullChar]) == FeedResult([], "")
  {
    FeedOneSegment(q + [NullChar], q);
    UndefinedSegment(q);
  }

  /** The frame "SEND", no headers, no body. */
  const SendFrame: Frame := Frame(Send, [], None)

  /** Its text form is "SEND", a blank line and a NUL. */
  lemma SendFrameText()
    ensures Serialize(SendFrame) == "SEND\n\n\0" && Transmittable(SendFrame)
  {
    assert HeaderLines([]) == "";
  }

  /**
    Two SEND frames cut two characters into the second, after "SE": the framer
    as written delivers one frame where one call on the whole text delivers
    two, because the first call clears "SE" from the buffer and "ND" then names
    no command.  The retaining framer delivers both.
   */
  lemma FeedLosesSplitFrame()
    ensures var c1, c2 := Serialize(SendFrame) + "SE", "ND\n\n" + [NullChar];
      && c1 + c2 == Stream([SendFrame, SendFrame])
      && Feed("", c1 + c2).frames == [Delivered(SendFrame), Delivered(SendFrame)]
      && Feed("", c1) == FeedResult([Delivered(SendFrame)], "")
      && Feed("", c2) == FeedResult([], "")
      && FeedRetaining("", c1).frames + FeedRetaining(FeedRetaining("", c1).buffer, c2).frames
         == [Delivered(SendFrame), Delivered(SendFrame)]
  {
    var c1, c2 := Serialize(SendFrame) + "SE", "ND\n\n" + [NullChar];
    var fs := [SendFrame, SendFrame];
    var d := [Delivered(SendFrame), Delivered(SendFrame)];
    SendFrameText();
    assert c1 + c2 == Stream(fs) && Received(fs) == d by {
      TwoSends();
    }
    assert Feed("", c1 + c2).frames == d by {
      FeedStream(fs);
    }
    assert FeedRetaining("", c1).frames + FeedRetaining(FeedRetaining("", c1).buffer, c2).frames == d by {
      assert Stream(fs)[..|c1|] == c1 && Stream(fs)[|c1|..] == c2;
      FeedRetainingAnyCut(fs, |c1|);
    }
    assert Feed("", c1) == FeedResult([Delivered(SendFrame)], "") by {
      NoCommand("SE", "SE");
      FeedCompleteThenPartial(SendFrame, "SE");
    }
    assert Feed("", c2) == FeedResult([], "") by {
      NoCommand("ND\n\n", "ND");
      FeedUndefinedThenNul("ND\n\n");
    }
  }

  /** Two SEND frames back to back, and what the receiver gets for them. */
  lemma TwoSends()
    ensures Stream([SendFrame, SendFrame]) == Serialize(SendFrame) + "SE" + ("ND\n\n" + [NullChar])
    ensures Received([SendFrame, SendFrame]) == [Delivered(SendFrame), Delivered(SendFrame)]
  {
    var fs := [SendFrame, SendFrame];
    SendFrameText();
    assert Stream(fs) == Serialize(SendFrame) + Stream([SendFrame]);
    assert Stream([SendFrame]) == Serialize(SendFrame) + Stream([]);
    assert Received(fs) == [Delivered(SendFrame)] + Received([SendFrame]);
    assert Received([SendFrame]) == [Delivered(SendFrame)] + Received([]);
  }

  /** "SE" and "ND" name no command. */
  lemma NoCommand(seg: string, first: string)
    requires (seg, first) == ("SE", "SE") || (seg, first) == ("ND\n\n", "ND")
    ensures Split(seg, LineFeed)[0] == first && CommandFromText(first).Failure?
  {
    if seg == "SE" {
      SplitNoSeparator(seg, LineFeed);
    } else {
      assert seg == "ND" + [LineFeed] + "\n";
      SplitCons("ND", "\n", LineFeed);
    }
  }
}
