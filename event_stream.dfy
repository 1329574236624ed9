/** The read loop of `streamTranslateWholeWithOpenAI` in
    subtitle/background.js: a simplified reader of a server-sent event
    stream. The decoded text arrives in pieces; complete frames are cut off
    at each blank line ("\n\n"), every trimmed `data:` line of a frame is
    dispatched on its own, and the outcome is a sequence of messages posted
    to the content script's port. `JSON.parse` and the reading of the
    parsed object are abstracted as a classifier from payload to event. */
module EventStream {
  import opened Seqs
  import opened JsText

  /** What a `data:` payload means once parsed. */
  datatype StreamEvent =
    | DeltaText(delta: string)  // type "response.output_text.delta" with a string `delta`
    | Completed                 // type "response.completed"
    | Failed(error: string)     // type "response.error"; "" for a missing or falsy `error`
    | Other                     // any other value `JSON.parse` accepts
    | Unparseable               // `JSON.parse` throws

  /** A `port.postMessage` payload. */
  datatype PortMessage = DeltaMsg(text: string) | DoneMsg | ErrorMsg(error: string)

  const FrameEnd := "\n\n"
  const DataPrefix := "data:"
  const DoneMarker := "[DONE]"

  // ---------------------------------------------------------------------
  // Framing

  /** The complete frames at the front of `buf`, in order. */
  function Frames(buf: string): seq<string>
    decreases |buf|
  {
    var idx := IndexOf(buf, FrameEnd);
    if idx < 0 then [] else [buf[..idx]] + Frames(buf[idx + 2..])
  }

  /** What stays in the buffer once every complete frame is cut off. */
  function Remainder(buf: string): string
    decreases |buf|
  {
    var idx := IndexOf(buf, FrameEnd);
    if idx < 0 then buf else Remainder(buf[idx + 2..])
  }

  /** The frames written back with their terminators. */
  function Unframe(frames: seq<string>): string
  {
    if frames == [] then [] else Unframe(frames[..|frames| - 1]) + frames[|frames| - 1] + FrameEnd
  }

  ghost predicate NoFrameEnd(s: string)
  {
    forall j :: !OccursAt(s, FrameEnd, j)
  }

  lemma UnframeCons(f: string, frames: seq<string>)
    ensures Unframe([f] + frames) == f + FrameEnd + Unframe(frames)
    decreases |frames|
  {
    if frames != [] {
      assert ([f] + frames)[..|frames|] == [f] + frames[..|frames| - 1];
      UnframeCons(f, frames[..|frames| - 1]);
    } else {
      assert ([f] + frames)[..0] == [];
    }
  }

  lemma FrameSplit(buf: string, idx: int)
    requires OccursAt(buf, FrameEnd, idx)
    ensures buf == buf[..idx] + FrameEnd + buf[idx + 2..]
  {
    assert buf == buf[..idx] + buf[idx..idx + 2] + buf[idx + 2..];
  }

  /** Cutting frames loses and duplicates nothing: the frames, each with its
      terminator, followed by the remainder, are the buffer. */
  lemma {:induction false} FramesConserve(buf: string)
    ensures Unframe(Frames(buf)) + Remainder(buf) == buf
    decreases |buf|
  {
    var idx := IndexOf(buf, FrameEnd);
    if idx >= 0 {
      var frame, rest := buf[..idx], buf[idx + 2..];
      FramesConserve(rest);
      UnframeCons(frame, Frames(rest));
      assert Frames(buf) == [frame] + Frames(rest);
      assert Remainder(buf) == Remainder(rest);
      ConcatAssoc(frame + FrameEnd, Unframe(Frames(rest)), Remainder(rest));
      FrameSplit(buf, idx);
    }
  }

  /** After the inner loop the buffer holds no terminator. */
  lemma {:induction false} RemainderHasNoFrameEnd(buf: string)
    ensures NoFrameEnd(Remainder(buf))
    decreases |buf|
  {
    var idx := IndexOf(buf, FrameEnd);
    if idx >= 0 {
      RemainderHasNoFrameEnd(buf[idx + 2..]);
    } else {
      IndexOfFirst(buf, FrameEnd);
    }
  }

  /** A frame ends at the first terminator, so it holds none. */
  lemma {:induction false} FramesHaveNoFrameEnd(buf: string)
    ensures forall i :: 0 <= i < |Frames(buf)| ==> NoFrameEnd(Frames(buf)[i])
    decreases |buf|
  {
    var idx := IndexOf(buf, FrameEnd);
    if idx >= 0 {
      var frame := buf[..idx];
      FramesHaveNoFrameEnd(buf[idx + 2..]);
      IndexOfFirst(buf, FrameEnd);
      forall j ensures !OccursAt(frame, FrameEnd, j) {
        if 0 <= j && j + 2 <= |frame| {
          assert !OccursAt(buf, FrameEnd, j);
          assert frame[j..j + 2] == buf[j..j + 2];
        }
      }
    }
  }

  /** The first terminator of `x` is the first one of `x + y`. */
  lemma IndexOfAppend(x: string, y: string)
    requires IndexOf(x, FrameEnd) >= 0
    ensures IndexOf(x + y, FrameEnd) == IndexOf(x, FrameEnd)
  {
    var i := IndexOf(x, FrameEnd);
    IndexOfFirst(x, FrameEnd);
    IndexOfFirst(x + y, FrameEnd);
    assert OccursAt(x + y, FrameEnd, i) by {
      assert (x + y)[i..i + 2] == x[i..i + 2];
    }
    forall j | 0 <= j < i ensures !OccursAt(x + y, FrameEnd, j) {
      assert !OccursAt(x, FrameEnd, j);
      assert j + 2 <= |x|;
      assert (x + y)[j..j + 2] == x[j..j + 2];
    }
  }

  /** Reading `y` after `x` yields the frames of `x`, then the frames of
      what `x` left in the buffer followed by `y`: where the text is cut
      into reads does not matter. */
  lemma {:induction false} FramesAppend(x: string, y: string)
    ensures Frames(x + y) == Frames(x) + Frames(Remainder(x) + y)
    decreases |x|
  {
    var idx := IndexOf(x, FrameEnd);
    if idx >= 0 {
      CutAppend(x, y);
      FramesAppend(x[idx + 2..], y);
      ConcatAssoc([x[..idx]], Frames(x[idx + 2..]), Frames(Remainder(x[idx + 2..]) + y));
    }
  }

  /** A terminator in `x` cuts `x + y` where it cuts `x`. */
  lemma CutAppend(x: string, y: string)
    requires IndexOf(x, FrameEnd) >= 0
    ensures var idx := IndexOf(x, FrameEnd);
      && Frames(x + y) == [x[..idx]] + Frames(x[idx + 2..] + y)
      && Remainder(x + y) == Remainder(x[idx + 2..] + y)
  {
    var idx := IndexOf(x, FrameEnd);
    IndexOfAppend(x, y);
    assert (x + y)[..idx] == x[..idx];
    assert (x + y)[idx + 2..] == x[idx + 2..] + y;
  }

  /** ... and leaves the same remainder. */
  lemma {:induction false} RemainderAppend(x: string, y: string)
    ensures Remainder(x + y) == Remainder(Remainder(x) + y)
    decreases |x|
  {
    var idx := IndexOf(x, FrameEnd);
    if idx >= 0 {
      CutAppend(x, y);
      RemainderAppend(x[idx + 2..], y);
    }
  }

  // ---------------------------------------------------------------------
  // Dispatch

  /** `frame.split("\n").map(l => l.trim()).filter(Boolean)` */
  function FrameLines(frame: string): seq<string>
  {
    TrimmedNonBlank(Split(frame, '\n'))
  }

  /** The payload of a `data:` line: what follows the prefix, trimmed. */
  function Payload(line: string): string
    requires StartsWith(line, DataPrefix)
  {
    Trim(line[|DataPrefix|..])
  }

  /** The message a parsed event posts, if any. */
  function EventMessages(evt: StreamEvent): seq<PortMessage>
  {
    match evt
    case DeltaText(t) => [DeltaMsg(t)]
    case Completed => [DoneMsg]
    case Failed(e) => [ErrorMsg(if e == [] then "streaming error" else e)]
    case Other => []
    case Unparseable => []
  }

  /** The messages a `data:` payload posts: `done` for an empty payload or
      the `[DONE]` marker, otherwise those of the parsed event. */
  function PayloadMessages(data: string, parse: string -> StreamEvent): seq<PortMessage>
  {
    if data == [] || data == DoneMarker then [DoneMsg] else EventMessages(parse(data))
  }

  /** The messages one line posts. */
  function LineMessages(line: string, parse: string -> StreamEvent): seq<PortMessage>
  {
    if StartsWith(line, DataPrefix) then PayloadMessages(Payload(line), parse) else []
  }

  /** The messages of a sequence of lines, in order. */
  function LinesMessages(lines: seq<string>, parse: string -> StreamEvent): seq<PortMessage>
  {
    if lines == [] then []
    else LinesMessages(lines[..|lines| - 1], parse) + LineMessages(lines[|lines| - 1], parse)
  }

  /** The messages of a sequence of frames, in order. */
  function FramesMessages(frames: seq<string>, parse: string -> StreamEvent): seq<PortMessage>
  {
    if frames == [] then []
    else FramesMessages(frames[..|frames| - 1], parse) + LinesMessages(FrameLines(frames[|frames| - 1]), parse)
  }

  /** Everything posted for a stream read in the pieces `received`: the
      messages of every complete frame, then one final `done`. */
  function StreamMessages(received: seq<string>, parse: string -> StreamEvent): seq<PortMessage>
  {
    FramesMessages(Frames(Flatten(received)), parse) + [DoneMsg]
  }

  /** The number of `delta` messages. */
  function Deltas(messages: seq<PortMessage>): nat
  {
    if messages == [] then 0
    else Deltas(messages[..|messages| - 1]) + (if messages[|messages| - 1].DeltaMsg? then 1 else 0)
  }

  /** One line posts at most one message, and only a `data:` line posts; a
      `delta` message exactly when the payload is a delta event, carrying
      its text unchanged; an `error` message never with an empty text. */
  lemma LineDispatch(line: string, parse: string -> StreamEvent)
    ensures |LineMessages(line, parse)| <= 1
    ensures LineMessages(line, parse) != [] ==> StartsWith(line, DataPrefix)
    ensures forall t :: DeltaMsg(t) in LineMessages(line, parse) <==>
              StartsWith(line, DataPrefix) && Payload(line) != [] && Payload(line) != DoneMarker
              && parse(Payload(line)) == DeltaText(t)
    ensures forall e :: ErrorMsg(e) in LineMessages(line, parse) ==> e != []
  {
  }

  /** A `data:` line whose payload does not parse posts nothing, and the
      lines after it are dispatched as if it were not there. */
  lemma UnparseableSkipped(before: seq<string>, line: string, after: seq<string>, parse: string -> StreamEvent)
    requires StartsWith(line, DataPrefix) && parse(Payload(line)) == Unparseable
    requires Payload(line) != [] && Payload(line) != DoneMarker
    ensures LinesMessages(before + [line] + after, parse) == LinesMessages(before, parse) + LinesMessages(after, parse)
  {
    LinesMessagesAppend(before + [line], after, parse);
    LinesMessagesSnoc(before, line, parse);
  }

  /** Text after the last terminator is never dispatched: a final piece
      that completes no frame changes nothing that is posted. */
  lemma TrailingTextDiscarded(received: seq<string>, tail: string, parse: string -> StreamEvent)
    requires NoFrameEnd(Remainder(Flatten(received)) + tail)
    ensures StreamMessages(received + [tail], parse) == StreamMessages(received, parse)
  {
    assert (received + [tail])[..|received|] == received;
    FramesAppend(Flatten(received), tail);
    assert Frames(Remainder(Flatten(received)) + tail) == [];
    assert Frames(Flatten(received)) + [] == Frames(Flatten(received));
  }

  /** The final `done` is posted even after a `[DONE]` frame: a stream
      holding only that frame posts `done` twice. */
  lemma DoneTwice(parse: string -> StreamEvent)
    ensures StreamMessages(["data: [DONE]\n\n"], parse) == [DoneMsg, DoneMsg]
  {
    var line := "data: [DONE]";
    assert line + FrameEnd == "data: [DONE]\n\n";
    OneFrameStream(line, parse);
    DoneLineMessages(parse);
  }

  /** A stream of one single-line frame posts that line's messages, then `done`. */
  lemma OneFrameStream(line: string, parse: string -> StreamEvent)
    requires '\n' !in line && IsTrimmed(line) && line != []
    ensures StreamMessages([line + FrameEnd], parse) == LineMessages(line, parse) + [DoneMsg]
  {
    var pieces: seq<string> := [line + FrameEnd];
    assert pieces[..0] == [];
    assert Flatten(pieces) == line + FrameEnd;
    SingleFrame(line);
    SingleLine(line);
    var frames: seq<string> := [line];
    assert frames[..0] == [];
    assert LinesMessages(frames, parse) == LineMessages(line, parse);
    assert FramesMessages(frames, parse) == LinesMessages(FrameLines(line), parse);
  }

  lemma DoneLineMessages(parse: string -> StreamEvent)
    ensures LineMessages("data: [DONE]", parse) == [DoneMsg]
  {
    var line := "data: [DONE]";
    assert StartsWith(line, DataPrefix) by {
      assert line[..5] == DataPrefix;
    }
    TrimDone();
  }

  /** A line break-free text with one terminator is one frame. */
  lemma SingleFrame(frame: string)
    requires '\n' !in frame
    ensures Frames(frame + FrameEnd) == [frame]
  {
    var text := frame + FrameEnd;
    var i := |frame|;
    assert OccursAt(text, FrameEnd, i) by {
      assert text[i..i + 2] == FrameEnd;
    }
    forall j | 0 <= j < i ensures !OccursAt(text, FrameEnd, j) {
      assert text[j] == frame[j] != '\n';
      assert text[j..j + 2][0] == text[j];
    }
    IndexOfIs(text, FrameEnd, i);
    assert text[..i] == frame && text[i + 2..] == [];
  }

  /** A trimmed, non-blank frame with no line break is one line. */
  lemma SingleLine(line: string)
    requires '\n' !in line && IsTrimmed(line) && line != []
    ensures FrameLines(line) == [line]
  {
    SplitNoSeparator(line, '\n');
    TrimFixesTrimmed(line);
    var lines: seq<string> := [line];
    assert lines[..0] == [];
  }

  lemma TrimDone()
    ensures Trim("data: [DONE]"[5..]) == DoneMarker
  {
    var s := "data: [DONE]"[5..];
    assert s == " [DONE]";
    assert s[1..] == DoneMarker;
  }

  lemma LinesMessagesStep(lines: seq<string>, l: nat, parse: string -> StreamEvent)
    requires l < |lines|
    ensures LinesMessages(lines[..l + 1], parse) == LinesMessages(lines[..l], parse) + LineMessages(lines[l], parse)
  {
    assert lines[..l + 1][..l] == lines[..l];
  }

  lemma LinesMessagesSnoc(lines: seq<string>, line: string, parse: string -> StreamEvent)
    ensures LinesMessages(lines + [line], parse) == LinesMessages(lines, parse) + LineMessages(line, parse)
  {
    assert (lines + [line])[..|lines|] == lines;
  }

  lemma {:induction false} LinesMessagesAppend(a: seq<string>, b: seq<string>, parse: string -> StreamEvent)
    ensures LinesMessages(a + b, parse) == LinesMessages(a, parse) + LinesMessages(b, parse)
  {
    if b != [] {
      var init, last := b[..|b| - 1], b[|b| - 1];
      LinesMessagesAppend(a, init, parse);
      assert (a + b)[..|a + b| - 1] == a + init;
      ConcatAssoc(LinesMessages(a, parse), LinesMessages(init, parse), LineMessages(last, parse));
    } else {
      assert a + b == a;
    }
  }

  lemma {:induction false} FramesMessagesAppend(a: seq<string>, b: seq<string>, parse: string -> StreamEvent)
    ensures FramesMessages(a + b, parse) == FramesMessages(a, parse) + FramesMessages(b, parse)
  {
    if b != [] {
      var init, last := b[..|b| - 1], b[|b| - 1];
      FramesMessagesAppend(a, init, parse);
      assert (a + b)[..|a + b| - 1] == a + init;
      ConcatAssoc(FramesMessages(a, parse), FramesMessages(init, parse), LinesMessages(FrameLines(last), parse));
    } else {
      assert a + b == a;
    }
  }

  lemma FlattenStep(received: seq<string>, r: nat)
    requires r < |received|
    ensures Flatten(received[..r + 1]) == Flatten(received[..r]) + received[r]
  {
    assert received[..r + 1][..r] == received[..r];
  }

  /** Cutting one frame off the front of the buffer. */
  lemma FrameCut(buf: string)
    requires IndexOf(buf, FrameEnd) >= 0
    ensures Frames(buf) == [buf[..IndexOf(buf, FrameEnd)]] + Frames(buf[IndexOf(buf, FrameEnd) + 2..])
  {
  }

  lemma RemainderCut(buf: string)
    requires IndexOf(buf, FrameEnd) >= 0
    ensures Remainder(buf) == Remainder(buf[IndexOf(buf, FrameEnd) + 2..])
  {
  }

  lemma FramesMessagesSnoc(frames: seq<string>, frame: string, parse: string -> StreamEvent)
    ensures FramesMessages(frames + [frame], parse)
            == FramesMessages(frames, parse) + LinesMessages(FrameLines(frame), parse)
  {
    assert (frames + [frame])[..|frames|] == frames;
  }

  lemma DeltasSnoc(messages: seq<PortMessage>, m: PortMessage)
    ensures Deltas(messages + [m]) == Deltas(messages) + (if m.DeltaMsg? then 1 else 0)
  {
    assert (messages + [m])[..|messages|] == messages;
  }

  /** The `for (const line of lines)` loop over one frame's lines: posts
      each line's messages and counts the deltas. */
  method DispatchLines(lines: seq<string>, parse: string -> StreamEvent, before: seq<PortMessage>, count: nat)
    returns (posted: seq<PortMessage>, deltaCount: nat)
    requires count == Deltas(before)
    ensures posted == before + LinesMessages(lines, parse)
    ensures deltaCount == Deltas(posted)
  {
    posted, deltaCount := before, count;
    for l := 0 to |lines|
      invariant posted == before + LinesMessages(lines[..l], parse)
      invariant deltaCount == Deltas(posted)
    {
      LinesMessagesStep(lines, l, parse);
      ConcatAssoc(before, LinesMessages(lines[..l], parse), LineMessages(lines[l], parse));
      var line := lines[l];
      ghost var prev := posted;
      if StartsWith(line, DataPrefix) {
        var data := Trim(line[5..]);
        assert data == Payload(line);
        if data == [] || data == DoneMarker {
          DeltasSnoc(posted, DoneMsg);
          posted := posted + [DoneMsg];
        } else {
          var evt := parse(data);
          match evt
          case DeltaText(delta) =>
            deltaCount := deltaCount + 1;
            DeltasSnoc(posted, DeltaMsg(delta));
            posted := posted + [DeltaMsg(delta)];
          case Completed =>
            DeltasSnoc(posted, DoneMsg);
            posted := posted + [DoneMsg];
          case Failed(error) =>
            DeltasSnoc(posted, ErrorMsg(if error == [] then "streaming error" else error));
            posted := posted + [ErrorMsg(if error == [] then "streaming error" else error)];
          case Other =>
            assert posted == prev + [];
          case Unparseable =>
            assert posted == prev + [];
          assert posted == prev + EventMessages(evt);
        }
        assert posted == prev + PayloadMessages(data, parse);
      } else {
        assert posted == prev + [];
      }
      assert posted == prev + LineMessages(line, parse);
    }
    assert lines[..|lines|] == lines;
  }

  /** One pass of the inner loop keeps the frames cut so far, followed by
      the frames still in the buffer, equal to the frames of the text. */
  lemma DrainStep(text: string, frames: seq<string>, buf: string)
    requires IndexOf(buf, FrameEnd) >= 0
    requires Frames(text) == frames + Frames(buf) && Remainder(text) == Remainder(buf)
    ensures Frames(text) == (frames + [buf[..IndexOf(buf, FrameEnd)]]) + Frames(buf[IndexOf(buf, FrameEnd) + 2..])
    ensures Remainder(text) == Remainder(buf[IndexOf(buf, FrameEnd) + 2..])
  {
    var idx := IndexOf(buf, FrameEnd);
    FrameCut(buf);
    RemainderCut(buf);
    ConcatAssoc(frames, [buf[..idx]], Frames(buf[idx + 2..]));
  }

  lemma PostedStep(before: seq<PortMessage>, frames: seq<string>, frame: string, parse: string -> StreamEvent)
    ensures before + FramesMessages(frames + [frame], parse)
            == before + FramesMessages(frames, parse) + LinesMessages(FrameLines(frame), parse)
  {
    FramesMessagesSnoc(frames, frame, parse);
    ConcatAssoc(before, FramesMessages(frames, parse), LinesMessages(FrameLines(frame), parse));
  }

  /** The inner `while ((idx = sseBuffer.indexOf("\n\n")) >= 0)` loop: cuts
      every complete frame off the buffer and dispatches its lines. */
  method DrainFrames(buffer: string, parse: string -> StreamEvent, before: seq<PortMessage>, count: nat)
    returns (sseBuffer: string, posted: seq<PortMessage>, deltaCount: nat)
    requires count == Deltas(before)
    ensures sseBuffer == Remainder(buffer) && NoFrameEnd(sseBuffer)
    ensures posted == before + FramesMessages(Frames(buffer), parse)
    ensures deltaCount == Deltas(posted)
  {
    sseBuffer, posted, deltaCount := buffer, before, count;
    ghost var frames: seq<string> := [];
    var idx := IndexOf(sseBuffer, FrameEnd);
    while idx >= 0
      invariant idx == IndexOf(sseBuffer, FrameEnd)
      invariant Frames(buffer) == frames + Frames(sseBuffer)
      invariant Remainder(buffer) == Remainder(sseBuffer)
      invariant posted == before + FramesMessages(frames, parse)
      invariant deltaCount == Deltas(posted)
      decreases |sseBuffer|
    {
      var frame := sseBuffer[..idx];
      DrainStep(buffer, frames, sseBuffer);
      PostedStep(before, frames, frame, parse);
      sseBuffer := sseBuffer[idx + 2..];
      frames := frames + [frame];
      posted, deltaCount := DispatchLines(FrameLines(frame), parse, posted, deltaCount);
      idx := IndexOf(sseBuffer, FrameEnd);
    }
    assert frames + [] == frames;
    RemainderHasNoFrameEnd(buffer);
  }

  /** `streamTranslateWholeWithOpenAI`'s read loop over the decoded pieces
      `received` (the reads before `done`); the posted messages and the
      delta counter. */
  method StreamTranslateWhole(received: seq<string>, parse: string -> StreamEvent)
    returns (posted: seq<PortMessage>, deltaCount: nat)
    ensures posted == StreamMessages(received, parse)
    ensures deltaCount == Deltas(posted)
  {
    var sseBuffer := "";
    posted := [];
    deltaCount := 0;
    for r := 0 to |received|
      invariant sseBuffer == Remainder(Flatten(received[..r]))
      invariant posted == FramesMessages(Frames(Flatten(received[..r])), parse)
      invariant deltaCount == Deltas(posted)
    {
      ghost var text := Flatten(received[..r]);
      FlattenStep(received, r);
      FramesAppend(text, received[r]);
      RemainderAppend(text, received[r]);
      FramesMessagesAppend(Frames(text), Frames(sseBuffer + received[r]), parse);
      sseBuffer := sseBuffer + received[r];
      sseBuffer, posted, deltaCount := DrainFrames(sseBuffer, parse, posted, deltaCount);
    }
    assert received[..|received|] == received;
    posted := posted + [DoneMsg];
  }
}
