/** What an event stream writer may rely on: encoded events are decoded to themselves however the
    text is chunked, and comment lines may be put in between lines without disturbing any event. */
module EventStreamRoundTrip {
  import opened Prelude
  import opened EventStreamSpec
  import opened FrameDecoder

  /** An event that the format can carry: a name within one line, data without CR. */
  predicate Encodable(e: Frame) {
    e.Event? && e.name != [] && NoBreaks(e.name) && CR !in e.data
  }

  predicate AllEncodable(events: seq<Frame>) {
    forall i :: 0 <= i < |events| ==> Encodable(events[i])
  }

  /** One data line per LF-separated piece of the data. */
  function DataLines(pieces: seq<string>): seq<string> {
    if pieces == [] then [] else DataLines(pieces[..|pieces| - 1]) + ["data: " + pieces[|pieces| - 1]]
  }

  function EventLines(e: Frame): seq<string>
    requires e.Event?
  {
    ["event: " + e.name] + DataLines(Lines(e.data + [LF])) + [[]]
  }

  function StreamLines(events: seq<Frame>): seq<string>
    requires AllEncodable(events)
  {
    if events == [] then [] else EventLines(events[0]) + StreamLines(events[1..])
  }

  /** Every line ended by LF. */
  function Encode(events: seq<Frame>): string
    requires AllEncodable(events)
  {
    DataBuffer(StreamLines(events))
  }

  // ---------------------------------------------------------------- lines and text

  /** A text that is empty or ends in LF is a good place to cut. */
  lemma LinesAfterBreak(a: string, b: string)
    requires a == [] || a[|a| - 1] == LF
    ensures Lines(a + b) == Lines(a) + Lines(b)
  {
    if a == [] {
      assert a + b == b;
    } else {
      var front := a[..|a| - 1];
      assert a == front + [LF];
      LinesFromBreak([], front, b);
    }
  }

  lemma {:induction false} LinesOfText(lines: seq<string>)
    requires forall i :: 0 <= i < |lines| ==> NoBreaks(lines[i])
    ensures CR !in DataBuffer(lines) && Lines(DataBuffer(lines)) == lines
    ensures DataBuffer(lines) != [] ==> DataBuffer(lines)[|DataBuffer(lines)| - 1] == LF
    decreases |lines|
  {
    if lines != [] {
      var front, last := lines[..|lines| - 1], lines[|lines| - 1];
      LinesOfText(front);
      var text := DataBuffer(front);
      OneLine([], last, []);
      assert [] + last == last && last + [LF] + [] == last + [LF];
      LinesAfterBreak(text, last + [LF]);
      assert text + last + [LF] == text + (last + [LF]);
      assert front + [last] == lines;
    }
  }

  lemma {:induction false} DataBufferFront(line: string, lines: seq<string>)
    ensures DataBuffer([line] + lines) == line + [LF] + DataBuffer(lines)
    decreases |lines|
  {
    if lines == [] {
      assert [line] + lines == [line] && [line][..0] == [];
      assert DataBuffer([]) == [];
    } else {
      assert ([line] + lines)[..|lines|] == [line] + lines[..|lines| - 1];
      DataBufferFront(line, lines[..|lines| - 1]);
      assert line + [LF] + DataBuffer(lines[..|lines| - 1]) + lines[|lines| - 1] + [LF] ==
             line + [LF] + DataBuffer(lines);
    }
  }

  lemma {:induction false} TextOfLines(line: string, text: string)
    requires LF !in line && CR !in line && CR !in text
    ensures DataBuffer(LinesFrom(line, text + [LF])) == line + text + [LF]
    ensures forall i :: 0 <= i < |LinesFrom(line, text)| ==> NoBreaks(LinesFrom(line, text)[i])
    decreases |text|
  {
    if text == [] {
      assert text + [LF] == [LF] && [LF][1..] == [];
      assert LinesFrom([], []) == [] && LinesFrom(line, [LF]) == [line];
      assert [line][..0] == [] && DataBuffer([]) == [];
      assert DataBuffer([line]) == line + [LF];
    } else {
      var more := text[1..];
      assert (text + [LF])[1..] == more + [LF];
      if text[0] == LF {
        TextOfLines([], more);
        DataBufferFront(line, LinesFrom([], more + [LF]));
        assert line + text + [LF] == line + [LF] + ([] + more + [LF]);
      } else {
        TextOfLines(line + [text[0]], more);
        assert line + [text[0]] + more == line + text;
      }
    }
  }

  // ---------------------------------------------------------------- round trip

  lemma {:induction false} FieldOfLine(field: string, value: string)
    requires ':' !in field
    ensures BeforeColon(field + ": " + value) == field
    ensures WithoutLeadingSpace(AfterColon(field + ": " + value)) == value
    decreases |field|
  {
    var line := field + ": " + value;
    if field == [] {
      assert line[1..] == [' '] + value && ([' '] + value)[1..] == value;
    } else {
      assert line[1..] == field[1..] + ": " + value;
      FieldOfLine(field[1..], value);
    }
  }

  lemma InterpretFieldLine(b: Buffers, field: string, value: string)
    requires field != [] && ':' !in field
    ensures Interpret(b, field + ": " + value) == (SetField(b, field, value), [])
  {
    FieldOfLine(field, value);
    assert (field + ": " + value)[0] == field[0];
  }

  lemma InterpretOne(b: Buffers, line: string)
    ensures InterpretAll(b, [line]) == Interpret(b, line)
  {
    var (b', now) := Interpret(b, line);
    assert [line][1..] == [] && InterpretAll(b', []) == (b', []);
    assert now + [] == now;
  }

  lemma {:induction false} InterpretDataLines(eventType: string, pieces: seq<string>)
    ensures InterpretAll(Buffers(eventType, []), DataLines(pieces)) == (Buffers(eventType, DataBuffer(pieces)), [])
    decreases |pieces|
  {
    if pieces != [] {
      var front, last := pieces[..|pieces| - 1], pieces[|pieces| - 1];
      InterpretDataLines(eventType, front);
      InterpretAppend(Buffers(eventType, []), DataLines(front), ["data: " + last]);
      var b := Buffers(eventType, DataBuffer(front));
      assert "data: " == "data" + ": ";
      InterpretFieldLine(b, "data", last);
      InterpretOne(b, "data: " + last);
    }
  }

  lemma EventRoundTrip(e: Frame)
    requires Encodable(e)
    ensures InterpretAll(FRESH, EventLines(e)) == (FRESH, [e])
  {
    var pieces := Lines(e.data + [LF]);
    var (first, middle, last) := (["event: " + e.name], DataLines(pieces), [[]]);
    var b1, b2 := Buffers(e.name, []), Buffers(e.name, e.data + [LF]);
    assert InterpretAll(FRESH, first) == (b1, []) by {
      assert "event: " == "event" + ": ";
      InterpretFieldLine(FRESH, "event", e.name);
      InterpretOne(FRESH, "event: " + e.name);
    }
    assert InterpretAll(b1, middle) == (b2, []) by {
      TextOfLines([], e.data);
      assert [] + e.data + [LF] == e.data + [LF];
      InterpretDataLines(e.name, pieces);
    }
    assert InterpretAll(b2, last) == (FRESH, [e]) by {
      assert b2.data[..|b2.data| - 1] == e.data;
      InterpretOne(b2, []);
    }
    InterpretAppend(FRESH, first, middle);
    InterpretAppend(FRESH, first + middle, last);
    var none: seq<Frame> := [];
    assert none + none == none && none + [e] == [e];
  }

  lemma {:induction false} DataLinesHaveNoBreaks(pieces: seq<string>)
    requires forall i :: 0 <= i < |pieces| ==> NoBreaks(pieces[i])
    ensures forall i :: 0 <= i < |DataLines(pieces)| ==> NoBreaks(DataLines(pieces)[i])
    decreases |pieces|
  {
    if pieces != [] {
      DataLinesHaveNoBreaks(pieces[..|pieces| - 1]);
      assert NoBreaks("data: " + pieces[|pieces| - 1]);
    }
  }

  lemma EventLinesHaveNoBreaks(e: Frame)
    requires Encodable(e)
    ensures forall i :: 0 <= i < |EventLines(e)| ==> NoBreaks(EventLines(e)[i])
  {
    var pieces := Lines(e.data + [LF]);
    assert forall i :: 0 <= i < |pieces| ==> NoBreaks(pieces[i]) by {
      TextOfLines([], e.data + [LF]);
    }
    DataLinesHaveNoBreaks(pieces);
    assert NoBreaks("event: " + e.name);
  }

  lemma {:induction false} StreamLinesRoundTrip(events: seq<Frame>)
    requires AllEncodable(events)
    ensures InterpretAll(FRESH, StreamLines(events)) == (FRESH, events)
    ensures forall i :: 0 <= i < |StreamLines(events)| ==> NoBreaks(StreamLines(events)[i])
    decreases |events|
  {
    if events != [] {
      EventRoundTrip(events[0]);
      EventLinesHaveNoBreaks(events[0]);
      StreamLinesRoundTrip(events[1..]);
      InterpretAppend(FRESH, EventLines(events[0]), StreamLines(events[1..]));
      assert [events[0]] + events[1..] == events;
    }
  }

  lemma {:induction false} FinalLFIsTaken(pending: string, f: Fields)
    requires pending == [] || EndsIn(pending, LF)
    ensures Drain(pending, f).pending == []
    decreases |pending|
  {
    match Split(pending) {
      case None =>
        SplitFails(pending);
      case Some((line, rest)) =>
        SplitKeepsEnd(pending);
        FinalLFIsTaken(rest, TakeLine(f, line).0);
    }
  }

  /** Encoding any list of events and decoding the text, cut into any chunks, returns the list,
      with no text and no field left over. */
  lemma StreamRoundTrip(events: seq<Frame>, chunks: seq<string>)
    requires AllEncodable(events) && Flatten(chunks) == Encode(events)
    ensures FeedAll([], BLANK, chunks) == Outcome([], BLANK, events)
  {
    var text := Encode(events);
    StreamLinesRoundTrip(events);
    LinesOfText(StreamLines(events));
    NormalizePlain(text);
    DrainIsInterpretAll(text, BLANK);
    FinalLFIsTaken(text, BLANK);
    var data := Decode(text).fields.data;
    assert DataBuffer(data) == [];
    if data != [] {
      JoinIsBuffer(data);
    }
    ChunkIndependence([], BLANK, chunks);
    assert [] + Flatten(chunks) == Flatten(chunks);
  }

  // ---------------------------------------------------------------- comments

  function EventsOf(frames: seq<Frame>): seq<Frame> {
    if frames == [] then []
    else (if frames[0].Event? then [frames[0]] else []) + EventsOf(frames[1..])
  }

  lemma {:induction false} EventsOfAppend(a: seq<Frame>, b: seq<Frame>)
    ensures EventsOf(a + b) == EventsOf(a) + EventsOf(b)
    decreases |a|
  {
    if a == [] {
      assert a + b == b;
    } else {
      var head := if a[0].Event? then [a[0]] else [];
      var rest := a[1..];
      assert EventsOf(a + b) == head + EventsOf(rest + b) by {
        assert (a + b)[1..] == rest + b;
      }
      EventsOfAppend(rest, b);
      assert head + (EventsOf(rest) + EventsOf(b)) == head + EventsOf(rest) + EventsOf(b);
    }
  }

  /** A line begins here: at the very start, after a LF, or after a CR that no LF follows. */
  predicate LineBegins(before: string, after: string) {
    || before == []
    || EndsIn(before, LF)
    || (EndsIn(before, CR) && (after == [] || after[0] != LF))
  }

  lemma NormalizedEndCR(a: string)
    requires a != [] && a[|a| - 1] == CR
    ensures Normalize(a) != [] && Normalize(a)[|Normalize(a)| - 1] == LF
  {
    var body := a[..|a| - 1];
    assert a == body + [CR] && [CR][1..] == [];
    NormalizeAppend(body, [CR]);
  }

  lemma NormalizedEnd(a: string)
    requires a == [] || a[|a| - 1] in {CR, LF}
    ensures Normalize(a) == [] || Normalize(a)[|Normalize(a)| - 1] == LF
  {
    if a != [] {
      var body, last := a[..|a| - 1], [a[|a| - 1]];
      assert a == body + last && last[1..] == [];
      if last == [LF] && body != [] && body[|body| - 1] == CR {
        CRLFIsCR(body);
        NormalizedEndCR(body);
      } else {
        NormalizeAppend(body, last);
      }
    }
  }

  /** The standard's lines of two texts that meet where a line begins. */
  lemma LinesMeet(a: string, b: string)
    requires a == [] || a[|a| - 1] in {CR, LF}
    requires a != [] && a[|a| - 1] == CR && b != [] ==> b[0] != LF
    ensures Lines(Normalize(a + b)) == Lines(Normalize(a)) + Lines(Normalize(b))
  {
    NormalizeAppend(a, b);
    NormalizedEnd(a);
    LinesAfterBreak(Normalize(a), Normalize(b));
  }

  lemma DecodeMeeting(a: string, b: string)
    requires LineBegins(a, b) && (b != [] || !EndsIn(a, CR))
    ensures Decode(a + b).frames ==
            InterpretAll(FRESH, Lines(Normalize(a)) + Lines(Normalize(WithoutFinalCR(b)))).1
  {
    assert WithoutFinalCR(a + b) == a + WithoutFinalCR(b);
    DecoderRefinesStandard(a + b);
    LinesMeet(a, WithoutFinalCR(b));
  }

  lemma CommentLineIsInvisible(head: seq<string>, line: string, tail: seq<string>)
    requires line != [] && line[0] == ':'
    ensures EventsOf(InterpretAll(FRESH, head + ([line] + tail)).1) == EventsOf(InterpretAll(FRESH, head + tail).1)
  {
    var b := InterpretAll(FRESH, head).0;
    InterpretAppend(FRESH, head, tail);
    InterpretAppend(FRESH, head, [line] + tail);
    assert ([line] + tail)[1..] == tail;
    var early, late := InterpretAll(FRESH, head).1, InterpretAll(b, tail).1;
    EventsOfAppend(early, late);
    EventsOfAppend(early, [Comment] + late);
    assert ([Comment] + late)[1..] == late;
  }

  /** A comment line can be ended by any break, but a CR ends it only if no LF follows. */
  predicate EndsComment(brk: string, after: string) {
    brk in {[CR, LF], [CR], [LF]} && (brk == [CR] ==> after == [] || after[0] != LF)
  }

  /** The events of the standard's lines on both sides. */
  function EventsAround(before: string, after: string): seq<Frame> {
    EventsOf(InterpretAll(FRESH, Lines(Normalize(before)) + Lines(Normalize(WithoutFinalCR(after)))).1)
  }

  lemma CommentAtEnd(before: string, line: string)
    requires LineBegins(before, []) && NoBreaks(line) && line != []
    ensures EventsOf(Decode(before + (line + [CR])).frames) == EventsAround(before, [])
  {
    assert Lines(Normalize(WithoutFinalCR(line + [CR]))) == [] by {
      assert WithoutFinalCR(line + [CR]) == line;
      NoLine(line);
    }
    assert Lines(Normalize(WithoutFinalCR([]))) == [] by {
      NoLine([]);
    }
    DecodeMeeting(before, line + [CR]);
  }

  lemma CommentInside(before: string, line: string, brk: string, after: string)
    requires LineBegins(before, after) && NoBreaks(line) && line != [] && line[0] == ':'
    requires EndsComment(brk, after) && (brk == [CR] ==> after != [])
    ensures EventsOf(Decode(before + (line + brk + after)).frames) == EventsAround(before, after)
  {
    var rest := WithoutFinalCR(after);
    assert Lines(Normalize(WithoutFinalCR(line + brk + after))) == [line] + Lines(Normalize(rest)) by {
      assert WithoutFinalCR(line + brk + after) == line + brk + rest;
      FirstLine(line, brk, rest);
    }
    DecodeMeeting(before, line + brk + after);
    CommentLineIsInvisible(Lines(Normalize(before)), line, Lines(Normalize(rest)));
  }

  lemma EventsHeldBack(before: string)
    requires EndsIn(before, CR)
    ensures EventsAround(before, []) == EventsOf(Decode(before).frames) + EventsOf(HeldBack(before))
  {
    StandardReadsFinalCR(before);
    EventsOfAppend(Decode(before).frames, HeldBack(before));
    NoLine([]);
    assert Lines(Normalize(before)) + [] == Lines(Normalize(before));
  }

  /** What comes out besides when a comment is put in between. */
  function Released(before: string, after: string): seq<Frame> {
    if after == [] && EndsIn(before, CR) then EventsOf(HeldBack(before)) else []
  }

  lemma PlainEvents(before: string, after: string)
    requires LineBegins(before, after)
    ensures EventsOf(Decode(before + after).frames) + Released(before, after) == EventsAround(before, after)
  {
    if after == [] && EndsIn(before, CR) {
      assert before + after == before;
      EventsHeldBack(before);
    } else {
      DecodeMeeting(before, after);
      assert EventsAround(before, after) + [] == EventsAround(before, after);
    }
  }

  /** A comment line put in wherever a line begins leaves the events as they were, except that behind the whole
      text it releases an event whose blank line a final CR ends. */
  lemma EventsWithComment(before: string, comment: string, brk: string, after: string)
    requires LineBegins(before, after) && NoBreaks(comment) && EndsComment(brk, after)
    ensures EventsOf(Decode(before + ([':'] + comment + brk + after)).frames) ==
            EventsOf(Decode(before + after).frames) + Released(before, after)
  {
    PlainEvents(before, after);
    var line := [':'] + comment;
    if brk == [CR] && after == [] {
      assert line + brk + after == line + [CR];
      CommentAtEnd(before, line);
    } else {
      CommentInside(before, line, brk, after);
    }
  }

  lemma ReleasedExactly(before: string, after: string)
    ensures Released(before, after) == [] <==> !(after == [] && EventAtCR(before))
  {
    if after == [] && EndsIn(before, CR) {
      HeldBackExactly(before);
      if |HeldBack(before)| == 1 {
        assert HeldBack(before)[1..] == [];
      }
    }
  }

  lemma NothingAdded(events: seq<Frame>, more: seq<Frame>)
    ensures events + more == events <==> more == []
  {
    assert |events + more| == |events| + |more|;
  }

  /** So a comment line put in wherever a line begins leaves all events as they were exactly when it is not put
      behind a text whose final CR ends the blank line of an event that has data. */
  lemma CommentsAreInvisible(before: string, comment: string, brk: string, after: string)
    requires LineBegins(before, after) && NoBreaks(comment) && EndsComment(brk, after)
    ensures var with := EventsOf(Decode(before + ([':'] + comment + brk + after)).frames);
            with == EventsOf(Decode(before + after).frames) <==> !(after == [] && EventAtCR(before))
  {
    EventsWithComment(before, comment, brk, after);
    ReleasedExactly(before, after);
    NothingAdded(EventsOf(Decode(before + after).frames), Released(before, after));
  }

  lemma {:induction false} NothingBehindLF(line: string, text: string)
    ensures LastLine(line, text + [LF]) == []
    decreases |text|
  {
    if text == [] {
      assert [] + [LF] == [LF] && [LF][1..] == [];
    } else {
      assert (text + [LF])[1..] == text[1..] + [LF];
      NothingBehindLF(if text[0] == LF then [] else line + [text[0]], text[1..]);
    }
  }

  lemma OneDataLine(data: string)
    requires NoBreaks(data)
    ensures var body := "data: " + data + [LF];
            Normalize(body) == body && Lines(body) == ["data: " + data] && LastLine([], body) == []
  {
    var line := "data: " + data;
    NormalizePlain(line + [LF]);
    FirstLine(line, [LF], []);
    NoLine([]);
    assert line + [LF] + [] == line + [LF];
    NothingBehindLF([], line);
  }

  lemma DataLineRead(data: string)
    ensures InterpretAll(FRESH, ["data: " + data]) == (Buffers([], data + [LF]), [])
    ensures Interpret(Buffers([], data + [LF]), []) == (FRESH, [Event("message", data)])
  {
    InterpretOne(FRESH, "data: " + data);
    assert "data" + ": " + data == "data: " + data;
    InterpretFieldLine(FRESH, "data", data);
    assert [] + data == data && (data + [LF])[..|data|] == data;
  }

  /** A text with one data line whose blank line is ended by a final CR: the event is held back. */
  lemma DataHeldBack(data: string)
    requires NoBreaks(data)
    ensures var text := "data: " + data + [LF] + [CR];
            Decode(text).frames == [] && HeldBack(text) == [Event("message", data)]
  {
    var body := "data: " + data + [LF];
    var text := body + [CR];
    assert WithoutFinalCR(text) == body && EndsIn(text, CR);
    OneDataLine(data);
    DataLineRead(data);
    assert Decode(text).frames == [] by {
      DecoderRefinesStandard(text);
    }
    assert Read(text) == [] + HeldBack(text) by {
      StandardReadsFinalCR(text);
    }
    assert Read(text) == [] + [Event("message", data)] by {
      StandardReadsLineAtCR(text);
    }
    SameStart([], HeldBack(text), [Event("message", data)]);
  }

  /** Such a text, for any data: whatever comment follows brings out the event. */
  lemma CommentReleasesEvent(data: string, comment: string)
    requires NoBreaks(data) && NoBreaks(comment)
    ensures var text := "data: " + data + [LF] + [CR];
            && LineBegins(text, []) && EventsOf(Decode(text).frames) == []
            && EventsOf(Decode(text + ([':'] + comment + [LF])).frames) == [Event("message", data)]
  {
    var text := "data: " + data + [LF] + [CR];
    DataHeldBack(data);
    EventsWithComment(text, comment, [LF], []);
    assert text + [] == text && [':'] + comment + [LF] + [] == [':'] + comment + [LF];
    assert [Event("message", data)][1..] == [];
  }
}
