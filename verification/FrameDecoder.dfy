/** The incremental decoder `_aiter_frames` of src/onelo/_sse.py: text arrives in chunks of any
    shape, complete lines are cut off the front of `pending`, and a CR at the very end is kept
    back because the next chunk may begin with its LF. */
module FrameDecoder {
  import opened Prelude
  import opened EventStreamSpec

  /** str.find for one character: the first position, or -1. */
  function Find(s: string, c: char): (r: int)
    ensures -1 <= r < |s|
    ensures r == -1 <==> c !in s
    ensures r >= 0 ==> s[r] == c && c !in s[..r]
    decreases |s|
  {
    if s == [] then -1
    else if s[0] == c then 0
    else
      var r := Find(s[1..], c);
      assert r >= 0 ==> s[..r + 1] == [s[0]] + s[1..][..r];
      if r == -1 then -1 else r + 1
  }

  /** The nearest CR or LF, or -1. */
  function Cut(pending: string): (r: int)
    ensures -1 <= r < |pending|
    ensures r == -1 <==> NoBreaks(pending)
    ensures r >= 0 ==> pending[r] in {CR, LF} && NoBreaks(pending[..r])
  {
    var cr := Find(pending, CR);
    var lf := Find(pending, LF);
    assert 0 <= lf < cr ==> pending[..lf] == pending[..cr][..lf];
    assert 0 <= cr < lf ==> pending[..cr] == pending[..lf][..cr];
    if cr == -1 then lf else if lf == -1 then cr else if cr < lf then cr else lf
  }

  /** The first line of `pending` and what follows its break. There is none as long as there is no
      break, or only a CR at the very end. */
  function Split(pending: string): (r: Option<(string, string)>)
    ensures r.Some? ==> |r.value.1| < |pending|
  {
    var cut := Cut(pending);
    if cut == -1 || (pending[cut] == CR && cut == |pending| - 1) then None
    else
      var n := if pending[cut] == CR && pending[cut + 1] == LF then 2 else 1;
      Some((pending[..cut], pending[cut + n..]))
  }

  /** str.partition(":"), without the separator. */
  function Partition(line: string): (string, string) {
    var i := Find(line, ':');
    if i == -1 then (line, []) else (line[..i], line[i + 1..])
  }

  function Join(data: seq<string>): string {
    if data == [] then []
    else if |data| == 1 then data[0]
    else Join(data[..|data| - 1]) + [LF] + data[|data| - 1]
  }

  /** The fields collected for the event being read. */
  datatype Fields = Fields(event: string, data: seq<string>)

  const BLANK := Fields([], [])

  function Assign(f: Fields, field: string, value: string): Fields {
    if field == "event" then f.(event := value)
    else if field == "data" then f.(data := f.data + [value])
    else f
  }

  function TakeLine(f: Fields, line: string): (Fields, seq<Frame>) {
    if line == [] then
      (BLANK,
       if f.data == [] then [] else [Event(if f.event == [] then "message" else f.event, Join(f.data))])
    else if line[0] == ':' then (f, [Comment])
    else
      var (field, value) := Partition(line);
      (Assign(f, field, WithoutLeadingSpace(value)), [])
  }

  /** Where the decoder is left, and the frames it emitted on the way. */
  datatype Outcome = Outcome(pending: string, fields: Fields, frames: seq<Frame>) {
    function After(frames: seq<Frame>): Outcome {
      this.(frames := frames + this.frames)
    }
  }

  /** The inner loop: cut off lines until no more can be. */
  function Drain(pending: string, f: Fields): Outcome
    decreases |pending|
  {
    match Split(pending)
    case None => Outcome(pending, f, [])
    case Some((line, rest)) =>
      var (f', frames) := TakeLine(f, line);
      Drain(rest, f').After(frames)
  }

  /** The outer loop, from the middle of a stream. */
  function FeedAll(pending: string, f: Fields, chunks: seq<string>): Outcome
    decreases |chunks|
  {
    if chunks == [] then Outcome(pending, f, [])
    else
      var now := Drain(pending + chunks[0], f);
      FeedAll(now.pending, now.fields, chunks[1..]).After(now.frames)
  }

  /** The whole text at once. */
  function Decode(text: string): Outcome {
    Drain(text, BLANK)
  }

  // ---------------------------------------------------------------- chunk independence

  lemma CutIs(s: string, cut: nat)
    requires cut < |s| && s[cut] in {CR, LF} && NoBreaks(s[..cut])
    ensures Cut(s) == cut
  {
    var r := Cut(s);
    assert s[cut] in s;
    assert forall i :: 0 <= i < cut ==> s[i] == s[..cut][i];
    assert forall i :: 0 <= i < r ==> s[i] == s[..r][i];
  }

  lemma TailOfLonger(s: string, more: string, n: nat)
    requires n <= |s|
    ensures (s + more)[n..] == s[n..] + more
  {
  }

  /** A line that can be cut off is the same line whatever text follows. */
  lemma SplitIsStable(pending: string, more: string)
    requires Split(pending).Some?
    ensures var (line, rest) := Split(pending).value; Split(pending + more) == Some((line, rest + more))
  {
    var cut := Cut(pending);
    var longer := pending + more;
    assert longer[..cut] == pending[..cut];
    CutIs(longer, cut);
    assert pending[cut] == CR ==> longer[cut + 1] == pending[cut + 1];
    var n := if pending[cut] == CR && pending[cut + 1] == LF then 2 else 1;
    TailOfLonger(pending, more, cut + n);
  }

  lemma AfterAfter(o: Outcome, a: seq<Frame>, b: seq<Frame>)
    ensures o.After(b).After(a) == o.After(a + b)
    ensures o.After([]) == o
  {
    assert a + (b + o.frames) == a + b + o.frames;
    assert [] + o.frames == o.frames;
  }

  /** Draining twice, with text arriving in between, is draining once. */
  lemma {:induction false} DrainInTwo(pending: string, f: Fields, more: string)
    ensures var now := Drain(pending, f);
            Drain(pending + more, f) == Drain(now.pending + more, now.fields).After(now.frames)
    decreases |pending|
  {
    var now := Drain(pending, f);
    var late := Drain(now.pending + more, now.fields);
    match Split(pending) {
      case None =>
        AfterAfter(late, [], []);
      case Some((line, rest)) =>
        SplitIsStable(pending, more);
        var (f', frames) := TakeLine(f, line);
        DrainInTwo(rest, f', more);
        AfterAfter(late, frames, Drain(rest, f').frames);
    }
  }

  lemma {:induction false} DrainStops(pending: string, f: Fields)
    ensures Split(Drain(pending, f).pending).None?
    decreases |pending|
  {
    if Split(pending).Some? {
      DrainStops(Split(pending).value.1, TakeLine(f, Split(pending).value.0).0);
    }
  }

  /** Any split of a text into chunks, also inside a CRLF and with empty chunks, gives the frames and
      the final variables of the whole. */
  lemma {:induction false} ChunkIndependence(pending: string, f: Fields, chunks: seq<string>)
    requires Split(pending).None?
    ensures FeedAll(pending, f, chunks) == Drain(pending + Flatten(chunks), f)
    decreases |chunks|
  {
    if chunks == [] {
      assert pending + Flatten(chunks) == pending;
    } else {
      var all, rest := pending + chunks[0], Flatten(chunks[1..]);
      assert pending + Flatten(chunks) == all + rest by {
        FlattenFront(chunks);
      }
      DrainStops(all, f);
      var now := Drain(all, f);
      ChunkIndependence(now.pending, now.fields, chunks[1..]);
      DrainInTwo(all, f, rest);
    }
  }

  /** What has been emitted is never taken back: the frames of a prefix are a prefix of the frames. */
  lemma FramesOfPrefix(text: string, more: string)
    ensures Decode(text).frames <= Decode(text + more).frames
  {
    DrainInTwo(text, BLANK, more);
  }

  // ---------------------------------------------------------------- the standard

  /** The text without a final CR, which the decoder keeps back. */
  function WithoutFinalCR(text: string): string {
    if text != [] && text[|text| - 1] == CR then text[..|text| - 1] else text
  }

  /** The standard's data buffer for a list of data lines: each followed by LF. */
  function DataBuffer(data: seq<string>): string {
    if data == [] then [] else DataBuffer(data[..|data| - 1]) + data[|data| - 1] + [LF]
  }

  function Buffered(f: Fields): Buffers {
    Buffers(f.event, DataBuffer(f.data))
  }

  lemma {:induction false} JoinIsBuffer(data: seq<string>)
    requires data != []
    ensures DataBuffer(data) == Join(data) + [LF]
    decreases |data|
  {
    if |data| > 1 {
      JoinIsBuffer(data[..|data| - 1]);
    } else {
      assert DataBuffer(data[..0]) == [];
    }
  }

  lemma {:induction false} PartitionIsFirstColon(line: string)
    ensures Partition(line) == (BeforeColon(line), AfterColon(line))
    decreases |line|
  {
    if line != [] && line[0] != ':' {
      PartitionIsFirstColon(line[1..]);
      var i := Find(line, ':');
      if i != -1 {
        assert line[..i] == [line[0]] + line[1..][..i - 1];
        assert line[i + 1..] == line[1..][i..];
      } else {
        assert line == [line[0]] + line[1..];
      }
    } else if line != [] {
      assert line[..0] == [];
    }
  }

  lemma AssignIsSetField(f: Fields, field: string, value: string)
    ensures Buffered(Assign(f, field, value)) == SetField(Buffered(f), field, value)
  {
    assert (f.data + [value])[..|f.data|] == f.data;
  }

  lemma BlankLineIsDispatch(f: Fields)
    ensures TakeLine(f, []) == (BLANK, Dispatch(Buffered(f)))
  {
    if f.data != [] {
      JoinIsBuffer(f.data);
      assert DataBuffer(f.data)[..|DataBuffer(f.data)| - 1] == Join(f.data);
    }
  }

  lemma TakeLineIsInterpret(f: Fields, line: string)
    ensures Interpret(Buffered(f), line) == (Buffered(TakeLine(f, line).0), TakeLine(f, line).1)
  {
    if line == [] {
      BlankLineIsDispatch(f);
    } else if line[0] != ':' {
      PartitionIsFirstColon(line);
      AssignIsSetField(f, BeforeColon(line), WithoutLeadingSpace(AfterColon(line)));
    }
  }

  /** How a line is cut off: it has no break in it, and the break is the longest that fits. */
  lemma SplitParts(pending: string) returns (brk: string)
    requires Split(pending).Some?
    ensures var (line, rest) := Split(pending).value;
            && pending == line + brk + rest && NoBreaks(line) && brk in {[CR, LF], [CR], [LF]}
            && (brk == [CR] ==> rest != [] && rest[0] != LF)
  {
    var cut := Cut(pending);
    var n := if pending[cut] == CR && pending[cut + 1] == LF then 2 else 1;
    brk := pending[cut..cut + n];
    assert brk == if n == 2 then [CR, LF] else [pending[cut]];
    assert n == 1 && pending[cut] == CR ==> pending[cut + 1] == pending[cut + n..][0];
  }

  lemma SplitFails(pending: string)
    requires Split(pending).None?
    ensures NoBreaks(WithoutFinalCR(pending))
  {
  }

  /** The lines that the standard sees are those that the decoder cuts off. */
  lemma SplitIsFirstLine(pending: string)
    ensures var lines := Lines(Normalize(WithoutFinalCR(pending)));
            match Split(pending)
            case None => lines == []
            case Some((line, rest)) => lines == [line] + Lines(Normalize(WithoutFinalCR(rest)))
  {
    match Split(pending) {
      case None =>
        SplitFails(pending);
        NoLine(WithoutFinalCR(pending));
      case Some((line, rest)) =>
        var brk := SplitParts(pending);
        assert WithoutFinalCR(line + brk + rest) == line + brk + WithoutFinalCR(rest);
        FirstLine(line, brk, WithoutFinalCR(rest));
    }
  }

  lemma {:induction false} DrainIsInterpretAll(pending: string, f: Fields)
    ensures InterpretAll(Buffered(f), Lines(Normalize(WithoutFinalCR(pending)))) ==
            (Buffered(Drain(pending, f).fields), Drain(pending, f).frames)
    decreases |pending|
  {
    SplitIsFirstLine(pending);
    match Split(pending) {
      case None =>
      case Some((line, rest)) =>
        TakeLineIsInterpret(f, line);
        DrainIsInterpretAll(rest, TakeLine(f, line).0);
        var later := Lines(Normalize(WithoutFinalCR(rest)));
        assert ([line] + later)[1..] == later;
    }
  }

  /** The decoder against the standard, for every text: it reads exactly what the standard reads
      from the text without a final lone CR. */
  lemma DecoderRefinesStandard(text: string)
    ensures Decode(text).frames == Read(WithoutFinalCR(text))
  {
    DrainIsInterpretAll(text, BLANK);
  }

  /** The frames that the line ended by a final CR would complete. */
  function HeldBack(text: string): seq<Frame> {
    var end := Decode(text);
    if end.pending == [] then [] else TakeLine(end.fields, WithoutFinalCR(end.pending)).1
  }

  predicate EndsIn(s: string, c: char) {
    s != [] && s[|s| - 1] == c
  }

  /** Cutting off a line does not touch the end of the text. */
  lemma SplitKeepsEnd(pending: string)
    requires Split(pending).Some?
    ensures var rest := Split(pending).value.1;
            && (EndsIn(pending, CR) ==> EndsIn(rest, CR))
            && (EndsIn(pending, LF) ==> rest == [] || EndsIn(rest, LF))
  {
    var brk := SplitParts(pending);
    var (line, rest) := Split(pending).value;
    assert rest != [] ==> (line + brk + rest)[|line + brk + rest| - 1] == rest[|rest| - 1];
    assert rest == [] ==> (line + brk + rest)[|line + brk + rest| - 1] == brk[|brk| - 1];
  }

  lemma {:induction false} FinalCRStays(pending: string, f: Fields)
    requires EndsIn(pending, CR)
    ensures var left := Drain(pending, f).pending; EndsIn(left, CR) && NoBreaks(WithoutFinalCR(left))
    decreases |pending|
  {
    match Split(pending) {
      case None =>
        SplitFails(pending);
      case Some((line, rest)) =>
        SplitKeepsEnd(pending);
        FinalCRStays(rest, TakeLine(f, line).0);
    }
  }

  lemma CRLFIsCR(text: string)
    requires EndsIn(text, CR)
    ensures Normalize(text + [LF]) == Normalize(text)
  {
    var body := text[..|text| - 1];
    assert text == body + [CR] && text + [LF] == body + [CR, LF];
    NormalizeAppend(body, [CR]);
    NormalizeAppend(body, [CR, LF]);
    assert [CR, LF][2..] == [] && [CR][1..] == [];
  }

  /** One LF more, and the line before a kept-back CR is taken. */
  lemma LFReleasesLine(left: string, f: Fields)
    requires EndsIn(left, CR) && NoBreaks(WithoutFinalCR(left))
    ensures Drain(left + [LF], f).frames == TakeLine(f, WithoutFinalCR(left)).1
  {
    var line, q := WithoutFinalCR(left), left + [LF];
    assert Split(q) == Some((line, [])) by {
      assert q[..|line|] == line && q[|line| + 2..] == [];
      CutIs(q, |line|);
    }
    assert Drain([], TakeLine(f, line).0).frames == [];
  }

  lemma HeldBackComesOut(text: string)
    requires EndsIn(text, CR)
    ensures Decode(text + [LF]).frames == Decode(text).frames + HeldBack(text)
  {
    var end := Decode(text);
    assert EndsIn(end.pending, CR) && NoBreaks(WithoutFinalCR(end.pending)) by {
      FinalCRStays(text, BLANK);
    }
    assert Drain(end.pending + [LF], end.fields).frames == HeldBack(text) by {
      LFReleasesLine(end.pending, end.fields);
    }
    DrainInTwo(text, BLANK, [LF]);
  }

  /** What the standard reads from a text ending in CR: what was emitted, and what is held back. */
  lemma StandardReadsFinalCR(text: string)
    requires EndsIn(text, CR)
    ensures Read(text) == Decode(text).frames + HeldBack(text)
  {
    assert Read(text) == Decode(text + [LF]).frames by {
      CRLFIsCR(text);
      assert WithoutFinalCR(text + [LF]) == text + [LF];
      DecoderRefinesStandard(text + [LF]);
    }
    assert Decode(text + [LF]).frames == Decode(text).frames + HeldBack(text) by {
      HeldBackComesOut(text);
    }
  }

  // ---------------------------------------------------------------- a final CR, read off the text

  /** What stands behind the last LF, after `line`. */
  function LastLine(line: string, text: string): string
    decreases |text|
  {
    if text == [] then line
    else if text[0] == LF then LastLine([], text[1..])
    else LastLine(line + [text[0]], text[1..])
  }

  /** A data line has come since the last blank one. */
  predicate DataPending(lines: seq<string>, pending: bool)
    decreases |lines|
  {
    if lines == [] then pending
    else DataPending(lines[1..], lines[0] != [] && (pending || BeforeColon(lines[0]) == "data"))
  }

  /** The line that a final CR ends. */
  function LineAtCR(text: string): string {
    LastLine([], Normalize(WithoutFinalCR(text)))
  }

  /** A final CR ends a comment. */
  predicate CommentAtCR(text: string) {
    EndsIn(text, CR) && LineAtCR(text) != [] && LineAtCR(text)[0] == ':'
  }

  /** A final CR ends the blank line of an event that has data. */
  predicate EventAtCR(text: string) {
    EndsIn(text, CR) && LineAtCR(text) == [] && DataPending(Lines(Normalize(WithoutFinalCR(text))), false)
  }

  lemma {:induction false} LinesWithLast(line: string, text: string)
    ensures LinesFrom(line, text + [LF]) == LinesFrom(line, text) + [LastLine(line, text)]
    decreases |text|
  {
    if text == [] {
      assert [] + [LF] == [LF] && [LF][1..] == [];
      assert LinesFrom([], []) == [];
    } else {
      assert (text + [LF])[1..] == text[1..] + [LF];
      LinesWithLast(if text[0] == LF then [] else line + [text[0]], text[1..]);
    }
  }

  lemma {:induction false} DataIsPending(b: Buffers, lines: seq<string>)
    ensures InterpretAll(b, lines).0.data != [] <==> DataPending(lines, b.data != [])
    decreases |lines|
  {
    if lines != [] {
      DataIsPending(Interpret(b, lines[0]).0, lines[1..]);
    }
  }

  /** The standard's reading of the line that a final CR ends. */
  lemma StandardReadsLineAtCR(text: string)
    requires EndsIn(text, CR)
    ensures var lines := Lines(Normalize(WithoutFinalCR(text)));
            Read(text) == Decode(text).frames + Interpret(InterpretAll(FRESH, lines).0, LineAtCR(text)).1
  {
    var body := WithoutFinalCR(text);
    var lines, last := Lines(Normalize(body)), LineAtCR(text);
    assert Lines(Normalize(text)) == lines + [last] by {
      assert text == body + [CR] && Normalize([CR]) == [LF] by {
        assert [CR][1..] == [];
      }
      NormalizeAppend(body, [CR]);
      LinesWithLast([], Normalize(body));
    }
    DecoderRefinesStandard(text);
    InterpretAppend(FRESH, lines, [last]);
    var b := InterpretAll(FRESH, lines).0;
    assert InterpretAll(b, [last]).1 == Interpret(b, last).1 by {
      assert [last][1..] == [] && Interpret(b, last).1 + [] == Interpret(b, last).1;
    }
  }

  lemma SameStart<T>(start: seq<T>, x: seq<T>, y: seq<T>)
    requires start + x == start + y
    ensures x == y
  {
    assert (start + x)[|start|..] == x && (start + y)[|start|..] == y;
  }

  /** What is held back, read off the text: a comment, an event, or nothing. */
  lemma HeldBackExactly(text: string)
    requires EndsIn(text, CR)
    ensures CommentAtCR(text) ==> HeldBack(text) == [Comment]
    ensures EventAtCR(text) ==> |HeldBack(text)| == 1 && HeldBack(text)[0].Event?
    ensures !CommentAtCR(text) && !EventAtCR(text) ==> HeldBack(text) == []
  {
    StandardReadsFinalCR(text);
    StandardReadsLineAtCR(text);
    var lines := Lines(Normalize(WithoutFinalCR(text)));
    var b := InterpretAll(FRESH, lines).0;
    SameStart(Decode(text).frames, HeldBack(text), Interpret(b, LineAtCR(text)).1);
    DataIsPending(FRESH, lines);
  }

  /** So the decoder agrees with the standard on a whole text exactly when no final CR ends a comment or the
      blank line of an event that has data. */
  lemma AgreesWithStandard(text: string)
    ensures Decode(text).frames == Read(text) <==> !CommentAtCR(text) && !EventAtCR(text)
  {
    if EndsIn(text, CR) {
      StandardReadsFinalCR(text);
      HeldBackExactly(text);
      assert Decode(text).frames + [] == Decode(text).frames;
    } else {
      DecoderRefinesStandard(text);
    }
  }

  // ---------------------------------------------------------------- the generator

  /** The part of the loop body that cuts off one line. */
  method NextLine(pending: string) returns (line: Option<string>, rest: string)
    ensures match Split(pending)
            case None => line == None
            case Some((first, others)) => line == Some(first) && rest == others
  {
    var cut := Cut(pending);
    if cut == -1 || (pending[cut] == CR && cut == |pending| - 1) {
      return None, pending;
    }
    var step := if pending[cut] == CR && pending[cut + 1] == LF then 2 else 1;
    return Some(pending[..cut]), pending[cut + step..];
  }

  /** The part of the loop body that looks at one line. */
  method NextFields(event: string, data: seq<string>, line: string)
    returns (event': string, data': seq<string>, news: seq<Frame>)
    ensures (Fields(event', data'), news) == TakeLine(Fields(event, data), line)
    ensures (Buffers(event', DataBuffer(data')), news) == Interpret(Buffers(event, DataBuffer(data)), line)
  {
    event', data', news := event, data, [];
    if line == [] {
      if data != [] {
        news := [Event(if event == [] then "message" else event, Join(data))];
      }
      event', data' := [], [];
    } else if line[0] == ':' {
      news := [Comment];
    } else {
      var (field, value) := Partition(line);
      if value != [] && value[0] == ' ' {
        value := value[1..];
      }
      if field == "event" {
        event' := value;
      } else if field == "data" {
        data' := data + [value];
      }
    }
    TakeLineIsInterpret(Fields(event, data), line);
  }

  lemma DrainOne(pending: string, f: Fields, frames: seq<Frame>)
    requires Split(pending).Some?
    ensures var (line, rest) := Split(pending).value;
            var (f', news) := TakeLine(f, line);
            Drain(pending, f).After(frames) == Drain(rest, f').After(frames + news)
  {
    var (line, rest) := Split(pending).value;
    var (f', news) := TakeLine(f, line);
    AfterAfter(Drain(rest, f'), frames, news);
  }

  /** The inner loop. */
  method TakeLines(text: string, event0: string, data0: seq<string>)
    returns (pending: string, event: string, data: seq<string>, frames: seq<Frame>)
    ensures Outcome(pending, Fields(event, data), frames) == Drain(text, Fields(event0, data0))
  {
    pending, event, data, frames := text, event0, data0, [];
    ghost var goal := Drain(text, Fields(event0, data0));
    AfterAfter(goal, [], []);
    while true
      invariant goal == Drain(pending, Fields(event, data)).After(frames)
      decreases |pending|
    {
      var line, rest := NextLine(pending);
      if line.None? {
        break;
      }
      DrainOne(pending, Fields(event, data), frames);
      pending := rest;
      var news;
      event, data, news := NextFields(event, data, line.value);
      frames := frames + news;
    }
    assert frames + [] == frames;
  }

  lemma FeedOne(pending: string, f: Fields, chunks: seq<string>, frames: seq<Frame>)
    requires chunks != []
    ensures var now := Drain(pending + chunks[0], f);
            FeedAll(pending, f, chunks).After(frames) ==
            FeedAll(now.pending, now.fields, chunks[1..]).After(now.After(frames).frames)
  {
    var now := Drain(pending + chunks[0], f);
    AfterAfter(FeedAll(now.pending, now.fields, chunks[1..]), frames, now.frames);
  }

  /** The generator itself: `frames` are what it yields, the rest its variables when the body ends. */
  method AiterFrames(chunks: seq<string>)
    returns (frames: seq<Frame>, pending: string, event: string, data: seq<string>)
    ensures Outcome(pending, Fields(event, data), frames) == Decode(Flatten(chunks))
    ensures frames == Read(WithoutFinalCR(Flatten(chunks)))
  {
    frames, pending, event, data := [], [], [], [];
    ghost var goal := FeedAll(pending, BLANK, chunks);
    AfterAfter(goal, [], []);
    for i := 0 to |chunks|
      invariant goal == FeedAll(pending, Fields(event, data), chunks[i..]).After(frames)
    {
      FeedOne(pending, Fields(event, data), chunks[i..], frames);
      assert chunks[i..][1..] == chunks[i + 1..];
      var news;
      pending, event, data, news := TakeLines(pending + chunks[i], event, data);
      frames := frames + news;
    }
    ChunkIndependence([], BLANK, chunks);
    assert [] + Flatten(chunks) == Flatten(chunks);
    DecoderRefinesStandard(Flatten(chunks));
  }
}
