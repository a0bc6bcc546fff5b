/** What sections 9.2.5 and 9.2.6 of the WHATWG HTML Living Standard ask of a reader of an event
    stream, on a whole text: break it into lines, then interpret line by line with a string data
    buffer.  A marker per comment line is the one addition. */
module EventStreamSpec {

  datatype Frame = Event(name: string, data: string) | Comment

  const CR := '\r'
  const LF := '\n'
  const BOM := '\U{FEFF}'

  /** CRLF, CR and LF all end a line: write each as one LF. */
  function Normalize(text: string): string {
    if text == [] then []
    else if text[0] == CR then [LF] + Normalize(if |text| > 1 && text[1] == LF then text[2..] else text[1..])
    else [text[0]] + Normalize(text[1..])
  }

  function LinesFrom(line: string, text: string): seq<string>
    decreases |text|
  {
    if text == [] then []
    else if text[0] == LF then [line] + LinesFrom([], text[1..])
    else LinesFrom(line + [text[0]], text[1..])
  }

  /** The LF-terminated lines of a text; an unterminated last line is discarded. */
  function Lines(text: string): seq<string> {
    LinesFrom([], text)
  }

  function BeforeColon(line: string): string {
    if line == [] || line[0] == ':' then [] else [line[0]] + BeforeColon(line[1..])
  }

  function AfterColon(line: string): string {
    if line == [] then [] else if line[0] == ':' then line[1..] else AfterColon(line[1..])
  }

  function WithoutLeadingSpace(value: string): string {
    if value != [] && value[0] == ' ' then value[1..] else value
  }

  /** The event type buffer and the data buffer. */
  datatype Buffers = Buffers(eventType: string, data: string)

  const FRESH := Buffers([], [])

  function Dispatch(b: Buffers): seq<Frame> {
    if b.data == [] then []
    else
      var data := if b.data[|b.data| - 1] == LF then b.data[..|b.data| - 1] else b.data;
      [Event(if b.eventType == [] then "message" else b.eventType, data)]
  }

  function SetField(b: Buffers, field: string, value: string): Buffers {
    if field == "event" then b.(eventType := value)
    else if field == "data" then b.(data := b.data + value + [LF])
    else b
  }

  function Interpret(b: Buffers, line: string): (Buffers, seq<Frame>) {
    if line == [] then (FRESH, Dispatch(b))
    else if line[0] == ':' then (b, [Comment])
    else (SetField(b, BeforeColon(line), WithoutLeadingSpace(AfterColon(line))), [])
  }

  function InterpretAll(b: Buffers, lines: seq<string>): (Buffers, seq<Frame>)
    decreases |lines|
  {
    if lines == [] then (b, [])
    else
      var (b', now) := Interpret(b, lines[0]);
      var (b'', later) := InterpretAll(b', lines[1..]);
      (b'', now + later)
  }

  /** The frames of a whole text (a leading byte order mark is not treated here). */
  function Read(text: string): seq<Frame> {
    InterpretAll(FRESH, Lines(Normalize(text))).1
  }

  // ---------------------------------------------------------------- laws

  predicate NoBreaks(s: string) {
    CR !in s && LF !in s
  }

  lemma {:induction false} InterpretAppend(b: Buffers, xs: seq<string>, ys: seq<string>)
    ensures InterpretAll(b, xs + ys).0 == InterpretAll(InterpretAll(b, xs).0, ys).0
    ensures InterpretAll(b, xs + ys).1 == InterpretAll(b, xs).1 + InterpretAll(InterpretAll(b, xs).0, ys).1
    decreases |xs|
  {
    if xs == [] {
      assert xs + ys == ys;
    } else {
      assert (xs + ys)[1..] == xs[1..] + ys;
      InterpretAppend(Interpret(b, xs[0]).0, xs[1..], ys);
    }
  }

  /** Normalisation is local, except that a CR and a following LF belong together. */
  lemma {:induction false} NormalizeAppend(a: string, b: string)
    requires !(a != [] && a[|a| - 1] == CR && b != [] && b[0] == LF)
    ensures Normalize(a + b) == Normalize(a) + Normalize(b)
    decreases |a|
  {
    if a == [] {
      assert a + b == b;
    } else {
      var n := if a[0] == CR && |a| > 1 && a[1] == LF then 2 else 1;
      var head, rest := [if a[0] == CR then LF else a[0]], a[n..];
      assert Normalize(a) == head + Normalize(rest);
      assert Normalize(a + b) == head + Normalize(rest + b) by {
        assert (a + b)[0] == a[0] && (a + b)[n..] == rest + b;
      }
      NormalizeAppend(rest, b);
      assert head + (Normalize(rest) + Normalize(b)) == head + Normalize(rest) + Normalize(b);
    }
  }

  lemma {:induction false} NormalizePlain(a: string)
    requires CR !in a
    ensures Normalize(a) == a
    decreases |a|
  {
    if a != [] {
      NormalizePlain(a[1..]);
    }
  }

  /** A line break is a good place to cut a text. */
  lemma {:induction false} LinesFromBreak(line: string, a: string, b: string)
    ensures LinesFrom(line, a + [LF] + b) == LinesFrom(line, a + [LF]) + Lines(b)
    decreases |a|
  {
    if a == [] {
      assert a + [LF] + b == [LF] + b && ([LF] + b)[1..] == b;
      assert a + [LF] == [LF] && [LF][1..] == [];
      assert LinesFrom([], []) == [];
    } else if a[0] == LF {
      assert (a + [LF] + b)[1..] == a[1..] + [LF] + b && (a + [LF])[1..] == a[1..] + [LF];
      LinesFromBreak([], a[1..], b);
    } else {
      assert (a + [LF] + b)[1..] == a[1..] + [LF] + b && (a + [LF])[1..] == a[1..] + [LF];
      LinesFromBreak(line + [a[0]], a[1..], b);
    }
  }

  lemma {:induction false} OneLine(start: string, rest: string, b: string)
    requires LF !in rest
    ensures LinesFrom(start, rest + [LF] + b) == [start + rest] + Lines(b)
    ensures LinesFrom(start, rest) == []
    decreases |rest|
  {
    if rest == [] {
      assert rest + [LF] + b == [LF] + b && ([LF] + b)[1..] == b;
      assert start + rest == start;
    } else {
      assert (rest + [LF] + b)[1..] == rest[1..] + [LF] + b;
      assert (start + [rest[0]]) + rest[1..] == start + rest;
      OneLine(start + [rest[0]], rest[1..], b);
    }
  }

  /** The first line of a text that has one: `line`, a break, the rest. */
  lemma FirstLine(line: string, brk: string, rest: string)
    requires NoBreaks(line) && brk in {[CR, LF], [CR], [LF]}
    requires brk == [CR] ==> rest == [] || rest[0] != LF
    ensures Lines(Normalize(line + brk + rest)) == [line] + Lines(Normalize(rest))
  {
    NormalizePlain(line);
    NormalizeAppend(line + brk, rest);
    NormalizeAppend(line, brk);
    assert brk == [CR, LF] ==> brk[2..] == [];
    assert brk != [CR, LF] ==> brk[1..] == [];
    assert Normalize(brk) == [LF];
    OneLine([], line, Normalize(rest));
    assert [] + line == line;
  }

  lemma NoLine(text: string)
    requires NoBreaks(text)
    ensures Lines(Normalize(text)) == []
  {
    NormalizePlain(text);
    OneLine([], text, []);
  }
}
