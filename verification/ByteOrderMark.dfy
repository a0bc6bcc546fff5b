/** The decoder of src/onelo/_sse.py strips no byte order mark, and the standard strips one: what that costs,
    and which texts are read alike all the same. */
module ByteOrderMark {
  import opened EventStreamSpec
  import opened FrameDecoder

  // ---------------------------------------------------------------- the line behind the mark

  lemma {:induction false} FrontOfFirstLine(front: string, line: string, text: string)
    ensures var lines := LinesFrom(line, text);
            LinesFrom(front + line, text) == if lines == [] then [] else [front + lines[0]] + lines[1..]
    decreases |text|
  {
    if text != [] {
      if text[0] == LF {
        assert ([line] + LinesFrom([], text[1..]))[1..] == LinesFrom([], text[1..]);
      } else {
        assert front + line + [text[0]] == front + (line + [text[0]]);
        FrontOfFirstLine(front, line + [text[0]], text[1..]);
      }
    }
  }

  lemma MarkedLineIsIgnored(line: string)
    ensures Interpret(FRESH, [BOM] + line) == (FRESH, [])
  {
    assert BeforeColon([BOM] + line)[0] == BOM;
  }

  lemma MarkedLines(text: string)
    ensures var lines := Lines(Normalize(text));
            Lines(Normalize([BOM] + text)) == if lines == [] then [] else [[BOM] + lines[0]] + lines[1..]
  {
    assert Normalize([BOM] + text) == [BOM] + Normalize(text) by {
      NormalizePlain([BOM]);
      NormalizeAppend([BOM], text);
    }
    var norm := Normalize(text);
    assert Lines([BOM] + norm) == LinesFrom([BOM] + [], norm) by {
      assert ([BOM] + norm)[1..] == norm && [] + [BOM] == [BOM] + [];
    }
    FrontOfFirstLine([BOM], [], norm);
  }

  lemma FirstIgnored(line: string, lines: seq<string>)
    requires Interpret(FRESH, line) == (FRESH, [])
    ensures InterpretAll(FRESH, [line] + lines).1 == InterpretAll(FRESH, lines).1
  {
    assert ([line] + lines)[0] == line && ([line] + lines)[1..] == lines;
  }

  lemma MarkedRead(text: string)
    ensures var lines := Lines(Normalize(text));
            Read([BOM] + text) == InterpretAll(FRESH, if lines == [] then [] else lines[1..]).1
  {
    MarkedLines(text);
    var lines := Lines(Normalize(text));
    if lines != [] {
      MarkedLineIsIgnored(lines[0]);
      FirstIgnored([BOM] + lines[0], lines[1..]);
    }
  }

  lemma MarkStays(text: string)
    ensures WithoutFinalCR([BOM] + text) == [BOM] + WithoutFinalCR(text)
  {
  }

  lemma MarkedDecode(text: string)
    ensures Decode([BOM] + text).frames == Read([BOM] + WithoutFinalCR(text))
  {
    MarkStays(text);
    DecoderRefinesStandard([BOM] + text);
  }

  /** The line behind the mark is lost, and nothing else is. */
  lemma ByteOrderMarkCostsFirstLine(text: string)
    ensures var lines := Lines(Normalize(WithoutFinalCR(text)));
            Decode([BOM] + text).frames == InterpretAll(FRESH, if lines == [] then [] else lines[1..]).1
  {
    MarkedDecode(text);
    MarkedRead(WithoutFinalCR(text));
  }

  // ---------------------------------------------------------------- when the loss shows

  /** An event with data is completed before another one is named. */
  predicate NamesAnEvent(lines: seq<string>, hasData: bool)
    decreases |lines|
  {
    && lines != []
    && if lines[0] == [] then hasData
       else BeforeColon(lines[0]) != "event" && NamesAnEvent(lines[1..], hasData || BeforeColon(lines[0]) == "data")
  }

  /** The first line is a comment, or data of an event that is completed, or the name, other than the default, of
      one. */
  predicate FirstLineShows(lines: seq<string>) {
    && lines != [] && lines[0] != []
    && var field, value, rest := BeforeColon(lines[0]), WithoutLeadingSpace(AfterColon(lines[0])), lines[1..];
       || lines[0][0] == ':'
       || (field == "data" && [] in rest)
       || (field == "event" && value !in {[], "message"} && NamesAnEvent(rest, false))
  }

  /** The data buffer is empty or ends in LF. */
  predicate Whole(b: Buffers) {
    b.data == [] || b.data[|b.data| - 1] == LF
  }

  lemma SamePrefix(now: seq<Frame>, x: seq<Frame>, y: seq<Frame>)
    ensures now + x == now + y <==> x == y
  {
    assert (now + x)[|now|..] == x && (now + y)[|now|..] == y;
  }

  lemma {:induction false} DataShows(a: Buffers, b: Buffers, lines: seq<string>)
    requires a.eventType == b.eventType && Whole(a) && Whole(b) && |a.data| > |b.data|
    ensures InterpretAll(a, lines).1 == InterpretAll(b, lines).1 <==> [] !in lines
    decreases |lines|
  {
    if lines != [] {
      var line, rest := lines[0], lines[1..];
      if line == [] {
        var later := InterpretAll(FRESH, rest).1;
        assert (Dispatch(a) + later)[0] == Dispatch(a)[0];
        assert Dispatch(b) != [] ==> (Dispatch(b) + later)[0] == Dispatch(b)[0];
      } else {
        var (a', now) := Interpret(a, line);
        var (b', _) := Interpret(b, line);
        DataShows(a', b', rest);
        SamePrefix(now, InterpretAll(a', rest).1, InterpretAll(b', rest).1);
      }
    }
  }

  function NameOf(b: Buffers): string {
    if b.eventType == [] then "message" else b.eventType
  }

  lemma {:induction false} NameShows(a: Buffers, b: Buffers, lines: seq<string>)
    requires a.data == b.data && Whole(a)
    ensures InterpretAll(a, lines).1 == InterpretAll(b, lines).1 <==>
              NameOf(a) == NameOf(b) || !NamesAnEvent(lines, a.data != [])
    decreases |lines|
  {
    if lines != [] {
      var line, rest := lines[0], lines[1..];
      if line == [] {
        var later := InterpretAll(FRESH, rest).1;
        if a.data != [] {
          assert (Dispatch(a) + later)[0] == Dispatch(a)[0] && (Dispatch(b) + later)[0] == Dispatch(b)[0];
        }
      } else {
        var (a', now) := Interpret(a, line);
        var (b', _) := Interpret(b, line);
        NameShows(a', b', rest);
        SamePrefix(now, InterpretAll(a', rest).1, InterpretAll(b', rest).1);
      }
    }
  }

  /** Losing data loses frames, if anything. */
  lemma {:induction false} NoMoreFrames(a: Buffers, b: Buffers, lines: seq<string>)
    requires b.data != [] ==> a.data != []
    ensures |InterpretAll(b, lines).1| <= |InterpretAll(a, lines).1|
    decreases |lines|
  {
    if lines != [] {
      NoMoreFrames(Interpret(a, lines[0]).0, Interpret(b, lines[0]).0, lines[1..]);
    }
  }

  lemma LosingFirstLine(lines: seq<string>)
    requires lines != []
    ensures InterpretAll(FRESH, lines[1..]).1 == InterpretAll(FRESH, lines).1 <==> !FirstLineShows(lines)
    ensures |InterpretAll(FRESH, lines[1..]).1| <= |InterpretAll(FRESH, lines).1|
  {
    var (b, now) := Interpret(FRESH, lines[0]);
    var rest := lines[1..];
    NoMoreFrames(b, FRESH, rest);
    assert InterpretAll(FRESH, lines).1 == now + InterpretAll(b, rest).1;
    assert [] + InterpretAll(b, rest).1 == InterpretAll(b, rest).1;
    if lines[0] != [] && lines[0][0] != ':' {
      if BeforeColon(lines[0]) == "data" {
        DataShows(b, FRESH, rest);
      } else {
        NameShows(b, FRESH, rest);
      }
    }
  }

  // ---------------------------------------------------------------- results

  /** With a mark in front the decoder reads what it would read without, for any text, exactly when the first line
      does not show. */
  lemma MarkIsHarmless(text: string)
    ensures Decode([BOM] + text).frames == Decode(text).frames <==>
              !FirstLineShows(Lines(Normalize(WithoutFinalCR(text))))
    ensures |Decode([BOM] + text).frames| <= |Decode(text).frames|
  {
    ByteOrderMarkCostsFirstLine(text);
    DecoderRefinesStandard(text);
    var lines := Lines(Normalize(WithoutFinalCR(text)));
    if lines != [] {
      LosingFirstLine(lines);
    }
  }

  lemma ShorterDiffers(marked: seq<Frame>, plain: seq<Frame>, held: seq<Frame>)
    requires |marked| <= |plain|
    ensures marked == plain + held <==> marked == plain && held == []
  {
    assert plain + [] == plain;
  }

  /** What the standard reads is what the decoder reads and what it holds back, if anything. */
  lemma StandardReads(text: string)
    ensures Read(text) == Decode(text).frames + if EndsIn(text, CR) then HeldBack(text) else []
  {
    if EndsIn(text, CR) {
      StandardReadsFinalCR(text);
    } else {
      DecoderRefinesStandard(text);
      assert Decode(text).frames + [] == Decode(text).frames;
    }
  }

  /** With a mark in front the decoder reads what the standard reads, for any text, exactly when the first line does
      not show and no final CR ends a comment or the blank line of an event that has data. */
  lemma AgreesDespiteMark(text: string)
    ensures Decode([BOM] + text).frames == Read(text) <==>
              && !FirstLineShows(Lines(Normalize(WithoutFinalCR(text))))
              && !CommentAtCR(text) && !EventAtCR(text)
  {
    MarkIsHarmless(text);
    StandardReads(text);
    if EndsIn(text, CR) {
      HeldBackExactly(text);
      ShorterDiffers(Decode([BOM] + text).frames, Decode(text).frames, HeldBack(text));
    } else {
      ShorterDiffers(Decode([BOM] + text).frames, Decode(text).frames, []);
    }
  }

  /** A text at which something is lost: one comment line. */
  lemma MarkLosesComment()
    ensures Decode("\U{FEFF}:\n").frames == [] && Read(":\n") == [Comment]
  {
    var text := ":\n";
    assert [BOM] + text == "\U{FEFF}:\n";
    assert Lines(Normalize(text)) == [":"] by {
      FirstLine(":", [LF], []);
      assert ":" + [LF] + [] == text;
      NoLine([]);
    }
    assert WithoutFinalCR(text) == text;
    ByteOrderMarkCostsFirstLine(text);
    assert [":"][1..] == [];
    assert InterpretAll(FRESH, []).1 == [];
  }
}
