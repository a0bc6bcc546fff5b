/** Every way to write down an event stream, with the characters named outright: groups of field lines, with or
    without the space behind the colon, with or without a colon, each line ended by CRLF, LF or CR.  What the
    decoder of src/onelo/_sse.py makes of it, cut into any chunks, is read off the fields. */
module EventStreamSpellings {
  import opened Prelude
  import opened EventStreamSpec
  import opened FrameDecoder
  import opened EventStreamRoundTrip

  // ---------------------------------------------------------------- fields and what they say

  datatype Style = Spaced | Tight | Bare

  datatype Field = Field(name: string, value: string, style: Style) {
    /** The line that writes the field down. */
    function Line(): string {
      match style
      case Spaced => name + ": " + value
      case Tight => name + ":" + value
      case Bare => name
    }

    predicate Valid() {
      && name != "" && ':' !in name && Unbroken(name) && Unbroken(value)
      && (style == Tight ==> value == "" || value[0] != ' ')
      && (style == Bare ==> value == "")
    }
  }

  predicate Unbroken(s: string) {
    '\r' !in s && '\n' !in s
  }

  type Group = seq<Field>

  predicate AllValid(fields: Group) {
    forall i :: 0 <= i < |fields| ==> fields[i].Valid()
  }

  /** The name that the last `event` field gives. */
  function NameIn(fields: Group): string {
    if fields == [] then ""
    else
      var last := fields[|fields| - 1];
      if last.name == "event" then last.value else NameIn(fields[..|fields| - 1])
  }

  /** The values of the `data` fields, in order. */
  function DataIn(fields: Group): seq<string> {
    if fields == [] then []
    else
      var last := fields[|fields| - 1];
      DataIn(fields[..|fields| - 1]) + if last.name == "data" then [last.value] else []
  }

  function Joined(values: seq<string>): string
    requires values != []
  {
    if |values| == 1 then values[0] else Joined(values[..|values| - 1]) + "\n" + values[|values| - 1]
  }

  /** What a group ended by a blank line says: an event, if it has data. */
  function Said(fields: Group): seq<Frame> {
    var data, name := DataIn(fields), NameIn(fields);
    if data == [] then [] else [Event(if name == "" then "message" else name, Joined(data))]
  }

  function AllSaid(groups: seq<Group>): seq<Frame> {
    if groups == [] then [] else AllSaid(groups[..|groups| - 1]) + Said(groups[|groups| - 1])
  }

  // ---------------------------------------------------------------- the lines

  function FieldLines(fields: Group): seq<string> {
    if fields == [] then [] else FieldLines(fields[..|fields| - 1]) + [fields[|fields| - 1].Line()]
  }

  function GroupLines(groups: seq<Group>): seq<string> {
    if groups == [] then [] else GroupLines(groups[..|groups| - 1]) + FieldLines(groups[|groups| - 1]) + [""]
  }

  lemma {:induction false} CutAtColon(name: string, rest: string)
    requires ':' !in name
    ensures BeforeColon(name + ":" + rest) == name && AfterColon(name + ":" + rest) == rest
    ensures BeforeColon(name) == name && AfterColon(name) == []
    decreases |name|
  {
    var line := name + ":" + rest;
    if name == [] {
      assert line == ":" + rest && line[1..] == rest;
    } else {
      assert line[0] == name[0] && line[1..] == name[1..] + ":" + rest;
      CutAtColon(name[1..], rest);
      assert [name[0]] + name[1..] == name;
    }
  }

  lemma FieldRead(b: Buffers, f: Field)
    requires f.Valid()
    ensures Interpret(b, f.Line()) == (SetField(b, f.name, f.value), [])
  {
    assert f.name[0] in f.name;
    match f.style {
      case Spaced =>
        CutAtColon(f.name, " " + f.value);
        assert f.Line() == f.name + ":" + (" " + f.value);
        assert (" " + f.value)[1..] == f.value;
      case Tight => CutAtColon(f.name, f.value);
      case Bare => CutAtColon(f.name, []);
    }
  }

  lemma DataBufferMore(data: seq<string>, value: string)
    ensures DataBuffer(data + [value]) == DataBuffer(data) + value + [LF]
  {
    assert (data + [value])[..|data|] == data;
  }

  lemma {:induction false} FieldsRead(fields: Group)
    requires AllValid(fields)
    ensures InterpretAll(FRESH, FieldLines(fields)) == (Buffers(NameIn(fields), DataBuffer(DataIn(fields))), [])
    decreases |fields|
  {
    if fields != [] {
      var front, last := fields[..|fields| - 1], fields[|fields| - 1];
      FieldsRead(front);
      var b := InterpretAll(FRESH, FieldLines(front)).0;
      InterpretAppend(FRESH, FieldLines(front), [last.Line()]);
      InterpretOne(b, last.Line());
      FieldRead(b, last);
      DataBufferMore(DataIn(front), last.value);
      assert DataIn(front) + [] == DataIn(front);
    }
  }

  lemma {:induction false} JoinedIsJoin(values: seq<string>)
    requires values != []
    ensures Joined(values) == Join(values)
    decreases |values|
  {
    if |values| > 1 {
      JoinedIsJoin(values[..|values| - 1]);
      assert [LF] == "\n";
    }
  }

  lemma GroupRead(fields: Group)
    requires AllValid(fields)
    ensures Interpret(InterpretAll(FRESH, FieldLines(fields)).0, "") == (FRESH, Said(fields))
  {
    FieldsRead(fields);
    var data := DataIn(fields);
    if data != [] {
      JoinedIsJoin(data);
      JoinIsBuffer(data);
      assert DataBuffer(data)[..|DataBuffer(data)| - 1] == Join(data);
    }
  }

  /** A group that no blank line has ended yet says nothing. */
  lemma OpenGroupRead(front: seq<Group>, last: Group)
    requires AllValid(last) && InterpretAll(FRESH, GroupLines(front)) == (FRESH, AllSaid(front))
    ensures InterpretAll(FRESH, GroupLines(front) + FieldLines(last)) ==
            (InterpretAll(FRESH, FieldLines(last)).0, AllSaid(front))
  {
    InterpretAppend(FRESH, GroupLines(front), FieldLines(last));
    FieldsRead(last);
    assert AllSaid(front) + [] == AllSaid(front);
  }

  lemma {:induction false} GroupsRead(groups: seq<Group>)
    requires forall i :: 0 <= i < |groups| ==> AllValid(groups[i])
    ensures InterpretAll(FRESH, GroupLines(groups)) == (FRESH, AllSaid(groups))
    decreases |groups|
  {
    if groups != [] {
      var front, last := groups[..|groups| - 1], groups[|groups| - 1];
      GroupsRead(front);
      OpenGroupRead(front, last);
      GroupRead(last);
      var open := GroupLines(front) + FieldLines(last);
      InterpretAppend(FRESH, open, [""]);
      InterpretOne(InterpretAll(FRESH, open).0, "");
    }
  }

  // ---------------------------------------------------------------- the text

  /** Each line may be ended by CRLF, LF or CR; only a CR followed by the LF of a blank line would be read as one. */
  predicate Breaks(lines: seq<string>, brks: seq<string>) {
    && |brks| == |lines|
    && (forall i :: 0 <= i < |brks| ==> brks[i] in {"\r\n", "\n", "\r"})
    && forall i :: 0 <= i < |brks| - 1 && brks[i] == "\r" && lines[i + 1] == "" ==> brks[i + 1] != "\n"
  }

  function TextOf(lines: seq<string>, brks: seq<string>): string
    requires |brks| == |lines|
  {
    if lines == [] then "" else lines[0] + brks[0] + TextOf(lines[1..], brks[1..])
  }

  lemma TextBegins(lines: seq<string>, brks: seq<string>)
    requires Breaks(lines, brks) && lines != []
    ensures var text := TextOf(lines, brks);
            text != [] && text[0] == if lines[0] != "" then lines[0][0] else brks[0][0]
  {
  }

  lemma {:induction false} LinesAreRead(lines: seq<string>, brks: seq<string>)
    requires Breaks(lines, brks) && forall i :: 0 <= i < |lines| ==> Unbroken(lines[i])
    ensures Lines(Normalize(TextOf(lines, brks))) == lines
    decreases |lines|
  {
    if lines == [] {
      NoLine([]);
    } else {
      var rest := TextOf(lines[1..], brks[1..]);
      LinesAreRead(lines[1..], brks[1..]);
      if |lines| > 1 {
        TextBegins(lines[1..], brks[1..]);
        assert lines[1] != "" ==> lines[1][0] in lines[1];
      }
      assert CR == '\r' && LF == '\n';
      FirstLine(lines[0], brks[0], rest);
      assert [lines[0]] + lines[1..] == lines;
    }
  }

  lemma {:induction false} TextEnds(lines: seq<string>, brks: seq<string>)
    requires Breaks(lines, brks) && lines != []
    ensures var text := TextOf(lines, brks);
            text != [] && text[|text| - 1] == if brks[|brks| - 1] == "\r" then '\r' else '\n'
    decreases |lines|
  {
    if |lines| > 1 {
      TextEnds(lines[1..], brks[1..]);
    }
  }

  lemma {:induction false} FieldLinesAreLines(fields: Group)
    requires AllValid(fields)
    ensures forall i :: 0 <= i < |FieldLines(fields)| ==> Unbroken(FieldLines(fields)[i])
    decreases |fields|
  {
    if fields != [] {
      FieldLinesAreLines(fields[..|fields| - 1]);
      assert fields[|fields| - 1].Valid();
    }
  }

  lemma {:induction false} GroupLinesAreLines(groups: seq<Group>)
    requires forall i :: 0 <= i < |groups| ==> AllValid(groups[i])
    ensures forall i :: 0 <= i < |GroupLines(groups)| ==> Unbroken(GroupLines(groups)[i])
    decreases |groups|
  {
    if groups != [] {
      GroupLinesAreLines(groups[..|groups| - 1]);
      FieldLinesAreLines(groups[|groups| - 1]);
    }
  }

  // ---------------------------------------------------------------- results

  lemma SameFront(a: seq<string>, x: string, b: seq<string>, y: string)
    requires a + [x] == b + [y]
    ensures a == b && x == y
  {
    assert (a + [x])[..|a|] == a && (b + [y])[..|b|] == b;
    assert (a + [x])[|a|] == x && (b + [y])[|b|] == y;
  }

  lemma LinesBeforeCR(text: string)
    requires EndsIn(text, CR)
    ensures Lines(Normalize(text)) == Lines(Normalize(WithoutFinalCR(text))) + [LineAtCR(text)]
  {
    var body := WithoutFinalCR(text);
    assert text == body + [CR] && Normalize([CR]) == [LF] by {
      assert [CR][1..] == [];
    }
    NormalizeAppend(body, [CR]);
    LinesWithLast([], Normalize(body));
  }

  lemma LastGroupHeld(groups: seq<Group>, text: string)
    requires groups != [] && forall i :: 0 <= i < |groups| ==> AllValid(groups[i])
    requires Lines(Normalize(text)) == GroupLines(groups) && EndsIn(text, CR)
    ensures Decode(text).frames == AllSaid(groups[..|groups| - 1])
    ensures HeldBack(text) == Said(groups[|groups| - 1])
  {
    var front, last := groups[..|groups| - 1], groups[|groups| - 1];
    var body := WithoutFinalCR(text);
    assert Lines(Normalize(body)) == GroupLines(front) + FieldLines(last) by {
      LinesBeforeCR(text);
      SameFront(Lines(Normalize(body)), LineAtCR(text), GroupLines(front) + FieldLines(last), "");
    }
    GroupsRead(front);
    OpenGroupRead(front, last);
    DecoderRefinesStandard(text);
    GroupsRead(groups);
    StandardReadsFinalCR(text);
    SameStart(AllSaid(front), HeldBack(text), Said(last));
  }

  lemma WholeTextRead(groups: seq<Group>, text: string)
    requires forall i :: 0 <= i < |groups| ==> AllValid(groups[i])
    requires Lines(Normalize(text)) == GroupLines(groups) && !EndsIn(text, CR)
    ensures Decode(text).frames == AllSaid(groups)
  {
    GroupsRead(groups);
    DecoderRefinesStandard(text);
  }

  /** The decoder on a text that writes down the groups. */
  lemma SpelledTextIsRead(groups: seq<Group>, brks: seq<string>)
    requires forall i :: 0 <= i < |groups| ==> AllValid(groups[i])
    requires Breaks(GroupLines(groups), brks)
    ensures var held := groups != [] && brks[|brks| - 1] == "\r";
            var text := TextOf(GroupLines(groups), brks);
            && Decode(text).frames == AllSaid(if held then groups[..|groups| - 1] else groups)
            && (held ==> HeldBack(text) == Said(groups[|groups| - 1]))
  {
    var lines := GroupLines(groups);
    var text := TextOf(lines, brks);
    assert Lines(Normalize(text)) == lines by {
      GroupLinesAreLines(groups);
      LinesAreRead(lines, brks);
    }
    if groups == [] {
      assert text == [] && AllSaid(groups) == [];
    } else {
      TextEnds(lines, brks);
      assert CR == '\r' && LF == '\n';
      if brks[|brks| - 1] == "\r" {
        LastGroupHeld(groups, text);
      } else {
        WholeTextRead(groups, text);
      }
    }
  }

  /** Written down in any of these ways and cut into any chunks, a stream is decoded to what its groups say, in order;
      all but the last group if that is ended by a lone CR at the very end, and that group is what is held back. */
  lemma AnySpellingIsRead(groups: seq<Group>, brks: seq<string>, chunks: seq<string>)
    requires forall i :: 0 <= i < |groups| ==> AllValid(groups[i])
    requires Breaks(GroupLines(groups), brks) && Flatten(chunks) == TextOf(GroupLines(groups), brks)
    ensures var held := groups != [] && brks[|brks| - 1] == "\r";
            && FeedAll([], BLANK, chunks).frames == AllSaid(if held then groups[..|groups| - 1] else groups)
            && (held ==> HeldBack(Flatten(chunks)) == Said(groups[|groups| - 1]))
  {
    assert FeedAll([], BLANK, chunks) == Decode(Flatten(chunks)) by {
      ChunkIndependence([], BLANK, chunks);
      assert [] + Flatten(chunks) == Flatten(chunks);
    }
    SpelledTextIsRead(groups, brks);
  }
}
