/**
 * The chip file of an event: a text body with one `transponder;identification`
 * pair per CRLF-separated line. Reading it keeps the well-formed lines in
 * order and skips the others; saving it writes every entry back as one line.
 */
module Timing {
  import opened Wrappers
  import opened Text

  /** One line of the chip file: a transponder code and what it identifies (usually a bib number). */
  datatype ChipFileEntry = ChipFileEntry(transponder: string, identification: string)

  /** The line separator of the chip file, exactly carriage return then line feed. */
  const LineBreak := "\r\n"

  /** A line as an entry: exactly two `;`-separated parts, or nothing. */
  function EntryOf(line: string): (r: Option<ChipFileEntry>)
    ensures r.Some? ==> ';' !in r.value.transponder && ';' !in r.value.identification
  {
    var parts := Split(line, ";");
    if |parts| == 2 then
      SplitPartsLack(line, ';');
      Some(ChipFileEntry(parts[0], parts[1]))
    else None
  }

  /** No part that `Split` on a one-character separator returns contains that character. */
  lemma {:induction false} SplitPartsLack(s: string, c: char)
    ensures forall i :: 0 <= i < |Split(s, [c])| ==> c !in Split(s, [c])[i]
    decreases |s|
  {
    if |s| > 0 {
      SplitPartsLack(s[1..], c);
      if s[..1] == [c] {
        assert s[1..] == s[|[c]|..];
      } else {
        assert s[0] != c;
      }
    }
  }

  /** A line is an entry exactly when it holds one `;`. */
  lemma EntryWhenOneSemicolon(line: string)
    ensures EntryOf(line).Some? <==> Count(line, ';') == 1
  {
    SplitCount(line, ';');
  }

  /** The entries of a sequence of lines, by its definition: each line's entry, if it has one, in line order. */
  function EntriesOf(lines: seq<string>): (r: seq<ChipFileEntry>)
    ensures |r| <= |lines|
  {
    if |lines| == 0 then []
    else
      var last := EntryOf(lines[|lines| - 1]);
      EntriesOf(lines[..|lines| - 1]) + (if last.Some? then [last.value] else [])
  }

  /** Reading the lines of two texts one after the other gives the entries of each, in order. */
  lemma {:induction false} EntriesOfConcat(a: seq<string>, b: seq<string>)
    ensures EntriesOf(a + b) == EntriesOf(a) + EntriesOf(b)
    decreases |b|
  {
    if |b| == 0 {
      assert a + b == a;
    } else {
      var front := b[..|b| - 1];
      assert (a + b)[..|a + b| - 1] == a + front;
      assert (a + b)[|a + b| - 1] == b[|b| - 1];
      EntriesOfConcat(a, front);
    }
  }

  /** The entry read from a rendered line is the entry it was rendered from. */
  lemma EntryOfLine(e: ChipFileEntry)
    requires ';' !in e.transponder && ';' !in e.identification
    ensures EntryOf(Line(e)) == Some(e)
  {
    assert Join([e.identification], ";") == e.identification;
    assert Join([e.transponder, e.identification], ";") == Line(e);
    SplitJoin([e.transponder, e.identification], ";");
  }

  /** The chip-file reader in `ChipFileEndpoint.get`, over the already decoded text. */
  method ParseChipFile(text: string) returns (entries: seq<ChipFileEntry>)
    ensures entries == EntriesOf(Split(text, LineBreak))
    ensures |entries| <= |Split(text, LineBreak)|
  {
    var lines := Split(text, LineBreak);
    entries := [];
    for i := 0 to |lines|
      invariant entries == EntriesOf(lines[..i])
    {
      assert lines[..i + 1][..i] == lines[..i];
      var parts := Split(lines[i], ";");
      if |parts| == 2 {
        entries := entries + [ChipFileEntry(parts[0], parts[1])];
      }
    }
    assert lines[..|lines|] == lines;
  }

  /** A bare line feed is no line break: a body without a carriage return is read as one line. */
  lemma BodyWithoutCarriageReturn(text: string)
    requires '\r' !in text
    ensures EntriesOf(Split(text, LineBreak)) == (if EntryOf(text).Some? then [EntryOf(text).value] else [])
  {
    SplitWhole(text, LineBreak);
    assert [text][..0] == [];
  }

  /** One entry as the line `transponder;identification`. */
  function Line(e: ChipFileEntry): string
  {
    e.transponder + ";" + e.identification
  }

  function Lines(entries: seq<ChipFileEntry>): (r: seq<string>)
    ensures |r| == |entries|
    ensures forall i :: 0 <= i < |entries| ==> r[i] == Line(entries[i])
  {
    if |entries| == 0 then [] else [Line(entries[0])] + Lines(entries[1..])
  }

  /** The chip-file writer in `ChipFileEndpoint.save`, before encoding: the entry lines joined by CRLF, none after the last. */
  function RenderChipFile(entries: seq<ChipFileEntry>): (body: string)
    ensures entries == [] ==> body == ""
    ensures |entries| == 1 ==> body == Line(entries[0])
  {
    Join(Lines(entries), LineBreak)
  }

  /** The fields an entry may hold for the round trip: no `;`, and no carriage return that could start a line break. */
  predicate Plain(e: ChipFileEntry)
  {
    ';' !in e.transponder && ';' !in e.identification && '\r' !in e.transponder && '\r' !in e.identification
  }

  /** Reading a rendered chip file gives back the same entries in the same order. */
  lemma {:induction false} RenderThenParse(entries: seq<ChipFileEntry>)
    requires forall i :: 0 <= i < |entries| ==> Plain(entries[i])
    ensures EntriesOf(Split(RenderChipFile(entries), LineBreak)) == entries
  {
    var lines := Lines(entries);
    if |entries| == 0 {
      assert Split("", LineBreak) == [""];
      assert EntriesOf([""]) == EntriesOf([]) + [];
    } else {
      forall i | 0 <= i < |lines| ensures LineBreak[0] !in lines[i] {
        assert lines[i] == Line(entries[i]);
      }
      SplitJoin(lines, LineBreak);
      LinesRead(entries);
    }
  }

  /** The lines of entries without `;` in their fields read back as those entries. */
  lemma {:induction false} LinesRead(entries: seq<ChipFileEntry>)
    requires forall i :: 0 <= i < |entries| ==> Plain(entries[i])
    ensures EntriesOf(Lines(entries)) == entries
    decreases |entries|
  {
    if |entries| > 0 {
      var first, rest := entries[0], entries[1..];
      assert Lines(entries) == [Line(first)] + Lines(rest);
      EntriesOfConcat([Line(first)], Lines(rest));
      LineRead(first);
      LinesRead(rest);
      assert entries == [first] + rest;
    }
  }

  /** One rendered line of a plain entry reads back as that entry alone. */
  lemma LineRead(e: ChipFileEntry)
    requires Plain(e)
    ensures EntriesOf([Line(e)]) == [e]
  {
    assert [Line(e)][..0] == [];
    EntryOfLine(e);
  }

  /** A body whose every line holds exactly one `;` is rendered back unchanged from what is read from it. */
  lemma ParseThenRender(text: string)
    requires forall i :: 0 <= i < |Split(text, LineBreak)| ==> Count(Split(text, LineBreak)[i], ';') == 1
    ensures RenderChipFile(EntriesOf(Split(text, LineBreak))) == text
  {
    var lines := Split(text, LineBreak);
    WellFormedLines(lines);
    JoinSplit(text, LineBreak);
  }

  /** A line with exactly one `;` is the rendering of the entry read from it. */
  lemma LineOfEntry(line: string)
    requires Count(line, ';') == 1
    ensures EntryOf(line).Some? && Line(EntryOf(line).value) == line
  {
    EntryWhenOneSemicolon(line);
    var parts := Split(line, ";");
    JoinSplit(line, ";");
    assert parts[1..] == [parts[1]];
    assert Join(parts, ";") == parts[0] + ";" + Join(parts[1..], ";");
  }

  /** Lines that each hold exactly one `;` are the lines of the entries read from them. */
  lemma {:induction false} WellFormedLines(lines: seq<string>)
    requires forall i :: 0 <= i < |lines| ==> Count(lines[i], ';') == 1
    ensures Lines(EntriesOf(lines)) == lines
    decreases |lines|
  {
    if |lines| > 0 {
      var front, last := lines[..|lines| - 1], lines[|lines| - 1];
      assert forall i :: 0 <= i < |front| ==> front[i] == lines[i];
      WellFormedLines(front);
      LineOfEntry(last);
      var e := EntryOf(last).value;
      assert EntriesOf(lines) == EntriesOf(front) + [e];
      LinesConcat(EntriesOf(front), [e]);
      LinesOne(e);
      assert lines == front + [last];
    }
  }

  lemma LinesOne(e: ChipFileEntry)
    ensures Lines([e]) == [Line(e)]
  {
    assert [e][1..] == [];
  }

  lemma {:induction false} LinesConcat(a: seq<ChipFileEntry>, b: seq<ChipFileEntry>)
    ensures Lines(a + b) == Lines(a) + Lines(b)
  {
    var left, right := Lines(a + b), Lines(a) + Lines(b);
    assert |left| == |right|;
    forall i | 0 <= i < |left| ensures left[i] == right[i] {
      if i < |a| {
        assert (a + b)[i] == a[i];
      } else {
        assert (a + b)[i] == b[i - |a|];
      }
    }
  }
}
