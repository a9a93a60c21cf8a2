/**
 SubRip serialisation, as `create_srt` writes it: for the i-th segment
 (counting from 1) the index line, the `START --> END` line, the stripped
 text and a blank line. A reader for the same layout is the serialiser's
 inverse on texts that hold no blank line.
 */
module Srt {
  import opened Wrappers
  import opened Decimal
  import opened Strings
  import Timestamp

  /** One recognised span of speech; times in whole milliseconds. */
  datatype Segment = Segment(start: nat, end: nat, text: string)

  /** One subtitle block as read back from a file. */
  datatype Cue = Cue(index: nat, start: nat, end: nat, text: string)

  /** The arrow between the two timestamps of a block. */
  const Arrow: string := " --> "

  function TimingLine(start: nat, end: nat): string {
    Timestamp.Format(start) + Arrow + Timestamp.Format(end)
  }

  /** The four lines `create_srt` writes for one segment. */
  function Block(index: nat, seg: Segment): string {
    NatToString(index) + "\n" + TimingLine(seg.start, seg.end) + "\n" + Strip(seg.text) + "\n\n"
  }

  /**
   `render(first + i, segs[i])` for every i, concatenated in order: the
   `enumerate(segments, start=first)` loop of `create_srt`.
   */
  function Enumerate(segs: seq<Segment>, first: nat, render: (nat, Segment) -> string): string {
    if segs == [] then [] else render(first, segs[0]) + Enumerate(segs[1..], first + 1, render)
  }

  /** Blocks for `segs`, numbered from `first` on. */
  function Serialize(segs: seq<Segment>, first: nat): string {
    Enumerate(segs, first, Block)
  }

  /** `create_srt`: the file contents for a segment list, numbered from 1. */
  function CreateSrt(segs: seq<Segment>): (out: string)
    ensures out == [] <==> segs == []
    ensures segs != [] ==> |out| >= 2 && out[..2] == "1\n" && EndsWith(out, "\n\n")
  {
    SerializeShape(segs, 1);
    assert NatToString(1) + "\n" == "1\n";
    Serialize(segs, 1)
  }

  /** A non-empty serialization starts with its first index and ends in a blank line. */
  lemma SerializeShape(segs: seq<Segment>, first: nat)
    ensures Serialize(segs, first) == [] <==> segs == []
    ensures segs != [] ==>
      var out := Serialize(segs, first);
      var head := NatToString(first) + "\n";
      |out| >= |head| + 1 && out[..|head|] == head && EndsWith(out, "\n\n")
  {
    if segs != [] {
      var b := Block(first, segs[0]);
      assert Serialize(segs, first) == b + Serialize(segs[1..], first + 1);
      SerializeEndsInBlankLine(segs, first);
    }
  }

  lemma SerializeEndsInBlankLine(segs: seq<Segment>, first: nat)
    requires segs != []
    ensures |Serialize(segs, first)| >= 2
    ensures Serialize(segs, first)[|Serialize(segs, first)| - 2..] == "\n\n"
  {
    forall i: nat, seg: Segment
      ensures EndsWith(Block(i, seg), "\n\n")
    {
      EndsWithAppended(NatToString(i) + "\n" + TimingLine(seg.start, seg.end) + "\n" + Strip(seg.text), "\n\n");
    }
    EnumerateEndsWith(segs, first, Block, "\n\n");
  }

  lemma EndsWithAppended(s: string, tail: string)
    ensures EndsWith(s + tail, tail)
  {
    assert (s + tail)[|s + tail| - |tail|..] == tail;
  }

  /** When every rendered part ends in `tail`, so does their non-empty concatenation. */
  lemma {:induction false} EnumerateEndsWith(segs: seq<Segment>, first: nat, render: (nat, Segment) -> string, tail: string)
    requires segs != []
    requires forall i: nat, seg: Segment :: EndsWith(render(i, seg), tail)
    ensures EndsWith(Enumerate(segs, first, render), tail)
  {
    if |segs| > 1 {
      EnumerateEndsWith(segs[1..], first + 1, render, tail);
      var a, b := render(first, segs[0]), Enumerate(segs[1..], first + 1, render);
      assert (a + b)[|a + b| - |tail|..] == b[|b| - |tail|..];
    } else {
      assert Enumerate(segs, first, render) == render(first, segs[0]);
    }
  }

  /** The concatenation of a list of strings. */
  function Concat(parts: seq<string>): string {
    if parts == [] then [] else parts[0] + Concat(parts[1..])
  }

  /** The rendered parts of `segs`, the i-th numbered `first + i`. */
  function Parts(segs: seq<Segment>, first: nat, render: (nat, Segment) -> string): (ps: seq<string>)
    ensures |ps| == |segs|
    ensures forall i :: 0 <= i < |segs| ==> ps[i] == render(first + i, segs[i])
  {
    seq(|segs|, i requires 0 <= i < |segs| => render(first + i, segs[i]))
  }

  /**
   The output is the concatenation, over i = 1..n in segment order, of the
   block numbered i for the i-th segment: one block per segment.
   */
  lemma CreateSrtIsConcatOfBlocks(segs: seq<Segment>)
    ensures CreateSrt(segs) == Concat(Parts(segs, 1, Block))
  {
    EnumerateIsConcat(segs, 1, Block);
  }

  lemma {:induction false} EnumerateIsConcat(segs: seq<Segment>, first: nat, render: (nat, Segment) -> string)
    ensures Enumerate(segs, first, render) == Concat(Parts(segs, first, render))
  {
    if segs != [] {
      EnumerateIsConcat(segs[1..], first + 1, render);
      assert Parts(segs, first, render)[1..] == Parts(segs[1..], first + 1, render);
    }
  }

  /** Serialising two lists one after the other continues the numbering. */
  lemma SerializeAppend(a: seq<Segment>, b: seq<Segment>, first: nat)
    ensures Serialize(a + b, first) == Serialize(a, first) + Serialize(b, first + |a|)
  {
    EnumerateAppend(a, b, first, Block);
  }

  lemma {:induction false} EnumerateAppend(a: seq<Segment>, b: seq<Segment>, first: nat, render: (nat, Segment) -> string)
    ensures Enumerate(a + b, first, render) == Enumerate(a, first, render) + Enumerate(b, first + |a|, render)
  {
    if a == [] {
      assert a + b == b;
    } else {
      assert (a + b)[1..] == a[1..] + b;
      EnumerateAppend(a[1..], b, first + 1, render);
    }
  }

  /** Reads `START --> END`. */
  function ParseTimingLine(line: string): Option<(nat, nat)> {
    match SplitAt(line, ' ')
    case None => None
    case Some((a, rest)) =>
      if |rest| < 4 || rest[..4] != "--> " then None
      else
        var start := Timestamp.Parse(a);
        var end := Timestamp.Parse(rest[4..]);
        if start.None? || end.None? then None else Some((start.value, end.value))
  }

  /** Reads one block off the front of `s`; returns the cue and what follows it. */
  function ParseBlock(s: string): (r: Option<(Cue, string)>)
    ensures r.Some? ==> |r.value.1| < |s|
  {
    match SplitAt(s, '\n')
    case None => None
    case Some((indexLine, r1)) =>
      match SplitAt(r1, '\n')
      case None => None
      case Some((timing, r2)) =>
        match SplitAtBlankLine(r2)
        case None => None
        case Some((text, r3)) =>
          var index := ParseNat(indexLine);
          var times := ParseTimingLine(timing);
          if index.None? || times.None? then None
          else Some((Cue(index.value, times.value.0, times.value.1, text), r3))
  }

  /** Reads a whole subtitle file: blocks until the input is used up. */
  function ParseSrt(s: string): Option<seq<Cue>>
    decreases |s|
  {
    if s == [] then Some([])
    else match ParseBlock(s)
      case None => None
      case Some((cue, rest)) =>
        match ParseSrt(rest)
        case None => None
        case Some(cues) => Some([cue] + cues)
  }

  /** Texts the layout can carry unambiguously: no blank line once stripped. */
  predicate Readable(segs: seq<Segment>) {
    forall i :: 0 <= i < |segs| ==> NoBlankLine(Strip(segs[i].text))
  }

  /** The cue a block for `seg` numbered `index` must read back as. */
  function CueOf(index: nat, seg: Segment): Cue {
    Cue(index, seg.start, seg.end, Strip(seg.text))
  }

  /** The cues a file for `segs` must read back as, numbered from `first`. */
  function Cues(segs: seq<Segment>, first: nat): seq<Cue> {
    if segs == [] then [] else [CueOf(first, segs[0])] + Cues(segs[1..], first + 1)
  }

  /** The i-th cue carries index `first + i` and the i-th segment's times and stripped text. */
  lemma {:induction false} CuesAt(segs: seq<Segment>, first: nat)
    ensures |Cues(segs, first)| == |segs|
    ensures forall i :: 0 <= i < |segs| ==> Cues(segs, first)[i] == CueOf(first + i, segs[i])
  {
    if segs != [] {
      CuesAt(segs[1..], first + 1);
      forall i | 1 <= i < |segs| ensures Cues(segs, first)[i] == CueOf(first + i, segs[i]) {
        assert Cues(segs, first)[i] == Cues(segs[1..], first + 1)[i - 1];
        assert segs[1..][i - 1] == segs[i];
      }
    }
  }

  /** A timestamp holds digits, ':' and ',' only. */
  lemma FormatAvoids(ms: nat, c: char)
    requires !IsDigit(c) && c != ':' && c != ','
    ensures c !in Timestamp.Format(ms)
  {
    var s := Timestamp.Format(ms);
    Timestamp.FormatLayout(ms);
    forall i | 0 <= i < |s|
      ensures s[i] != c
    {
      if i < |s| - 10 || (|s| - 10 < i && i != |s| - 7 && i != |s| - 4) {
        assert IsDigit(s[i]);
      }
    }
  }

  lemma TimingLineRoundTrip(start: nat, end: nat)
    ensures ParseTimingLine(TimingLine(start, end)) == Some((start, end))
    ensures '\n' !in TimingLine(start, end)
  {
    FormatAvoids(start, ' ');
    FormatAvoids(start, '\n');
    FormatAvoids(end, '\n');
    Timestamp.FormatParse(start);
    Timestamp.FormatParse(end);
    TimingLineOf(Timestamp.Format(start), Timestamp.Format(end), start, end);
  }

  /** Two readable timestamps joined by the arrow read back as the pair of times. */
  lemma TimingLineOf(a: string, b: string, start: nat, end: nat)
    requires ' ' !in a && Timestamp.Parse(a) == Some(start) && Timestamp.Parse(b) == Some(end)
    requires '\n' !in a && '\n' !in b
    ensures ParseTimingLine(a + Arrow + b) == Some((start, end))
    ensures '\n' !in a + Arrow + b
  {
    assert a + Arrow + b == a + [' '] + ("--> " + b);
    SplitAtConcat(a, ' ', "--> " + b);
    assert ("--> " + b)[4..] == b;
  }

  /** One block reads back as its cue, leaving whatever followed it. */
  lemma ParseBlockOf(index: nat, seg: Segment, rest: string)
    requires NoBlankLine(Strip(seg.text))
    ensures ParseBlock(Block(index, seg) + rest) == Some((CueOf(index, seg), rest))
  {
    var idx := NatToString(index);
    assert '\n' !in idx by {
      forall i | 0 <= i < |idx| ensures idx[i] != '\n' {
        assert IsDigit(idx[i]);
      }
    }
    NatToStringValue(index);
    TimingLineRoundTrip(seg.start, seg.end);
    StripLastNotNewline(seg.text);
    ParseLayout(idx, TimingLine(seg.start, seg.end), Strip(seg.text), rest,
      index, seg.start, seg.end);
  }

  /**
   The block layout, whatever its lines hold: an index line, a timing line
   and a text without blank lines read back as one cue.
   */
  lemma ParseLayout(idx: string, timing: string, text: string, rest: string, index: nat, start: nat, end: nat)
    requires '\n' !in idx && ParseNat(idx) == Some(index)
    requires '\n' !in timing && ParseTimingLine(timing) == Some((start, end))
    requires NoBlankLine(text) && (text == [] || text[|text| - 1] != '\n')
    ensures ParseBlock(idx + "\n" + timing + "\n" + text + "\n\n" + rest)
      == Some((Cue(index, start, end, text), rest))
  {
    var r2 := text + "\n\n" + rest;
    var r1 := timing + "\n" + r2;
    assert idx + "\n" + timing + "\n" + text + "\n\n" + rest == idx + "\n" + r1;
    SplitAtConcat(idx, '\n', r1);
    SplitAtConcat(timing, '\n', r2);
    SplitAtBlankLineConcat(text, rest);
  }

  /** Serialising and reading back gives one cue per segment, in order. */
  lemma ParseSerialize(segs: seq<Segment>, first: nat)
    requires Readable(segs)
    ensures ParseSrt(Serialize(segs, first)) == Some(Cues(segs, first))
  {
    forall i: nat, seg: Segment, rest: string | NoBlankLine(Strip(seg.text))
      ensures ParseBlock(Block(i, seg) + rest) == Some((CueOf(i, seg), rest))
    {
      ParseBlockOf(i, seg, rest);
    }
    ParseEnumerate(segs, first, Block);
  }

  /**
   When each rendered part reads back as its cue whatever follows it, the
   concatenation reads back as the list of cues.
   */
  lemma {:induction false} ParseEnumerate(segs: seq<Segment>, first: nat, render: (nat, Segment) -> string)
    requires Readable(segs)
    requires forall i: nat, seg: Segment, rest: string :: NoBlankLine(Strip(seg.text)) ==>
      ParseBlock(render(i, seg) + rest) == Some((CueOf(i, seg), rest))
    ensures ParseSrt(Enumerate(segs, first, render)) == Some(Cues(segs, first))
  {
    if segs != [] {
      var s := Enumerate(segs, first, render);
      var b := render(first, segs[0]);
      var rest := Enumerate(segs[1..], first + 1, render);
      assert s == b + rest;
      assert NoBlankLine(Strip(segs[0].text));
      assert ParseBlock(b + rest) == Some((CueOf(first, segs[0]), rest));
      ParseEnumerate(segs[1..], first + 1, render);
      ParseSrtStep(s, CueOf(first, segs[0]), rest);
    }
  }

  /** A file that starts with a readable block reads as that cue followed by the rest. */
  lemma ParseSrtStep(s: string, cue: Cue, rest: string)
    requires ParseBlock(s) == Some((cue, rest))
    requires ParseSrt(rest).Some?
    ensures ParseSrt(s) == Some([cue] + ParseSrt(rest).value)
  {
  }

  /**
   The file for `segs` reads back as exactly |segs| blocks, indexed 1..n in
   segment order, carrying each segment's times and stripped text.
   */
  lemma CreateSrtRoundTrip(segs: seq<Segment>)
    requires Readable(segs)
    ensures ParseSrt(CreateSrt(segs)).Some?
    ensures |ParseSrt(CreateSrt(segs)).value| == |segs|
    ensures forall i :: 0 <= i < |segs| ==>
      ParseSrt(CreateSrt(segs)).value[i] == Cue(i + 1, segs[i].start, segs[i].end, Strip(segs[i].text))
  {
    ParseSerialize(segs, 1);
    CuesAt(segs, 1);
  }

  /**
   Readability is needed: a text holding a blank line followed by something
   shaped like a block makes the same file as two segments.
   */
  lemma UnreadableCollision()
    ensures var a := [Segment(0, 0, "x\n\n2\n00:00:00,000 --> 00:00:00,000\ny")];
      var b := [Segment(0, 0, "x"), Segment(0, 0, "y")];
      && !Readable(a) && Readable(b) && |a| != |b| && CreateSrt(a) == CreateSrt(b)
  {
    var t := "x\n\n2\n00:00:00,000 --> 00:00:00,000\ny";
    CollisionText(t);
    SplicedText("x", "y", 0, 0, t);
    CollisionReadability(t);
  }

  lemma CollisionText(t: string)
    requires t == "x\n\n2\n00:00:00,000 --> 00:00:00,000\ny"
    ensures t == "x" + "\n\n2\n" + TimingLine(0, 0) + "\n" + "y"
  {
    ZeroTimingLine();
  }

  /** A text that carries the next block after a blank line makes the same file as the two texts apart. */
  lemma SplicedText(x: string, y: string, start: nat, end: nat, t: string)
    requires x != [] && !IsSpace(x[0]) && !IsSpace(x[|x| - 1])
    requires y != [] && !IsSpace(y[0]) && !IsSpace(y[|y| - 1])
    requires t == x + "\n\n2\n" + TimingLine(start, end) + "\n" + y
    ensures CreateSrt([Segment(start, end, t)]) == CreateSrt([Segment(start, end, x), Segment(start, end, y)])
  {
    var line := TimingLine(start, end);
    var st, sx, sy := Segment(start, end, t), Segment(start, end, x), Segment(start, end, y);
    assert t[0] == x[0] && t[|t| - 1] == y[|y| - 1];
    OneBlock(st);
    TwoBlocks(sx, sy);
    BlockOfUnstripped(1, st, "1");
    BlockOfUnstripped(1, sx, "1");
    BlockOfUnstripped(2, sy, "2");
    Splice(line, x, y);
  }

  lemma Splice(line: string, x: string, y: string)
    ensures var t := x + "\n\n2\n" + line + "\n" + y;
      "1" + "\n" + line + "\n" + t + "\n\n"
        == ("1" + "\n" + line + "\n" + x + "\n\n") + ("2" + "\n" + line + "\n" + y + "\n\n")
  {
  }

  /** The spliced text holds a blank line; the two texts apart hold none. */
  lemma CollisionReadability(t: string)
    requires t == "x\n\n2\n00:00:00,000 --> 00:00:00,000\ny"
    ensures !Readable([Segment(0, 0, t)]) && Readable([Segment(0, 0, "x"), Segment(0, 0, "y")])
  {
    assert t[0] == 'x' && t[|t| - 1] == 'y';
    StripKeeps(t);
    StripKeeps("x");
    StripKeeps("y");
    assert t[1] == '\n' && t[1 + 1] == '\n';
    assert !NoBlankLine(Strip([Segment(0, 0, t)][0].text));
    assert NoBlankLine(Strip("x")) && NoBlankLine(Strip("y"));
  }

  /** `strip()` leaves alone a text that neither starts nor ends with white space. */
  lemma StripKeeps(s: string)
    requires s != [] && !IsSpace(s[0]) && !IsSpace(s[|s| - 1])
    ensures Strip(s) == s
  {
  }

  /** Both times zero. */
  lemma ZeroTimingLine()
    ensures TimingLine(0, 0) == "00:00:00,000 --> 00:00:00,000"
  {
    Timestamp.ExampleZero();
  }

  /** The block of a text that `strip()` leaves alone, numbered by a one-digit index. */
  lemma BlockOfUnstripped(index: nat, seg: Segment, digits: string)
    requires index < 10 && digits == [DigitChar(index)]
    requires seg.text != [] && !IsSpace(seg.text[0]) && !IsSpace(seg.text[|seg.text| - 1])
    ensures Block(index, seg) == digits + "\n" + TimingLine(seg.start, seg.end) + "\n" + seg.text + "\n\n"
  {
    StripKeeps(seg.text);
  }

  lemma OneBlock(s: Segment)
    ensures CreateSrt([s]) == Block(1, s)
  {
    var b := Block(1, s);
    assert [s][1..] == [];
    assert Enumerate([s], 1, Block) == b + Enumerate([], 2, Block);
    assert b + [] == b;
  }

  lemma TwoBlocks(s1: Segment, s2: Segment)
    ensures CreateSrt([s1, s2]) == Block(1, s1) + Block(2, s2)
  {
    var b1, b2 := Block(1, s1), Block(2, s2);
    assert [s1, s2][1..] == [s2] && [s2][1..] == [];
    assert Enumerate([s2], 2, Block) == b2 + Enumerate([], 3, Block);
    assert b2 + [] == b2;
    assert Enumerate([s1, s2], 1, Block) == b1 + Enumerate([s2], 2, Block);
  }

  /** Distinct readable segment lists never produce the same file (up to stripping). */
  lemma CreateSrtInjective(a: seq<Segment>, b: seq<Segment>)
    requires Readable(a) && Readable(b)
    requires CreateSrt(a) == CreateSrt(b)
    ensures |a| == |b|
    ensures forall i :: 0 <= i < |a| ==>
      a[i].start == b[i].start && a[i].end == b[i].end && Strip(a[i].text) == Strip(b[i].text)
  {
    ParseSerialize(a, 1);
    ParseSerialize(b, 1);
    CuesAt(a, 1);
    CuesAt(b, 1);
    assert Cues(a, 1) == Cues(b, 1);
    forall i | 0 <= i < |a|
      ensures a[i].start == b[i].start && a[i].end == b[i].end && Strip(a[i].text) == Strip(b[i].text)
    {
      assert Cues(a, 1)[i] == Cues(b, 1)[i];
    }
  }
}
