/** The subtitle writer (write_srt) as a pure string builder: the file holds
    one block per segment, numbered from 1, each made of the number, the
    `start --> end` timing line, the escaped text and a blank line. */
module Srt {
  import opened Wrappers
  import opened Strings
  import opened Timestamp
  import opened Escape
  import opened Segments

  /** The separator between the two timestamps of a timing line. */
  const TimingSeparator: string := " --> "

  function TimingLine(seg: Segment): string
  {
    Format(seg.start) + TimingSeparator + Format(seg.end)
  }

  /** The block written for `seg` under the number `index`. */
  function Block(index: nat, seg: Segment): string
  {
    Decimal(index) + "\n" + TimingLine(seg) + "\n" + EscapeArrows(seg.text) + "\n\n"
  }

  /** Unless the text holds `"--->"`, the only arrow in a block is the
      separator of its timing line, right after the number, its newline and
      the start timestamp and its space. */
  lemma BlockArrowPositions(index: nat, seg: Segment)
    ensures var b := Block(index, seg);
      (forall i :: !LongArrowAt(seg.text, i)) ==>
        forall i :: 0 <= i < |b| ==> (ArrowAt(b, i) <==> i == |Decimal(index)| + |Format(seg.start)| + 2)
  {
    BlockUnfolded(index, seg);
    BlockArrowsOf(index, seg);
  }

  lemma BlockUnfolded(index: nat, seg: Segment)
    ensures Block(index, seg)
      == Decimal(index) + "\n" + (Format(seg.start) + TimingSeparator + Format(seg.end)) + "\n" + EscapeArrows(seg.text) + "\n\n"
  {
  }

  lemma BlockArrowsOf(index: nat, seg: Segment)
    ensures var b := Decimal(index) + "\n" + (Format(seg.start) + TimingSeparator + Format(seg.end)) + "\n" + EscapeArrows(seg.text) + "\n\n";
      (forall i :: !LongArrowAt(seg.text, i)) ==>
        forall i :: 0 <= i < |b| ==> (ArrowAt(b, i) <==> i == |Decimal(index)| + |Format(seg.start)| + 2)
  {
    PlainNumber(index);
    PlainTimestamp(seg.start);
    PlainTimestamp(seg.end);
    BlockArrows(Decimal(index), Format(seg.start), Format(seg.end), seg.text);
  }

  lemma PlainNumber(n: nat)
    ensures Plain(Decimal(n))
  {
  }

  lemma PlainTimestamp(t: nat)
    ensures Plain(Format(t))
  {
  }

  /** The arrows of a block whose number and timestamps hold neither `-` nor `>`. */
  lemma BlockArrows(num: string, start: string, end: string, text: string)
    requires Plain(num) && Plain(start) && Plain(end)
    ensures var b := num + "\n" + (start + TimingSeparator + end) + "\n" + EscapeArrows(text) + "\n\n";
      (forall i :: !LongArrowAt(text, i)) ==>
        forall i :: 0 <= i < |b| ==> (ArrowAt(b, i) <==> i == |num| + |start| + 2)
  {
    if forall i :: !LongArrowAt(text, i) {
      var head := num + "\n" + start;
      var rest := end + "\n" + EscapeArrows(text) + "\n\n";
      assert num + "\n" + (start + TimingSeparator + end) + "\n" + EscapeArrows(text) + "\n\n"
        == head + TimingSeparator + rest;
      assert Plain(head);
      TailArrowFree(end, text);
      SeparatorArrows(head, rest);
    }
  }

  /** What follows the separator holds no arrow. */
  lemma TailArrowFree(end: string, text: string)
    requires Plain(end) && forall i :: !LongArrowAt(text, i)
    ensures !ContainsArrow(end + "\n" + EscapeArrows(text) + "\n\n")
  {
    var after := end + "\n";
    var body := EscapeArrows(text) + "\n\n";
    EscapeArrowFree(text);
    PlainSuffixArrowFree(EscapeArrows(text), "\n\n");
    PlainPrefixArrows(after, body);
    assert end + "\n" + EscapeArrows(text) + "\n\n" == after + body;
    forall i | 0 <= i < |after + body| ensures !ArrowAt(after + body, i) {
      if i >= |after| {
        assert !ArrowAt(body, i - |after|);
      }
    }
  }

  /** Between a plain text and an arrow-free one, the separator holds the only arrow. */
  lemma SeparatorArrows(head: string, rest: string)
    requires Plain(head) && !ContainsArrow(rest)
    ensures var b := head + TimingSeparator + rest;
      forall i :: 0 <= i < |b| ==> (ArrowAt(b, i) <==> i == |head| + 1)
  {
    var line := TimingSeparator + rest;
    var b := head + TimingSeparator + rest;
    assert b == head + line;
    assert line[0] == ' ' && line[1] == '-' && line[2] == '-' && line[3] == '>' && line[4] == ' ';
    PlainPrefixArrows(head, line);
    forall i | 0 <= i < |line| ensures ArrowAt(line, i) <==> i == 1 {
      if i >= 5 {
        assert line[5..] == rest;
        ArrowShift(line, 5, i - 5);
      }
    }
    forall i | 0 <= i < |b| ensures ArrowAt(b, i) <==> i == |head| + 1 {
      if i >= |head| {
        assert ArrowAt(b, (i - |head|) + |head|) <==> ArrowAt(line, i - |head|);
      }
    }
  }

  /** The text write_srt puts in the file: the blocks in segment order,
      numbered from 1, one block per segment, and nothing for no segments. */
  function WriteSrt(segs: seq<Segment>): (r: string)
    ensures r == Concat(Blocks(segs))
    ensures r == "" <==> segs == []
  {
    ConcatIndexedIsConcat(segs, 1, Block);
    ConcatIndexed(segs, 1, Block)
  }

  /** Block `i` of the file belongs to segment `i - 1`, for every segment. */
  function Blocks(segs: seq<Segment>): seq<string>
  {
    MapIndexed(segs, 1, Block)
  }

  /** Writing a concatenation writes the first part's blocks, then the second
      part's blocks numbered on from where the first stopped. */
  lemma WriteSrtAppend(a: seq<Segment>, b: seq<Segment>)
    ensures WriteSrt(a + b) == WriteSrt(a) + ConcatIndexed(b, |a| + 1, Block)
  {
    ConcatIndexedAppend(a, b, 1, Block);
  }

  /** write_srt's loop: one `f.write` per segment, numbered by `enumerate(start=1)`. */
  method WriteSrtLoop(segs: seq<Segment>) returns (written: string)
    ensures written == WriteSrt(segs)
  {
    written := "";
    var i := 0;
    while i < |segs|
      invariant 0 <= i <= |segs|
      invariant written == WriteSrt(segs[..i])
    {
      WriteSrtStep(segs, i);
      written := written + Block(i + 1, segs[i]);
      i := i + 1;
    }
    assert segs[..i] == segs;
  }

  lemma WriteSrtStep(segs: seq<Segment>, i: nat)
    requires i < |segs|
    ensures WriteSrt(segs[..i + 1]) == WriteSrt(segs[..i]) + Block(i + 1, segs[i])
  {
    ConcatIndexedStep(segs, i, 1, Block);
  }

  /** Reads a timing line back: two timestamps around a lone `-->`. */
  function ParseTimingLine(line: string): (r: Option<(nat, nat)>)
  {
    var parts := Split(line, ' ');
    if |parts| != 3 || parts[1] != Arrow then None
    else
      match (Parse(parts[0]), Parse(parts[2]))
      case (Some(a), Some(b)) => Some((a, b))
      case _ => None
  }

  /** The timing line of every block reads back as the segment's instants. */
  lemma TimingLineRoundTrip(seg: Segment)
    ensures ParseTimingLine(TimingLine(seg)) == Some((seg.start, seg.end))
  {
    FormatShape(seg.start);
    FormatShape(seg.end);
    SplitAroundArrow(Format(seg.start), Format(seg.end));
    ParseFormat(seg.start);
    ParseFormat(seg.end);
  }
}
