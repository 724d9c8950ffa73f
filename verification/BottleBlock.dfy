/** Removing the bottle block from Formula source: internal/cataloggenerator/formula_source.go,
    normalizedBottleFormula. */
module BottleBlock {

  // ----- Lines -----

  /** A line without its line feed, and whether it had one. */
  datatype Line = Line(body: string, ended: bool)

  function TextOf(line: Line): string { if line.ended then line.body + "\n" else line.body }

  function Joined(lines: seq<Line>): string {
    if lines == [] then "" else TextOf(lines[0]) + Joined(lines[1..])
  }

  /** What splitting after each line feed gives: only the last line, perhaps empty, lacks one. */
  ghost predicate WellSplit(lines: seq<Line>) {
    && lines != [] && !lines[|lines| - 1].ended
    && (forall k | 0 <= k < |lines| - 1 :: lines[k].ended)
    && (forall k | 0 <= k < |lines| :: '\n' !in lines[k].body)
  }

  function FirstFeed(text: string): (n: nat)
    ensures n <= |text| && '\n' !in text[..n] && (n < |text| ==> text[n] == '\n')
  {
    if text == "" || text[0] == '\n' then 0
    else
      var n := 1 + FirstFeed(text[1..]);
      assert text[..n] == [text[0]] + text[1..][..n - 1];
      n
  }

  function Lines(text: string): (lines: seq<Line>)
    ensures WellSplit(lines) && Joined(lines) == text
    decreases |text|
  {
    var n := FirstFeed(text);
    if n == |text| then
      assert text[..n] == text;
      assert Joined([Line(text, false)]) == text + Joined([]);
      [Line(text, false)]
    else
      assert text == text[..n] + "\n" + text[n + 1..];
      var rest := Lines(text[n + 1..]);
      var lines := [Line(text[..n], true)] + rest;
      assert lines[1..] == rest;
      lines
  }

  lemma {:induction false} JoinedConcat(a: seq<Line>, b: seq<Line>)
    ensures Joined(a + b) == Joined(a) + Joined(b)
  {
    if a == [] {
      assert a + b == b;
    } else {
      JoinedConcat(a[1..], b);
      assert (a + b)[1..] == a[1..] + b && (a + b)[0] == a[0];
      Regroup(TextOf(a[0]), Joined(a[1..]), Joined(b));
    }
  }

  lemma Regroup(a: string, b: string, c: string)
    ensures a + (b + c) == (a + b) + c
  {
  }

  lemma LinesStep(body: string, rest: string)
    requires '\n' !in body
    ensures Lines(body) == [Line(body, false)]
    ensures Lines(body + "\n" + rest) == [Line(body, true)] + Lines(rest)
  {
    FeedAt(body, "");
    assert body + "" == body;
    var text := body + "\n" + rest;
    assert text == body + ("\n" + rest);
    FeedAt(body, "\n" + rest);
    assert text[..|body|] == body && text[|body| + 1..] == rest;
  }

  lemma TailSplit(lines: seq<Line>)
    requires WellSplit(lines) && |lines| > 1
    ensures WellSplit(lines[1..]) && lines[0].ended
  {
  }

  /** Splitting the text of well split lines gives them back. */
  lemma {:induction false} LinesJoined(lines: seq<Line>)
    requires WellSplit(lines)
    ensures Lines(Joined(lines)) == lines
    decreases |lines|
  {
    hide Lines;
    var first := lines[0];
    assert lines == [first] + lines[1..];
    if |lines| == 1 {
      assert lines[1..] == [];
      LinesStep(first.body, "");
      assert Joined(lines) == first.body;
    } else {
      TailSplit(lines);
      LinesJoined(lines[1..]);
      LinesStep(first.body, Joined(lines[1..]));
    }
  }

  lemma {:induction false} FeedAt(body: string, rest: string)
    requires '\n' !in body && (rest == "" || rest[0] == '\n')
    ensures FirstFeed(body + rest) == |body|
  {
    if body == "" {
      assert body + rest == rest;
    } else {
      FeedAt(body[1..], rest);
      assert (body + rest)[1..] == body[1..] + rest;
      assert body[0] in body;
    }
  }

  // ----- The lines that matter -----

  predicate IsBlankChar(c: char) { c == '\t' || c == ' ' }

  /** How many tabs and spaces the text starts with. */
  function Blanks(text: string): (n: nat)
    ensures n <= |text| && (n < |text| ==> !IsBlankChar(text[n])) && forall k | 0 <= k < n :: IsBlankChar(text[k])
  {
    if text == "" || !IsBlankChar(text[0]) then 0 else 1 + Blanks(text[1..])
  }

  /** What may follow `do`: nothing, a carriage return, or a comment. */
  predicate TailOk(text: string) {
    text == "" || text == "\r" || (Blanks(text) < |text| && text[Blanks(text)] == '#')
  }

  predicate IsDo(text: string) {
    Blanks(text) > 0 && "do" <= text[Blanks(text)..] && TailOk(text[Blanks(text)..][2..])
  }

  /** `bottle do`, indented, perhaps with a comment. */
  predicate IsStart(line: Line) {
    var rest := line.body[Blanks(line.body)..];
    "bottle" <= rest && IsDo(rest[6..])
  }

  function Indentation(line: Line): string { line.body[..Blanks(line.body)] }

  function WithoutReturn(text: string): string {
    if text != "" && text[|text| - 1] == '\r' then text[..|text| - 1] else text
  }

  predicate IsEnd(line: Line, indentation: string) { WithoutReturn(line.body) == indentation + "end" }

  /** unicode.IsSpace */
  predicate IsSpace(c: char) {
    || '\t' <= c <= '\r' || c == ' ' || c == '\U{85}' || c == '\U{A0}' || c == '\U{1680}'
    || '\U{2000}' <= c <= '\U{200A}'
    || c == '\U{2028}' || c == '\U{2029}' || c == '\U{202F}' || c == '\U{205F}' || c == '\U{3000}'
  }

  predicate IsBlank(line: Line) { forall k | 0 <= k < |line.body| :: IsSpace(line.body[k]) }

  ghost predicate NoStart(lines: seq<Line>) { forall k | 0 <= k < |lines| :: !IsStart(lines[k]) }

  // ----- What these lines look like -----

  ghost predicate AllBlank(text: string) { forall k | 0 <= k < |text| :: text[k] == '\t' || text[k] == ' ' }

  /** Nothing, a carriage return, or a comment after any tabs and spaces. */
  ghost predicate TailShape(tail: string) {
    tail == "" || tail == "\r" || exists gap, comment :: AllBlank(gap) && tail == gap + "#" + comment
  }

  ghost predicate StartShape(body: string, indentation: string, gap: string, tail: string) {
    && body == indentation + "bottle" + gap + "do" + tail
    && AllBlank(indentation) && AllBlank(gap) && gap != "" && TailShape(tail)
  }

  lemma {:induction false} BlanksOf(blanks: string, rest: string)
    requires AllBlank(blanks) && (rest == "" || !IsBlankChar(rest[0]))
    ensures Blanks(blanks + rest) == |blanks| && (blanks + rest)[|blanks|..] == rest
  {
    if blanks == "" {
      assert blanks + rest == rest;
    } else {
      BlanksOf(blanks[1..], rest);
      assert (blanks + rest)[1..] == blanks[1..] + rest && (blanks + rest)[0] == blanks[0];
    }
  }

  lemma BlanksSplit(text: string)
    ensures AllBlank(text[..Blanks(text)]) && text == text[..Blanks(text)] + text[Blanks(text)..]
  {
    hide Blanks;
    Halves(text, Blanks(text));
  }

  lemma Halves(text: string, n: nat)
    requires n <= |text|
    ensures text == text[..n] + text[n..]
  {
  }

  lemma TailMeaning(tail: string)
    ensures TailOk(tail) <==> TailShape(tail)
  {
    hide TailOk, Blanks, AllBlank;
    if TailOk(tail) && tail != "" && tail != "\r" {
      CommentSplits(tail);
    }
    forall gap, comment | AllBlank(gap) && tail == gap + "#" + comment ensures TailOk(tail) {
      CommentIsTail(gap, comment);
    }
    NoTail();
  }

  lemma NoTail()
    ensures TailOk("") && TailOk("\r")
  {
  }

  lemma CommentSplits(tail: string)
    requires TailOk(tail) && tail != "" && tail != "\r"
    ensures exists gap, comment :: AllBlank(gap) && tail == gap + "#" + comment
  {
    hide Blanks, AllBlank;
    BlanksSplit(tail);
    var gap, rest := tail[..Blanks(tail)], tail[Blanks(tail)..];
    Halves(rest, 1);
    assert rest[..1] == "#";
    Regroup(gap, "#", rest[1..]);
    assert tail == gap + "#" + rest[1..];
  }

  lemma CommentIsTail(gap: string, comment: string)
    requires AllBlank(gap)
    ensures TailOk(gap + "#" + comment)
  {
    hide Blanks, AllBlank;
    Regroup(gap, "#", comment);
    BlanksOf(gap, "#" + comment);
    assert (gap + ("#" + comment))[|gap|] == '#';
  }

  ghost predicate DoShape(text: string, gap: string, tail: string) {
    text == gap + "do" + tail && AllBlank(gap) && gap != "" && TailShape(tail)
  }

  lemma DoMeaning(text: string)
    ensures IsDo(text) <==> exists gap, tail :: DoShape(text, gap, tail)
  {
    hide TailOk, TailShape;
    if IsDo(text) {
      BlanksSplit(text);
      var gap, rest := text[..Blanks(text)], text[Blanks(text)..];
      assert rest == "do" + rest[2..];
      TailMeaning(rest[2..]);
      assert DoShape(text, gap, rest[2..]);
    }
    forall gap, tail | DoShape(text, gap, tail) ensures IsDo(text) {
      assert text == gap + ("do" + tail);
      BlanksOf(gap, "do" + tail);
      assert ("do" + tail)[2..] == tail;
      TailMeaning(tail);
    }
  }

  lemma FiveParts(a: string, b: string, c: string, d: string, e: string)
    ensures a + b + c + d + e == a + (b + (c + d + e))
  {
  }

  /** A start line is any indentation, `bottle`, at least one tab or space, `do`, and nothing more
      than a comment or a carriage return; and no other line is one. */
  lemma StartMeaning(line: Line)
    ensures IsStart(line) <==> exists indentation, gap, tail :: StartShape(line.body, indentation, gap, tail)
  {
    hide IsStart, StartShape;
    if IsStart(line) {
      var indentation, gap, tail := StartHasShape(line);
    }
    forall indentation, gap, tail | StartShape(line.body, indentation, gap, tail) ensures IsStart(line) {
      ShapeIsStart(line, indentation, gap, tail);
    }
  }

  lemma StartHasShape(line: Line) returns (indentation: string, gap: string, tail: string)
    requires IsStart(line)
    ensures StartShape(line.body, indentation, gap, tail)
  {
    hide IsDo, TailShape;
    var body := line.body;
    BlanksSplit(body);
    indentation := body[..Blanks(body)];
    var rest := body[Blanks(body)..];
    assert rest == "bottle" + rest[6..];
    DoMeaning(rest[6..]);
    gap, tail :| DoShape(rest[6..], gap, tail);
    FiveParts(indentation, "bottle", gap, "do", tail);
  }

  lemma ShapeIsStart(line: Line, indentation: string, gap: string, tail: string)
    requires StartShape(line.body, indentation, gap, tail)
    ensures IsStart(line)
  {
    hide IsDo, TailShape;
    var end := gap + "do" + tail;
    FiveParts(indentation, "bottle", gap, "do", tail);
    BlanksOf(indentation, "bottle" + end);
    assert ("bottle" + end)[6..] == end;
    assert DoShape(end, gap, tail);
    DoMeaning(end);
  }

  /** An end line is the same indentation, `end`, and at most a carriage return. */
  lemma EndMeaning(line: Line, indentation: string)
    ensures IsEnd(line, indentation) <==> line.body == indentation + "end" || line.body == indentation + "end\r"
  {
    if line.body != "" && line.body[|line.body| - 1] == '\r' {
      assert line.body == line.body[..|line.body| - 1] + "\r";
      assert (indentation + "end")[|indentation| + 2] == 'd';
      assert indentation + "end\r" == (indentation + "end") + "\r";
    }
  }

  // ----- The removal -----

  datatype Outcome = Text(text: string) | Multiple | Unterminated

  /** The block is lines `start` to `end`; `after` is the first line kept behind it. */
  ghost predicate IsBlock(lines: seq<Line>, start: nat, end: nat, after: nat) {
    && start < end < |lines| && IsStart(lines[start])
    && IsEnd(lines[end], Indentation(lines[start]))
    && (forall k | start < k < end :: !IsEnd(lines[k], Indentation(lines[start])))
    && after == (if end + 1 < |lines| && IsBlank(lines[end + 1]) then end + 2 else end + 1)
  }

  ghost predicate OnlyStart(lines: seq<Line>, start: nat) {
    start < |lines| && IsStart(lines[start]) && forall k | 0 <= k < |lines| && k != start :: !IsStart(lines[k])
  }

  ghost predicate NoEndAfter(lines: seq<Line>, start: nat) {
    start < |lines| && forall k | start < k < |lines| :: !IsEnd(lines[k], Indentation(lines[start]))
  }

  ghost predicate IsRemoved(lines: seq<Line>, start: nat, end: nat, after: nat, text: string) {
    OnlyStart(lines, start) && IsBlock(lines, start, end, after) && text == Joined(lines[..start] + lines[after..])
  }

  ghost predicate Removal(source: string, outcome: Outcome) {
    var lines := Lines(source);
    match outcome
    case Multiple => exists i, j | 0 <= i < j < |lines| :: IsStart(lines[i]) && IsStart(lines[j])
    case Unterminated => exists start: nat :: OnlyStart(lines, start) && NoEndAfter(lines, start)
    case Text(text) =>
      || (NoStart(lines) && text == source)
      || (exists start: nat, end: nat, after: nat :: IsRemoved(lines, start, end, after, text))
  }

  method NormalizedBottleFormula(source: string) returns (outcome: Outcome)
    ensures Removal(source, outcome)
  {
    hide IsStart, IsEnd, IsBlank, Lines, Joined, WellSplit;
    var lines := Lines(source);
    var start := -1;
    for i := 0 to |lines|
      invariant -1 <= start < i
      invariant start < 0 ==> forall k | 0 <= k < i :: !IsStart(lines[k])
      invariant start >= 0 ==> IsStart(lines[start]) && forall k | 0 <= k < i && k != start :: !IsStart(lines[k])
    {
      if IsStart(lines[i]) {
        if start >= 0 {
          return Multiple;
        }
        start := i;
      }
    }
    if start < 0 {
      return Text(source);
    }
    assert OnlyStart(lines, start);
    var end := start + 1;
    while end < |lines| && !IsEnd(lines[end], Indentation(lines[start]))
      invariant start < end <= |lines|
      invariant forall k | start < k < end :: !IsEnd(lines[k], Indentation(lines[start]))
    {
      end := end + 1;
    }
    if end == |lines| {
      assert NoEndAfter(lines, start);
      return Unterminated;
    }
    var after := end + 1;
    if after < |lines| && IsBlank(lines[after]) {
      after := after + 1;
    }
    var text := Joined(lines[..start] + lines[after..]);
    assert IsRemoved(lines, start, end, after, text);
    return Text(text);
  }

  // ----- What it gives -----

  lemma CutIsSplit(lines: seq<Line>, start: nat, after: nat)
    requires WellSplit(lines) && start < after <= |lines|
    ensures after < |lines| ==> WellSplit(lines[..start] + lines[after..])
    ensures WellSplit(lines[..start] + [Line("", false)])
  {
    var kept := lines[..start] + lines[after..];
    assert forall k | 0 <= k < |kept| :: kept[k] == if k < start then lines[k] else lines[k - start + after];
  }

  lemma EmptyLineJoins(lines: seq<Line>)
    ensures Joined(lines + [Line("", false)]) == Joined(lines)
  {
    JoinedConcat(lines, [Line("", false)]);
    assert Joined([Line("", false)]) == "" + Joined([]);
  }

  /** The kept lines, split again, are the kept lines, perhaps with a new empty last line. */
  lemma KeptLines(lines: seq<Line>, start: nat, after: nat)
    requires WellSplit(lines) && start < after <= |lines|
    ensures var kept := lines[..start] + lines[after..];
      Lines(Joined(kept)) == if after < |lines| then kept else kept + [Line("", false)]
  {
    hide WellSplit, Lines, Joined;
    CutIsSplit(lines, start, after);
    if after < |lines| {
      LinesJoined(lines[..start] + lines[after..]);
    } else {
      var kept := lines[..start];
      assert lines[..start] + lines[after..] == kept;
      EmptyLineJoins(kept);
      LinesJoined(kept + [Line("", false)]);
    }
  }

  lemma EmptyIsNoStart()
    ensures !IsStart(Line("", false))
  {
  }

  /** What remains has no bottle block. */
  lemma NoBlockRemains(source: string, text: string)
    requires Removal(source, Text(text))
    ensures NoStart(Lines(text))
  {
    hide IsStart, IsBlank, IsEnd, WellSplit, Lines, Joined, IsBlock;
    var lines := Lines(source);
    if !(NoStart(lines) && text == source) {
      var start: nat, end: nat, after: nat :| IsRemoved(lines, start, end, after, text);
      BlockBounds(lines, start, end, after);
      KeptLines(lines, start, after);
      NoStartKept(lines, start, after);
    }
  }

  lemma NoStartKept(lines: seq<Line>, start: nat, after: nat)
    requires OnlyStart(lines, start) && start < after <= |lines|
    ensures NoStart(lines[..start] + lines[after..]) && NoStart(lines[..start] + lines[after..] + [Line("", false)])
  {
    hide IsStart;
    EmptyIsNoStart();
    var kept := lines[..start] + lines[after..];
    assert forall k | 0 <= k < |kept| :: kept[k] == if k < start then lines[k] else lines[k - start + after];
  }

  lemma BlockBounds(lines: seq<Line>, start: nat, end: nat, after: nat)
    requires IsBlock(lines, start, end, after)
    ensures start < end < after <= |lines|
  {
  }

  /** Source without a block is returned as it is, and only such source has this outcome. */
  lemma BlockFreeUnchanged(source: string, outcome: Outcome)
    requires Removal(source, outcome) && NoStart(Lines(source))
    ensures outcome == Text(source)
  {
    hide IsStart, Lines, IsEnd, IsBlank;
  }

  /** Removing twice is removing once. */
  lemma RemovalTwice(source: string, text: string, again: Outcome)
    requires Removal(source, Text(text)) && Removal(text, again)
    ensures again == Text(text)
  {
    hide Removal;
    NoBlockRemains(source, text);
    BlockFreeUnchanged(text, again);
  }

  /** A block as Homebrew writes it: a start line, lines that neither start nor end one, the end
      line, all ended by line feeds. */
  ghost predicate WellFormedBlock(block: seq<Line>) {
    && |block| >= 2 && IsStart(block[0])
    && IsEnd(block[|block| - 1], Indentation(block[0]))
    && (forall k | 0 < k < |block| - 1 :: !IsStart(block[k]) && !IsEnd(block[k], Indentation(block[0])))
    && (forall k | 0 <= k < |block| :: block[k].ended && '\n' !in block[k].body)
  }

  lemma EndIsNoStart(line: Line, indentation: string)
    requires IsEnd(line, indentation) && forall k | 0 <= k < |indentation| :: IsBlankChar(indentation[k])
    ensures !IsStart(line)
  {
    var n := |indentation|;
    assert (indentation + "end")[n] == 'e';
    assert line.body[n] == 'e';
    assert forall k | 0 <= k < n :: line.body[k] == indentation[k];
    assert Blanks(line.body) == n;
    assert line.body[n..][0] != "bottle"[0];
  }

  lemma BlankIsNoStart(line: Line)
    requires IsBlank(line)
    ensures !IsStart(line)
  {
    var n := Blanks(line.body);
    assert n < |line.body| ==> line.body[n..][0] == line.body[n] && IsSpace(line.body[n]);
  }

  /** Source with a block and one blank line put in front of line |before| of block-free source. */
  ghost predicate Inserted(before: seq<Line>, block: seq<Line>, blank: Line, rest: seq<Line>) {
    && WellSplit(before + rest) && rest != [] && NoStart(before + rest)
    && WellFormedBlock(block) && IsBlank(blank) && blank.ended && '\n' !in blank.body
  }

  /** Removal exactly undoes the insertion of a well formed block and one blank line at any line
      boundary of block-free source. */
  lemma RemovalUndoesInsertion(before: seq<Line>, block: seq<Line>, blank: Line, rest: seq<Line>, outcome: Outcome)
    requires Inserted(before, block, blank, rest)
    requires Removal(Joined(before + block + [blank] + rest), outcome)
    ensures outcome == Text(Joined(before + rest))
  {
    hide IsStart, IsEnd, IsBlank, Lines, Joined, WellSplit, WellFormedBlock;
    var lines := before + block + [blank] + rest;
    InsertedSplit(before, block, blank, rest);
    LinesJoined(lines);
    InsertedBlock(before, block, blank, rest);
    var start, end := |before|, |before| + |block| - 1;
    assert lines[..start] + lines[end + 2..] == before + rest;
    OnlyBlock(lines, start, end, end + 2, outcome, Joined(lines));
  }

  lemma InsertedSplit(before: seq<Line>, block: seq<Line>, blank: Line, rest: seq<Line>)
    requires Inserted(before, block, blank, rest)
    ensures WellSplit(before + block + [blank] + rest)
  {
    hide IsStart, IsEnd, IsBlank;
    var lines, plain := before + block + [blank] + rest, before + rest;
    var m := |block| + 1;
    forall k | 0 <= k < |lines| ensures '\n' !in lines[k].body && (k < |lines| - 1 ==> lines[k].ended) {
      if k < |before| {
        assert lines[k] == plain[k];
      } else if k < |before| + |block| {
        assert lines[k] == block[k - |before|];
      } else if k > |before| + |block| {
        assert lines[k] == plain[k - m];
      }
    }
    assert lines[|lines| - 1] == plain[|plain| - 1];
  }

  lemma InsertedBlock(before: seq<Line>, block: seq<Line>, blank: Line, rest: seq<Line>)
    requires Inserted(before, block, blank, rest)
    ensures var lines := before + block + [blank] + rest;
      && |block| >= 2
      && OnlyStart(lines, |before|)
      && IsBlock(lines, |before|, |before| + |block| - 1, |before| + |block| + 1)
  {
    hide IsStart, IsEnd, IsBlank, WellSplit;
    var lines, plain := before + block + [blank] + rest, before + rest;
    var start, m := |before|, |block| + 1;
    assert forall k | 0 <= k < |block| :: lines[start + k] == block[k];
    assert lines[start + |block|] == blank;
    EndIsNoStart(block[|block| - 1], Indentation(block[0]));
    BlankIsNoStart(blank);
    forall k | 0 <= k < |lines| && k != start ensures !IsStart(lines[k]) {
      if k < start {
        assert lines[k] == plain[k];
      } else if k >= start + m {
        assert lines[k] == plain[k - m];
      }
    }
    forall k | start < k < start + |block| - 1 ensures !IsEnd(lines[k], Indentation(lines[start])) {
      assert lines[k] == block[k - start];
    }
  }

  /** When there is one block, the outcome is what is left without it. */
  lemma OnlyBlock(lines: seq<Line>, start: nat, end: nat, after: nat, outcome: Outcome, source: string)
    requires lines == Lines(source) && OnlyStart(lines, start) && IsBlock(lines, start, end, after)
    requires Removal(source, outcome)
    ensures outcome == Text(Joined(lines[..start] + lines[after..]))
  {
    hide IsStart, IsEnd, IsBlank, Lines, Joined, WellSplit;
    if outcome.Text? {
      var s: nat, e: nat, a: nat :| IsRemoved(lines, s, e, a, outcome.text);
      assert s == start;
      assert e == end;
    }
  }
}
