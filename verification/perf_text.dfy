// The text between perf (perf/main.c) and its reader (trace2 in src/myperf.rs).

module PerfText {
  import opened Base
  import opened Decimal
  import opened TextSearch
  import opened HitCounting

  const NEWLINE := '\n'
  const COMMA := ','
  const TAG: string := "branch"

  // ----- the printer

  function BranchLine(br: Branch): string {
    TAG + [COMMA] + Print(br.from) + [COMMA] + Print(br.to)
  }

  lemma BranchLineIs(br: Branch)
    ensures BranchLine(br) == "branch," + Print(br.from) + "," + Print(br.to)
  {
    hide Print;
  }

  /** The branches perf prints: both ends outside the kernel. */
  function Printable(trace: seq<Branch>): seq<Branch> {
    if trace == [] then []
    else
      var n := |trace| - 1;
      Printable(trace[..n]) + if trace[n].from > KERNEL_START || trace[n].to > KERNEL_START then [] else [trace[n]]
  }

  lemma PrintableNext(trace: seq<Branch>, br: Branch)
    ensures Printable([]) == []
    ensures Printable(trace + [br])
        == if br.from <= 0xFFFF_FFFF_0000_0000 && br.to <= 0xFFFF_FFFF_0000_0000 then Printable(trace) + [br]
           else Printable(trace)
  {
    assert (trace + [br])[..|trace|] == trace;
  }

  /** Each line ended by a newline. */
  function Render(lines: seq<string>): string {
    if lines == [] then [] else lines[0] + [NEWLINE] + Render(lines[1..])
  }

  function LinesFor(branches: seq<Branch>): (lines: seq<string>)
    ensures |lines| == |branches|
  {
    seq(|branches|, i requires 0 <= i < |branches| => BranchLine(branches[i]))
  }

  /** The printing loop of perf's main. */
  method PrintTrace(trace: seq<Branch>) returns (lines: seq<string>)
    ensures lines == LinesFor(Printable(trace))
    ensures |lines| == |Printable(trace)|
    ensures forall i :: 0 <= i < |lines| ==>
              var br := Printable(trace)[i];
              lines[i] == "branch," + Print(br.from) + "," + Print(br.to)
  {
    lines := [];
    for i := 0 to |trace|
      invariant lines == LinesFor(Printable(trace[..i]))
    {
      var br := trace[i];
      assert trace[..i + 1][..i] == trace[..i];
      if br.from > KERNEL_START || br.to > KERNEL_START {
        continue;
      }
      lines := lines + [BranchLine(br)];
    }
    assert trace[..|trace|] == trace;
    LinesForAre(Printable(trace));
  }

  lemma LinesForAre(branches: seq<Branch>)
    ensures forall i :: 0 <= i < |branches| ==>
              LinesFor(branches)[i] == "branch," + Print(branches[i].from) + "," + Print(branches[i].to)
  {
    hide Print;
    forall i | 0 <= i < |branches|
      ensures LinesFor(branches)[i] == "branch," + Print(branches[i].from) + "," + Print(branches[i].to)
    {
      BranchLineIs(branches[i]);
    }
  }

  // ----- the reader

  function StripReturn(line: string): string {
    if line != [] && line[|line| - 1] == '\r' then line[..|line| - 1] else line
  }

  /** str::lines: the pieces ended by a newline, and a last piece that is not empty, each without a
      trailing carriage return. */
  function Lines(text: string): seq<string>
    decreases |text|
  {
    if text == [] then []
    else
      var i := Find(text, NEWLINE);
      if i == |text| then [StripReturn(text)] else [StripReturn(text[..i])] + Lines(text[i + 1..])
  }

  /** str::split with a comma. */
  function Fields(line: string): (fields: seq<string>)
    ensures fields != []
    decreases |line|
  {
    var i := Find(line, COMMA);
    if i == |line| then [line] else [line[..i]] + Fields(line[i + 1..])
  }

  predicate IsRecord(line: string) {
    TAG <= line
  }

  /** The branch on a line that starts with the tag; None stands for a failed expect. */
  function ParseRecord(line: string): Option<Branch> {
    var fields := Fields(line);
    if |fields| < 3 then None
    else
      var from, to := ParseU64(fields[1]), ParseU64(fields[2]);
      if from.None? || to.None? then None else Some(Branch(from.value, to.value, 0))
  }

  /** The branches on the lines of a text, in order; None when some record cannot be read. */
  function ParseLines(lines: seq<string>): Option<seq<Branch>> {
    if lines == [] then Some([])
    else
      var n := |lines| - 1;
      var before := ParseLines(lines[..n]);
      if before.None? then None
      else if !IsRecord(lines[n]) then before
      else
        var br := ParseRecord(lines[n]);
        if br.None? then None else Some(before.value + [br.value])
  }

  lemma {:induction false} ParsePrefix(lines: seq<string>, n: nat)
    requires n <= |lines| && ParseLines(lines[..n]).None?
    ensures ParseLines(lines).None?
    decreases |lines|
  {
    if n < |lines| {
      var m := |lines| - 1;
      assert lines[..m][..n] == lines[..n];
      ParsePrefix(lines[..m], n);
    } else {
      assert lines[..n] == lines;
    }
  }

  /** The reading loop of trace2. */
  method ReadTrace(text: string) returns (branches: Option<seq<Branch>>)
    ensures branches == ParseLines(Lines(text))
  {
    var lines := Lines(text);
    var read: seq<Branch> := [];
    for i := 0 to |lines|
      invariant ParseLines(lines[..i]) == Some(read)
    {
      var line := lines[i];
      assert lines[..i + 1][..i] == lines[..i];
      if IsRecord(line) {
        var br := ParseRecord(line);
        if br.None? {
          ParsePrefix(lines, i + 1);
          return None;
        }
        read := read + [br.value];
      }
    }
    assert lines[..|lines|] == lines;
    return Some(read);
  }

  // ----- the round trip

  /** A line of other output: it holds no newline and does not start with the tag. */
  predicate IsNoise(line: string) {
    NEWLINE !in line && !IsRecord(line)
  }

  /** lines is the printed branches, in order, with lines of other output in between. */
  predicate Interleaves(lines: seq<string>, branches: seq<Branch>) {
    if lines == [] then branches == []
    else
      var n := |lines| - 1;
      if IsNoise(lines[n]) then Interleaves(lines[..n], branches)
      else
        && branches != []
        && lines[n] == BranchLine(branches[|branches| - 1])
        && Interleaves(lines[..n], branches[..|branches| - 1])
  }

  lemma DigitsAreClean(s: string)
    requires AllDigits(s)
    ensures COMMA !in s && NEWLINE !in s && '\r' !in s
  {
  }

  lemma FieldsOfOne(s: string)
    requires COMMA !in s
    ensures Fields(s) == [s]
  {
    assert s[..|s|] == s;
    FindIs(s, COMMA, |s|);
  }

  lemma FieldsSplit(s: string, rest: string)
    requires COMMA !in s
    ensures Fields(s + [COMMA] + rest) == [s] + Fields(rest)
  {
    var line := s + [COMMA] + rest;
    assert line[..|s|] == s && line[|s| + 1..] == rest;
    FindIs(line, COMMA, |s|);
  }

  lemma RecordShape(br: Branch)
    ensures IsRecord(BranchLine(br)) && NEWLINE !in BranchLine(br) && StripReturn(BranchLine(br)) == BranchLine(br)
  {
    var f, t := Print(br.from), Print(br.to);
    DigitsAreClean(f);
    DigitsAreClean(t);
    assert BranchLine(br)[|BranchLine(br)| - 1] == t[|t| - 1] != '\r';
    hide Print;
  }

  lemma ThreeFields(a: string, b: string, c: string)
    requires COMMA !in a && COMMA !in b && COMMA !in c
    ensures Fields(a + [COMMA] + b + [COMMA] + c) == [a, b, c]
  {
    hide Fields;
    FieldsOfOne(c);
    FieldsSplit(b, c);
    FieldsSplit(a, b + [COMMA] + c);
    assert a + [COMMA] + b + [COMMA] + c == a + [COMMA] + (b + [COMMA] + c);
  }

  lemma RecordRoundTrip(br: Branch)
    ensures ParseRecord(BranchLine(br)) == Some(Branch(br.from, br.to, 0))
  {
    hide Print, Fields, ParseU64;
    DigitsAreClean(Print(br.from));
    DigitsAreClean(Print(br.to));
    ThreeFields(TAG, Print(br.from), Print(br.to));
    ParseOfPrint(br.from);
    ParseOfPrint(br.to);
  }

  function Stripped(lines: seq<string>): (r: seq<string>)
    ensures |r| == |lines|
  {
    seq(|lines|, i requires 0 <= i < |lines| => StripReturn(lines[i]))
  }

  lemma {:induction false} LinesOfRender(lines: seq<string>)
    requires forall i :: 0 <= i < |lines| ==> NEWLINE !in lines[i]
    ensures Lines(Render(lines)) == Stripped(lines)
    decreases |lines|
  {
    if lines != [] {
      var text, n := Render(lines), |lines[0]|;
      assert text[..n] == lines[0] && text[n] == NEWLINE && text[n + 1..] == Render(lines[1..]);
      FindIs(text, NEWLINE, n);
      LinesOfRender(lines[1..]);
      hide StripReturn, Find;
      assert Stripped(lines) == [StripReturn(lines[0])] + Stripped(lines[1..]);
    }
  }

  lemma {:induction false} InterleavedIsClean(lines: seq<string>, branches: seq<Branch>)
    requires Interleaves(lines, branches)
    ensures forall i :: 0 <= i < |lines| ==> NEWLINE !in lines[i]
    decreases |lines|
  {
    if lines != [] {
      var n := |lines| - 1;
      if IsNoise(lines[n]) {
        InterleavedIsClean(lines[..n], branches);
      } else {
        InterleavedIsClean(lines[..n], branches[..|branches| - 1]);
        RecordShape(branches[|branches| - 1]);
      }
      assert lines == lines[..n] + [lines[n]];
    }
  }

  /** A branch record with its third word cleared, as the reader makes it. */
  function Bare(branches: seq<Branch>): (r: seq<Branch>)
    ensures |r| == |branches|
  {
    seq(|branches|, i requires 0 <= i < |branches| => Branch(branches[i].from, branches[i].to, 0))
  }

  lemma BareNext(branches: seq<Branch>)
    requires branches != []
    ensures var m := |branches| - 1;
            Bare(branches) == Bare(branches[..m]) + [Branch(branches[m].from, branches[m].to, 0)]
  {
  }

  lemma NoiseStaysNoise(line: string)
    requires IsNoise(line)
    ensures !IsRecord(StripReturn(line))
  {
  }

  lemma ParseNext(lines: seq<string>, line: string)
    ensures ParseLines(lines + [line]) ==
            if ParseLines(lines).None? then None
            else if !IsRecord(line) then ParseLines(lines)
            else if ParseRecord(line).None? then None
            else Some(ParseLines(lines).value + [ParseRecord(line).value])
  {
    hide ParseRecord, IsRecord;
    assert (lines + [line])[..|lines|] == lines;
  }

  lemma {:induction false} ParseInterleaved(lines: seq<string>, branches: seq<Branch>)
    requires Interleaves(lines, branches)
    ensures ParseLines(Stripped(lines)) == Some(Bare(branches))
    decreases |lines|
  {
    hide StripReturn, BranchLine, ParseRecord, IsRecord, IsNoise, Bare;
    if lines == [] {
      BareNone();
    } else {
      var n := |lines| - 1;
      assert Stripped(lines) == Stripped(lines[..n]) + [StripReturn(lines[n])];
      ParseNext(Stripped(lines[..n]), StripReturn(lines[n]));
      if IsNoise(lines[n]) {
        NoiseStaysNoise(lines[n]);
        ParseInterleaved(lines[..n], branches);
      } else {
        var m := |branches| - 1;
        RecordShape(branches[m]);
        RecordRoundTrip(branches[m]);
        ParseInterleaved(lines[..n], branches[..m]);
        BareNext(branches);
      }
    }
  }

  lemma BareNone()
    ensures Bare([]) == []
  {
  }

  /** What the reader gets from perf's output, with any other lines in between, is the printed
      branches, in order, over all 64-bit addresses. */
  lemma ReadBack(lines: seq<string>, branches: seq<Branch>)
    requires Interleaves(lines, branches)
    ensures ParseLines(Lines(Render(lines))) == Some(Bare(branches))
  {
    InterleavedIsClean(lines, branches);
    LinesOfRender(lines);
    ParseInterleaved(lines, branches);
  }

  /** What the printer writes for one branch, read as a record, is its two addresses. */
  lemma ParseRecordOf(f: uint64, t: uint64)
    ensures ParseRecord("branch," + Print(f) + "," + Print(t)) == Some(Branch(f, t, 0))
  {
    hide Print, ParseRecord;
    BranchLineIs(Branch(f, t, 0));
    RecordRoundTrip(Branch(f, t, 0));
  }

  /** A record is what stands between the first three commas, its first field ignored; it needs two more. */
  lemma ParseRecordIs(a: string, b: string, c: string, rest: string)
    requires ',' !in a && ',' !in b && ',' !in c
    ensures ParseRecord(a) == None && ParseRecord(a + "," + b) == None
    ensures ParseRecord(a + "," + b + "," + c) == ParseRecord(a + "," + b + "," + c + "," + rest)
        == (if ParseU64(b).None? || ParseU64(c).None? then None
            else Some(Branch(ParseU64(b).value, ParseU64(c).value, 0)))
  {
    hide ParseU64, Fields;
    FieldsOfOne(a);
    FieldsOfOne(b);
    FieldsSplit(a, b);
    ThreeFields(a, b, c);
    FieldsSplit(c, rest);
    FieldsSplit(b, c + [COMMA] + rest);
    FieldsSplit(a, b + [COMMA] + (c + [COMMA] + rest));
    assert a + "," + b + "," + c + "," + rest == a + [COMMA] + (b + [COMMA] + (c + [COMMA] + rest));
  }

  /** Which lines are read, and what one more line adds. */
  lemma ParseLinesNext(lines: seq<string>, line: string)
    ensures ParseLines([]) == Some([])
    ensures !("branch" <= line) ==> ParseLines(lines + [line]) == ParseLines(lines)
    ensures "branch" <= line ==>
              (ParseLines(lines + [line]) ==
               if ParseLines(lines).None? || ParseRecord(line).None? then None
               else Some(ParseLines(lines).value + [ParseRecord(line).value]))
  {
    hide ParseRecord;
    ParseNext(lines, line);
  }

  /** A line ends at a newline, or at the end of the text, and loses one carriage return there. */
  lemma LinesAre(line: string, rest: string)
    requires '\n' !in line
    ensures Lines("") == []
    ensures Lines(line + "\n" + rest)
        == [if line != "" && line[|line| - 1] == '\r' then line[..|line| - 1] else line] + Lines(rest)
    ensures line != "" ==> Lines(line) == [if line[|line| - 1] == '\r' then line[..|line| - 1] else line]
  {
    var text, n := line + "\n" + rest, |line|;
    assert text[..n] == line && text[n + 1..] == rest;
    FindIs(text, NEWLINE, n);
    FindIs(line, NEWLINE, n);
    assert line[..n] == line;
  }

  lemma RenderIs(line: string, rest: seq<string>)
    ensures Render([]) == "" && Render([line] + rest) == line + "\n" + Render(rest)
  {
    assert ([line] + rest)[1..] == rest;
  }

  /** On lines that are all records as perf prints them, the reader returns every branch. */
  lemma ReadAllRecords(lines: seq<string>, branches: seq<Branch>)
    requires |lines| == |branches|
    requires forall i :: 0 <= i < |lines| ==>
               lines[i] == "branch," + Print(branches[i].from) + "," + Print(branches[i].to)
    ensures ParseLines(Lines(Render(lines))).Some?
    ensures var read := ParseLines(Lines(Render(lines))).value;
            |read| == |branches|
            && forall i :: 0 <= i < |read| ==> read[i] == Branch(branches[i].from, branches[i].to, 0)
  {
    hide Print, ParseLines, Lines, Render;
    LinesForAre(branches);
    assert lines == LinesFor(branches);
    PrintedInterleaves(branches);
    ReadBack(lines, branches);
  }

  /** perf's own lines, with nothing in between, are such an output. */
  lemma {:induction false} PrintedInterleaves(branches: seq<Branch>)
    ensures Interleaves(LinesFor(branches), branches)
    decreases |branches|
  {
    if branches != [] {
      var n := |branches| - 1;
      RecordShape(branches[n]);
      assert LinesFor(branches)[..n] == LinesFor(branches[..n]);
      PrintedInterleaves(branches[..n]);
    }
  }
}
