/** Unified-diff text: what Patch.write prints and parse_patchset reads, utils/check-style.py. */
module PatchText {
  import opened Basics

  datatype LineKind = SRC | DST | BOTH
  datatype Line = Line(kind: LineKind, text: string)
  datatype Chunk = Chunk(srcPos: int, dstPos: int, lines: seq<Line>)
  datatype Patch = Patch(src: string, dst: string, chunks: seq<Chunk>)

  // ----- decimal numbers -----

  predicate IsDigit(c: char) {
    '0' <= c <= '9'
  }

  predicate AllDigits(s: string) {
    forall i :: 0 <= i < |s| ==> IsDigit(s[i])
  }

  function Digit(d: nat): char
    requires d < 10
  {
    ('0' as int + d) as char
  }

  function Decimal(n: nat): string {
    if n < 10 then [Digit(n)] else Decimal(n / 10) + [Digit(n % 10)]
  }

  /** The %d conversion. */
  function FormatInt(n: int): string {
    if n < 0 then "-" + Decimal(-n) else Decimal(n)
  }

  function NumberOf(s: string): nat
    requires AllDigits(s)
  {
    if s == [] then 0 else 10 * NumberOf(s[..|s|-1]) + (s[|s|-1] as int - '0' as int)
  }

  lemma {:induction false} DecimalIsRead(n: nat)
    ensures Decimal(n) != [] && AllDigits(Decimal(n)) && NumberOf(Decimal(n)) == n
    ensures Decimal(n)[0] == '0' <==> n == 0
  {
    if n >= 10 {
      DecimalIsRead(n / 10);
      assert Decimal(n)[..|Decimal(n)|-1] == Decimal(n / 10);
    } else {
      assert Decimal(n)[..0] == [];
    }
  }

  lemma DigitsInOrder()
    ensures FormatInt(1234567890) == "1234567890" && FormatInt(-7) == "-7"
  {
    assert Decimal(1) == "1";
    assert Decimal(12) == Decimal(1) + "2";
    assert Decimal(123) == Decimal(12) + "3";
    assert Decimal(1234) == Decimal(123) + "4";
    assert Decimal(12345) == Decimal(1234) + "5";
    assert Decimal(123456) == Decimal(12345) + "6";
    assert Decimal(1234567) == Decimal(123456) + "7";
    assert Decimal(12345678) == Decimal(1234567) + "8";
    assert Decimal(123456789) == Decimal(12345678) + "9";
    assert Decimal(1234567890) == Decimal(123456789) + "0";
  }

  // ----- printing -----

  function SrcLen(lines: seq<Line>): nat {
    if lines == [] then 0 else (if lines[0].kind != DST then 1 else 0) + SrcLen(lines[1..])
  }

  function DstLen(lines: seq<Line>): nat {
    if lines == [] then 0 else (if lines[0].kind != SRC then 1 else 0) + DstLen(lines[1..])
  }

  function Mark(k: LineKind): char {
    match k
    case SRC => '-'
    case DST => '+'
    case BOTH => ' '
  }

  function PrintedLine(l: Line): string {
    [Mark(l.kind)] + l.text
  }

  function HeaderText(srcPos: int, srcLen: nat, dstPos: int, dstLen: nat): string {
    "@@ -" + FormatInt(srcPos) + "," + FormatInt(srcLen) + " +" + FormatInt(dstPos) + "," + FormatInt(dstLen) + " @@"
  }

  /** Printed lines, without their line ends. */
  function ContentLines(lines: seq<Line>): seq<string> {
    seq(|lines|, i requires 0 <= i < |lines| => PrintedLine(lines[i]))
  }

  function ChunkLines(c: Chunk): seq<string> {
    [HeaderText(c.srcPos, SrcLen(c.lines), c.dstPos, DstLen(c.lines))] + ContentLines(c.lines)
  }

  function ChunksLines(chunks: seq<Chunk>): seq<string> {
    if chunks == [] then [] else ChunkLines(chunks[0]) + ChunksLines(chunks[1..])
  }

  function PatchLines(p: Patch): seq<string> {
    ["--- " + p.src, "+++ " + p.dst] + ChunksLines(p.chunks)
  }

  function PatchsetLines(ps: seq<Patch>): seq<string> {
    if ps == [] then [] else PatchLines(ps[0]) + PatchsetLines(ps[1..])
  }

  /** The text that is written: every line is followed by a line end. */
  function Written(lines: seq<string>): string {
    if lines == [] then "" else lines[0] + "\n" + Written(lines[1..])
  }

  // ----- reading -----

  /** A text as a file object hands it out: line by line, each with its line end. */
  function SplitLines(text: string): seq<string> {
    if text == "" then [] else
    var n := LineLength(text);
    [text[..n]] + SplitLines(text[n..])
  }

  function LineLength(text: string): (n: nat)
    requires text != ""
    ensures 0 < n <= |text|
  {
    if text[0] == '\n' || |text| == 1 then 1 else 1 + LineLength(text[1..])
  }

  /** The pattern ^prefix(.*)$: the dot matches no line end, and $ matches also before a final one. */
  function MatchRest(prefix: string, line: string): Option<string> {
    if prefix <= line && '\n' !in StripLineEnd(line[|prefix|..]) then Some(StripLineEnd(line[|prefix|..])) else None
  }

  function MatchLiteral(literal: string, s: string): Option<string> {
    if literal <= s then Some(s[|literal|..]) else None
  }

  function DigitRun(s: string): (n: nat)
    ensures n <= |s| && AllDigits(s[..n]) && (n < |s| ==> !IsDigit(s[n]))
  {
    if s == "" || !IsDigit(s[0]) then 0 else 1 + DigitRun(s[1..])
  }

  /** The pattern ([0-9]+): the number, and what follows it. */
  function MatchNumber(s: string): Option<(nat, string)> {
    var n := DigitRun(s);
    if n == 0 then None else Some((NumberOf(s[..n]), s[n..]))
  }

  /** The four numbers of the chunk header pattern, which does not look at the end of the line. */
  function MatchHeader(line: string): Option<(nat, nat, nat, nat)> {
    var s0 :- MatchLiteral("@@ -", line);
    var (srcPos, s1) :- MatchNumber(s0);
    var s2 :- MatchLiteral(",", s1);
    var (srcLen, s3) :- MatchNumber(s2);
    var s4 :- MatchLiteral(" +", s3);
    var (dstPos, s5) :- MatchNumber(s4);
    var s6 :- MatchLiteral(",", s5);
    var (dstLen, s7) :- MatchNumber(s6);
    var _ :- MatchLiteral(" @@", s7);
    Some((srcPos, srcLen, dstPos, dstLen))
  }

  datatype LineClass =
    | FileHeader(src: string)
    | DstHeader(dst: string)
    | ChunkHeader(srcPos: int, dstPos: int)
    | Content(line: Line)
    | Unrecognised

  /** The patterns are tried in this order. */
  function Classify(line: string): LineClass {
    if MatchRest("--- ", line).Some? then FileHeader(MatchRest("--- ", line).value)
    else if MatchRest("+++ ", line).Some? then DstHeader(MatchRest("+++ ", line).value)
    else if MatchHeader(line).Some? then ChunkHeader(MatchHeader(line).value.0, MatchHeader(line).value.2)
    else if MatchRest("-", line).Some? then Content(Line(SRC, MatchRest("-", line).value))
    else if MatchRest("+", line).Some? then Content(Line(DST, MatchRest("+", line).value))
    else if MatchRest(" ", line).Some? then Content(Line(BOTH, MatchRest(" ", line).value))
    else Unrecognised
  }

  /** The patches read so far, the last of them the current one, and where the current chunk is. The current chunk
      is not forgotten when a new patch starts. */
  datatype Reading = Reading(patches: seq<Patch>, chunkAt: Option<(nat, nat)>)

  ghost predicate Valid(r: Reading) {
    r.chunkAt.Some? ==> r.chunkAt.value.0 < |r.patches| && r.chunkAt.value.1 < |r.patches[r.chunkAt.value.0].chunks|
  }


  /** One recognised line; None where the original raises an exception. */
  function Take(r: Reading, line: LineClass): (n: Option<Reading>)
    requires Valid(r)
    ensures n.Some? ==> Valid(n.value)
  {
    var last := |r.patches| - 1;
    match line
    case FileHeader(src) => Some(r.(patches := r.patches + [Patch(src, "", [])]))
    case DstHeader(dst) =>
      if last < 0 then None else Some(r.(patches := r.patches[last := r.patches[last].(dst := dst)]))
    case ChunkHeader(srcPos, dstPos) =>
      if last < 0 then None else
      var p := r.patches[last];
      Some(Reading(r.patches[last := p.(chunks := p.chunks + [Chunk(srcPos, dstPos, [])])], Some((last, |p.chunks|))))
    case Content(l) =>
      if r.chunkAt.None? then None else
      var (i, k) := r.chunkAt.value;
      var p := r.patches[i];
      var c := p.chunks[k];
      Some(r.(patches := r.patches[i := p.(chunks := p.chunks[k := c.(lines := c.lines + [l])])]))
    case Unrecognised => None
  }

  function Step(r: Reading, line: string): (n: Option<Reading>)
    requires Valid(r)
    ensures n.Some? ==> Valid(n.value)
  {
    Take(r, Classify(line))
  }

  function ReadFrom(r: Reading, lines: seq<string>): (n: Option<Reading>)
    requires Valid(r)
    ensures n.Some? ==> Valid(n.value)
    decreases |lines|
  {
    if lines == [] then Some(r) else
    var next :- Step(r, lines[0]);
    ReadFrom(next, lines[1..])
  }

  /** parse_patchset on the given lines. */
  function Parse(lines: seq<string>): Option<seq<Patch>> {
    var r :- ReadFrom(Reading([], None), lines);
    Some(r.patches)
  }

  // ----- how printed lines are recognised -----

  predicate OneLine(s: string) {
    '\n' !in s
  }

  /** A removed or added line that, printed, starts like a file header. */
  predicate LooksLikeHeader(l: Line) {
    (l.kind == SRC && "-- " <= l.text) || (l.kind == DST && "++ " <= l.text)
  }

  lemma MatchEnded(prefix: string, rest: string)
    requires OneLine(rest)
    ensures MatchRest(prefix, prefix + rest + "\n") == Some(rest)
  {
    assert (prefix + rest + "\n")[|prefix|..] == rest + "\n";
    assert (rest + "\n")[..|rest|] == rest;
  }

  lemma FileHeaderIsRead(src: string)
    requires OneLine(src)
    ensures Classify("--- " + src + "\n") == FileHeader(src)
  {
    MatchEnded("--- ", src);
  }

  lemma DstHeaderIsRead(dst: string)
    requires OneLine(dst)
    ensures Classify("+++ " + dst + "\n") == DstHeader(dst)
  {
    MatchEnded("+++ ", dst);
    assert ("+++ " + dst + "\n")[0] == '+';
  }

  lemma {:induction false} DigitRunStops(s: string, rest: string)
    requires AllDigits(s) && (rest == "" || !IsDigit(rest[0]))
    ensures DigitRun(s + rest) == |s|
  {
    if s == "" {
      assert s + rest == rest;
    } else {
      assert (s + rest)[1..] == s[1..] + rest;
      DigitRunStops(s[1..], rest);
    }
  }

  lemma NumberIsRead(n: nat, rest: string)
    requires rest == "" || !IsDigit(rest[0])
    ensures MatchNumber(FormatInt(n) + rest) == Some((n, rest))
  {
    DecimalIsRead(n);
    DigitRunStops(Decimal(n), rest);
    assert (Decimal(n) + rest)[..|Decimal(n)|] == Decimal(n);
    assert (Decimal(n) + rest)[|Decimal(n)|..] == rest;
  }

  lemma LiteralIsRead(literal: string, rest: string)
    ensures MatchLiteral(literal, literal + rest) == Some(rest)
  {
    assert (literal + rest)[|literal|..] == rest;
  }

  lemma HeaderIsMatched(a: nat, b: nat, c: nat, d: nat, rest: string)
    ensures MatchHeader(HeaderText(a, b, c, d) + rest) == Some((a, b, c, d))
  {
    hide FormatInt, MatchNumber, MatchLiteral;
    var s7 := " @@" + rest;
    var s6 := FormatInt(d) + s7;
    var s5 := "," + s6;
    var s4 := FormatInt(c) + s5;
    var s3 := " +" + s4;
    var s2 := FormatInt(b) + s3;
    var s1 := "," + s2;
    var s0 := FormatInt(a) + s1;
    assert HeaderText(a, b, c, d) + rest == "@@ -" + s0;
    LiteralIsRead("@@ -", s0);
    NumberIsRead(a, s1);
    LiteralIsRead(",", s2);
    NumberIsRead(b, s3);
    LiteralIsRead(" +", s4);
    NumberIsRead(c, s5);
    LiteralIsRead(",", s6);
    NumberIsRead(d, s7);
    LiteralIsRead(" @@", rest);
  }

  lemma ChunkHeaderIsRead(a: nat, b: nat, c: nat, d: nat)
    ensures Classify(HeaderText(a, b, c, d) + "\n") == ChunkHeader(a, c)
  {
    hide MatchHeader;
    HeaderIsMatched(a, b, c, d, "\n");
    assert (HeaderText(a, b, c, d) + "\n")[0] == '@';
  }

  lemma NotAChunkHeader(line: string)
    requires line != "" && line[0] != '@'
    ensures MatchHeader(line).None?
  {
    hide MatchNumber;
    assert "@@ -"[0] == '@';
  }

  lemma PrefixOfPrinted(prefix: string, l: Line)
    requires prefix != "" && OneLine(prefix)
    ensures prefix <= PrintedLine(l) + "\n" <==> prefix[0] == Mark(l.kind) && prefix[1..] <= l.text
  {
    var line := PrintedLine(l) + "\n";
    assert prefix[|prefix|-1] in prefix;
    if prefix <= line {
      assert prefix == line[..|prefix|];
      assert prefix[1..] == l.text[..|prefix|-1];
    }
  }

  lemma ContentIsRead(l: Line)
    requires OneLine(l.text) && !LooksLikeHeader(l)
    ensures Classify(PrintedLine(l) + "\n") == Content(l)
  {
    var line := PrintedLine(l) + "\n";
    assert line[0] == Mark(l.kind);
    NotAChunkHeader(line);
    hide MatchHeader;
    MatchEnded([Mark(l.kind)], l.text);
    PrefixOfPrinted("--- ", l);
    PrefixOfPrinted("+++ ", l);
    assert "--- "[1..] == "-- " && "+++ "[1..] == "++ ";
  }

  // ----- lines and texts -----

  function Ended(lines: seq<string>): (r: seq<string>)
    ensures |r| == |lines| && forall i :: 0 <= i < |r| ==> r[i] == lines[i] + "\n"
  {
    seq(|lines|, i requires 0 <= i < |lines| => lines[i] + "\n")
  }

  ghost predicate AllOneLine(lines: seq<string>) {
    forall i :: 0 <= i < |lines| ==> OneLine(lines[i])
  }

  lemma {:induction false} LineLengthFound(line: string, rest: string)
    requires OneLine(line)
    ensures LineLength(line + "\n" + rest) == |line| + 1
  {
    if line == "" {
      assert (line + "\n" + rest)[0] == '\n';
    } else {
      assert (line + "\n" + rest)[0] == line[0] && line[0] in line;
      assert (line + "\n" + rest)[1..] == line[1..] + "\n" + rest;
      LineLengthFound(line[1..], rest);
    }
  }

  /** What is written line by line is handed out line by line. */
  lemma {:induction false} WrittenIsSplit(lines: seq<string>)
    requires AllOneLine(lines)
    ensures SplitLines(Written(lines)) == Ended(lines)
  {
    if lines != [] {
      var line, rest := lines[0], Written(lines[1..]);
      var text := line + "\n" + rest;
      WrittenIsSplit(lines[1..]);
      LineLengthFound(line, rest);
      assert text == Written(lines);
      assert text[..|line|+1] == line + "\n" && text[|line|+1..] == rest;
      assert SplitLines(text) == [line + "\n"] + Ended(lines[1..]);
    }
  }

  lemma EndedBoth(some: seq<string>, more: seq<string>)
    ensures Ended(some + more) == Ended(some) + Ended(more)
  {
  }

  lemma NothingIsRead(r: Reading)
    requires Valid(r)
    ensures ReadFrom(r, Ended([])) == Some(r)
  {
  }

  lemma {:induction false} ReadBoth(r: Reading, some: seq<string>, more: seq<string>)
    requires Valid(r)
    ensures ReadFrom(r, some + more)
         == (if ReadFrom(r, some).None? then None else ReadFrom(ReadFrom(r, some).value, more))
    decreases |some|
  {
    if some == [] {
      assert some + more == more;
    } else {
      assert (some + more)[1..] == some[1..] + more;
      if Step(r, some[0]).Some? {
        ReadBoth(Step(r, some[0]).value, some[1..], more);
      }
    }
  }

  // ----- round trip: from patches to text and back -----

  /** No line end inside, and not to be mistaken for a file header. */
  predicate PrintableLine(l: Line) {
    OneLine(l.text) && !LooksLikeHeader(l)
  }

  predicate PrintableChunk(c: Chunk) {
    c.srcPos >= 0 && c.dstPos >= 0 && forall i :: 0 <= i < |c.lines| ==> PrintableLine(c.lines[i])
  }

  predicate PrintablePatch(p: Patch) {
    OneLine(p.src) && OneLine(p.dst) && forall i :: 0 <= i < |p.chunks| ==> PrintableChunk(p.chunks[i])
  }

  /** No line ends inside names and lines, no negative positions, no removed line that starts with "-- " and no
      added line that starts with "++ ". */
  predicate Printable(ps: seq<Patch>) {
    forall i :: 0 <= i < |ps| ==> PrintablePatch(ps[i])
  }

  function AddChunk(r: Reading, c: Chunk): (n: Reading)
    requires r.patches != []
    ensures Valid(n)
  {
    var last := |r.patches| - 1;
    var p := r.patches[last];
    Reading(r.patches[last := p.(chunks := p.chunks + [c])], Some((last, |p.chunks|)))
  }

  lemma LineIsAdded(r: Reading, c: Chunk, l: Line)
    requires r.patches != [] && PrintableLine(l)
    ensures Step(AddChunk(r, c), PrintedLine(l) + "\n") == Some(AddChunk(r, c.(lines := c.lines + [l])))
  {
    hide Classify;
    ContentIsRead(l);
    var last := |r.patches| - 1;
    var p := r.patches[last];
    var longer := c.(lines := c.lines + [l]);
    assert (p.chunks + [c])[|p.chunks| := longer] == p.chunks + [longer];
    var with := p.(chunks := p.chunks + [c]);
    assert r.patches[last := with][last := p.(chunks := p.chunks + [longer])]
        == r.patches[last := p.(chunks := p.chunks + [longer])];
  }

  lemma {:induction false} ContentIsReadBack(r: Reading, c: Chunk, lines: seq<Line>)
    requires r.patches != []
    requires forall i :: 0 <= i < |lines| ==> PrintableLine(lines[i])
    ensures ReadFrom(AddChunk(r, c), Ended(ContentLines(lines))) == Some(AddChunk(r, c.(lines := c.lines + lines)))
    decreases |lines|
  {
    hide Step, AddChunk, PrintedLine;
    var printed := Ended(ContentLines(lines));
    if lines == [] {
      assert c.lines + lines == c.lines;
    } else {
      var l := lines[0];
      LineIsAdded(r, c, l);
      assert printed[0] == PrintedLine(l) + "\n";
      assert printed[1..] == Ended(ContentLines(lines[1..]));
      var longer := c.(lines := c.lines + [l]);
      ContentIsReadBack(r, longer, lines[1..]);
      assert longer.lines + lines[1..] == c.lines + lines;
    }
  }

  lemma ChunkIsReadBack(r: Reading, c: Chunk)
    requires Valid(r) && r.patches != [] && PrintableChunk(c)
    ensures ReadFrom(r, Ended(ChunkLines(c))) == Some(AddChunk(r, c))
  {
    hide HeaderText, Classify, ContentLines, Ended;
    var printed := Ended(ChunkLines(c));
    var empty := Chunk(c.srcPos, c.dstPos, []);
    OneLineMore(HeaderText(c.srcPos, SrcLen(c.lines), c.dstPos, DstLen(c.lines)), ContentLines(c.lines));
    ChunkHeaderIsRead(c.srcPos, SrcLen(c.lines), c.dstPos, DstLen(c.lines));
    assert Step(r, printed[0]) == Some(AddChunk(r, empty));
    assert printed[1..] == Ended(ContentLines(c.lines));
    ContentIsReadBack(r, empty, c.lines);
    assert empty.(lines := [] + c.lines) == c;
  }

  lemma {:induction false} ChunksAreReadBack(r: Reading, sofar: seq<Patch>, p: Patch, chunks: seq<Chunk>)
      returns (n: Reading)
    requires Valid(r) && r.patches == sofar + [p]
    requires forall i :: 0 <= i < |chunks| ==> PrintableChunk(chunks[i])
    ensures Valid(n) && ReadFrom(r, Ended(ChunksLines(chunks))) == Some(n)
    ensures n.patches == sofar + [p.(chunks := p.chunks + chunks)]
    decreases |chunks|
  {
    hide Step, ReadFrom, ChunkLines, Ended, Valid, PrintableChunk;
    if chunks == [] {
      n := r;
      NothingIsRead(r);
      assert p.chunks + chunks == p.chunks;
    } else {
      ChunkIsReadBack(r, chunks[0]);
      var m := AddChunk(r, chunks[0]);
      var q := p.(chunks := p.chunks + [chunks[0]]);
      assert m.patches == sofar + [q];
      n := ChunksAreReadBack(m, sofar, q, chunks[1..]);
      assert q.chunks + chunks[1..] == p.chunks + chunks;
      ReadBoth(r, Ended(ChunkLines(chunks[0])), Ended(ChunksLines(chunks[1..])));
      EndedBoth(ChunkLines(chunks[0]), ChunksLines(chunks[1..]));
    }
  }

  lemma PatchIsReadBack(r: Reading, p: Patch) returns (n: Reading)
    requires Valid(r) && PrintablePatch(p)
    ensures Valid(n) && ReadFrom(r, Ended(PatchLines(p))) == Some(n)
    ensures n.patches == r.patches + [p]
  {
    hide Classify, ChunksLines;
    var started := r.(patches := r.patches + [Patch(p.src, "", [])]);
    var named := r.(patches := r.patches + [Patch(p.src, p.dst, [])]);
    FileHeaderIsRead(p.src);
    DstHeaderIsRead(p.dst);
    assert Step(r, "--- " + p.src + "\n") == Some(started);
    assert started.patches[|r.patches| := Patch(p.src, p.dst, [])] == named.patches;
    assert Step(started, "+++ " + p.dst + "\n") == Some(named);
    n := ChunksAreReadBack(named, r.patches, Patch(p.src, p.dst, []), p.chunks);
    assert [] + p.chunks == p.chunks;
    EndedBoth(["--- " + p.src, "+++ " + p.dst], ChunksLines(p.chunks));
    var headers := Ended(["--- " + p.src, "+++ " + p.dst]);
    ReadBoth(r, headers, Ended(ChunksLines(p.chunks)));
    assert headers[1..] == ["+++ " + p.dst + "\n"] && headers[1..][1..] == [];
  }

  lemma {:induction false} PatchsetIsReadBack(r: Reading, ps: seq<Patch>) returns (n: Reading)
    requires Valid(r) && Printable(ps)
    ensures Valid(n) && ReadFrom(r, Ended(PatchsetLines(ps))) == Some(n)
    ensures n.patches == r.patches + ps
    decreases |ps|
  {
    hide Step, ReadFrom, PatchLines, Ended, Valid, PrintablePatch;
    if ps == [] {
      n := r;
      NothingIsRead(r);
    } else {
      var m := PatchIsReadBack(r, ps[0]);
      n := PatchsetIsReadBack(m, ps[1..]);
      assert m.patches + ps[1..] == r.patches + ps;
      ReadBoth(r, Ended(PatchLines(ps[0])), Ended(PatchsetLines(ps[1..])));
      EndedBoth(PatchLines(ps[0]), PatchsetLines(ps[1..]));
    }
  }

  // ----- the round trip holds for no other patches -----

  lemma MatchedIsOneLine(prefix: string, line: string)
    ensures MatchRest(prefix, line).Some? ==> OneLine(MatchRest(prefix, line).value)
  {
  }

  lemma HeaderInDisguise(line: string, l: Line)
    requires MatchRest([Mark(l.kind)], line) == Some(l.text) && LooksLikeHeader(l)
    ensures MatchRest(if l.kind == SRC then "--- " else "+++ ", line).Some?
  {
    var prefix := if l.kind == SRC then "--- " else "+++ ";
    assert line[1..4] == l.text[..3];
    assert line[..4] == [Mark(l.kind)] + line[1..4];
    assert prefix <= line;
    var rest := StripLineEnd(line[4..]);
    forall i | 0 <= i < |rest| ensures rest[i] != '\n' {
      assert rest[i] == l.text[i+3] && l.text[i+3] in l.text;
    }
  }

  /** Whatever a line is recognised as, it is printable. */
  lemma ClassesArePrintable(line: string)
    ensures match Classify(line)
      case FileHeader(src) => OneLine(src)
      case DstHeader(dst) => OneLine(dst)
      case ChunkHeader(a, b) => a >= 0 && b >= 0
      case Content(l) => PrintableLine(l)
      case Unrecognised => true
  {
    hide MatchHeader;
    MatchedIsOneLine("--- ", line);
    MatchedIsOneLine("+++ ", line);
    MatchedIsOneLine("-", line);
    MatchedIsOneLine("+", line);
    MatchedIsOneLine(" ", line);
    if Classify(line).Content? && LooksLikeHeader(Classify(line).line) {
      HeaderInDisguise(line, Classify(line).line);
    }
  }

  lemma StepIsPrintable(r: Reading, line: string)
    requires Valid(r) && Step(r, line).Some? && Printable(r.patches)
    ensures Printable(Step(r, line).value.patches)
  {
    hide Classify, PrintableLine;
    ClassesArePrintable(line);
    var n := Step(r, line).value;
    match Classify(line) {
      case FileHeader(src) =>
        assert PrintablePatch(Patch(src, "", []));
      case DstHeader(dst) =>
        assert PrintablePatch(n.patches[|n.patches|-1]);
      case ChunkHeader(srcPos, dstPos) =>
        assert PrintableChunk(Chunk(srcPos, dstPos, []));
        assert PrintablePatch(n.patches[|n.patches|-1]);
      case Content(l) =>
        var (i, k) := r.chunkAt.value;
        assert PrintablePatch(r.patches[i]) && PrintableChunk(r.patches[i].chunks[k]);
        assert PrintableChunk(n.patches[i].chunks[k]);
        assert PrintablePatch(n.patches[i]);
    }
  }

  lemma {:induction false} ReadingIsPrintable(r: Reading, lines: seq<string>)
    requires Valid(r) && ReadFrom(r, lines).Some? && Printable(r.patches)
    ensures Printable(ReadFrom(r, lines).value.patches)
    decreases |lines|
  {
    hide Classify, Step, PrintablePatch;
    if lines != [] {
      StepIsPrintable(r, lines[0]);
      ReadingIsPrintable(Step(r, lines[0]).value, lines[1..]);
    }
  }

  lemma NumberIsOneLine(n: nat)
    ensures OneLine(FormatInt(n))
  {
    DecimalIsRead(n);
  }

  lemma HeaderIsOneLine(a: nat, b: nat, c: nat, d: nat)
    ensures OneLine(HeaderText(a, b, c, d))
  {
    hide FormatInt;
    NumberIsOneLine(a);
    NumberIsOneLine(b);
    NumberIsOneLine(c);
    NumberIsOneLine(d);
  }

  lemma ChunkGivesLines(c: Chunk)
    requires PrintableChunk(c)
    ensures AllOneLine(ChunkLines(c))
  {
    hide HeaderText;
    HeaderIsOneLine(c.srcPos, SrcLen(c.lines), c.dstPos, DstLen(c.lines));
    forall i | 0 <= i < |c.lines| ensures OneLine(PrintedLine(c.lines[i])) {
      assert PrintableLine(c.lines[i]);
    }
  }

  lemma {:induction false} ChunksGiveLines(chunks: seq<Chunk>)
    requires forall i :: 0 <= i < |chunks| ==> PrintableChunk(chunks[i])
    ensures AllOneLine(ChunksLines(chunks))
  {
    hide ChunkLines, OneLine;
    if chunks != [] {
      ChunkGivesLines(chunks[0]);
      ChunksGiveLines(chunks[1..]);
    }
  }

  lemma {:induction false} PrintableGivesLines(ps: seq<Patch>)
    requires Printable(ps)
    ensures AllOneLine(PatchsetLines(ps))
  {
    if ps != [] {
      ChunksGiveLines(ps[0].chunks);
      PrintableGivesLines(ps[1..]);
    }
  }

  /** What is printed is read back as it was exactly when it is printable. */
  lemma RoundTrip(ps: seq<Patch>)
    ensures Parse(SplitLines(Written(PatchsetLines(ps)))) == Some(ps) <==> Printable(ps)
  {
    hide ReadFrom, PatchsetLines, Written, SplitLines, PrintablePatch;
    if Printable(ps) {
      PrintableGivesLines(ps);
      WrittenIsSplit(PatchsetLines(ps));
      var n := PatchsetIsReadBack(Reading([], None), ps);
      assert [] + ps == ps;
    }
    var lines := SplitLines(Written(PatchsetLines(ps)));
    if ReadFrom(Reading([], None), lines).Some? {
      ReadingIsPrintable(Reading([], None), lines);
    }
  }

  // ----- the other round trip: from text to patches and back -----

  datatype Place = AtStart | AfterFileHeader | AfterDstHeader | InChunk

  /** The content lines at the head of a list. */
  function ContentRun(lines: seq<string>): seq<Line> {
    if lines == [] || !Classify(lines[0]).Content? then [] else [Classify(lines[0]).line] + ContentRun(lines[1..])
  }

  predicate EndsLine(line: string) {
    line != "" && line[|line|-1] == '\n'
  }

  /** Well-formed text: every line ends, a file header is a pair of lines, chunks come after it and content lines
      after a chunk header, whose counts are those of the content lines that follow it. */
  predicate WellFormed(place: Place, lines: seq<string>)
    decreases |lines|
  {
    if lines == [] then place != AfterFileHeader else
    var rest := lines[1..];
    EndsLine(lines[0]) &&
    match Classify(lines[0])
    case FileHeader(_) => place != AfterFileHeader && WellFormed(AfterFileHeader, rest)
    case DstHeader(_) => place == AfterFileHeader && WellFormed(AfterDstHeader, rest)
    case ChunkHeader(srcPos, dstPos) =>
      && (place == AfterDstHeader || place == InChunk)
      && lines[0] == HeaderText(srcPos, SrcLen(ContentRun(rest)), dstPos, DstLen(ContentRun(rest))) + "\n"
      && WellFormed(InChunk, rest)
    case Content(_) => place == InChunk && WellFormed(InChunk, rest)
    case Unrecognised => false
  }

  lemma EndedMatch(prefix: string, line: string)
    requires MatchRest(prefix, line).Some? && EndsLine(line) && OneLine(prefix)
    ensures line == prefix + MatchRest(prefix, line).value + "\n"
  {
    var rest := line[|prefix|..];
    assert line == prefix + rest;
    assert prefix != "" ==> prefix[|prefix|-1] in prefix;
    assert rest[|rest|-1] == '\n';
    assert rest == StripLineEnd(rest) + "\n";
  }

  /** A line that ends is printed as it was recognised. */
  lemma RecognisedAsPrinted(line: string)
    requires EndsLine(line)
    ensures match Classify(line)
      case FileHeader(src) => line == "--- " + src + "\n"
      case DstHeader(dst) => line == "+++ " + dst + "\n"
      case Content(l) => line == PrintedLine(l) + "\n"
      case _ => true
  {
    hide MatchRest, MatchHeader;
    match Classify(line) {
      case FileHeader(src) => EndedMatch("--- ", line);
      case DstHeader(dst) => EndedMatch("+++ ", line);
      case Content(l) => EndedMatch([Mark(l.kind)], line);
      case _ =>
    }
  }

  /** What is left to print from some place on: the rest of a patch header or of a chunk, of a patch, of the patches. */
  function Remainder(place: Place, dst: string, run: seq<Line>, chunks: seq<Chunk>, ps: seq<Patch>): seq<string> {
    (if place == AfterFileHeader then ["+++ " + dst] else ContentLines(run)) + (ChunksLines(chunks) + PatchsetLines(ps))
  }

  lemma OneLineMore(line: string, rest: seq<string>)
    ensures Ended([line] + rest) == [line + "\n"] + Ended(rest)
  {
  }

  lemma RemainderWithFile(place: Place, src: string, dst: string, run: seq<Line>, chunks: seq<Chunk>, ps: seq<Patch>)
    requires place != AfterFileHeader
    ensures Remainder(place, "", [], [], [Patch(src, dst, chunks)] + ps)
         == ["--- " + src] + Remainder(AfterFileHeader, dst, run, chunks, ps)
  {
    hide ChunksLines, ContentLines, PatchsetLines;
    EmptyContent();
    FirstPatch(Patch(src, dst, chunks), ps);
    var after := ChunksLines(chunks) + PatchsetLines(ps);
    assert PatchLines(Patch(src, dst, chunks)) + PatchsetLines(ps) == ["--- " + src] + (["+++ " + dst] + after);
  }

  lemma FirstPatch(p: Patch, ps: seq<Patch>)
    ensures PatchsetLines([p] + ps) == PatchLines(p) + PatchsetLines(ps)
  {
    hide PatchLines;
    assert ([p] + ps)[1..] == ps;
  }

  lemma RemainderWithDst(dst: string, chunks: seq<Chunk>, ps: seq<Patch>)
    ensures Remainder(AfterFileHeader, dst, [], chunks, ps)
         == ["+++ " + dst] + Remainder(AfterDstHeader, "", [], chunks, ps)
  {
  }

  lemma RemainderWithChunk(place: Place, c: Chunk, chunks: seq<Chunk>, ps: seq<Patch>)
    requires place == AfterDstHeader || place == InChunk
    ensures Remainder(place, "", [], [c] + chunks, ps)
         == [HeaderText(c.srcPos, SrcLen(c.lines), c.dstPos, DstLen(c.lines))]
            + Remainder(InChunk, "", c.lines, chunks, ps)
  {
    hide HeaderText, PatchsetLines, ContentLines;
    assert ChunksLines([c] + chunks) == ChunkLines(c) + ChunksLines(chunks);
    EmptyContent();
  }

  lemma EmptyContent()
    ensures ContentLines([]) == [] && ChunksLines([]) == []
  {
  }

  lemma RemainderWithLine(l: Line, run: seq<Line>, chunks: seq<Chunk>, ps: seq<Patch>)
    ensures Remainder(InChunk, "", [l] + run, chunks, ps) == [PrintedLine(l)] + Remainder(InChunk, "", run, chunks, ps)
  {
    hide PrintedLine, ChunksLines, PatchsetLines;
    assert ContentLines([l] + run) == [PrintedLine(l)] + ContentLines(run);
  }

  /** Well-formed lines from some place on are what some printable remainder prints. */
  lemma {:induction false} PutTogether(place: Place, lines: seq<string>)
      returns (dst: string, run: seq<Line>, chunks: seq<Chunk>, ps: seq<Patch>)
    requires WellFormed(place, lines)
    ensures OneLine(dst) && Printable(ps) && run == ContentRun(lines)
    ensures forall i :: 0 <= i < |run| ==> PrintableLine(run[i])
    ensures forall i :: 0 <= i < |chunks| ==> PrintableChunk(chunks[i])
    ensures place != InChunk ==> run == []
    ensures place == AtStart ==> chunks == []
    ensures place != AfterFileHeader ==> dst == ""
    ensures lines == Ended(Remainder(place, dst, run, chunks, ps))
    decreases |lines|
  {
    hide HeaderText, Classify, Remainder, PrintedLine, PrintableLine, Ended, EndsLine;
    dst, run, chunks, ps := "", [], [], [];
    if lines == [] {
      NothingRemains(place);
      return;
    }
    var line, rest := lines[0], lines[1..];
    ClassesArePrintable(line);
    RecognisedAsPrinted(line);
    assert lines == [line] + rest;
    match Classify(line) {
      case FileHeader(src) =>
        var d, r, cs, qs := PutTogether(AfterFileHeader, rest);
        ps := [Patch(src, d, cs)] + qs;
        RemainderWithFile(place, src, d, r, cs, qs);
        OneLineMore("--- " + src, Remainder(AfterFileHeader, d, r, cs, qs));
      case DstHeader(d) =>
        var _, r, cs, qs := PutTogether(AfterDstHeader, rest);
        dst, chunks, ps := d, cs, qs;
        RemainderWithDst(d, cs, qs);
        OneLineMore("+++ " + d, Remainder(AfterDstHeader, "", [], cs, qs));
      case ChunkHeader(a, b) =>
        var _, r, cs, qs := PutTogether(InChunk, rest);
        var c := Chunk(a, b, r);
        chunks, ps := [c] + cs, qs;
        RemainderWithChunk(place, c, cs, qs);
        OneLineMore(HeaderText(a, SrcLen(r), b, DstLen(r)), Remainder(InChunk, "", r, cs, qs));
      case Content(l) =>
        var _, r, cs, qs := PutTogether(InChunk, rest);
        run, chunks, ps := [l] + r, cs, qs;
        RemainderWithLine(l, r, cs, qs);
        OneLineMore(PrintedLine(l), Remainder(InChunk, "", r, cs, qs));
    }
  }

  lemma NothingRemains(place: Place)
    requires place != AfterFileHeader
    ensures Ended(Remainder(place, "", [], [], [])) == []
  {
  }

  lemma EndedContent(lines: seq<Line>)
    requires lines != []
    ensures Ended(ContentLines(lines)) == [PrintedLine(lines[0]) + "\n"] + Ended(ContentLines(lines[1..]))
  {
    hide PrintedLine;
  }

  lemma EndedChunks(chunks: seq<Chunk>)
    requires chunks != []
    ensures Ended(ChunksLines(chunks))
         == [HeaderText(chunks[0].srcPos, SrcLen(chunks[0].lines), chunks[0].dstPos, DstLen(chunks[0].lines)) + "\n"]
            + Ended(ContentLines(chunks[0].lines)) + Ended(ChunksLines(chunks[1..]))
  {
    hide HeaderText, ContentLines, Ended;
    var c := chunks[0];
    var header := HeaderText(c.srcPos, SrcLen(c.lines), c.dstPos, DstLen(c.lines));
    EndedBoth(ChunkLines(c), ChunksLines(chunks[1..]));
    OneLineMore(header, ContentLines(c.lines));
  }

  lemma EndedPatches(ps: seq<Patch>)
    requires ps != []
    ensures Ended(PatchsetLines(ps))
         == ["--- " + ps[0].src + "\n", "+++ " + ps[0].dst + "\n"]
            + Ended(ChunksLines(ps[0].chunks)) + Ended(PatchsetLines(ps[1..]))
  {
    hide ChunksLines;
    var p := ps[0];
    EndedBoth(PatchLines(p), PatchsetLines(ps[1..]));
    EndedBoth(["--- " + p.src, "+++ " + p.dst], ChunksLines(p.chunks));
  }

  lemma ContentBefore(l: Line, rest: seq<string>)
    requires PrintableLine(l) && WellFormed(InChunk, rest)
    ensures var lines := [PrintedLine(l) + "\n"] + rest;
      WellFormed(InChunk, lines) && ContentRun(lines) == [l] + ContentRun(rest)
  {
    hide Classify, PrintedLine;
    ContentIsRead(l);
    assert ([PrintedLine(l) + "\n"] + rest)[1..] == rest;
  }

  /** What is printed is well-formed, wherever what follows it may stand. */
  lemma {:induction false} PrintedContentIsWellFormed(lines: seq<Line>, rest: seq<string>)
    requires forall i :: 0 <= i < |lines| ==> PrintableLine(lines[i])
    requires WellFormed(InChunk, rest) && ContentRun(rest) == []
    ensures WellFormed(InChunk, Ended(ContentLines(lines)) + rest)
    ensures ContentRun(Ended(ContentLines(lines)) + rest) == lines
    decreases |lines|
  {
    hide Classify, PrintedLine, PrintableLine, Ended, ContentLines, WellFormed, ContentRun;
    if lines == [] {
      NothingEnded();
      assert Ended(ContentLines([])) + rest == rest;
    } else {
      var more := Ended(ContentLines(lines[1..])) + rest;
      PrintedContentIsWellFormed(lines[1..], rest);
      EndedContent(lines);
      ContentBefore(lines[0], more);
      assert Ended(ContentLines(lines)) + rest == [PrintedLine(lines[0]) + "\n"] + more;
    }
  }

  lemma NothingEnded()
    ensures Ended(ContentLines([])) == [] && Ended(ChunksLines([])) == [] && Ended(PatchsetLines([])) == []
  {
  }

  lemma HeaderBefore(place: Place, c: Chunk, rest: seq<string>)
    requires c.srcPos >= 0 && c.dstPos >= 0 && (place == AfterDstHeader || place == InChunk)
    requires WellFormed(InChunk, rest) && ContentRun(rest) == c.lines
    ensures var header := HeaderText(c.srcPos, SrcLen(c.lines), c.dstPos, DstLen(c.lines)) + "\n";
      WellFormed(place, [header] + rest) && ContentRun([header] + rest) == []
  {
    hide Classify, HeaderText;
    ChunkHeaderIsRead(c.srcPos, SrcLen(c.lines), c.dstPos, DstLen(c.lines));
    var header := HeaderText(c.srcPos, SrcLen(c.lines), c.dstPos, DstLen(c.lines)) + "\n";
    assert ([header] + rest)[1..] == rest;
  }

  lemma FileHeadersBefore(place: Place, src: string, dst: string, rest: seq<string>)
    requires OneLine(src) && OneLine(dst) && place != AfterFileHeader && WellFormed(AfterDstHeader, rest)
    ensures var lines := ["--- " + src + "\n", "+++ " + dst + "\n"] + rest;
      WellFormed(place, lines) && ContentRun(lines) == []
  {
    hide Classify;
    FileHeaderIsRead(src);
    DstHeaderIsRead(dst);
    var lines := ["--- " + src + "\n", "+++ " + dst + "\n"] + rest;
    assert lines[1..] == ["+++ " + dst + "\n"] + rest && lines[1..][1..] == rest;
  }

  lemma NothingIsWellFormed(place: Place)
    requires place != AfterFileHeader
    ensures WellFormed(place, []) && ContentRun([]) == []
  {
  }

  lemma {:induction false} PrintedChunksAreWellFormed(place: Place, chunks: seq<Chunk>, rest: seq<string>)
    requires forall i :: 0 <= i < |chunks| ==> PrintableChunk(chunks[i])
    requires place == AfterDstHeader || place == InChunk
    requires WellFormed(AfterDstHeader, rest) && WellFormed(InChunk, rest) && ContentRun(rest) == []
    ensures WellFormed(place, Ended(ChunksLines(chunks)) + rest)
    ensures ContentRun(Ended(ChunksLines(chunks)) + rest) == []
    decreases |chunks|
  {
    hide HeaderText, WellFormed, ContentRun, Ended, ContentLines, ChunksLines, PrintableLine;
    if chunks == [] {
      NothingEnded();
      assert Ended(ChunksLines([])) + rest == rest;
    } else {
      var c := chunks[0];
      var more := Ended(ChunksLines(chunks[1..])) + rest;
      PrintedChunksAreWellFormed(InChunk, chunks[1..], rest);
      PrintedContentIsWellFormed(c.lines, more);
      HeaderBefore(place, c, Ended(ContentLines(c.lines)) + more);
      EndedChunks(chunks);
      var header := HeaderText(c.srcPos, SrcLen(c.lines), c.dstPos, DstLen(c.lines));
      assert Ended(ChunksLines(chunks)) + rest == [header + "\n"] + (Ended(ContentLines(c.lines)) + more);
    }
  }

  lemma {:induction false} PrintedPatchesAreWellFormed(place: Place, ps: seq<Patch>)
    requires Printable(ps) && place != AfterFileHeader
    ensures WellFormed(place, Ended(PatchsetLines(ps))) && ContentRun(Ended(PatchsetLines(ps))) == []
    decreases |ps|
  {
    hide Printable, PrintableChunk, WellFormed, ContentRun, Ended, ChunksLines, PatchsetLines;
    if ps == [] {
      NothingIsWellFormed(place);
      NothingEnded();
    } else {
      FirstPrintable(ps);
      var p, rest := ps[0], Ended(PatchsetLines(ps[1..]));
      PrintedPatchesAreWellFormed(AfterDstHeader, ps[1..]);
      PrintedPatchesAreWellFormed(InChunk, ps[1..]);
      PrintedChunksAreWellFormed(AfterDstHeader, p.chunks, rest);
      FileHeadersBefore(place, p.src, p.dst, Ended(ChunksLines(p.chunks)) + rest);
      EndedPatches(ps);
      assert Ended(PatchsetLines(ps))
          == ["--- " + p.src + "\n", "+++ " + p.dst + "\n"] + (Ended(ChunksLines(p.chunks)) + rest);
    }
  }

  lemma FirstPrintable(ps: seq<Patch>)
    requires Printable(ps) && ps != []
    ensures Printable(ps[1..]) && PrintablePatch(ps[0])
  {
  }

  function Joined(lines: seq<string>): string {
    if lines == [] then "" else lines[0] + Joined(lines[1..])
  }

  lemma {:induction false} SplitJoins(text: string)
    ensures Joined(SplitLines(text)) == text
    decreases |text|
  {
    if text != "" {
      SplitJoins(text[LineLength(text)..]);
    }
  }

  lemma {:induction false} WrittenIsJoined(lines: seq<string>)
    ensures Written(lines) == Joined(Ended(lines))
  {
    if lines != [] {
      WrittenIsJoined(lines[1..]);
      assert Ended(lines)[1..] == Ended(lines[1..]);
    }
  }

  /** A text is reproduced by reading and printing it exactly when it is well-formed. */
  lemma TextRoundTrip(text: string)
    ensures WellFormed(AtStart, SplitLines(text)) <==>
      Parse(SplitLines(text)).Some? && Written(PatchsetLines(Parse(SplitLines(text)).value)) == text
  {
    hide SplitLines, PatchsetLines, Written, WellFormed, PrintablePatch, ReadFrom, Joined;
    var lines := SplitLines(text);
    SplitJoins(text);
    if WellFormed(AtStart, lines) {
      var dst, run, chunks, ps := PutTogether(AtStart, lines);
      assert ContentLines([]) + (ChunksLines([]) + PatchsetLines(ps)) == PatchsetLines(ps);
      WrittenIsJoined(PatchsetLines(ps));
      RoundTrip(ps);
    }
    if Parse(lines).Some? && Written(PatchsetLines(Parse(lines).value)) == text {
      var ps := Parse(lines).value;
      ReadingIsPrintable(Reading([], None), lines);
      PrintableGivesLines(ps);
      WrittenIsSplit(PatchsetLines(ps));
      PrintedPatchesAreWellFormed(AtStart, ps);
    }
  }
}
