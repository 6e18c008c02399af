/** What the lines of a printed chunk are, one by one, and what its two sides hold, utils/check-style.py. */
module PatchPrinted {
  import opened Basics
  import opened PatchText

  // ----- the two sides of a chunk -----

  /** src() drops the lines that are only in the destination, dst() those that are only in the source. */
  function SideOf(lines: seq<Line>, dropped: LineKind): seq<Line> {
    if lines == [] then [] else
    var last := lines[|lines|-1];
    SideOf(lines[..|lines|-1], dropped) + if last.kind != dropped then [last] else []
  }

  /** Where the kept lines stand among the first n. */
  function Kept(lines: seq<Line>, dropped: LineKind, n: nat): set<nat>
    requires n <= |lines|
  {
    set i: nat | i < n && lines[i].kind != dropped
  }

  lemma KeptNext(lines: seq<Line>, dropped: LineKind, n: nat)
    requires n < |lines|
    ensures n !in Kept(lines, dropped, n)
    ensures Kept(lines, dropped, n+1) == Kept(lines, dropped, n) + if lines[n].kind != dropped then {n} else {}
  {
  }

  lemma KeptMore(lines: seq<Line>, dropped: LineKind, n: nat)
    requires n < |lines|
    ensures |Kept(lines, dropped, n+1)| == |Kept(lines, dropped, n)| + if lines[n].kind != dropped then 1 else 0
  {
    hide Kept;
    KeptNext(lines, dropped, n);
    var before := Kept(lines, dropped, n);
    assert |before + {n}| == |before| + 1;
  }

  lemma KeptBefore(lines: seq<Line>, dropped: LineKind, n: nat, i: nat)
    requires i <= n <= |lines|
    ensures Kept(lines[..n], dropped, i) == Kept(lines, dropped, i)
  {
  }

  /** A side holds the kept lines and no others, each as far from the front as there are kept lines before it. */
  ghost predicate IsSide(lines: seq<Line>, dropped: LineKind, side: seq<Line>) {
    && |side| == |Kept(lines, dropped, |lines|)|
    && forall i :: 0 <= i < |lines| && lines[i].kind != dropped ==>
      |Kept(lines, dropped, i)| < |side| && side[|Kept(lines, dropped, i)|] == lines[i]
  }

  lemma {:induction false} SideAt(lines: seq<Line>, dropped: LineKind, sofar: seq<Line>, i: nat)
    requires i < |lines| && lines[i].kind != dropped && IsSide(lines[..|lines|-1], dropped, sofar)
    ensures var side := sofar + if lines[|lines|-1].kind != dropped then [lines[|lines|-1]] else [];
      |Kept(lines, dropped, i)| < |side| && side[|Kept(lines, dropped, i)|] == lines[i]
  {
    hide Kept;
    var n := |lines| - 1;
    KeptBefore(lines, dropped, n, n);
    if i < n {
      KeptBefore(lines, dropped, n, i);
      assert lines[..n][i] == lines[i];
    }
  }

  lemma {:induction false} SideExactly(lines: seq<Line>, dropped: LineKind)
    ensures IsSide(lines, dropped, SideOf(lines, dropped))
  {
    if lines == [] {
      assert Kept(lines, dropped, 0) == {};
    } else {
      hide Kept;
      var n := |lines| - 1;
      SideExactly(lines[..n], dropped);
      KeptMore(lines, dropped, n);
      KeptBefore(lines, dropped, n, n);
      var sofar := SideOf(lines[..n], dropped);
      forall i | 0 <= i < |lines| && lines[i].kind != dropped
        ensures var side := SideOf(lines, dropped);
          |Kept(lines, dropped, i)| < |side| && side[|Kept(lines, dropped, i)|] == lines[i]
      {
        hide IsSide;
        SideAt(lines, dropped, sofar, i);
      }
    }
  }

  lemma {:induction false} LengthsOfMore(lines: seq<Line>, l: Line)
    ensures SrcLen(lines + [l]) == SrcLen(lines) + if l.kind != DST then 1 else 0
    ensures DstLen(lines + [l]) == DstLen(lines) + if l.kind != SRC then 1 else 0
  {
    if lines != [] {
      assert (lines + [l])[1..] == lines[1..] + [l];
      LengthsOfMore(lines[1..], l);
    }
  }

  /** The counts of the chunk header are the lengths of the two sides. */
  lemma {:induction false} SideLengths(lines: seq<Line>)
    ensures |SideOf(lines, DST)| == SrcLen(lines) && |SideOf(lines, SRC)| == DstLen(lines)
  {
    if lines != [] {
      var n := |lines| - 1;
      SideLengths(lines[..n]);
      LengthsOfMore(lines[..n], lines[n]);
      assert lines == lines[..n] + [lines[n]];
    }
  }

  // ----- the printed lines -----

  /** How many lines are not only in the destination. */
  function InSource(c: Chunk): nat {
    |Kept(c.lines, DST, |c.lines|)|
  }

  /** How many lines are not only in the source. */
  function InDestination(c: Chunk): nat {
    |Kept(c.lines, SRC, |c.lines|)|
  }

  ghost predicate PrintsChunk(c: Chunk, printed: seq<string>) {
    && |printed| == 1 + |c.lines|
    && printed[0] == "@@ -" + FormatInt(c.srcPos) + "," + FormatInt(InSource(c))
                     + " +" + FormatInt(c.dstPos) + "," + FormatInt(InDestination(c)) + " @@"
    && forall i :: 0 <= i < |c.lines| ==>
      printed[1+i] == (match c.lines[i].kind case SRC => "-" case DST => "+" case BOTH => " ") + c.lines[i].text
  }

  lemma CountsOfSides(c: Chunk)
    ensures SrcLen(c.lines) == InSource(c) && DstLen(c.lines) == InDestination(c)
  {
    SideLengths(c.lines);
    SideExactly(c.lines, DST);
    SideExactly(c.lines, SRC);
  }

  lemma ChunkIsPrinted(c: Chunk)
    ensures PrintsChunk(c, ChunkLines(c))
  {
    hide FormatInt, Kept;
    CountsOfSides(c);
  }

  /** The header of a printed chunk is read as four numbers: where the source starts and how many lines it has, where
      the destination starts and how many lines it has. */
  lemma HeaderCounts(c: Chunk, rest: string)
    requires c.srcPos >= 0 && c.dstPos >= 0
    ensures MatchHeader(ChunkLines(c)[0] + rest) == Some((c.srcPos, InSource(c), c.dstPos, InDestination(c)))
  {
    hide HeaderText, MatchHeader;
    CountsOfSides(c);
    HeaderIsMatched(c.srcPos, SrcLen(c.lines), c.dstPos, DstLen(c.lines), rest);
  }

  /** The chunk headers of a well-formed text have the right counts for the content lines after them. */
  lemma WellFormedCounts(place: Place, lines: seq<string>)
    requires lines != [] && WellFormed(place, lines) && Classify(lines[0]).ChunkHeader?
    ensures var (srcPos, dstPos) := (Classify(lines[0]).srcPos, Classify(lines[0]).dstPos);
      var c := Chunk(srcPos, dstPos, ContentRun(lines[1..]));
      srcPos >= 0 && dstPos >= 0 && MatchHeader(lines[0]) == Some((srcPos, InSource(c), dstPos, InDestination(c)))
  {
    hide MatchHeader, Classify, HeaderText;
    ClassesArePrintable(lines[0]);
    var c := Chunk(Classify(lines[0]).srcPos, Classify(lines[0]).dstPos, ContentRun(lines[1..]));
    HeaderCounts(c, "\n");
  }

  lemma OneLineAdded()
    ensures Written(ChunkLines(Chunk(1, 1, [Line(BOTH, "a"), Line(DST, "b")]))) == "@@ -1,1 +1,2 @@\n a\n+b\n"
  {
    var c := Chunk(1, 1, [Line(BOTH, "a"), Line(DST, "b")]);
    ChunkIsPrinted(c);
    assert SrcLen(c.lines) == 1 && DstLen(c.lines) == 2;
    CountsOfSides(c);
    assert FormatInt(1) == "1" && FormatInt(2) == "2";
    var printed := ChunkLines(c);
    assert printed[0] == "@@ -1,1 +1,2 @@" && printed[1] == " a" && printed[2] == "+b";
    assert printed == ["@@ -1,1 +1,2 @@", " a", "+b"];
    assert printed[1..][1..][1..] == [];
    assert Written(printed[1..]) == " a\n" + Written(printed[1..][1..]);
  }
}
