/** Where parse_patchset of utils/check-style.py puts each line it reads, and when it raises an exception. */
module PatchReading {
  import opened Basics
  import opened PatchText

  function Classes(lines: seq<string>): (ks: seq<LineClass>)
    ensures |ks| == |lines| && forall i :: 0 <= i < |ks| ==> ks[i] == Classify(lines[i])
  {
    seq(|lines|, i requires 0 <= i < |lines| => Classify(lines[i]))
  }

  // ----- counting lines -----

  /** How many file headers stand before line n. */
  function Files(ks: seq<LineClass>, n: nat): nat
    requires n <= |ks|
  {
    if n == 0 then 0 else Files(ks, n-1) + if ks[n-1].FileHeader? then 1 else 0
  }

  /** How many chunk headers stand before line n and after the last file header there. */
  function Chunks(ks: seq<LineClass>, n: nat): nat
    requires n <= |ks|
  {
    if n == 0 || ks[n-1].FileHeader? then 0 else Chunks(ks, n-1) + if ks[n-1].ChunkHeader? then 1 else 0
  }

  /** How many content lines stand before line n and after the last chunk header there. */
  function Contents(ks: seq<LineClass>, n: nat): nat
    requires n <= |ks|
  {
    if n == 0 || ks[n-1].ChunkHeader? then 0 else Contents(ks, n-1) + if ks[n-1].Content? then 1 else 0
  }

  /** The name in the last destination header that stands before line n and after the last file header there. */
  function DstName(ks: seq<LineClass>, n: nat): string
    requires n <= |ks|
  {
    if n == 0 || ks[n-1].FileHeader? then "" else if ks[n-1].DstHeader? then ks[n-1].dst else DstName(ks, n-1)
  }

  /** The last chunk header before line n. */
  function LastChunk(ks: seq<LineClass>, n: nat): (h: Option<nat>)
    requires n <= |ks|
    ensures h.Some? ==> h.value < n && ks[h.value].ChunkHeader?
    ensures forall i :: (if h.None? then 0 else h.value + 1) <= i < n ==> !ks[i].ChunkHeader?
  {
    if n == 0 then None else if ks[n-1].ChunkHeader? then Some(n-1) else LastChunk(ks, n-1)
  }

  lemma {:induction false} FilesGrow(ks: seq<LineClass>, i: nat, n: nat)
    requires i <= n <= |ks|
    ensures Files(ks, i) <= Files(ks, n)
    ensures i < n && ks[i].FileHeader? ==> Files(ks, i) < Files(ks, n)
  {
    if i < n {
      FilesGrow(ks, i, n-1);
    }
  }

  /** Later chunk headers belong to later patches or are later in the same patch. */
  lemma {:induction false} ChunksGrow(ks: seq<LineClass>, i: nat, n: nat)
    requires i < n <= |ks| && ks[i].ChunkHeader?
    ensures Files(ks, i) < Files(ks, n) || (Files(ks, i) == Files(ks, n) && Chunks(ks, i) < Chunks(ks, n))
  {
    if i < n - 1 {
      ChunksGrow(ks, i, n-1);
    }
  }

  lemma {:induction false} NoFiles(ks: seq<LineClass>, n: nat)
    requires n <= |ks|
    ensures Files(ks, n) == 0 <==> forall i :: 0 <= i < n ==> !ks[i].FileHeader?
  {
    if n > 0 {
      NoFiles(ks, n-1);
    }
  }

  // ----- exceptions -----

  /** A line that matches no pattern, a destination or chunk header before the first file header, or a content line
      before the first chunk header. */
  ghost predicate Offends(ks: seq<LineClass>, i: nat)
    requires i < |ks|
  {
    match ks[i]
    case FileHeader(_) => false
    case DstHeader(_) => forall j :: 0 <= j < i ==> !ks[j].FileHeader?
    case ChunkHeader(_, _) => forall j :: 0 <= j < i ==> !ks[j].FileHeader?
    case Content(_) => forall j :: 0 <= j < i ==> !ks[j].ChunkHeader?
    case Unrecognised => true
  }

  /** A line with one of the characters in front, or a chunk header, is recognised, and no other. */
  lemma UnrecognisedExactly(text: string)
    requires OneLine(text)
    ensures Classify(text + "\n").Unrecognised? <==>
      MatchHeader(text + "\n").None? && (text == "" || (text[0] != '-' && text[0] != '+' && text[0] != ' '))
  {
    hide MatchHeader;
    var line := text + "\n";
    if text != "" && (text[0] == '-' || text[0] == '+' || text[0] == ' ') {
      MatchEnded(text[..1], text[1..]);
      assert line == text[..1] + text[1..] + "\n";
    }
    if text == "" {
      assert line[0] == '\n';
    } else {
      assert line[0] == text[0];
    }
  }

  // ----- where the lines go -----

  /** One patch for each file header, in order, with its name. */
  ghost predicate FilesRead(ks: seq<LineClass>, n: nat, ps: seq<Patch>)
    requires n <= |ks|
  {
    && |ps| == Files(ks, n)
    && forall i :: 0 <= i < n && ks[i].FileHeader? ==> Files(ks, i) < |ps| && ps[Files(ks, i)].src == ks[i].src
  }

  /** Each patch, which ends where the next one starts, has its last destination name and as many chunks as there
      are chunk headers. */
  ghost predicate PatchesRead(ks: seq<LineClass>, n: nat, ps: seq<Patch>)
    requires n <= |ks|
  {
    forall e :: 0 <= e <= n && 0 < Files(ks, e) <= |ps| && (e < n ==> ks[e].FileHeader?) ==>
      ps[Files(ks, e)-1].dst == DstName(ks, e) && |ps[Files(ks, e)-1].chunks| == Chunks(ks, e)
  }

  ghost predicate HasChunk(ks: seq<LineClass>, h: nat, ps: seq<Patch>)
    requires h <= |ks|
  {
    1 <= Files(ks, h) <= |ps| && Chunks(ks, h) < |ps[Files(ks, h)-1].chunks|
  }

  /** The chunk that the header in line h starts. */
  function ChunkAt(ks: seq<LineClass>, h: nat, ps: seq<Patch>): Chunk
    requires h <= |ks| && HasChunk(ks, h, ps)
  {
    ps[Files(ks, h)-1].chunks[Chunks(ks, h)]
  }

  /** Each chunk header gives the next chunk of its patch, with its positions. */
  ghost predicate ChunksRead(ks: seq<LineClass>, n: nat, ps: seq<Patch>)
    requires n <= |ks|
  {
    forall h :: 0 <= h < n && ks[h].ChunkHeader? ==>
      && HasChunk(ks, h, ps)
      && ChunkAt(ks, h, ps).srcPos == ks[h].srcPos && ChunkAt(ks, h, ps).dstPos == ks[h].dstPos
  }

  ghost predicate HasLine(ks: seq<LineClass>, i: nat, ps: seq<Patch>)
    requires i < |ks| && ks[i].Content?
  {
    var h := LastChunk(ks, i);
    && h.Some? && HasChunk(ks, h.value, ps)
    && Contents(ks, i) < |ChunkAt(ks, h.value, ps).lines|
    && ChunkAt(ks, h.value, ps).lines[Contents(ks, i)] == ks[i].line
  }

  /** Each content line is the next line of the chunk that the last chunk header before it starts, even where a file
      header stands between them. */
  ghost predicate ContentRead(ks: seq<LineClass>, n: nat, ps: seq<Patch>)
    requires n <= |ks|
  {
    forall i :: 0 <= i < n && ks[i].Content? ==> HasLine(ks, i, ps)
  }

  ghost predicate CountedAt(ks: seq<LineClass>, e: nat, ps: seq<Patch>)
    requires e <= |ks| && LastChunk(ks, e).Some?
  {
    var h := LastChunk(ks, e).value;
    HasChunk(ks, h, ps) && |ChunkAt(ks, h, ps).lines| == Contents(ks, e)
  }

  /** Each chunk, which ends where the next one starts, has no other lines. */
  ghost predicate ContentCounted(ks: seq<LineClass>, n: nat, ps: seq<Patch>)
    requires n <= |ks|
  {
    forall e :: 0 <= e <= n && LastChunk(ks, e).Some? && (e < n ==> ks[e].ChunkHeader?) ==> CountedAt(ks, e, ps)
  }

  /** All of it, which leaves nothing of the patches open. */
  ghost predicate IsRead(ks: seq<LineClass>, n: nat, ps: seq<Patch>)
    requires n <= |ks|
  {
    && FilesRead(ks, n, ps) && PatchesRead(ks, n, ps)
    && ChunksRead(ks, n, ps) && ContentRead(ks, n, ps) && ContentCounted(ks, n, ps)
  }

  ghost predicate CurrentChunk(ks: seq<LineClass>, n: nat, at: Option<(nat, nat)>)
    requires n <= |ks|
  {
    match LastChunk(ks, n)
    case None => at.None?
    case Some(h) => 1 <= Files(ks, h) && at == Some((Files(ks, h)-1, Chunks(ks, h)))
  }

  ghost predicate SoFar(ks: seq<LineClass>, n: nat, r: Reading)
    requires n <= |ks|
  {
    IsRead(ks, n, r.patches) && CurrentChunk(ks, n, r.chunkAt)
  }

  // ----- one more line -----

  /** The patches of the one are those of the other, with more at the end of the list and of the last one's chunks. */
  ghost predicate Grown(ps: seq<Patch>, qs: seq<Patch>) {
    && |ps| <= |qs|
    && (forall p :: 0 <= p < |ps| ==> ps[p].src == qs[p].src && ps[p].chunks <= qs[p].chunks)
    && (forall p :: 0 <= p < |ps| - 1 ==> ps[p] == qs[p])
  }

  lemma ChunksStay(ks: seq<LineClass>, n: nat, ps: seq<Patch>, qs: seq<Patch>)
    requires n < |ks| && Grown(ps, qs) && ChunksRead(ks, n, ps) && ContentRead(ks, n, ps) && !ks[n].Content?
    requires ks[n].ChunkHeader? ==>
      HasChunk(ks, n, qs) && ChunkAt(ks, n, qs) == Chunk(ks[n].srcPos, ks[n].dstPos, [])
    ensures ChunksRead(ks, n+1, qs) && ContentRead(ks, n+1, qs)
  {
    hide Files, Chunks, Contents, LastChunk;
  }

  lemma CountsStay(ks: seq<LineClass>, n: nat, ps: seq<Patch>, qs: seq<Patch>)
    requires n < |ks| && Grown(ps, qs) && ContentCounted(ks, n, ps) && !ks[n].Content?
    requires ks[n].ChunkHeader? ==> HasChunk(ks, n, qs) && ChunkAt(ks, n, qs).lines == []
    ensures ContentCounted(ks, n+1, qs)
  {
    hide Files, Chunks;
  }

  lemma FilesStay(ks: seq<LineClass>, n: nat, ps: seq<Patch>, qs: seq<Patch>)
    requires n < |ks| && Grown(ps, qs) && FilesRead(ks, n, ps) && |qs| == Files(ks, n+1)
    requires ks[n].FileHeader? ==> qs[|ps|].src == ks[n].src
    ensures FilesRead(ks, n+1, qs)
  {
  }

  /** The patches that have ended stay as they are. */
  lemma EndedStay(ks: seq<LineClass>, n: nat, ps: seq<Patch>, qs: seq<Patch>)
    requires n < |ks| && Grown(ps, qs) && PatchesRead(ks, n, ps) && |ps| == Files(ks, n)
    requires var last := Files(ks, n+1) - 1;
      0 <= last < |qs| ==> qs[last].dst == DstName(ks, n+1) && |qs[last].chunks| == Chunks(ks, n+1)
    requires ks[n].FileHeader? ==> ps <= qs
    ensures PatchesRead(ks, n+1, qs)
  {
    hide DstName, Chunks;
    forall e | 0 <= e < n && ks[e].FileHeader? ensures Files(ks, e) < |ps| {
      FilesGrow(ks, e, n);
    }
  }

  lemma AsManyPatches(ks: seq<LineClass>, n: nat, r: Reading)
    requires n <= |ks| && SoFar(ks, n, r)
    ensures |r.patches| == Files(ks, n)
  {
  }

  lemma EndIsKnown(ks: seq<LineClass>, n: nat, ps: seq<Patch>)
    requires n <= |ks| && PatchesRead(ks, n, ps) && |ps| == Files(ks, n) > 0
    ensures ps[|ps|-1].dst == DstName(ks, n) && |ps[|ps|-1].chunks| == Chunks(ks, n)
  {
  }

  lemma FileIsTaken(ks: seq<LineClass>, n: nat, r: Reading)
    requires n < |ks| && Valid(r) && SoFar(ks, n, r) && ks[n].FileHeader?
    ensures SoFar(ks, n+1, Take(r, ks[n]).value)
  {
    hide FilesRead, PatchesRead, ChunksRead, ContentRead, ContentCounted;
    var ps, qs := r.patches, Take(r, ks[n]).value.patches;
    AsManyPatches(ks, n, r);
    FilesStay(ks, n, ps, qs);
    EndedStay(ks, n, ps, qs);
    ChunksStay(ks, n, ps, qs);
    CountsStay(ks, n, ps, qs);
  }

  lemma DstIsTaken(ks: seq<LineClass>, n: nat, r: Reading)
    requires n < |ks| && Valid(r) && SoFar(ks, n, r) && ks[n].DstHeader? && Take(r, ks[n]).Some?
    ensures SoFar(ks, n+1, Take(r, ks[n]).value)
  {
    hide FilesRead, PatchesRead, ChunksRead, ContentRead, ContentCounted;
    var ps, qs := r.patches, Take(r, ks[n]).value.patches;
    AsManyPatches(ks, n, r);
    EndIsKnown(ks, n, ps);
    FilesStay(ks, n, ps, qs);
    EndedStay(ks, n, ps, qs);
    ChunksStay(ks, n, ps, qs);
    CountsStay(ks, n, ps, qs);
  }

  lemma ChunkIsTaken(ks: seq<LineClass>, n: nat, r: Reading)
    requires n < |ks| && Valid(r) && SoFar(ks, n, r) && ks[n].ChunkHeader? && Take(r, ks[n]).Some?
    ensures SoFar(ks, n+1, Take(r, ks[n]).value)
  {
    hide FilesRead, PatchesRead, ChunksRead, ContentRead, ContentCounted;
    var ps, qs := r.patches, Take(r, ks[n]).value.patches;
    AsManyPatches(ks, n, r);
    EndIsKnown(ks, n, ps);
    FilesStay(ks, n, ps, qs);
    EndedStay(ks, n, ps, qs);
    ChunksStay(ks, n, ps, qs);
    CountsStay(ks, n, ps, qs);
  }

  /** The one chunk has a line more at its end, and nothing else differs. */
  ghost predicate Extended(ps: seq<Patch>, qs: seq<Patch>, p: nat, k: nat, l: Line) {
    && |ps| == |qs|
    && (forall i :: 0 <= i < |ps| ==>
          ps[i].src == qs[i].src && ps[i].dst == qs[i].dst && |ps[i].chunks| == |qs[i].chunks|)
    && forall i, j :: 0 <= i < |ps| && 0 <= j < |ps[i].chunks| ==>
      qs[i].chunks[j] == var c := ps[i].chunks[j]; if i == p && j == k then c.(lines := c.lines + [l]) else c
  }

  lemma {:induction false} FilesStayWith(
      ks: seq<LineClass>, n: nat, ps: seq<Patch>, qs: seq<Patch>, p: nat, k: nat, l: Line)
    requires n < |ks| && ks[n] == Content(l) && Extended(ps, qs, p, k, l) && FilesRead(ks, n, ps)
    ensures FilesRead(ks, n+1, qs)
  {
  }

  lemma {:induction false} PatchesStayWith(
      ks: seq<LineClass>, n: nat, ps: seq<Patch>, qs: seq<Patch>, p: nat, k: nat, l: Line)
    requires n < |ks| && ks[n] == Content(l) && Extended(ps, qs, p, k, l) && PatchesRead(ks, n, ps)
    ensures PatchesRead(ks, n+1, qs)
  {
    assert Files(ks, n+1) == Files(ks, n) && DstName(ks, n+1) == DstName(ks, n) && Chunks(ks, n+1) == Chunks(ks, n);
    hide Files, Chunks, DstName;
    forall e | 0 <= e <= n + 1 && 0 < Files(ks, e) <= |qs| && (e < n + 1 ==> ks[e].FileHeader?)
      ensures qs[Files(ks, e)-1].dst == DstName(ks, e) && |qs[Files(ks, e)-1].chunks| == Chunks(ks, e)
    {
      assert ps[Files(ks, e)-1].dst == DstName(ks, e);
    }
  }

  lemma {:induction false} ChunksStayWith(
      ks: seq<LineClass>, n: nat, ps: seq<Patch>, qs: seq<Patch>, p: nat, k: nat, l: Line)
    requires n < |ks| && ks[n] == Content(l) && Extended(ps, qs, p, k, l) && ChunksRead(ks, n, ps)
    ensures ChunksRead(ks, n+1, qs)
  {
    hide Files, Chunks;
  }

  lemma ContentStaysWith(ks: seq<LineClass>, n: nat, ps: seq<Patch>, qs: seq<Patch>, p: nat, k: nat, l: Line)
    requires n < |ks| && ks[n] == Content(l) && Extended(ps, qs, p, k, l)
    requires ContentRead(ks, n, ps) && HasLine(ks, n, qs)
    ensures ContentRead(ks, n+1, qs)
  {
    hide LastChunk, Contents, Files, Chunks;
  }

  lemma ContentIsCounted(ks: seq<LineClass>, n: nat, ps: seq<Patch>)
    requires n <= |ks| && ContentCounted(ks, n, ps) && LastChunk(ks, n).Some?
    ensures var h := LastChunk(ks, n).value;
      HasChunk(ks, h, ps) && |ChunkAt(ks, h, ps).lines| == Contents(ks, n)
  {
  }

  lemma {:induction false} CountStaysWith(
      ks: seq<LineClass>, h: nat, ps: seq<Patch>, qs: seq<Patch>, l: Line, e: nat)
    requires h <= |ks| && Files(ks, h) >= 1 && Extended(ps, qs, Files(ks, h)-1, Chunks(ks, h), l)
    requires e <= |ks| && LastChunk(ks, e).Some? && LastChunk(ks, e).value < h && CountedAt(ks, e, ps)
    ensures CountedAt(ks, e, qs)
  {
    ChunksGrow(ks, LastChunk(ks, e).value, h);
    hide Contents, LastChunk, Files, Chunks;
  }

  lemma {:induction false} CountGrowsWith(ks: seq<LineClass>, n: nat, ps: seq<Patch>, qs: seq<Patch>, l: Line)
    requires n < |ks| && ks[n] == Content(l) && LastChunk(ks, n).Some? && CountedAt(ks, n, ps)
    requires var h := LastChunk(ks, n).value;
      Files(ks, h) >= 1 && Extended(ps, qs, Files(ks, h)-1, Chunks(ks, h), l)
    ensures LastChunk(ks, n+1) == LastChunk(ks, n) && CountedAt(ks, n+1, qs)
  {
    assert LastChunk(ks, n+1) == LastChunk(ks, n) && Contents(ks, n+1) == Contents(ks, n) + 1;
    hide Contents, LastChunk, Files, Chunks;
  }

  lemma {:induction false} CountsStayWith(ks: seq<LineClass>, n: nat, ps: seq<Patch>, qs: seq<Patch>, l: Line)
    requires n < |ks| && ks[n] == Content(l) && ContentCounted(ks, n, ps) && LastChunk(ks, n).Some?
    requires var h := LastChunk(ks, n).value;
      Files(ks, h) >= 1 && Extended(ps, qs, Files(ks, h)-1, Chunks(ks, h), l)
    ensures ContentCounted(ks, n+1, qs)
  {
    hide Contents, LastChunk, Files, Chunks, Extended, CountedAt;
    var h := LastChunk(ks, n).value;
    CountGrowsWith(ks, n, ps, qs, l);
    forall e | 0 <= e < n && LastChunk(ks, e).Some? && ks[e].ChunkHeader? ensures CountedAt(ks, e, qs) {
      CountStaysWith(ks, h, ps, qs, l, e);
    }
  }

  lemma ContentIsTaken(ks: seq<LineClass>, n: nat, r: Reading)
    requires n < |ks| && Valid(r) && SoFar(ks, n, r) && ks[n].Content? && Take(r, ks[n]).Some?
    ensures SoFar(ks, n+1, Take(r, ks[n]).value)
  {
    hide FilesRead, PatchesRead, ChunksRead, ContentRead, ContentCounted;
    var ps, qs, l := r.patches, Take(r, ks[n]).value.patches, ks[n].line;
    var (p, k) := r.chunkAt.value;
    assert Extended(ps, qs, p, k, l);
    ContentIsCounted(ks, n, ps);
    FilesStayWith(ks, n, ps, qs, p, k, l);
    PatchesStayWith(ks, n, ps, qs, p, k, l);
    ChunksStayWith(ks, n, ps, qs, p, k, l);
    ContentStaysWith(ks, n, ps, qs, p, k, l);
    CountsStayWith(ks, n, ps, qs, l);
  }

  // ----- all lines -----

  lemma TakenUnlessOffending(ks: seq<LineClass>, n: nat, r: Reading)
    requires n < |ks| && Valid(r) && SoFar(ks, n, r)
    ensures Take(r, ks[n]).None? <==> Offends(ks, n)
  {
    hide PatchesRead, ChunksRead, ContentRead, ContentCounted;
    NoFiles(ks, n);
  }

  lemma OneMoreLine(ks: seq<LineClass>, n: nat, r: Reading)
    requires n < |ks| && Valid(r) && SoFar(ks, n, r) && Take(r, ks[n]).Some?
    ensures SoFar(ks, n+1, Take(r, ks[n]).value)
  {
    hide SoFar;
    match ks[n] {
      case FileHeader(_) => FileIsTaken(ks, n, r);
      case DstHeader(_) => DstIsTaken(ks, n, r);
      case ChunkHeader(_, _) => ChunkIsTaken(ks, n, r);
      case Content(_) => ContentIsTaken(ks, n, r);
      case Unrecognised => assert false;
    }
  }

  ghost predicate Raises(ks: seq<LineClass>, n: nat)
    requires n <= |ks|
  {
    exists i :: 0 <= i < n && Offends(ks, i)
  }

  lemma RaisesMore(ks: seq<LineClass>, n: nat)
    requires n < |ks|
    ensures Raises(ks, n+1) <==> Raises(ks, n) || Offends(ks, n)
  {
  }

  lemma NothingSoFar(ks: seq<LineClass>)
    ensures SoFar(ks, 0, Reading([], None)) && !Raises(ks, 0)
  {
  }

  lemma ReadOne(r: Reading, line: string)
    requires Valid(r)
    ensures ReadFrom(r, [line]) == Take(r, Classify(line))
  {
    hide Take, Classify;
    assert [line][1..] == [];
  }

  lemma {:induction false} ReadSoFar(lines: seq<string>, n: nat)
    requires n <= |lines|
    ensures var r := ReadFrom(Reading([], None), lines[..n]);
      (r.None? <==> Raises(Classes(lines), n)) && (r.Some? ==> SoFar(Classes(lines), n, r.value))
  {
    hide Take, SoFar, Raises, Offends, Classify, ReadFrom;
    var ks, start := Classes(lines), Reading([], None);
    if n == 0 {
      NothingSoFar(ks);
      ReadNothing(start);
      assert lines[..0] == [];
    } else {
      ReadSoFar(lines, n-1);
      ReadBoth(start, lines[..n-1], [lines[n-1]]);
      assert lines[..n] == lines[..n-1] + [lines[n-1]];
      RaisesMore(ks, n-1);
      if ReadFrom(start, lines[..n-1]).Some? {
        var r := ReadFrom(start, lines[..n-1]).value;
        ReadOne(r, lines[n-1]);
        TakenUnlessOffending(ks, n-1, r);
        if Take(r, ks[n-1]).Some? {
          OneMoreLine(ks, n-1, r);
        }
      }
    }
  }

  lemma ReadNothing(r: Reading)
    requires Valid(r)
    ensures ReadFrom(r, []) == Some(r)
  {
  }

  /** An exception is raised exactly when some line offends; without one, every line is where it belongs. */
  lemma ParsedLineByLine(lines: seq<string>)
    ensures Parse(lines).None? <==> exists i :: 0 <= i < |lines| && Offends(Classes(lines), i)
    ensures Parse(lines).Some? ==> IsRead(Classes(lines), |lines|, Parse(lines).value)
  {
    hide ReadFrom, IsRead, Offends;
    ReadSoFar(lines, |lines|);
    assert lines[..|lines|] == lines;
  }

  lemma ReadFirst(r: Reading, line: string, more: seq<string>, n: Reading)
    requires Valid(r) && Take(r, Classify(line)) == Some(n)
    ensures ReadFrom(r, [line] + more) == ReadFrom(n, more)
  {
    hide Take, Classify;
    assert ([line] + more)[1..] == more;
  }

  lemma ExampleClasses()
    ensures Classify("--- a\n") == FileHeader("a") && Classify("+++ b\n") == DstHeader("b")
    ensures Classify("@@ -1,1 +2,1 @@\n") == ChunkHeader(1, 2) && Classify("--- c\n") == FileHeader("c")
    ensures Classify("-x\n") == Content(Line(SRC, "x")) && Classify("+y\n") == Content(Line(DST, "y"))
  {
    hide Classify;
    FileHeaderIsRead("a");
    DstHeaderIsRead("b");
    FileHeaderIsRead("c");
    ChunkHeaderIsRead(1, 1, 2, 1);
    ContentIsRead(Line(SRC, "x"));
    ContentIsRead(Line(DST, "y"));
    assert "--- " + "a" + "\n" == "--- a\n" && "+++ " + "b" + "\n" == "+++ b\n" && "--- " + "c" + "\n" == "--- c\n";
    assert HeaderText(1, 1, 2, 1) + "\n" == "@@ -1,1 +2,1 @@\n";
    assert PrintedLine(Line(SRC, "x")) + "\n" == "-x\n" && PrintedLine(Line(DST, "y")) + "\n" == "+y\n";
  }

  /** A line of content after a file header still goes to the chunk before that header. */
  lemma ContentAfterFileHeader()
    ensures Parse(["--- a\n", "+++ b\n", "@@ -1,1 +2,1 @@\n", "-x\n", "--- c\n", "+y\n"])
         == Some([Patch("a", "b", [Chunk(1, 2, [Line(SRC, "x"), Line(DST, "y")])]), Patch("c", "", [])])
  {
    hide Classify, ReadFrom;
    ExampleClasses();
    var (x, y) := (Line(SRC, "x"), Line(DST, "y"));
    var (c0, c1, c2) := (Chunk(1, 2, []), Chunk(1, 2, [x]), Chunk(1, 2, [x, y]));
    var (p0, p1, p2) := (Patch("a", "", []), Patch("a", "b", []), Patch("a", "b", [c0]));
    var (p3, p4, q) := (Patch("a", "b", [c1]), Patch("a", "b", [c2]), Patch("c", "", []));
    assert [] + [x] == [x] && [x] + [y] == [x, y];
    assert [] + [c0] == [c0] && [c0][0 := c1] == [c1] && [c1][0 := c2] == [c2];
    assert [] + [p0] == [p0] && [p0][0 := p1] == [p1] && [p1][0 := p2] == [p2] && [p2][0 := p3] == [p3];
    assert [p3] + [q] == [p3, q] && [p3, q][0 := p4] == [p4, q];
    var r1, r2, r3 := Reading([p0], None), Reading([p1], None), Reading([p2], Some((0, 0)));
    var r4, r5, r6 := Reading([p3], Some((0, 0))), Reading([p3, q], Some((0, 0))), Reading([p4, q], Some((0, 0)));
    var l5 := ["+y\n"] + [];
    var l4 := ["--- c\n"] + l5;
    var l3 := ["-x\n"] + l4;
    var l2 := ["@@ -1,1 +2,1 @@\n"] + l3;
    var l1 := ["+++ b\n"] + l2;
    ReadFirst(Reading([], None), "--- a\n", l1, r1);
    ReadFirst(r1, "+++ b\n", l2, r2);
    ReadFirst(r2, "@@ -1,1 +2,1 @@\n", l3, r3);
    ReadFirst(r3, "-x\n", l4, r4);
    ReadFirst(r4, "--- c\n", l5, r5);
    ReadFirst(r5, "+y\n", [], r6);
    ReadNothing(r6);
    assert ["--- a\n"] + l1 == ["--- a\n", "+++ b\n", "@@ -1,1 +2,1 @@\n", "-x\n", "--- c\n", "+y\n"];
  }
}
