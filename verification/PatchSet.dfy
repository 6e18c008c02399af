/** The patch objects of utils/check-style.py: what they hold is a value of PatchText, what they write is its text,
    and the parser builds them. */
module PatchSet {
  import opened Basics
  import opened PatchText
  import opened PatchPrinted
  import PatchReading

  class OutputFile {
    var text: string

    constructor ()
      ensures text == ""
    {
      text := "";
    }

    method Write(s: string)
      modifies this
      ensures text == old(text) + s
    {
      text := text + s;
    }
  }

  class PatchChunk {
    const srcPos: int
    const dstPos: int
    var lines: seq<Line>

    constructor (srcPos: int, dstPos: int)
      ensures Value() == Chunk(srcPos, dstPos, [])
    {
      this.srcPos, this.dstPos, lines := srcPos, dstPos, [];
    }

    function Value(): Chunk
      reads this
    {
      Chunk(srcPos, dstPos, lines)
    }

    method AddLine(line: Line)
      modifies this
      ensures Value() == old(Value()).(lines := old(lines) + [line])
    {
      lines := lines + [line];
    }

    /** src() and dst(): the lines of one side, in order. */
    method Side(dropped: LineKind) returns (side: seq<Line>)
      ensures side == SideOf(lines, dropped) && IsSide(lines, dropped, side)
    {
      hide IsSide;
      SideExactly(lines, dropped);
      side := [];
      for i := 0 to |lines|
        invariant side == SideOf(lines[..i], dropped)
      {
        assert lines[..i+1][..i] == lines[..i];
        if lines[i].kind != dropped {
          side := side + [lines[i]];
        }
      }
      assert lines[..|lines|] == lines;
    }

    method Write(f: OutputFile)
      modifies f
      ensures f.text == old(f.text) + Written(ChunkLines(Value())) && PrintsChunk(Value(), ChunkLines(Value()))
    {
      hide HeaderText, Written, PrintedLine, PrintsChunk, IsSide;
      ChunkIsPrinted(Value());
      var src := Side(DST);
      var dst := Side(SRC);
      SideLengths(lines);
      var header := HeaderText(srcPos, |src|, dstPos, |dst|);
      f.Write(header + "\n");
      NothingWritten();
      WrittenMore([], header);
      ghost var printed := ChunkLines(Value());
      assert printed[..1] == [] + [header];
      for i := 0 to |lines|
        invariant f.text == old(f.text) + Written(printed[..i+1])
      {
        f.Write(PrintedLine(lines[i]) + "\n");
        WrittenMore(printed[..i+1], printed[i+1]);
        assert printed[..i+2] == printed[..i+1] + [printed[i+1]];
      }
      assert printed[..|lines|+1] == printed;
    }
  }

  lemma NothingWritten()
    ensures Written([]) == "" && Written(ChunksLines([])) == ""
  {
  }

  lemma {:induction false} WrittenMore(lines: seq<string>, line: string)
    ensures Written(lines + [line]) == Written(lines) + (line + "\n")
  {
    if lines == [] {
      assert [] + [line] == [line] && [line][1..] == [];
    } else {
      assert (lines + [line])[1..] == lines[1..] + [line];
      WrittenMore(lines[1..], line);
    }
  }

  lemma {:induction false} WrittenBoth(some: seq<string>, more: seq<string>)
    ensures Written(some + more) == Written(some) + Written(more)
  {
    if some == [] {
      assert some + more == more;
    } else {
      assert (some + more)[1..] == some[1..] + more;
      WrittenBoth(some[1..], more);
    }
  }

  function ChunkValues(chunks: seq<PatchChunk>): (r: seq<Chunk>)
    reads chunks
    ensures |r| == |chunks| && forall i :: 0 <= i < |r| ==> r[i] == chunks[i].Value()
  {
    if chunks == [] then [] else ChunkValues(chunks[..|chunks|-1]) + [chunks[|chunks|-1].Value()]
  }

  class PatchObject {
    var src: string
    var dst: string
    var chunks: seq<PatchChunk>

    constructor ()
      ensures src == "" && dst == "" && chunks == []
    {
      src, dst, chunks := "", "", [];
    }

    function Value(): Patch
      reads this, chunks
    {
      Patch(src, dst, ChunkValues(chunks))
    }

    ghost predicate ChunksAtHome(i: nat, home: map<PatchChunk, (nat, nat)>)
      reads this
    {
      forall k :: 0 <= k < |chunks| ==> chunks[k] in home && home[chunks[k]] == (i, k)
    }

    ghost predicate Shown(p: Patch)
      reads this, set c | c in chunks
    {
      && src == p.src && dst == p.dst && |chunks| == |p.chunks|
      && forall k :: 0 <= k < |chunks| ==> chunks[k].Value() == p.chunks[k]
    }

    method AddChunk(chunk: PatchChunk)
      modifies this
      ensures chunks == old(chunks) + [chunk] && src == old(src) && dst == old(dst)
    {
      chunks := chunks + [chunk];
    }

    method SetSrc(src: string)
      modifies this
      ensures this.src == src && dst == old(dst) && chunks == old(chunks)
    {
      this.src := src;
    }

    method SetDst(dst: string)
      modifies this
      ensures this.dst == dst && src == old(src) && chunks == old(chunks)
    {
      this.dst := dst;
    }

    method WriteChunks(f: OutputFile)
      modifies f
      ensures f.text == old(f.text) + Written(ChunksLines(ChunkValues(chunks)))
    {
      hide ChunkLines, ChunksLines, Written, ChunkValues;
      ghost var values, start := ChunkValues(chunks), f.text;
      NothingWritten();
      for i := 0 to |chunks|
        invariant f.text == start + Written(ChunksLines(values[..i]))
      {
        chunks[i].Write(f);
        ChunksMore(values[..i], values[i]);
        assert values[..i+1] == values[..i] + [values[i]];
        WrittenBoth(ChunksLines(values[..i]), ChunkLines(values[i]));
      }
      assert values[..|chunks|] == values;
    }

    method Write(f: OutputFile)
      modifies f
      ensures f.text == old(f.text) + Written(PatchLines(Value()))
      ensures f.text == old(f.text) + (("--- " + src + "\n") + ("+++ " + dst + "\n"))
                        + Written(ChunksLines(ChunkValues(chunks)))
    {
      hide ChunksLines, Written, ChunkValues;
      f.Write("--- " + src + "\n");
      f.Write("+++ " + dst + "\n");
      ghost var headers := ("--- " + src + "\n") + ("+++ " + dst + "\n");
      assert f.text == old(f.text) + headers;
      HeadersWritten(src, dst);
      WriteChunks(f);
      WrittenBoth(["--- " + src, "+++ " + dst], ChunksLines(ChunkValues(chunks)));
    }
  }

  lemma HeadersWritten(src: string, dst: string)
    ensures Written(["--- " + src, "+++ " + dst]) == ("--- " + src + "\n") + ("+++ " + dst + "\n")
  {
    WrittenMore([], "--- " + src);
    WrittenMore(["--- " + src], "+++ " + dst);
    assert [] + ["--- " + src] == ["--- " + src];
  }

  lemma {:induction false} ChunksMore(chunks: seq<Chunk>, c: Chunk)
    ensures ChunksLines(chunks + [c]) == ChunksLines(chunks) + ChunkLines(c)
  {
    hide ChunkLines;
    if chunks == [] {
      assert [] + [c] == [c] && [c][1..] == [];
    } else {
      assert (chunks + [c])[1..] == chunks[1..] + [c];
      ChunksMore(chunks[1..], c);
    }
  }

  // ----- the parser -----

  /** The places of the objects built so far: no two places share an object. */
  ghost predicate Placed(patchset: seq<PatchObject>, place: map<PatchObject, nat>, home: map<PatchChunk, (nat, nat)>)
    reads patchset
  {
    && (forall i :: 0 <= i < |patchset| ==> patchset[i] in place && place[patchset[i]] == i)
    && (forall i :: 0 <= i < |patchset| ==> patchset[i].ChunksAtHome(i, home))
  }

  /** The objects hold what the reading says. */
  ghost predicate Shows(patchset: seq<PatchObject>, ps: seq<Patch>)
    reads patchset, set p, c | p in patchset && c in p.chunks :: c
  {
    && |patchset| == |ps|
    && (forall i :: 0 <= i < |patchset| ==> patchset[i] in patchset && patchset[i].Shown(ps[i]))
  }

  /** The two variables of the parser point to the last patch and to the current chunk. */
  ghost predicate Pointed(patchset: seq<PatchObject>, current: PatchObject?, chunk: PatchChunk?, r: Reading)
    reads patchset
  {
    && (current == null <==> patchset == [])
    && (current != null ==> current == patchset[|patchset|-1])
    && (chunk == null <==> r.chunkAt.None?)
    && (r.chunkAt.Some? ==>
          var (i, k) := r.chunkAt.value;
          i < |patchset| && k < |patchset[i].chunks| && patchset[i].chunks[k] == chunk)
  }

  ghost predicate Holds(patchset: seq<PatchObject>, current: PatchObject?, chunk: PatchChunk?,
                        place: map<PatchObject, nat>, home: map<PatchChunk, (nat, nat)>, r: Reading)
    reads patchset, set p, c | p in patchset && c in p.chunks :: c
  {
    Valid(r) && Placed(patchset, place, home) && Shows(patchset, r.patches) && Pointed(patchset, current, chunk, r)
  }

  method StartPatch(patchset: seq<PatchObject>, ghost current: PatchObject?, ghost chunk: PatchChunk?,
                    ghost place: map<PatchObject, nat>, ghost home: map<PatchChunk, (nat, nat)>, ghost r: Reading,
                    src: string)
      returns (patch: PatchObject, ghost places: map<PatchObject, nat>)
    requires Holds(patchset, current, chunk, place, home, r)
    ensures fresh(patch) && patch.chunks == []
    ensures Holds(patchset + [patch], patch, chunk, places, home, r.(patches := r.patches + [Patch(src, "", [])]))
  {
    patch := new PatchObject();
    patch.SetSrc(src);
    places := place[patch := |patchset|];
  }

  method NameDst(ghost patchset: seq<PatchObject>, current: PatchObject, ghost chunk: PatchChunk?,
                 ghost place: map<PatchObject, nat>, ghost home: map<PatchChunk, (nat, nat)>, ghost r: Reading,
                 dst: string)
    requires Holds(patchset, current, chunk, place, home, r) && patchset != []
    modifies current
    ensures current.chunks == old(current.chunks)
    ensures var last := |r.patches| - 1;
      Holds(patchset, current, chunk, place, home, r.(patches := r.patches[last := r.patches[last].(dst := dst)]))
  {
    current.SetDst(dst);
  }

  method StartChunk(ghost patchset: seq<PatchObject>, current: PatchObject, ghost chunk: PatchChunk?,
                    ghost place: map<PatchObject, nat>, ghost home: map<PatchChunk, (nat, nat)>, ghost r: Reading,
                    srcPos: int, dstPos: int)
      returns (started: PatchChunk, ghost homes: map<PatchChunk, (nat, nat)>)
    requires Holds(patchset, current, chunk, place, home, r) && patchset != []
    modifies current
    ensures fresh(started) && current.chunks == old(current.chunks) + [started]
    ensures Holds(patchset, current, started, place, homes, AddChunk(r, Chunk(srcPos, dstPos, [])))
  {
    ghost var last := |patchset| - 1;
    started := new PatchChunk(srcPos, dstPos);
    assert started !in home;
    homes := home[started := (last, |current.chunks|)];
    current.AddChunk(started);
    forall i | 0 <= i < last ensures patchset[i] != current {
      assert place[patchset[i]] == i;
    }
    assert forall i :: 0 <= i < last ==> patchset[i].ChunksAtHome(i, homes) by {
      hide Shows, Pointed, Valid;
      forall i | 0 <= i < last ensures patchset[i].ChunksAtHome(i, homes) {
        assert patchset[i].ChunksAtHome(i, home);
      }
    }
    ghost var n := AddChunk(r, Chunk(srcPos, dstPos, []));
    assert forall i :: 0 <= i < last ==> patchset[i].Shown(n.patches[i]) by {
      hide Placed, Pointed, Valid;
      forall i | 0 <= i < last ensures patchset[i].Shown(n.patches[i]) {
        assert n.patches[i] == r.patches[i];
      }
    }
    assert patchset[last].ChunksAtHome(last, homes) by {
      hide Shows, Pointed, Valid, PatchObject.Shown, PatchObject.Value;
    }
    assert patchset[last].Shown(n.patches[last]) by {
      hide Placed, Pointed, PatchObject.ChunksAtHome;
    }
    hide PatchObject.Shown, PatchObject.ChunksAtHome;
    forall i | 0 <= i < |patchset| ensures patchset[i].ChunksAtHome(i, homes) && patchset[i].Shown(n.patches[i]) {
    }
  }

  method AddContent(ghost patchset: seq<PatchObject>, ghost current: PatchObject?, chunk: PatchChunk,
                    ghost place: map<PatchObject, nat>, ghost home: map<PatchChunk, (nat, nat)>, ghost r: Reading,
                    line: Line)
    requires Holds(patchset, current, chunk, place, home, r)
    modifies chunk
    ensures var (i, k) := r.chunkAt.value;
      var p := r.patches[i];
      var c := p.chunks[k];
      Holds(patchset, current, chunk, place, home,
            r.(patches := r.patches[i := p.(chunks := p.chunks[k := c.(lines := c.lines + [line])])]))
  {
    chunk.AddLine(line);
  }

  method ParsePatchset(lines: seq<string>) returns (raised: bool, patchset: seq<PatchObject>)
    ensures raised <==> Parse(lines).None?
    ensures raised <==> exists i :: 0 <= i < |lines| && PatchReading.Offends(PatchReading.Classes(lines), i)
    ensures !raised ==> |patchset| == |Parse(lines).value|
    ensures !raised ==> forall i :: 0 <= i < |patchset| ==>
      fresh(patchset[i]) && patchset[i].Value() == Parse(lines).value[i]
    ensures !raised ==> PatchReading.IsRead(PatchReading.Classes(lines), |lines|, Parse(lines).value)
  {
    hide Classify, ReadFrom, Holds, PatchReading.IsRead, PatchReading.Offends;
    PatchReading.ParsedLineByLine(lines);
    var current: PatchObject?, chunk: PatchChunk? := null, null;
    ghost var r := Reading([], None);
    ghost var place: map<PatchObject, nat>, home: map<PatchChunk, (nat, nat)> := map[], map[];
    patchset := [];
    HoldsAtFirst(place, home);
    assert lines[0..] == lines;
    for n := 0 to |lines|
      invariant Valid(r) && ReadFrom(Reading([], None), lines) == ReadFrom(r, lines[n..])
      invariant (current == null || fresh(current)) && (chunk == null || fresh(chunk))
      invariant forall i :: 0 <= i < |patchset| ==> fresh(patchset[i])
      invariant Holds(patchset, current, chunk, place, home, r)
    {
      ReadNext(r, lines, n);
      match Classify(lines[n]) {
        case FileHeader(src) =>
          current, place := StartPatch(patchset, current, chunk, place, home, r, src);
          patchset := patchset + [current];
        case DstHeader(dst) =>
          PointersOf(patchset, current, chunk, place, home, r);
          if current == null {
            return true, [];
          }
          NameDst(patchset, current, chunk, place, home, r, dst);
        case ChunkHeader(srcPos, dstPos) =>
          PointersOf(patchset, current, chunk, place, home, r);
          if current == null {
            return true, [];
          }
          chunk, home := StartChunk(patchset, current, chunk, place, home, r, srcPos, dstPos);
        case Content(line) =>
          PointersOf(patchset, current, chunk, place, home, r);
          if chunk == null {
            return true, [];
          }
          AddContent(patchset, current, chunk, place, home, r, line);
        case Unrecognised =>
          return true, [];
      }
      r := Step(r, lines[n]).value;
    }
    assert lines[|lines|..] == [];
    ReadAll(r);
    ValuesOf(patchset, current, chunk, place, home, r);
    raised := false;
  }

  lemma HoldsAtFirst(place: map<PatchObject, nat>, home: map<PatchChunk, (nat, nat)>)
    ensures Holds([], null, null, place, home, Reading([], None))
  {
  }

  lemma PointersOf(patchset: seq<PatchObject>, current: PatchObject?, chunk: PatchChunk?,
                   place: map<PatchObject, nat>, home: map<PatchChunk, (nat, nat)>, r: Reading)
    requires Holds(patchset, current, chunk, place, home, r)
    ensures current == null <==> patchset == []
    ensures |patchset| == |r.patches| && (chunk == null <==> r.chunkAt.None?)
  {
  }

  lemma ValuesOf(patchset: seq<PatchObject>, current: PatchObject?, chunk: PatchChunk?,
                 place: map<PatchObject, nat>, home: map<PatchChunk, (nat, nat)>, r: Reading)
    requires Holds(patchset, current, chunk, place, home, r)
    ensures |patchset| == |r.patches|
    ensures forall i :: 0 <= i < |patchset| ==> patchset[i].Value() == r.patches[i]
  {
  }

  lemma ReadNext(r: Reading, lines: seq<string>, n: nat)
    requires Valid(r) && n < |lines|
    ensures ReadFrom(r, lines[n..])
         == if Step(r, lines[n]).None? then None else ReadFrom(Step(r, lines[n]).value, lines[n+1..])
  {
  }

  lemma ReadAll(r: Reading)
    requires Valid(r)
    ensures ReadFrom(r, []) == Some(r)
  {
  }
}
