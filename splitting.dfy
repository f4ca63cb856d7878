/**
 * Fixed-size overlapping character chunking (DocSplitterAgent of agents/Splitting.py).
 *
 * The splitter cuts a text into windows of `chunkSize` characters whose starts are
 * `chunkSize - chunkOverlap` apart. The loop of `SplitText` is proved equal to the
 * specification function `Split`, and the lemmas below characterise `Split`: the
 * number of chunks, the start positions, the slice each chunk is, the overlap of
 * neighbours and the reconstruction of the text from its chunks.
 */
module Splitting {

  const DefaultChunkSize: int := 500
  const DefaultChunkOverlap: int := 50

  function Min(a: int, b: int): int { if a <= b then a else b }
  function Max(a: int, b: int): int { if a >= b then a else b }

  /** A Python slice bound: a negative index counts back from the end, then it is clamped to `0..n`. */
  function Clamp(i: int, n: nat): nat
  {
    if i < 0 then Max(i + n, 0) else Min(i, n)
  }

  /** Python's `s[start:end]`. */
  function Slice(s: string, start: int, end: int): string
  {
    var b, e := Clamp(start, |s|), Clamp(end, |s|);
    if b >= e then [] else s[b..e]
  }

  /** The distance between the starts of two neighbouring chunks. */
  function Step(chunkSize: int, chunkOverlap: int): int { chunkSize - chunkOverlap }

  /** The value of the loop index after `i` iterations: `i * step` (see `ChunkStartIsProduct`). */
  function ChunkStart(i: nat, step: int): int
  {
    if i == 0 then 0 else ChunkStart(i - 1, step) + step
  }

  /** The chunks the loop of `split_text` appends once its index has reached `start`. */
  function ChunksFrom(text: string, chunkSize: int, step: int, start: nat): seq<string>
    requires step > 0 || start >= |text|
    decreases |text| - start
  {
    if start >= |text| then []
    else [Slice(text, start, start + chunkSize)] + ChunksFrom(text, chunkSize, step, start + step)
  }

  /**
   * The chunks of `text`. The loop only terminates on a non-empty text when the
   * step is positive (see `LoopNeverExits`), hence the precondition.
   */
  function Split(text: string, chunkSize: int, chunkOverlap: int): seq<string>
    requires Step(chunkSize, chunkOverlap) > 0 || |text| == 0
  {
    ChunksFrom(text, chunkSize, Step(chunkSize, chunkOverlap), 0)
  }

  /** `ceil(a / b)` for a non-negative `a` and a positive `b`. */
  function CeilDiv(a: nat, b: int): int
    requires b > 0
  {
    (a + b - 1) / b
  }

  /** Python's `c[:n]` for a non-negative `n`. */
  function Take(c: string, n: nat): (r: string)
    ensures |r| == Min(n, |c|) && r <= c
  {
    c[..Min(n, |c|)]
  }

  /**
   * Rebuilds a text from its chunks: the first `step` characters of every chunk
   * but the last, followed by the whole last chunk.
   */
  function Reassemble(chunks: seq<string>, step: nat): string
  {
    if |chunks| == 0 then []
    else if |chunks| == 1 then chunks[0]
    else Take(chunks[0], step) + Reassemble(chunks[1..], step)
  }

  // ---------------------------------------------------------------------------
  // Helpers
  // ---------------------------------------------------------------------------

  /** With non-negative bounds in order, a slice is the sub-sequence between the clamped bounds. */
  lemma SliceBetween(s: string, start: int, end: int)
    requires 0 <= start <= end && start <= |s|
    ensures Slice(s, start, end) == s[start..Min(end, |s|)]
  {
  }

  /** One step of the loop: the chunk at `start`, then the chunks from the next index. */
  lemma ChunksFromStep(text: string, chunkSize: int, step: int, start: nat)
    requires step > 0 && start < |text|
    ensures ChunksFrom(text, chunkSize, step, start)
         == [Slice(text, start, start + chunkSize)] + ChunksFrom(text, chunkSize, step, start + step)
  {
  }

  lemma {:induction false} ChunkStartMonotone(i: nat, j: nat, step: int)
    requires i <= j && step > 0
    ensures ChunkStart(i, step) <= ChunkStart(j, step)
    ensures i < j ==> ChunkStart(i, step) < ChunkStart(j, step)
    decreases j
  {
    if i < j {
      ChunkStartMonotone(i, j - 1, step);
    }
  }

  lemma MulSign(t: int, b: int)
    requires b > 0
    ensures t >= 1 ==> t * b >= b
    ensures t <= -1 ==> t * b <= -b
  {
    assert t * b == (t - 1) * b + b;
    assert t * b == (t + 1) * b - b;
  }

  lemma DivUnique(x: int, b: int, q: int)
    requires b > 0 && q * b <= x < q * b + b
    ensures x / b == q
  {
    var d := x / b;
    assert x == d * b + x % b;
    MulSign(d - q, b);
    assert (d - q) * b == d * b - q * b;
  }

  // ---------------------------------------------------------------------------
  // Properties of the specification
  // ---------------------------------------------------------------------------

  /** The index after `i` iterations is `i * step`. */
  lemma {:induction false} ChunkStartIsProduct(i: nat, step: int)
    ensures ChunkStart(i, step) == i * step
  {
    if i > 0 {
      ChunkStartIsProduct(i - 1, step);
      assert i * step == (i - 1) * step + step;
    }
  }

  /** The defaults 500/50 give the positive step 450, so a default splitter terminates. */
  lemma DefaultsTerminate()
    ensures Step(DefaultChunkSize, DefaultChunkOverlap) == 450
  {
  }

  /**
   * With a non-positive step and a non-empty text, the index after any number `k`
   * of iterations is still below the text length: the loop guard never fails.
   */
  lemma {:induction false} LoopNeverExits(text: string, chunkSize: int, chunkOverlap: int, k: nat)
    requires Step(chunkSize, chunkOverlap) <= 0 && |text| > 0
    ensures ChunkStart(k, Step(chunkSize, chunkOverlap)) <= 0 < |text|
  {
    if k > 0 {
      LoopNeverExits(text, chunkSize, chunkOverlap, k - 1);
    }
  }

  /** An empty text has no chunks, whatever the size and the overlap. */
  lemma EmptyTextNoChunks(chunkSize: int, chunkOverlap: int)
    ensures Split([], chunkSize, chunkOverlap) == []
  {
  }

  lemma {:induction false} ChunksFromCount(text: string, chunkSize: int, step: int, start: nat)
    requires step > 0
    ensures var n := |ChunksFrom(text, chunkSize, step, start)|;
      if start >= |text| then n == 0
      else n > 0 && start + ChunkStart(n - 1, step) < |text| <= start + ChunkStart(n, step)
    decreases |text| - start
  {
    if start < |text| {
      ChunksFromStep(text, chunkSize, step, start);
      ChunksFromCount(text, chunkSize, step, start + step);
      var m := |ChunksFrom(text, chunkSize, step, start + step)|;
      assert ChunkStart(m + 1, step) == ChunkStart(m, step) + step;
    }
  }

  /**
   * The loop runs exactly `ceil(L / step)` times: that many chunks, the last start
   * below `L` and the next one at or beyond it.
   */
  lemma ChunkCount(text: string, chunkSize: int, chunkOverlap: int)
    requires Step(chunkSize, chunkOverlap) > 0
    ensures var n, s := |Split(text, chunkSize, chunkOverlap)|, Step(chunkSize, chunkOverlap);
      n == CeilDiv(|text|, s) &&
      (|text| > 0 ==> ChunkStart(n - 1, s) < |text| <= ChunkStart(n, s))
  {
    var n, s, L := |Split(text, chunkSize, chunkOverlap)|, Step(chunkSize, chunkOverlap), |text|;
    ChunksFromCount(text, chunkSize, s, 0);
    if L == 0 {
      DivUnique(L + s - 1, s, 0);
    } else {
      ChunkStartIsProduct(n - 1, s);
      ChunkStartIsProduct(n, s);
      DivUnique(L + s - 1, s, n);
    }
  }

  /** Index `i` is a chunk index exactly when its start lies below the text length. */
  lemma StartPositions(text: string, chunkSize: int, chunkOverlap: int, i: nat)
    requires Step(chunkSize, chunkOverlap) > 0
    ensures i < |Split(text, chunkSize, chunkOverlap)| <==> ChunkStart(i, Step(chunkSize, chunkOverlap)) < |text|
  {
    var n, s := |Split(text, chunkSize, chunkOverlap)|, Step(chunkSize, chunkOverlap);
    ChunksFromCount(text, chunkSize, s, 0);
    if i < n {
      ChunkStartMonotone(i, n - 1, s);
    } else if |text| > 0 {
      ChunkStartMonotone(n, i, s);
    }
  }

  /** Chunk `i` of the chunks from `start` is the window at `a`, which is `start + ChunkStart(i, step)`. */
  lemma {:induction false} ChunksFromAt(text: string, chunkSize: int, step: int, start: nat, i: nat, a: int)
    requires step > 0 && i < |ChunksFrom(text, chunkSize, step, start)|
    requires a == start + ChunkStart(i, step)
    ensures a < |text|
    ensures ChunksFrom(text, chunkSize, step, start)[i] == Slice(text, a, a + chunkSize)
    decreases i
  {
    ChunksFromStep(text, chunkSize, step, start);
    if i > 0 {
      var rest := ChunksFrom(text, chunkSize, step, start + step);
      ChunksFromAt(text, chunkSize, step, start + step, i - 1, a);
      assert ChunksFrom(text, chunkSize, step, start)[i] == rest[i - 1];
    }
  }

  /**
   * Chunk `i` is the Python slice `text[start : start + chunkSize]` at its start
   * `ChunkStart(i, step)`; for a positive chunk size that is
   * `text[start .. min(start + chunkSize, L)]`, non-empty and at most `chunkSize` long.
   */
  lemma ChunkAt(text: string, chunkSize: int, chunkOverlap: int, i: nat)
    requires Step(chunkSize, chunkOverlap) > 0 && i < |Split(text, chunkSize, chunkOverlap)|
    ensures var a := ChunkStart(i, Step(chunkSize, chunkOverlap));
      0 <= a < |text| && Split(text, chunkSize, chunkOverlap)[i] == Slice(text, a, a + chunkSize)
    ensures var a, c := ChunkStart(i, Step(chunkSize, chunkOverlap)), Split(text, chunkSize, chunkOverlap)[i];
      chunkSize > 0 ==> c == text[a..Min(a + chunkSize, |text|)] && 0 < |c| <= chunkSize
  {
    var s := Step(chunkSize, chunkOverlap);
    ChunksFromAt(text, chunkSize, s, 0, i, ChunkStart(i, s));
    ChunkStartMonotone(0, i, s);
    if chunkSize > 0 {
      SliceBetween(text, ChunkStart(i, s), ChunkStart(i, s) + chunkSize);
    }
  }

  /**
   * Dropping the first `step` characters of a chunk leaves a prefix of the next
   * chunk; a full-length chunk shares exactly `chunkOverlap` characters with it.
   */
  lemma NeighbourOverlap(text: string, chunkSize: int, chunkOverlap: int, i: nat)
    requires 0 <= chunkOverlap < chunkSize
    requires i + 1 < |Split(text, chunkSize, chunkOverlap)|
    ensures var s, chunks := Step(chunkSize, chunkOverlap), Split(text, chunkSize, chunkOverlap);
      s <= |chunks[i]| && chunks[i][s..] <= chunks[i + 1]
    ensures var s, chunks := Step(chunkSize, chunkOverlap), Split(text, chunkSize, chunkOverlap);
      |chunks[i]| == chunkSize ==> chunks[i][s..] == chunks[i + 1][..chunkOverlap]
  {
    var s, chunks, L := Step(chunkSize, chunkOverlap), Split(text, chunkSize, chunkOverlap), |text|;
    ChunkAt(text, chunkSize, chunkOverlap, i);
    ChunkAt(text, chunkSize, chunkOverlap, i + 1);
    var a := ChunkStart(i, s);
    assert ChunkStart(i + 1, s) == a + s;
    var e1, e2 := Min(a + chunkSize, L), Min(a + s + chunkSize, L);
    assert chunks[i] == text[a..e1] && chunks[i + 1] == text[a + s..e2];
    assert chunks[i][s..] == text[a + s..e1];
  }

  /**
   * A chunk starting at `start` and reaching at least `step` characters further,
   * followed by chunks that reassemble to the text from `start + step`,
   * reassembles to the text from `start`.
   */
  lemma ReassembleCons(text: string, head: string, rest: seq<string>, start: nat, e: nat, step: nat)
    requires start + step <= e <= |text| && start + step < |text| && head == text[start..e]
    requires Reassemble(rest, step) == text[start + step..]
    ensures Reassemble([head] + rest, step) == text[start..]
  {
    assert |rest| > 0;
    assert ([head] + rest)[1..] == rest;
    assert Take(head, step) == text[start..start + step];
    assert text[start..] == text[start..start + step] + text[start + step..];
  }

  /** The chunk at the last start reaches the end of the text and reassembles to the rest of it. */
  lemma ReassembleLast(text: string, chunkSize: int, chunkOverlap: int, start: nat)
    requires 0 <= chunkOverlap < chunkSize && start < |text| <= start + Step(chunkSize, chunkOverlap)
    ensures Reassemble(ChunksFrom(text, chunkSize, Step(chunkSize, chunkOverlap), start), Step(chunkSize, chunkOverlap))
         == text[start..]
  {
    var s := Step(chunkSize, chunkOverlap);
    ChunksFromStep(text, chunkSize, s, start);
    SliceBetween(text, start, start + chunkSize);
    assert ChunksFrom(text, chunkSize, s, start + s) == [];
    assert Min(start + chunkSize, |text|) == |text|;
  }

  /** For a positive size, the chunk at `start` is the plain sub-sequence up to the clamped end. */
  lemma ChunksFromHead(text: string, chunkSize: int, step: int, start: nat)
    requires chunkSize > 0 && step > 0 && start < |text|
    ensures ChunksFrom(text, chunkSize, step, start)
         == [text[start..Min(start + chunkSize, |text|)]] + ChunksFrom(text, chunkSize, step, start + step)
  {
    ChunksFromStep(text, chunkSize, step, start);
    SliceBetween(text, start, start + chunkSize);
  }

  /** One step of the reconstruction: from the text after the next start to the text after this one. */
  lemma ReassembleStep(text: string, chunkSize: int, chunkOverlap: int, start: nat)
    requires 0 <= chunkOverlap < chunkSize && start + Step(chunkSize, chunkOverlap) < |text|
    requires Reassemble(ChunksFrom(text, chunkSize, Step(chunkSize, chunkOverlap), start + Step(chunkSize, chunkOverlap)),
                        Step(chunkSize, chunkOverlap))
          == text[start + Step(chunkSize, chunkOverlap)..]
    ensures Reassemble(ChunksFrom(text, chunkSize, Step(chunkSize, chunkOverlap), start), Step(chunkSize, chunkOverlap))
         == text[start..]
  {
    var s, L := Step(chunkSize, chunkOverlap), |text|;
    var e := Min(start + chunkSize, L);
    var rest := ChunksFrom(text, chunkSize, s, start + s);
    ChunksFromHead(text, chunkSize, s, start);
    ReassembleCons(text, text[start..e], rest, start, e, s);
  }

  lemma {:induction false} ReassembleFrom(text: string, chunkSize: int, chunkOverlap: int, start: nat)
    requires 0 <= chunkOverlap < chunkSize && start <= |text|
    ensures Reassemble(ChunksFrom(text, chunkSize, Step(chunkSize, chunkOverlap), start), Step(chunkSize, chunkOverlap))
         == text[start..]
    decreases |text| - start
  {
    var s := Step(chunkSize, chunkOverlap);
    if start == |text| {
      assert ChunksFrom(text, chunkSize, s, start) == [];
      assert text[start..] == [];
    } else {
      if start + s >= |text| {
        ReassembleLast(text, chunkSize, chunkOverlap, start);
      } else {
        ReassembleFrom(text, chunkSize, chunkOverlap, start + s);
        ReassembleStep(text, chunkSize, chunkOverlap, start);
      }
    }
  }

  /** The round trip: reassembling the chunks gives back the text. */
  lemma RoundTrip(text: string, chunkSize: int, chunkOverlap: int)
    requires 0 <= chunkOverlap < chunkSize
    ensures Reassemble(Split(text, chunkSize, chunkOverlap), Step(chunkSize, chunkOverlap)) == text
  {
    ReassembleFrom(text, chunkSize, chunkOverlap, 0);
  }

  /** The last chunk of a non-empty text ends exactly at the end of the text. */
  lemma LastChunkEnd(text: string, chunkSize: int, chunkOverlap: int)
    requires 0 <= chunkOverlap < chunkSize && |text| > 0
    ensures var chunks, s := Split(text, chunkSize, chunkOverlap), Step(chunkSize, chunkOverlap);
      |chunks| > 0 && ChunkStart(|chunks| - 1, s) + |chunks[|chunks| - 1]| == |text|
  {
    var chunks, s := Split(text, chunkSize, chunkOverlap), Step(chunkSize, chunkOverlap);
    ChunksFromCount(text, chunkSize, s, 0);
    ChunkAt(text, chunkSize, chunkOverlap, |chunks| - 1);
    assert ChunkStart(|chunks|, s) == ChunkStart(|chunks| - 1, s) + s;
  }

  /**
   * When the chunk before the last already reaches the end of the text, the last
   * chunk lies wholly inside it: it is that chunk without its first `step` characters.
   */
  lemma LastChunkInsidePrevious(text: string, chunkSize: int, chunkOverlap: int)
    requires 0 <= chunkOverlap < chunkSize
    requires var n := |Split(text, chunkSize, chunkOverlap)|;
      n >= 2 && |text| <= ChunkStart(n - 2, Step(chunkSize, chunkOverlap)) + chunkSize
    ensures var chunks, s := Split(text, chunkSize, chunkOverlap), Step(chunkSize, chunkOverlap);
      s <= |chunks[|chunks| - 2]| && chunks[|chunks| - 1] == chunks[|chunks| - 2][s..]
  {
    var chunks, s, L := Split(text, chunkSize, chunkOverlap), Step(chunkSize, chunkOverlap), |text|;
    var n := |chunks|;
    ChunkAt(text, chunkSize, chunkOverlap, n - 2);
    ChunkAt(text, chunkSize, chunkOverlap, n - 1);
    var a := ChunkStart(n - 2, s);
    assert ChunkStart(n - 1, s) == a + s;
    assert chunks[n - 2] == text[a..L];
    assert chunks[n - 1] == text[a + s..L];
  }

  /**
   * A 460-character text with the default size and overlap gives two chunks: the
   * whole text, and its last ten characters, which already end the first chunk.
   */
  lemma DefaultsOnShortText(text: string)
    requires |text| == 460
    ensures var chunks := Split(text, DefaultChunkSize, DefaultChunkOverlap);
      |chunks| == 2 && chunks[0] == text && chunks[1] == text[450..] && chunks[1] == chunks[0][450..]
  {
    ChunkCount(text, DefaultChunkSize, DefaultChunkOverlap);
    assert CeilDiv(460, 450) == 2;
    ChunkAt(text, DefaultChunkSize, DefaultChunkOverlap, 0);
    ChunkAt(text, DefaultChunkSize, DefaultChunkOverlap, 1);
    assert ChunkStart(1, 450) == 450;
  }

  // ---------------------------------------------------------------------------
  // The splitter object
  // ---------------------------------------------------------------------------

  class DocSplitterAgent {
    var chunkSize: int
    var chunkOverlap: int

    /** Stores the window size and the overlap; 500 and 50 unless given. */
    constructor (chunkSize: int := DefaultChunkSize, chunkOverlap: int := DefaultChunkOverlap)
      ensures this.chunkSize == chunkSize && this.chunkOverlap == chunkOverlap
    {
      this.chunkSize := chunkSize;
      this.chunkOverlap := chunkOverlap;
    }

    /** Slides the window over `text`, appending one chunk per step. */
    method SplitText(text: string) returns (chunks: seq<string>)
      requires Step(chunkSize, chunkOverlap) > 0 || |text| == 0
      ensures chunks == Split(text, chunkSize, chunkOverlap)
    {
      chunks := [];
      var start: int := 0;
      ghost var step := Step(chunkSize, chunkOverlap);
      while start < |text|
        invariant 0 <= start
        invariant start == ChunkStart(|chunks|, step)
        invariant chunks + ChunksFrom(text, chunkSize, step, start) == Split(text, chunkSize, chunkOverlap)
        decreases |text| - start
      {
        var end := start + chunkSize;
        var chunk := Slice(text, start, end);
        ChunksFromStep(text, chunkSize, step, start);
        assert chunks + ChunksFrom(text, chunkSize, step, start)
            == (chunks + [chunk]) + ChunksFrom(text, chunkSize, step, start + step);
        chunks := chunks + [chunk];
        start := start + chunkSize - chunkOverlap;
      }
    }
  }
}
