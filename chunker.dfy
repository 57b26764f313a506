/** The chunker of main.py: `chunk_text(text, chunk_size, overlap)` cuts a
    document's text into overlapping fixed-width windows. A window starts every
    `chunk_size - overlap` characters, from offset 0 until the start reaches the
    end of the text, and is the Python slice `text[i:i + chunk_size]`, so the
    windows near the end are cut short by the end of the text. */
module Chunker {
  import opened Slices

  const DefaultChunkSize: int := 1000
  const DefaultOverlap: int := 200

  /** How far the loop index advances per window. */
  function Step(chunkSize: int, overlap: int): int {
    chunkSize - overlap
  }

  /** The number of windows for a text of length `n`: the ceiling of n / step. */
  function ChunkCount(n: nat, step: int): nat
    requires step > 0
  {
    (n + step - 1) / step
  }

  /** Window k: `text[start:start + chunkSize]` with start = k * step. */
  function Window(text: string, chunkSize: int, overlap: int, k: int): string
  {
    Slice(text, k * Step(chunkSize, overlap), k * Step(chunkSize, overlap) + chunkSize)
  }

  /** The windows chunk_text returns, in closed form. The empty text has
      none, whatever the sizes. */
  function Chunks(text: string, chunkSize: int, overlap: int): seq<string>
    requires overlap < chunkSize || text == []
  {
    if text == [] then []
    else seq(ChunkCount(|text|, Step(chunkSize, overlap)), k => Window(text, chunkSize, overlap, k))
  }

  /** chunk_text itself: the while loop that appends one window per step.
      On a non-empty text the loop terminates only when chunkSize > overlap;
      with a smaller or equal chunk size the index never moves forward,
      hence the precondition. The empty text returns at once. */
  method ChunkText(text: string, chunkSize: int, overlap: int) returns (chunks: seq<string>)
    requires overlap < chunkSize || text == []
    ensures chunks == Chunks(text, chunkSize, overlap)
  {
    chunks := [];
    var i := 0;
    while i < |text|
      invariant i == |chunks| * Step(chunkSize, overlap)
      invariant |chunks| == 0 || (|chunks| - 1) * Step(chunkSize, overlap) < |text|
      invariant forall k :: 0 <= k < |chunks| ==> chunks[k] == Window(text, chunkSize, overlap, k)
      decreases |text| - i
    {
      assert Slice(text, i, i + chunkSize) == Window(text, chunkSize, overlap, |chunks|);
      MulSucc(|chunks|, Step(chunkSize, overlap));
      chunks := chunks + [Slice(text, i, i + chunkSize)];
      i := i + Step(chunkSize, overlap);
    }
    if text != [] {
      ChunkCountUnique(|text|, Step(chunkSize, overlap), |chunks|);
    }
  }

  /** A count c is the chunk count exactly when c windows reach the end of
      the text and c - 1 windows do not. */
  lemma ChunkCountUnique(n: nat, step: int, c: nat)
    requires step > 0
    ensures c == ChunkCount(n, step) <==> c * step >= n && (c == 0 || (c - 1) * step < n)
  {
    var q := ChunkCount(n, step);
    var r := (n + step - 1) % step;
    assert n + step - 1 == q * step + r && 0 <= r < step;
    assert q * step >= n;
    assert q == 0 || (q - 1) * step < n by {
      if q > 0 { assert (q - 1) * step == q * step - step; }
    }
    if c * step >= n && (c == 0 || (c - 1) * step < n) {
      if q > 0 { MulCancel(q - 1, c, step); }
      if c > 0 { MulCancel(c - 1, q, step); }
    }
  }

  lemma MulSucc(a: int, s: int)
    ensures (a + 1) * s == a * s + s
  {
  }

  lemma MulCancel(a: int, b: int, s: int)
    requires s > 0 && a * s < b * s
    ensures a < b
  {
    if a >= b { MulMono(b, a, s); }
  }

  lemma MulMono(a: int, b: int, s: int)
    requires a <= b && s >= 0
    ensures a * s <= b * s
  {
    assert b * s - a * s == (b - a) * s;
  }

  lemma DivBounds(i: nat, s: int)
    requires s > 0
    ensures (i / s) * s <= i < (i / s) * s + s
  {
  }

  /** Window k starts at k * step, inside the text, and holds the text from
      there up to chunkSize characters or the end of the text, whichever
      comes first: it is never empty and never longer than chunkSize, and it
      is short exactly when it runs into the end of the text. */
  lemma WindowShape(text: string, chunkSize: int, overlap: int, k: nat)
    requires 0 < chunkSize && overlap < chunkSize
    requires k < |Chunks(text, chunkSize, overlap)|
    ensures var start := k * Step(chunkSize, overlap);
      && 0 <= start < |text|
      && Chunks(text, chunkSize, overlap)[k] == text[start..Min(start + chunkSize, |text|)]
      && |Chunks(text, chunkSize, overlap)[k]| == Min(chunkSize, |text| - start)
      && 0 < |Chunks(text, chunkSize, overlap)[k]| <= chunkSize
  {
    var c := |Chunks(text, chunkSize, overlap)|;
    ChunkCountUnique(|text|, Step(chunkSize, overlap), c);
    MulMono(k, c - 1, Step(chunkSize, overlap));
    MulMono(0, k, Step(chunkSize, overlap));
  }

  /** The empty text has no windows, and a non-empty text has at least one. */
  lemma EmptyIff(text: string, chunkSize: int, overlap: int)
    requires overlap < chunkSize
    ensures Chunks(text, chunkSize, overlap) == [] <==> text == []
  {
    ChunkCountUnique(|text|, Step(chunkSize, overlap), |Chunks(text, chunkSize, overlap)|);
  }

  /** Exactly one window occurs iff the text is non-empty and no longer than
      one step; that window is then the whole text. */
  lemma SingleChunkIff(text: string, chunkSize: int, overlap: int)
    requires 0 <= overlap < chunkSize
    ensures |Chunks(text, chunkSize, overlap)| == 1 <==> 0 < |text| <= Step(chunkSize, overlap)
    ensures |Chunks(text, chunkSize, overlap)| == 1 ==> Chunks(text, chunkSize, overlap) == [text]
  {
    ChunkCountUnique(|text|, Step(chunkSize, overlap), 1);
    if |Chunks(text, chunkSize, overlap)| == 1 {
      WindowShape(text, chunkSize, overlap, 0);
      assert text[0..|text|] == text;
    }
  }

  /** Every character of the text lies in window i / step, at offset
      i mod step: the windows cover the text because step <= chunkSize. */
  lemma Coverage(text: string, chunkSize: int, overlap: int, i: nat)
    requires 0 <= overlap < chunkSize
    requires i < |text|
    ensures var k := i / Step(chunkSize, overlap);
      && k * Step(chunkSize, overlap) <= i
      && k < |Chunks(text, chunkSize, overlap)|
      && i - k * Step(chunkSize, overlap) < |Chunks(text, chunkSize, overlap)[k]|
      && Chunks(text, chunkSize, overlap)[k][i - k * Step(chunkSize, overlap)] == text[i]
  {
    var k := i / Step(chunkSize, overlap);
    DivBounds(i, Step(chunkSize, overlap));
    assert k < |Chunks(text, chunkSize, overlap)| by {
      var c := |Chunks(text, chunkSize, overlap)|;
      ChunkCountUnique(|text|, Step(chunkSize, overlap), c);
      MulCancel(k, c, Step(chunkSize, overlap));
    }
    WindowShape(text, chunkSize, overlap, k);
  }

  /** Gluing the windows back: the first `step` characters of every window
      but the last, then the last window whole. This undoes the overlap. */
  function Unchunk(chunks: seq<string>, step: nat): string
  {
    if |chunks| == 0 then []
    else if |chunks| == 1 then chunks[0]
    else chunks[0][..Min(step, |chunks[0]|)] + Unchunk(chunks[1..], step)
  }

  /** A text longer than one step has one window more than the text after
      its first step. */
  lemma ShiftCount(n: nat, step: int)
    requires 0 < step < n
    ensures ChunkCount(n, step) == ChunkCount(n - step, step) + 1
  {
    var c := ChunkCount(n - step, step);
    ChunkCountUnique(n - step, step, c);
    assert (c + 1) * step == c * step + step;
    assert c == 0 || c * step == (c - 1) * step + step;
    ChunkCountUnique(n, step, c + 1);
  }

  /** Window k + 1 of a text is window k of the text after its first step. */
  lemma ShiftWindow(text: string, chunkSize: int, overlap: int, k: nat)
    requires 0 <= overlap < chunkSize
    requires |text| >= Step(chunkSize, overlap)
    ensures Window(text, chunkSize, overlap, k + 1) == Window(text[Step(chunkSize, overlap)..], chunkSize, overlap, k)
  {
    var step := Step(chunkSize, overlap);
    var start := k * step;
    assert (k + 1) * step == start + step;
    MulMono(0, k, step);
    SliceOfSuffix(text, step, start, start + chunkSize);
    assert Window(text, chunkSize, overlap, k + 1) == Slice(text, start + step, start + chunkSize + step);
  }

  /** Dropping the first window leaves the windows of the text after the
      first step. */
  lemma ChunksShift(text: string, chunkSize: int, overlap: int)
    requires 0 <= overlap < chunkSize
    requires |text| > Step(chunkSize, overlap)
    ensures Chunks(text, chunkSize, overlap)[1..] == Chunks(text[Step(chunkSize, overlap)..], chunkSize, overlap)
  {
    var whole, rest := Chunks(text, chunkSize, overlap), Chunks(text[Step(chunkSize, overlap)..], chunkSize, overlap);
    ShiftCount(|text|, Step(chunkSize, overlap));
    forall k | 0 <= k < |rest|
      ensures whole[k + 1] == rest[k]
    {
      ShiftWindow(text, chunkSize, overlap, k);
    }
  }

  /** Round trip: gluing the windows of a text back together with the overlap
      removed gives the text again. */
  lemma {:induction false} UnchunkChunks(text: string, chunkSize: int, overlap: int)
    requires 0 <= overlap < chunkSize
    ensures Unchunk(Chunks(text, chunkSize, overlap), Step(chunkSize, overlap)) == text
    decreases |text|
  {
    var step := Step(chunkSize, overlap);
    var chunks := Chunks(text, chunkSize, overlap);
    if |text| == 0 {
      EmptyIff(text, chunkSize, overlap);
    } else if |text| <= step {
      SingleChunkIff(text, chunkSize, overlap);
    } else {
      SingleChunkIff(text, chunkSize, overlap);
      EmptyIff(text, chunkSize, overlap);
      WindowShape(text, chunkSize, overlap, 0);
      assert chunks[0][..step] == text[..step];
      ChunksShift(text, chunkSize, overlap);
      UnchunkChunks(text[step..], chunkSize, overlap);
      assert text == text[..step] + text[step..];
    }
  }

  /** With the default sizes, a 1700-character text gives windows [0:1000],
      [800:1700] and [1600:1700]: two trailing windows are short. */
  lemma ShortTrailingWindows(text: string)
    requires |text| == 1700
    ensures var chunks := Chunks(text, DefaultChunkSize, DefaultOverlap);
      && |chunks| == 3
      && chunks[0] == text[..1000]
      && chunks[1] == text[800..]
      && chunks[2] == text[1600..]
  {
  }

  /** With the default sizes, a 2300-character text gives windows starting
      at 0, 800 and 1600, the last 700 characters long. */
  lemma ThreeWindows(text: string)
    requires |text| == 2300
    ensures var chunks := Chunks(text, DefaultChunkSize, DefaultOverlap);
      && |chunks| == 3
      && chunks[0] == text[..1000]
      && chunks[1] == text[800..1800]
      && chunks[2] == text[1600..]
      && |chunks[2]| == 700
  {
  }

  /** A text longer than one step but no longer than one window gives two
      windows, not one: the whole text and its tail after the first step. */
  lemma TwoWindowsForShortText(text: string)
    requires DefaultChunkSize - DefaultOverlap < |text| <= DefaultChunkSize
    ensures Chunks(text, DefaultChunkSize, DefaultOverlap) == [text, text[800..]]
  {
    var chunks := Chunks(text, DefaultChunkSize, DefaultOverlap);
    ChunkCountUnique(|text|, 800, 2);
    WindowShape(text, DefaultChunkSize, DefaultOverlap, 0);
    WindowShape(text, DefaultChunkSize, DefaultOverlap, 1);
    assert chunks[0] == text[..|text|] == text;
  }
}
