/**
 pkg/store/chunking.go: ChunkBySize, which splits a text into overlapping chunks and prefers to cut after a
 sentence mark. A text is a sequence of runes; chunk IDs (random UUIDs) are left out.
 */
module Chunking {

  datatype Chunk = Chunk(content: string, start: nat, end: nat)

  const SENTENCE_MARKS := ['\U{3002}', '\U{FF01}', '\U{FF1F}', '\n', '.', '!', '?']

  function EffectiveSize(chunkSize: int): (size: nat)
    ensures size > 0
  {
    if chunkSize <= 0 then 500 else chunkSize
  }

  function EffectiveOverlap(size: nat, chunkOverlap: int): (overlap: nat)
    requires size > 0
    ensures overlap < size
  {
    if chunkOverlap < 0 || chunkOverlap >= size then size / 4 else chunkOverlap
  }

  /** A sentence mark at i makes i + 1 a preferred end for the chunk that starts at pos. A mark on the very last
      position of the full-size chunk is not preferred: the search goes on below it. */
  ghost predicate PreferredMark(text: string, pos: nat, size: nat, i: int) {
    pos + size / 2 < i < pos + size - 1 && i < |text| && text[i] in SENTENCE_MARKS
  }

  /** Where the chunk that starts at pos has to end. */
  ghost predicate EndsAt(text: string, pos: nat, size: nat, end: nat) {
    if pos + size >= |text| then end == |text|
    else
      || (PreferredMark(text, pos, size, end - 1) && forall i :: PreferredMark(text, pos, size, i) ==> i < end)
      || (end == pos + size && forall i :: !PreferredMark(text, pos, size, i))
  }

  function NextStart(start: nat, end: nat, overlap: nat): nat {
    if end - overlap <= start then end else end - overlap
  }

  /** Where chunk k starts, or would start if it is not there yet. */
  ghost function StartOf(overlap: nat, chunks: seq<Chunk>, k: nat): nat
    requires k <= |chunks|
  {
    if k == 0 then 0 else NextStart(chunks[k - 1].start, chunks[k - 1].end, overlap)
  }

  ghost predicate GoodChunk(text: string, size: nat, overlap: nat, chunks: seq<Chunk>, k: nat)
    requires k < |chunks|
  {
    var c := chunks[k];
    && c.start == StartOf(overlap, chunks, k)
    && c.start < c.end <= |text|
    && c.content == text[c.start..c.end]
    && EndsAt(text, c.start, size, c.end)
  }

  /** chunks is what has been cut off so far and pos is where the next chunk starts. */
  ghost predicate CutUpTo(text: string, size: nat, overlap: nat, chunks: seq<Chunk>, pos: nat) {
    && pos == StartOf(overlap, chunks, |chunks|) <= |text|
    && (forall k: nat :: k < |chunks| ==> GoodChunk(text, size, overlap, chunks, k))
  }

  method ChunkBySize(content: string, chunkSize: int, chunkOverlap: int) returns (chunks: seq<Chunk>)
    ensures
      var size := EffectiveSize(chunkSize);
      CutUpTo(content, size, EffectiveOverlap(size, chunkOverlap), chunks, |content|)
  {
    var size := EffectiveSize(chunkSize);
    var overlap := EffectiveOverlap(size, chunkOverlap);
    chunks := [];
    var pos := 0;
    while pos < |content|
      invariant CutUpTo(content, size, overlap, chunks, pos)
      decreases |content| - pos
    {
      var end := pos + size;
      if end >= |content| {
        end := |content|;
      } else {
        var bestBreak := end;
        var i := end - 1;
        while i > pos + size / 2
          invariant pos + size / 2 <= i < end || (i == end - 1 && bestBreak == end)
          invariant bestBreak == end
          invariant forall k :: i < k ==> !PreferredMark(content, pos, size, k)
        {
          if content[i] in SENTENCE_MARKS {
            bestBreak := i + 1;
          }
          if bestBreak != end {
            break;
          }
          i := i - 1;
        }
        end := bestBreak;
      }
      var c := Chunk(content[pos..end], pos, end);
      NextChunk(content, size, overlap, chunks, c);
      chunks := chunks + [c];
      pos := NextStart(pos, end, overlap);
    }
  }

  lemma NextChunk(text: string, size: nat, overlap: nat, chunks: seq<Chunk>, c: Chunk)
    requires CutUpTo(text, size, overlap, chunks, c.start) && c.start < c.end <= |text|
    requires c.content == text[c.start..c.end] && EndsAt(text, c.start, size, c.end)
    ensures CutUpTo(text, size, overlap, chunks + [c], NextStart(c.start, c.end, overlap))
  {
    var longer := chunks + [c];
    forall k: nat | k < |longer|
      ensures GoodChunk(text, size, overlap, longer, k)
    {
      if k < |chunks| {
        assert GoodChunk(text, size, overlap, chunks, k);
      }
    }
  }

  // ----- The chunks, spelled out -----

  /** The ideographic full stop, the full-width exclamation and question marks, and their ASCII kin with the newline. */
  predicate EndsSentence(c: char) {
    c == '\U{3002}' || c == '\U{FF01}' || c == '\U{FF1F}' || c == '\n' || c == '.' || c == '!' || c == '?'
  }

  lemma MarksExactly(c: char)
    ensures c in SENTENCE_MARKS <==> EndsSentence(c)
  {
  }

  /** A size that is not positive stands for 500 runes. */
  lemma SizeExactly(chunkSize: int)
    ensures chunkSize <= 0 ==> EffectiveSize(chunkSize) == 500
    ensures chunkSize > 0 ==> EffectiveSize(chunkSize) == chunkSize
  {
  }

  /** A negative overlap, or one as long as a chunk, stands for a quarter of the size. */
  lemma OverlapExactly(size: nat, chunkOverlap: int)
    requires size > 0
    ensures 0 <= chunkOverlap < size ==> EffectiveOverlap(size, chunkOverlap) == chunkOverlap
    ensures chunkOverlap < 0 || chunkOverlap >= size ==>
              4 * EffectiveOverlap(size, chunkOverlap) <= size < 4 * EffectiveOverlap(size, chunkOverlap) + 4
  {
  }

  /** Main result: the first chunk starts with the text and each next one the overlap before the end of the one before
      it, or at this end if that would not lead on. A chunk that does not reach the end of the text ends behind the last
      sentence mark in its second half, its last rune apart; or, if there is none, when it is full. */
  lemma ChunkExactly(text: string, size: nat, overlap: nat, chunks: seq<Chunk>, k: nat)
    requires size > 0 && CutUpTo(text, size, overlap, chunks, |text|) && k < |chunks|
    ensures
      var c := chunks[k];
      && c.start < c.end <= |text| && c.content == text[c.start..c.end]
      && (k == 0 ==> c.start == 0)
      && (k > 0 && chunks[k - 1].start < chunks[k - 1].end - overlap ==> c.start == chunks[k - 1].end - overlap)
      && (k > 0 && chunks[k - 1].start >= chunks[k - 1].end - overlap ==> c.start == chunks[k - 1].end)
    ensures
      var c := chunks[k];
      if c.start + size >= |text| then c.end == |text|
      else if exists i :: c.start + size / 2 < i < c.start + size - 1 && EndsSentence(text[i]) then
        && c.start + size / 2 < c.end - 1 < c.start + size - 1 && EndsSentence(text[c.end - 1])
        && forall i :: c.end <= i < c.start + size - 1 ==> !EndsSentence(text[i])
      else c.end == c.start + size
  {
    var c := chunks[k];
    assert GoodChunk(text, size, overlap, chunks, k);
    forall i | 0 <= i < |text|
      ensures text[i] in SENTENCE_MARKS <==> EndsSentence(text[i])
    {
      MarksExactly(text[i]);
    }
    if c.start + size < |text| {
      forall i | c.start + size / 2 < i < c.start + size - 1
        ensures EndsSentence(text[i]) ==> PreferredMark(text, c.start, size, i)
      {
        assert i < |text|;
      }
    }
  }

  // ----- What the chunks promise -----

  lemma ChunkFacts(text: string, size: nat, overlap: nat, chunks: seq<Chunk>, k: nat)
    requires size > 0 && CutUpTo(text, size, overlap, chunks, |text|) && k < |chunks|
    ensures chunks[k].start == StartOf(overlap, chunks, k)
    ensures chunks[k].start < chunks[k].end <= |text| && chunks[k].content == text[chunks[k].start..chunks[k].end]
    ensures chunks[k].end == |text| || chunks[k].start + size / 2 + 2 <= chunks[k].end
            || chunks[k].end == chunks[k].start + size
    ensures chunks[k].end <= chunks[k].start + size
    ensures chunks[k].start + size >= |text| ==> chunks[k].end == |text|
  {
    assert GoodChunk(text, size, overlap, chunks, k);
  }

  /** Every chunk is short, starts behind the one before it, and leaves no gap to it; the last one ends the text. */
  lemma ChunksCover(text: string, size: nat, overlap: nat, chunks: seq<Chunk>)
    requires size > 0 && CutUpTo(text, size, overlap, chunks, |text|)
    ensures forall k :: 0 <= k < |chunks| ==> chunks[k].end - chunks[k].start <= size
    ensures forall k :: 0 < k < |chunks| ==> chunks[k - 1].start < chunks[k].start <= chunks[k - 1].end
    ensures chunks == [] <==> text == ""
    ensures chunks != [] ==> chunks[0].start == 0 && chunks[|chunks| - 1].end == |text|
  {
    forall k: nat | k < |chunks|
      ensures chunks[k].end - chunks[k].start <= size
      ensures k > 0 ==> chunks[k - 1].start < chunks[k].start <= chunks[k - 1].end
    {
      ChunkFacts(text, size, overlap, chunks, k);
      if k > 0 {
        ChunkFacts(text, size, overlap, chunks, k - 1);
      }
    }
    if chunks != [] {
      ChunkFacts(text, size, overlap, chunks, 0);
      ChunkFacts(text, size, overlap, chunks, |chunks| - 1);
    }
  }

  /** Puts chunks back together: keep what stands before the start of a chunk, then append the chunk. */
  ghost function Stitch(chunks: seq<Chunk>): string {
    if chunks == [] then ""
    else
      var last := chunks[|chunks| - 1];
      var before := Stitch(chunks[..|chunks| - 1]);
      (if last.start <= |before| then before[..last.start] else before) + last.content
  }

  lemma StitchOneMore(text: string, front: seq<Chunk>, c: Chunk, end: nat)
    requires end <= |text| && Stitch(front) == text[..end]
    requires c.start <= end && c.start < c.end <= |text| && c.content == text[c.start..c.end]
    ensures Stitch(front + [c]) == text[..c.end]
  {
    assert (front + [c])[..|front|] == front;
    assert text[..end][..c.start] + c.content == text[..c.end];
  }

  lemma {:induction false} StitchedPrefix(text: string, size: nat, overlap: nat, chunks: seq<Chunk>, k: nat)
    requires size > 0 && CutUpTo(text, size, overlap, chunks, |text|) && 0 < k <= |chunks|
    ensures chunks[k - 1].end <= |text| && Stitch(chunks[..k]) == text[..chunks[k - 1].end]
  {
    ChunkFacts(text, size, overlap, chunks, k - 1);
    assert chunks[..k] == chunks[..k - 1] + [chunks[k - 1]];
    if k > 1 {
      StitchedPrefix(text, size, overlap, chunks, k - 1);
      ChunkFacts(text, size, overlap, chunks, k - 2);
      StitchOneMore(text, chunks[..k - 1], chunks[k - 1], chunks[k - 2].end);
    } else {
      StitchOneMore(text, [], chunks[0], 0);
    }
  }

  /** Main result: nothing is lost. */
  lemma StitchRestoresText(text: string, size: nat, overlap: nat, chunks: seq<Chunk>)
    requires size > 0 && CutUpTo(text, size, overlap, chunks, |text|)
    ensures Stitch(chunks) == text
  {
    ChunksCover(text, size, overlap, chunks);
    if chunks != [] {
      StitchedPrefix(text, size, overlap, chunks, |chunks|);
      assert chunks[..|chunks|] == chunks && text[..|text|] == text;
    }
  }

  // ----- Which chunks add text -----

  /** The chunk that first reaches the end of the text is followed by at most one more chunk, which is made of overlap
      alone; it is there exactly when the chunk starts before the overlap does. */
  lemma OnlyLastTwoReachEnd(text: string, size: nat, overlap: nat, chunks: seq<Chunk>, k: nat)
    requires overlap < size && CutUpTo(text, size, overlap, chunks, |text|)
    requires k < |chunks| && chunks[k].end == |text|
    ensures |chunks| <= k + 2
    ensures |chunks| == k + 2 <==> overlap > 0 && chunks[k].start + overlap < |text|
    ensures |chunks| == k + 2 ==> chunks[k + 1].content == text[|text| - overlap..]
  {
    ChunkFacts(text, size, overlap, chunks, k);
    assert StartOf(overlap, chunks, |chunks|) == |text|;
    if k + 1 < |chunks| {
      ChunkFacts(text, size, overlap, chunks, k + 1);
      assert StartOf(overlap, chunks, k + 2) == |text|;
      if k + 2 < |chunks| {
        ChunkFacts(text, size, overlap, chunks, k + 2);
        assert false;
      }
    }
  }

  /** With an overlap of at most half a chunk, the start only ever steps back by the overlap. */
  lemma StepsBack(text: string, size: nat, overlap: nat, chunks: seq<Chunk>, k: nat)
    requires overlap <= size / 2 + 1 && overlap < size && CutUpTo(text, size, overlap, chunks, |text|)
    requires k + 1 < |chunks| && chunks[k].end < |text|
    ensures chunks[k + 1].start == chunks[k].end - overlap && chunks[k].end < chunks[k + 1].end
  {
    ChunkFacts(text, size, overlap, chunks, k);
    ChunkFacts(text, size, overlap, chunks, k + 1);
  }

  /** Main result: when the last chunk repeats the end of the text and adds nothing to it. */
  lemma LastChunkIsOverlapExactly(text: string, size: nat, overlap: nat, chunks: seq<Chunk>)
    requires overlap <= size / 2 + 1 && overlap < size && CutUpTo(text, size, overlap, chunks, |text|)
    ensures |chunks| >= 2 && chunks[|chunks| - 2].end == |text| <==> 0 < overlap < |text|
    ensures 0 < overlap < |text| ==> chunks[|chunks| - 1].content == text[|text| - overlap..]
  {
    ChunksCover(text, size, overlap, chunks);
    if text != "" {
      var last := |chunks| - 1;
      if last > 0 && chunks[last - 1].end == |text| {
        OnlyLastTwoReachEnd(text, size, overlap, chunks, last - 1);
      } else {
        OnlyLastTwoReachEnd(text, size, overlap, chunks, last);
        if last > 0 {
          ChunkFacts(text, size, overlap, chunks, last - 1);
          StepsBack(text, size, overlap, chunks, last - 1);
        }
      }
    }
  }

  /** A text of one full chunk is split in two, and the second chunk lies inside the first. */
  lemma OverlapOnlyChunk(chunks: seq<Chunk>)
    requires CutUpTo("abcd", EffectiveSize(4), EffectiveOverlap(EffectiveSize(4), 1), chunks, |"abcd"|)
    ensures chunks == [Chunk("abcd", 0, 4), Chunk("d", 3, 4)]
  {
    var text := "abcd";
    ChunksCover(text, 4, 1, chunks);
    ChunkFacts(text, 4, 1, chunks, 0);
    OnlyLastTwoReachEnd(text, 4, 1, chunks, 0);
    ChunkFacts(text, 4, 1, chunks, 1);
    assert text[0..4] == "abcd" && text[3..4] == "d";
  }

  /** Every chunk but the last goes beyond the one before it. */
  ghost predicate InnerChunksAddText(chunks: seq<Chunk>) {
    forall k :: 0 < k < |chunks| - 1 ==> chunks[k - 1].end < chunks[k].end
  }

  lemma SmallOverlapAddsText(text: string, size: nat, overlap: nat, chunks: seq<Chunk>)
    requires overlap <= size / 2 + 1 && overlap < size && CutUpTo(text, size, overlap, chunks, |text|)
    ensures InnerChunksAddText(chunks)
  {
    forall k: nat | 0 < k < |chunks| - 1
      ensures chunks[k - 1].end < chunks[k].end
    {
      ChunkFacts(text, size, overlap, chunks, k - 1);
      if chunks[k - 1].end == |text| {
        OnlyLastTwoReachEnd(text, size, overlap, chunks, k - 1);
      } else {
        StepsBack(text, size, overlap, chunks, k - 1);
      }
    }
  }

  /** A text whose only sentence mark is the last rune of the first chunk. */
  function OneMark(size: nat): (text: string)
    requires size > 0
    ensures |text| == 2 * size
  {
    seq(2 * size, i => if i == size - 1 then '.' else 'a')
  }

  lemma LargeOverlapRepeats(size: nat, overlap: nat, chunks: seq<Chunk>)
    requires size / 2 + 1 < overlap < size && CutUpTo(OneMark(size), size, overlap, chunks, 2 * size)
    ensures |chunks| > 2 && chunks[0].end == chunks[1].end
  {
    var text := OneMark(size);
    ChunksCover(text, size, overlap, chunks);
    assert GoodChunk(text, size, overlap, chunks, 0);
    assert chunks[0].end == size;
    assert |chunks| > 1;
    assert GoodChunk(text, size, overlap, chunks, 1);
    assert PreferredMark(text, size - overlap, size, size - 1);
  }

  lemma EndExists(text: string, size: nat, pos: nat) returns (end: nat)
    requires size > 0 && pos < |text|
    ensures pos < end <= |text| && EndsAt(text, pos, size, end)
  {
    if pos + size >= |text| {
      return |text|;
    }
    var i := pos + size - 2;
    while i > pos + size / 2 && !PreferredMark(text, pos, size, i)
      invariant forall n :: i < n ==> !PreferredMark(text, pos, size, n)
    {
      i := i - 1;
    }
    end := if PreferredMark(text, pos, size, i) then i + 1 else pos + size;
  }

  /** Every text can be cut up. */
  lemma {:induction false} ChunksExist(text: string, size: nat, overlap: nat, chunks: seq<Chunk>, pos: nat)
    returns (all: seq<Chunk>)
    requires overlap < size && CutUpTo(text, size, overlap, chunks, pos)
    ensures CutUpTo(text, size, overlap, all, |text|)
    decreases |text| - pos
  {
    all := chunks;
    if pos < |text| {
      var end := EndExists(text, size, pos);
      var c := Chunk(text[pos..end], pos, end);
      NextChunk(text, size, overlap, chunks, c);
      all := ChunksExist(text, size, overlap, chunks + [c], NextStart(pos, end, overlap));
    }
  }

  /** Main result: only an overlap above half a chunk can make an inner chunk repeat the one before it. */
  lemma InnerChunksAddTextExactly(size: nat, overlap: nat)
    requires overlap < size
    ensures (forall text, chunks :: CutUpTo(text, size, overlap, chunks, |text|) ==> InnerChunksAddText(chunks))
       <==> overlap <= size / 2 + 1
  {
    if overlap <= size / 2 + 1 {
      forall text, chunks | CutUpTo(text, size, overlap, chunks, |text|)
        ensures InnerChunksAddText(chunks)
      {
        SmallOverlapAddsText(text, size, overlap, chunks);
      }
    } else {
      var chunks := ChunksExist(OneMark(size), size, overlap, [], 0);
      LargeOverlapRepeats(size, overlap, chunks);
      assert !InnerChunksAddText(chunks);
    }
  }

  // ----- The number of chunks -----

  lemma Stretch(k: nat, size: nat, before: nat, start: nat)
    requires k > 0 && (k - 1) * size <= 4 * before && 4 * before + size <= 4 * start
    ensures k * size <= 4 * start
  {
    assert k * size == (k - 1) * size + size;
  }

  lemma {:induction false} StartsSpreadOut(text: string, size: nat, overlap: nat, chunks: seq<Chunk>, k: nat)
    requires 4 * overlap <= size && size > 0 && CutUpTo(text, size, overlap, chunks, |text|)
    requires k < |chunks| && forall i :: 0 <= i < k ==> chunks[i].end < |text|
    ensures k * size <= 4 * chunks[k].start
  {
    ChunkFacts(text, size, overlap, chunks, k);
    if k > 0 {
      StartsSpreadOut(text, size, overlap, chunks, k - 1);
      ChunkFacts(text, size, overlap, chunks, k - 1);
      Stretch(k, size, chunks[k - 1].start, chunks[k].start);
    }
  }

  lemma {:induction false} StartAtLeastIndex(text: string, size: nat, overlap: nat, chunks: seq<Chunk>, k: nat)
    requires size > 0 && CutUpTo(text, size, overlap, chunks, |text|) && k <= |chunks|
    ensures k <= StartOf(overlap, chunks, k) <= |text|
  {
    if k > 0 {
      StartAtLeastIndex(text, size, overlap, chunks, k - 1);
      ChunkFacts(text, size, overlap, chunks, k - 1);
    }
  }

  /** Main result: the number of chunks never exceeds the text length, and with a moderate overlap it is at most
      four times the length over the chunk size, plus two. */
  lemma ChunkCountBound(text: string, size: nat, overlap: nat, chunks: seq<Chunk>)
    requires overlap < size && CutUpTo(text, size, overlap, chunks, |text|)
    ensures |chunks| <= |text|
    ensures 4 * overlap <= size ==> (|chunks| - 2) * size <= 4 * |text|
  {
    StartAtLeastIndex(text, size, overlap, chunks, |chunks|);
    if 4 * overlap <= size && |chunks| > 2 {
      var k := |chunks| - 2;
      forall i: nat | i < k
        ensures chunks[i].end < |text|
      {
        ChunkFacts(text, size, overlap, chunks, i);
        if chunks[i].end == |text| {
          OnlyLastTwoReachEnd(text, size, overlap, chunks, i);
        }
      }
      StartsSpreadOut(text, size, overlap, chunks, k);
      ChunkFacts(text, size, overlap, chunks, k);
    } else if |chunks| <= 2 {
      assert (|chunks| - 2) * size <= 0;
    }
  }
}
