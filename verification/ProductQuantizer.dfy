/**
 pkg/quantization/product.go: product quantization. A vector is cut into sub-vectors of equal length; each of them is
 replaced by the one-byte index of its nearest centroid in a codebook of its own.
 */
module ProductQuantizer {
  import opened Wrappers
  import opened MachineInts
  import opened KMeans
  import opened KMeansDescent

  // ----- Sub-vectors -----

  lemma Slots(s: nat, count: nat, width: nat)
    requires s < count
    ensures 0 <= s * width <= (s + 1) * width <= count * width
    ensures (s + 1) * width == s * width + width
  {
    assert count * width == (s + 1) * width + (count - s - 1) * width;
  }

  /** Sub-vector s of the `count` sub-vectors of v. */
  function SubVector(v: Vector, s: nat, count: nat, width: nat): (r: Vector)
    requires s < count && count * width <= |v|
    ensures |r| == width
  {
    Slots(s, count, width);
    v[s * width..(s + 1) * width]
  }

  // ----- Codes -----

  type Codebooks = seq<seq<Vector>>
  type Code = seq<uint8>

  /** One codebook for each sub-vector, all centroids of the right length. */
  ghost predicate Shaped(books: Codebooks, width: nat) {
    forall s :: 0 <= s < |books| ==> Uniform(books[s], width)
  }

  ghost predicate IsCodeWord(code: Code, books: Codebooks) {
    |code| == |books| && forall s :: 0 <= s < |books| ==> code[s] as int < |books[s]|
  }

  /** One centroid of every codebook, whether a byte can name it or not. */
  ghost predicate IsChoice(choice: seq<nat>, books: Codebooks) {
    |choice| == |books| && forall s :: 0 <= s < |books| ==> choice[s] < |books[s]|
  }

  /** Distance between the first n sub-vectors of v and the chosen centroids. */
  ghost function ChoiceDistance(v: Vector, choice: seq<nat>, books: Codebooks, width: nat, n: nat): real
    requires Shaped(books, width) && |books| * width <= |v| && IsChoice(choice, books) && n <= |books|
  {
    if n == 0 then 0.0
    else ChoiceDistance(v, choice, books, width, n - 1)
         + SquaredDistance(SubVector(v, n - 1, |books|, width), books[n - 1][choice[n - 1]])
  }

  /** The centroids that code names. */
  ghost function Indices(code: Code): seq<nat> {
    seq(|code|, s requires 0 <= s < |code| => code[s] as nat)
  }

  /** Distance between the first n sub-vectors of v and the centroids that code names. */
  ghost function CodeDistance(v: Vector, code: Code, books: Codebooks, width: nat, n: nat): real
    requires Shaped(books, width) && |books| * width <= |v| && IsCodeWord(code, books) && n <= |books|
  {
    ChoiceDistance(v, Indices(code), books, width, n)
  }

  ghost function Decoded(code: Code, books: Codebooks, n: nat): Vector
    requires IsCodeWord(code, books) && n <= |books|
  {
    if n == 0 then [] else Decoded(code, books, n - 1) + books[n - 1][code[n - 1]]
  }

  /** The byte names one of the centroids with the least distance. */
  ghost predicate NamesNearest(sub: Vector, book: seq<Vector>, b: uint8)
    requires Uniform(book, |sub|)
  {
    && b as nat < |book|
    && forall c :: 0 <= c < |book| ==> SquaredDistance(sub, book[b]) <= SquaredDistance(sub, book[c])
  }

  /** code names a nearest centroid of every sub-vector. */
  ghost predicate Nearest(v: Vector, code: Code, books: Codebooks, width: nat)
    requires Shaped(books, width) && |books| * width <= |v|
  {
    |code| == |books| &&
    forall s :: 0 <= s < |books| ==> NamesNearest(SubVector(v, s, |books|, width), books[s], code[s])
  }

  /** code is a code word, and no choice of centroids is closer to v. */
  ghost predicate Optimal(v: Vector, code: Code, books: Codebooks, width: nat)
    requires Shaped(books, width) && |books| * width <= |v|
  {
    && IsCodeWord(code, books)
    && forall choice :: IsChoice(choice, books) ==>
         CodeDistance(v, code, books, width, |books|) <= ChoiceDistance(v, choice, books, width, |books|)
  }

  /** The byte that encodes a sub-vector: the index of the first nearest centroid, cut to eight bits. */
  ghost predicate CodedAs(sub: Vector, book: seq<Vector>, b: uint8)
    requires Uniform(book, |sub|)
  {
    exists best: nat :: FirstNearest(sub, book, best) && b as int == best % TWO_TO_THE_8
  }

  /** Every sub-vector is replaced by its byte. */
  ghost predicate Encodes(v: Vector, code: Code, books: Codebooks, width: nat)
    requires Shaped(books, width) && |books| * width <= |v|
  {
    |code| == |books| && forall s :: 0 <= s < |books| ==> CodedAs(SubVector(v, s, |books|, width), books[s], code[s])
  }

  /** Some centroid of every codebook is within the range of a float32. */
  ghost predicate InRange(v: Vector, books: Codebooks, width: nat)
    requires Shaped(books, width) && |books| * width <= |v|
  {
    forall s :: 0 <= s < |books| ==> SomeInRange(SubVector(v, s, |books|, width), books[s])
  }

  /** What the search makes of a sub-vector: 0 when no distance is below the largest float. */
  ghost predicate EncodedByte(sub: Vector, book: seq<Vector>, b: uint8)
    requires Uniform(book, |sub|)
  {
    if SomeInRange(sub, book) then CodedAs(sub, book, b) else b == 0
  }

  /** Sub-vector s of each of the vectors. */
  function SubVectors(vectors: seq<Vector>, s: nat, count: nat, width: nat): (subs: seq<Vector>)
    requires s < count && Uniform(vectors, count * width)
    ensures |subs| == |vectors| && Uniform(subs, width)
  {
    seq(|vectors|, i requires 0 <= i < |vectors| => SubVector(vectors[i], s, count, width))
  }

  /** What training makes of sub-vector s: k-means from the vectors picked at random. */
  ghost predicate TrainedOn(vectors: seq<Vector>, s: nat, count: nat, width: nat, k: nat, picks: seq<nat>,
                            codebook: seq<Vector>)
    requires s < count && Uniform(vectors, count * width) && Clusters(vectors, k) <= |picks|
    requires forall i :: 0 <= i < |picks| ==> picks[i] < |vectors|
  {
    var subs := SubVectors(vectors, s, count, width);
    codebook == Clustered(subs, Picked(subs, picks, Clusters(vectors, k)), width)
  }

  // ----- The quantizer -----

  class Quantizer {
    const numSubVectors: nat
    const numCentroids: nat
    var subDim: nat
    var codebooks: Codebooks

    ghost predicate Valid()
      reads this
    {
      && numSubVectors > 0
      && Shaped(codebooks, subDim)
      && (codebooks == [] || |codebooks| == numSubVectors)
      && forall s :: 0 <= s < |codebooks| ==> 0 < |codebooks[s]| || numCentroids == 0
    }

    constructor (numSubVectors: nat, numCentroids: nat)
      requires numSubVectors > 0
      ensures Valid() && codebooks == []
      ensures this.numSubVectors == numSubVectors && this.numCentroids == numCentroids
    {
      this.numSubVectors, this.numCentroids := numSubVectors, numCentroids;
      subDim, codebooks := 0, [];
    }

    /** The body of the training loop: clusters sub-vector s of all the vectors. */
    method TrainPart(vectors: seq<Vector>, s: nat, width: nat, picks: seq<nat>) returns (codebook: seq<Vector>)
      requires s < numSubVectors && Uniform(vectors, numSubVectors * width)
      requires forall i :: 0 <= i < |picks| ==> picks[i] < |vectors|
      requires Clusters(vectors, numCentroids) <= |picks|
      ensures Uniform(codebook, width) && |codebook| == Clusters(vectors, numCentroids)
      ensures TrainedOn(vectors, s, numSubVectors, width, numCentroids, picks, codebook)
    {
      hide Clustered;
      var subs := SubVectors(vectors, s, numSubVectors, width);
      codebook := Cluster(subs, width, numCentroids, picks);
    }

    /** picks[s] stands for the random draws that start the clustering of sub-vector s. */
    method Train(vectors: seq<Vector>, picks: seq<seq<nat>>)
      requires Valid() && (vectors != [] ==> Uniform(vectors, |vectors[0]|))
      requires |picks| == numSubVectors
      requires forall s, i :: 0 <= s < |picks| && 0 <= i < |picks[s]| ==> picks[s][i] < |vectors|
      requires forall s :: 0 <= s < |picks| ==> Clusters(vectors, numCentroids) <= |picks[s]|
      modifies this
      ensures Valid()
      ensures vectors == [] || |vectors[0]| % numSubVectors != 0 ==>
                codebooks == old(codebooks) && subDim == old(subDim)
      ensures vectors != [] && |vectors[0]| % numSubVectors == 0 ==>
                |codebooks| == numSubVectors && numSubVectors * subDim == |vectors[0]|
                && forall s :: 0 <= s < numSubVectors ==> |codebooks[s]| == Clusters(vectors, numCentroids)
      ensures vectors != [] && |vectors[0]| % numSubVectors == 0 ==>
                forall s :: 0 <= s < numSubVectors ==>
                  TrainedOn(vectors, s, numSubVectors, subDim, numCentroids, picks[s], codebooks[s])
    {
      if |vectors| == 0 {
        return;
      }
      var dim := |vectors[0]|;
      if dim % numSubVectors != 0 {
        return;
      }
      hide TrainedOn;
      var width := dim / numSubVectors;
      assert numSubVectors * width == dim;
      var books: Codebooks := [];
      for s := 0 to numSubVectors
        invariant |books| == s && Shaped(books, width)
        invariant forall t :: 0 <= t < s ==> |books[t]| == Clusters(vectors, numCentroids)
        invariant forall t :: 0 <= t < s ==>
                    TrainedOn(vectors, t, numSubVectors, width, numCentroids, picks[t], books[t])
      {
        var codebook := TrainPart(vectors, s, width, picks[s]);
        books := books + [codebook];
      }
      subDim, codebooks := width, books;
    }

    method Encode(v: Vector) returns (code: Option<Code>)
      requires Valid() && |codebooks| * subDim <= |v|
      ensures code.None? <==> codebooks == []
      ensures code.Some? ==> |code.value| == |codebooks|
      ensures code.Some? ==>
                forall s :: 0 <= s < |codebooks| ==>
                  EncodedByte(SubVector(v, s, |codebooks|, subDim), codebooks[s], code.value[s])
      ensures code.Some? && InRange(v, codebooks, subDim) ==> Encodes(v, code.value, codebooks, subDim)
    {
      if |codebooks| == 0 {
        return None;
      }
      var codes: Code := [];
      for s := 0 to numSubVectors
        invariant |codes| == s
        invariant forall t :: 0 <= t < s ==>
                    EncodedByte(SubVector(v, t, |codebooks|, subDim), codebooks[t], codes[t])
      {
        var sub := SubVector(v, s, numSubVectors, subDim);
        var best := FindNearestCentroid(sub, codebooks[s]);
        var b := (best % TWO_TO_THE_8) as uint8;
        assert EncodedByte(sub, codebooks[s], b);
        codes := codes + [b];
      }
      return Some(codes);
    }

    method Decode(code: Code) returns (v: Option<Vector>)
      requires Valid() && (codebooks != [] ==> IsCodeWord(code, codebooks))
      ensures codebooks == [] ==> v == None
      ensures codebooks != [] ==> v == Some(Decoded(code, codebooks, |codebooks|))
    {
      if |codebooks| == 0 {
        return None;
      }
      var result := [];
      for s := 0 to numSubVectors
        invariant result == Decoded(code, codebooks, s)
      {
        result := result + codebooks[s][code[s]];
      }
      return Some(result);
    }

    method Distance(v: Vector, code: Code) returns (dist: real)
      requires Valid() && |codebooks| * subDim <= |v| && (codebooks != [] ==> IsCodeWord(code, codebooks))
      ensures dist == if codebooks == [] then MAX_FLOAT32 else CodeDistance(v, code, codebooks, subDim, |codebooks|)
    {
      if |codebooks| == 0 {
        return MAX_FLOAT32;
      }
      dist := 0.0;
      for s := 0 to numSubVectors
        invariant dist == CodeDistance(v, code, codebooks, subDim, s)
      {
        var sub := SubVector(v, s, numSubVectors, subDim);
        var centroid := codebooks[s][code[s]];
        for i := 0 to |sub|
          invariant dist == CodeDistance(v, code, codebooks, subDim, s) + PartialDistance(sub, centroid, i)
        {
          var d := sub[i] - centroid[i];
          dist := dist + d * d;
        }
      }
    }
  }

  // ----- What training promises -----

  lemma PartsInBox(vectors: seq<Vector>, s: nat, count: nat, width: nat, bound: real)
    requires s < count && Uniform(vectors, count * width) && AllInBox(vectors, bound)
    ensures AllInBox(SubVectors(vectors, s, count, width), bound)
  {
    var subs := SubVectors(vectors, s, count, width);
    forall i | 0 <= i < |subs|
      ensures InBox(subs[i], bound)
    {
      assert InBox(vectors[i], bound);
      Slots(s, count, width);
    }
  }

  /** No codebook clusters its sub-vectors worse than its random start, as long as the box around the vectors is so
      small that no distance between two sub-vectors exceeds the largest float. */
  lemma TrainingIsNoWorse(vectors: seq<Vector>, s: nat, count: nat, width: nat, k: nat, picks: seq<nat>,
                          codebook: seq<Vector>, bound: real)
    requires s < count && Uniform(vectors, count * width) && 0 < Clusters(vectors, k) <= |picks|
    requires forall i :: 0 <= i < |picks| ==> picks[i] < |vectors|
    requires TrainedOn(vectors, s, count, width, k, picks, codebook)
    requires SmallBox(bound, width) && AllInBox(vectors, bound)
    ensures
      var subs := SubVectors(vectors, s, count, width);
      Objective(subs, codebook, width, |subs|)
      <= Objective(subs, Picked(subs, picks, Clusters(vectors, k)), width, |subs|)
  {
    hide SmallBox, AllInBox, Clustered;
    var subs := SubVectors(vectors, s, count, width);
    PartsInBox(vectors, s, count, width, bound);
    PickedInBox(subs, picks, Clusters(vectors, k), bound);
    SmallBoxDescends(subs, Picked(subs, picks, Clusters(vectors, k)), width, bound);
  }

  // ----- What encoding promises -----

  /** Main result: naming a nearest centroid of each sub-vector gives the least distance over all choices. */
  lemma {:induction false} NearestIsOptimal(v: Vector, code: Code, choice: seq<nat>, books: Codebooks, width: nat,
                                            n: nat)
    requires Shaped(books, width) && |books| * width <= |v| && n <= |books|
    requires Nearest(v, code, books, width) && IsCodeWord(code, books) && IsChoice(choice, books)
    ensures CodeDistance(v, code, books, width, n) <= ChoiceDistance(v, choice, books, width, n)
  {
    if n > 0 {
      NearestIsOptimal(v, code, choice, books, width, n - 1);
      assert NamesNearest(SubVector(v, n - 1, |books|, width), books[n - 1], code[n - 1]);
    }
  }

  /** With at most 256 centroids a codebook the byte does not wrap, so the code is made of nearest centroids. */
  lemma SmallCodebooksDoNotWrap(v: Vector, code: Code, books: Codebooks, width: nat)
    requires Shaped(books, width) && |books| * width <= |v| && Encodes(v, code, books, width)
    requires forall s :: 0 <= s < |books| ==> |books[s]| <= TWO_TO_THE_8
    ensures forall s :: 0 <= s < |books| ==> FirstNearest(SubVector(v, s, |books|, width), books[s], code[s] as nat)
    ensures Nearest(v, code, books, width) && IsCodeWord(code, books)
  {
    forall s | 0 <= s < |books|
      ensures FirstNearest(SubVector(v, s, |books|, width), books[s], code[s] as nat)
    {
      var best: nat :|
            FirstNearest(SubVector(v, s, |books|, width), books[s], best) && code[s] as int == best % TWO_TO_THE_8;
    }
  }

  // ----- Exactly which codebooks can be encoded -----

  /** A byte can name the centroid c, or another one that is equal to it. */
  ghost predicate HasName(book: seq<Vector>, c: nat)
    requires c < |book|
  {
    exists d :: 0 <= d < TWO_TO_THE_8 && d < |book| && book[d] == book[c]
  }

  /** The centroids beyond the first 256 repeat some of these. */
  ghost predicate Nameable(book: seq<Vector>) {
    forall c: nat :: TWO_TO_THE_8 <= c < |book| ==> HasName(book, c)
  }

  /** Whatever is encoded with the book gets a nearest centroid. */
  ghost predicate EncodesWell(book: seq<Vector>, width: nat)
    requires Uniform(book, width)
  {
    forall sub: Vector, b :: |sub| == width && CodedAs(sub, book, b) ==> NamesNearest(sub, book, b)
  }

  lemma FirstNearestHasNoTwinBefore(sub: Vector, book: seq<Vector>, best: nat)
    requires Uniform(book, |sub|) && Nameable(book) && FirstNearest(sub, book, best)
    ensures best < TWO_TO_THE_8
  {
    forall d | 0 <= d < best
      ensures book[d] != book[best]
    {
      assert SquaredDistance(sub, book[best]) < SquaredDistance(sub, book[d]);
    }
    assert HasName(book, best) ==> best < TWO_TO_THE_8;
  }

  lemma FirstTwin(book: seq<Vector>, c: nat) returns (first: nat)
    requires c < |book|
    ensures first <= c && book[first] == book[c] && forall d :: 0 <= d < first ==> book[d] != book[c]
  {
    first := 0;
    while book[first] != book[c]
      invariant first <= c
      invariant forall d :: 0 <= d < first ==> book[d] != book[c]
      decreases c - first
    {
      first := first + 1;
    }
  }

  /** A vector that lies on a centroid gets a byte, and only a twin of that centroid is nearest. */
  lemma OnCentroid(book: seq<Vector>, width: nat, c: nat) returns (b: uint8)
    requires Uniform(book, width) && c < |book|
    ensures CodedAs(book[c], book, b)
    ensures NamesNearest(book[c], book, b) ==> book[b] == book[c]
  {
    var sub := book[c];
    forall d | 0 <= d < |book|
      ensures SquaredDistance(sub, book[d]) == 0.0 <==> sub == book[d]
    {
      ZeroDistance(sub, book[d], width);
      assert sub[..width] == sub && book[d][..width] == book[d];
    }
    var first := FirstTwin(book, c);
    assert FirstNearest(sub, book, first);
    b := (first % TWO_TO_THE_8) as uint8;
  }

  /** Main result: encoding names nearest centroids exactly when no centroid beyond the first 256 is new. */
  lemma EncodesWellExactly(book: seq<Vector>, width: nat)
    requires Uniform(book, width)
    ensures EncodesWell(book, width) <==> Nameable(book)
  {
    if Nameable(book) {
      forall sub: Vector, b | |sub| == width && CodedAs(sub, book, b)
        ensures NamesNearest(sub, book, b)
      {
        var best: nat :| FirstNearest(sub, book, best) && b as int == best % TWO_TO_THE_8;
        FirstNearestHasNoTwinBefore(sub, book, best);
      }
    }
    if EncodesWell(book, width) {
      forall c: nat | TWO_TO_THE_8 <= c < |book|
        ensures HasName(book, c)
      {
        var b := OnCentroid(book, width, c);
        assert book[b] == book[c];
      }
    }
  }

  /** Two choices that differ in one codebook differ by what they choose there. */
  lemma {:induction false} ChangeOneChoice(v: Vector, choice: seq<nat>, s: nat, c: nat, books: Codebooks, width: nat,
                                           n: nat)
    requires Shaped(books, width) && |books| * width <= |v| && n <= |books|
    requires IsChoice(choice, books) && s < |books| && c < |books[s]|
    ensures ChoiceDistance(v, choice[s := c], books, width, n) - ChoiceDistance(v, choice, books, width, n)
         == if s < n then
              SquaredDistance(SubVector(v, s, |books|, width), books[s][c])
              - SquaredDistance(SubVector(v, s, |books|, width), books[s][choice[s]])
            else 0.0
  {
    if n > 0 {
      ChangeOneChoice(v, choice, s, c, books, width, n - 1);
    }
  }

  /** A vector can be encoded so that one sub-vector and its byte are as given. */
  lemma EmbedSubVector(sub: Vector, b: uint8, s: nat, books: Codebooks, width: nat) returns (v: Vector, code: Code)
    requires Shaped(books, width) && (forall t :: 0 <= t < |books| ==> books[t] != [])
    requires s < |books| && |sub| == width && CodedAs(sub, books[s], b)
    ensures |v| == |books| * width && Encodes(v, code, books, width)
    ensures SubVector(v, s, |books|, width) == sub && code[s] == b
  {
    var parts: Codebooks, zeros: Code := [], [];
    code := [];
    for t := 0 to |books|
      invariant |parts| == t && |zeros| == t && |code| == t
      invariant Shaped(parts, width) && IsCodeWord(zeros, parts)
      invariant forall r :: 0 <= r < t ==> CodedAs(parts[r][zeros[r]], books[r], code[r])
      invariant s < t ==> parts[s][zeros[s]] == sub && code[s] == b
    {
      var part, byte := sub, b;
      if t != s {
        part := books[t][0];
        byte := OnCentroid(books[t], width, 0);
      }
      parts, zeros, code := parts + [[part]], zeros + [0], code + [byte];
    }
    v := Decoded(zeros, parts, |parts|);
    DecodedLength(zeros, parts, width, |parts|);
    forall t | 0 <= t < |books|
      ensures SubVector(v, t, |books|, width) == parts[t][zeros[t]]
    {
      DecodedParts(zeros, parts, width, |parts|, t);
    }
  }

  /** Main result: every code is the best choice of centroids exactly when every codebook is nameable. */
  lemma EncodingIsOptimalExactly(books: Codebooks, width: nat)
    requires Shaped(books, width) && forall s :: 0 <= s < |books| ==> books[s] != []
    ensures (forall v, code :: |books| * width <= |v| && Encodes(v, code, books, width) ==>
              Optimal(v, code, books, width))
       <==> (forall s :: 0 <= s < |books| ==> Nameable(books[s]))
  {
    if forall s :: 0 <= s < |books| ==> Nameable(books[s]) {
      forall v, code | |books| * width <= |v| && Encodes(v, code, books, width)
        ensures Optimal(v, code, books, width)
      {
        NameableIsOptimal(v, code, books, width);
      }
    }
    if forall v, code :: |books| * width <= |v| && Encodes(v, code, books, width) ==> Optimal(v, code, books, width) {
      forall s | 0 <= s < |books|
        ensures Nameable(books[s])
      {
        forall sub: Vector, b | |sub| == width && CodedAs(sub, books[s], b)
          ensures NamesNearest(sub, books[s], b)
        {
          var v, code := EmbedSubVector(sub, b, s, books, width);
          OptimalNamesNearest(v, code, books, width, s);
        }
        EncodesWellExactly(books[s], width);
      }
    }
  }

  lemma NameableIsOptimal(v: Vector, code: Code, books: Codebooks, width: nat)
    requires Shaped(books, width) && |books| * width <= |v| && Encodes(v, code, books, width)
    requires forall s :: 0 <= s < |books| ==> Nameable(books[s])
    ensures Optimal(v, code, books, width)
  {
    forall s | 0 <= s < |books|
      ensures NamesNearest(SubVector(v, s, |books|, width), books[s], code[s])
    {
      EncodesWellExactly(books[s], width);
    }
    forall choice | IsChoice(choice, books)
      ensures CodeDistance(v, code, books, width, |books|) <= ChoiceDistance(v, choice, books, width, |books|)
    {
      NearestIsOptimal(v, code, choice, books, width, |books|);
    }
  }

  lemma OptimalNamesNearest(v: Vector, code: Code, books: Codebooks, width: nat, s: nat)
    requires Shaped(books, width) && |books| * width <= |v| && Optimal(v, code, books, width) && s < |books|
    ensures NamesNearest(SubVector(v, s, |books|, width), books[s], code[s])
  {
    forall c: nat | c < |books[s]|
      ensures SquaredDistance(SubVector(v, s, |books|, width), books[s][code[s]])
           <= SquaredDistance(SubVector(v, s, |books|, width), books[s][c])
    {
      ChangeOneChoice(v, Indices(code), s, c, books, width, |books|);
      assert IsChoice(Indices(code)[s := c], books);
    }
  }

  /** The centroids 0, 1, ..., 256 on a line. */
  function LongCodebook(): (book: seq<Vector>)
    ensures |book| == 257 && Uniform(book, 1)
  {
    seq(257, i => [i as real])
  }

  /** With 257 centroids the index of the last one wraps to 0, and a vector that lies on it gets the worst code. */
  lemma LongCodebookWraps()
    ensures FirstNearest([256.0], LongCodebook(), 256) && CodedAs([256.0], LongCodebook(), 0)
    ensures forall c :: 0 < c < 257 ==>
              SquaredDistance([256.0], LongCodebook()[c]) < SquaredDistance([256.0], LongCodebook()[0])
  {
    var book, v: Vector := LongCodebook(), [256.0];
    forall c | 0 <= c < 257
      ensures SquaredDistance(v, book[c]) == Square(256.0 - c as real)
      ensures c < 256 ==> SquaredDistance(v, book[c]) > 0.0
      ensures 0 < c ==> SquaredDistance(v, book[c]) < SquaredDistance(v, book[0])
    {
      forall d | d == c || d == 0
        ensures SquaredDistance(v, book[d]) == Square(256.0 - d as real)
      {
        assert PartialDistance(v, book[d], 1) == PartialDistance(v, book[d], 0) + Square(v[0] - book[d][0]);
      }
      if c < 256 {
        PositiveSquare(256.0 - c as real);
      }
    }
    assert FirstNearest(v, book, 256);
  }

  lemma {:induction false} DecodedParts(code: Code, books: Codebooks, width: nat, n: nat, s: nat)
    requires Shaped(books, width) && IsCodeWord(code, books) && s < n <= |books|
    ensures |Decoded(code, books, n)| == n * width
    ensures SubVector(Decoded(code, books, n), s, n, width) == books[s][code[s]]
  {
    DecodedLength(code, books, width, n);
    DecodedLength(code, books, width, n - 1);
    Slots(s, n, width);
    if s < n - 1 {
      DecodedParts(code, books, width, n - 1, s);
      Slots(s, n - 1, width);
    }
  }

  lemma {:induction false} DecodedLength(code: Code, books: Codebooks, width: nat, n: nat)
    requires Shaped(books, width) && IsCodeWord(code, books) && n <= |books|
    ensures |Decoded(code, books, n)| == n * width
  {
    if n > 0 {
      DecodedLength(code, books, width, n - 1);
      Slots(n - 1, n, width);
    }
  }

  /** A squared distance is the sum of the distances of the front and of what follows it. */
  lemma {:induction false} DistanceSplits(a: Vector, b: Vector, m: nat, sub: Vector, c: Vector, n: nat)
    requires m + n <= |a| && m + n <= |b| && n <= |sub| && n <= |c|
    requires a[m..m + n] == sub[..n] && b[m..m + n] == c[..n]
    ensures PartialDistance(a, b, m + n) == PartialDistance(a, b, m) + PartialDistance(sub, c, n)
  {
    if n > 0 {
      assert a[m..m + n][..n - 1] == a[m..m + n - 1] && sub[..n][..n - 1] == sub[..n - 1];
      assert b[m..m + n][..n - 1] == b[m..m + n - 1] && c[..n][..n - 1] == c[..n - 1];
      DistanceSplits(a, b, m, sub, c, n - 1);
      assert a[m + n - 1] == a[m..m + n][n - 1] && sub[n - 1] == sub[..n][n - 1];
      assert b[m + n - 1] == b[m..m + n][n - 1] && c[n - 1] == c[..n][n - 1];
    }
  }

  lemma {:induction false} SameFrontSameDistance(a: Vector, b: Vector, c: Vector, n: nat)
    requires n <= |a| && n <= |b| && n <= |c| && b[..n] == c[..n]
    ensures PartialDistance(a, b, n) == PartialDistance(a, c, n)
  {
    if n > 0 {
      assert b[..n][..n - 1] == b[..n - 1] && c[..n][..n - 1] == c[..n - 1];
      SameFrontSameDistance(a, b, c, n - 1);
      assert b[n - 1] == b[..n][n - 1] && c[n - 1] == c[..n][n - 1];
    }
  }

  lemma {:induction false} PartsAddUp(v: Vector, code: Code, books: Codebooks, width: nat, n: nat)
    requires Shaped(books, width) && |books| * width <= |v| && IsCodeWord(code, books) && n <= |books|
    ensures |Decoded(code, books, n)| == n * width <= |v|
    ensures CodeDistance(v, code, books, width, n) == PartialDistance(v, Decoded(code, books, n), n * width)
  {
    DecodedLength(code, books, width, n);
    if n > 0 {
      Slots(n - 1, |books|, width);
      PartsAddUp(v, code, books, width, n - 1);
      var sub, c := SubVector(v, n - 1, |books|, width), books[n - 1][code[n - 1]];
      var d, e := Decoded(code, books, n), Decoded(code, books, n - 1);
      var m := (n - 1) * width;
      assert d[m..m + width] == c && c[..width] == c && sub[..width] == sub && d[..m] == e == e[..m];
      DistanceSplits(v, d, m, sub, c, width);
      SameFrontSameDistance(v, d, e, m);
    } else {
      assert n * width == 0;
    }
  }

  /** Main result: the distance between a vector and a code is that between the vector and the decoded code. */
  lemma DistanceIsToDecoded(v: Vector, code: Code, books: Codebooks, width: nat)
    requires Shaped(books, width) && |v| == |books| * width && IsCodeWord(code, books)
    ensures |Decoded(code, books, |books|)| == |v|
    ensures CodeDistance(v, code, books, width, |books|) == SquaredDistance(v, Decoded(code, books, |books|))
  {
    PartsAddUp(v, code, books, width, |books|);
  }

  lemma {:induction false} SameCentroidsSameVector(code: Code, other: Code, books: Codebooks, n: nat)
    requires IsCodeWord(code, books) && IsCodeWord(other, books) && n <= |books|
    requires forall s :: 0 <= s < n ==> books[s][code[s]] == books[s][other[s]]
    ensures Decoded(code, books, n) == Decoded(other, books, n)
  {
    if n > 0 {
      SameCentroidsSameVector(code, other, books, n - 1);
    }
  }

  /** Main result: a decoded vector survives being encoded and decoded again. */
  lemma DecodeEncodeDecode(code: Code, again: Code, books: Codebooks, width: nat)
    requires Shaped(books, width) && IsCodeWord(code, books) && IsCodeWord(again, books)
    requires |Decoded(code, books, |books|)| == |books| * width
    requires Nearest(Decoded(code, books, |books|), again, books, width)
    ensures Decoded(again, books, |books|) == Decoded(code, books, |books|)
  {
    var v := Decoded(code, books, |books|);
    forall s | 0 <= s < |books|
      ensures books[s][code[s]] == books[s][again[s]]
    {
      DecodedParts(code, books, width, |books|, s);
      var c, d := books[s][code[s]], books[s][again[s]];
      assert NamesNearest(SubVector(v, s, |books|, width), books[s], again[s]);
      ZeroDistance(c, c, width);
      ZeroDistance(c, d, width);
      assert c[..width] == c && d[..width] == d;
    }
    SameCentroidsSameVector(code, again, books, |books|);
  }
}
