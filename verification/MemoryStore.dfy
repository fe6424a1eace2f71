/**
 pkg/store/memory.go and the second way to delete a memory in pkg/store/store.go: saving, updating, deleting and the
 vector search. Keys of the store are tuples; the metadata of a memory is left out, so records only says which exist.
 */
module MemoryStore {
  import opened Wrappers
  import opened MachineInts
  import opened Scans
  import opened Ranking
  import opened FlatIndex
  import opened VectorCodec
  import opened MemoryFts
  import opened MemoryVectors
  import opened MemoryFiling
  import Text

  datatype Deletion = Deleted | NotFound | KeyNotFound

  ghost function PositiveOnly(hits: seq<Hit>): seq<Hit> {
    if hits == [] then []
    else PositiveOnly(hits[..|hits| - 1]) + if hits[|hits| - 1].score > 0.0 then [hits[|hits| - 1]] else []
  }

  lemma {:induction false} PositiveOnlyHas(hits: seq<Hit>)
    ensures forall h :: h in PositiveOnly(hits) <==> h in hits && h.score > 0.0
    ensures Distinct(hits) ==> Distinct(PositiveOnly(hits))
  {
    if hits != [] {
      var front, last := hits[..|hits| - 1], hits[|hits| - 1];
      PositiveOnlyHas(front);
      assert hits == front + [last];
      assert Distinct(hits) ==> last !in front;
    }
  }

  /** In a ranking the hits with a positive score come first. */
  lemma {:induction false} PositiveOnlyOfRanking(r: seq<Hit>)
    requires Descending(r)
    ensures PositiveOnly(r) == r[..PositiveCount(r)]
  {
    if r != [] {
      var n, front, last := PositiveCount(r), r[..|r| - 1], r[|r| - 1];
      PositiveOnlyOfRanking(front);
      CountOfFront(r);
      if last.score > 0.0 {
        assert n == |r|;
      }
    }
  }

  lemma CountIsUnique(r: seq<Hit>, n: nat)
    requires n <= |r| && (forall i :: 0 <= i < n ==> r[i].score > 0.0) && (n < |r| ==> r[n].score <= 0.0)
    ensures PositiveCount(r) == n
  {
  }

  lemma CountOfFront(r: seq<Hit>)
    requires r != [] && Descending(r)
    ensures
      var front, last := r[..|r| - 1], r[|r| - 1];
      PositiveCount(front) == if last.score > 0.0 then |r| - 1 else PositiveCount(r)
  {
    var front, last := r[..|r| - 1], r[|r| - 1];
    assert forall i :: 0 <= i < |front| ==> front[i] == r[i] && front[i].score >= last.score;
    CountIsUnique(front, if last.score > 0.0 then |r| - 1 else PositiveCount(r));
  }

  method KeepPositive(hits: seq<Hit>) returns (r: seq<Hit>)
    ensures r == PositiveOnly(hits)
  {
    r := [];
    for i := 0 to |hits|
      invariant r == PositiveOnly(hits[..i])
    {
      assert hits[..i + 1][..i] == hits[..i];
      if hits[i].score > 0.0 {
        r := r + [hits[i]];
      }
    }
    assert hits[..|hits|] == hits;
  }

  class Store {
    const words: string -> Counts // countRawTokens
    const expand: string -> seq<string> // expandSynonyms
    const similarity: (Vector, Vector) -> real
    var records: set<Slot>
    var content: map<Slot, string>
    var vec: map<Slot, Bytes>
    var fts: Fts
    var bucketOf: map<string, string>
    var indexes: map<string, Flat<Vector>>

    ghost predicate HasCounts(slot: Slot, text: string)
      reads this`fts
    {
      exists counts :: Counted(words(text).Keys, words(text), expand, counts) && IndexedAt(fts, slot, counts)
    }

    ghost predicate TermsAt(slot: Slot)
      reads this`fts, this`content
    {
      if slot in content then HasCounts(slot, content[slot]) else IndexedAt(fts, slot, map[])
    }

    /** The word index holds exactly the capped term counts of the stored texts. */
    ghost predicate TermsAgree()
      reads this`fts, this`content
    {
      forall slot :: TermsAt(slot)
    }

    ghost function Indexes(): set<Flat<Vector>>
      reads this`indexes
    {
      set b | b in indexes :: indexes[b]
    }

    /** Buckets do not share an index. */
    ghost predicate Separate()
      reads this`indexes
    {
      && (forall b :: b in indexes ==> indexes[b].similarity == similarity)
      && forall a, b :: a in indexes && b in indexes && a != b ==> indexes[a] != indexes[b]
    }

    ghost function Contents(): MemoryVectors.Indexes
      reads this`indexes, Indexes()
    {
      map b | b in indexes :: indexes[b].vectors
    }

    constructor (words: string -> Counts, expand: string -> seq<string>, similarity: (Vector, Vector) -> real)
      ensures Separate() && TermsAgree() && Agree(vec, Contents()) && Located()
      ensures this.words == words && this.expand == expand && this.similarity == similarity
      ensures content == map[] && vec == map[] && bucketOf == map[] && indexes == map[]
    {
      this.words, this.expand, this.similarity := words, expand, similarity;
      records, content, vec, fts, bucketOf, indexes := {}, map[], map[], map[], map[], map[];
    }

    /** Every ID that can be looked up has a record and a text. */
    ghost predicate Located()
      reads this`bucketOf, this`records, this`content
    {
      forall id :: id in bucketOf ==> Slot(bucketOf[id], id) in records && Slot(bucketOf[id], id) in content
    }

    // ----- The steps of the operations -----

    method SetText(slot: Slot, text: string)
      requires TermsAgree()
      modifies this`content, this`fts
      ensures content == old(content)[slot := text] && TermsAgree()
    {
      var counts;
      fts, counts := Reindex(fts, slot, words(text), expand);
      content := content[slot := text];
      forall other
        ensures TermsAt(other)
      {
        assert old(TermsAt(other));
        if other != slot {
          KeepsTerms(old(fts), slot, other);
        }
      }
    }

    lemma KeepsTerms(before: Fts, slot: Slot, other: Slot)
      requires SameElsewhere(before, fts, slot) && other != slot
      ensures forall counts :: IndexedAt(before, other, counts) <==> IndexedAt(fts, other, counts)
    {
      forall counts
        ensures IndexedAt(before, other, counts) <==> IndexedAt(fts, other, counts)
      {
        ElsewhereKeepsIndexed(before, fts, slot, other, counts);
      }
    }

    method DropText(slot: Slot)
      requires TermsAgree()
      modifies this`content, this`fts
      ensures content == old(content) - {slot} && TermsAgree()
    {
      fts := DeleteEntries(fts, slot);
      content := content - {slot};
      forall other
        ensures TermsAt(other)
      {
        assert old(TermsAt(other));
        if other != slot {
          KeepsTerms(old(fts), slot, other);
        }
      }
    }

    /** The index of a bucket, made if it is missing. */
    method IndexFor(bucket: string) returns (idx: Flat<Vector>)
      requires Separate()
      modifies this`indexes
      ensures Separate() && bucket in indexes && idx == indexes[bucket]
      ensures Contents() == old(Contents())[bucket := Bucket(old(Contents()), bucket)]
      ensures fresh(Indexes() - old(Indexes()))
    {
      if bucket !in indexes {
        var made := new Flat(similarity);
        indexes := indexes[bucket := made];
      }
      idx := indexes[bucket];
    }

    method ReplaceVector(slot: Slot, v: Vector)
      requires Separate() && slot.bucket in indexes
      modifies indexes[slot.bucket]
      ensures Contents() == old(Contents())[slot.bucket := old(Contents())[slot.bucket][slot.id := v]]
    {
      ghost var before := Contents();
      var idx := indexes[slot.bucket];
      idx.RemoveVector(slot.id);
      idx.Insert(v, slot.id);
      assert idx.vectors == before[slot.bucket][slot.id := v];
      assert forall b :: b in indexes && b != slot.bucket ==> indexes[b].vectors == before[b];
    }

    method UpsertIndex(slot: Slot, v: Vector)
      requires Separate()
      modifies this`indexes, Indexes()
      ensures Separate() && Contents() == Upserted(old(Contents()), slot, v)
      ensures fresh(Indexes() - old(Indexes()))
    {
      if v == [] {
        return;
      }
      var idx := IndexFor(slot.bucket);
      ReplaceVector(slot, v);
    }

    method DropFromIndex(slot: Slot)
      requires Separate()
      modifies Indexes()
      ensures Separate() && Contents() == Dropped(old(Contents()), slot)
    {
      if slot.bucket in indexes {
        var idx := indexes[slot.bucket];
        idx.RemoveVector(slot.id);
      }
    }

    // ----- Saving, updating, deleting -----

    /** What holds after every run of saves, updates and deletions. */
    ghost predicate Valid()
      reads this, Indexes()
    {
      Separate() && TermsAgree() && Located()
    }

    ghost predicate VectorsAgree()
      reads this, Indexes()
    {
      Agree(vec, Contents())
    }

    ghost function Filed(): Filing
      reads this, Indexes()
    {
      Filing(Held(records, content, vec, Contents()), bucketOf)
    }

    method SetVector(slot: Slot, v: Vector)
      modifies this`vec
      ensures vec == old(vec)[slot := Encode(v)]
    {
      var data := VectorToBytes(v);
      vec := vec[slot := data[..]];
    }

    /** Writes the vector of a memory and upserts it into the index of its bucket. */
    method StoreVector(slot: Slot, v: Vector)
      requires Separate()
      modifies this`vec, this`indexes, Indexes()
      ensures Separate() && vec == old(vec)[slot := Encode(v)] && Contents() == Upserted(old(Contents()), slot, v)
      ensures old(VectorsAgree()) ==> (VectorsAgree() <==> 0 < |v| < TWO_TO_THE_32)
    {
      hide Agree;
      if VectorsAgree() {
        PutAgreesExactly(vec, Contents(), slot, v);
      }
      SetVector(slot, v);
      UpsertIndex(slot, v);
    }

    /** Writes the record and the text of a memory and files its ID. */
    method StoreText(bucket: string, id: string, text: string)
      requires TermsAgree()
      modifies this`records, this`content, this`fts, this`bucketOf
      ensures TermsAgree() && (old(Located()) ==> Located())
      ensures records == old(records) + {Slot(bucket, id)} && content == old(content)[Slot(bucket, id) := text]
      ensures bucketOf == old(bucketOf)[id := bucket]
    {
      records := records + {Slot(bucket, id)};
      SetText(Slot(bucket, id), text);
      bucketOf := bucketOf[id := bucket];
    }

    /** Writes everything that is kept for a new memory. */
    method StoreSlot(slot: Slot, text: string, v: Vector)
      requires Valid()
      modifies this, Indexes()
      ensures Valid() && bucketOf == old(bucketOf)[slot.id := slot.bucket]
      ensures records == old(records) + {slot} && content == old(content)[slot := text]
      ensures vec == if v == [] then old(vec) else old(vec)[slot := Encode(v)]
      ensures Contents() == Upserted(old(Contents()), slot, v)
      ensures old(VectorsAgree()) ==> (VectorsAgree() <==> |v| < TWO_TO_THE_32)
    {
      StoreText(slot.bucket, slot.id, text);
      if v != [] {
        StoreVector(slot, v);
      }
    }

    /** Saves a memory under an ID; the empty vector stands for none. */
    method SaveMemory(bucket: string, id: string, text: string, v: Vector) returns (ok: bool)
      requires Valid()
      modifies this, Indexes()
      ensures Valid() && (ok <==> Text.TrimSpace(text) != "")
      ensures !ok ==> records == old(records) && content == old(content) && vec == old(vec) && bucketOf == old(bucketOf)
                      && Contents() == old(Contents())
      ensures ok ==> records == old(records) + {Slot(bucket, id)} && content == old(content)[Slot(bucket, id) := text]
                     && bucketOf == old(bucketOf)[id := bucket]
      ensures ok ==> vec == (if v == [] then old(vec) else old(vec)[Slot(bucket, id) := Encode(v)])
                     && Contents() == Upserted(old(Contents()), Slot(bucket, id), v)
      ensures ok && old(VectorsAgree()) ==> (VectorsAgree() <==> |v| < TWO_TO_THE_32)
      ensures ok ==> Filed() == After(old(Filed()), Save(Slot(bucket, id)))
    {
      if Text.TrimSpace(text) == "" {
        return false;
      }
      var slot := Slot(bucket, id);
      StoreSlot(slot, text, v);
      IsSaved(old(records), old(content), old(vec), old(Contents()), slot, text, v, records, content, vec, Contents());
      return true;
    }

    /** Writes the given text, vector or both. */
    method UpdateSlot(slot: Slot, text: Option<string>, v: Option<Vector>)
      requires Valid()
      modifies this`content, this`fts, this`vec, this`indexes, Indexes()
      ensures Valid()
      ensures content == if text.Some? then old(content)[slot := text.value] else old(content)
      ensures v.None? ==> vec == old(vec) && Contents() == old(Contents())
      ensures v.Some? ==>
                vec == old(vec)[slot := Encode(v.value)] && Contents() == Upserted(old(Contents()), slot, v.value)
      ensures v.Some? && old(VectorsAgree()) ==> (VectorsAgree() <==> 0 < |v.value| < TWO_TO_THE_32)
    {
      if text.Some? {
        SetText(slot, text.value);
      }
      if v.Some? {
        StoreVector(slot, v.value);
      }
    }

    /** Changes the text, the vector or both of a memory. */
    method UpdateMemory(id: string, text: Option<string>, v: Option<Vector>) returns (ok: bool)
      requires Valid()
      modifies this, Indexes()
      ensures Valid() && (ok <==> id in old(bucketOf))
      ensures records == old(records) && bucketOf == old(bucketOf)
      ensures !ok ==> content == old(content) && vec == old(vec) && Contents() == old(Contents())
      ensures ok ==>
                content == (if text.Some? then old(content)[Slot(bucketOf[id], id) := text.value] else old(content))
      ensures ok && v.None? ==> vec == old(vec) && Contents() == old(Contents())
      ensures ok && v.Some? ==> vec == old(vec)[Slot(bucketOf[id], id) := Encode(v.value)]
                                && Contents() == Upserted(old(Contents()), Slot(bucketOf[id], id), v.value)
      ensures ok && v.Some? && old(VectorsAgree()) ==> (VectorsAgree() <==> 0 < |v.value| < TWO_TO_THE_32)
      ensures Filed() == old(Filed())
    {
      if id !in bucketOf || Slot(bucketOf[id], id) !in records {
        return false;
      }
      hide TermsAgree, Agree;
      var slot := Slot(bucketOf[id], id);
      UpdateSlot(slot, text, v);
      IsUpdated(records, old(content), old(vec), old(Contents()), slot, text, v, content, vec, Contents());
      return true;
    }

    /** Everything kept for a memory under its ID. */
    method DeleteKeys(id: string)
      requires Valid() && id in bucketOf
      modifies this
      ensures Valid() && bucketOf == old(bucketOf) - {id}
      ensures records == old(records) - {Slot(old(bucketOf)[id], id)}
              && content == old(content) - {Slot(old(bucketOf)[id], id)}
      ensures vec == old(vec) - {Slot(old(bucketOf)[id], id)} && indexes == old(indexes)
    {
      var slot := Slot(bucketOf[id], id);
      records := records - {slot};
      vec := vec - {slot};
      bucketOf := bucketOf - {id};
      DropText(slot);
    }

    method DeleteMemory(id: string) returns (r: Deletion)
      requires Valid()
      modifies this, Indexes()
      ensures Valid() && r == if id in old(bucketOf) then Deleted else NotFound
      ensures bucketOf == old(bucketOf) - {id}
      ensures r.NotFound? ==> records == old(records) && content == old(content) && vec == old(vec)
      ensures r.NotFound? ==> Contents() == old(Contents())
      ensures r.Deleted? ==>
                var slot := Slot(old(bucketOf)[id], id);
                && records == old(records) - {slot} && content == old(content) - {slot}
                && vec == old(vec) - {slot} && Contents() == Dropped(old(Contents()), slot)
      ensures old(VectorsAgree()) ==> VectorsAgree()
      ensures Filed() == After(old(Filed()), Delete(id))
    {
      hide Located, TermsAgree, Agree;
      if id !in bucketOf {
        assert bucketOf == bucketOf - {id};
        return NotFound;
      }
      var slot := Slot(bucketOf[id], id);
      DeleteKeys(id);
      DropFromIndex(slot);
      DeletingHolds(old(records), old(content), old(vec), old(Contents()), slot);
      if old(VectorsAgree()) {
        DropKeepsAgree(old(vec), old(Contents()), slot);
      }
      return Deleted;
    }

    /** The deletion of the cleanup goroutine: the same, but for the error when there is nothing to delete. */
    method DeleteMemoryDirect(id: string) returns (r: Deletion)
      requires Valid()
      modifies this, Indexes()
      ensures Valid() && r == if id in old(bucketOf) then Deleted else KeyNotFound
      ensures bucketOf == old(bucketOf) - {id}
      ensures r.KeyNotFound? ==> records == old(records) && content == old(content) && vec == old(vec)
      ensures r.KeyNotFound? ==> Contents() == old(Contents())
      ensures r.Deleted? ==>
                var slot := Slot(old(bucketOf)[id], id);
                && records == old(records) - {slot} && content == old(content) - {slot}
                && vec == old(vec) - {slot} && Contents() == Dropped(old(Contents()), slot)
      ensures old(VectorsAgree()) ==> VectorsAgree()
      ensures Filed() == After(old(Filed()), Delete(id))
    {
      hide Located, TermsAgree, Agree;
      if id !in bucketOf {
        assert bucketOf == bucketOf - {id};
        return KeyNotFound;
      }
      var slot := Slot(bucketOf[id], id);
      DeleteKeys(id);
      DropFromIndex(slot);
      DeletingHolds(old(records), old(content), old(vec), old(Contents()), slot);
      if old(VectorsAgree()) {
        DropKeepsAgree(old(vec), old(Contents()), slot);
      }
      return Deleted;
    }

    // ----- Searching vectors -----

    /** Reading a truncated record indexes past its end, which nothing catches: None stands for this. */
    method ReadMemoryVectors(bucket: string) returns (vectors: Option<map<string, Vector>>)
      ensures vectors.None? <==> Truncated(vec, bucket)
      ensures vectors.Some? ==> vectors.value == Stored(vec, bucket)
    {
      var found: map<string, Vector> := map[];
      var rest := vec.Keys;
      while rest != {}
        invariant rest <= vec.Keys
        invariant forall slot :: slot in vec && slot !in rest && slot.bucket == bucket ==> !Decode(vec[slot]).Crash?
        invariant forall id :: id in found <==> Slot(bucket, id) in vec && Slot(bucket, id) !in rest
        invariant forall id :: id in found ==>
                    Slot(bucket, id) in vec && found[id] == VectorOf(Decode(vec[Slot(bucket, id)]))
      {
        var slot :| slot in rest;
        if slot.bucket == bucket {
          var d := BytesToVector(vec[slot]);
          if d.Crash? {
            return None;
          }
          found := found[slot.id := VectorOf(d)];
        }
        rest := rest - {slot};
      }
      assert forall id :: id in BucketIds(vec, bucket) <==> Slot(bucket, id) in vec;
      return Some(found);
    }

    /** Hits that can be found: the stored vectors of the bucket with a positive score. */
    ghost function Findable(bucket: string, query: Vector): set<Hit>
      reads this`vec
    {
      Positive(Hits(Stored(vec, bucket), similarity, query))
    }

    method ScanVectors(bucket: string, query: Vector, k: nat) returns (r: Option<seq<Hit>>)
      ensures r.None? <==> Truncated(vec, bucket)
      ensures r.Some? ==> IsTopK(Findable(bucket, query), k, r.value)
    {
      var vectors := ReadMemoryVectors(bucket);
      if vectors.None? {
        return None;
      }
      var ids := Listing(vectors.value.Keys);
      var hits := Score(vectors.value, similarity, query, ids);
      PositiveOnlyHas(hits);
      var pairs := KeepPositive(hits);
      assert (set h | h in pairs) == Findable(bucket, query);
      var ranked := SortAndCut(pairs, k);
      return Some(ranked);
    }

    /** The hits that a search ranks: those of the index of the bucket, unless it is missing or empty. */
    ghost function Searched(bucket: string, query: Vector): set<Hit>
      reads this, Indexes()
    {
      if Bucket(Contents(), bucket) != map[] then Positive(Hits(Bucket(Contents(), bucket), similarity, query))
      else Findable(bucket, query)
    }

    method SearchIndex(idx: Flat<Vector>, query: Vector, k: nat) returns (r: seq<Hit>)
      ensures IsTopK(Positive(Hits(idx.vectors, idx.similarity, query)), k, r)
    {
      var raw := idx.Search(query, k);
      PositivesOfTopK(Hits(idx.vectors, idx.similarity, query), k, raw);
      PositiveOnlyOfRanking(raw);
      r := KeepPositive(raw);
    }

    lemma AgreementFinds(bucket: string, query: Vector)
      requires VectorsAgree()
      ensures Searched(bucket, query) == Findable(bucket, query) && !Truncated(vec, bucket)
    {
      StoredIsIndexed(vec, Contents(), bucket);
      AgreementIsWhole(vec, Contents(), bucket);
    }

    /** Main result: the search ranks the vectors of the index with a positive score; if there are none it scans the
        store, and only then a truncated record can crash it. Where store and index agree, both show the same scores:
        those of the stored vectors. */
    method SearchMemoryVectors(bucket: string, query: Vector, topK: int) returns (r: Option<seq<Hit>>)
      requires Separate()
      ensures r.None? <==> Bucket(Contents(), bucket) == map[] && Truncated(vec, bucket)
      ensures r.Some? ==> IsTopK(Searched(bucket, query), if topK <= 0 then 5 else topK, r.value)
      ensures bucket in indexes && indexes[bucket].vectors != map[] ==>
                var hits := Positive(Hits(indexes[bucket].vectors, similarity, query));
                r.Some? && IsTopK(hits, if topK <= 0 then 5 else topK, r.value)
      ensures r.Some? && !(bucket in indexes && indexes[bucket].vectors != map[]) ==>
                IsTopK(Findable(bucket, query), if topK <= 0 then 5 else topK, r.value)
      ensures VectorsAgree() ==> r.Some? && IsTopK(Findable(bucket, query), if topK <= 0 then 5 else topK, r.value)
    {
      var k := if topK <= 0 then 5 else topK;
      var n := 0;
      if bucket in indexes {
        n := indexes[bucket].Len();
      }
      assert n > 0 <==> Bucket(Contents(), bucket) != map[];
      if n > 0 {
        var ranked := SearchIndex(indexes[bucket], query, k);
        r := Some(ranked);
      } else {
        r := ScanVectors(bucket, query, k);
      }
      if VectorsAgree() {
        AgreementFinds(bucket, query);
      }
    }
  }
}
