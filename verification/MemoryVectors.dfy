/**
 The two places a memory's vector is kept: its bytes under mem:vec in the store, and the flat index of its bucket.
 */
module MemoryVectors {
  import opened MachineInts
  import opened MemoryFts
  import opened VectorCodec

  /** For each bucket the vectors of its index. */
  type Indexes = map<string, map<string, Vector>>

  ghost predicate InIndex(ix: Indexes, slot: Slot) {
    slot.bucket in ix && slot.id in ix[slot.bucket]
  }

  ghost predicate AgreesAt(vec: map<Slot, Bytes>, ix: Indexes, slot: Slot) {
    && (slot in vec <==> InIndex(ix, slot))
    && (slot in vec && InIndex(ix, slot) ==>
          ix[slot.bucket][slot.id] != [] && Decode(vec[slot]) == Vec(ix[slot.bucket][slot.id]))
  }

  /** The indexes hold exactly the stored vectors, none of them empty. */
  ghost predicate Agree(vec: map<Slot, Bytes>, ix: Indexes) {
    forall slot :: AgreesAt(vec, ix, slot)
  }

  function Bucket(ix: Indexes, bucket: string): map<string, Vector> {
    if bucket in ix then ix[bucket] else map[]
  }

  /** An upsert ignores the empty vector. */
  function Upserted(ix: Indexes, slot: Slot, v: Vector): Indexes {
    if v == [] then ix else ix[slot.bucket := Bucket(ix, slot.bucket)[slot.id := v]]
  }

  function Dropped(ix: Indexes, slot: Slot): Indexes {
    if slot.bucket in ix then ix[slot.bucket := ix[slot.bucket] - {slot.id}] else ix
  }

  /** Main result: storing a vector and upserting it keeps store and index in agreement exactly when the vector is not
      empty and its length fits into 32 bits. */
  lemma PutAgreesExactly(vec: map<Slot, Bytes>, ix: Indexes, slot: Slot, v: Vector)
    requires Agree(vec, ix)
    ensures Agree(vec[slot := Encode(v)], Upserted(ix, slot, v)) <==> 0 < |v| < TWO_TO_THE_32
  {
    var vec', ix' := vec[slot := Encode(v)], Upserted(ix, slot, v);
    RoundTripExactly(v);
    DecodeOfEncode(v);
    assert AgreesAt(vec, ix, slot);
    if 0 < |v| < TWO_TO_THE_32 {
      forall other
        ensures AgreesAt(vec', ix', other)
      {
        assert AgreesAt(vec, ix, other);
      }
    } else {
      assert !AgreesAt(vec', ix', slot);
    }
  }

  lemma DropKeepsAgree(vec: map<Slot, Bytes>, ix: Indexes, slot: Slot)
    requires Agree(vec, ix)
    ensures Agree(vec - {slot}, Dropped(ix, slot))
  {
    forall other
      ensures AgreesAt(vec - {slot}, Dropped(ix, slot), other)
    {
      assert AgreesAt(vec, ix, other);
    }
  }

  // ----- The vectors of a bucket, read from the store -----

  function VectorOf(d: Decoded): Vector {
    if d.Vec? then d.v else []
  }

  ghost function BucketIds(vec: map<Slot, Bytes>, bucket: string): set<string> {
    set slot | slot in vec && slot.bucket == bucket :: slot.id
  }

  /** readMemoryVectors: every stored vector of the bucket, decoded. */
  ghost function Stored(vec: map<Slot, Bytes>, bucket: string): map<string, Vector> {
    map id | id in BucketIds(vec, bucket) :: VectorOf(Decode(vec[Slot(bucket, id)]))
  }

  /** Some record of the bucket is too short for the length it states. */
  ghost predicate Truncated(vec: map<Slot, Bytes>, bucket: string) {
    exists slot :: slot in vec && slot.bucket == bucket && Decode(vec[slot]).Crash?
  }

  lemma AgreementIsWhole(vec: map<Slot, Bytes>, ix: Indexes, bucket: string)
    requires Agree(vec, ix)
    ensures !Truncated(vec, bucket)
  {
    forall slot | slot in vec
      ensures !Decode(vec[slot]).Crash?
    {
      assert AgreesAt(vec, ix, slot);
    }
  }

  lemma StoredIsIndexed(vec: map<Slot, Bytes>, ix: Indexes, bucket: string)
    requires Agree(vec, ix)
    ensures Stored(vec, bucket) == Bucket(ix, bucket)
  {
    forall id
      ensures id in Stored(vec, bucket) <==> id in Bucket(ix, bucket)
      ensures id in Stored(vec, bucket) && id in Bucket(ix, bucket) ==>
                Stored(vec, bucket)[id] == Bucket(ix, bucket)[id]
    {
      assert AgreesAt(vec, ix, Slot(bucket, id));
      assert id in BucketIds(vec, bucket) <==> Slot(bucket, id) in vec;
    }
  }
}
