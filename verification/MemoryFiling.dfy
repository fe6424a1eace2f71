/**
 Under which buckets a memory is kept, pkg/store/memory.go. The keys of a memory name its bucket and its ID, and
 mem:id names the one bucket in which the ID is looked up. Saving an ID again under another bucket redirects the look-up
 and leaves what the first bucket keeps where it is.
 */
module MemoryFiling {
  import opened Wrappers
  import opened MemoryFts
  import opened MemoryVectors
  import opened VectorCodec

  /** The slots under which a record, a text, a vector or an index entry is kept, and where IDs are looked up. */
  datatype Filing = Filing(held: set<Slot>, bucketOf: map<string, string>)

  ghost function IndexSlots(ix: Indexes): (slots: set<Slot>)
    ensures forall slot :: slot in slots <==> InIndex(ix, slot)
  {
    set b, id | b in ix && id in ix[b] :: Slot(b, id)
  }

  ghost function Held(records: set<Slot>, content: map<Slot, string>, vec: map<Slot, Bytes>, ix: Indexes): set<Slot> {
    records + content.Keys + vec.Keys + IndexSlots(ix)
  }

  /** Saving a memory keeps its slot beside those that were held. */
  lemma IsSaved(records: set<Slot>, content: map<Slot, string>, vec: map<Slot, Bytes>, ix: Indexes,
                slot: Slot, text: string, v: Vector,
                records': set<Slot>, content': map<Slot, string>, vec': map<Slot, Bytes>, ix': Indexes)
    requires records' == records + {slot} && content' == content[slot := text]
    requires vec' == (if v == [] then vec else vec[slot := Encode(v)]) && ix' == Upserted(ix, slot, v)
    ensures Held(records', content', vec', ix') == Held(records, content, vec, ix) + {slot}
  {
  }

  /** An update writes only where a record is. */
  lemma IsUpdated(records: set<Slot>, content: map<Slot, string>, vec: map<Slot, Bytes>, ix: Indexes,
                  slot: Slot, text: Option<string>, v: Option<Vector>,
                  content': map<Slot, string>, vec': map<Slot, Bytes>, ix': Indexes)
    requires slot in records
    requires content' == if text.Some? then content[slot := text.value] else content
    requires v.None? ==> vec' == vec && ix' == ix
    requires v.Some? ==> vec' == vec[slot := Encode(v.value)] && ix' == Upserted(ix, slot, v.value)
    ensures Held(records, content', vec', ix') == Held(records, content, vec, ix)
  {
  }

  lemma DeletingHolds(records: set<Slot>, content: map<Slot, string>, vec: map<Slot, Bytes>, ix: Indexes, slot: Slot)
    ensures Held(records - {slot}, content - {slot}, vec - {slot}, Dropped(ix, slot))
         == Held(records, content, vec, ix) - {slot}
  {
  }

  // ----- Runs of saves and deletions -----

  datatype Change = Save(slot: Slot) | Delete(id: string)

  function After(f: Filing, c: Change): Filing {
    match c
    case Save(slot) => Filing(f.held + {slot}, f.bucketOf[slot.id := slot.bucket])
    case Delete(id) =>
      if id in f.bucketOf then Filing(f.held - {Slot(f.bucketOf[id], id)}, f.bucketOf - {id}) else f
  }

  function AfterAll(f: Filing, changes: seq<Change>): Filing {
    if changes == [] then f else After(AfterAll(f, changes[..|changes| - 1]), changes[|changes| - 1])
  }

  /** The slot is where the ID is looked up. */
  predicate LookedUp(f: Filing, slot: Slot) {
    slot.id in f.bucketOf && f.bucketOf[slot.id] == slot.bucket
  }

  /** Everything that is kept for the ID is where it is looked up. */
  ghost predicate InOneBucket(f: Filing, id: string) {
    forall slot :: slot in f.held && slot.id == id ==> LookedUp(f, slot)
  }

  ghost predicate Gone(f: Filing, id: string) {
    forall slot :: slot in f.held ==> slot.id != id
  }

  /** Main result: after a deletion the ID is gone from every bucket exactly when all that was kept for it was where it
      was looked up. */
  lemma DeletedEverywhereExactly(f: Filing, id: string)
    ensures Gone(After(f, Delete(id)), id) <==> InOneBucket(f, id)
  {
    var g := After(f, Delete(id));
    if slot :| slot in f.held && slot.id == id && !LookedUp(f, slot) {
      assert slot in g.held;
    }
  }

  /** A save keeps an ID in one bucket exactly when nothing is kept for it under another one; it does not touch other
      IDs. */
  lemma SavedInOneBucketExactly(f: Filing, slot: Slot, id: string)
    ensures InOneBucket(After(f, Save(slot)), id) <==>
            if id == slot.id then forall other :: other in f.held && other.id == id ==> other.bucket == slot.bucket
            else InOneBucket(f, id)
  {
    var g := After(f, Save(slot));
    forall other | other in f.held
      ensures other in g.held
    {
    }
    if id != slot.id {
      assert forall other :: other in g.held && other.id == id ==> other in f.held;
      assert forall other: Slot :: other.id == id ==> (LookedUp(g, other) <==> LookedUp(f, other));
    }
  }

  /** Main result: what is left behind under another bucket stays there: no later save of other slots and no deletion at
      all removes it, or brings the look-up back to it. */
  lemma {:induction false} LeftBehindStays(f: Filing, changes: seq<Change>, slot: Slot)
    requires slot in f.held && !LookedUp(f, slot) && Save(slot) !in changes
    ensures slot in AfterAll(f, changes).held && !LookedUp(AfterAll(f, changes), slot)
    decreases |changes|
  {
    if changes != [] {
      LeftBehindStays(f, changes[..|changes| - 1], slot);
      assert changes[|changes| - 1] in changes;
    }
  }

  /** Two saves of one ID do leave something behind, and deleting the ID does not remove it. */
  lemma SecondBucketOrphansFirst(a: string, b: string, id: string)
    requires a != b
    ensures
      var f := AfterAll(Filing({}, map[]), [Save(Slot(a, id)), Save(Slot(b, id)), Delete(id)]);
      f.held == {Slot(a, id)} && f.bucketOf == map[]
  {
    var f0, c0, c1, c2 := Filing({}, map[]), Save(Slot(a, id)), Save(Slot(b, id)), Delete(id);
    assert [c0][..0] == [] && [c0, c1][..1] == [c0] && [c0, c1, c2][..2] == [c0, c1];
    assert AfterAll(f0, [c0]) == After(f0, c0);
    assert AfterAll(f0, [c0, c1]) == After(After(f0, c0), c1);
    assert AfterAll(f0, [c0, c1, c2]) == After(After(After(f0, c0), c1), c2);
  }
}
