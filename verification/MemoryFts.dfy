/**
 The word index of the memories, pkg/store/memory.go: for each term and memory the number of times the term, or a word
 it is a synonym of, occurs in the memory's text, cut to one byte.

 Splitting a text into words and finding synonyms are parameters: raw holds the words of a text with their counts,
 expand gives the terms a word is indexed under.
 */
module MemoryFts {
  import opened MachineInts
  import opened Scans

  /** Where a memory is stored. */
  datatype Slot = Slot(bucket: string, id: string)
  datatype FtsKey = FtsKey(term: string, slot: Slot)

  type Counts = map<string, nat>
  type Fts = map<FtsKey, uint8>

  function Get(counts: Counts, term: string): nat {
    if term in counts then counts[term] else 0
  }

  // ----- Counting terms -----

  ghost function Occurrences(terms: seq<string>, term: string): nat {
    if terms == [] then 0 else Occurrences(terms[..|terms| - 1], term) + if terms[|terms| - 1] == term then 1 else 0
  }

  /** The number of times a term is counted for the words: once for each occurrence of each word it is indexed under. */
  ghost function TermCount(words: set<string>, raw: Counts, expand: string -> seq<string>, term: string): nat {
    if words == {} then 0
    else
      var w :| w in words;
      Get(raw, w) * Occurrences(expand(w), term) + TermCount(words - {w}, raw, expand, term)
  }

  lemma {:induction false} TermCountWith(words: set<string>, raw: Counts, expand: string -> seq<string>, term: string,
                                         x: string)
    requires x in words
    ensures TermCount(words, raw, expand, term) ==
      Get(raw, x) * Occurrences(expand(x), term) + TermCount(words - {x}, raw, expand, term)
    decreases |words|
  {
    var w :| w in words && TermCount(words, raw, expand, term) ==
      Get(raw, w) * Occurrences(expand(w), term) + TermCount(words - {w}, raw, expand, term);
    if w != x {
      TermCountWith(words - {w}, raw, expand, term, x);
      TermCountWith(words - {x}, raw, expand, term, w);
      assert words - {w} - {x} == words - {x} - {w};
    }
  }

  /** A term occurs in a list as often as it is listed. */
  lemma {:induction false} OccurrencesExactly(terms: seq<string>, term: string)
    ensures Occurrences(terms, term) == multiset(terms)[term]
    decreases |terms|
  {
    if terms != [] {
      var front, last := terms[..|terms| - 1], terms[|terms| - 1];
      OccurrencesExactly(front, term);
      assert terms == front + [last];
    }
  }

  /** The count for one word: as often as the text has the word, times how often the word is expanded to the term. */
  lemma CountOfOneWord(w: string, raw: Counts, expand: string -> seq<string>, term: string)
    ensures TermCount({w}, raw, expand, term) ==
            (if w in raw then raw[w] * multiset(expand(w))[term] else 0)
  {
    TermCountWith({w}, raw, expand, term, w);
    OccurrencesExactly(expand(w), term);
    assert {w} - {w} == {};
  }

  /** The counts for different words add up. With the law above this leaves only one way to count. */
  lemma {:induction false} CountsAddUp(a: set<string>, b: set<string>, raw: Counts, expand: string -> seq<string>,
                                       term: string)
    requires a !! b
    ensures TermCount(a + b, raw, expand, term) == TermCount(a, raw, expand, term) + TermCount(b, raw, expand, term)
    decreases a
  {
    if a == {} {
      assert a + b == b;
    } else {
      var w :| w in a;
      TermCountWith(a, raw, expand, term, w);
      TermCountWith(a + b, raw, expand, term, w);
      CountsAddUp(a - {w}, b, raw, expand, term);
      assert a + b - {w} == (a - {w}) + b;
    }
  }

  ghost predicate IsTerm(words: set<string>, expand: string -> seq<string>, term: string) {
    exists w :: w in words && term in expand(w)
  }

  ghost predicate CountedAt(words: set<string>, raw: Counts, expand: string -> seq<string>, counts: Counts,
                            term: string) {
    (term in counts <==> IsTerm(words, expand, term)) && Get(counts, term) == TermCount(words, raw, expand, term)
  }

  /** counts holds exactly the terms of the words, each with its count. */
  ghost predicate Counted(words: set<string>, raw: Counts, expand: string -> seq<string>, counts: Counts) {
    forall term :: CountedAt(words, raw, expand, counts, term)
  }

  /** The counts of a text are determined. */
  lemma CountsUnique(words: set<string>, raw: Counts, expand: string -> seq<string>, a: Counts, b: Counts)
    requires Counted(words, raw, expand, a) && Counted(words, raw, expand, b)
    ensures a == b
  {
    forall term
      ensures (term in a <==> term in b) && Get(a, term) == Get(b, term)
    {
      assert CountedAt(words, raw, expand, a, term) && CountedAt(words, raw, expand, b, term);
    }
    assert forall term :: term in a ==> a[term] == Get(a, term) == Get(b, term) == b[term];
  }

  lemma {:induction false} OccursIfCounted(terms: seq<string>, term: string)
    ensures Occurrences(terms, term) > 0 <==> term in terms
  {
    if terms != [] {
      OccursIfCounted(terms[..|terms| - 1], term);
      assert terms == terms[..|terms| - 1] + [terms[|terms| - 1]];
    }
  }

  /** counts after the first n terms of a word that occurs k times. */
  ghost function Added(counts: Counts, terms: seq<string>, k: nat): Counts {
    if terms == [] then counts
    else
      var before, last := Added(counts, terms[..|terms| - 1], k), terms[|terms| - 1];
      before[last := Get(before, last) + k]
  }

  lemma {:induction false} AddedAt(counts: Counts, terms: seq<string>, k: nat, term: string)
    ensures term in Added(counts, terms, k) <==> term in counts || term in terms
    ensures Get(Added(counts, terms, k), term) == Get(counts, term) + k * Occurrences(terms, term)
  {
    if terms != [] {
      var front, last := terms[..|terms| - 1], terms[|terms| - 1];
      AddedAt(counts, front, k, term);
      assert terms == front + [last];
      assert k * (Occurrences(front, term) + 1) == k * Occurrences(front, term) + k;
    }
  }

  lemma OneMoreWord(words: set<string>, raw: Counts, expand: string -> seq<string>, counts: Counts, w: string)
    requires w !in words && Counted(words, raw, expand, counts)
    ensures Counted(words + {w}, raw, expand, Added(counts, expand(w), Get(raw, w)))
  {
    var after := Added(counts, expand(w), Get(raw, w));
    forall term
      ensures CountedAt(words + {w}, raw, expand, after, term)
    {
      assert CountedAt(words, raw, expand, counts, term);
      AddedAt(counts, expand(w), Get(raw, w), term);
      TermCountWith(words + {w}, raw, expand, term, w);
      assert words + {w} - {w} == words;
      assert IsTerm(words + {w}, expand, term) <==> IsTerm(words, expand, term) || term in expand(w);
    }
  }

  method CountTerms(raw: Counts, expand: string -> seq<string>) returns (counts: Counts)
    ensures Counted(raw.Keys, raw, expand, counts)
  {
    counts := map[];
    var rest := raw.Keys;
    assert raw.Keys - rest == {};
    assert Counted({}, raw, expand, counts);
    hide Counted;
    while rest != {}
      invariant rest <= raw.Keys && Counted(raw.Keys - rest, raw, expand, counts)
    {
      var w :| w in rest;
      var terms := expand(w);
      ghost var before := counts;
      for i := 0 to |terms|
        invariant counts == Added(before, terms[..i], raw[w])
      {
        counts := counts[terms[i] := Get(counts, terms[i]) + raw[w]];
        assert terms[..i + 1][..i] == terms[..i];
      }
      assert terms[..|terms|] == terms;
      OneMoreWord(raw.Keys - rest, raw, expand, before, w);
      assert raw.Keys - (rest - {w}) == raw.Keys - rest + {w};
      rest := rest - {w};
    }
    assert raw.Keys - {} == raw.Keys;
  }

  // ----- The entries of a memory -----

  function Capped(n: nat): uint8 {
    if n > 255 then 255 else n as uint8
  }

  /** One byte holds at most 255. */
  lemma CapExactly(n: nat)
    ensures n <= 255 ==> Capped(n) as nat == n
    ensures n > 255 ==> Capped(n) as nat == 255
  {
  }

  /** The index has exactly the entries of these counts at the slot. */
  ghost predicate IndexedAt(fts: Fts, slot: Slot, counts: Counts) {
    forall term :: EntryAt(fts, slot, counts, term)
  }

  ghost predicate EntryAt(fts: Fts, slot: Slot, counts: Counts, term: string) {
    var k := FtsKey(term, slot);
    (k in fts <==> term in counts) && (k in fts ==> term in counts && fts[k] == Capped(counts[term]))
  }

  /** The entries at other slots are the same. */
  ghost predicate SameElsewhere(before: Fts, after: Fts, slot: Slot) {
    forall k: FtsKey :: k.slot != slot ==> SameEntry(before, after, k)
  }

  ghost predicate SameEntry(before: Fts, after: Fts, k: FtsKey) {
    (k in before <==> k in after) && (k in before && k in after ==> before[k] == after[k])
  }

  lemma ElsewhereKeepsIndexed(before: Fts, after: Fts, slot: Slot, other: Slot, counts: Counts)
    requires SameElsewhere(before, after, slot) && other != slot
    ensures IndexedAt(before, other, counts) <==> IndexedAt(after, other, counts)
  {
    forall term
      ensures EntryAt(before, other, counts, term) <==> EntryAt(after, other, counts, term)
    {
      assert SameEntry(before, after, FtsKey(term, other));
    }
  }

  /** deleteMemoryFTSEntries: collects the keys that end in the slot, then deletes them. */
  method DeleteEntries(fts: Fts, slot: Slot) returns (after: Fts)
    ensures IndexedAt(after, slot, map[]) && SameElsewhere(fts, after, slot)
  {
    var keys := Listing(fts.Keys);
    var toDelete: set<FtsKey> := {};
    for i := 0 to |keys|
      invariant forall k :: k in toDelete <==> k in keys[..i] && k.slot == slot
    {
      if keys[i].slot == slot {
        toDelete := toDelete + {keys[i]};
      }
    }
    assert keys[..|keys|] == keys;
    after := fts;
    var rest := toDelete;
    while rest != {}
      invariant rest <= toDelete && after == fts - (toDelete - rest)
    {
      var k :| k in rest;
      after := after - {k};
      rest := rest - {k};
    }
    assert after == fts - toDelete;
    forall term
      ensures EntryAt(after, slot, map[], term)
    {
      assert FtsKey(term, slot) in fts ==> FtsKey(term, slot) in toDelete;
    }
    forall k: FtsKey | k.slot != slot
      ensures SameEntry(fts, after, k)
    {
    }
  }

  /** indexMemoryFTSTxn: sets the entries of the counts; the slot has none before. */
  method SetEntries(fts: Fts, slot: Slot, counts: Counts) returns (after: Fts)
    requires IndexedAt(fts, slot, map[])
    ensures IndexedAt(after, slot, counts) && SameElsewhere(fts, after, slot)
  {
    after := fts;
    var rest := counts.Keys;
    assert counts - rest == map[];
    forall k: FtsKey | k.slot != slot
      ensures SameEntry(fts, after, k)
    {
    }
    while rest != {}
      invariant rest <= counts.Keys && IndexedAt(after, slot, counts - rest) && SameElsewhere(fts, after, slot)
    {
      var term :| term in rest;
      OneMoreEntry(fts, after, slot, counts - rest, term, counts[term]);
      OneFewerLeft(counts, rest, term);
      after := after[FtsKey(term, slot) := Capped(counts[term])];
      rest := rest - {term};
    }
    assert counts - {} == counts;
  }

  lemma OneMoreEntry(fts: Fts, after: Fts, slot: Slot, done: Counts, term: string, n: nat)
    requires IndexedAt(after, slot, done) && SameElsewhere(fts, after, slot)
    ensures IndexedAt(after[FtsKey(term, slot) := Capped(n)], slot, done[term := n])
    ensures SameElsewhere(fts, after[FtsKey(term, slot) := Capped(n)], slot)
  {
    var more, counts := after[FtsKey(term, slot) := Capped(n)], done[term := n];
    forall t
      ensures EntryAt(more, slot, counts, t)
    {
      assert EntryAt(after, slot, done, t);
    }
    forall k: FtsKey | k.slot != slot
      ensures SameEntry(fts, more, k)
    {
      assert SameEntry(fts, after, k);
    }
  }

  /** Main result: reindexing a memory leaves exactly the capped counts of its text at its slot, and every other
      memory's entries as they were. */
  method Reindex(fts: Fts, slot: Slot, raw: Counts, expand: string -> seq<string>) returns (after: Fts, counts: Counts)
    ensures Counted(raw.Keys, raw, expand, counts)
    ensures IndexedAt(after, slot, counts) && SameElsewhere(fts, after, slot)
  {
    var cleared := DeleteEntries(fts, slot);
    counts := CountTerms(raw, expand);
    after := SetEntries(cleared, slot, counts);
    forall k: FtsKey | k.slot != slot
      ensures SameEntry(fts, after, k)
    {
      assert SameEntry(fts, cleared, k) && SameEntry(cleared, after, k);
    }
  }

  /** No entry is zero: every indexed term occurs. */
  lemma EntriesCountSomething(raw: Counts, expand: string -> seq<string>, counts: Counts, fts: Fts, slot: Slot,
                              term: string)
    requires Counted(raw.Keys, raw, expand, counts) && IndexedAt(fts, slot, counts) && FtsKey(term, slot) in fts
    requires forall w :: w in raw ==> raw[w] > 0
    ensures fts[FtsKey(term, slot)] > 0
  {
    assert EntryAt(fts, slot, counts, term) && CountedAt(raw.Keys, raw, expand, counts, term);
    var w :| w in raw.Keys && term in expand(w);
    OccursIfCounted(expand(w), term);
    TermCountWith(raw.Keys, raw, expand, term, w);
    AtLeastFactor(raw[w], Occurrences(expand(w), term));
  }

  lemma AtLeastFactor(x: nat, y: nat)
    requires x > 0 && y > 0
    ensures x * y > 0
  {
  }
}
