/** The table engine (src/hashcore.c): a bucket array of chains of hash
    entries, linked through their `next` fields.

    A table keeps, beside its real state, a ghost view of it: `chains` lists the
    entries of every bucket in link order, `model` the key/value pair each of
    them holds, and `Contents()` the mapping they stand for. `Valid()` ties the
    bucket array and the links to `chains`, the entries to `model`, and the
    counters to the counting functions of ChainModel. */
module HashCore {
  import opened ChainModel
  import opened HashItem

  /** HT_INITIAL_SIZE: the bucket count of a freshly initialised table. */
  const InitialSize: nat := 64

  /** The digest function a table is bound to; ht_destroy sets it to NULL. */
  datatype Binding = Unbound | Bound(fn: DigestFn)

  ghost function Head(ch: seq<HashEntry>): HashEntry?
  {
    if ch == [] then null else ch[0]
  }

  ghost function Last(ch: seq<HashEntry>): HashEntry
    requires ch != []
  {
    ch[|ch| - 1]
  }

  ghost function Succ(ch: seq<HashEntry>, j: nat): HashEntry?
    requires j < |ch|
  {
    if j + 1 < |ch| then ch[j + 1] else null
  }

  /** Where an entry is linked: its bucket and its rank in that chain. */
  datatype Slot = Slot(bucket: nat, rank: nat)

  /** `slot` locates every entry of the chains: so no entry is linked into
      two places. */
  ghost predicate Indexed(c: seq<seq<HashEntry>>, slot: map<HashEntry, Slot>)
  {
    forall i, j | 0 <= i < |c| && 0 <= j < |c[i]| :: c[i][j] in slot && slot[c[i][j]] == Slot(i, j)
  }

  /** Entry e is complete and stands for pair p. */
  ghost predicate Holds(e: HashEntry, p: Pair)
    reads e`value, e`valueSize
  {
    e.Wf() && e.PairOf() == p
  }

  lemma AppendEntry(c: seq<seq<HashEntry>>, slot: map<HashEntry, Slot>, b: nat, e: HashEntry)
    requires b < |c| && Indexed(c, slot) && e !in slot
    ensures Indexed(c[b := c[b] + [e]], slot[e := Slot(b, |c[b]|)])
  {
  }

  lemma IndexedEmpty(c: seq<seq<HashEntry>>)
    requires forall i | 0 <= i < |c| :: c[i] == []
    ensures Indexed(c, map[])
  {
  }

  /** A bucket array of n null slots (the malloc and the null loop of ht_init
      and ht_resize). */
  method NewBuckets(n: nat) returns (a: array<HashEntry?>)
    ensures fresh(a) && a.Length == n
    ensures forall i | 0 <= i < n :: a[i] == null
  {
    a := new HashEntry?[n];
    for i := 0 to n
      invariant forall i' | 0 <= i' < i :: a[i'] == null
    {
      a[i] := null;
    }
  }

  // ---------------------------------------------------------------------------
  // Collision counting on removal (ht_remove, lines 309-312)
  // ---------------------------------------------------------------------------

  /** The collision counter after unlinking an entry, as ht_remove updates it:
      one less only when the entry had a predecessor in its chain. */
  function CollisionsAfterRemoveAsWritten(collisions: nat, hadPrev: bool, hadNext: bool): int
  {
    if hadPrev then collisions - 1 else collisions
  }

  /** The intended update: one less whenever the bucket keeps an entry, that is
      when the unlinked entry had a predecessor or a successor. */
  function CollisionsAfterRemove(collisions: nat, hadPrev: bool, hadNext: bool): int
  {
    if hadPrev || hadNext then collisions - 1 else collisions
  }

  /** The intended update agrees with the count of non-head entries after the
      removal, wherever in its chain the removed pair sits. */
  lemma RemoveCollisions(h: DigestFn, t: Table, k: Bytes, j: nat)
    requires WellFormed(h, t)
    requires j < |t[Bucket(h, k, |t|)]| && t[Bucket(h, k, |t|)][j].key == k
    ensures CollisionsAfterRemove(Collisions(t), j > 0, j + 1 < |t[Bucket(h, k, |t|)]|) ==
            Collisions(Remove(h, t, k))
  {
    var b := Bucket(h, k, |t|);
    PairsMapHas(t[b], k);
    ToMapAt(h, t, |t|, k);
    RemoveCounts(h, t, k);
  }

  /** The update as written leaves the counter one too high whenever the removed
      pair heads a chain of two or more: the counter no longer equals the
      number of non-head entries. */
  lemma RemoveHeadCollisionsAsWritten(h: DigestFn, t: Table, k: Bytes)
    requires WellFormed(h, t)
    requires |t[Bucket(h, k, |t|)]| >= 2 && t[Bucket(h, k, |t|)][0].key == k
    ensures CollisionsAfterRemoveAsWritten(Collisions(t), false, true) == Collisions(Remove(h, t, k)) + 1
  {
    RemoveCollisions(h, t, k, 0);
  }

  // ---------------------------------------------------------------------------
  // The sanity check of ht_keys_pp (line 370)
  // ---------------------------------------------------------------------------

  /** The check as written: it reports once the count reaches the key count. */
  predicate TooManyKeysAsWritten(count: nat, keyCount: nat)
  {
    count >= keyCount
  }

  /** The intended check: it reports only a count beyond the key count. */
  predicate TooManyKeys(count: nat, keyCount: nat)
  {
    count > keyCount
  }

  twostate lemma StoredAfterAppend(t: HashTable, new b: nat, new e: HashEntry, new p: Pair)
    requires old(t.Stored()) && old(Indexed(t.chains, t.slot)) && |old(t.chains)| == |old(t.model)|
    requires forall i | 0 <= i < |old(t.chains)| :: |old(t.chains)[i]| == |old(t.model)[i]|
    requires b < |old(t.chains)| && e !in old(t.slot)
    requires t.chains == old(t.chains)[b := old(t.chains)[b] + [e]]
    requires t.model == old(t.model)[b := old(t.model)[b] + [p]]
    requires t.slot == old(t.slot)[e := Slot(b, |old(t.chains)[b]|)]
    requires Holds(e, p)
    requires forall x | x in old(t.slot) :: x.value == old(x.value) && x.valueSize == old(x.valueSize)
    ensures t.Stored()
  {
    forall i, j | 0 <= i < |t.chains| && 0 <= j < |t.chains[i]| && t.chains[i][j] in t.slot && i < |t.model| && j < |t.model[i]|
      ensures Holds(t.chains[i][j], t.model[i][j])
    {
      if i != b || j < |old(t.chains)[b]| {
        var x := old(t.chains)[i][j];
        assert x in old(t.slot);
        assert old(Holds(x, t.model[i][j]));
      }
    }
  }

  twostate lemma LinksAfterAppend(t: HashTable, new b: nat, new e: HashEntry)
    requires old(t.Links()) && old(Indexed(t.chains, t.slot))
    requires b < |old(t.chains)| && e !in old(t.slot)
    requires t.chains == old(t.chains)[b := old(t.chains)[b] + [e]]
    requires t.slot == old(t.slot)[e := Slot(b, |old(t.chains)[b]|)]
    requires e.next == null
    requires old(t.chains)[b] != [] ==> Last(old(t.chains)[b]).next == e
    requires forall x | x in old(t.slot) && (old(t.chains)[b] == [] || x != Last(old(t.chains)[b])) :: x.next == old(x.next)
    ensures t.Links()
  {
    forall i, j | 0 <= i < |t.chains| && 0 <= j < |t.chains[i]| && t.chains[i][j] in t.slot
      ensures t.chains[i][j].next == Succ(t.chains[i], j)
    {
      if i != b || j + 1 < |old(t.chains)[b]| {
        var x := old(t.chains)[i][j];
        assert x in old(t.slot);
        assert old(x.next) == Succ(old(t.chains)[i], j);
      }
    }
  }

  /** Appending entry e, whose key its chain does not hold, at the tail of
      chain b keeps the shape and the bucket heads of the table, whether the
      chain was empty (lines 183-184 of ht_he_insert) or not (lines 209-211). */
  twostate lemma AppendShape(t: HashTable, new b: nat, new e: HashEntry)
    requires old(t.Valid()) && e.Wf() && e.next == null && e !in old(t.slot)
    requires b == Bucket(old(t.digest).fn, e.KeyBytes(), old(t.arraySize))
    requires forall j | 0 <= j < |old(t.model)[b]| :: old(t.model)[b][j].key != e.KeyBytes()
    requires t.digest == old(t.digest) && t.buckets == old(t.buckets) && t.arraySize == old(t.arraySize)
    requires t.chains == old(t.chains)[b := old(t.chains)[b] + [e]]
    requires t.model == old(t.model)[b := old(t.model)[b] + [e.PairOf()]]
    requires t.slot == old(t.slot)[e := Slot(b, |old(t.chains)[b]|)]
    requires t.keyCount == old(t.keyCount) + 1
    requires t.collisions == old(t.collisions) + (if old(t.chains)[b] == [] then 0 else 1)
    requires forall i | 0 <= i < t.buckets.Length && i != b :: t.buckets[i] == old(t.buckets[i])
    requires t.buckets[b] == Head(t.chains[b])
    requires old(t.chains)[b] != [] ==> Last(old(t.chains)[b]).next == e
    requires forall x | x in old(t.slot) :: x.value == old(x.value) && x.valueSize == old(x.valueSize)
    requires forall x | x in old(t.slot) && (old(t.chains)[b] == [] || x != Last(old(t.chains)[b])) ::
      x.next == old(x.next)
    ensures t.Shape() && t.Heads()
    ensures t.model == ChainModel.Place(old(t.digest).fn, old(t.model), e.PairOf())
  {
    var h := old(t.digest).fn;
    var m := old(t.model);
    var p := e.PairOf();
    PlaceInChainAppend(m[b], p);
    PlaceWellFormed(h, m, p);
    PlaceCounts(h, m, p);
    ToMapAt(h, m, |m|, p.key);
    PairsMapHas(m[b], p.key);
    AppendEntry(old(t.chains), old(t.slot), b, e);
  }

  /** The same append keeps the whole table valid. */
  twostate lemma AppendValid(t: HashTable, new b: nat, new e: HashEntry)
    requires old(t.Valid()) && e.Wf() && e.next == null && e !in old(t.slot)
    requires b == Bucket(old(t.digest).fn, e.KeyBytes(), old(t.arraySize))
    requires forall j | 0 <= j < |old(t.model)[b]| :: old(t.model)[b][j].key != e.KeyBytes()
    requires t.digest == old(t.digest) && t.buckets == old(t.buckets) && t.arraySize == old(t.arraySize)
    requires t.chains == old(t.chains)[b := old(t.chains)[b] + [e]]
    requires t.model == old(t.model)[b := old(t.model)[b] + [e.PairOf()]]
    requires t.slot == old(t.slot)[e := Slot(b, |old(t.chains)[b]|)]
    requires t.keyCount == old(t.keyCount) + 1
    requires t.collisions == old(t.collisions) + (if old(t.chains)[b] == [] then 0 else 1)
    requires forall i | 0 <= i < t.buckets.Length && i != b :: t.buckets[i] == old(t.buckets[i])
    requires t.buckets[b] == Head(t.chains[b])
    requires old(t.chains)[b] != [] ==> Last(old(t.chains)[b]).next == e
    requires forall x | x in old(t.slot) :: x.value == old(x.value) && x.valueSize == old(x.valueSize)
    requires forall x | x in old(t.slot) && (old(t.chains)[b] == [] || x != Last(old(t.chains)[b])) ::
      x.next == old(x.next)
    ensures t.Valid()
    ensures t.model == ChainModel.Place(old(t.digest).fn, old(t.model), e.PairOf())
  {
    AppendShape(t, b, e);
    StoredAfterAppend(t, b, e, e.PairOf());
    LinksAfterAppend(t, b, e);
  }

  /** Giving the entry at rank j of chain b the pair p with the same key keeps
      the table valid (lines 203-204 of ht_he_insert). */
  twostate lemma ReplaceValid(t: HashTable, new b: nat, new j: nat, new p: Pair)
    requires old(t.Valid()) && b < |old(t.chains)| && j < |old(t.chains)[b]|
    requires p.key == old(t.model)[b][j].key
    requires t.digest == old(t.digest) && t.buckets == old(t.buckets) && t.arraySize == old(t.arraySize)
    requires t.chains == old(t.chains) && t.slot == old(t.slot)
    requires t.keyCount == old(t.keyCount) && t.collisions == old(t.collisions)
    requires t.model == ChainModel.Place(old(t.digest).fn, old(t.model), p)
    requires forall i | 0 <= i < t.buckets.Length :: t.buckets[i] == old(t.buckets[i])
    requires Holds(t.chains[b][j], p)
    requires forall x | x in old(t.slot) :: x.next == old(x.next)
    requires forall x | x in old(t.slot) && x != t.chains[b][j] ::
      x.value == old(x.value) && x.valueSize == old(x.valueSize)
    ensures t.Valid()
  {
    var h, m := old(t.digest).fn, old(t.model);
    assert Bucket(h, p.key, |m|) == b;
    assert DistinctKeys(m[b]);
    forall j' | 0 <= j' < j
      ensures m[b][j'].key != p.key
    {
      assert KeysDiffer(m[b], j', j);
    }
    PlaceInChainReplace(m[b], p, j);
    PlaceWellFormed(h, m, p);
    PlaceCounts(h, m, p);
    ToMapAt(h, m, |m|, p.key);
    PairsMapHas(m[b], p.key);
    StoredAfterReplace(t, b, j, p);
    LinksAfterReplace(t);
  }

  /** Only the entry at rank j of chain b changed its value: every entry still
      holds its pair. */
  twostate lemma StoredAfterReplace(t: HashTable, new b: nat, new j: nat, new p: Pair)
    requires old(t.Stored()) && b < |t.chains| && j < |t.chains[b]|
    requires t.chains == old(t.chains) && t.slot == old(t.slot) && Indexed(t.chains, t.slot)
    requires |t.model| == |old(t.model)| && b < |t.model| && t.model == old(t.model)[b := t.model[b]]
    requires |t.model[b]| == |old(t.model)[b]| && j < |t.model[b]| && t.model[b] == old(t.model)[b][j := p]
    requires Holds(t.chains[b][j], p)
    requires forall x | x in old(t.slot) && x != t.chains[b][j] ::
      x.value == old(x.value) && x.valueSize == old(x.valueSize)
    ensures t.Stored()
  {
    forall i, j' | 0 <= i < |t.chains| && 0 <= j' < |t.chains[i]| && t.chains[i][j'] in t.slot && i < |t.model| && j' < |t.model[i]|
      ensures Holds(t.chains[i][j'], t.model[i][j'])
    {
      if i != b || j' != j {
        var x := t.chains[i][j'];
        assert old(Holds(x, t.model[i][j']));
        assert t.slot[x] == Slot(i, j') != t.slot[t.chains[b][j]];
      }
    }
  }

  /** No link changed: the chains are still linked as before. */
  twostate lemma LinksAfterReplace(t: HashTable)
    requires old(t.Links()) && t.chains == old(t.chains) && t.slot == old(t.slot)
    requires forall x | x in old(t.slot) :: x.next == old(x.next)
    ensures t.Links()
  {
    forall i, j' | 0 <= i < |t.chains| && 0 <= j' < |t.chains[i]| && t.chains[i][j'] in t.slot
      ensures t.chains[i][j'].next == Succ(t.chains[i], j')
    {
      assert old(t.chains[i][j'].next) == Succ(t.chains[i], j');
    }
  }

  // ---------------------------------------------------------------------------
  // Unlinking an entry (ht_remove, lines 304-312)
  // ---------------------------------------------------------------------------

  /** Sequence s without its element at rank j. */
  ghost function Drop<T>(s: seq<T>, j: nat): (r: seq<T>)
    requires j < |s|
    ensures |r| == |s| - 1
    ensures forall j' | 0 <= j' < |r| :: r[j'] == s[if j' < j then j' else j' + 1]
  {
    s[..j] + s[j + 1..]
  }

  /** The slots once entry e, at rank j of chain b, is unlinked: e loses its
      slot and the entries after it in chain b move up one rank. */
  ghost function Unslot(slot: map<HashEntry, Slot>, e: HashEntry, b: nat, j: nat): map<HashEntry, Slot>
  {
    map x | x in slot && x != e ::
      if slot[x].bucket == b && slot[x].rank > j then Slot(b, slot[x].rank - 1) else slot[x]
  }

  lemma RemoveEntry(c: seq<seq<HashEntry>>, slot: map<HashEntry, Slot>, b: nat, j: nat)
    requires Indexed(c, slot) && b < |c| && j < |c[b]|
    ensures Indexed(c[b := Drop(c[b], j)], Unslot(slot, c[b][j], b, j))
    ensures Unslot(slot, c[b][j], b, j).Keys == slot.Keys - {c[b][j]}
  {
    var c', s' := c[b := Drop(c[b], j)], Unslot(slot, c[b][j], b, j);
    forall i, j' | 0 <= i < |c'| && 0 <= j' < |c'[i]|
      ensures c'[i][j'] in s' && s'[c'[i][j']] == Slot(i, j')
    {
      var r := if i == b && j' >= j then j' + 1 else j';
      assert c'[i][j'] == c[i][r];
      assert slot[c[i][r]] == Slot(i, r) != slot[c[b][j]];
    }
  }

  /** Dropping the pair at rank j of chain b of a well-formed table is
      removing its key; the table stays well formed, loses one entry, and its
      collision count is the one the corrected update of ht_remove computes. */
  lemma RemoveAt(h: DigestFn, m: Table, b: nat, j: nat)
    requires WellFormed(h, m) && b < |m| && j < |m[b]|
    ensures Bucket(h, m[b][j].key, |m|) == b
    ensures m[b := Drop(m[b], j)] == ChainModel.Remove(h, m, m[b][j].key)
    ensures WellFormed(h, m[b := Drop(m[b], j)])
    ensures m[b][j].key in ToMap(m) && Total(m) >= 1
    ensures Total(m[b := Drop(m[b], j)]) == Total(m) - 1
    ensures Collisions(m[b := Drop(m[b], j)]) == CollisionsAfterRemove(Collisions(m), j > 0, j + 1 < |m[b]|)
  {
    var k := m[b][j].key;
    assert DistinctKeys(m[b]);
    forall j' | 0 <= j' < j
      ensures m[b][j'].key != k
    {
      assert KeysDiffer(m[b], j', j);
    }
    RemoveFromChainAt(m[b], k, j);
    RemoveWellFormed(h, m, k);
    RemoveCounts(h, m, k);
    RemoveCollisions(h, m, k, j);
    ToMapAt(h, m, |m|, k);
    PairsMapHas(m[b], k);
  }

  twostate lemma StoredAfterRemove(t: HashTable, new b: nat, new j: nat)
    requires old(t.Stored()) && old(Indexed(t.chains, t.slot)) && |old(t.chains)| == |old(t.model)|
    requires forall i | 0 <= i < |old(t.chains)| :: |old(t.chains)[i]| == |old(t.model)[i]|
    requires b < |old(t.chains)| && j < |old(t.chains)[b]|
    requires t.chains == old(t.chains)[b := Drop(old(t.chains)[b], j)]
    requires t.model == old(t.model)[b := Drop(old(t.model)[b], j)]
    requires t.slot == Unslot(old(t.slot), old(t.chains)[b][j], b, j)
    requires forall x | x in old(t.slot) :: x.value == old(x.value) && x.valueSize == old(x.valueSize)
    ensures t.Stored()
  {
    forall i, j' | 0 <= i < |t.chains| && 0 <= j' < |t.chains[i]| && t.chains[i][j'] in t.slot && i < |t.model| && j' < |t.model[i]|
      ensures Holds(t.chains[i][j'], t.model[i][j'])
    {
      var r := if i == b && j' >= j then j' + 1 else j';
      var x := old(t.chains)[i][r];
      assert t.chains[i][j'] == x && t.model[i][j'] == old(t.model)[i][r];
      assert x in old(t.slot);
      assert old(Holds(x, t.model[i][r]));
    }
  }

  twostate lemma LinksAfterRemove(t: HashTable, new b: nat, new j: nat)
    requires old(t.Links()) && old(Indexed(t.chains, t.slot))
    requires b < |old(t.chains)| && j < |old(t.chains)[b]|
    requires t.chains == old(t.chains)[b := Drop(old(t.chains)[b], j)]
    requires t.slot == Unslot(old(t.slot), old(t.chains)[b][j], b, j)
    requires j > 0 ==> old(t.chains)[b][j - 1].next == Succ(old(t.chains)[b], j)
    requires forall x | x in old(t.slot) && (j == 0 || x != old(t.chains)[b][j - 1]) :: x.next == old(x.next)
    ensures t.Links()
  {
    forall i, j' | 0 <= i < |t.chains| && 0 <= j' < |t.chains[i]| && t.chains[i][j'] in t.slot
      ensures t.chains[i][j'].next == Succ(t.chains[i], j')
    {
      var r := if i == b && j' >= j then j' + 1 else j';
      var x := old(t.chains)[i][r];
      assert t.chains[i][j'] == x && x in old(t.slot);
      if i == b && j' + 1 == j {
        assert Succ(t.chains[i], j') == Succ(old(t.chains)[b], j);
      } else {
        assert old(t.slot)[x] == Slot(i, r);
        assert j > 0 ==> old(t.slot)[old(t.chains)[b][j - 1]] == Slot(b, j - 1);
        assert old(x.next) == Succ(old(t.chains)[i], r);
      }
    }
  }

  /** Unlinking the entry at rank j of chain b, the first of its chain with its
      key, keeps the shape and the bucket heads of the table and removes that
      key from the model. */
  twostate lemma RemoveShape(t: HashTable, new b: nat, new j: nat)
    requires old(t.Valid()) && b < |old(t.chains)| && j < |old(t.chains)[b]|
    requires t.digest == old(t.digest) && t.buckets == old(t.buckets) && t.arraySize == old(t.arraySize)
    requires t.chains == old(t.chains)[b := Drop(old(t.chains)[b], j)]
    requires t.model == old(t.model)[b := Drop(old(t.model)[b], j)]
    requires t.slot == Unslot(old(t.slot), old(t.chains)[b][j], b, j)
    requires t.keyCount == old(t.keyCount) - 1
    requires t.collisions == CollisionsAfterRemove(old(t.collisions), j > 0, j + 1 < |old(t.chains)[b]|)
    requires forall i | 0 <= i < t.buckets.Length && i != b :: t.buckets[i] == old(t.buckets[i])
    requires t.buckets[b] == Head(t.chains[b])
    ensures t.Shape() && t.Heads()
    ensures t.model == ChainModel.Remove(old(t.digest).fn, old(t.model), old(t.model)[b][j].key)
    ensures t.slot.Keys == old(t.slot).Keys - {old(t.chains)[b][j]}
  {
    RemoveAt(old(t.digest).fn, old(t.model), b, j);
    RemoveEntry(old(t.chains), old(t.slot), b, j);
  }

  /** The same unlinking keeps the whole table valid. */
  twostate lemma RemoveValid(t: HashTable, new b: nat, new j: nat)
    requires old(t.Valid()) && b < |old(t.chains)| && j < |old(t.chains)[b]|
    requires t.digest == old(t.digest) && t.buckets == old(t.buckets) && t.arraySize == old(t.arraySize)
    requires t.chains == old(t.chains)[b := Drop(old(t.chains)[b], j)]
    requires t.model == old(t.model)[b := Drop(old(t.model)[b], j)]
    requires t.slot == Unslot(old(t.slot), old(t.chains)[b][j], b, j)
    requires t.keyCount == old(t.keyCount) - 1
    requires t.collisions == CollisionsAfterRemove(old(t.collisions), j > 0, j + 1 < |old(t.chains)[b]|)
    requires forall i | 0 <= i < t.buckets.Length && i != b :: t.buckets[i] == old(t.buckets[i])
    requires t.buckets[b] == Head(t.chains[b])
    requires j > 0 ==> old(t.chains)[b][j - 1].next == Succ(old(t.chains)[b], j)
    requires forall x | x in old(t.slot) && (j == 0 || x != old(t.chains)[b][j - 1]) :: x.next == old(x.next)
    requires forall x | x in old(t.slot) :: x.value == old(x.value) && x.valueSize == old(x.valueSize)
    ensures t.Valid()
    ensures t.model == ChainModel.Remove(old(t.digest).fn, old(t.model), old(t.model)[b][j].key)
    ensures t.slot.Keys == old(t.slot).Keys - {old(t.chains)[b][j]}
  {
    RemoveShape(t, b, j);
    StoredAfterRemove(t, b, j);
    LinksAfterRemove(t, b, j);
  }

  // ---------------------------------------------------------------------------
  // Rehashing (ht_resize, lines 143-155)
  // ---------------------------------------------------------------------------

  /** The entries of chain ch from rank j on are still linked as in ch, are
      not among `taken`, and the entry at rank j' holds pair xs[start + j']. */
  ghost predicate Pending(ch: seq<HashEntry>, xs: seq<Pair>, start: nat, j: nat, taken: set<HashEntry>)
    reads ch
  {
    && start + |ch| <= |xs| && j <= |ch|
    && (forall j' | j <= j' < |ch| :: ch[j'].next == Succ(ch, j') && Holds(ch[j'], xs[start + j']))
    && (forall j' | j <= j' < |ch| :: ch[j'] !in taken)
  }

  /** A chain whose entries are linked and hold the pairs of row, which sits
      at start in xs, and none of which is taken yet, is pending from its head. */
  lemma PendingFrom(ch: seq<HashEntry>, row: seq<Pair>, xs: seq<Pair>, start: nat, taken: set<HashEntry>)
    requires |row| == |ch| && start + |ch| <= |xs| && xs[start..start + |ch|] == row
    requires forall j | 0 <= j < |ch| :: ch[j].next == Succ(ch, j) && Holds(ch[j], row[j])
    requires forall j | 0 <= j < |ch| :: ch[j] !in taken
    ensures Pending(ch, xs, start, 0, taken)
  {
    forall j | 0 <= j < |ch|
      ensures xs[start + j] == row[j]
    {
      assert xs[start..start + |ch|][j] == row[j];
    }
  }

  predicate Apart(ch: seq<HashEntry>, j: nat, j': nat)
    requires j < |ch| && j' < |ch|
  {
    ch[j] != ch[j']
  }

  /** No entry appears twice in ch. The quantifier fires only on an explicit
      Apart term. */
  ghost predicate Distinct(ch: seq<HashEntry>)
  {
    forall j, j' {:trigger Apart(ch, j, j')} | 0 <= j < j' < |ch| :: Apart(ch, j, j')
  }

  ghost function Members(ch: seq<HashEntry>): set<HashEntry>
  {
    set x | x in ch
  }

  lemma MembersNext(ch: seq<HashEntry>, j: nat)
    requires j < |ch|
    ensures Members(ch[..j + 1]) == Members(ch[..j]) + {ch[j]}
  {
    assert ch[..j + 1] == ch[..j] + [ch[j]];
  }

  lemma MembersAll(ch: seq<HashEntry>)
    ensures Members(ch[..|ch|]) == Members(ch) && Members(ch[..0]) == {}
  {
    assert ch[..|ch|] == ch;
  }

  /** Moving the entry at rank j, and nothing else that is pending, leaves the
      rest pending. */
  twostate lemma PendingAfterMove(new ch: seq<HashEntry>, new xs: seq<Pair>, new start: nat, new j: nat, new taken: set<HashEntry>)
    requires old(allocated(ch)) && old(allocated(taken)) && old(Pending(ch, xs, start, j, taken)) && j < |ch|
    requires forall j' | j < j' < |ch| :: ch[j'] != ch[j] && unchanged(ch[j'])
    ensures Pending(ch, xs, start, j + 1, taken + {ch[j]})
  {
    forall j' | j < j' < |ch|
      ensures ch[j'].next == Succ(ch, j') && Holds(ch[j'], xs[start + j'])
    {
      assert old(ch[j'].next == Succ(ch, j') && Holds(ch[j'], xs[start + j']));
    }
  }

  /** The state of the walk of MoveChain before the entry at rank j of ch:
      nt is valid with the configuration it started with (buckets a, n of
      them, flags fl, limit ml), holds the pairs placed so far (xs up to
      start + j), has gained the entries walked, and the rest are pending. */
  ghost predicate Progress(nt: HashTable, h: DigestFn, ch: seq<HashEntry>, xs: seq<Pair>, start: nat, j: nat, entry: HashEntry?,
                           base: set<HashEntry>, a: array?<HashEntry?>, n: nat, fl: Flags, ml: real)
    reads nt, nt.buckets, nt.slot.Keys, ch
  {
    && j <= |ch| && start + |ch| <= |xs| && entry == (if j < |ch| then ch[j] else null)
    && nt.Valid() && nt.digest == Bound(h) && nt.buckets == a && nt.arraySize == n
    && nt.flags == fl && nt.maxLoadFactor == ml
    && nt.model == PlaceAll(h, Empty(n), xs[..start + j])
    && nt.Nodes() == base + Members(ch[..j])
    && Pending(ch, xs, start, j, nt.Nodes())
  }

  /** Lines 146-152 of ht_resize: move the entries of one chain, ch, from its
      head into nt with ht_he_insert's placement; each entry's link is read
      before it is relinked. The entries stand for the pairs xs[start..] and nt
      already holds the pairs before them. */
  method MoveChain(nt: HashTable, head: HashEntry?, ghost h: DigestFn, ghost ch: seq<HashEntry>, ghost xs: seq<Pair>, ghost start: nat)
    requires nt.Valid() && nt.digest == Bound(h) && DistinctKeys(xs) && start + |ch| <= |xs|
    requires nt.model == PlaceAll(h, Empty(nt.arraySize), xs[..start])
    requires head == Head(ch) && Pending(ch, xs, start, 0, nt.Nodes()) && Distinct(ch)
    modifies nt, nt.buckets, nt.Nodes(), ch
    ensures nt.Valid() && nt.digest == old(nt.digest) && nt.buckets == old(nt.buckets) && nt.arraySize == old(nt.arraySize)
    ensures nt.flags == old(nt.flags) && nt.maxLoadFactor == old(nt.maxLoadFactor)
    ensures nt.model == PlaceAll(h, Empty(nt.arraySize), xs[..start + |ch|])
    ensures nt.Nodes() == old(nt.Nodes()) + Members(ch)
  {
    var entry := head;
    ghost var j := 0;
    ghost var base, a, n, fl, ml := nt.Nodes(), nt.buckets, nt.arraySize, nt.flags, nt.maxLoadFactor;
    ProgressStart(nt, h, ch, xs, start, entry, base, a, n, fl, ml);
    while entry != null
      invariant Progress(nt, h, ch, xs, start, j, entry, base, a, n, fl, ml)
      decreases |ch| - j
    {
      entry := MoveEntry(nt, entry, h, ch, xs, start, j, base, a, n, fl, ml);
      j := j + 1;
    }
    ProgressEnd(nt, h, ch, xs, start, j, base, a, n, fl, ml);
  }

  /** Before the first entry of the chain moves, the walk is at rank 0. */
  lemma ProgressStart(nt: HashTable, h: DigestFn, ch: seq<HashEntry>, xs: seq<Pair>, start: nat, head: HashEntry?,
                      base: set<HashEntry>, a: array?<HashEntry?>, n: nat, fl: Flags, ml: real)
    requires nt.Valid() && nt.digest == Bound(h) && start + |ch| <= |xs|
    requires nt.model == PlaceAll(h, Empty(nt.arraySize), xs[..start])
    requires head == Head(ch) && Pending(ch, xs, start, 0, nt.Nodes())
    requires base == nt.Nodes() && a == nt.buckets && n == nt.arraySize && fl == nt.flags && ml == nt.maxLoadFactor
    ensures Progress(nt, h, ch, xs, start, 0, head, base, a, n, fl, ml)
  {
    MembersAll(ch);
    assert start + 0 == start;
  }

  /** Once the link read is null, the whole chain has moved. */
  lemma ProgressEnd(nt: HashTable, h: DigestFn, ch: seq<HashEntry>, xs: seq<Pair>, start: nat, j: nat,
                    base: set<HashEntry>, a: array?<HashEntry?>, n: nat, fl: Flags, ml: real)
    requires Progress(nt, h, ch, xs, start, j, null, base, a, n, fl, ml)
    ensures nt.Valid() && nt.digest == Bound(h) && nt.buckets == a && nt.arraySize == n
    ensures nt.flags == fl && nt.maxLoadFactor == ml
    ensures nt.model == PlaceAll(h, Empty(n), xs[..start + |ch|])
    ensures nt.Nodes() == base + Members(ch)
  {
    MembersAll(ch);
  }

  /** Line 150 of ht_resize for the entry at rank j of ch: it is moved into
      nt, and the link read beforehand leads to the next entry. */
  method MoveEntry(nt: HashTable, e: HashEntry, ghost h: DigestFn, ghost ch: seq<HashEntry>, ghost xs: seq<Pair>, ghost start: nat, ghost j: nat,
                   ghost base: set<HashEntry>, ghost a: array?<HashEntry?>, ghost n: nat, ghost fl: Flags, ghost ml: real)
    returns (next: HashEntry?)
    requires Progress(nt, h, ch, xs, start, j, e, base, a, n, fl, ml) && DistinctKeys(xs) && Distinct(ch)
    modifies nt, nt.buckets, nt.Nodes(), e
    ensures Progress(nt, h, ch, xs, start, j + 1, next, base, a, n, fl, ml)
  {
    assert j < |ch|;
    next := e.next;
    PlaceAllStep(h, n, xs, start + j);
    MembersNext(ch, j);
    forall j' | j < j' < |ch|
      ensures ch[j'] != e
    {
      assert Apart(ch, j, j');
    }
    ghost var taken := nt.Nodes();
    nt.Rehome(e, h, xs[start + j]);
    PendingAfterMove(ch, xs, start, j, taken);
    assert start + (j + 1) == start + j + 1;
  }

  /** The layout a table's ghost state keeps: the chains and the model have
      the same shape, slot locates every entry, and the model is well formed
      under digest h. */
  ghost predicate Layout(h: DigestFn, oc: seq<seq<HashEntry>>, om: Table, os: map<HashEntry, Slot>)
  {
    && |oc| == |om| > 0
    && (forall i | 0 <= i < |oc| :: |oc[i]| == |om[i]|)
    && Indexed(oc, os)
    && WellFormed(h, om)
  }

  /** The new table's side of ht_resize's walk before bucket i: nt, with
      buckets a and n of them, is valid under h and holds the pairs of the
      first i chains of the old model om placed in walk order, and exactly
      the entries of those chains. */
  ghost predicate Moved(nt: HashTable, h: DigestFn, oc: seq<seq<HashEntry>>, om: Table, os: map<HashEntry, Slot>,
                        i: nat, a: array?<HashEntry?>, n: nat)
    reads nt, nt.buckets, nt.slot.Keys
  {
    && Layout(h, oc, om, os) && i <= |oc|
    && nt.Valid() && nt.digest == Bound(h) && nt.buckets == a && nt.arraySize == n
    && nt.model == PlaceAll(h, Empty(n), Flatten(om[..i]))
    && (forall x | x in nt.slot :: x in os && os[x].bucket < i)
    && (forall i', j | 0 <= i' < i && 0 <= j < |oc[i']| :: oc[i'][j] in nt.slot)
  }

  /** The old table's bucket array during the walk: the first i buckets of b
      are cleared, the others still point at the heads of their chains. */
  ghost predicate Cleared(b: array<HashEntry?>, oc: seq<seq<HashEntry>>, i: nat)
    reads b
  {
    b.Length == |oc| && i <= |oc| && forall i' | 0 <= i' < |oc| :: b[i'] == if i' < i then null else Head(oc[i'])
  }

  /** The old table's chains during the walk: from chain i on, they are
      linked and hold their pairs as before. */
  ghost predicate Linked(h: DigestFn, oc: seq<seq<HashEntry>>, om: Table, os: map<HashEntry, Slot>, i: nat)
    reads os.Keys
  {
    && Layout(h, oc, om, os) && i <= |oc|
    && (forall i', j | i <= i' < |oc| && 0 <= j < |oc[i']| ::
          oc[i'][j].next == Succ(oc[i'], j) && Holds(oc[i'][j], om[i'][j]))
  }

  /** The state of ht_resize's walk before bucket i of the old table, whose
      bucket array is b and whose chains, model and slots were oc, om and os. */
  ghost predicate Rehashing(nt: HashTable, b: array<HashEntry?>, h: DigestFn, oc: seq<seq<HashEntry>>, om: Table,
                            os: map<HashEntry, Slot>, i: nat, a: array?<HashEntry?>, n: nat)
    reads nt, nt.buckets, nt.slot.Keys, b, os.Keys
  {
    Moved(nt, h, oc, om, os, i, a, n) && Linked(h, oc, om, os, i) && Cleared(b, oc, i) && a != b
  }

  /** One turn of lines 144-154 of ht_resize: move chain i into nt, then
      clear bucket i. */
  method MoveBucket(nt: HashTable, b: array<HashEntry?>, ghost h: DigestFn, ghost oc: seq<seq<HashEntry>>, ghost om: Table,
                    ghost os: map<HashEntry, Slot>, i: nat, ghost a: array?<HashEntry?>, ghost n: nat)
    requires Rehashing(nt, b, h, oc, om, os, i, a, n) && i < |oc|
    modifies nt, nt.buckets, nt.Nodes(), oc[i], b
    ensures Rehashing(nt, b, h, oc, om, os, i + 1, a, n)
  {
    MoveBucketChain(nt, b, h, oc, om, os, i, a, n);
    label moved:
    b[i] := null;
    MovedKept@moved(nt, h, oc, om, os, i + 1, a, n);
  }

  /** Lines 146-152 of ht_resize for bucket i: the chain b[i] heads moves
      into nt. */
  method MoveBucketChain(nt: HashTable, b: array<HashEntry?>, ghost h: DigestFn, ghost oc: seq<seq<HashEntry>>, ghost om: Table,
                         ghost os: map<HashEntry, Slot>, i: nat, ghost a: array?<HashEntry?>, ghost n: nat)
    requires Rehashing(nt, b, h, oc, om, os, i, a, n) && i < |oc|
    modifies nt, nt.buckets, nt.Nodes(), oc[i]
    ensures Moved(nt, h, oc, om, os, i + 1, a, n) && Linked(h, oc, om, os, i + 1)
  {
    ghost var ch, xs, start := oc[i], Flatten(om), |Flatten(om[..i])|;
    ChainReady(nt, b, h, oc, om, os, i, a, n, ch, xs, start);
    MoveInto(nt, b[i], h, oc, om, os, i, a, n, ch, xs, start);
  }

  /** The chain ch = oc[i] from head moves into nt; its pairs sit at start
      in xs, the old model's flattening. */
  method MoveInto(nt: HashTable, head: HashEntry?, ghost h: DigestFn, ghost oc: seq<seq<HashEntry>>, ghost om: Table,
                  ghost os: map<HashEntry, Slot>, ghost i: nat, ghost a: array?<HashEntry?>, ghost n: nat,
                  ghost ch: seq<HashEntry>, ghost xs: seq<Pair>, ghost start: nat)
    requires Moved(nt, h, oc, om, os, i, a, n) && Linked(h, oc, om, os, i) && i < |oc|
    requires ch == oc[i] && xs == Flatten(om) && start == |Flatten(om[..i])|
    requires nt.Valid() && nt.digest == Bound(h) && DistinctKeys(xs) && start + |ch| <= |xs|
    requires nt.model == PlaceAll(h, Empty(nt.arraySize), xs[..start])
    requires head == Head(ch) && Pending(ch, xs, start, 0, nt.Nodes()) && Distinct(ch)
    requires forall x | x in nt.Nodes() :: x in os && os[x].bucket < i
    requires forall i', j | 0 <= i' < i && 0 <= j < |oc[i']| :: oc[i'][j] in nt.Nodes()
    requires forall i', j | i < i' < |oc| && 0 <= j < |oc[i']| :: oc[i'][j] !in nt.Nodes() && oc[i'][j] !in ch
    modifies nt, nt.buckets, nt.Nodes(), ch
    ensures Moved(nt, h, oc, om, os, i + 1, a, n) && Linked(h, oc, om, os, i + 1)
  {
    ghost var before := nt.Nodes();
    MoveChain(nt, head, h, ch, xs, start);
    MovedNext(nt, h, oc, om, os, i, a, n, ch, xs, start, before);
    LinkedNext(h, oc, om, os, i);
  }

  /** Before bucket i is walked, its chain ch is ready for MoveInto. */
  lemma ChainReady(nt: HashTable, b: array<HashEntry?>, h: DigestFn, oc: seq<seq<HashEntry>>, om: Table,
                   os: map<HashEntry, Slot>, i: nat, a: array?<HashEntry?>, n: nat,
                   ch: seq<HashEntry>, xs: seq<Pair>, start: nat)
    requires Rehashing(nt, b, h, oc, om, os, i, a, n) && i < |oc|
    requires ch == oc[i] && xs == Flatten(om) && start == |Flatten(om[..i])|
    ensures DistinctKeys(xs) && start + |ch| <= |xs|
    ensures nt.model == PlaceAll(h, Empty(nt.arraySize), xs[..start])
    ensures b[i] == Head(ch) && Pending(ch, xs, start, 0, nt.Nodes()) && Distinct(ch)
    ensures forall x | x in nt.Nodes() :: x in os && os[x].bucket < i
    ensures forall i', j | 0 <= i' < i && 0 <= j < |oc[i']| :: oc[i'][j] in nt.Nodes()
    ensures forall i', j | i < i' < |oc| && 0 <= j < |oc[i']| :: oc[i'][j] !in nt.Nodes() && oc[i'][j] !in ch
  {
    FlattenKeys(h, om);
    FlattenChain(om, i);
    FlattenPrefix(om, i);
    forall j, j' | 0 <= j < j' < |ch|
      ensures Apart(ch, j, j')
    {
      assert os[ch[j]] == Slot(i, j) && os[ch[j']] == Slot(i, j');
    }
    forall j | 0 <= j < |ch|
      ensures ch[j] !in nt.slot
    {
      assert os[ch[j]] == Slot(i, j);
    }
    PendingFrom(ch, om[i], xs, start, nt.Nodes());
    forall i', j | i < i' < |oc| && 0 <= j < |oc[i']|
      ensures oc[i'][j] !in nt.Nodes() && oc[i'][j] !in ch
    {
      assert os[oc[i'][j]] == Slot(i', j);
    }
  }

  /** The pairs placed up to the end of chain i are those of the first i + 1
      chains. */
  lemma PlacedThrough(m: Table, h: DigestFn, n: nat, om: Table, i: nat, len: nat)
    requires n > 0 && i < |om| && len == |om[i]| && |Flatten(om[..i])| + len <= |Flatten(om)|
    requires m == PlaceAll(h, Empty(n), Flatten(om)[..|Flatten(om[..i])| + len])
    ensures m == PlaceAll(h, Empty(n), Flatten(om[..i + 1]))
  {
    FlattenThrough(om, i);
  }

  /** Once chain i has moved, the new table's side is in its state before
      bucket i + 1: before is the set of entries nt held until then. */
  lemma MovedNext(nt: HashTable, h: DigestFn, oc: seq<seq<HashEntry>>, om: Table, os: map<HashEntry, Slot>,
                  i: nat, a: array?<HashEntry?>, n: nat, ch: seq<HashEntry>, xs: seq<Pair>, start: nat, before: set<HashEntry>)
    requires Layout(h, oc, om, os) && i < |oc| && ch == oc[i]
    requires forall x | x in before :: x in os && os[x].bucket < i
    requires forall i', j | 0 <= i' < i && 0 <= j < |oc[i']| :: oc[i'][j] in before
    requires nt.Valid() && nt.digest == Bound(h) && nt.buckets == a && nt.arraySize == n
    requires xs == Flatten(om) && start == |Flatten(om[..i])| && start + |ch| <= |xs|
    requires nt.model == PlaceAll(h, Empty(nt.arraySize), xs[..start + |ch|])
    requires nt.Nodes() == before + Members(ch)
    ensures Moved(nt, h, oc, om, os, i + 1, a, n)
  {
    PlacedThrough(nt.model, h, n, om, i, |oc[i]|);
    forall x | x in nt.slot
      ensures x in os && os[x].bucket < i + 1
    {
      if x !in before {
        var j :| 0 <= j < |oc[i]| && oc[i][j] == x;
      }
    }
  }

  /** Moved depends only on nt, its bucket array and its entries. */
  twostate lemma MovedKept(new nt: HashTable, new h: DigestFn, new oc: seq<seq<HashEntry>>, new om: Table,
                           new os: map<HashEntry, Slot>, new i: nat, new a: array?<HashEntry?>, new n: nat)
    requires old(allocated(nt)) && old(allocated(oc)) && old(allocated(os)) && old(allocated(a))
    requires old(Moved(nt, h, oc, om, os, i, a, n))
    requires unchanged(nt) && unchanged(nt.buckets) && forall x | x in nt.slot :: unchanged(x)
    ensures Moved(nt, h, oc, om, os, i, a, n)
  {
  }

  /** Once chain i has moved and the later chains are untouched, the old
      table's chains are in their state before bucket i + 1. */
  twostate lemma LinkedNext(new h: DigestFn, new oc: seq<seq<HashEntry>>, new om: Table, new os: map<HashEntry, Slot>, new i: nat)
    requires old(allocated(oc)) && old(allocated(os))
    requires old(Linked(h, oc, om, os, i)) && i < |oc|
    requires forall i', j | i < i' < |oc| && 0 <= j < |oc[i']| :: unchanged(oc[i'][j])
    ensures Linked(h, oc, om, os, i + 1)
  {
    forall i', j | i < i' < |oc| && 0 <= j < |oc[i']|
      ensures oc[i'][j].next == Succ(oc[i'], j) && Holds(oc[i'][j], om[i'][j])
    {
      assert old(oc[i'][j].next == Succ(oc[i'], j) && Holds(oc[i'][j], om[i'][j]));
    }
  }

  /** After the last bucket: nt holds the old model rehashed into its n
      buckets, only entries of the old table, and every old bucket is null. */
  lemma RehashEnd(nt: HashTable, b: array<HashEntry?>, h: DigestFn, oc: seq<seq<HashEntry>>, om: Table,
                  os: map<HashEntry, Slot>, a: array?<HashEntry?>, n: nat)
    requires Rehashing(nt, b, h, oc, om, os, |oc|, a, n)
    ensures nt.Valid() && nt.digest == Bound(h) && nt.buckets == a && nt.arraySize == n
    ensures nt.model == Rehash(h, om, n)
    ensures nt.Nodes() <= os.Keys
    ensures forall i | 0 <= i < b.Length :: b[i] == null
  {
    assert om[..|om|] == om;
  }

  /** A table whose state is a copy of a valid table's is valid. */
  lemma ValidCopy(t: HashTable, u: HashTable)
    requires u.Valid()
    requires t.digest == u.digest && t.buckets == u.buckets && t.arraySize == u.arraySize
    requires t.keyCount == u.keyCount && t.collisions == u.collisions
    requires t.chains == u.chains && t.model == u.model && t.slot == u.slot
    ensures t.Valid()
  {
    assert t.Shape() && t.Heads() && t.Links();
  }

  /** Valid depends only on the table, its bucket array and its entries. */
  twostate lemma ValidKept(new t: HashTable)
    requires old(allocated(t)) && old(t.Valid())
    requires unchanged(t) && unchanged(t.buckets) && forall x | x in t.slot :: unchanged(x)
    ensures t.Valid()
  {
  }

  class HashTable {
    var digest: Binding
    var keyCount: nat
    var buckets: array?<HashEntry?>
    var arraySize: nat
    var collisions: nat
    var flags: Flags
    var maxLoadFactor: real
    var currentLoadFactor: real

    ghost var chains: seq<seq<HashEntry>>
    ghost var model: Table
    ghost var slot: map<HashEntry, Slot>

    /** The entries linked into the table. */
    ghost function Nodes(): set<HashEntry>
      reads this
    {
      slot.Keys
    }

    /** The ghost view is consistent with itself and with the counters. */
    ghost predicate Shape()
      reads this
    {
      && buckets != null && buckets.Length == arraySize == |chains| == |model| && arraySize > 0
      && (forall i | 0 <= i < |chains| :: |chains[i]| == |model[i]|)
      && Indexed(chains, slot)
      && digest.Bound?
      && WellFormed(digest.fn, model)
      && keyCount == Total(model)
      && collisions == Collisions(model)
    }

    /** Each bucket points at the head of its chain. */
    ghost predicate Heads()
      reads this, buckets
    {
      buckets != null && buckets.Length == |chains| &&
      forall i | 0 <= i < |chains| :: buckets[i] == Head(chains[i])
    }

    /** Each entry links to its successor in its chain. */
    ghost predicate Links()
      reads this, slot.Keys`next
    {
      forall i, j {:trigger chains[i][j].next} | 0 <= i < |chains| && 0 <= j < |chains[i]| && chains[i][j] in slot ::
        chains[i][j].next == Succ(chains[i], j)
    }

    /** Each entry holds the pair the model puts at its place. */
    ghost predicate Stored()
      reads this, slot.Keys`value, slot.Keys`valueSize
    {
      forall i, j {:trigger Holds(chains[i][j], model[i][j])} | 0 <= i < |chains| && 0 <= j < |chains[i]| && chains[i][j] in slot && i < |model| && j < |model[i]| ::
        Holds(chains[i][j], model[i][j])
    }

    ghost predicate Valid()
      reads this, buckets, slot.Keys`next, slot.Keys`value, slot.Keys`valueSize
    {
      Shape() && Heads() && Links() && Stored()
    }

    /** What Links() and Stored() say about the entry at rank j of chain i. */
    lemma EntryAt(i: nat, j: nat)
      requires Valid() && i < |chains| && j < |chains[i]|
      ensures chains[i][j] in slot && Holds(chains[i][j], model[i][j])
      ensures chains[i][j].next == Succ(chains[i], j)
    {
    }

    /** A bound table whose buckets are all null and whose counters are zero
        is valid and empty. */
    lemma EmptyValid()
      requires digest.Bound? && buckets != null && buckets.Length == arraySize > 0
      requires forall i | 0 <= i < arraySize :: buckets[i] == null
      requires chains == Empty<HashEntry>(arraySize) && model == Empty(arraySize) && slot == map[]
      requires keyCount == 0 && collisions == 0
      ensures Valid() && Contents() == map[]
    {
      IndexedEmpty(chains);
      EmptyCounts(model);
    }

    /** The state ht_destroy leaves behind (also that of a table not yet
        initialised). */
    ghost predicate Destroyed()
      reads this
    {
      && buckets == null && arraySize == 0 && keyCount == 0 && collisions == 0
      && digest.Unbound?
      && chains == [] && model == [] && slot == map[]
    }

    /** The mapping the table stands for. */
    ghost function Contents(): map<Bytes, Bytes>
      reads this
    {
      ToMap(model)
    }

    /** A table that has not been initialised. */
    constructor ()
      ensures Destroyed()
      ensures flags == HT_NONE && maxLoadFactor == 0.0 && currentLoadFactor == 0.0
    {
      digest := Unbound;
      keyCount := 0;
      buckets := null;
      arraySize := 0;
      collisions := 0;
      flags := HT_NONE;
      maxLoadFactor := 0.0;
      currentLoadFactor := 0.0;
      chains := [];
      model := [];
      slot := map[];
    }

    /** ht_init: allocate HT_INITIAL_SIZE empty buckets and bind the table to
        its flags, its load-factor limit and its digest. A NULL digest leaves
        the table unusable (every later index computation would call it). */
    method Init(flags: Flags, maxLoadFactor: real, digest: Binding)
      modifies this
      ensures this.flags == flags && this.maxLoadFactor == maxLoadFactor && this.digest == digest
      ensures arraySize == InitialSize && keyCount == 0 && collisions == 0 && currentLoadFactor == 0.0
      ensures buckets != null && fresh(buckets)
      ensures model == Empty(arraySize) && slot == map[]
      ensures digest.Bound? <==> Valid()
      ensures Contents() == map[]
    {
      var a := NewBuckets(InitialSize);
      this.digest, arraySize, buckets, keyCount, collisions, this.flags, this.maxLoadFactor, currentLoadFactor, chains, model, slot :=
        digest, InitialSize, a, 0, 0, flags, maxLoadFactor, 0.0, Empty<HashEntry>(InitialSize), Empty(InitialSize), map[];
      EmptyCounts(model);
      if digest.Bound? {
        EmptyValid();
      }
    }

    /** Lines 123-140 of ht_resize: the local new_table, bound to the same
        digest, flags and load-factor limit, with n empty buckets. Its load
        factor, which the source leaves unset until a collision writes it, is
        zero here. */
    constructor Sized(digest: Binding, flags: Flags, maxLoadFactor: real, n: nat)
      requires digest.Bound? && n > 0
      ensures Valid() && model == Empty(n) && slot == map[] && fresh(buckets)
      ensures this.digest == digest && this.flags == flags && this.maxLoadFactor == maxLoadFactor
      ensures arraySize == n && keyCount == 0 && collisions == 0
    {
      var a := NewBuckets(n);
      this.digest, arraySize, buckets, keyCount, collisions := digest, n, a, 0, 0;
      this.flags, this.maxLoadFactor, currentLoadFactor := flags, maxLoadFactor, 0.0;
      chains, model, slot := Empty<HashEntry>(n), Empty(n), map[];
      new;
      EmptyCounts(model);
      EmptyValid();
    }

    /** ht_index_ui: the key's digest under the global seed, reduced modulo the
        bucket count. */
    function Index(key: Buffer, keySize: nat): (r: nat)
      reads this
      requires digest.Bound? && arraySize > 0 && keySize <= |key.bytes|
      ensures r < arraySize
    {
      Bucket(digest.fn, key.bytes[..keySize], arraySize)
    }

    /** ht_size_ui: the key count, which is the number of keys mapped. */
    function Size(): (n: nat)
      reads this, buckets, slot.Keys`next, slot.Keys`value, slot.Keys`valueSize
      requires Valid()
      ensures n == |Contents()|
    {
      SizeIsTotal(digest.fn, model);
      keyCount
    }

    /** ht_get_p: walk the key's chain. A hit returns the entry's value buffer
        and its size; a miss returns null and leaves the caller's size as it
        was (`valueSizeIn` stands for *pvalue_size before the call). */
    method Get(key: Buffer, keySize: nat, valueSizeIn: nat) returns (value: Buffer?, valueSize: nat)
      requires Valid() && keySize <= |key.bytes|
      ensures value != null <==> key.bytes[..keySize] in Contents()
      ensures value != null ==> valueSize <= |value.bytes| && value.bytes[..valueSize] == Contents()[key.bytes[..keySize]]
      ensures value == null ==> valueSize == valueSizeIn
    {
      var b := Index(key, keySize);
      var p := buckets[b];
      var probe := new HashEntry.Probe(key, keySize);
      ghost var k := key.bytes[..keySize];
      ghost var j := 0;
      ToMapAt(digest.fn, model, arraySize, k);
      while p != null
        invariant j <= |chains[b]|
        invariant p == (if j < |chains[b]| then chains[b][j] else null)
        invariant forall j' | 0 <= j' < j :: model[b][j'].key != k
        decreases |chains[b]| - j
      {
        EntryAt(b, j);
        if KeyCompare(p, probe) {
          PairsMapFirst(model[b], j);
          return p.value, p.valueSize;
        }
        p := p.next;
        j := j + 1;
      }
      PairsMapHas(model[b], k);
      return null, valueSizeIn;
    }

    /** ht_contains_i: whether the key's chain holds the key. */
    method Contains(key: Buffer, keySize: nat) returns (found: bool)
      requires Valid() && keySize <= |key.bytes|
      ensures found <==> key.bytes[..keySize] in Contents()
    {
      var b := Index(key, keySize);
      var p := buckets[b];
      var probe := new HashEntry.Probe(key, keySize);
      ghost var k := key.bytes[..keySize];
      ghost var j := 0;
      ToMapAt(digest.fn, model, arraySize, k);
      while p != null
        invariant j <= |chains[b]|
        invariant p == (if j < |chains[b]| then chains[b][j] else null)
        invariant forall j' | 0 <= j' < j :: model[b][j'].key != k
        decreases |chains[b]| - j
      {
        EntryAt(b, j);
        if KeyCompare(p, probe) {
          PairsMapHas(model[b], k);
          return true;
        }
        p := p.next;
        j := j + 1;
      }
      PairsMapHas(model[b], k);
      return false;
    }

    /** Lines 183-184 of ht_he_insert: an empty bucket takes e as its head. */
    method LinkHead(e: HashEntry, b: nat)
      requires Valid() && e.Wf() && e !in slot && e.next == null
      requires b == Bucket(digest.fn, e.KeyBytes(), arraySize) && buckets[b] == null
      modifies this, buckets
      ensures Valid()
      ensures model == ChainModel.Place(digest.fn, old(model), e.PairOf())
      ensures old(model[b]) == [] && slot.Keys == old(slot.Keys) + {e}
      ensures digest == old(digest) && flags == old(flags) && maxLoadFactor == old(maxLoadFactor)
      ensures buckets == old(buckets) && arraySize == old(arraySize)
      ensures keyCount == old(keyCount) + 1 && collisions == old(collisions)
      ensures currentLoadFactor == old(currentLoadFactor)
    {
      assert buckets[b] == Head(chains[b]);
      buckets[b] := e;
      keyCount := keyCount + 1;
      TrackAppend(b, e);
      AppendValid(this, b, e);
    }

    /** Lines 191-197 of ht_he_insert: walk the non-empty chain b from its head
        and stop at the first entry whose key equals e's, or at the tail. */
    method FindInChain(e: HashEntry, b: nat) returns (p: HashEntry, ghost j: nat)
      requires Valid() && e.keySize <= |e.key.bytes| && b < arraySize && buckets[b] != null
      ensures j < |chains[b]| && p == chains[b][j] && p.keySize <= |p.key.bytes| && p in Nodes()
      ensures forall j' | 0 <= j' < j :: model[b][j'].key != e.KeyBytes()
      ensures KeyCompare(p, e) <==> model[b][j].key == e.KeyBytes()
      ensures !KeyCompare(p, e) ==> j == |chains[b]| - 1
    {
      p := buckets[b];
      j := 0;
      EntryAt(b, j);
      while p.next != null
        invariant j < |chains[b]| && p == chains[b][j]
        invariant Holds(p, model[b][j]) && p.next == Succ(chains[b], j)
        invariant forall j' | 0 <= j' < j :: model[b][j'].key != e.KeyBytes()
        decreases |chains[b]| - j
      {
        if KeyCompare(p, e) {
          break;
        }
        p := p.next;
        j := j + 1;
        EntryAt(b, j);
      }
    }

    /** Record in the ghost view that e was appended to chain b. */
    ghost method TrackAppend(b: nat, e: HashEntry)
      requires b < |chains| && b < |model| && e.Wf()
      modifies this`chains, this`model, this`slot
      ensures chains == old(chains)[b := old(chains)[b] + [e]]
      ensures model == old(model)[b := old(model)[b] + [e.PairOf()]]
      ensures slot == old(slot)[e := Slot(b, |old(chains)[b]|)]
    {
      chains, model, slot :=
        chains[b := chains[b] + [e]], model[b := model[b] + [e.PairOf()]], slot[e := Slot(b, |chains[b]|)];
    }

    /** Lines 209-212 of ht_he_insert: append e after p, the tail of chain b,
        count the collision and recompute the load factor. */
    method LinkTail(p: HashEntry, e: HashEntry, b: nat)
      requires Valid() && e.Wf() && e !in slot && e.next == null
      requires b == Bucket(digest.fn, e.KeyBytes(), arraySize)
      requires chains[b] != [] && p == Last(chains[b])
      requires forall j | 0 <= j < |model[b]| :: model[b][j].key != e.KeyBytes()
      modifies this, p`next
      ensures Valid()
      ensures model == ChainModel.Place(digest.fn, old(model), e.PairOf())
      ensures Nodes() == old(Nodes()) + {e}
      ensures digest == old(digest) && flags == old(flags) && maxLoadFactor == old(maxLoadFactor)
      ensures buckets == old(buckets) && arraySize == old(arraySize)
      ensures keyCount == old(keyCount) + 1 && collisions == old(collisions) + 1
      ensures currentLoadFactor == collisions as real / arraySize as real
    {
      p.next, collisions, keyCount, currentLoadFactor := e, collisions + 1, keyCount + 1, (collisions + 1) as real / arraySize as real;
      TrackAppend(b, e);
      AppendValid(this, b, e);
    }

    /** Lines 203-204 of ht_he_insert: p, at rank j of chain b, has e's key;
        it takes e's value (he_set_value) and e is destroyed. */
    method ReplaceValue(p: HashEntry, e: HashEntry, b: nat, ghost j: nat) returns (released: set<object>)
      requires Valid() && e.Wf() && e !in slot
      requires b < arraySize && j < |chains[b]| && p == chains[b][j] && model[b][j].key == e.KeyBytes()
      modifies this, p
      ensures Valid()
      ensures model == ChainModel.Place(digest.fn, old(model), e.PairOf())
      ensures slot == old(slot) && chains == old(chains) && Nodes() == old(Nodes())
      ensures digest == old(digest) && flags == old(flags) && maxLoadFactor == old(maxLoadFactor)
      ensures buckets == old(buckets) && arraySize == old(arraySize)
      ensures keyCount == old(keyCount) && collisions == old(collisions)
      ensures currentLoadFactor == old(currentLoadFactor)
      ensures released == HashItem.Destroy(flags, e) + (if ValueConst(flags) then {} else {old(p.value)})
    {
      EntryAt(b, j);
      var dropped := p.SetValue(flags, e.value, e.valueSize, 1);
      var freed := HashItem.Destroy(flags, e);
      released := dropped + freed;
      model := ChainModel.Place(digest.fn, model, e.PairOf());
      assert p.ValueBytes() == e.ValueBytes();
      ReplaceValid(this, b, j, e.PairOf());
    }

    /** Lines 185-212 of ht_he_insert: e goes into the non-empty chain b. */
    method PlaceInChain(e: HashEntry, b: nat) returns (released: set<object>, collided: bool, ghost replaced: HashEntry?)
      requires Valid() && e.Wf() && e !in slot && e.next == null
      requires b == Bucket(digest.fn, e.KeyBytes(), arraySize) && buckets[b] != null
      modifies this, slot.Keys
      ensures Valid()
      ensures model == ChainModel.Place(digest.fn, old(model), e.PairOf())
      ensures digest == old(digest) && flags == old(flags) && maxLoadFactor == old(maxLoadFactor)
      ensures buckets == old(buckets) && arraySize == old(arraySize)
      ensures collided <==> e.KeyBytes() !in old(Contents())
      ensures keyCount == old(keyCount) + (if collided then 1 else 0)
      ensures collisions == old(collisions) + (if collided then 1 else 0)
      ensures currentLoadFactor == if collided then collisions as real / arraySize as real else old(currentLoadFactor)
      ensures replaced != null <==> !collided
      ensures replaced != null ==>
        && replaced in old(Nodes()) && Nodes() == old(Nodes())
        && released == HashItem.Destroy(flags, e) + (if ValueConst(flags) then {} else {old(replaced.value)})
      ensures replaced == null ==> Nodes() == old(Nodes()) + {e} && released == {}
    {
      ToMapAt(digest.fn, model, arraySize, e.KeyBytes());
      PairsMapHas(model[b], e.KeyBytes());
      var p;
      ghost var j;
      p, j := FindInChain(e, b);
      if KeyCompare(p, e) {
        released := ReplaceValue(p, e, b, j);
        collided, replaced := false, p;
      } else {
        LinkTail(p, e, b);
        released, collided, replaced := {}, true, null;
      }
    }

    /** Lines 177-212 of ht_he_insert, without the autoresize step: link entry
        e into the table. An empty bucket takes e as its head; otherwise the
        chain is walked, and an entry with an equal key (`replaced`) gets e's
        value while e itself is destroyed, or else e is appended at the tail,
        counted as a collision, and the load factor recomputed. `collided`
        reports that last case. */
    method Place(e: HashEntry) returns (released: set<object>, collided: bool, ghost replaced: HashEntry?)
      requires Valid() && e.Wf() && e !in slot
      modifies this, buckets, slot.Keys, e
      ensures Valid()
      ensures model == ChainModel.Place(digest.fn, old(model), old(e.PairOf()))
      ensures Contents() == old(Contents())[e.KeyBytes() := old(e.ValueBytes())]
      ensures digest == old(digest) && flags == old(flags) && maxLoadFactor == old(maxLoadFactor)
      ensures buckets == old(buckets) && arraySize == old(arraySize)
      ensures collided <==>
        e.KeyBytes() !in old(Contents()) && old(model[Bucket(digest.fn, e.KeyBytes(), arraySize)]) != []
      ensures keyCount == old(keyCount) + (if e.KeyBytes() in old(Contents()) then 0 else 1)
      ensures collisions == old(collisions) + (if collided then 1 else 0)
      ensures currentLoadFactor == if collided then collisions as real / arraySize as real else old(currentLoadFactor)
      ensures replaced != null <==> e.KeyBytes() in old(Contents())
      ensures replaced != null ==>
        && replaced in old(Nodes()) && Nodes() == old(Nodes())
        && released == old(HashItem.Destroy(flags, e)) + (if ValueConst(flags) then {} else {old(replaced.value)})
      ensures replaced == null ==> Nodes() == old(Nodes()) + {e} && released == {}
    {
      ghost var p0 := e.PairOf();
      e.next := null;
      assert e.PairOf() == p0;
      var b := Index(e.key, e.keySize);
      ToMapAt(digest.fn, model, arraySize, p0.key);
      PlaceMap(digest.fn, model, p0);
      PairsMapHas(model[b], p0.key);
      if buckets[b] == null {
        LinkHead(e, b);
        return {}, false, null;
      }
      released, collided, replaced := PlaceInChain(e, b);
    }

    /** Line 150 of ht_resize: ht_he_insert of an entry whose key the table
        does not hold yet; it is linked in and nothing is freed. */
    method Rehome(e: HashEntry, ghost h: DigestFn, ghost p: Pair)
      requires Valid() && digest == Bound(h) && Holds(e, p) && e !in slot && p.key !in Contents()
      modifies this, buckets, Nodes(), e
      ensures Valid() && digest == old(digest) && buckets == old(buckets) && arraySize == old(arraySize)
      ensures flags == old(flags) && maxLoadFactor == old(maxLoadFactor)
      ensures model == ChainModel.Place(h, old(model), p) && Nodes() == old(Nodes()) + {e}
    {
      var released, collided, replaced := Place(e);
    }

    /** Before the walk of ht_resize: nothing has moved into the empty table
        nt, every bucket of this table heads its chain and every chain is
        linked. */
    lemma RehashStart(nt: HashTable)
      requires Valid() && nt.Valid() && nt.digest == digest && nt.model == Empty(nt.arraySize) && nt.slot == map[]
      requires nt.buckets != buckets
      ensures Rehashing(nt, buckets, digest.fn, chains, model, slot, 0, nt.buckets, nt.arraySize)
    {
      assert model[..0] == [];
      forall i, j | 0 <= i < |chains| && 0 <= j < |chains[i]|
        ensures chains[i][j].next == Succ(chains[i], j) && Holds(chains[i][j], model[i][j])
      {
        EntryAt(i, j);
      }
    }

    /** Lines 141-154 of ht_resize: walk every bucket, re-inserting each entry
        of its chain into nt (ht_he_insert), then clear the bucket. nt ends up
        holding the model rehashed into its buckets. */
    method MoveAll(nt: HashTable)
      requires Valid() && nt.Valid() && nt.digest == digest && nt.model == Empty(nt.arraySize) && nt.slot == map[]
      requires nt != this && nt.buckets != buckets
      modifies nt, nt.buckets, buckets, Nodes()
      ensures nt.Valid() && nt.digest == digest && nt.buckets == old(nt.buckets) && nt.arraySize == old(nt.arraySize)
      ensures nt.model == Rehash(digest.fn, model, nt.arraySize)
      ensures nt.Nodes() <= Nodes()
      ensures forall i | 0 <= i < buckets.Length :: buckets[i] == null
    {
      ghost var h, oc, om, os := digest.fn, chains, model, slot;
      ghost var a, n := nt.buckets, nt.arraySize;
      var b := buckets;
      RehashStart(nt);
      for i := 0 to arraySize
        invariant Rehashing(nt, b, h, oc, om, os, i, a, n)
      {
        MoveBucket(nt, b, h, oc, om, os, i, a, n);
      }
      RehashEnd(nt, b, h, oc, om, os, a, n);
    }

    /** Once every chain has moved out, the ghost view is emptied to match the
        null buckets, so ht_destroy has nothing but the array to free. */
    ghost method Forget()
      requires buckets != null && buckets.Length == arraySize
      requires forall i | 0 <= i < arraySize :: buckets[i] == null
      modifies this
      ensures Walkable() && Entries() == []
      ensures digest == old(digest) && buckets == old(buckets) && arraySize == old(arraySize)
      ensures flags == old(flags) && maxLoadFactor == old(maxLoadFactor) && currentLoadFactor == old(currentLoadFactor)
    {
      chains, model, slot := Empty<HashEntry>(arraySize), Empty(arraySize), map[];
      IndexedEmpty(chains);
      EmptyCounts(chains);
    }

    /** Lines 158-164 of ht_resize: take over nt's digest, bucket array, size
        and counters. The flags, the limit and the load factor stay. */
    method Adopt(nt: HashTable)
      requires nt.Valid() && nt != this
      modifies this
      ensures Valid()
      ensures digest == nt.digest && buckets == nt.buckets && arraySize == nt.arraySize
      ensures keyCount == nt.keyCount && model == nt.model && Nodes() == nt.Nodes()
      ensures flags == old(flags) && maxLoadFactor == old(maxLoadFactor) && currentLoadFactor == old(currentLoadFactor)
    {
      digest, arraySize, buckets, keyCount, collisions := nt.digest, nt.arraySize, nt.buckets, nt.keyCount, nt.collisions;
      chains, model, slot := nt.chains, nt.model, nt.slot;
      ValidKept(nt);
      ValidCopy(this, nt);
    }

    /** ht_resize: move every entry into newSize fresh buckets, placing them
        in walk order, and free the old bucket array. The mapping, the key
        count, the digest and the flags stay; no entry is added or freed. The
        table's load factor is not recomputed here. */
    method Resize(newSize: nat) returns (released: set<object>)
      requires Valid() && newSize > 0
      modifies this, buckets, Nodes()
      ensures Valid()
      ensures model == Rehash(digest.fn, old(model), newSize)
      ensures Contents() == old(Contents()) && keyCount == old(keyCount)
      ensures arraySize == newSize && fresh(buckets) && Nodes() <= old(Nodes())
      ensures digest == old(digest) && flags == old(flags) && maxLoadFactor == old(maxLoadFactor)
      ensures currentLoadFactor == old(currentLoadFactor)
      ensures released == {old(buckets)}
    {
      ghost var h, m := digest.fn, model;
      var nt := new HashTable.Sized(digest, flags, maxLoadFactor, newSize);
      MoveAll(nt);
      released := TakeOver(nt);
      RehashSpec(h, m, newSize);
    }

    /** Linking an entry with key k adds a collision: k is not mapped yet and
        its bucket already holds a chain. */
    ghost predicate Collides(k: Bytes)
      reads this
      requires Shape()
    {
      k !in Contents() && model[Bucket(digest.fn, k, arraySize)] != []
    }

    /** ht_he_insert: link entry e in (Place), replacing the value of an entry
        with the same key; when that adds a collision, autoresize is on and the
        load factor has passed its limit, double the bucket count (Resize) and
        recompute the load factor. `replaced` is the entry whose value was
        replaced, or null. */
    method HeInsert(e: HashEntry) returns (released: set<object>, ghost resized: bool, ghost replaced: HashEntry?)
      requires Valid() && e.Wf() && e !in slot
      modifies this, buckets, Nodes(), e
      ensures Valid()
      ensures Contents() == old(Contents())[e.KeyBytes() := old(e.ValueBytes())]
      ensures keyCount == old(keyCount) + (if e.KeyBytes() in old(Contents()) then 0 else 1)
      ensures digest == old(digest) && flags == old(flags) && maxLoadFactor == old(maxLoadFactor)
      ensures resized <==>
        old(Collides(e.KeyBytes())) && !NoAutoresize(flags) && (old(collisions) + 1) as real / old(arraySize) as real > maxLoadFactor
      ensures !resized ==>
        && buckets == old(buckets) && arraySize == old(arraySize)
        && model == ChainModel.Place(digest.fn, old(model), old(e.PairOf()))
      ensures resized ==>
        && fresh(buckets) && arraySize == 2 * old(arraySize)
        && model == Rehash(digest.fn, ChainModel.Place(digest.fn, old(model), old(e.PairOf())), arraySize)
        && released == {old(buckets)} && Nodes() <= old(Nodes()) + {e}
      ensures currentLoadFactor ==
        if old(Collides(e.KeyBytes())) then collisions as real / arraySize as real else old(currentLoadFactor)
      ensures replaced != null <==> e.KeyBytes() in old(Contents())
      ensures replaced != null ==>
        && replaced in old(Nodes()) && Nodes() == old(Nodes())
        && released == old(HashItem.Destroy(flags, e)) + (if ValueConst(flags) then {} else {old(replaced.value)})
      ensures replaced == null && !resized ==> Nodes() == old(Nodes()) + {e} && released == {}
    {
      var collided;
      released, collided, replaced := Place(e);
      resized := false;
      if collided && !NoAutoresize(flags) && currentLoadFactor > maxLoadFactor {
        released := Grow();
        resized := true;
      }
    }

    /** Lines 219-220 of ht_he_insert: double the bucket count and recompute
        the load factor for it. */
    method Grow() returns (released: set<object>)
      requires Valid()
      modifies this, buckets, Nodes()
      ensures Valid() && model == Rehash(digest.fn, old(model), arraySize)
      ensures Contents() == old(Contents()) && keyCount == old(keyCount)
      ensures arraySize == 2 * old(arraySize) && fresh(buckets) && Nodes() <= old(Nodes())
      ensures digest == old(digest) && flags == old(flags) && maxLoadFactor == old(maxLoadFactor)
      ensures currentLoadFactor == collisions as real / arraySize as real
      ensures released == {old(buckets)}
    {
      released := Resize(arraySize * 2);
      currentLoadFactor := collisions as real / arraySize as real;
    }

    /** ht_insert: build an entry for the caller's key and value
        (he_create_p) and link it in (ht_he_insert). The source hands the
        entry on without checking it, so every allocation he_create_p makes
        must be granted. */
    method Insert(key: Buffer, keySize: nat, value: Buffer, valueSize: nat, avail: nat)
      returns (released: set<object>, ghost resized: bool, ghost replaced: HashEntry?)
      requires Valid() && keySize <= |key.bytes| && valueSize <= |value.bytes|
      requires avail >= MallocsNeeded(flags)
      modifies this, buckets, Nodes()
      ensures Valid()
      ensures Contents() == old(Contents())[key.bytes[..keySize] := value.bytes[..valueSize]]
      ensures keyCount == old(keyCount) + (if key.bytes[..keySize] in old(Contents()) then 0 else 1)
      ensures digest == old(digest) && flags == old(flags) && maxLoadFactor == old(maxLoadFactor)
      ensures resized <==>
        old(Collides(key.bytes[..keySize])) && !NoAutoresize(flags)
        && (old(collisions) + 1) as real / old(arraySize) as real > maxLoadFactor
      ensures !resized ==>
        && buckets == old(buckets) && arraySize == old(arraySize)
        && model == ChainModel.Place(digest.fn, old(model), Pair(key.bytes[..keySize], value.bytes[..valueSize]))
      ensures resized ==>
        && arraySize == 2 * old(arraySize) && fresh(buckets) && released == {old(buckets)}
        && model == Rehash(digest.fn, ChainModel.Place(digest.fn, old(model), Pair(key.bytes[..keySize], value.bytes[..valueSize])), arraySize)
      ensures currentLoadFactor ==
        if old(Collides(key.bytes[..keySize])) then collisions as real / arraySize as real else old(currentLoadFactor)
      ensures key.bytes[..keySize] !in old(Contents()) && !resized ==> released == {}
      ensures replaced != null <==> key.bytes[..keySize] in old(Contents())
      ensures replaced != null ==>
        && replaced in old(Nodes()) && Nodes() == old(Nodes())
        && (forall o | o in released :: fresh(o) || (!ValueConst(flags) && o == old(replaced.value)))
        && (!ValueConst(flags) ==> old(replaced.value) in released)
      ensures forall x | x in Nodes() :: x in old(Nodes()) || fresh(x)
    {
      var e, freed := HashItem.CreateEntry(flags, key, keySize, value, valueSize, avail);
      released, resized, replaced := HeInsert(e);
    }

    /** Lines 156-164 of ht_resize: with every bucket cleared, ht_destroy
        frees only the bucket array; then the table takes over nt's state. */
    method TakeOver(nt: HashTable) returns (released: set<object>)
      requires nt.Valid() && nt != this && buckets != null && buckets.Length == arraySize
      requires forall i | 0 <= i < arraySize :: buckets[i] == null
      modifies this
      ensures Valid()
      ensures digest == nt.digest && buckets == nt.buckets && arraySize == nt.arraySize
      ensures keyCount == nt.keyCount && model == nt.model && Nodes() == nt.Nodes()
      ensures flags == old(flags) && maxLoadFactor == old(maxLoadFactor) && currentLoadFactor == old(currentLoadFactor)
      ensures released == {old(buckets)}
    {
      Forget();
      released := Destroy();
      Adopt(nt);
    }

    /** Lines 296-322 of ht_remove: walk chain b to the first entry whose key
        equals the probe's, keeping the entry before it. `p` is null when the
        chain has no such entry. */
    method FindForRemove(probe: HashEntry, b: nat) returns (prev: HashEntry?, p: HashEntry?, ghost j: nat)
      requires Valid() && probe.keySize <= |probe.key.bytes| && b < arraySize
      ensures j <= |chains[b]| && p == (if j < |chains[b]| then chains[b][j] else null)
      ensures prev == (if j == 0 then null else chains[b][j - 1])
      ensures forall j' | 0 <= j' < j :: model[b][j'].key != probe.KeyBytes()
      ensures p != null ==> model[b][j].key == probe.KeyBytes()
      ensures p != null ==> p in Nodes() && p.keySize <= |p.key.bytes| && p.KeyBytes() == probe.KeyBytes()
    {
      prev, p, j := null, buckets[b], 0;
      while p != null
        invariant j <= |chains[b]| && p == (if j < |chains[b]| then chains[b][j] else null)
        invariant prev == (if j == 0 then null else chains[b][j - 1])
        invariant forall j' | 0 <= j' < j :: model[b][j'].key != probe.KeyBytes()
        decreases |chains[b]| - j
      {
        EntryAt(b, j);
        if KeyCompare(p, probe) {
          return;
        }
        prev, p, j := p, p.next, j + 1;
      }
    }

    /** Record in the ghost view that the entry at rank j of chain b was
        unlinked. */
    ghost method TrackRemove(b: nat, j: nat)
      requires b < |chains| && j < |chains[b]| && b < |model| && j < |model[b]|
      modifies this`chains, this`model, this`slot
      ensures chains == old(chains)[b := Drop(old(chains)[b], j)]
      ensures model == old(model)[b := Drop(old(model)[b], j)]
      ensures slot == Unslot(old(slot), old(chains)[b][j], b, j)
    {
      chains, model, slot := chains[b := Drop(chains[b], j)], model[b := Drop(model[b], j)], Unslot(slot, chains[b][j], b, j);
    }

    /** The counts that unlinking the entry at rank j of chain b needs. */
    lemma RemovableAt(b: nat, j: nat)
      requires Valid() && b < |chains| && j < |chains[b]|
      ensures keyCount >= 1
      ensures CollisionsAfterRemove(collisions, j > 0, j + 1 < |chains[b]|) >= 0
      ensures chains[b][j] in slot && chains[b][j].next == Succ(chains[b], j)
      ensures j > 0 ==> chains[b][j - 1] in slot
    {
      RemoveAt(digest.fn, model, b, j);
      EntryAt(b, j);
    }

    /** Lines 304-312 of ht_remove: the bucket, when p heads its chain, or else
        p's predecessor takes p's successor, and the counters are updated. */
    method Bypass(prev: HashEntry?, p: HashEntry, b: nat)
      requires buckets != null && b < buckets.Length && keyCount >= 1
      requires CollisionsAfterRemove(collisions, prev != null, p.next != null) >= 0
      modifies this`keyCount, this`collisions, buckets, (if prev == null then {} else {prev})`next
      ensures prev == null ==> buckets[b] == old(p.next) && forall i | 0 <= i < buckets.Length && i != b :: buckets[i] == old(buckets[i])
      ensures prev != null ==> prev.next == old(p.next) && unchanged(buckets)
      ensures p != prev ==> p.next == old(p.next)
      ensures keyCount == old(keyCount) - 1
      ensures collisions == CollisionsAfterRemove(old(collisions), prev != null, old(p.next) != null)
    {
      if prev == null {
        buckets[b] := p.next;
      } else {
        prev.next := p.next;
      }
      keyCount, collisions := keyCount - 1, CollisionsAfterRemove(collisions, prev != null, p.next != null);
    }

    /** Lines 304-312 of ht_remove: p, at rank j of chain b, is unlinked and
        the counters are updated. */
    method Unlink(prev: HashEntry?, p: HashEntry, b: nat, ghost j: nat)
      requires Valid() && b < arraySize && j < |chains[b]| && p == chains[b][j]
      requires prev == (if j == 0 then null else chains[b][j - 1])
      modifies this, buckets, (if prev == null then {} else {prev})`next
      ensures Valid()
      ensures model == ChainModel.Remove(digest.fn, old(model), old(model)[b][j].key)
      ensures Nodes() == old(Nodes()) - {p}
      ensures digest == old(digest) && flags == old(flags) && maxLoadFactor == old(maxLoadFactor)
      ensures buckets == old(buckets) && arraySize == old(arraySize)
      ensures keyCount == old(keyCount) - 1
      ensures collisions == CollisionsAfterRemove(old(collisions), j > 0, j + 1 < |old(chains)[b]|)
      ensures currentLoadFactor == old(currentLoadFactor)
    {
      RemovableAt(b, j);
      Detach(prev, p, b, j);
      RemoveValid(this, b, j);
    }

    /** Lines 304-312 of ht_remove on the ghost view too: p leaves its chain,
        the model and the slots, and only prev's link changes. */
    method Detach(prev: HashEntry?, p: HashEntry, b: nat, ghost j: nat)
      requires Valid() && b < arraySize && j < |chains[b]| && p == chains[b][j]
      requires prev == (if j == 0 then null else chains[b][j - 1])
      modifies this, buckets, (if prev == null then {} else {prev})`next
      ensures digest == old(digest) && buckets == old(buckets) && arraySize == old(arraySize)
      ensures flags == old(flags) && maxLoadFactor == old(maxLoadFactor) && currentLoadFactor == old(currentLoadFactor)
      ensures chains == old(chains)[b := Drop(old(chains)[b], j)]
      ensures model == old(model)[b := Drop(old(model)[b], j)]
      ensures slot == Unslot(old(slot), old(chains)[b][j], b, j)
      ensures keyCount == old(keyCount) - 1
      ensures collisions == CollisionsAfterRemove(old(collisions), j > 0, j + 1 < |old(chains)[b]|)
      ensures forall i | 0 <= i < buckets.Length && i != b :: buckets[i] == old(buckets[i])
      ensures buckets[b] == Head(chains[b])
      ensures j > 0 ==> old(chains)[b][j - 1].next == Succ(old(chains)[b], j)
      ensures forall x | x in old(slot) && (j == 0 || x != old(chains)[b][j - 1]) :: x.next == old(x.next)
    {
      RemovableAt(b, j);
      Bypass(prev, p, b);
      TrackRemove(b, j);
    }

    /** Lines 304-314 of ht_remove: unlink p, then destroy it (he_destroy). */
    method UnlinkEntry(prev: HashEntry?, p: HashEntry, b: nat, ghost j: nat) returns (released: set<object>)
      requires Valid() && b < arraySize && j < |chains[b]| && p == chains[b][j]
      requires prev == (if j == 0 then null else chains[b][j - 1])
      modifies this, buckets, (if prev == null then {} else {prev})`next
      ensures Valid()
      ensures model == ChainModel.Remove(digest.fn, old(model), old(model)[b][j].key)
      ensures Nodes() == old(Nodes()) - {p}
      ensures digest == old(digest) && flags == old(flags) && maxLoadFactor == old(maxLoadFactor)
      ensures buckets == old(buckets) && arraySize == old(arraySize)
      ensures keyCount == old(keyCount) - 1
      ensures collisions == CollisionsAfterRemove(old(collisions), j > 0, j + 1 < |old(chains)[b]|)
      ensures currentLoadFactor == old(currentLoadFactor)
      ensures released == HashItem.Destroy(flags, p)
    {
      Unlink(prev, p, b, j);
      released := HashItem.Destroy(flags, p);
    }

    /** ht_remove: unlink the entry holding the key, if any, and destroy it
        (he_destroy). `removed` is that entry, or null when the key is not
        mapped, in which case nothing changes. */
    method Remove(key: Buffer, keySize: nat) returns (released: set<object>, ghost removed: HashEntry?)
      requires Valid() && keySize <= |key.bytes|
      modifies this, buckets, slot.Keys
      ensures Valid()
      ensures model == ChainModel.Remove(digest.fn, old(model), key.bytes[..keySize])
      ensures Contents() == old(Contents()) - {key.bytes[..keySize]}
      ensures digest == old(digest) && flags == old(flags) && maxLoadFactor == old(maxLoadFactor)
      ensures buckets == old(buckets) && arraySize == old(arraySize)
      ensures currentLoadFactor == old(currentLoadFactor)
      ensures keyCount == old(keyCount) - (if key.bytes[..keySize] in old(Contents()) then 1 else 0)
      ensures collisions == old(collisions) -
        (if key.bytes[..keySize] in old(Contents()) && |old(model)[Index(key, keySize)]| >= 2 then 1 else 0)
      ensures removed != null <==> key.bytes[..keySize] in old(Contents())
      ensures removed != null ==>
        && removed in old(Nodes()) && removed.keySize <= |removed.key.bytes| && removed.KeyBytes() == key.bytes[..keySize]
        && Nodes() == old(Nodes()) - {removed} && released == HashItem.Destroy(flags, removed)
      ensures removed == null ==> Nodes() == old(Nodes()) && released == {}
    {
      ghost var k := key.bytes[..keySize];
      var b := Index(key, keySize);
      var probe := new HashEntry.Probe(key, keySize);
      var prev, p;
      ghost var j;
      prev, p, j := FindForRemove(probe, b);
      ToMapAt(digest.fn, model, arraySize, k);
      PairsMapHas(model[b], k);
      RemoveMap(digest.fn, model, k);
      RemoveCounts(digest.fn, model, k);
      if p == null {
        RemoveFromChainAbsent(model[b], k);
        assert model[b := model[b]] == model;
        return {}, null;
      }
      released := UnlinkEntry(prev, p, b, j);
      removed := p;
    }

    /** The entries in the order ht_keys_pp and ht_destroy visit them: bucket
        by bucket, each chain from its head. */
    ghost function Entries(): seq<HashEntry>
      reads this
    {
      Flatten(chains)
    }

    /** The entry at position q of the walk holds the pair at position q of the
        flattened model. */
    lemma EntryOfWalk(q: nat)
      requires Valid() && q < |Entries()|
      ensures q < |Flatten(model)| && Holds(Entries()[q], Flatten(model)[q])
    {
      FlattenPair(chains, model, q);
      var i, j :| 0 <= i < |chains| && 0 <= j < |chains[i]| && Entries()[q] == chains[i][j] && Flatten(model)[q] == model[i][j];
      EntryAt(i, j);
    }

    /** The walk meets keyCount entries, with pairwise different keys, and
        their keys are exactly the mapped keys. */
    lemma EntriesKeys()
      requires Valid()
      ensures |Entries()| == keyCount
      ensures forall q | 0 <= q < |Entries()| :: Entries()[q].keySize <= |Entries()[q].key.bytes|
      ensures forall q, q' | 0 <= q < q' < |Entries()| :: Entries()[q].KeyBytes() != Entries()[q'].KeyBytes()
      ensures forall k :: k in Contents() <==> exists q :: 0 <= q < |Entries()| && Entries()[q].KeyBytes() == k
    {
      var e, f := Entries(), Flatten(model);
      FlattenLength(chains);
      FlattenLength(model);
      ShapeTotal(chains, model);
      FlattenKeys(digest.fn, model);
      forall q | 0 <= q < |e|
        ensures e[q].keySize <= |e[q].key.bytes| && e[q].KeyBytes() == f[q].key
      {
        EntryOfWalk(q);
      }
      forall q, q' | 0 <= q < q' < |e|
        ensures e[q].KeyBytes() != e[q'].KeyBytes()
      {
        assert KeysDiffer(f, q, q');
      }
    }

    /** ht_keys_pp: an array of the key pointers, in walk order, and their
        count; an empty table yields null and 0. `reported` tells whether the
        sanity check of line 370 fires; with the corrected check it never
        does. `reportedAsWritten` is the check as written, which fires at the
        last key of every non-empty table. The check's own message is left
        out, and the array allocation is taken to succeed. */
    method Keys() returns (keys: array?<Buffer?>, count: nat, reported: bool, ghost reportedAsWritten: bool)
      requires Valid()
      ensures count == keyCount == |Entries()| && !reported
      ensures keyCount == 0 <==> keys == null
      ensures keys != null ==> fresh(keys) && keys.Length == keyCount
      ensures keys != null ==> forall q | 0 <= q < keys.Length :: keys[q] == Entries()[q].key
      ensures reportedAsWritten <==> keyCount > 0
    {
      EntriesKeys();
      if keyCount == 0 {
        return null, 0, false, false;
      }
      WalkLinks();
      keys := new Buffer?[keyCount];
      count, reported, reportedAsWritten := FillKeys(keys, chains);
    }

    /** Lines 356-375 of ht_keys_pp: walk the chains cs the buckets head and
        the entries link, writing each key pointer into keys. */
    method FillKeys(keys: array<Buffer?>, ghost cs: seq<seq<HashEntry>>) returns (count: nat, reported: bool, ghost reportedAsWritten: bool)
      requires buckets != null && buckets.Length == arraySize == |cs|
      requires forall i | 0 <= i < |cs| :: buckets[i] == Head(cs[i])
      requires forall i, j | 0 <= i < |cs| && 0 <= j < |cs[i]| :: cs[i][j].next == Succ(cs[i], j)
      requires keys.Length == keyCount == |Flatten(cs)|
      modifies keys
      ensures count == keyCount && !reported
      ensures forall q | 0 <= q < keyCount :: keys[q] == Flatten(cs)[q].key
      ensures reportedAsWritten <==> keyCount > 0
    {
      ghost var es := Flatten(cs);
      count, reported, reportedAsWritten := 0, false, false;
      for index := 0 to arraySize
        invariant count == |Flatten(cs[..index])| <= keyCount
        invariant forall q | 0 <= q < count :: keys[q] == es[q].key
        invariant !reported && (reportedAsWritten <==> count >= keyCount > 0)
      {
        var p := buckets[index];
        ghost var j := 0;
        while p != null
          invariant j <= |cs[index]| && p == (if j < |cs[index]| then cs[index][j] else null)
          invariant count == |Flatten(cs[..index])| + j <= keyCount
          invariant forall q | 0 <= q < count :: keys[q] == es[q].key
          invariant !reported && (reportedAsWritten <==> count >= keyCount > 0)
          decreases |cs[index]| - j
        {
          FlattenAt(cs, index, j);
          keys[count] := p.key;
          count := count + 1;
          p := p.next;
          j := j + 1;
          if TooManyKeys(count, keyCount) {
            reported := true;
          }
          if TooManyKeysAsWritten(count, keyCount) {
            reportedAsWritten := true;
          }
        }
        FlattenStep(cs, index);
      }
      assert cs[..arraySize] == cs;
    }

    /** The buckets and links of a valid table, stated for every chain
        position. */
    lemma WalkLinks()
      requires Valid()
      ensures buckets != null && buckets.Length == arraySize == |chains|
      ensures forall i | 0 <= i < |chains| :: buckets[i] == Head(chains[i])
      ensures forall i, j | 0 <= i < |chains| && 0 <= j < |chains[i]| :: chains[i][j].next == Succ(chains[i], j)
    {
      forall i, j | 0 <= i < |chains| && 0 <= j < |chains[i]|
        ensures chains[i][j].next == Succ(chains[i], j)
      {
        EntryAt(i, j);
      }
    }

    /** The buckets head the chains and the entries link them, so the table
        can be walked (a valid table can, whatever its digest). */
    ghost predicate Walkable()
      reads this, buckets, slot.Keys`next
    {
      buckets != null && buckets.Length == arraySize == |chains| && Indexed(chains, slot) && Heads() && Links()
    }

    /** Lines 97-106 of ht_destroy: walk every chain and destroy each entry
        (he_destroy); the result is everything that frees. */
    method DestroyEntries() returns (released: set<object>)
      requires Walkable() || Destroyed()
      ensures released == old(OwnedAll(flags, Entries()))
      ensures forall q | 0 <= q < |old(Entries())| :: old(HashItem.Destroy(flags, Entries()[q])) <= released
    {
      released := {};
      ghost var walked: seq<HashEntry> := [];
      for i := 0 to arraySize
        invariant walked == Flatten(chains[..i]) && old(allocated(walked))
        invariant released == old(OwnedAll(flags, walked))
        invariant forall q | 0 <= q < |walked| :: old(HashItem.Destroy(flags, walked[q])) <= released
      {
        var p := buckets[i];
        ghost var j := 0;
        ghost var w0 := walked;
        while p != null
          invariant j <= |chains[i]| && p == (if j < |chains[i]| then chains[i][j] else null)
          invariant w0 == Flatten(chains[..i]) && walked == w0 + chains[i][..j] && old(allocated(walked))
          invariant released == old(OwnedAll(flags, walked))
          invariant forall q | 0 <= q < |walked| :: old(HashItem.Destroy(flags, walked[q])) <= released
          decreases |chains[i]| - j
        {
          var next := p.next;
          var freed := HashItem.Destroy(flags, p);
          assert freed == old(HashItem.Destroy(flags, p));
          assert (walked + [p])[..|walked|] == walked;
          released, walked := released + freed, walked + [p];
          assert chains[i][..j + 1] == chains[i][..j] + [p];
          p := next;
          j := j + 1;
        }
        assert chains[i][..j] == chains[i];
        FlattenStep(chains, i);
      }
      assert chains[..arraySize] == chains;
    }

    /** ht_destroy: destroy every entry, free the bucket array, unbind the
        digest and zero the counters. A table already destroyed has no bucket
        array and nothing to walk. The flags and the load factors are kept. */
    method Destroy() returns (released: set<object>)
      requires Walkable() || Destroyed()
      modifies this
      ensures Destroyed()
      ensures flags == old(flags) && maxLoadFactor == old(maxLoadFactor) && currentLoadFactor == old(currentLoadFactor)
      ensures released == old(OwnedAll(flags, Entries())) + (if old(buckets) == null then {} else {old(buckets)})
    {
      released := DestroyEntries();
      if buckets != null {
        released := released + {buckets};
      }
      Reset();
    }

    /** Lines 108-114 of ht_destroy: forget the bucket array, unbind the digest
        and zero the counters. */
    method Reset()
      modifies this
      ensures Destroyed()
      ensures flags == old(flags) && maxLoadFactor == old(maxLoadFactor) && currentLoadFactor == old(currentLoadFactor)
    {
      digest, arraySize, keyCount, collisions, buckets, chains, model, slot :=
        Unbound, 0, 0, 0, null, [], [], map[];
    }

    /** ht_clear as written: destroy, then initialise again with the table's
        own digest, which ht_destroy has just unbound; the cleared table is
        left with no digest, so it cannot be used. */
    method ClearAsWritten() returns (released: set<object>)
      requires Valid()
      modifies this
      ensures digest.Unbound? && !Valid()
      ensures Contents() == map[] && arraySize == InitialSize
    {
      released := Destroy();
      Init(flags, maxLoadFactor, digest);
    }

    /** ht_clear as intended: empty the table and keep it usable, bound to the
        digest it had. */
    method Clear() returns (released: set<object>)
      requires Valid()
      modifies this
      ensures Valid() && Contents() == map[]
      ensures digest == old(digest) && flags == old(flags) && maxLoadFactor == old(maxLoadFactor)
      ensures arraySize == InitialSize && keyCount == 0 && collisions == 0 && currentLoadFactor == 0.0
      ensures released == old(OwnedAll(flags, Entries())) + {old(buckets)}
    {
      var d := digest;
      released := Destroy();
      Init(flags, maxLoadFactor, d);
    }
  }
}
