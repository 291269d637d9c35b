/** The table's contents seen as values: one sequence of key/value pairs per
    bucket, in chain order (head first). The table class keeps a ghost copy of
    this view and every one of its operations is specified by a function here. */
module ChainModel {

  /** One byte of a key or value buffer. */
  newtype byte = b: int | 0 <= b < 0x100

  type Bytes = seq<byte>

  /** The 32-bit digest the table is bound to: key bytes and seed in, digest out
      (the `HashFunc` pointers of hashcore.h). Any total function will do. */
  type DigestFn = (Bytes, bv32) -> bv32

  /** The process-wide seed every index computation uses (hashcore.c line 17). */
  const GlobalSeed: bv32 := 2976579765

  datatype Pair = Pair(key: Bytes, value: Bytes)

  /** A bucket array: bucket i holds the pairs of chain i, head first. */
  type Table = seq<seq<Pair>>

  /** The bucket a key belongs to in an array of n buckets: digest mod n. */
  function Bucket(h: DigestFn, k: Bytes, n: nat): (i: nat)
    requires n > 0
    ensures i < n
  {
    (h(k, GlobalSeed) as int) % n
  }

  /** n empty chains. */
  function Empty<T>(n: nat): (t: seq<seq<T>>)
    ensures |t| == n && forall i | 0 <= i < n :: t[i] == []
  {
    seq(n, _ => [])
  }

  // ---------------------------------------------------------------------------
  // Flattening and counting
  // ---------------------------------------------------------------------------

  /** All elements in bucket-then-chain order. */
  function Flatten<T>(c: seq<seq<T>>): seq<T>
  {
    if c == [] then [] else Flatten(c[..|c| - 1]) + c[|c| - 1]
  }

  /** Sum of the chain lengths. */
  function Total<T>(c: seq<seq<T>>): nat
  {
    if c == [] then 0 else Total(c[..|c| - 1]) + |c[|c| - 1]|
  }

  /** Number of non-empty chains. */
  function NonEmpty<T>(c: seq<seq<T>>): nat
  {
    if c == [] then 0 else NonEmpty(c[..|c| - 1]) + (if c[|c| - 1] == [] then 0 else 1)
  }

  /** Number of elements that are not the head of their chain. */
  function Collisions<T>(c: seq<seq<T>>): nat
  {
    if c == [] then 0
    else Collisions(c[..|c| - 1]) + (if c[|c| - 1] == [] then 0 else |c[|c| - 1]| - 1)
  }

  lemma {:induction false} FlattenLength<T>(c: seq<seq<T>>)
    ensures |Flatten(c)| == Total(c)
  {
    if c != [] {
      FlattenLength(c[..|c| - 1]);
    }
  }

  /** The collision count is the number of entries minus the number of
      non-empty buckets. */
  lemma {:induction false} CollisionsIdentity<T>(c: seq<seq<T>>)
    ensures NonEmpty(c) <= Total(c)
    ensures Collisions(c) == Total(c) - NonEmpty(c)
  {
    if c != [] {
      CollisionsIdentity(c[..|c| - 1]);
    }
  }

  lemma {:induction false} FlattenAppend<T>(a: seq<seq<T>>, b: seq<seq<T>>)
    ensures Flatten(a + b) == Flatten(a) + Flatten(b)
  {
    if b == [] {
      assert a + b == a;
    } else {
      var b' := b[..|b| - 1];
      assert (a + b)[..|a + b| - 1] == a + b';
      FlattenAppend(a, b');
    }
  }

  /** Replacing one chain changes the entry count by the difference in length. */
  lemma {:induction false} TotalUpdate<T>(c: seq<seq<T>>, i: nat, ch: seq<T>)
    requires i < |c|
    ensures Total(c[i := ch]) == Total(c) - |c[i]| + |ch|
  {
    var m := |c| - 1;
    if i < m {
      assert c[i := ch][..m] == c[..m][i := ch];
      TotalUpdate(c[..m], i, ch);
    } else {
      assert c[i := ch][..m] == c[..m];
    }
  }

  lemma {:induction false} NonEmptyUpdate<T>(c: seq<seq<T>>, i: nat, ch: seq<T>)
    requires i < |c|
    ensures NonEmpty(c[i := ch]) ==
      NonEmpty(c) - (if c[i] == [] then 0 else 1) + (if ch == [] then 0 else 1)
  {
    var m := |c| - 1;
    if i < m {
      assert c[i := ch][..m] == c[..m][i := ch];
      NonEmptyUpdate(c[..m], i, ch);
    } else {
      assert c[i := ch][..m] == c[..m];
    }
  }

  /** Replacing one chain changes the collision count by the change in that
      chain's non-head entries. */
  lemma CollisionsUpdate<T>(c: seq<seq<T>>, i: nat, ch: seq<T>)
    requires i < |c|
    ensures Collisions(c[i := ch]) ==
      Collisions(c) - (if c[i] == [] then 0 else |c[i]| - 1) + (if ch == [] then 0 else |ch| - 1)
  {
    TotalUpdate(c, i, ch);
    NonEmptyUpdate(c, i, ch);
    CollisionsIdentity(c);
    CollisionsIdentity(c[i := ch]);
  }

  lemma {:induction false} EmptyCounts<T>(c: seq<seq<T>>)
    requires forall i | 0 <= i < |c| :: c[i] == []
    ensures Total(c) == 0 && NonEmpty(c) == 0 && Collisions(c) == 0 && Flatten(c) == []
  {
    if c != [] {
      EmptyCounts(c[..|c| - 1]);
    }
  }

  // ---------------------------------------------------------------------------
  // The map a sequence of pairs stands for (the first occurrence of a key wins,
  // as a lookup that walks a chain from its head finds it first)
  // ---------------------------------------------------------------------------

  function PairsMap(ps: seq<Pair>): map<Bytes, Bytes>
  {
    if ps == [] then map[] else PairsMap(ps[1..])[ps[0].key := ps[0].value]
  }

  /** The mapping the whole table stands for. */
  function ToMap(t: Table): map<Bytes, Bytes>
  {
    PairsMap(Flatten(t))
  }

  /** Pairs j and j' carry different keys. */
  predicate KeysDiffer(ps: seq<Pair>, j: nat, j': nat)
    requires j < |ps| && j' < |ps|
  {
    ps[j].key != ps[j'].key
  }

  /** No two pairs carry the same key. The quantifier fires only on an explicit
      KeysDiffer term, so that a context holding many chains does not compare
      every pair of their elements. */
  predicate DistinctKeys(ps: seq<Pair>)
  {
    forall j, j' {:trigger KeysDiffer(ps, j, j')} | 0 <= j < j' < |ps| :: KeysDiffer(ps, j, j')
  }

  /** The tail of a chain with distinct keys has distinct keys, none of them
      equal to the head's. */
  lemma DistinctTail(ps: seq<Pair>)
    requires ps != [] && DistinctKeys(ps)
    ensures DistinctKeys(ps[1..])
    ensures forall j | 0 <= j < |ps[1..]| :: ps[1..][j].key != ps[0].key
    ensures ps[0].key !in PairsMap(ps[1..])
  {
    var tail := ps[1..];
    forall j, j' | 0 <= j < j' < |tail|
      ensures KeysDiffer(tail, j, j')
    {
      assert KeysDiffer(ps, j + 1, j' + 1);
    }
    forall j | 0 <= j < |tail|
      ensures tail[j].key != ps[0].key
    {
      assert KeysDiffer(ps, 0, j + 1);
    }
    PairsMapHas(tail, ps[0].key);
  }

  /** A key is mapped exactly when some pair carries it. */
  lemma {:induction false} PairsMapHas(ps: seq<Pair>, k: Bytes)
    ensures k in PairsMap(ps) <==> exists j :: 0 <= j < |ps| && ps[j].key == k
  {
    if ps != [] {
      PairsMapHas(ps[1..], k);
      if k != ps[0].key && k in PairsMap(ps[1..]) {
        var j :| 0 <= j < |ps[1..]| && ps[1..][j].key == k;
        assert ps[j + 1].key == k;
      }
      if exists j :: 0 <= j < |ps| && ps[j].key == k {
        var j :| 0 <= j < |ps| && ps[j].key == k;
        if j > 0 { assert ps[1..][j - 1].key == k; }
      }
    }
  }

  /** The value mapped to a key is the one of its first occurrence. */
  lemma {:induction false} PairsMapFirst(ps: seq<Pair>, j: nat)
    requires j < |ps|
    requires forall j' | 0 <= j' < j :: ps[j'].key != ps[j].key
    ensures ps[j].key in PairsMap(ps) && PairsMap(ps)[ps[j].key] == ps[j].value
  {
    if j > 0 {
      assert forall j' | 0 <= j' < j - 1 :: ps[1..][j'].key == ps[j' + 1].key;
      PairsMapFirst(ps[1..], j - 1);
    }
  }

  lemma {:induction false} PairsMapAppend(a: seq<Pair>, b: seq<Pair>)
    ensures PairsMap(a + b) == PairsMap(b) + PairsMap(a)
  {
    if a == [] {
      assert a + b == b;
    } else {
      assert (a + b)[1..] == a[1..] + b;
      PairsMapAppend(a[1..], b);
    }
  }

  /** Distinct keys give a map with one key per pair. */
  lemma {:induction false} PairsMapSize(ps: seq<Pair>)
    requires DistinctKeys(ps)
    ensures |PairsMap(ps)| == |ps|
  {
    if ps != [] {
      DistinctTail(ps);
      PairsMapSize(ps[1..]);
    }
  }

  // ---------------------------------------------------------------------------
  // Well-formed tables
  // ---------------------------------------------------------------------------

  /** Every pair of chain i belongs to bucket i of an n-bucket array. */
  predicate Placed(h: DigestFn, t: Table, n: nat)
    requires n > 0
  {
    forall i, j | 0 <= i < |t| && 0 <= j < |t[i]| :: Bucket(h, t[i][j].key, n) == i
  }

  /** The table invariant on contents: every entry sits in the bucket its digest
      selects, and no chain holds two equal keys. */
  predicate WellFormed(h: DigestFn, t: Table)
  {
    && |t| > 0
    && Placed(h, t, |t|)
    && forall i | 0 <= i < |t| :: DistinctKeys(t[i])
  }

  /** In a placed table a key can only be found in its own bucket. */
  lemma {:induction false} ToMapAt(h: DigestFn, t: Table, n: nat, k: Bytes)
    requires n > 0 && Placed(h, t, n)
    ensures k in ToMap(t) <==> Bucket(h, k, n) < |t| && k in PairsMap(t[Bucket(h, k, n)])
    ensures k in ToMap(t) ==> ToMap(t)[k] == PairsMap(t[Bucket(h, k, n)])[k]
  {
    if t != [] {
      var m := |t| - 1;
      var pre, last := t[..m], t[m];
      assert Flatten(t) == Flatten(pre) + last;
      PairsMapAppend(Flatten(pre), last);
      assert Placed(h, pre, n);
      ToMapAt(h, pre, n, k);
      PairsMapHas(last, k);
      if k in PairsMap(last) {
        var j :| 0 <= j < |last| && last[j].key == k;
        assert Bucket(h, t[m][j].key, n) == m;
      }
    }
  }

  /** In a placed table every flattened entry comes from a bucket of the table. */
  lemma {:induction false} FlattenBuckets(h: DigestFn, t: Table, n: nat, q: nat)
    requires n > 0 && Placed(h, t, n) && q < |Flatten(t)|
    ensures Bucket(h, Flatten(t)[q].key, n) < |t|
    ensures Bucket(h, Flatten(t)[q].key, n) == |t| - 1 <==> q >= |Flatten(t[..|t| - 1])|
  {
    var m := |t| - 1;
    var pre := t[..m];
    assert Flatten(t) == Flatten(pre) + t[m];
    if q < |Flatten(pre)| {
      assert Placed(h, pre, n);
      FlattenBuckets(h, pre, n, q);
      assert Flatten(t)[q] == Flatten(pre)[q];
    } else {
      assert Flatten(t)[q] == t[m][q - |Flatten(pre)|];
    }
  }

  /** A well-formed table never holds the same key twice, even across buckets. */
  lemma {:induction false} FlattenDistinct(h: DigestFn, t: Table, n: nat)
    requires n > 0 && Placed(h, t, n)
    requires forall i | 0 <= i < |t| :: DistinctKeys(t[i])
    ensures DistinctKeys(Flatten(t))
  {
    if t != [] {
      var m := |t| - 1;
      var pre := t[..m];
      var f, fp := Flatten(t), Flatten(pre);
      assert f == fp + t[m];
      assert Placed(h, pre, n);
      FlattenDistinct(h, pre, n);
      forall j, j' | 0 <= j < j' < |f|
        ensures KeysDiffer(f, j, j')
      {
        if j' < |fp| {
          assert f[j] == fp[j] && f[j'] == fp[j'];
          assert KeysDiffer(fp, j, j');
        } else if j >= |fp| {
          assert f[j] == t[m][j - |fp|] && f[j'] == t[m][j' - |fp|];
          assert KeysDiffer(t[m], j - |fp|, j' - |fp|);
        } else {
          FlattenBuckets(h, t, n, j);
          FlattenBuckets(h, t, n, j');
        }
      }
    }
  }

  /** The number of stored keys equals the number of entries. */
  lemma SizeIsTotal(h: DigestFn, t: Table)
    requires WellFormed(h, t)
    ensures |ToMap(t)| == Total(t)
  {
    FlattenDistinct(h, t, |t|);
    PairsMapSize(Flatten(t));
    FlattenLength(t);
  }

  /** The keys in bucket-then-chain order are distinct and are exactly the keys
      of the mapping. */
  lemma FlattenKeys(h: DigestFn, t: Table)
    requires WellFormed(h, t)
    ensures DistinctKeys(Flatten(t))
    ensures forall k :: k in ToMap(t) <==> exists q :: 0 <= q < |Flatten(t)| && Flatten(t)[q].key == k
  {
    FlattenDistinct(h, t, |t|);
    forall k {
      PairsMapHas(Flatten(t), k);
    }
  }

  // ---------------------------------------------------------------------------
  // Insertion (ht_he_insert without the autoresize step)
  // ---------------------------------------------------------------------------

  /** Walk the chain: replace the value of the first pair with an equal key, or
      append the pair at the tail. */
  function PlaceInChain(ch: seq<Pair>, p: Pair): seq<Pair>
  {
    if ch == [] then [p]
    else if ch[0].key == p.key then [p] + ch[1..]
    else [ch[0]] + PlaceInChain(ch[1..], p)
  }

  function Place(h: DigestFn, t: Table, p: Pair): Table
    requires |t| > 0
  {
    var b := Bucket(h, p.key, |t|);
    t[b := PlaceInChain(t[b], p)]
  }

  /** When the first equal key is at position j, that pair is replaced. */
  lemma {:induction false} PlaceInChainReplace(ch: seq<Pair>, p: Pair, j: nat)
    requires j < |ch| && ch[j].key == p.key
    requires forall j' | 0 <= j' < j :: ch[j'].key != p.key
    ensures PlaceInChain(ch, p) == ch[j := p]
  {
    if j > 0 {
      PlaceInChainReplace(ch[1..], p, j - 1);
      assert [ch[0]] + ch[1..][j - 1 := p] == ch[j := p];
    }
  }

  /** When no key is equal, the pair is appended at the tail. */
  lemma {:induction false} PlaceInChainAppend(ch: seq<Pair>, p: Pair)
    requires forall j | 0 <= j < |ch| :: ch[j].key != p.key
    ensures PlaceInChain(ch, p) == ch + [p]
  {
    if ch != [] {
      PlaceInChainAppend(ch[1..], p);
      assert [ch[0]] + (ch[1..] + [p]) == ch + [p];
    }
  }

  lemma {:induction false} PlaceInChainMap(ch: seq<Pair>, p: Pair)
    ensures PairsMap(PlaceInChain(ch, p)) == PairsMap(ch)[p.key := p.value]
  {
    if ch != [] && ch[0].key != p.key {
      PlaceInChainMap(ch[1..], p);
      assert ([ch[0]] + PlaceInChain(ch[1..], p))[1..] == PlaceInChain(ch[1..], p);
    } else if ch != [] {
      assert ([p] + ch[1..])[1..] == ch[1..];
    }
  }

  lemma {:induction false} PlaceInChainElements(ch: seq<Pair>, p: Pair)
    ensures forall x | x in PlaceInChain(ch, p) :: x == p || x in ch
  {
    if ch != [] && ch[0].key != p.key {
      PlaceInChainElements(ch[1..], p);
    }
  }

  lemma {:induction false} PlaceInChainDistinct(ch: seq<Pair>, p: Pair)
    requires DistinctKeys(ch)
    ensures DistinctKeys(PlaceInChain(ch, p))
  {
    if ch != [] {
      var r := PlaceInChain(ch, p);
      DistinctTail(ch);
      if ch[0].key == p.key {
        assert r == [p] + ch[1..];
        forall j, j' | 0 <= j < j' < |r|
          ensures KeysDiffer(r, j, j')
        {
          if j > 0 {
            assert KeysDiffer(ch[1..], j - 1, j' - 1);
          }
        }
      } else {
        var tail := PlaceInChain(ch[1..], p);
        PlaceInChainDistinct(ch[1..], p);
        PlaceInChainElements(ch[1..], p);
        assert r == [ch[0]] + tail;
        forall j, j' | 0 <= j < j' < |r|
          ensures KeysDiffer(r, j, j')
        {
          if j > 0 {
            assert KeysDiffer(tail, j - 1, j' - 1);
          } else {
            assert r[j'] == tail[j' - 1] && r[j'] in tail;
            if r[j'] != p {
              var q :| 0 <= q < |ch[1..]| && ch[1..][q] == r[j'];
            }
          }
        }
      }
    }
  }

  lemma {:induction false} PlaceInChainLength(ch: seq<Pair>, p: Pair)
    ensures |PlaceInChain(ch, p)| == |ch| + (if p.key in PairsMap(ch) then 0 else 1)
  {
    if ch != [] && ch[0].key != p.key {
      PlaceInChainLength(ch[1..], p);
    }
  }

  /** Bucket update: a table that differs in one chain maps keys of other
      buckets as before. */
  lemma BucketUpdateMap(h: DigestFn, t: Table, b: nat, ch: seq<Pair>, k: Bytes)
    requires |t| > 0 && b < |t| && Placed(h, t, |t|) && Placed(h, t[b := ch], |t|)
    ensures Bucket(h, k, |t|) != b ==>
      (k in ToMap(t[b := ch]) <==> k in ToMap(t)) &&
      (k in ToMap(t) ==> ToMap(t[b := ch])[k] == ToMap(t)[k])
    ensures Bucket(h, k, |t|) == b ==>
      (k in ToMap(t[b := ch]) <==> k in PairsMap(ch)) &&
      (k in PairsMap(ch) ==> ToMap(t[b := ch])[k] == PairsMap(ch)[k])
    ensures Bucket(h, k, |t|) == b ==>
      (k in ToMap(t) <==> k in PairsMap(t[b])) &&
      (k in ToMap(t) ==> ToMap(t)[k] == PairsMap(t[b])[k])
  {
    ToMapAt(h, t, |t|, k);
    ToMapAt(h, t[b := ch], |t|, k);
  }

  /** Insertion keeps the table well formed. */
  lemma PlaceWellFormed(h: DigestFn, t: Table, p: Pair)
    requires WellFormed(h, t)
    ensures WellFormed(h, Place(h, t, p))
  {
    var b := Bucket(h, p.key, |t|);
    var t': Table := Place(h, t, p);
    PlaceInChainElements(t[b], p);
    PlaceInChainDistinct(t[b], p);
    forall i, j | 0 <= i < |t'| && 0 <= j < |t'[i]|
      ensures Bucket(h, t'[i][j].key, |t'|) == i
    {
      if i == b {
        assert t'[i][j] in PlaceInChain(t[b], p);
        if t'[i][j] != p {
          var q :| 0 <= q < |t[b]| && t[b][q] == t'[i][j];
        }
      }
    }
  }

  /** Insertion maps the key to the new value and leaves every other key alone. */
  lemma PlaceMap(h: DigestFn, t: Table, p: Pair)
    requires WellFormed(h, t)
    ensures ToMap(Place(h, t, p)) == ToMap(t)[p.key := p.value]
  {
    var b := Bucket(h, p.key, |t|);
    var ch := PlaceInChain(t[b], p);
    PlaceWellFormed(h, t, p);
    PlaceInChainMap(t[b], p);
    var m, m' := ToMap(t)[p.key := p.value], ToMap(t[b := ch]);
    forall k
      ensures (k in m' <==> k in m) && (k in m ==> m'[k] == m[k])
    {
      BucketUpdateMap(h, t, b, ch, k);
    }
  }

  /** Insertion adds one entry exactly when the key was absent; it adds one
      collision exactly when the key was absent and its bucket was not empty. */
  lemma PlaceCounts(h: DigestFn, t: Table, p: Pair)
    requires WellFormed(h, t)
    ensures Total(Place(h, t, p)) == Total(t) + (if p.key in ToMap(t) then 0 else 1)
    ensures Collisions(Place(h, t, p)) == Collisions(t) +
      (if p.key !in ToMap(t) && t[Bucket(h, p.key, |t|)] != [] then 1 else 0)
  {
    var b := Bucket(h, p.key, |t|);
    var ch := PlaceInChain(t[b], p);
    ToMapAt(h, t, |t|, p.key);
    PlaceInChainLength(t[b], p);
    TotalUpdate(t, b, ch);
    CollisionsUpdate(t, b, ch);
  }

  // ---------------------------------------------------------------------------
  // Removal (ht_remove)
  // ---------------------------------------------------------------------------

  /** Unlink the first pair with an equal key, if any. */
  function RemoveFromChain(ch: seq<Pair>, k: Bytes): seq<Pair>
  {
    if ch == [] then []
    else if ch[0].key == k then ch[1..]
    else [ch[0]] + RemoveFromChain(ch[1..], k)
  }

  function Remove(h: DigestFn, t: Table, k: Bytes): Table
    requires |t| > 0
  {
    var b := Bucket(h, k, |t|);
    t[b := RemoveFromChain(t[b], k)]
  }

  lemma {:induction false} RemoveFromChainAt(ch: seq<Pair>, k: Bytes, j: nat)
    requires j < |ch| && ch[j].key == k
    requires forall j' | 0 <= j' < j :: ch[j'].key != k
    ensures RemoveFromChain(ch, k) == ch[..j] + ch[j + 1..]
  {
    if j > 0 {
      RemoveFromChainAt(ch[1..], k, j - 1);
      assert [ch[0]] + (ch[1..][..j - 1] + ch[1..][j..]) == ch[..j] + ch[j + 1..];
    }
  }

  lemma {:induction false} RemoveFromChainAbsent(ch: seq<Pair>, k: Bytes)
    requires forall j | 0 <= j < |ch| :: ch[j].key != k
    ensures RemoveFromChain(ch, k) == ch
  {
    if ch != [] {
      RemoveFromChainAbsent(ch[1..], k);
    }
  }

  lemma {:induction false} RemoveFromChainElements(ch: seq<Pair>, k: Bytes)
    ensures forall x | x in RemoveFromChain(ch, k) :: x in ch
  {
    if ch != [] && ch[0].key != k {
      RemoveFromChainElements(ch[1..], k);
    }
  }

  lemma {:induction false} RemoveFromChainMap(ch: seq<Pair>, k: Bytes)
    requires DistinctKeys(ch)
    ensures PairsMap(RemoveFromChain(ch, k)) == PairsMap(ch) - {k}
  {
    if ch != [] {
      DistinctTail(ch);
      if ch[0].key != k {
        RemoveFromChainMap(ch[1..], k);
        assert ([ch[0]] + RemoveFromChain(ch[1..], k))[1..] == RemoveFromChain(ch[1..], k);
      }
    }
  }

  lemma {:induction false} RemoveFromChainDistinct(ch: seq<Pair>, k: Bytes)
    requires DistinctKeys(ch)
    ensures DistinctKeys(RemoveFromChain(ch, k))
  {
    if ch != [] {
      DistinctTail(ch);
      if ch[0].key != k {
        var tail := RemoveFromChain(ch[1..], k);
        var r := [ch[0]] + tail;
        RemoveFromChainDistinct(ch[1..], k);
        RemoveFromChainElements(ch[1..], k);
        forall j, j' | 0 <= j < j' < |r|
          ensures KeysDiffer(r, j, j')
        {
          if j > 0 {
            assert KeysDiffer(tail, j - 1, j' - 1);
          } else {
            assert r[j'] == tail[j' - 1] && r[j'] in tail;
            var q :| 0 <= q < |ch[1..]| && ch[1..][q] == r[j'];
          }
        }
      }
    }
  }

  lemma {:induction false} RemoveFromChainLength(ch: seq<Pair>, k: Bytes)
    ensures |RemoveFromChain(ch, k)| == |ch| - (if k in PairsMap(ch) then 1 else 0)
  {
    if ch != [] && ch[0].key != k {
      RemoveFromChainLength(ch[1..], k);
    }
  }

  lemma RemoveWellFormed(h: DigestFn, t: Table, k: Bytes)
    requires WellFormed(h, t)
    ensures WellFormed(h, Remove(h, t, k))
  {
    var b := Bucket(h, k, |t|);
    var t': Table := Remove(h, t, k);
    RemoveFromChainElements(t[b], k);
    RemoveFromChainDistinct(t[b], k);
    forall i, j | 0 <= i < |t'| && 0 <= j < |t'[i]|
      ensures Bucket(h, t'[i][j].key, |t'|) == i
    {
      if i == b {
        assert t'[i][j] in RemoveFromChain(t[b], k);
        var q :| 0 <= q < |t[b]| && t[b][q] == t'[i][j];
      }
    }
  }

  /** Removal unmaps the key and leaves every other key alone. */
  lemma RemoveMap(h: DigestFn, t: Table, k: Bytes)
    requires WellFormed(h, t)
    ensures ToMap(Remove(h, t, k)) == ToMap(t) - {k}
  {
    var b := Bucket(h, k, |t|);
    var ch := RemoveFromChain(t[b], k);
    RemoveWellFormed(h, t, k);
    RemoveFromChainMap(t[b], k);
    var m, m' := ToMap(t) - {k}, ToMap(t[b := ch]);
    forall k'
      ensures (k' in m' <==> k' in m) && (k' in m ==> m'[k'] == m[k'])
    {
      BucketUpdateMap(h, t, b, ch, k');
    }
  }

  /** Removal drops one entry exactly when the key was present, and one collision
      exactly when the key was present and its chain held at least two entries. */
  lemma RemoveCounts(h: DigestFn, t: Table, k: Bytes)
    requires WellFormed(h, t)
    ensures Total(Remove(h, t, k)) == Total(t) - (if k in ToMap(t) then 1 else 0)
    ensures Collisions(Remove(h, t, k)) == Collisions(t) -
      (if k in ToMap(t) && |t[Bucket(h, k, |t|)]| >= 2 then 1 else 0)
  {
    var b := Bucket(h, k, |t|);
    var ch := RemoveFromChain(t[b], k);
    ToMapAt(h, t, |t|, k);
    RemoveFromChainLength(t[b], k);
    TotalUpdate(t, b, ch);
    CollisionsUpdate(t, b, ch);
  }

  // ---------------------------------------------------------------------------
  // Rehash (ht_resize): every entry, in bucket-then-chain order, is inserted
  // into a fresh array of n empty chains
  // ---------------------------------------------------------------------------

  function PlaceAll(h: DigestFn, t: Table, ps: seq<Pair>): (r: Table)
    requires |t| > 0
    ensures |r| == |t|
    decreases |ps|
  {
    if ps == [] then t else PlaceAll(h, Place(h, t, ps[0]), ps[1..])
  }

  function Rehash(h: DigestFn, t: Table, n: nat): (r: Table)
    requires n > 0
    ensures |r| == n
  {
    PlaceAll(h, Empty(n), Flatten(t))
  }

  /** Successive updates, the last one winning. */
  function UpdateAll(m: map<Bytes, Bytes>, ps: seq<Pair>): map<Bytes, Bytes>
    decreases |ps|
  {
    if ps == [] then m else UpdateAll(m[ps[0].key := ps[0].value], ps[1..])
  }

  lemma {:induction false} UpdateAllDistinct(m: map<Bytes, Bytes>, ps: seq<Pair>)
    requires DistinctKeys(ps)
    ensures UpdateAll(m, ps) == m + PairsMap(ps)
    decreases |ps|
  {
    if ps != [] {
      DistinctTail(ps);
      UpdateAllDistinct(m[ps[0].key := ps[0].value], ps[1..]);
    }
  }

  lemma {:induction false} PlaceAllSpec(h: DigestFn, t: Table, ps: seq<Pair>)
    requires WellFormed(h, t)
    ensures WellFormed(h, PlaceAll(h, t, ps))
    ensures ToMap(PlaceAll(h, t, ps)) == UpdateAll(ToMap(t), ps)
    decreases |ps|
  {
    if ps != [] {
      PlaceWellFormed(h, t, ps[0]);
      PlaceMap(h, t, ps[0]);
      PlaceAllSpec(h, Place(h, t, ps[0]), ps[1..]);
    }
  }

  lemma {:induction false} PlaceAllTotal(h: DigestFn, t: Table, ps: seq<Pair>)
    requires WellFormed(h, t) && DistinctKeys(ps)
    requires forall j | 0 <= j < |ps| :: ps[j].key !in ToMap(t)
    ensures Total(PlaceAll(h, t, ps)) == Total(t) + |ps|
    decreases |ps|
  {
    if ps != [] {
      var t' := Place(h, t, ps[0]);
      PlaceCounts(h, t, ps[0]);
      PlaceMap(h, t, ps[0]);
      PlaceWellFormed(h, t, ps[0]);
      DistinctTail(ps);
      PlaceAllTotal(h, t', ps[1..]);
    }
  }

  /** Rehashing into n buckets keeps the mapping and the entry count and yields a
      well-formed table of n buckets. */
  lemma RehashSpec(h: DigestFn, t: Table, n: nat)
    requires WellFormed(h, t) && n > 0
    ensures WellFormed(h, Rehash(h, t, n))
    ensures ToMap(Rehash(h, t, n)) == ToMap(t)
    ensures Total(Rehash(h, t, n)) == Total(t)
  {
    var e := Empty<Pair>(n);
    assert WellFormed(h, e);
    EmptyCounts(e);
    assert ToMap(e) == map[];
    FlattenDistinct(h, t, |t|);
    PlaceAllSpec(h, e, Flatten(t));
    UpdateAllDistinct(map[], Flatten(t));
    assert map[] + ToMap(t) == ToMap(t);
    PlaceAllTotal(h, e, Flatten(t));
    FlattenLength(t);
  }

  /** Placing a sequence and then one more pair is placing the extended sequence. */
  lemma {:induction false} PlaceAllSnoc(h: DigestFn, t: Table, ps: seq<Pair>, p: Pair)
    requires |t| > 0
    ensures PlaceAll(h, t, ps + [p]) == Place(h, PlaceAll(h, t, ps), p)
    decreases |ps|
  {
    if ps == [] {
      assert [p][1..] == [];
    } else {
      assert (ps + [p])[0] == ps[0];
      assert (ps + [p])[1..] == ps[1..] + [p];
      PlaceAllSnoc(h, Place(h, t, ps[0]), ps[1..], p);
    }
  }

  /** Placing pairs with distinct keys one at a time never meets a key twice:
      the pair at position q is not yet in the table the first q built, and
      placing it extends that prefix by one. */
  lemma PlaceAllStep(h: DigestFn, n: nat, xs: seq<Pair>, q: nat)
    requires n > 0 && DistinctKeys(xs) && q < |xs|
    ensures xs[q].key !in ToMap(PlaceAll(h, Empty(n), xs[..q]))
    ensures PlaceAll(h, Empty(n), xs[..q + 1]) == Place(h, PlaceAll(h, Empty(n), xs[..q]), xs[q])
  {
    var done := xs[..q];
    assert xs[..q + 1] == done + [xs[q]];
    PlaceAllSnoc(h, Empty(n), done, xs[q]);
    forall j, j' | 0 <= j < j' < |done|
      ensures KeysDiffer(done, j, j')
    {
      assert KeysDiffer(xs, j, j');
    }
    forall j | 0 <= j < |done|
      ensures done[j].key != xs[q].key
    {
      assert KeysDiffer(xs, j, q);
    }
    var e := Empty<Pair>(n);
    assert WellFormed(h, e);
    EmptyCounts(e);
    PlaceAllSpec(h, e, done);
    UpdateAllDistinct(map[], done);
    assert map[] + PairsMap(done) == PairsMap(done);
    PairsMapHas(done, xs[q].key);
  }

  /** Flattening the first i + 1 chains appends chain i to the first i. */
  lemma FlattenStep<T>(c: seq<seq<T>>, i: nat)
    requires i < |c|
    ensures Flatten(c[..i + 1]) == Flatten(c[..i]) + c[i]
  {
    assert c[..i + 1][..i] == c[..i];
  }

  /** Flattening the first i chains gives a prefix of the whole flattening. */
  lemma FlattenPrefix<T>(c: seq<seq<T>>, i: nat)
    requires i <= |c|
    ensures |Flatten(c[..i])| <= |Flatten(c)|
    ensures Flatten(c)[..|Flatten(c[..i])|] == Flatten(c[..i])
  {
    assert c == c[..i] + c[i..];
    FlattenAppend(c[..i], c[i..]);
  }

  /** Chain i occupies the stretch of the flattening that starts right after
      the chains before it. */
  lemma FlattenChain<T>(c: seq<seq<T>>, i: nat)
    requires i < |c|
    ensures |Flatten(c[..i])| + |c[i]| <= |Flatten(c)|
    ensures Flatten(c)[|Flatten(c[..i])|..|Flatten(c[..i])| + |c[i]|] == c[i]
  {
    assert c == c[..i + 1] + c[i + 1..];
    FlattenAppend(c[..i + 1], c[i + 1..]);
    FlattenStep(c, i);
  }

  /** The stretch of the flattening up to the end of chain i is the
      flattening of the first i + 1 chains. */
  lemma FlattenThrough<T>(c: seq<seq<T>>, i: nat)
    requires i < |c|
    ensures |Flatten(c[..i])| + |c[i]| <= |Flatten(c)|
    ensures Flatten(c)[..|Flatten(c[..i])| + |c[i]|] == Flatten(c[..i + 1])
  {
    FlattenPrefix(c, i + 1);
    FlattenStep(c, i);
  }

  /** The flattening split around position j of chain i. */
  lemma FlattenSplit<T>(c: seq<seq<T>>, i: nat, j: nat)
    requires i < |c| && j <= |c[i]|
    ensures Flatten(c) == Flatten(c[..i]) + c[i][..j] + c[i][j..] + Flatten(c[i + 1..])
  {
    assert c == c[..i + 1] + c[i + 1..];
    FlattenAppend(c[..i + 1], c[i + 1..]);
    FlattenStep(c, i);
    assert c[i] == c[i][..j] + c[i][j..];
  }

  /** Element j of chain i sits in the flattening right after the elements of
      the chains before it. */
  lemma FlattenAt<T>(c: seq<seq<T>>, i: nat, j: nat)
    requires i < |c| && j < |c[i]|
    ensures |Flatten(c[..i])| + j < |Flatten(c)|
    ensures Flatten(c)[|Flatten(c[..i])| + j] == c[i][j]
  {
    FlattenSplit(c, i, j);
    var n := |Flatten(c[..i])|;
    assert Flatten(c) == (Flatten(c[..i]) + c[i][..j]) + (c[i][j..] + Flatten(c[i + 1..]));
    assert (c[i][j..] + Flatten(c[i + 1..]))[0] == c[i][j];
  }

  /** Tables of the same shape hold the same number of elements. */
  lemma {:induction false} ShapeTotal<T, U>(c: seq<seq<T>>, d: seq<seq<U>>)
    requires |c| == |d| && forall i | 0 <= i < |c| :: |c[i]| == |d[i]|
    ensures Total(c) == Total(d)
    decreases |c|
  {
    if c != [] {
      ShapeTotal(c[..|c| - 1], d[..|d| - 1]);
    }
  }

  /** Two tables of the same shape flatten to sequences whose q-th elements
      come from the same chain and position. */
  lemma {:induction false} FlattenPair<T, U>(c: seq<seq<T>>, d: seq<seq<U>>, q: nat)
    requires |c| == |d| && forall i | 0 <= i < |c| :: |c[i]| == |d[i]|
    requires q < |Flatten(c)|
    ensures q < |Flatten(d)|
    ensures exists i, j :: 0 <= i < |c| && 0 <= j < |c[i]| && Flatten(c)[q] == c[i][j] && Flatten(d)[q] == d[i][j]
    decreases |c|
  {
    var n := |c| - 1;
    var c', d' := c[..n], d[..n];
    FlattenLength(c');
    FlattenLength(d');
    FlattenLength(c);
    FlattenLength(d);
    ShapeTotal(c, d);
    ShapeTotal(c', d');
    if q < |Flatten(c')| {
      FlattenPair(c', d', q);
      var i, j :| 0 <= i < |c'| && 0 <= j < |c'[i]| && Flatten(c')[q] == c'[i][j] && Flatten(d')[q] == d'[i][j];
      assert Flatten(c)[q] == c[i][j] && Flatten(d)[q] == d[i][j];
    } else {
      var j := q - |Flatten(c')|;
      assert Flatten(c)[q] == c[n][j] && Flatten(d)[q] == d[n][j];
    }
  }
}
