/** Hash entries (src/hashitem.c): a node holding a key buffer and a value
    buffer, each either copied into a buffer the entry owns or borrowed from the
    caller, and a link to the next node of its chain.

    Memory is modelled with Dafny objects: a buffer is a `Buffer` object whose
    bytes are fixed when it is filled; a borrowed buffer is the caller's object
    itself, an owned one is a fresh object holding a copy.
    `free` is modelled by returning the set of objects a call releases, and the
    allocator by a count of the requests it will still grant. The node itself is
    allocated last here, after both buffers, so a failed he_create_p never has a
    node to free; the source allocates it first and frees it on each failure. */
module HashItem {
  import opened ChainModel

  /** The table flags (hash_flags_t in hashcore.h), a bit set. */
  type Flags = bv32

  const HT_NONE: Flags := 0
  /** Keys are stored by reference: never copied, never freed. */
  const HT_KEY_CONST: Flags := 1
  /** Values are stored by reference: never copied, never freed. */
  const HT_VALUE_CONST: Flags := 2
  /** The load factor is never checked on insertion. */
  const HT_NO_AUTORESIZE: Flags := 4

  predicate KeyConst(flags: Flags) { flags & HT_KEY_CONST != 0 }

  predicate ValueConst(flags: Flags) { flags & HT_VALUE_CONST != 0 }

  predicate NoAutoresize(flags: Flags) { flags & HT_NO_AUTORESIZE != 0 }

  /** The number of malloc calls he_create_p makes when none of them fails: the
      node, then the key copy and the value copy for the fields that are owned. */
  function MallocsNeeded(flags: Flags): nat
  {
    1 + (if KeyConst(flags) then 0 else 1) + (if ValueConst(flags) then 0 else 1)
  }

  /** A heap buffer: its address and the bytes written into it when it was
      filled. */
  class Buffer {
    const bytes: Bytes

    constructor (bytes: Bytes)
      ensures this.bytes == bytes
    {
      this.bytes := bytes;
    }
  }

  class HashEntry {
    /** pkey and key_size: set once when the entry is created. */
    const key: Buffer
    const keySize: nat
    /** pvalue and value_size: replaced by SetValue. */
    var value: Buffer?
    var valueSize: nat
    /** pnext: the next entry of the chain, or null. */
    var next: HashEntry?

    constructor (key: Buffer, keySize: nat, value: Buffer, valueSize: nat)
      ensures this.key == key && this.keySize == keySize
      ensures this.value == value && this.valueSize == valueSize
      ensures next == null
    {
      this.key := key;
      this.keySize := keySize;
      this.value := value;
      this.valueSize := valueSize;
      next := null;
    }

    /** The on-stack entry ht_get_p, ht_contains_i and ht_remove build to
        compare a caller's key; only its key fields are set. */
    constructor Probe(key: Buffer, keySize: nat)
      ensures this.key == key && this.keySize == keySize
    {
      this.key := key;
      this.keySize := keySize;
      value := null;
      valueSize := 0;
      next := null;
    }

    /** Both buffers are present and hold at least the recorded sizes. */
    ghost predicate Wf()
      reads this`value, this`valueSize
    {
      keySize <= |key.bytes| && value != null && valueSize <= |value.bytes|
    }

    ghost function KeyBytes(): Bytes
      requires keySize <= |key.bytes|
    {
      key.bytes[..keySize]
    }

    ghost function ValueBytes(): Bytes
      reads this`value, this`valueSize
      requires Wf()
    {
      value.bytes[..valueSize]
    }

    /** The key/value pair this entry stands for. */
    ghost function PairOf(): Pair
      reads this`value, this`valueSize
      requires Wf()
    {
      Pair(KeyBytes(), ValueBytes())
    }

    /** he_set_value: give the entry a new value. With HT_VALUE_CONST the
        caller's buffer is stored; otherwise the old buffer is freed and the new
        bytes are copied into a fresh one. If that allocation fails the entry is
        left with no value buffer and its old value size, as the source returns
        before updating value_size. */
    method SetValue(flags: Flags, v: Buffer, n: nat, avail: nat) returns (released: set<object>)
      requires n <= |v.bytes|
      modifies this
      ensures next == old(next)
      ensures ValueConst(flags) ==> value == v && valueSize == n && released == {}
      ensures !ValueConst(flags) ==> released == (if old(value) == null then {} else {old(value)})
      ensures !ValueConst(flags) && avail > 0 ==>
        value != null && fresh(value) && value.bytes == v.bytes[..n] && valueSize == n
      ensures !ValueConst(flags) && avail == 0 ==> value == null && valueSize == old(valueSize)
    {
      if !ValueConst(flags) {
        released := if value == null then {} else {value};
        if avail == 0 {
          value := null;
          return;
        }
        value := new Buffer(v.bytes[..n]);
      } else {
        released := {};
        value := v;
      }
      valueSize := n;
    }
  }

  /** he_create_p: build an entry for the given key and value, copying each
      field the flags do not mark as borrowed. The allocator grants `avail`
      more requests; when one is refused no entry is returned, and the buffers
      the call already obtained are released (this is the corrected release
      rule: see ReleasedOnValueFailure). */
  method CreateEntry(flags: Flags, key: Buffer, keySize: nat, value: Buffer, valueSize: nat, avail: nat)
    returns (e: HashEntry?, released: set<object>)
    requires keySize <= |key.bytes| && valueSize <= |value.bytes|
    ensures e == null <==> avail < MallocsNeeded(flags)
    ensures e != null ==>
      && fresh(e) && e.Wf() && e.next == null
      && e.keySize == keySize && e.valueSize == valueSize
      && e.KeyBytes() == key.bytes[..keySize] && e.ValueBytes() == value.bytes[..valueSize]
      && released == {}
    ensures e != null && KeyConst(flags) ==> e.key == key
    ensures e != null && !KeyConst(flags) ==> fresh(e.key) && |e.key.bytes| == keySize
    ensures e != null && ValueConst(flags) ==> e.value == value
    ensures e != null && !ValueConst(flags) ==> fresh(e.value) && |e.value.bytes| == valueSize
    ensures forall o | o in released :: fresh(o)
    ensures e == null ==>
      |released| == (if !KeyConst(flags) && !ValueConst(flags) && avail == 2 then 1 else 0)
  {
    if avail == 0 {
      return null, {};
    }
    var left := avail - 1;
    var k: Buffer;
    if KeyConst(flags) {
      k := key;
    } else {
      if left == 0 {
        return null, {};
      }
      left := left - 1;
      k := new Buffer(key.bytes[..keySize]);
    }
    var v: Buffer;
    if ValueConst(flags) {
      v := value;
    } else {
      if left == 0 {
        return null, ReleasedOnValueFailure(flags, k);
      }
      v := new Buffer(value.bytes[..valueSize]);
    }
    e := new HashEntry(k, keySize, v, valueSize);
    released := {};
  }

  /** What he_create_p frees when the value allocation fails, as written
      (hashitem.c lines 63-67): the key pointer is freed whatever the flags,
      so under HT_KEY_CONST a buffer the caller still owns is freed. */
  function ReleasedOnValueFailureAsWritten(flags: Flags, k: Buffer): set<object>
  {
    {k}
  }

  /** The intended rule: only a key copy the entry owns is freed. */
  function ReleasedOnValueFailure(flags: Flags, k: Buffer): (r: set<object>)
    ensures KeyConst(flags) ==> k !in r
    ensures !KeyConst(flags) ==> k in r
  {
    if KeyConst(flags) then {} else {k}
  }

  /** With a borrowed key, an owned value and a refused value allocation, the
      source frees the caller's key buffer. */
  lemma BorrowedKeyFreedAsWritten(k: Buffer)
    ensures KeyConst(HT_KEY_CONST) && !ValueConst(HT_KEY_CONST)
    ensures MallocsNeeded(HT_KEY_CONST) == 2
    ensures k in ReleasedOnValueFailureAsWritten(HT_KEY_CONST, k)
    ensures k !in ReleasedOnValueFailure(HT_KEY_CONST, k)
  {
  }

  /** he_destroy: the objects freed when entry e is destroyed: the node, and
      each buffer the entry owns. Borrowed buffers are left to the caller. */
  function Destroy(flags: Flags, e: HashEntry): (released: set<object>)
    reads e`value
    ensures e in released
    ensures forall o | o in released :: o == e || o == e.key || o == e.value
    ensures !KeyConst(flags) ==> e.key in released
    ensures !ValueConst(flags) && e.value != null ==> e.value in released
    ensures KeyConst(flags) && e.key != e.value ==> e.key !in released
    ensures ValueConst(flags) && e.value != e.key ==> e.value == null || e.value !in released
    ensures KeyConst(flags) && ValueConst(flags) ==> released == {e}
  {
    {e}
    + (if KeyConst(flags) then {} else {e.key})
    + (if ValueConst(flags) || e.value == null then {} else {e.value})
  }

  /** What destroying every entry of es frees. */
  ghost function OwnedAll(flags: Flags, es: seq<HashEntry>): set<object>
    reads es
  {
    if es == [] then {} else OwnedAll(flags, es[..|es| - 1]) + Destroy(flags, es[|es| - 1])
  }

  /** An object is freed for es exactly when it is freed for one of its
      entries. */
  lemma {:induction false} OwnedAllSpec(flags: Flags, es: seq<HashEntry>, o: object)
    ensures o in OwnedAll(flags, es) <==> exists q :: 0 <= q < |es| && o in Destroy(flags, es[q])
  {
    if es != [] {
      var n := |es| - 1;
      OwnedAllSpec(flags, es[..n], o);
      if o in OwnedAll(flags, es[..n]) {
        var q :| 0 <= q < n && o in Destroy(flags, es[..n][q]);
        assert es[q] == es[..n][q];
      }
      if q :| 0 <= q < |es| && o in Destroy(flags, es[q]) {
        if q < n {
          assert es[..n][q] == es[q];
        }
      }
    }
  }

  /** he_key_compare_i: two entries match when their keys have the same size
      and the same bytes. Values take no part. */
  function KeyCompare(e1: HashEntry, e2: HashEntry): (same: bool)
    requires e1.keySize <= |e1.key.bytes| && e2.keySize <= |e2.key.bytes|
    ensures same <==> e1.KeyBytes() == e2.KeyBytes()
    ensures same ==> e1.keySize == e2.keySize
  {
    e1.keySize == e2.keySize && e1.key.bytes[..e1.keySize] == e2.key.bytes[..e2.keySize]
  }

  lemma KeyCompareReflexive(e: HashEntry)
    requires e.keySize <= |e.key.bytes|
    ensures KeyCompare(e, e)
  {
  }

  lemma KeyCompareSymmetric(e1: HashEntry, e2: HashEntry)
    requires e1.keySize <= |e1.key.bytes| && e2.keySize <= |e2.key.bytes|
    ensures KeyCompare(e1, e2) == KeyCompare(e2, e1)
  {
  }

  lemma KeyCompareTransitive(e1: HashEntry, e2: HashEntry, e3: HashEntry)
    requires e1.keySize <= |e1.key.bytes| && e2.keySize <= |e2.key.bytes| && e3.keySize <= |e3.key.bytes|
    requires KeyCompare(e1, e2) && KeyCompare(e2, e3)
    ensures KeyCompare(e1, e3)
  {
  }

  /** Keys with different sizes never match, even when one is a prefix of the
      other. */
  lemma KeyCompareSizes(e1: HashEntry, e2: HashEntry)
    requires e1.keySize <= |e1.key.bytes| && e2.keySize <= |e2.key.bytes|
    requires e1.keySize != e2.keySize
    ensures !KeyCompare(e1, e2)
  {
  }
}
