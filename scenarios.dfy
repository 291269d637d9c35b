/** The first three tests of tst/main.c, stated against the model: a table with
    borrowed keys and values (HT_KEY_CONST | HT_VALUE_CONST) and a load-factor
    limit of 0.05 takes one pair, has its value replaced, and loses it again.
    The digest is left open: the tests' outcome does not depend on it. */
module Scenarios {
  import opened ChainModel
  import opened HashItem
  import opened HashCore

  /** "testKEY 1" with its terminating NUL: the strlen + 1 bytes the tests
      pass. */
  const Key1: Bytes := [0x74, 0x65, 0x73, 0x74, 0x4B, 0x45, 0x59, 0x20, 0x31, 0x00]
  /** "testDATA 1" with its NUL. */
  const Data1: Bytes := [0x74, 0x65, 0x73, 0x74, 0x44, 0x41, 0x54, 0x41, 0x20, 0x31, 0x00]
  /** "testDATA 2" with its NUL. */
  const Data2: Bytes := [0x74, 0x65, 0x73, 0x74, 0x44, 0x41, 0x54, 0x41, 0x20, 0x32, 0x00]

  /** The flags main() initialises the table with. */
  const TestFlags: Flags := HT_KEY_CONST | HT_VALUE_CONST

  /** main_test1: insert {Key1: Data1} into the empty table; the key is then
      found, and its value has Data1's size. */
  method Test1(t: HashTable, key: Buffer, data1: Buffer) returns (contains: bool, valueSize: nat)
    requires t.Valid() && t.Contents() == map[] && t.flags == TestFlags
    requires key.bytes == Key1 && data1.bytes == Data1
    modifies t, t.buckets, t.Nodes()
    ensures t.Valid() && t.Contents() == map[Key1 := Data1] && t.flags == TestFlags
    ensures contains && valueSize == |Data1|
    ensures t.buckets == old(t.buckets) || fresh(t.buckets)
    ensures forall x | x in t.Nodes() :: x in old(t.Nodes()) || fresh(x)
  {
    assert key.bytes[..|Key1|] == Key1 && data1.bytes[..|Data1|] == Data1;
    var released, resized, replaced := t.Insert(key, |Key1|, data1, |Data1|, 1);
    contains := t.Contains(key, |Key1|);
    var value;
    value, valueSize := t.Get(key, |Key1|, 0);
  }

  /** main_test2: insert {Key1: Data2}; the table still has one key, the key
      list is not null, and the value now has Data2's size. */
  method Test2(t: HashTable, key: Buffer, data2: Buffer) returns (keyCount: nat, keysNonNull: bool, valueSize: nat)
    requires t.Valid() && t.Contents() == map[Key1 := Data1] && t.flags == TestFlags
    requires key.bytes == Key1 && data2.bytes == Data2
    modifies t, t.buckets, t.Nodes()
    ensures t.Valid() && t.Contents() == map[Key1 := Data2] && t.flags == TestFlags
    ensures keyCount == 1 && keysNonNull && valueSize == |Data2|
    ensures t.buckets == old(t.buckets) || fresh(t.buckets)
    ensures forall x | x in t.Nodes() :: x in old(t.Nodes()) || fresh(x)
  {
    assert key.bytes[..|Key1|] == Key1 && data2.bytes[..|Data2|] == Data2;
    var released, resized, replaced := t.Insert(key, |Key1|, data2, |Data2|, 1);
    assert t.Contents() == map[Key1 := Data2];
    ghost var n := t.Size();
    var keys, reported; ghost var reportedAsWritten;
    keys, keyCount, reported, reportedAsWritten := t.Keys();
    keysNonNull := keys != null;
    var value;
    value, valueSize := t.Get(key, |Key1|, 0);
  }

  /** main_test3: remove Key1; it is then missing and the table lists no
      keys. */
  method Test3(t: HashTable, key: Buffer) returns (contains: bool, keyCount: nat)
    requires t.Valid() && t.Contents() == map[Key1 := Data2]
    requires key.bytes == Key1
    modifies t, t.buckets, t.Nodes()
    ensures t.Valid() && t.Contents() == map[]
    ensures !contains && keyCount == 0
  {
    assert key.bytes[..|Key1|] == Key1;
    var released, removed := t.Remove(key, |Key1|);
    assert t.Contents() == map[];
    ghost var n := t.Size();
    contains := t.Contains(key, |Key1|);
    var keys, reported; ghost var reportedAsWritten;
    keys, keyCount, reported, reportedAsWritten := t.Keys();
  }

  /** main(): initialise a table under digest h and apply the three tests to
      it; every check the tests make holds. */
  method Run(h: DigestFn) returns (contains1: bool, size1: nat, keys2: nat, keysNonNull2: bool, size2: nat,
                                  contains3: bool, keys3: nat)
    ensures contains1 && size1 == 11
    ensures keys2 == 1 && keysNonNull2 && size2 == 11
    ensures !contains3 && keys3 == 0
  {
    var t := new HashTable();
    t.Init(TestFlags, 0.05, Bound(h));
    var key := new Buffer(Key1);
    var data1 := new Buffer(Data1);
    var data2 := new Buffer(Data2);
    contains1, size1 := Test1(t, key, data1);
    keys2, keysNonNull2, size2 := Test2(t, key, data2);
    contains3, keys3 := Test3(t, key);
    var released := t.Destroy();
  }
}
