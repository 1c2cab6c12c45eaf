/**
 * The chained hash table of names (lsub/ids.c:64-118, 154-206), refined to the history of its
 * successful insertions.
 */
module IdTable {
  import opened Wrappers

  type u32 = bv32

  const HASH_SIZE: nat := 4099
  const MAX_LINE: nat := 1024
  /** sizeof(struct id_entry) where pointers have eight bytes: 23 bytes of fields, padded. */
  const ENTRY_SIZE: nat := 24

  const ID_UNKNOWN: u32 := 0
  const ID_VENDOR: u32 := 1
  const ID_DEVICE: u32 := 2
  const ID_SUBSYSTEM: u32 := 3
  const ID_GEN_SUBSYSTEM: u32 := 4
  const ID_CLASS: u32 := 5
  const ID_SUBCLASS: u32 := 6
  const ID_PROGIF: u32 := 7

  const SRC_LOCAL: nat := 1

  /** The category and the six ids a caller gives. */
  datatype Ids = Ids(cat: u32, vendor: u32, device: u32, subsysVendor: u32, subsys: u32, base: u32, sub: u32)

  /** What the table stores and compares. */
  datatype Key = Key(cat: u32, id12: u32, id34: u32, id56: u32)

  datatype Entry = Entry(key: Key, src: nat, name: string)

  function Pair(x: u32, y: u32): u32 {
    (x << 16) | y
  }

  function KeyOf(i: Ids): Key {
    Key(i.cat, Pair(i.vendor, i.device), Pair(i.subsysVendor, i.subsys), Pair(i.base, i.sub))
  }

  function Mix(k: Key): u32 {
    k.id12 ^ (k.id34 << 3) ^ (k.id56 << 5) ^ (k.cat << 7)
  }

  function Hash(k: Key): (h: nat)
    ensures h < HASH_SIZE
  {
    Mix(k) as nat % HASH_SIZE
  }

  predicate Half(x: u32) {
    x < 0x1_0000
  }

  lemma PairParts(x: u32, y: u32)
    requires Half(x) && Half(y)
    ensures Pair(x, y) & 0xFFFF == y && Pair(x, y) >> 16 == x
  {
  }

  lemma PairInjective(x: u32, y: u32, x': u32, y': u32)
    requires Half(x) && Half(y) && Half(x') && Half(y') && Pair(x, y) == Pair(x', y')
    ensures x == x' && y == y'
  {
    PairParts(x, y);
    PairParts(x', y');
    hide Pair, Half;
  }

  /** For 16-bit ids the three pairs tell all six ids apart. */
  lemma KeysTellIdsApart(i: Ids, j: Ids)
    requires Half(i.vendor) && Half(i.device) && Half(i.subsysVendor) && Half(i.subsys) && Half(i.base) && Half(i.sub)
    requires Half(j.vendor) && Half(j.device) && Half(j.subsysVendor) && Half(j.subsys) && Half(j.base) && Half(j.sub)
    ensures KeyOf(i) == KeyOf(j) <==> i == j
  {
    hide Pair, Half;
    if KeyOf(i) == KeyOf(j) {
      PairInjective(i.vendor, i.device, j.vendor, j.device);
      PairInjective(i.subsysVendor, i.subsys, j.subsysVendor, j.subsys);
      PairInjective(i.base, i.sub, j.base, j.sub);
    }
  }

  // ----- the history and its buckets

  /** The entries of one bucket, newest first. */
  function Bucket(log: seq<Entry>, h: nat): seq<Entry> {
    if log == [] then []
    else
      var e := log[|log| - 1];
      (if Hash(e.key) == h then [e] else []) + Bucket(log[..|log| - 1], h)
  }

  /** What a walk over a bucket keeps: the first entry with the key and the highest source. */
  function Scan(list: seq<Entry>, key: Key): Option<Entry> {
    if list == [] then None
    else
      var b, e := Scan(list[..|list| - 1], key), list[|list| - 1];
      if e.key == key && (b.None? || b.value.src < e.src) then Some(e) else b
  }

  /**
   * Entry `i` answers a lookup: it has the key, and no other entry with the key has a higher source or is a
   * newer equal.
   */
  ghost predicate Answers(log: seq<Entry>, key: Key, i: nat) {
    && i < |log| && log[i].key == key
    && forall j :: 0 <= j < |log| && log[j].key == key && j != i ==>
         log[j].src < log[i].src || (log[j].src == log[i].src && j < i)
  }

  /** The entry a lookup finds in a history. */
  function Best(log: seq<Entry>, key: Key): Option<Entry> {
    if log == [] then None
    else
      var b, e := Best(log[..|log| - 1], key), log[|log| - 1];
      if e.key == key && (b.None? || b.value.src <= e.src) then Some(e) else b
  }

  /** A lookup finds the entry that answers it, or nothing when no entry has the key. */
  lemma {:induction false} BestAnswers(log: seq<Entry>, key: Key)
    ensures var r := Best(log, key);
      && (r.Some? ==> exists i: nat :: Answers(log, key, i) && log[i] == r.value)
      && (r.None? ==> forall i :: 0 <= i < |log| ==> log[i].key != key)
  {
    if log != [] {
      var n := |log| - 1;
      var b, e := Best(log[..n], key), log[n];
      BestAnswers(log[..n], key);
      assert forall j :: 0 <= j < n ==> log[..n][j] == log[j];
      if b.Some? {
        var i: nat :| Answers(log[..n], key, i) && log[..n][i] == b.value;
        assert if e.key == key && b.value.src <= e.src then Answers(log, key, n) else Answers(log, key, i);
      } else if e.key == key {
        assert Answers(log, key, n);
      }
    }
  }

  lemma {:induction false} ScanPrepend(e: Entry, list: seq<Entry>, key: Key)
    ensures Scan([e] + list, key) ==
      var b := Scan(list, key);
      if e.key == key && (b.None? || b.value.src <= e.src) then Some(e) else b
  {
    if list == [] {
      assert [e] + list == [e];
    } else {
      var n := |list| - 1;
      ScanPrepend(e, list[..n], key);
      assert ([e] + list)[..n + 1] == [e] + list[..n];
    }
  }

  /** Walking the key's own bucket finds what the whole history says. */
  lemma {:induction false} ScanIsBest(log: seq<Entry>, key: Key)
    ensures Scan(Bucket(log, Hash(key)), key) == Best(log, key)
  {
    if log != [] {
      var n := |log| - 1;
      ScanIsBest(log[..n], key);
      ScanPrepend(log[n], Bucket(log[..n], Hash(key)), key);
      assert [] + Bucket(log[..n], Hash(key)) == Bucket(log[..n], Hash(key));
    }
  }

  lemma {:induction false} BucketMembers(log: seq<Entry>, h: nat, e: Entry)
    ensures e in Bucket(log, h) <==> e in log && Hash(e.key) == h
  {
    if log != [] {
      var n := |log| - 1;
      BucketMembers(log[..n], h, e);
      assert log == log[..n] + [log[n]];
    }
  }

  /** The insertion test as written: an entry of the bucket with the same id12, id34 and cat, and with id56 zero. */
  predicate Blocks(e: Entry, key: Key) {
    e.key.id12 == key.id12 && e.key.id34 == key.id34 && e.key.id56 == 0 && e.key.cat == key.cat
  }

  ghost predicate Blocked(log: seq<Entry>, key: Key) {
    exists e :: e in log && Hash(e.key) == Hash(key) && Blocks(e, key)
  }

  predicate Fits(name: string) {
    ENTRY_SIZE + |name| + 1 < MAX_LINE
  }

  /** A name is short enough exactly when it has at most 998 characters. */
  lemma FitsIff(name: string)
    ensures Fits(name) <==> |name| <= 998
  {
  }

  /** The table is what its history says. */
  ghost predicate Reflects(buckets: seq<seq<Entry>>, log: seq<Entry>) {
    |buckets| == HASH_SIZE && forall h: nat :: h < HASH_SIZE ==> buckets[h] == Bucket(log, h)
  }

  class Table {
    var buckets: array?<seq<Entry>>
    ghost var log: seq<Entry>

    constructor ()
      ensures Valid() && log == [] && buckets == null
    {
      buckets, log := null, [];
    }

    ghost predicate Valid()
      reads this, buckets
    {
      if buckets == null then log == [] else Reflects(buckets[..], log)
    }

    /** ub_id_lookup */
    method Lookup(ids: Ids) returns (r: Option<string>)
      requires Valid()
      ensures var b := Best(log, KeyOf(ids)); r == if b.Some? then Some(b.value.name) else None
    {
      var key := KeyOf(ids);
      if buckets == null {
        return None;
      }
      var list := buckets[Hash(key)];
      var best: Option<Entry> := None;
      var n := 0;
      while n < |list|
        invariant n <= |list| && best == Scan(list[..n], key)
      {
        assert list[..n + 1][..n] == list[..n];
        if list[n].key == key && (best.None? || best.value.src < list[n].src) {
          best := Some(list[n]);
        }
        n := n + 1;
      }
      assert list[..n] == list;
      ScanIsBest(log, key);
      r := if best.Some? then Some(best.value.name) else None;
    }

    /** ub_id_insert: 0 when the entry was stored, -1 when it was refused. */
    method Insert(ids: Ids, text: string, src: nat) returns (ret: int)
      requires Valid() && ids.cat < 0x100
      modifies this, buckets
      ensures Valid() && (old(buckets) == null || buckets == old(buckets) || fresh(buckets))
      ensures old(buckets) == null ==> buckets == null || fresh(buckets)
      ensures old(buckets) != null ==> buckets == old(buckets)
      ensures ret == if Blocked(old(log), KeyOf(ids)) || !Fits(text) then -1 else 0
      ensures log == old(log) + if ret == 0 then [Entry(KeyOf(ids), src, text)] else []
    {
      var key := KeyOf(ids);
      var h := Hash(key);
      var blocked := false;
      if buckets != null {
        blocked := Blocking(buckets[h], key);
        BlockedInBucket(log, key);
      }
      if blocked {
        return -1;
      }
      if buckets == null {
        buckets := new seq<Entry>[HASH_SIZE](_ => []);
      }
      if ENTRY_SIZE + |text| + 1 >= MAX_LINE {
        return -1;
      }
      var e := Entry(key, src, text);
      ghost var was := buckets[..];
      buckets[h] := [e] + buckets[h];
      log := log + [e];
      assert log[..|log| - 1] == old(log);
      ret := 0;
    }

    static method Blocking(list: seq<Entry>, key: Key) returns (found: bool)
      ensures found <==> exists e :: e in list && Blocks(e, key)
    {
      var n := 0;
      while n < |list| && !Blocks(list[n], key)
        invariant n <= |list| && forall k :: 0 <= k < n ==> !Blocks(list[k], key)
      {
        n := n + 1;
      }
      found := n < |list|;
    }
  }

  lemma BlockedInBucket(log: seq<Entry>, key: Key)
    ensures Blocked(log, key) <==> exists e :: e in Bucket(log, Hash(key)) && Blocks(e, key)
  {
    forall e
      ensures e in Bucket(log, Hash(key)) <==> e in log && Hash(e.key) == Hash(key)
    {
      BucketMembers(log, Hash(key), e);
    }
  }

  // ----- what the insertion test is, compared with a test for duplicates

  ghost predicate Present(log: seq<Entry>, key: Key) {
    exists e :: e in log && e.key == key
  }

  /** The key that the test really looks for. */
  function ZeroMate(key: Key): Key {
    key.(id56 := 0)
  }

  /** The test refuses a key exactly when its zero mate is stored and falls into the same bucket. */
  lemma BlockedIff(log: seq<Entry>, key: Key)
    ensures Blocked(log, key) <==> Present(log, ZeroMate(key)) && Hash(ZeroMate(key)) == Hash(key)
  {
    if Present(log, ZeroMate(key)) && Hash(ZeroMate(key)) == Hash(key) {
      var e :| e in log && e.key == ZeroMate(key);
      assert Blocks(e, key);
    }
  }

  /** As a test for duplicates of a key it is right, whatever is stored, exactly for keys whose id56 is zero. */
  lemma TestFindsDuplicatesIff(key: Key)
    ensures (forall log: seq<Entry> :: Blocked(log, key) <==> Present(log, key)) <==> key.id56 == 0
  {
    forall log: seq<Entry>
      ensures Blocked(log, key) <==> Present(log, ZeroMate(key)) && Hash(ZeroMate(key)) == Hash(key)
    {
      BlockedIff(log, key);
    }
    if key.id56 == 0 {
      assert ZeroMate(key) == key;
    } else {
      var log := [Entry(key, SRC_LOCAL, "")];
      assert log[0] in log;
      assert Present(log, key) && !Blocked(log, key);
    }
  }

  /** A second vendor line with the same id is accepted, and then hides the first. */
  lemma {:induction false} DuplicateVendorAccepted(vendor: u32, first: string, second: string)
    ensures var key := KeyOf(Ids(ID_VENDOR, vendor, 0, 0, 0, 0, 0xFF));
      var log := [Entry(key, SRC_LOCAL, first)];
      && Present(log, key) && !Blocked(log, key)
      && Best(log + [Entry(key, SRC_LOCAL, second)], key) == Some(Entry(key, SRC_LOCAL, second))
  {
    var key := KeyOf(Ids(ID_VENDOR, vendor, 0, 0, 0, 0, 0xFF));
    var log := [Entry(key, SRC_LOCAL, first)];
    assert log[0] in log;
    assert Pair(0, 0xFF) == 0xFF;
    assert (log + [Entry(key, SRC_LOCAL, second)])[..1] == log;
    assert Best(log[..0], key) == None;
  }
}
