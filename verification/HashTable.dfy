/** The open-addressed hash table of the manifests: lookup with tombstones, and iteration. */
module HashTable {
  import opened Bytes

  type Key = x: int | 0 <= x < 0x1_0000_0000_0000_0000

  /** The two top bits of an entry: 00 is an empty slot, 10 a live one, anything else a slot that once was. */
  predicate IsEmpty(entry: uint32): (r: bool)
    ensures r <==> entry < 0x4000_0000
  {
    entry / 0x4000_0000 == 0
  }

  predicate IsLive(entry: uint32): (r: bool)
    ensures r <==> 0x8000_0000 <= entry < 0xC000_0000
  {
    entry / 0x4000_0000 == 2
  }

  /** The other bits say where the pair of a live slot is. */
  function PairIndex(entry: uint32): (i: nat)
    ensures IsLive(entry) ==> i == entry - 0x8000_0000
  {
    entry % 0x4000_0000
  }

  datatype Table<V> = Table(hashTable: seq<uint32>, keys: seq<Key>, values: seq<V>) {
    ghost predicate Live(i: nat) {
      i < |hashTable| && IsLive(hashTable[i])
    }

    /** Live entries point to pairs. */
    ghost predicate Valid() {
      && |keys| == |values|
      && forall i :: 0 <= i < |hashTable| && IsLive(hashTable[i]) ==> PairIndex(hashTable[i]) < |keys|
    }

    function KeyAt(i: nat): Key
      requires Valid() && Live(i)
    {
      keys[PairIndex(hashTable[i])]
    }

    function ValueAt(i: nat): V
      requires Valid() && Live(i)
    {
      values[PairIndex(hashTable[i])]
    }

    /** The slot that the probe sequence of a key visits after `chain` others. */
    ghost function Probe(home: nat, chain: nat): (i: nat)
      requires |hashTable| > 0
      ensures i < |hashTable|
    {
      (home + chain) % |hashTable|
    }
  }

  // ---- iteration ----

  /** The live slots from `i` on, in order. */
  ghost function LiveFrom<V>(t: Table<V>, i: nat): (slots: seq<nat>)
    requires i <= |t.hashTable|
    ensures forall s :: s in slots <==> i <= s && t.Live(s)
    decreases |t.hashTable| - i
  {
    if i == |t.hashTable| then [] else (if IsLive(t.hashTable[i]) then [i] else []) + LiveFrom(t, i + 1)
  }

  class Iterator<V> {
    const table: Table<V>
    var index: nat

    ghost predicate Valid()
      reads this
    {
      index <= |table.hashTable| && (index < |table.hashTable| ==> table.Live(index))
    }

    constructor (table: Table<V>, index: nat)
      requires index <= |table.hashTable|
      ensures this.table == table && Valid() && index <= this.index
      ensures LiveFrom(table, index) == LiveFrom(table, this.index)
    {
      this.table, this.index := table, index;
      new;
      FindNextValidIndex();
    }

    /** Moves on to the next live slot, if it does not stand on one. */
    method FindNextValidIndex()
      requires index <= |table.hashTable|
      modifies this`index
      ensures Valid() && old(index) <= index
      ensures LiveFrom(table, old(index)) == LiveFrom(table, index)
    {
      while index < |table.hashTable|
        invariant old(index) <= index <= |table.hashTable|
        invariant LiveFrom(table, old(index)) == LiveFrom(table, index)
      {
        var entry := table.hashTable[index];
        if IsLive(entry) {
          break;
        }
        index := index + 1;
      }
    }

    /** `operator ++`. */
    method Advance()
      requires Valid() && index < |table.hashTable|
      modifies this`index
      ensures Valid() && old(index) < index
      ensures LiveFrom(table, old(index)) == [old(index)] + LiveFrom(table, index)
    {
      index := index + 1;
      FindNextValidIndex();
    }
  }

  /** A loop from `begin()` to `end()`: it visits the live slots, each once. */
  method VisitAll<V>(t: Table<V>) returns (slots: seq<nat>)
    requires t.Valid()
    ensures slots == LiveFrom(t, 0)
  {
    hide LiveFrom;
    slots := [];
    var it := new Iterator(t, 0);
    NoneAtEnd(t);
    while it.index != |t.hashTable|
      invariant it.Valid() && it.table == t && fresh(it)
      invariant LiveFrom(t, 0) == slots + LiveFrom(t, it.index)
      decreases |t.hashTable| - it.index
    {
      slots := slots + [it.index];
      it.Advance();
    }
  }

  lemma NoneAtEnd<V>(t: Table<V>)
    ensures LiveFrom(t, |t.hashTable|) == []
  {
  }

  // ---- lookup ----

  /** What a lookup finds from probe `chain` on; the size of the table is `end()`. */
  ghost function FindFrom<V>(t: Table<V>, home: nat, key: Key, chain: nat): (i: nat)
    requires t.Valid() && |t.hashTable| > 0 && chain <= |t.hashTable|
    ensures i <= |t.hashTable| && (i < |t.hashTable| ==> t.Live(i) && t.KeyAt(i) == key)
    decreases |t.hashTable| - chain
  {
    if chain == |t.hashTable| then |t.hashTable|
    else
      var i := t.Probe(home, chain);
      if IsEmpty(t.hashTable[i]) then |t.hashTable|
      else if IsLive(t.hashTable[i]) && t.KeyAt(i) == key then i
      else FindFrom(t, home, key, chain + 1)
  }

  ghost function Found<V>(t: Table<V>, hash: Key -> nat, key: Key): (i: nat)
    requires t.Valid()
    ensures i <= |t.hashTable| && (i < |t.hashTable| ==> t.Live(i) && t.KeyAt(i) == key)
  {
    if |t.hashTable| == 0 then 0 else FindFrom(t, hash(key) % |t.hashTable|, key, 0)
  }

  /** `find`: at most as many probes as there are slots. */
  method Find<V>(t: Table<V>, hash: Key -> nat, key: Key) returns (i: nat)
    requires t.Valid()
    ensures i == Found(t, hash, key)
  {
    var hashSize := |t.hashTable|;
    if hashSize == 0 {
      return 0;
    }
    var bucket := hash(key) % hashSize;
    for chain := 0 to hashSize
      invariant Found(t, hash, key) == FindFrom(t, bucket, key, chain)
    {
      var elementIndex := (bucket + chain) % hashSize;
      var element := t.hashTable[elementIndex];
      if IsEmpty(element) {
        break;
      }
      if IsLive(element) && key == t.keys[PairIndex(element)] {
        return elementIndex;
      }
    }
    return hashSize;
  }

  // ---- when lookup and iteration agree ----

  /** Going round a table of `size` slots once at most. */
  lemma Wraps(x: nat, size: nat)
    requires x < 2 * size
    ensures x % size == if x < size then x else x - size
  {
  }

  /** How many slots lie between a home bucket and slot `i`, going round. */
  ghost function Distance(home: nat, i: nat, size: nat): (d: nat)
    requires home < size && i < size
    ensures d < size && (home + d) % size == i
  {
    Wraps(if i >= home then i else i + size, size);
    if i >= home then i - home else i + size - home
  }

  /** Different distances lead to different slots. */
  lemma DistanceUnique(home: nat, d: nat, size: nat)
    requires home < size && d < size
    ensures Distance(home, (home + d) % size, size) == d
  {
    Wraps(home + d, size);
  }

  /** No empty slot lies between a live key's home bucket and its slot. */
  ghost predicate Reachable<V>(t: Table<V>, hash: Key -> nat, i: nat)
    requires t.Valid() && t.Live(i)
  {
    var size := |t.hashTable|;
    var home := hash(t.KeyAt(i)) % size;
    forall c :: 0 <= c < Distance(home, i, size) ==> !IsEmpty(t.hashTable[t.Probe(home, c)])
  }

  /** What insertion and removal keep: different slots hold different keys, and each can be reached. */
  ghost predicate ProbeInvariant<V>(t: Table<V>, hash: Key -> nat)
    requires t.Valid()
  {
    && (forall i, j :: 0 <= i < j && t.Live(i) && t.Live(j) ==> t.KeyAt(i) != t.KeyAt(j))
    && (forall i :: 0 <= i && t.Live(i) ==> Reachable(t, hash, i))
  }

  /** A lookup gets to slot `i` of its key past whatever is not empty and not another slot of the key. */
  lemma {:induction false} FindReaches<V>(t: Table<V>, hash: Key -> nat, i: nat, chain: nat)
    requires t.Valid() && ProbeInvariant(t, hash) && t.Live(i)
    requires chain <= Distance(hash(t.KeyAt(i)) % |t.hashTable|, i, |t.hashTable|)
    ensures FindFrom(t, hash(t.KeyAt(i)) % |t.hashTable|, t.KeyAt(i), chain) == i
    decreases |t.hashTable| - chain
  {
    var size, key := |t.hashTable|, t.KeyAt(i);
    var home := hash(key) % size;
    var d := Distance(home, i, size);
    var slot := t.Probe(home, chain);
    if chain < d {
      assert Reachable(t, hash, i);
      DistanceUnique(home, chain, size);
      assert slot != i;
      FindReaches(t, hash, i, chain + 1);
    }
  }

  /** A lookup that ends in slot `i` found no empty slot before it. */
  lemma {:induction false} FoundIsReachable<V>(t: Table<V>, home: nat, key: Key, chain: nat, i: nat)
    requires t.Valid() && home < |t.hashTable| && chain <= |t.hashTable|
    requires FindFrom(t, home, key, chain) == i < |t.hashTable|
    ensures chain <= Distance(home, i, |t.hashTable|)
    ensures forall c :: chain <= c < Distance(home, i, |t.hashTable|) ==> !IsEmpty(t.hashTable[t.Probe(home, c)])
    decreases |t.hashTable| - chain
  {
    var slot := t.Probe(home, chain);
    DistanceUnique(home, chain, |t.hashTable|);
    if !(IsLive(t.hashTable[slot]) && t.KeyAt(slot) == key) {
      FoundIsReachable(t, home, key, chain + 1, i);
    }
  }

  /** Every live slot is what a lookup of its key finds exactly when the probe invariant holds. */
  lemma {:induction false} LookupFindsAllIff<V>(t: Table<V>, hash: Key -> nat)
    requires t.Valid()
    ensures (forall i :: i in LiveFrom(t, 0) ==> Found(t, hash, t.KeyAt(i)) == i) <==> ProbeInvariant(t, hash)
  {
    if ProbeInvariant(t, hash) {
      forall i | i in LiveFrom(t, 0)
        ensures Found(t, hash, t.KeyAt(i)) == i
      {
        FindReaches(t, hash, i, 0);
      }
    }
    if forall i :: i in LiveFrom(t, 0) ==> Found(t, hash, t.KeyAt(i)) == i {
      forall i: nat | t.Live(i)
        ensures Reachable(t, hash, i)
      {
        assert i in LiveFrom(t, 0);
        FoundIsReachable(t, hash(t.KeyAt(i)) % |t.hashTable|, t.KeyAt(i), 0, i);
      }
      forall i: nat, j: nat | i < j && t.Live(i) && t.Live(j)
        ensures t.KeyAt(i) != t.KeyAt(j)
      {
        assert i in LiveFrom(t, 0) && j in LiveFrom(t, 0);
      }
    }
  }

  /** Under the probe invariant a key is found exactly when iteration visits it, and in the slot it visits. */
  lemma {:induction false} FindAgreesWithIteration<V>(t: Table<V>, hash: Key -> nat, key: Key)
    requires t.Valid() && ProbeInvariant(t, hash)
    ensures Found(t, hash, key) < |t.hashTable| <==> exists i :: i in LiveFrom(t, 0) && t.KeyAt(i) == key
    ensures forall i :: i in LiveFrom(t, 0) && t.KeyAt(i) == key ==> Found(t, hash, key) == i
  {
    LookupFindsAllIff(t, hash);
    if Found(t, hash, key) < |t.hashTable| {
      assert Found(t, hash, key) in LiveFrom(t, 0);
    }
  }

  /** A lookup that is not stopped by the invariant can miss a key that iteration visits: the key's home bucket
      is empty. */
  lemma EmptyHomeIsMissed(hash: Key -> nat)
    requires hash(7) % 2 == 0
    ensures var t := Table([0, 0x8000_0000], [7], ["value"]);
      t.Valid() && 1 in LiveFrom(t, 0) && t.KeyAt(1) == 7 && Found(t, hash, 7) == |t.hashTable|
  {
    var t := Table([0, 0x8000_0000], [7], ["value"]);
    assert t.Live(1) && t.Probe(hash(7) % 2, 0) == 0;
  }
}
