/** Archives stacked on one another: the first that holds a file counts, for its contents as for its size. */
module Archives {
  import opened Bytes
  import opened HashTable

  /** What a manifest says of a file; the contents stand for what reading the entry gives, `None` where that
      throws: it does not decompress, or its checksum or signature is wrong. */
  datatype FileEntry = FileEntry(uncompressedSize: nat, cachedSize: nat, contents: Option<seq<byte>>)

  datatype Outcome = Data(bytes: seq<byte>) | NotFound | Thrown

  datatype Archive = Archive(hasFileSignatures: bool, files: Table<FileEntry>) {
    ghost predicate Valid(hash: Key -> nat) {
      files.Valid() && ProbeInvariant(files, hash)
    }

    /** `readFileByKey`, up to the reading of the entry it found. */
    method ReadFileByKey(hash: Key -> nat, key: Key) returns (r: Option<FileEntry>)
      requires Valid(hash)
      ensures r == EntryIn(this, hash, key)
    {
      var i := Find(files, hash, key);
      r := if i == |files.hashTable| then None else Some(files.ValueAt(i));
    }
  }

  ghost function EntryIn(a: Archive, hash: Key -> nat, key: Key): Option<FileEntry>
    requires a.files.Valid()
  {
    var i := Found(a.files, hash, key);
    if i == |a.files.hashTable| then None else Some(a.files.ValueAt(i))
  }

  ghost predicate AllValid(archives: seq<Archive>, hash: Key -> nat) {
    forall i :: 0 <= i < |archives| ==> archives[i].Valid(hash)
  }

  /** The first archive from `from` on that holds a key; their number if none does. */
  ghost function SourceOf(archives: seq<Archive>, hash: Key -> nat, key: Key, from: nat): (i: nat)
    requires AllValid(archives, hash) && from <= |archives|
    ensures from <= i <= |archives| && (i < |archives| ==> EntryIn(archives[i], hash, key).Some?)
    ensures forall j :: from <= j < i ==> EntryIn(archives[j], hash, key) == None
    decreases |archives| - from
  {
    if from == |archives| then from
    else if EntryIn(archives[from], hash, key).Some? then from
    else SourceOf(archives, hash, key, from + 1)
  }

  /** `tryReadFileByKey`: an entry that cannot be read is an error even when a later archive has the file. */
  method TryReadFileByKey(archives: seq<Archive>, hash: Key -> nat, key: Key) returns (data: Outcome)
    requires AllValid(archives, hash)
    ensures var i := SourceOf(archives, hash, key, 0);
      if i == |archives| then data == NotFound
      else if EntryIn(archives[i], hash, key).value.contents == None then data == Thrown
      else data == Data(EntryIn(archives[i], hash, key).value.contents.value)
  {
    hide EntryIn;
    for i := 0 to |archives|
      invariant SourceOf(archives, hash, key, 0) == SourceOf(archives, hash, key, i)
    {
      assert archives[i].Valid(hash);
      var entry := archives[i].ReadFileByKey(hash, key);
      if entry.Some? {
        match entry.value.contents {
          case None => return Thrown;
          case Some(bytes) => return Data(bytes);
        }
      }
    }
    data := NotFound;
  }

  /** The size of an entry: an archive with signatures counts them, and says in the entry what it reports. */
  ghost function SizeOf(a: Archive, entry: FileEntry): nat {
    if a.hasFileSignatures then entry.cachedSize else entry.uncompressedSize
  }

  /** The size that an archive's own entry of a key has. */
  ghost function SizeIn(a: Archive, hash: Key -> nat, key: Key): nat
    requires a.files.Valid()
  {
    match EntryIn(a, hash, key) case None => 0 case Some(entry) => SizeOf(a, entry)
  }

  /** The size in the first archive that holds a key. */
  ghost function SizeOfFirst(archives: seq<Archive>, hash: Key -> nat, key: Key): nat
    requires AllValid(archives, hash)
  {
    var i := SourceOf(archives, hash, key, 0);
    if i == |archives| then 0 else SizeIn(archives[i], hash, key)
  }

  /** The files of a map that was filled from the first `n` archives. */
  ghost predicate Filled(archives: seq<Archive>, hash: Key -> nat, files: map<Key, nat>, n: nat)
    requires AllValid(archives, hash) && n <= |archives|
  {
    && (forall key :: key in files <==> SourceOf(archives, hash, key, 0) < n)
    && (forall key :: key in files ==> files[key] == SizeOfFirst(archives, hash, key))
  }

  /** A map to which the entries in some slots of an archive have been added. */
  ghost predicate Added(a: Archive, hash: Key -> nat, before: map<Key, nat>, files: map<Key, nat>, slots: set<nat>)
    requires a.files.Valid()
  {
    && (forall key :: key in files <==>
          key in before || exists s :: s in slots && a.files.Live(s) && a.files.KeyAt(s) == key)
    && (forall key :: key in files ==> files[key] == if key in before then before[key] else SizeIn(a, hash, key))
  }

  lemma {:induction false} AddSlot(a: Archive, hash: Key -> nat, before: map<Key, nat>, files: map<Key, nat>,
                                   slots: set<nat>, s: nat)
    requires a.Valid(hash) && a.files.Live(s) && Added(a, hash, before, files, slots)
    ensures var key := a.files.KeyAt(s);
      Added(a, hash, before, if key in files then files else files[key := SizeOf(a, a.files.ValueAt(s))], slots + {s})
  {
    hide Found;
    var key := a.files.KeyAt(s);
    FindAgreesWithIteration(a.files, hash, key);
    assert s in LiveFrom(a.files, 0) && Found(a.files, hash, key) == s;
    assert SizeIn(a, hash, key) == SizeOf(a, a.files.ValueAt(s));
  }

  lemma {:induction false} AddedAll(a: Archive, hash: Key -> nat, before: map<Key, nat>, files: map<Key, nat>,
                                    slots: set<nat>, key: Key)
    requires a.Valid(hash) && Added(a, hash, before, files, slots) && forall s :: s in slots <==> a.files.Live(s)
    ensures key in files <==> key in before || EntryIn(a, hash, key).Some?
    ensures key in files ==> files[key] == if key in before then before[key] else SizeIn(a, hash, key)
  {
    hide Found;
    FindAgreesWithIteration(a.files, hash, key);
  }

  lemma NothingAdded(a: Archive, hash: Key -> nat, files: map<Key, nat>)
    requires a.files.Valid()
    ensures Added(a, hash, files, files, {})
  {
  }

  /** `enumerateFiles` of one archive, into a map whose `emplace` keeps what is there. */
  method EnumerateArchive(a: Archive, ghost hash: Key -> nat, before: map<Key, nat>) returns (files: map<Key, nat>)
    requires a.Valid(hash)
    ensures forall key :: key in files <==> key in before || EntryIn(a, hash, key).Some?
    ensures forall key :: key in files ==> files[key] == if key in before then before[key] else SizeIn(a, hash, key)
  {
    hide EntryIn, SizeIn, Added, ProbeInvariant, LiveFrom;
    files := before;
    NothingAdded(a, hash, before);
    var slots := VisitAll(a.files);
    ghost var done: set<nat> := {};
    for i := 0 to |slots|
      invariant Added(a, hash, before, files, done)
      invariant forall s :: s in done <==> s in slots[..i]
    {
      AddSlot(a, hash, before, files, done, slots[i]);
      var key, entry := a.files.KeyAt(slots[i]), a.files.ValueAt(slots[i]);
      var size := if a.hasFileSignatures then entry.cachedSize else entry.uncompressedSize;
      if key !in files {
        files := files[key := size];
      }
      done := done + {slots[i]};
    }
    assert slots[..|slots|] == slots;
    forall key
      ensures key in files <==> key in before || EntryIn(a, hash, key).Some?
      ensures key in files ==> files[key] == if key in before then before[key] else SizeIn(a, hash, key)
    {
      AddedAll(a, hash, before, files, done, key);
    }
  }

  lemma {:induction false} SourceStep(archives: seq<Archive>, hash: Key -> nat, key: Key, n: nat)
    requires AllValid(archives, hash) && n < |archives|
    ensures SourceOf(archives, hash, key, 0) < n + 1 <==>
      SourceOf(archives, hash, key, 0) < n || EntryIn(archives[n], hash, key).Some?
    ensures SourceOf(archives, hash, key, 0) == n ==> SizeOfFirst(archives, hash, key) == SizeIn(archives[n], hash, key)
  {
    hide EntryIn, SizeIn;
  }

  lemma SizeOfSource(archives: seq<Archive>, hash: Key -> nat, key: Key)
    requires AllValid(archives, hash) && SourceOf(archives, hash, key, 0) < |archives|
    ensures var i := SourceOf(archives, hash, key, 0);
      SizeOfFirst(archives, hash, key) ==
        if archives[i].hasFileSignatures then EntryIn(archives[i], hash, key).value.cachedSize
        else EntryIn(archives[i], hash, key).value.uncompressedSize
  {
    hide EntryIn;
  }

  /** `initialize` fills its map from `enumerateFiles`: each key's size comes from the archive that
      `tryReadFileByKey` reads it from. */
  method EnumerateFiles(archives: seq<Archive>, ghost hash: Key -> nat) returns (files: map<Key, nat>)
    requires AllValid(archives, hash)
    ensures Filled(archives, hash, files, |archives|)
    ensures forall key :: key in files ==> var i := SourceOf(archives, hash, key, 0);
      i < |archives| && files[key] ==
        if archives[i].hasFileSignatures then EntryIn(archives[i], hash, key).value.cachedSize
        else EntryIn(archives[i], hash, key).value.uncompressedSize
  {
    hide SourceOf, EntryIn, SizeIn, SizeOfFirst;
    files := map[];
    for i := 0 to |archives|
      invariant Filled(archives, hash, files, i)
    {
      forall key
        ensures SourceOf(archives, hash, key, 0) < i + 1 <==>
          SourceOf(archives, hash, key, 0) < i || EntryIn(archives[i], hash, key).Some?
        ensures SourceOf(archives, hash, key, 0) == i ==>
          SizeOfFirst(archives, hash, key) == SizeIn(archives[i], hash, key)
      {
        SourceStep(archives, hash, key, i);
      }
      assert archives[i].Valid(hash);
      files := EnumerateArchive(archives[i], hash, files);
    }
    forall key | key in files
      ensures var i := SourceOf(archives, hash, key, 0);
        i < |archives| && files[key] ==
          if archives[i].hasFileSignatures then EntryIn(archives[i], hash, key).value.cachedSize
          else EntryIn(archives[i], hash, key).value.uncompressedSize
    {
      SizeOfSource(archives, hash, key);
    }
  }
}
