/** Files, their mapped entries, and the cache of entries. */
module Storage {
  import opened Seqs
  import opened Bytes
  import opened Paths
  import opened Segments
  import Lru

  /** The contents of a file grown to `n` bytes. */
  function Extended(s: seq<byte>, n: nat): (r: seq<byte>)
    ensures |r| == Max(n, |s|)
    ensures r[..|s|] == s
  {
    if n <= |s| then s else s + seq(n - |s|, _ => 0)
  }

  /** The contents after `message` is stored at `offset`. */
  function Overlay(s: seq<byte>, offset: nat, message: seq<byte>): (r: seq<byte>)
    requires offset + |message| <= |s|
    ensures |r| == |s|
    ensures r[..offset] == s[..offset] && r[offset..offset + |message|] == message
  {
    s[..offset] + message + s[offset + |message|..]
  }

  type Contents = map<FilePath, seq<byte>>

  /** Opening a file: one that is missing or empty is given `size` zero bytes. */
  function Opened(disk: Contents, path: FilePath, size: nat): (r: Contents)
    ensures path in r
    ensures forall p | p in disk && p != path :: p in r && r[p] == disk[p]
    ensures path in disk ==> disk[path] <= r[path]
  {
    if path in disk && disk[path] != [] then disk else disk[path := Extended([], size)]
  }

  /** The capacity of a file after a write that needs `required` bytes. */
  function CapacityFor(required: nat, current: nat, increment: int): nat {
    if required > current then Max(required, increment + current) else current
  }

  /** A write: the file grows if it must, and the message lands at its offset. */
  function Written(content: seq<byte>, offset: nat, message: seq<byte>, increment: int): (r: seq<byte>)
    ensures |r| >= offset + |message| && r[offset..offset + |message|] == message
    ensures offset <= |content| ==> content[..offset] <= r
  {
    Overlay(Extended(content, CapacityFor(offset + |message|, |content|, increment)), offset, message)
  }

  /** A write in full: where the file has room it keeps its length, otherwise it takes the larger of what is needed and
      one increment; the message stands at its offset, every other byte is kept, and new bytes are zero. */
  lemma WrittenIs(content: seq<byte>, offset: nat, message: seq<byte>, increment: int)
    ensures
      var r, end := Written(content, offset, message, increment), offset + |message|;
      && |r| == (if end <= |content| then |content| else Max(end, increment + |content|))
      && forall i | 0 <= i < |r| ::
           r[i] == if offset <= i < end then message[i - offset] else if i < |content| then content[i] else 0
  {
    var grown := Extended(content, CapacityFor(offset + |message|, |content|, increment));
    assert forall i | 0 <= i < |grown| :: grown[i] == if i < |content| then content[i] else 0;
  }

  /** Opening touches one file, and that only if it is missing or empty. */
  lemma OpenedIs(disk: Contents, path: FilePath, size: nat)
    ensures
      var r := Opened(disk, path, size);
      && r.Keys == disk.Keys + {path}
      && (forall p | p in disk && (p != path || disk[p] != []) :: r[p] == disk[p])
      && (path !in disk || disk[path] == [] ==> |r[path]| == size && forall i | 0 <= i < size :: r[path][i] == 0)
  {
  }

  /** The files by path. A mapping of a file is the file's own array of bytes. */
  class Disk {
    var files: map<FilePath, array<byte>>

    ghost predicate Valid()
      reads this
    {
      forall p, q | p in files && q in files && p != q :: files[p] != files[q]
    }

    constructor ()
      ensures files == map[] && Valid()
    {
      files := map[];
    }

    ghost function Snapshot(): Contents
      reads this, files.Values
    {
      map p | p in files :: files[p][..]
    }

    /** `open` of a new file or `truncate` to a larger size. */
    method Grow(path: FilePath, size: nat)
      requires Valid()
      requires path in files ==> files[path].Length <= size
      modifies this
      ensures Valid()
      ensures path in files && fresh(files[path])
      ensures files == old(files)[path := files[path]]
      ensures files[path][..] == Extended(if path in old(files) then old(files[path][..]) else [], size)
    {
      ghost var before := if path in files then files[path][..] else [];
      var grown := new byte[size](_ => 0);
      if path in files {
        var current := files[path];
        forall i | 0 <= i < current.Length {
          grown[i] := current[i];
        }
      }
      files := files[path := grown];
      assert grown[..] == Extended(before, size);
    }

    /** The file as it is, or with `size` bytes if it is missing or empty. */
    method Open(path: FilePath, size: nat)
      requires Valid() && size > 0
      modifies this
      ensures Valid()
      ensures path in files && files[path].Length > 0 && files == old(files)[path := files[path]]
      ensures fresh(files[path]) || (path in old(files) && files[path] == old(files)[path])
      ensures Snapshot() == Opened(old(Snapshot()), path, size)
    {
      ghost var before := Snapshot();
      if path !in files || files[path].Length == 0 {
        Grow(path, size);
        assert Snapshot() == before[path := files[path][..]];
      }
    }

    lemma OpenedAlready(path: FilePath, size: nat)
      requires path in files && files[path].Length > 0
      ensures Opened(Snapshot(), path, size) == Snapshot()
    {
    }
  }

  class Entry {
    const filepath: FilePath
    const mutable: bool
    const initSegmentSize: nat
    const segmentSizeInc: int
    /** The segment the entry was created for. */
    ghost const owner: SegmentMeta

    var mv: array?<byte>
    var capacity: int
    var refcount: int

    constructor (meta: SegmentMeta, initSegmentSize: nat, segmentSizeInc: int)
      ensures filepath == meta.path && mutable == meta.IsMutable() && owner == meta
      ensures this.initSegmentSize == initSegmentSize && this.segmentSizeInc == segmentSizeInc
      ensures mv == null && refcount == 0
    {
      filepath, mutable, owner := meta.path, meta.IsMutable(), meta;
      this.initSegmentSize, this.segmentSizeInc := initSegmentSize, segmentSizeInc;
      mv, capacity, refcount := null, 0, 0;
    }

    /** The entry maps the file as it is now. */
    ghost predicate Maps(disk: Disk)
      reads this, disk
    {
      && mv != null
      && filepath in disk.files && disk.files[filepath] == mv
      && capacity == mv.Length > 0
    }

    method Load(disk: Disk)
      requires disk.Valid() && initSegmentSize > 0
      requires mv != null ==> Maps(disk)
      modifies this, disk
      ensures disk.Valid() && Maps(disk) && refcount == old(refcount)
      ensures disk.Snapshot() == Opened(old(disk.Snapshot()), filepath, initSegmentSize)
      ensures disk.files == old(disk.files)[filepath := mv]
      ensures fresh(mv) || (filepath in old(disk.files) && mv == old(disk.files)[filepath])
    {
      hide Opened, Disk.Snapshot;
      if mv == null {
        disk.Open(filepath, initSegmentSize);
        mv := disk.files[filepath];
        capacity := mv.Length;
      } else {
        disk.OpenedAlready(filepath, initSegmentSize);
      }
    }

    /** A slice of the mapping, cut short at its end. */
    function ReadBytes(offset: nat, length: nat): seq<byte>
      requires mv != null
      reads this, mv
    {
      mv[Min(offset, mv.Length)..Min(offset + length, mv.Length)]
    }

    method Write(disk: Disk, offset: nat, message: seq<byte>) returns (ok: bool)
      requires disk.Valid() && Maps(disk)
      modifies this, disk, mv
      ensures disk.Valid() && Maps(disk) && refcount == old(refcount)
      ensures ok == mutable
      ensures disk.files == old(disk.files)[filepath := mv]
      ensures mv == old(mv) || fresh(mv)
      ensures mv[..] == if ok then Written(old(mv[..]), offset, message, segmentSizeInc) else old(mv[..])
    {
      if !mutable {
        return false;
      }
      if offset + |message| > capacity {
        IncreaseCapacity(disk, offset + |message|);
      }
      Store(offset, message);
      return true;
    }

    /** The slice assignment to the mapping. */
    method Store(offset: nat, message: seq<byte>)
      requires mv != null && offset + |message| <= mv.Length
      modifies mv
      ensures mv[..] == Overlay(old(mv[..]), offset, message)
    {
      forall i | offset <= i < offset + |message| {
        mv[i] := message[i - offset];
      }
    }

    method IncreaseCapacity(disk: Disk, required: nat)
      requires disk.Valid() && Maps(disk)
      modifies this, disk
      ensures disk.Valid() && Maps(disk) && refcount == old(refcount)
      ensures disk.files == old(disk.files)[filepath := mv]
      ensures mv == old(mv) || fresh(mv)
      ensures mv.Length == CapacityFor(required, old(mv.Length), segmentSizeInc)
      ensures mv[..] == Extended(old(mv[..]), mv.Length)
    {
      if capacity < required {
        var newCapacity := Max(required, segmentSizeInc + capacity);
        disk.Grow(filepath, newCapacity);
        mv := disk.files[filepath];
        capacity := newCapacity;
      }
    }

    /** Unmaps and closes the file; what was written stays in it. */
    method Release()
      modifies this
      ensures mv == null && refcount == old(refcount)
    {
      mv := null;
    }
  }

  /** The recency order lists each cached key once. */
  ghost predicate Indexed(order: seq<string>, cache: map<string, Entry>) {
    NoDup(order) && forall k :: k in order <==> k in cache
  }

  lemma DropOldest(order: seq<string>, cache: map<string, Entry>)
    requires Indexed(order, cache) && order != []
    ensures Indexed(order[1..], cache - {order[0]})
  {
    assert order == [order[0]] + order[1..];
  }

  /** No cached entry waits for cleanup. */
  ghost predicate Apart(cache: map<string, Entry>, queue: seq<Entry>) {
    forall k | k in cache :: cache[k] !in queue
  }

  /** The entries of these keys, in order. */
  function EntriesOf(keys: seq<string>, cache: map<string, Entry>): seq<Entry>
    requires forall k | k in keys :: k in cache
  {
    if keys == [] then []
    else EntriesOf(keys[..|keys| - 1], cache) + [cache[keys[|keys| - 1]]]
  }

  lemma NoEntries(cache: map<string, Entry>)
    ensures EntriesOf([], cache) == []
  {
  }

  lemma {:induction false} EntriesAreValues(keys: seq<string>, cache: map<string, Entry>)
    requires forall k | k in keys :: k in cache
    ensures forall e | e in EntriesOf(keys, cache) :: e in cache.Values
  {
    if keys != [] {
      EntriesAreValues(keys[..|keys| - 1], cache);
    }
  }

  lemma EntriesSnoc(keys: seq<string>, cache: map<string, Entry>, i: nat)
    requires i < |keys| && forall k | k in keys :: k in cache
    ensures EntriesOf(keys[..i + 1], cache) == EntriesOf(keys[..i], cache) + [cache[keys[i]]]
  {
    assert keys[..i + 1][..i] == keys[..i];
  }

  lemma QueueOldest(cache: map<string, Entry>, queue: seq<Entry>, key: string)
    requires Apart(cache, queue) && key in cache
    requires forall k | k in cache && k != key :: cache[k].filepath != cache[key].filepath
    ensures Apart(cache - {key}, queue + [cache[key]])
  {
  }

  lemma TouchIndexed(order: seq<string>, cache: map<string, Entry>, key: string, entry: Entry)
    requires Indexed(order, cache)
    ensures Indexed(Lru.Touch(order, key), cache[key := entry])
  {
    WithoutKeepsDistinct(order, key);
  }

  lemma DroppedIndexed(order: seq<string>, cache: map<string, Entry>, key: string)
    requires Indexed(order, cache)
    ensures Indexed(Without(order, key), cache - {key})
  {
    WithoutKeepsDistinct(order, key);
  }

  datatype EvictResult = KeyError | Busy | Evicted

  class SegmentMemory {
    const disk: Disk
    const capacity: nat
    const initSegmentSize: nat
    const segmentSizeInc: int

    /** The keys of the cache, least recently acquired first. */
    var order: seq<string>
    var cache: map<string, Entry>
    var cleanupQueue: seq<Entry>

    constructor (disk: Disk, capacity: nat, initSegmentSize: nat, segmentSizeInc: int)
      requires disk.Valid() && initSegmentSize > 0
      ensures Valid() && cache == map[] && order == [] && cleanupQueue == []
      ensures this.disk == disk && this.capacity == capacity && this.initSegmentSize == initSegmentSize
    {
      this.disk, this.capacity := disk, capacity;
      this.initSegmentSize, this.segmentSizeInc := initSegmentSize, segmentSizeInc;
      order, cache, cleanupQueue := [], map[], [];
    }

    ghost predicate Valid()
      reads this, disk, cache.Values
    {
      Consistent() && |order| <= capacity
    }

    ghost predicate EntryOk(key: string, entry: Entry)
      reads entry, disk
    {
      && key == entry.owner.GetId()
      && entry.filepath == entry.owner.path
      && entry.mutable == entry.owner.IsMutable()
      && entry.initSegmentSize == initSegmentSize && entry.segmentSizeInc == segmentSizeInc
      && (entry.mv != null ==> entry.Maps(disk))
    }

    /** Nobody holds a handle. */
    ghost predicate Idle()
      reads this, cache.Values, cleanupQueue
    {
      && (forall k | k in cache :: cache[k].refcount == 0)
      && (forall e | e in cleanupQueue :: e.refcount == 0)
    }

    ghost predicate AtRest()
      reads this, disk, cache.Values, cleanupQueue
    {
      Valid() && Idle()
    }

    /** There is one handle, on this entry. */
    ghost predicate IdleBut(entry: Entry)
      reads this, cache.Values, cleanupQueue, entry
    {
      && entry.refcount == 1
      && (forall k | k in cache && cache[k] != entry :: cache[k].refcount == 0)
      && (forall e | e in cleanupQueue && e != entry :: e.refcount == 0)
    }

    /** Entries and file arrays that were not there before are new objects. */
    twostate predicate OnlyNew()
      reads this, disk
    {
      && (forall k | k in cache :: cache[k] in old(cache.Values) || fresh(cache[k]))
      && (forall p | p in disk.files :: disk.files[p] in old(disk.files.Values) || fresh(disk.files[p]))
      && (forall e | e in cleanupQueue :: e in old(cleanupQueue) || e in old(cache.Values) || fresh(e))
    }

    /** The segments the cached entries were created for. */
    ghost function Owners(): map<string, SegmentMeta>
      reads this
    {
      map k | k in cache :: cache[k].owner
    }

    /** The segment's key and its path name the same entry, or no entry. */
    ghost predicate Fits(meta: SegmentMeta)
      reads this
    {
      forall k | k in cache :: k == meta.GetId() <==> cache[k].filepath == meta.path
    }

    /** A handle's entry maps its file, and no other cached entry does. */
    ghost predicate Holds(entry: Entry)
      reads this, disk, entry
    {
      && entry.Maps(disk)
      && entry.segmentSizeInc == segmentSizeInc
      && forall k | k in cache && cache[k] != entry :: cache[k].filepath != entry.filepath
    }

    method Acquire(meta: SegmentMeta) returns (entry: Entry)
      requires Valid() && Fits(meta)
      modifies this, disk, if meta.GetId() in cache then {cache[meta.GetId()]} else {}
      ensures entry.mv != null && disk.files == old(disk.files)[meta.path := entry.mv]
      ensures Valid()
      ensures order == Lru.Acquire(old(order), meta.GetId(), capacity)
      ensures if meta.GetId() in old(cache)
              then entry == old(cache[meta.GetId()]) && entry.refcount == old(cache[meta.GetId()].refcount) + 1
              else fresh(entry) && entry.owner == meta && entry.refcount == 1
      ensures forall k | k in cache ::
                if k == meta.GetId() then cache[k] == entry else k in old(cache) && cache[k] == old(cache)[k]
      ensures EntryOk(meta.GetId(), entry) && entry.filepath == meta.path && Holds(entry)
      ensures forall k | k in cache && k !in old(cache) :: cache[k].owner == meta
      ensures disk.Snapshot() == Opened(old(disk.Snapshot()), meta.path, initSegmentSize)
      ensures fresh(entry.mv) || (meta.path in old(disk.files) && entry.mv == old(disk.files)[meta.path])
      ensures OnlyNew()
      ensures forall e | e in cleanupQueue :: e in old(cleanupQueue) || e in old(cache.Values) || e == entry
    {
      hide Indexed, Opened, Valid, Apart, CacheKey, Lru.Acquire;
      entry := AcquireLocked(meta);
      LoadEntry(entry);
    }

    method LoadEntry(entry: Entry)
      requires Valid() && EntryOk(entry.owner.GetId(), entry)
      requires forall k | k in cache && cache[k] != entry :: cache[k].filepath != entry.filepath
      modifies entry, disk
      ensures Valid() && entry.Maps(disk) && entry.refcount == old(entry.refcount)
      ensures EntryOk(entry.owner.GetId(), entry)
      ensures disk.files == old(disk.files)[entry.filepath := entry.mv]
      ensures disk.Snapshot() == Opened(old(disk.Snapshot()), entry.filepath, initSegmentSize)
      ensures fresh(entry.mv) || (entry.filepath in old(disk.files) && entry.mv == old(disk.files)[entry.filepath])
    {
      entry.Load(disk);
      Undisturbed(entry);
    }

    /** The section of `acquire` under the cache lock. */
    method AcquireLocked(meta: SegmentMeta) returns (entry: Entry)
      requires Valid() && Fits(meta)
      modifies this, if meta.GetId() in cache then {cache[meta.GetId()]} else {}
      ensures Valid()
      ensures order == Lru.Acquire(old(order), meta.GetId(), capacity)
      ensures if meta.GetId() in old(cache) then entry == old(cache[meta.GetId()]) && entry.mv == old(cache[meta.GetId()].mv)
              else fresh(entry) && entry.owner == meta && entry.mv == null
      ensures forall k | k in cache :: cache[k] == if k == meta.GetId() then entry else old(cache)[k]
      ensures forall k | k in cache && k != meta.GetId() :: k in old(cache)
      ensures EntryOk(meta.GetId(), entry) && entry.filepath == meta.path
      ensures entry.refcount == (if meta.GetId() in old(cache) then old(cache[meta.GetId()].refcount) else 0) + 1
      ensures forall e | e in cleanupQueue :: e in old(cleanupQueue) || e in old(cache.Values) || e == entry
    {
      hide Indexed, EntryOk, Apart, CacheKey, Lru.Touch, Lru.Newest;
      entry := EnsureEntry(meta);
      CleanupLocked();
    }

    /** Finds or creates the cache entry, counts the new reference and makes the key the most recent. */
    method EnsureEntry(meta: SegmentMeta) returns (entry: Entry)
      requires Valid() && Fits(meta)
      modifies this`cache, this`order, if meta.GetId() in cache then {cache[meta.GetId()]} else {}
      ensures Consistent()
      ensures cache == old(cache)[meta.GetId() := entry] && order == Lru.Touch(old(order), meta.GetId())
      ensures if meta.GetId() in old(cache)
              then entry == old(cache[meta.GetId()]) && entry.mv == old(cache[meta.GetId()].mv)
                   && entry.capacity == old(cache[meta.GetId()].capacity)
              else fresh(entry) && entry.owner == meta && entry.mv == null
      ensures EntryOk(meta.GetId(), entry) && entry.filepath == meta.path
      ensures entry.refcount == (if meta.GetId() in old(cache) then old(cache[meta.GetId()].refcount) else 0) + 1
    {
      hide Indexed, Apart;
      var key := meta.GetId();
      if key !in cache {
        entry := AddEntry(meta);
      } else {
        entry := cache[key];
        entry.refcount := entry.refcount + 1;
      }
      TouchIndexed(order, old(cache), key, entry);
      assert cache == old(cache)[key := entry];
      order := Lru.Touch(order, key);
    }

    method AddEntry(meta: SegmentMeta) returns (entry: Entry)
      requires Valid() && Fits(meta) && meta.GetId() !in cache
      modifies this`cache
      ensures EntriesOk() && cache == old(cache)[meta.GetId() := entry]
      ensures fresh(entry) && entry.owner == meta && entry.mv == null && entry.filepath == meta.path
      ensures EntryOk(meta.GetId(), entry) && entry.refcount == 1
    {
      hide Indexed, EntryOk, CacheKey;
      entry := new Entry(meta, initSegmentSize, segmentSizeInc);
      entry.refcount := entry.refcount + 1;
      cache := cache[meta.GetId() := entry];
      UnmappedOk(meta, entry);
    }

    lemma UnmappedOk(meta: SegmentMeta, entry: Entry)
      requires entry.owner == meta && entry.filepath == meta.path && entry.mutable == meta.IsMutable() && entry.mv == null
      requires entry.initSegmentSize == initSegmentSize && entry.segmentSizeInc == segmentSizeInc
      ensures EntryOk(meta.GetId(), entry)
    {
    }

    /** What concerns the entries, whatever their order. */
    ghost predicate EntriesOk()
      reads this, disk, cache.Values
    {
      && disk.Valid()
      && initSegmentSize > 0
      && (forall k | k in cache :: EntryOk(k, cache[k]))
      && (forall k, l | k in cache && l in cache && k != l :: cache[k].filepath != cache[l].filepath)
      && Apart(cache, cleanupQueue)
    }

    /** Everything but the size bound. */
    ghost predicate Consistent()
      reads this, disk, cache.Values
    {
      EntriesOk() && Indexed(order, cache)
    }

    /** Drops the least recently acquired entries until the capacity holds, and queues them in that order. */
    method CleanupLocked()
      requires Consistent()
      modifies this
      ensures Valid()
      ensures order == Lru.Newest(old(order), capacity)
      ensures forall k | k in cache :: k in old(cache) && cache[k] == old(cache)[k]
      ensures |old(order)| >= |order| && forall k | k in old(order) :: k in old(cache)
      ensures cleanupQueue == old(cleanupQueue) + EntriesOf(old(order)[..|old(order)| - |order|], old(cache))
      ensures forall e | e in cleanupQueue :: e in old(cleanupQueue) || e in old(cache.Values)
    {
      hide Consistent, EntriesOf, EntriesOk, Indexed;
      ghost var order0, cache0, k := order, cache, 0;
      OrderIsIndexed();
      NoEntries(cache0);
      assert order0[..0] == [] && order0[0..] == order0;
      while |order| > capacity
        invariant Consistent()
        invariant k + |order| == |order0| && order == order0[k..]
        invariant k > 0 ==> |order| >= capacity
        invariant forall k | k in cache :: k in cache0 && cache[k] == cache0[k]
        invariant cleanupQueue == old(cleanupQueue) + EntriesOf(order0[..k], cache0)
        decreases |order|
      {
        EntriesSnoc(order0, cache0, k);
        DropOldestEntry();
        k := k + 1;
      }
      SizeBounds();
      EntriesAreValues(order0[..k], cache0);
    }

    method DropOldestEntry()
      requires Consistent() && order != []
      modifies this
      ensures Consistent() && order == old(order)[1..]
      ensures old(order)[0] in old(cache) && cache == old(cache) - {old(order)[0]}
      ensures cleanupQueue == old(cleanupQueue) + [old(cache)[old(order)[0]]]
    {
      hide NoDup, EntryOk;
      var oldest := order[0];
      var evicted := cache[oldest];
      DropOldest(order, cache);
      QueueOldest(cache, cleanupQueue, oldest);
      order := order[1..];
      cache := cache - {oldest};
      cleanupQueue := cleanupQueue + [evicted];
    }

    lemma OrderIsIndexed()
      requires Consistent()
      ensures forall k | k in order :: k in cache
    {
    }

    lemma SizeBounds()
      requires Consistent() && |order| <= capacity
      ensures Valid()
    {
    }

    /** What happens to one entry and its file is of no concern to the other cached entries. */
    twostate lemma Undisturbed(entry: Entry)
      requires old(Valid()) && unchanged(this) && disk.Valid() && entry.Maps(disk)
      requires forall p | p in old(disk.files) && p != entry.filepath :: p in disk.files && disk.files[p] == old(disk.files)[p]
      requires forall k | k in cache && cache[k] != entry :: cache[k].filepath != entry.filepath && unchanged(cache[k])
      ensures Valid()
    {
    }

    lemma DiskValid()
      requires Valid()
      ensures disk.Valid()
    {
    }

    /** `SegmentHandle.write`. */
    method HandleWrite(entry: Entry, offset: nat, message: seq<byte>)
      requires Valid() && Holds(entry) && entry.mutable
      modifies disk, entry, entry.mv
      ensures Valid() && entry.Maps(disk) && entry.refcount == old(entry.refcount)
      ensures disk.Snapshot() == old(disk.Snapshot())[entry.filepath :=
                Written(old(disk.Snapshot())[entry.filepath], offset, message, segmentSizeInc)]
      ensures disk.files == old(disk.files)[entry.filepath := entry.mv]
      ensures entry.mv == old(entry.mv) || fresh(entry.mv)
    {
      hide Valid, Written, Indexed, EntryOk;
      DiskValid();
      ghost var before := disk.Snapshot();
      var ok := entry.Write(disk, offset, message);
      Undisturbed(entry);
      assert disk.Snapshot() == before[entry.filepath := entry.mv[..]];
    }

    method ReleaseEntry(entry: Entry)
      requires Valid()
      modifies entry`refcount
      ensures Valid() && entry.refcount == old(entry.refcount) - 1
      ensures disk.Snapshot() == old(disk.Snapshot())
      ensures old(IdleBut(entry)) ==> Idle()
    {
      entry.refcount := entry.refcount - 1;
    }

    /** One entry left the cache; the others and the files are as they were. */
    twostate lemma RestKept(key: string)
      requires old(Valid()) && unchanged(disk) && key in old(cache)
      requires cache == old(cache) - {key} && order == Without(old(order), key) && cleanupQueue == old(cleanupQueue)
      requires forall k | k in cache :: unchanged(cache[k])
      ensures Valid() && OnlyNew()
    {
      hide Indexed, Without;
      DroppedIndexed(old(order), old(cache), key);
      forall k | k in cache
        ensures EntryOk(k, cache[k]) && cache[k] in old(cache.Values)
      {
        assert old(EntryOk(k, cache[k])) && cache[k] == old(cache)[k];
      }
    }

    /** Removes an idle entry and unmaps its file. */
    method TryEvict(meta: SegmentMeta) returns (r: EvictResult)
      requires Valid()
      modifies this, if meta.GetId() in cache then {cache[meta.GetId()]} else {}
      ensures Valid() && cleanupQueue == old(cleanupQueue)
      ensures r.KeyError? <==> meta.GetId() !in old(cache)
      ensures r.Busy? <==> meta.GetId() in old(cache) && old(cache[meta.GetId()].refcount) > 0
      ensures !r.Evicted? ==> cache == old(cache) && order == old(order)
      ensures OnlyNew() && disk.Snapshot() == old(disk.Snapshot())
      ensures r.Evicted? ==> cache == old(cache) - {meta.GetId()} && order == Without(old(order), meta.GetId())
      ensures r.Evicted? ==> old(cache[meta.GetId()]).mv == null
      ensures old(Idle()) ==> Idle()
    {
      hide Indexed, Without, Apart;
      var key := meta.GetId();
      if key !in cache {
        return KeyError;
      }
      var entry := cache[key];
      if entry.refcount > 0 {
        return Busy;
      }
      cache := cache - {key};
      order := Without(order, key);
      entry.Release();
      RestKept(key);
      return Evicted;
    }

    /** One turn of the cleanup thread, once the oldest queued entry has no handle left. */
    method CleanupStep()
      requires Valid() && cleanupQueue != [] && cleanupQueue[0].refcount == 0
      modifies this, cleanupQueue[0]
      ensures Valid() && cache == old(cache) && order == old(order)
      ensures cleanupQueue == old(cleanupQueue)[1..]
      ensures OnlyNew() && disk.Snapshot() == old(disk.Snapshot())
      ensures old(cleanupQueue[0]).mv == null
      ensures old(Idle()) ==> Idle()
    {
      var entry := cleanupQueue[0];
      cleanupQueue := cleanupQueue[1..];
      entry.Release();
    }
  }
}
