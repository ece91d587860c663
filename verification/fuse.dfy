// The FUSE client's block cache, internal/fuse/cache.go, and the file read through it,
// internal/fuse/mount.go.

module LruOrder {
  import opened Lists

  datatype BlockKey = BlockKey(bucket: string, key: string, index: nat)

  function Bytes(s: seq<BlockKey>, size: BlockKey -> nat): nat {
    if s == [] then 0 else Bytes(s[..|s| - 1], size) + size(s[|s| - 1])
  }

  // What is left of a most-recent-first list once the back has been dropped until the rest fits.
  function Fit(s: seq<BlockKey>, size: BlockKey -> nat, budget: int): (r: seq<BlockKey>)
    ensures r <= s
    ensures r == [] || Bytes(r, size) <= budget
  {
    if s == [] || Bytes(s, size) <= budget then s
    else
      assert s[..|s| - 1] <= s;
      Fit(s[..|s| - 1], size, budget)
  }

  function Touch(s: seq<BlockKey>, k: BlockKey): seq<BlockKey> { [k] + Without(s, k) }

  function Others(bucket: string, key: string): BlockKey -> bool {
    (k: BlockKey) => k.bucket != bucket || k.key != key
  }

  // A block looked up, and stored when it was missing; or an object invalidated.
  datatype Event = Use(k: BlockKey) | Drop(bucket: string, key: string)

  function Access(s: seq<BlockKey>, size: BlockKey -> nat, budget: int, k: BlockKey): seq<BlockKey> {
    if k in s then Touch(s, k) else Fit([k] + s, size, budget)
  }

  function After(s: seq<BlockKey>, size: BlockKey -> nat, budget: int, e: Event): seq<BlockKey> {
    match e
    case Use(k) => Access(s, size, budget, k)
    case Drop(b, k) => Filter(s, Others(b, k))
  }

  function Run(s: seq<BlockKey>, size: BlockKey -> nat, budget: int, es: seq<Event>): seq<BlockKey> {
    if es == [] then s else After(Run(s, size, budget, es[..|es| - 1]), size, budget, es[|es| - 1])
  }

  lemma RunNone(s: seq<BlockKey>, size: BlockKey -> nat, budget: int)
    ensures Run(s, size, budget, []) == s
  {
  }

  lemma RunNext(s: seq<BlockKey>, size: BlockKey -> nat, budget: int, es: seq<Event>)
    requires es != []
    ensures Run(s, size, budget, es) == After(Run(s, size, budget, es[..|es| - 1]), size, budget, es[|es| - 1])
  {
  }

  lemma {:induction false} BytesConcat(a: seq<BlockKey>, b: seq<BlockKey>, size: BlockKey -> nat)
    ensures Bytes(a + b, size) == Bytes(a, size) + Bytes(b, size)
  {
    if b == [] {
      assert a + b == a;
    } else {
      BytesConcat(a, b[..|b| - 1], size);
      assert (a + b)[..|a + b| - 1] == a + b[..|b| - 1];
    }
  }

  lemma BytesOne(k: BlockKey, size: BlockKey -> nat)
    ensures Bytes([k], size) == size(k)
  {
    assert [k][..0] == [];
  }

  lemma {:induction false} BytesSame(s: seq<BlockKey>, f: BlockKey -> nat, g: BlockKey -> nat)
    requires forall k :: k in s ==> f(k) == g(k)
    ensures Bytes(s, f) == Bytes(s, g)
  {
    if s != [] { BytesSame(s[..|s| - 1], f, g); }
  }

  lemma {:induction false} BytesWithout(s: seq<BlockKey>, k: BlockKey, size: BlockKey -> nat)
    requires Distinct(s) && k in s
    ensures Bytes(Without(s, k), size) + size(k) == Bytes(s, size)
  {
    var p :| 0 <= p < |s| && s[p] == k;
    WithoutAt(s, p);
    assert s == s[..p] + [k] + s[p + 1..];
    BytesConcat(s[..p], [k], size);
    BytesConcat(s[..p] + [k], s[p + 1..], size);
    BytesConcat(s[..p], s[p + 1..], size);
    BytesOne(k, size);
  }

  lemma DistinctWithout(s: seq<BlockKey>, k: BlockKey)
    requires Distinct(s)
    ensures Distinct(Without(s, k))
  {
    if k in s {
      var p :| 0 <= p < |s| && s[p] == k;
      WithoutAt(s, p);
    } else {
      WithoutAbsent(s, k);
    }
  }

  lemma {:induction false} FitSame(s: seq<BlockKey>, f: BlockKey -> nat, g: BlockKey -> nat, budget: int)
    requires forall k :: k in s ==> f(k) == g(k)
    ensures Fit(s, f, budget) == Fit(s, g, budget)
  {
    BytesSame(s, f, g);
    if s != [] { FitSame(s[..|s| - 1], f, g, budget); }
  }

  lemma FitStep(s: seq<BlockKey>, size: BlockKey -> nat, budget: int)
    requires s != [] && Bytes(s, size) > budget
    ensures Fit(s, size, budget) == Fit(s[..|s| - 1], size, budget)
  {
  }

  lemma FitDone(s: seq<BlockKey>, size: BlockKey -> nat, budget: int)
    requires s == [] || Bytes(s, size) <= budget
    ensures Fit(s, size, budget) == s
  {
  }

  lemma {:induction false} FilterWithout(s: seq<BlockKey>, k: BlockKey, f: BlockKey -> bool)
    requires !f(k)
    ensures Filter(Without(s, k), f) == Filter(s, f)
  {
    if s != [] {
      var front, last := s[..|s| - 1], s[|s| - 1];
      FilterWithout(front, k, f);
      FilterConcat(Without(front, k), [last], f);
      FilterOne(last, f);
    }
  }

  // Eviction is least-recently-used and no more than needed: the survivors are the longest
  // run of most recently used blocks that fits.
  lemma {:induction false} EvictsOnlyAsNeeded(s: seq<BlockKey>, size: BlockKey -> nat, budget: int, n: nat)
    requires n <= |s| && Bytes(s[..n], size) <= budget
    ensures n <= |Fit(s, size, budget)|
  {
    if n == |s| {
      assert s[..n] == s;
    } else {
      assert s[..|s| - 1][..n] == s[..n];
      if Bytes(s, size) > budget { EvictsOnlyAsNeeded(s[..|s| - 1], size, budget, n); }
    }
  }

  lemma {:induction false} FitOfPrefix(a: seq<BlockKey>, b: seq<BlockKey>, size: BlockKey -> nat, small: int,
                                       large: int)
    requires a <= b && small <= large
    ensures Fit(a, size, small) <= Fit(b, size, large)
  {
    var r := Fit(a, size, small);
    if r != [] {
      assert r == b[..|r|];
      EvictsOnlyAsNeeded(b, size, large, |r|);
    }
  }

  lemma TouchOfPrefix(a: seq<BlockKey>, b: seq<BlockKey>, k: BlockKey)
    requires a <= b && k !in a
    ensures a <= Without(b, k)
  {
    assert b == a + b[|a|..];
    WithoutConcat(a, b[|a|..], k);
    WithoutAbsent(a, k);
  }

  lemma AccessOfPrefix(a: seq<BlockKey>, b: seq<BlockKey>, size: BlockKey -> nat, small: int, large: int, k: BlockKey)
    requires a <= b && small <= large
    ensures Access(a, size, small, k) <= Access(b, size, large, k)
  {
    hide Without;
    if k in a {
      assert b == a + b[|a|..];
      WithoutConcat(a, b[|a|..], k);
    } else if k in b {
      TouchOfPrefix(a, b, k);
      assert Fit([k] + a, size, small) <= [k] + a <= Touch(b, k);
    } else {
      assert [k] + a <= [k] + b;
      FitOfPrefix([k] + a, [k] + b, size, small, large);
    }
  }

  // Over every run of reads and invalidations a larger cache holds everything a smaller one
  // does, in the same order: more memory never costs a fetch.
  lemma {:induction false} LargerHoldsMore(a: seq<BlockKey>, b: seq<BlockKey>, size: BlockKey -> nat, small: int,
                                           large: int, es: seq<Event>)
    requires a <= b && small <= large
    ensures Run(a, size, small, es) <= Run(b, size, large, es)
  {
    if es != [] {
      var front, e := es[..|es| - 1], es[|es| - 1];
      LargerHoldsMore(a, b, size, small, large, front);
      var x, y := Run(a, size, small, front), Run(b, size, large, front);
      match e
      case Use(k) => AccessOfPrefix(x, y, size, small, large, k);
      case Drop(bk, k) =>
        assert y == x + y[|x|..];
        FilterConcat(x, y[|x|..], Others(bk, k));
    }
  }
}

module FuseReads {
  import opened Wrappers
  import opened ColumnCode
  import opened Layout
  import opened Lists
  import opened LruOrder

  const BLOCK: nat := 262144

  function SizeIn(entries: map<BlockKey, seq<byte>>): BlockKey -> nat {
    k => if k in entries then |entries[k]| else 0
  }

  class BlockCache {
    const maxBytes: int
    var curBytes: int
    var lru: seq<BlockKey>
    var entries: map<BlockKey, seq<byte>>

    // The list and the map hold the same blocks, once each, and the count is their size.
    ghost predicate Linked()
      reads this
    {
      && Distinct(lru)
      && (forall k :: k in lru <==> k in entries)
      && curBytes == Bytes(lru, SizeIn(entries))
    }

    ghost predicate Valid()
      reads this
    {
      Linked() && (lru == [] || curBytes <= maxBytes)
    }

    lemma SameBlocks(k: BlockKey)
      requires Valid()
      ensures k in lru <==> k in entries
    {
    }

    constructor (max: int)
      ensures Valid() && maxBytes == max && entries == map[] && lru == []
    {
      maxBytes, curBytes, lru, entries := max, 0, [], map[];
    }

    method Get(k: BlockKey) returns (r: Option<seq<byte>>)
      requires Valid()
      modifies this`lru
      ensures Valid()
      ensures r == if k in entries then Some(entries[k]) else None
      ensures lru == if k in entries then [k] + Without(old(lru), k) else old(lru)
    {
      if k in entries {
        DistinctWithout(lru, k);
        WithoutMembers(lru, k);
        BytesWithout(lru, k, SizeIn(entries));
        BytesConcat([k], Without(lru, k), SizeIn(entries));
        BytesOne(k, SizeIn(entries));
        lru := Touch(lru, k);
        r := Some(entries[k]);
      } else {
        r := None;
      }
    }

    method Put(k: BlockKey, data: seq<byte>)
      requires Valid()
      modifies this`lru, this`entries, this`curBytes
      ensures Valid()
      ensures k in old(entries) ==> lru == old(lru) && entries == old(entries)
      ensures k !in old(entries) ==> lru == Fit([k] + old(lru), SizeIn(old(entries)[k := data]), maxBytes)
      ensures k !in old(entries) ==> Within(old(entries)[k := data])
    {
      hide Fit, Bytes;
      if k in entries { return; }
      Pushed(k, data);
      lru, entries, curBytes := [k] + lru, entries[k := data], curBytes + |data|;
      ghost var all := entries;
      ghost var order := lru;
      while curBytes > maxBytes && |lru| > 0
        invariant Linked() && lru <= order
        invariant Fit(lru, SizeIn(all), maxBytes) == Fit(order, SizeIn(all), maxBytes)
        invariant Within(all)
        decreases |lru|
      {
        SameBytes(all);
        FitStep(lru, SizeIn(all), maxBytes);
        EvictOldest();
      }
      SameBytes(all);
      FitDone(lru, SizeIn(all), maxBytes);
    }

    ghost predicate Within(all: map<BlockKey, seq<byte>>)
      reads this
    {
      forall x :: x in entries ==> x in all && entries[x] == all[x]
    }

    lemma SameBytes(all: map<BlockKey, seq<byte>>)
      requires Linked() && Within(all)
      ensures curBytes == Bytes(lru, SizeIn(all))
    {
      BytesSame(lru, SizeIn(entries), SizeIn(all));
    }

    method EvictOldest()
      requires Linked() && lru != []
      modifies this`lru, this`entries, this`curBytes
      ensures Linked() && lru == old(lru)[..|old(lru)| - 1]
      ensures entries == old(entries) - {old(lru)[|old(lru)| - 1]}
    {
      EvictLast();
      var last := lru[|lru| - 1];
      lru, entries, curBytes := lru[..|lru| - 1], entries - {last}, curBytes - |entries[last]|;
    }

    lemma Pushed(k: BlockKey, data: seq<byte>)
      requires Linked() && k !in entries
      ensures Distinct([k] + lru)
      ensures forall x :: x in [k] + lru <==> x in entries[k := data]
      ensures Bytes([k] + lru, SizeIn(entries[k := data])) == curBytes + |data|
    {
      var e := entries[k := data];
      BytesConcat([k], lru, SizeIn(e));
      BytesOne(k, SizeIn(e));
      BytesSame(lru, SizeIn(entries), SizeIn(e));
    }

    lemma EvictLast()
      requires Linked() && lru != []
      ensures var last := lru[|lru| - 1];
        && last in entries
        && Distinct(lru[..|lru| - 1])
        && (forall x :: x in lru[..|lru| - 1] <==> x in entries - {last})
        && Bytes(lru[..|lru| - 1], SizeIn(entries - {last})) == curBytes - |entries[last]|
    {
      var front, last := lru[..|lru| - 1], lru[|lru| - 1];
      assert lru == front + [last];
      assert last !in front;
      BytesSame(front, SizeIn(entries), SizeIn(entries - {last}));
    }

    method Invalidate(bucket: string, key: string)
      requires Valid()
      modifies this`lru, this`entries, this`curBytes
      ensures Valid()
      ensures lru == Filter(old(lru), Others(bucket, key))
      ensures forall x :: x in entries <==> x in old(entries) && (x.bucket != bucket || x.key != key)
      ensures forall x :: x in entries ==> entries[x] == old(entries)[x]
    {
      hide Bytes, Filter, Without;
      var toDelete := set k | k in entries && k.bucket == bucket && k.key == key;
      while toDelete != {}
        invariant Valid()
        invariant Filter(lru, Others(bucket, key)) == Filter(old(lru), Others(bucket, key))
        invariant toDelete == set k | k in entries && !Others(bucket, key)(k)
        invariant Within(old(entries))
        invariant forall x :: x in old(entries) && Others(bucket, key)(x) ==> x in entries
        decreases toDelete
      {
        var k :| k in toDelete;
        FilterWithout(lru, k, Others(bucket, key));
        Delete(k);
        toDelete := toDelete - {k};
      }
      assert forall x :: x in lru && !Others(bucket, key)(x) ==> x in toDelete;
      FilterAll(lru, Others(bucket, key));
    }

    method Delete(k: BlockKey)
      requires Valid() && k in entries
      modifies this`lru, this`entries, this`curBytes
      ensures Valid() && lru == Without(old(lru), k) && entries == old(entries) - {k}
    {
      Remove(k);
      lru, entries, curBytes := Without(lru, k), entries - {k}, curBytes - |entries[k]|;
    }

    lemma Remove(k: BlockKey)
      requires Linked() && k in entries
      ensures Distinct(Without(lru, k))
      ensures forall x :: x in Without(lru, k) <==> x in entries - {k}
      ensures Bytes(Without(lru, k), SizeIn(entries - {k})) == curBytes - |entries[k]|
    {
      DistinctWithout(lru, k);
      WithoutMembers(lru, k);
      BytesWithout(lru, k, SizeIn(entries));
      BytesSame(Without(lru, k), SizeIn(entries), SizeIn(entries - {k}));
    }
  }

  // The server's objects, and the blocks they are cut into.
  type Objects = (string, string) -> seq<byte>

  function BlockOf(o: seq<byte>, i: nat): seq<byte> {
    o[Min(i * BLOCK, |o|)..Min((i + 1) * BLOCK, |o|)]
  }

  function BlockAt(obj: Objects, k: BlockKey): seq<byte> { BlockOf(obj(k.bucket, k.key), k.index) }

  function BlockSize(obj: Objects): BlockKey -> nat { k => |BlockAt(obj, k)| }

  ghost predicate Consistent(obj: Objects, entries: map<BlockKey, seq<byte>>) {
    forall k :: k in entries ==> entries[k] == BlockAt(obj, k)
  }

  // A range request, both ends included, fails or returns exactly that range.
  ghost predicate Exact(o: seq<byte>, fetch: (int, int) -> Option<seq<byte>>) {
    forall s, e :: 0 <= s <= e + 1 <= |o| ==> fetch(s, e) == None || fetch(s, e) == Some(o[s..e + 1])
  }

  datatype Handle = Handle(bucket: string, key: string, size: nat)

  // The blocks a read of [off, end) goes through, in order.
  function Uses(h: Handle, from: nat, to: nat): seq<Event>
    requires from <= to
  {
    seq(to - from, i requires 0 <= i => Use(BlockKey(h.bucket, h.key, from + i)))
  }

  // One block of the read: from the cache, else fetched and stored.
  method Block(obj: Objects, h: Handle, cache: BlockCache, i: nat, fetch: (int, int) -> Option<seq<byte>>)
    returns (r: Option<seq<byte>>)
    requires cache.Valid() && Consistent(obj, cache.entries)
    requires h.size == |obj(h.bucket, h.key)| && i * BLOCK < h.size && Exact(obj(h.bucket, h.key), fetch)
    modifies cache
    ensures cache.Valid() && Consistent(obj, cache.entries)
    ensures r.Some? ==> r.value == BlockOf(obj(h.bucket, h.key), i)
    ensures r.Some? ==>
      cache.lru == Access(old(cache.lru), BlockSize(obj), cache.maxBytes, BlockKey(h.bucket, h.key, i))
    ensures r.None? ==> cache.lru == old(cache.lru) && cache.entries == old(cache.entries)
    ensures r.None? ==> fetch(i * BLOCK, Min((i + 1) * BLOCK, h.size) - 1) == None
  {
    hide BlockCache.Valid;
    hide Fit, SizeIn, BlockSize;
    var k := BlockKey(h.bucket, h.key, i);
    cache.SameBlocks(k);
    r := cache.Get(k);
    if r.None? {
      var blockEnd := Min((i + 1) * BLOCK, h.size);
      r := fetch(i * BLOCK, blockEnd - 1);
      if r.Some? {
        SizesAgree(obj, cache, k, r.value);
        cache.Put(k, r.value);
      }
    }
  }

  lemma SizesAgree(obj: Objects, cache: BlockCache, k: BlockKey, data: seq<byte>)
    requires cache.Valid() && Consistent(obj, cache.entries) && data == BlockAt(obj, k)
    ensures Fit([k] + cache.lru, SizeIn(cache.entries[k := data]), cache.maxBytes) ==
      Fit([k] + cache.lru, BlockSize(obj), cache.maxBytes)
  {
    FitSame([k] + cache.lru, SizeIn(cache.entries[k := data]), BlockSize(obj), cache.maxBytes);
  }

  // VaultFileHandle.Read: the exact range, whatever the cache holds and evicts on the way.
  method Read(obj: Objects, h: Handle, cache: BlockCache?, n: nat, off: nat, fetch: (int, int) -> Option<seq<byte>>)
    returns (r: Option<seq<byte>>)
    requires cache != null ==> cache.Valid() && Consistent(obj, cache.entries)
    requires h.size == |obj(h.bucket, h.key)| && Exact(obj(h.bucket, h.key), fetch)
    modifies cache
    ensures cache != null ==> cache.Valid() && Consistent(obj, cache.entries)
    ensures r.Some? ==> r.value == obj(h.bucket, h.key)[Min(off, h.size)..Min(off + n, h.size)]
    ensures r.None? ==> exists s, e :: fetch(s, e) == None && s < h.size
    ensures r.Some? && cache != null ==>
      cache.lru == Run(old(cache.lru), BlockSize(obj), cache.maxBytes, Through(h, off, n))
  {
    hide Run, Uses, BlockOf, BlockSize, Consistent, Past, Access;
    hide BlockCache.Valid;
    ghost var o := obj(h.bucket, h.key);
    if off >= h.size {
      if cache != null { RunNone(cache.lru, BlockSize(obj), cache.maxBytes); }
      return Some([]);
    }
    var end := Min(off + n, h.size);
    if cache == null {
      r := fetch(off, end - 1);
      return;
    }
    var result, pos := [], off;
    ghost var i := off / BLOCK;
    UsesNone(h, i);
    RunNone(cache.lru, BlockSize(obj), cache.maxBytes);
    PastStart(off, end);
    while pos < end
      invariant off <= pos <= end
      invariant result == o[off..pos]
      invariant cache.Valid() && Consistent(obj, cache.entries)
      invariant off / BLOCK <= i && i == if pos < end then pos / BLOCK else Past(off, end)
      invariant cache.lru == Run(old(cache.lru), BlockSize(obj), cache.maxBytes, Uses(h, off / BLOCK, i))
      decreases end - pos
    {
      var blockIdx := pos / BLOCK;
      var blockStart := blockIdx * BLOCK;
      var block := Block(obj, h, cache, blockIdx, fetch);
      if block.None? { return None; }
      Piece(o, off, pos, end);
      var sliceEnd := Min(end - blockStart, |block.value|);
      result := result + block.value[pos - blockStart..sliceEnd];
      UsesNext(h, off / BLOCK, i);
      RunNext(old(cache.lru), BlockSize(obj), cache.maxBytes, Uses(h, off / BLOCK, i + 1));
      pos := blockStart + sliceEnd;
      i := i + 1;
    }
    r := Some(result);
  }

  // Where one turn of the loop gets to: the part of the block it takes is the object's, and
  // the next position is the end or the start of the next block.
  lemma Piece(o: seq<byte>, off: nat, pos: nat, end: nat)
    requires off <= pos < end <= |o|
    ensures var b, start := BlockOf(o, pos / BLOCK), pos / BLOCK * BLOCK;
      var take := Min(end - start, |b|);
      && 0 <= pos - start < take <= |b| && start + take <= end
      && o[off..pos] + b[pos - start..take] == o[off..start + take]
      && pos / BLOCK + 1 == if start + take < end then (start + take) / BLOCK else Past(off, end)
  {
    var b, start := BlockOf(o, pos / BLOCK), pos / BLOCK * BLOCK;
    var take := Min(end - start, |b|);
    assert b == o[start..Min(start + BLOCK, |o|)];
    SliceOfSlice(o, start, |b|, pos - start, take - (pos - start));
  }

  lemma PastStart(off: nat, end: nat)
    ensures off == end ==> Past(off, end) == off / BLOCK
  {
  }

  lemma UsesNone(h: Handle, i: nat)
    ensures Uses(h, i, i) == []
  {
  }

  // One past the last block of a read of [off, end).
  function Past(off: nat, end: nat): nat
  {
    if off < end then (end - 1) / BLOCK + 1 else off / BLOCK
  }

  function Through(h: Handle, off: nat, n: nat): seq<Event>
  {
    if off >= h.size then [] else Uses(h, off / BLOCK, Past(off, Min(off + n, h.size)))
  }

  lemma UsesNext(h: Handle, from: nat, to: nat)
    requires from <= to
    ensures var u := Uses(h, from, to + 1);
      u != [] && u[..|u| - 1] == Uses(h, from, to) && u[|u| - 1] == Use(BlockKey(h.bucket, h.key, to))
  {
  }
}
