// The heal pass of internal/erasure/heal.go over the shard files of one version, and the way
// from a write through damage and repair back to a read.

module Heal {
  import opened Wrappers
  import opened ColumnCode
  import opened Layout
  import opened Checksums
  import opened ShardFiles
  import opened ObjectReads

  type Files = seq<Option<File>>

  // How a write goes: done, refused, or done and reported as failed.
  datatype Fault = Works | Refused | Late

  datatype Put = Put(i: nat, data: seq<byte>, ok: bool)

  // The files of one version, on their backends, and the writes that were made.
  class ShardStore {
    var files: Files
    var puts: seq<Put>
    const faults: nat -> Fault

    constructor (files: Files, faults: nat -> Fault)
      ensures this.files == files && puts == [] && this.faults == faults
    {
      this.files, puts, this.faults := files, [], faults;
    }

    method Write(i: nat, data: seq<byte>) returns (ok: bool)
      requires i < |files|
      modifies this
      ensures ok <==> faults(|old(puts)|) == Works
      ensures puts == old(puts) + [Put(i, data, ok)]
      ensures files == if faults(|old(puts)|) == Refused then old(files) else old(files)[i := Some(File(data, false))]
    {
      var fault := faults(|puts|);
      ok := fault == Works;
      puts := puts + [Put(i, data, ok)];
      if fault != Refused {
        files := files[i := Some(File(data, false))];
      }
    }

    ghost predicate Healthy() { forall n :: faults(n) == Works }
  }

  // The writes from the n-th on.
  ghost function Since(store: ShardStore, n: nat): seq<Put>
    reads store
  {
    if n <= |store.puts| then store.puts[n..] else []
  }

  function Reported(puts: seq<Put>): nat {
    if puts == [] then 0 else Reported(puts[..|puts| - 1]) + if puts[|puts| - 1].ok then 0 else 1
  }

  // One write per listed shard, in order, of the bytes it was created with.
  ghost predicate PutBack(sch: Scheme, obj: seq<byte>, missing: seq<nat>, puts: seq<Put>)
    requires Lawful(sch.c)
  {
    |puts| == |missing| && forall x :: 0 <= x < |puts| ==>
      puts[x].i == missing[x] < sch.c.k + sch.c.m && puts[x].data == ShardsOf(sch.c, obj)[missing[x]]
  }

  ghost predicate Rising(s: seq<nat>) { forall x, y :: 0 <= x < y < |s| ==> s[x] < s[y] }

  ghost predicate AllGood(sch: Scheme, obj: seq<byte>, files: Files)
    requires Lawful(sch.c)
  {
    |files| == sch.c.k + sch.c.m && forall i :: 0 <= i < |files| ==> Good(sch, obj, files, i)
  }

  // Some files of `was` have been replaced by what was originally written, and no others.
  ghost predicate Mended(sch: Scheme, obj: seq<byte>, was: Files, now: Files)
    requires Lawful(sch.c)
  {
    |was| == |now| == sch.c.k + sch.c.m
    && forall i :: 0 <= i < |was| ==> now[i] == was[i] || (Good(sch, obj, now, i) && !Good(sch, obj, was, i))
  }

  // Replacing one bad file by the original keeps the account, the trust in the checks and the
  // ability to read: the object's value is the same before and after.
  lemma OneMended(sch: Scheme, meta: ShardMeta, obj: seq<byte>, was: Files, now: Files, i: nat)
    requires Describes(sch, meta, obj) && Trust(sch, meta, obj, was) && Trust(sch, meta, obj, now)
    requires Mended(sch, obj, was, now) && i < |now| && !Good(sch, obj, was, i)
    ensures var next := now[i := Some(File(ShardsOf(sch.c, obj)[i], false))];
      Mended(sch, obj, was, next) && Trust(sch, meta, obj, next) && (Enough(sch, obj, was) ==> Enough(sch, obj, next))
  {
    hide ShardsOf, Lawful, Describes, StripeOK;
    Basics(sch, meta, obj);
    var next := now[i := Some(File(ShardsOf(sch.c, obj)[i], false))];
    forall j, off: nat | 0 <= j < |next| && Aligned(off, sch.stripe) && off < PerShard(|obj|, meta.k)
      ensures StripeTrust(sch, meta, obj, next, j, off)
    {
      assert StripeTrust(sch, meta, obj, now, j, off);
    }
    if Enough(sch, obj, was) {
      PresentMonotone(GoodOnly(sch, obj, was), GoodOnly(sch, obj, next));
    }
  }

  // The file holds the shard's original bytes.
  ghost predicate Holds(sch: Scheme, obj: seq<byte>, files: Files, i: nat)
    requires Lawful(sch.c)
  {
    i < |files| && i < sch.c.k + sch.c.m && files[i].Some? && files[i].value.data == ShardsOf(sch.c, obj)[i]
  }

  ghost predicate AllHold(sch: Scheme, obj: seq<byte>, files: Files)
    requires Lawful(sch.c)
  {
    |files| == sch.c.k + sch.c.m && forall i :: 0 <= i < |files| ==> Holds(sch, obj, files, i)
  }

  // What reading the first shards found.
  ghost predicate Found(sch: Scheme, obj: seq<byte>, files: Files, shards: seq<Option<seq<byte>>>, missing: seq<nat>)
    requires Lawful(sch.c)
  {
    && |shards| <= |files| == sch.c.k + sch.c.m && |missing| + Present(shards) == |shards|
    && (forall i :: 0 <= i < |shards| && shards[i].Some? ==>
          shards[i].value == ShardsOf(sch.c, obj)[i] && Holds(sch, obj, files, i))
    && (forall i :: 0 <= i < |shards| ==> (shards[i].None? <==> i in missing)) && Rising(missing)
    && (forall x :: 0 <= x < |missing| ==> missing[x] < |shards| && !Good(sch, obj, files, missing[x]))
  }

  lemma FoundStep(sch: Scheme, obj: seq<byte>, files: Files, shards: seq<Option<seq<byte>>>, missing: seq<nat>,
                  d: Option<seq<byte>>)
    requires Lawful(sch.c) && Found(sch, obj, files, shards, missing) && |shards| < |files|
    requires d.Some? ==> d.value == ShardsOf(sch.c, obj)[|shards|] && Holds(sch, obj, files, |shards|)
    requires d.None? ==> !Good(sch, obj, files, |shards|)
    ensures Found(sch, obj, files, shards + [d], if d.None? then missing + [|shards|] else missing)
  {
    hide ShardsOf, Present, Lawful, Good, Holds;
    PresentAppend(shards, d);
    var all, more := shards + [d], if d.None? then missing + [|shards|] else missing;
    forall i | 0 <= i < |all| ensures all[i].None? <==> i in more {
      if i == |shards| {
        if d.None? { assert more[|missing|] == i; } else { assert i !in missing; }
      } else {
        assert all[i] == shards[i];
      }
    }
  }

  // Read every shard; list the ones that are missing, short or fail their checksums.
  method Survey(files: Files, sch: Scheme, meta: ShardMeta, ghost obj: seq<byte>)
    returns (shards: seq<Option<seq<byte>>>, missing: seq<nat>)
    requires Describes(sch, meta, obj) && Trust(sch, meta, obj, files)
    ensures |shards| == |files| && Found(sch, obj, files, shards, missing)
  {
    hide ShardsOf, Describes, Trust, Present, Lawful, Found;
    Basics(sch, meta, obj);
    TrustLength(sch, meta, obj, files);
    shards, missing := [], [];
    assert Found(sch, obj, files, shards, missing) by { FoundNothing(sch, obj, files); }
    for i := 0 to |files|
      invariant |shards| == i && Found(sch, obj, files, shards, missing)
    {
      var d := ReadWholeShard(sch, meta, files, i, obj);
      FoundStep(sch, obj, files, shards, missing, d);
      shards := shards + [d];
      missing := if d.None? then missing + [i] else missing;
    }
  }

  lemma FoundNothing(sch: Scheme, obj: seq<byte>, files: Files)
    requires Lawful(sch.c) && |files| == sch.c.k + sch.c.m
    ensures Found(sch, obj, files, [], [])
  {
  }

  /** healObject. `missing` lists the shards that could not be read, and `trace` the files after
      each write. */
  method HealObject(store: ShardStore, sch: Scheme, meta: ShardMeta, ghost obj: seq<byte>)
    returns (repaired: bool, failures: nat, ghost missing: seq<nat>, ghost trace: seq<Files>)
    requires Describes(sch, meta, obj) && Trust(sch, meta, obj, store.files)
    modifies store
    ensures Mended(sch, obj, old(store.files), store.files) && Trust(sch, meta, obj, store.files)
    // Every state on the way is readable whenever the first one was, with the same value.
    ensures forall t :: 0 <= t < |trace| ==> OnTheWay(sch, meta, obj, old(store.files), trace[t])
    // Every bad shard, and only a bad one, is put back once, with the bytes it was created with.
    ensures Rising(missing) && forall x :: 0 <= x < |missing| ==> !Good(sch, obj, old(store.files), missing[x])
    ensures forall i :: 0 <= i < |old(store.files)| && !Holds(sch, obj, old(store.files), i) ==> i in missing
    ensures repaired <==> 0 < |missing| <= meta.m
    ensures old(store.puts) <= store.puts
    ensures Account(sch, obj, if repaired then missing else [], Since(store, |old(store.puts)|), failures)
    // At most m bad shards: all of them are rewritten, unless a write fails.
    ensures Enough(sch, obj, old(store.files)) && failures == 0 ==> AllHold(sch, obj, store.files)
    ensures store.Healthy() ==> failures == 0
    ensures Enough(sch, obj, old(store.files)) && !AllHold(sch, obj, old(store.files)) ==> repaired
    ensures !repaired ==> store.files == old(store.files) && store.puts == old(store.puts) && trace == []
    // A pass over an intact version does nothing.
    ensures AllGood(sch, obj, old(store.files)) ==> !repaired
  {
    hide ShardsOf, Describes, Trust, Lawful, Account, Good;
    Basics(sch, meta, obj);
    ghost var was, n := store.files, |store.puts|;
    TrustLength(sch, meta, obj, was);
    repaired, failures, trace := false, 0, [];
    NoAccount(sch, obj);
    assert Since(store, n) == [];
    var shards, bad := Survey(store.files, sch, meta, obj);
    missing := bad;
    if Enough(sch, obj, was) { PresentMonotone(GoodOnly(sch, obj, was), shards); }
    if bad == [] || |bad| > meta.m {
      return;
    }
    assert !Good(sch, obj, was, bad[0]);
    var full := Rebuild(sch, meta, obj, shards);
    failures, trace := WriteBack(store, sch, meta, obj, full, bad);
    if failures == 0 { AllMended(sch, obj, was, store.files, shards, bad); }
    repaired := true;
  }

  lemma AllMended(sch: Scheme, obj: seq<byte>, was: Files, now: Files, shards: seq<Option<seq<byte>>>, bad: seq<nat>)
    requires Lawful(sch.c) && |shards| == |was| == |now| && Found(sch, obj, was, shards, bad)
    requires forall x :: 0 <= x < |bad| ==> Holds(sch, obj, now, bad[x])
    requires forall i :: 0 <= i < |now| && i !in bad ==> now[i] == was[i]
    ensures AllHold(sch, obj, now)
  {
    hide ShardsOf, Lawful, Good;
    forall i | 0 <= i < |now| ensures Holds(sch, obj, now, i) {
      if i in bad {
        var x :| 0 <= x < |bad| && bad[x] == i;
      } else {
        assert shards[i].Some? && Holds(sch, obj, was, i);
      }
    }
  }

  // No file fails now and then.
  ghost predicate Steady(files: Files) {
    forall i :: 0 <= i < |files| && files[i].Some? ==> !files[i].value.flaky
  }

  lemma HeldIsGood(sch: Scheme, obj: seq<byte>, files: Files)
    requires Lawful(sch.c) && AllHold(sch, obj, files) && Steady(files)
    ensures AllGood(sch, obj, files)
  {
    hide ShardsOf, Lawful;
    forall i | 0 <= i < |files| ensures Good(sch, obj, files, i) { assert Holds(sch, obj, files, i); }
  }

  /** Two passes over at most m bad shards on working storage, with steady files: the first leaves
      every shard as it was written, and the second finds nothing to do and writes nothing. */
  method HealTwice(store: ShardStore, sch: Scheme, meta: ShardMeta, ghost obj: seq<byte>)
    returns (first: bool, failures: nat, second: bool, ghost after: seq<Put>)
    requires Describes(sch, meta, obj) && Trust(sch, meta, obj, store.files)
    modifies store
    ensures Enough(sch, obj, old(store.files)) && Steady(old(store.files)) && store.Healthy() ==>
      failures == 0 && !second && AllGood(sch, obj, store.files) && store.puts == after
    ensures Enough(sch, obj, old(store.files)) && Steady(old(store.files)) && failures == 0 ==>
      !second && AllGood(sch, obj, store.files) && store.puts == after
  {
    hide ShardsOf, Describes, Trust, Enough;
    Basics(sch, meta, obj);
    ghost var was := store.files;
    ghost var t1, t2, m1, m2;
    first, failures, m1, t1 := HealObject(store, sch, meta, obj);
    if Enough(sch, obj, was) && Steady(was) && failures == 0 { HeldIsGood(sch, obj, store.files); }
    after := store.puts;
    var more;
    second, more, m2, t2 := HealObject(store, sch, meta, obj);
  }

  // The write loop: each bad shard in turn, going on past a write that fails.
  method WriteBack(store: ShardStore, sch: Scheme, meta: ShardMeta, ghost obj: seq<byte>, full: seq<seq<byte>>,
                   missing: seq<nat>)
    returns (failures: nat, ghost trace: seq<Files>)
    requires Describes(sch, meta, obj) && Trust(sch, meta, obj, store.files) && full == ShardsOf(sch.c, obj)
    requires forall x :: 0 <= x < |missing| ==> missing[x] < |store.files| && !Good(sch, obj, store.files, missing[x])
    modifies store
    ensures OnTheWay(sch, meta, obj, old(store.files), store.files)
    ensures forall t :: 0 <= t < |trace| ==> OnTheWay(sch, meta, obj, old(store.files), trace[t])
    ensures failures == 0 ==> forall x :: 0 <= x < |missing| ==> Holds(sch, obj, store.files, missing[x])
    ensures forall i :: 0 <= i < |store.files| && i !in missing ==> store.files[i] == old(store.files)[i]
    ensures old(store.puts) <= store.puts
    ensures Account(sch, obj, missing, Since(store, |old(store.puts)|), failures)
    ensures store.Healthy() ==> failures == 0
  {
    hide ShardsOf, Describes, Trust, Present, Lawful, Account, Good, Enough;
    Basics(sch, meta, obj);
    ghost var was, n := store.files, |store.puts|;
    TrustLength(sch, meta, obj, was);
    failures, trace := 0, [];
    NoAccount(sch, obj);
    assert missing[..0] == [] && Since(store, n) == [];
    for x := 0 to |missing|
      invariant OnTheWay(sch, meta, obj, was, store.files)
      invariant forall t :: 0 <= t < |trace| ==> OnTheWay(sch, meta, obj, was, trace[t])
      invariant failures == 0 ==> forall y :: 0 <= y < x ==> Holds(sch, obj, store.files, missing[y])
      invariant forall i :: 0 <= i < |store.files| && i !in missing ==> store.files[i] == was[i]
      invariant old(store.puts) <= store.puts && Account(sch, obj, missing[..x], Since(store, n), failures)
      invariant store.Healthy() ==> failures == 0
    {
      var i := missing[x];
      OneMended(sch, meta, obj, was, store.files, i);
      ghost var made := Since(store, n);
      var ok := store.Write(i, full[i]);
      assert Since(store, n) == made + [Put(i, full[i], ok)];
      AccountNext(sch, obj, missing, x, made, failures, Put(i, full[i], ok));
      failures := if ok then failures else failures + 1;
      trace := trace + [store.files];
    }
    assert missing[..|missing|] == missing;
  }

  ghost predicate Account(sch: Scheme, obj: seq<byte>, missing: seq<nat>, puts: seq<Put>, failures: nat)
    requires Lawful(sch.c)
  {
    PutBack(sch, obj, missing, puts) && failures == Reported(puts)
  }

  lemma AccountNext(sch: Scheme, obj: seq<byte>, missing: seq<nat>, x: nat, puts: seq<Put>, failures: nat, p: Put)
    requires Lawful(sch.c) && x < |missing| && Account(sch, obj, missing[..x], puts, failures)
    requires p.i == missing[x] < sch.c.k + sch.c.m && p.data == ShardsOf(sch.c, obj)[missing[x]]
    ensures Account(sch, obj, missing[..x + 1], puts + [p], if p.ok then failures else failures + 1)
  {
    hide ShardsOf, Lawful;
    ReportedNext(puts, p);
  }

  lemma NoAccount(sch: Scheme, obj: seq<byte>)
    requires Lawful(sch.c)
    ensures Account(sch, obj, [], [], 0)
  {
  }

  lemma ReportedNext(puts: seq<Put>, p: Put)
    ensures Reported(puts + [p]) == Reported(puts) + if p.ok then 0 else 1
  {
    assert (puts + [p])[..|puts|] == puts;
  }

  ghost predicate OnTheWay(sch: Scheme, meta: ShardMeta, obj: seq<byte>, was: Files, now: Files)
    requires Describes(sch, meta, obj)
  {
    Mended(sch, obj, was, now) && Trust(sch, meta, obj, now) && (Enough(sch, obj, was) ==> Enough(sch, obj, now))
  }

  lemma TrustLength(sch: Scheme, meta: ShardMeta, obj: seq<byte>, files: Files)
    requires Describes(sch, meta, obj) && Trust(sch, meta, obj, files)
    ensures |files| == meta.k + meta.m && Mended(sch, obj, files, files)
  {
  }

  method Rebuild(sch: Scheme, meta: ShardMeta, ghost obj: seq<byte>, shards: seq<Option<seq<byte>>>)
    returns (full: seq<seq<byte>>)
    requires Describes(sch, meta, obj) && |shards| == meta.k + meta.m && Present(shards) >= meta.k
    requires forall i :: 0 <= i < |shards| && shards[i].Some? ==> shards[i].value == ShardsOf(sch.c, obj)[i]
    ensures full == ShardsOf(sch.c, obj)
  {
    DecodeEncode(sch.c, obj, shards);
    full := Reconstruct(sch.c, shards, meta.sizes[0]).value;
  }
}

// From the bytes of a request body to shard files and back.
module RoundTrip {
  import opened Wrappers
  import opened ColumnCode
  import opened Layout
  import opened Checksums
  import opened ShardFiles
  import opened StreamWrite
  import opened GetObject

  // The meta.json either write path stores.
  function MetaOf(out: seq<Stored>, c: Code, size: nat, stripe: nat): ShardMeta {
    ShardMeta(size, c.k, c.m,
              seq(|out|, i requires 0 <= i < |out| => |out[i].file|),
              seq(|out|, i requires 0 <= i < |out| => out[i].sums), stripe)
  }

  // What the writers leave is what the readers assume.
  lemma WriteDescribes(out: seq<Stored>, c: Code, obj: seq<byte>, h: Hash, stripe: nat)
    requires Lawful(c) && stripe > 0 && obj != [] && Encodes(out, c, obj, h, stripe)
    ensures Describes(Scheme(c, h, stripe), MetaOf(out, c, |obj|, stripe), obj)
    ensures MetaOf(out, c, |obj|, stripe).HasChecksums() <==> stripe <= 0x400_0000
  {
    var meta := MetaOf(out, c, |obj|, stripe);
    assert |out| == |Files(out)| == c.k + c.m;
    forall i | 0 <= i < c.k + c.m
      ensures meta.sizes[i] == PerShard(|obj|, c.k) && SumsRecord(h, meta, i, ShardsOf(c, obj)[i])
    {
      assert out[i].file == Files(out)[i] == ShardsOf(c, obj)[i];
      assert Summed(out[i], h, stripe);
    }
    assert meta.sizes == seq(c.k + c.m, _ => PerShard(|obj|, c.k));
  }

  // A written shard is checked, up to the largest stripe a reader accepts: bytes read from a
  // stripe boundary on are refused exactly if a stripe of them has another checksum than the
  // shard has there, or the shard ends before it.
  lemma DamageIsRefused(out: seq<Stored>, c: Code, obj: seq<byte>, h: Hash, stripe: nat, i: nat, at: nat,
                        data: seq<byte>)
    requires Lawful(c) && 0 < stripe <= 0x400_0000 && obj != [] && Encodes(out, c, obj, h, stripe) && i < c.k + c.m
    ensures StripeOK(h, MetaOf(out, c, |obj|, stripe), i, at * stripe, data) <==>
      Alike(h, out[i].file, stripe, at, data)
  {
    hide ShardsOf, Describes, StripeSums, Crc, Carries, Alike, StripeOK;
    WriteDescribes(out, c, obj, h, stripe);
    assert Summed(out[i], h, stripe);
    MultipleIsAligned(at, stripe);
    var sums := StripeSums(h, out[i].file, stripe);
    assert MetaOf(out, c, |obj|, stripe).crcs[i] == sums;
    RefusesExactly(h, MetaOf(out, c, |obj|, stripe), i, at * stripe, data);
    CarriesAlike(h, out[i].file, stripe, at, data);
  }

  // The files after some shards have been lost.
  function Remaining(out: seq<Stored>, lost: set<nat>): (disk: seq<Option<File>>)
    ensures |disk| == |out|
  {
    seq(|out|, i requires 0 <= i < |out| => if i in lost then None else Some(File(out[i].file, false)))
  }

  lemma {:induction false} LostCount<T>(w: seq<Option<T>>, lost: set<nat>)
    requires forall i :: 0 <= i < |w| && w[i].None? ==> i in lost
    ensures Present(w) + |lost| >= |w|
  {
    if w != [] {
      var n := |w| - 1;
      assert w == w[..n] + [w[n]];
      PresentAppend(w[..n], w[n]);
      LostCount(w[..n], lost - {n});
    }
  }

  lemma LostIsTrusted(out: seq<Stored>, c: Code, obj: seq<byte>, h: Hash, stripe: nat, lost: set<nat>)
    requires Lawful(c) && stripe > 0 && obj != [] && Encodes(out, c, obj, h, stripe) && |lost| <= c.m
    ensures var sch := Scheme(c, h, stripe);
      && Describes(sch, MetaOf(out, c, |obj|, stripe), obj)
      && Trust(sch, MetaOf(out, c, |obj|, stripe), obj, Remaining(out, lost)) && Enough(sch, obj, Remaining(out, lost))
  {
    hide ShardsOf, StripeOK, Describes;
    WriteDescribes(out, c, obj, h, stripe);
    var sch, meta, disk := Scheme(c, h, stripe), MetaOf(out, c, |obj|, stripe), Remaining(out, lost);
    assert |out| == |Files(out)| == c.k + c.m;
    forall i | 0 <= i < |out| ensures out[i].file == ShardsOf(c, obj)[i] { assert out[i].file == Files(out)[i]; }
    LostCount(GoodOnly(sch, obj, disk), lost);
  }

  // Put an object either way, lose any m of its shards, and read it with any calls: every
  // byte comes back as it was put and nothing fails.
  method PutLoseGet(data: seq<byte>, c: Code, h: Hash, stripe: nat, streaming: bool, lost: set<nat>, calls: seq<Call>)
    returns (replies: seq<Reply>)
    requires Lawful(c) && stripe > 0 && data != [] && |lost| <= c.m
    ensures Conforms(data, 0, calls, replies) && NoFailure(replies)
  {
    hide ShardsOf, Describes, Trust, Conforms;
    var out: seq<Stored>;
    if streaming {
      var src := new Source(data);
      var r := PutStreaming(src, c, |data|, h, stripe);
      assert data[..|data|] == data;
      out := r.value;
    } else {
      out := PutBuffered(data, c, h, stripe);
    }
    LostIsTrusted(out, c, data, h, stripe, lost);
    var found;
    found, replies := GetCoded(Scheme(c, h, stripe), MetaOf(out, c, |data|, stripe), Remaining(out, lost), calls, data);
  }
}
