// Reading a coded object: the streaming reader of internal/erasure/stream.go, the degraded
// reader of internal/erasure/degraded.go with its reused buffers, and the open sequence of
// internal/erasure/engine.go.

module ShardFiles {
  import opened Wrappers
  import opened ColumnCode
  import opened Layout
  import opened Checksums

  // An opened shard. Reads of a flaky one may fail at any time.
  datatype File = File(data: seq<byte>, flaky: bool)

  // How a version was written: the code, the checksum and the stripe length.
  datatype Scheme = Scheme(c: Code, h: Hash, stripe: nat)

  predicate Aligned(off: nat, s: nat) { s > 0 && off % s == 0 }

  // meta.json describes obj as either write path records it (engine.go, streamwrite.go).
  ghost predicate Describes(sch: Scheme, meta: ShardMeta, obj: seq<byte>) {
    && Lawful(sch.c) && sch.stripe > 0
    && meta.k == sch.c.k && meta.m == sch.c.m && meta.size == |obj| > 0
    && meta.sizes == seq(meta.k + meta.m, _ => PerShard(|obj|, meta.k))
    && (meta.HasChecksums() ==> meta.crcStripe == sch.stripe)
    && forall i :: 0 <= i < meta.k + meta.m ==> SumsRecord(sch.h, meta, i, ShardsOf(sch.c, obj)[i])
  }

  // The shard file as written, without faults.
  ghost predicate Good(sch: Scheme, obj: seq<byte>, disk: seq<Option<File>>, i: nat)
    requires Lawful(sch.c)
  {
    i < sch.c.k + sch.c.m && i < |disk| && disk[i] == Some(File(ShardsOf(sch.c, obj)[i], false))
  }

  // A stripe the check lets through is the stripe that was written: damage changes the
  // checksum. Missing, short and detectably corrupt shards are all allowed.
  ghost predicate Trust(sch: Scheme, meta: ShardMeta, obj: seq<byte>, disk: seq<Option<File>>)
    requires Describes(sch, meta, obj)
  {
    && |disk| == meta.k + meta.m
    && forall i, off: nat {:trigger StripeTrust(sch, meta, obj, disk, i, off)} ::
         0 <= i < |disk| && Aligned(off, sch.stripe) && off < PerShard(|obj|, meta.k) ==>
           StripeTrust(sch, meta, obj, disk, i, off)
  }

  ghost predicate StripeTrust(sch: Scheme, meta: ShardMeta, obj: seq<byte>, disk: seq<Option<File>>, i: nat, off: nat)
    requires Describes(sch, meta, obj) && |disk| == meta.k + meta.m
    requires i < |disk| && off < PerShard(|obj|, meta.k)
  {
    var n := Min(sch.stripe, PerShard(|obj|, meta.k) - off);
    disk[i].Some? && off + n <= |disk[i].value.data| &&
      StripeOK(sch.h, meta, i, off, disk[i].value.data[off..off + n]) ==>
      disk[i].value.data[off..off + n] == ShardsOf(sch.c, obj)[i][off..off + n]
  }

  // The good shards, as the input of a reconstruction.
  ghost function GoodOnly(sch: Scheme, obj: seq<byte>, disk: seq<Option<File>>): (g: seq<Option<seq<byte>>>)
    requires Lawful(sch.c) && |disk| == sch.c.k + sch.c.m
    ensures |g| == |disk|
  {
    seq(|disk|, i requires 0 <= i < |disk| => if Good(sch, obj, disk, i) then Some(disk[i].value.data) else None)
  }

  // At most m shards are bad.
  ghost predicate Enough(sch: Scheme, obj: seq<byte>, disk: seq<Option<File>>)
    requires Lawful(sch.c)
  {
    |disk| == sch.c.k + sch.c.m && Present(GoodOnly(sch, obj, disk)) >= sch.c.k
  }

  // How many of the length bytes at off a file has, and those that were delivered.
  function HowMuch(f: File, off: nat, length: nat): nat {
    if off <= |f.data| then Min(length, |f.data| - off) else 0
  }

  function Part(data: seq<byte>, off: nat, n: nat): (p: seq<byte>)
    ensures |p| <= n
  {
    if off + n <= |data| then data[off..off + n] else []
  }

  // A read of length bytes may deliver n: all there are, or any part of them if it is flaky.
  ghost predicate Delivers(f: File, off: nat, length: nat, n: nat) {
    n <= HowMuch(f, off, length) && (f.flaky || n == HowMuch(f, off, length))
  }

  // io.ReadFull after a seek to off: the bytes that arrived, and whether all of them did. A
  // short file, or a fault of a flaky one, delivers fewer.
  method ReadFull(f: File, off: nat, n: nat) returns (got: seq<byte>, ok: bool)
    ensures |got| <= n && (ok <==> |got| == n)
    ensures got != [] ==> off + |got| <= |f.data| && got == f.data[off..off + |got|]
    ensures !f.flaky && off + n <= |f.data| ==> ok
    ensures Delivers(f, off, n, |got|) && got == Part(f.data, off, |got|)
  {
    var have := HowMuch(f, off, n);
    if f.flaky {
      var cut: nat := *;
      have := Min(have, cut);
    }
    got := if have == 0 then [] else f.data[off..off + have];
    ok := have == n;
  }

  lemma GoodStripe(sch: Scheme, meta: ShardMeta, obj: seq<byte>, disk: seq<Option<File>>, i: nat, off: nat, n: nat)
    requires Describes(sch, meta, obj) && Good(sch, obj, disk, i)
    requires off < PerShard(|obj|, meta.k) && n == Min(sch.stripe, PerShard(|obj|, meta.k) - off)
    ensures off + n <= |disk[i].value.data| && StripeOK(sch.h, meta, i, off, disk[i].value.data[off..off + n])
  {
    assert |ShardsOf(sch.c, obj)[i]| == PerShard(|obj|, meta.k);
    AcceptsTrueStripes(sch.h, meta, i, ShardsOf(sch.c, obj)[i], off, n);
  }

  // A run of bytes inside a true block is a run of the object.
  lemma BlockRun(c: Code, obj: seq<byte>, b: seq<byte>, off: nat, pos: nat, idx: nat, inShard: nat, n: nat)
    requires Lawful(c) && Placed(pos, c.k, PerShard(|obj|, c.k), idx, inShard) && pos + n <= |obj|
    requires off <= inShard && inShard - off + n <= |b| && off + |b| <= PerShard(|obj|, c.k)
    requires b == ShardsOf(c, obj)[idx][off..off + |b|]
    ensures b[inShard - off..inShard - off + n] == obj[pos..pos + n]
  {
    hide ShardsOf, PerShard;
    ShardRun(c, obj, pos, idx, inShard, n);
    SliceOfSlice(ShardsOf(c, obj)[idx], off, |b|, inShard - off, n);
  }

  // The parts of Describes that matter away from the checksums.
  lemma Basics(sch: Scheme, meta: ShardMeta, obj: seq<byte>)
    requires Describes(sch, meta, obj)
    ensures Lawful(sch.c) && sch.stripe > 0 && meta.size == |obj| && meta.k == sch.c.k && meta.m == sch.c.m
    ensures meta.k >= 1
    ensures |ShardsOf(sch.c, obj)| == meta.k + meta.m && Uniform(ShardsOf(sch.c, obj), PerShard(|obj|, meta.k))
  {
  }

  // Where the stripe that holds in-shard offset x begins.
  function StripeStart(x: nat, s: nat): (off: nat)
    requires s > 0
    ensures off <= x < off + s && Aligned(off, s)
  {
    DivMod(x, s);
    MultipleIsAligned(x / s, s);
    x / s * s
  }
}

module DegradedReads {
  import opened Wrappers
  import opened ColumnCode
  import opened Layout
  import opened Checksums
  import opened ShardFiles

  // Crashed: a call on a reader that is closed.
  datatype Status = Done | EOF | Failed | Crashed

  datatype Whence = FromStart | FromCurrent | FromEnd | Invalid

  // Where a seek has to land: at the offset from the start, from the position or from the end.
  // It is refused if and only if that is before the start, or the base is not one of the three.
  ghost predicate Lands(from: nat, size: nat, offset: int, whence: Whence, r: Option<nat>) {
    match whence
    case FromStart => if offset < 0 then r == None else r.Some? && r.value == offset
    case FromCurrent => if from + offset < 0 then r == None else r.Some? && r.value == from + offset
    case FromEnd => if size + offset < 0 then r == None else r.Some? && r.value == size + offset
    case Invalid => r == None
  }

  function SeekTarget(pos: nat, size: nat, offset: int, whence: Whence): (r: Option<nat>)
    ensures Lands(pos, size, offset, whence, r)
  {
    if whence == Invalid then None
    else
      var abs := match whence case FromStart => offset case FromCurrent => pos + offset case _ => size + offset;
      if abs < 0 then None else Some(abs)
  }

  // One shard's part of a recovered stripe. Shared(i) is the read buffer of shard i itself,
  // whatever it holds by then; Owned is a block that was rebuilt into memory of its own.
  datatype Block = Missing | Shared(i: nat) | Owned(data: seq<byte>)

  function Bytes(bufs: seq<seq<byte>>, b: Block, n: nat): (r: seq<byte>)
    ensures |r| <= n
  {
    match b
    case Missing => []
    case Shared(i) => if i < |bufs| && n <= |bufs[i]| then bufs[i][..n] else []
    case Owned(data) => if n <= |data| then data[..n] else []
  }

  // Which blocks are there.
  function Mask(blocks: seq<Block>): (w: seq<Option<nat>>)
    ensures |w| == |blocks|
  {
    seq(|blocks|, i requires 0 <= i < |blocks| => if blocks[i].Missing? then None else Some(i))
  }

  lemma MaskNone()
    ensures Present(Mask([])) == 0
  {
  }

  lemma MaskAppend(blocks: seq<Block>, b: Block)
    ensures Present(Mask(blocks + [b])) == Present(Mask(blocks)) + if b == Missing then 0 else 1
  {
    var g: Option<nat> := if b == Missing then None else Some(|blocks|);
    PresentAppend<nat>(Mask(blocks), g);
    assert Mask(blocks + [b]) == Mask(blocks) + [g];
  }

  lemma MaskPad(blocks: seq<Block>, n: nat)
    ensures Present(Mask(blocks + seq(n, _ => Missing))) >= Present(Mask(blocks))
  {
    var gaps: seq<Option<nat>> := seq(n, _ => None);
    PresentPad(Mask(blocks), gaps);
    assert Mask(blocks + seq(n, _ => Missing)) == Mask(blocks) + gaps;
  }

  // The bytes of those that are.
  function Gotten(bufs: seq<seq<byte>>, blocks: seq<Block>, n: nat): (w: seq<Option<seq<byte>>>)
    ensures |w| == |blocks|
  {
    seq(|blocks|, i requires 0 <= i < |blocks| => if blocks[i].Missing? then None else Some(Bytes(bufs, blocks[i], n)))
  }

  // Encoder.Reconstruct: blocks that are present are kept as they are, sharing their
  // buffers, and the missing ones are rebuilt.
  function Rebuilt(c: Code, bufs: seq<seq<byte>>, blocks: seq<Block>, n: nat): (r: Result<seq<Block>>)
    requires Lawful(c) && |blocks| == c.k + c.m && UniformWherePresent(Gotten(bufs, blocks, n), n)
  {
    match Reconstruct(c, Gotten(bufs, blocks, n), n)
    case Err => Err
    case Ok(full) =>
      Ok(seq(|blocks|, i requires 0 <= i < |blocks| => if blocks[i].Missing? then Owned(full[i]) else blocks[i]))
  }

  // Overwrite the front of a buffer, as a read into it does.
  function Overwrite(buf: seq<byte>, got: seq<byte>): (r: seq<byte>)
    requires |got| <= |buf|
    ensures |r| == |buf| && r[..|got|] == got
  {
    got + buf[|got|..]
  }

  // The same, seen through a block that shares the front of the buffer.
  function Lay(was: seq<byte>, got: seq<byte>): (r: seq<byte>)
    ensures |r| == |was|
  {
    if |got| <= |was| then got + was[|got|..] else got[..|was|]
  }

  lemma LayIsOverwrite(buf: seq<byte>, got: seq<byte>, n: nat)
    requires |got| <= |buf| && n <= |buf|
    ensures Overwrite(buf, got)[..n] == Lay(buf[..n], got)
  {
    var a, b := Overwrite(buf, got)[..n], Lay(buf[..n], got);
    forall j | 0 <= j < n ensures a[j] == b[j] {
      if j >= |got| { assert a[j] == buf[|got|..][j - |got|] == buf[j]; }
    }
  }

  // What a block held, and what it holds after a read by r into the buffer it is exposed to.
  ghost predicate Relaid(exposed: bool, was: seq<byte>, now: seq<byte>, r: Option<File>, off: nat, length: nat) {
    if exposed && r.Some? then
      exists n: nat :: Delivers(r.value, off, length, n) && now == Lay(was, Part(r.value.data, off, n))
    else now == was
  }

  // The numbers of those that satisfy a test.
  function Picked(n: nat, test: nat -> bool): (w: seq<Option<nat>>)
    ensures |w| == n
  {
    seq(n, i requires 0 <= i < n => if test(i) then Some(i) else None)
  }

  // Readers, buffers and the stripe in memory with its length.
  datatype Memory = Memory(readers: seq<Option<File>>, bufs: seq<seq<byte>>, stripe: seq<Block>, n: nat)

  // What block i of the stripe holds.
  function View(m: Memory, i: nat): (b: seq<byte>)
    requires i < |m.stripe|
    ensures |b| <= m.n
  {
    Bytes(m.bufs, m.stripe[i], m.n)
  }

  // Every block is there; one that shares a buffer shares its own shard's.
  ghost predicate Formed(m: Memory) {
    && |m.readers| == |m.bufs| && (m.stripe == [] || |m.stripe| == |m.bufs|)
    && forall i :: 0 <= i < |m.stripe| ==> |View(m, i)| == m.n && (m.stripe[i].Shared? ==> m.stripe[i].i == i)
  }

  // Block i shares a buffer that a read of length bytes will reuse.
  predicate Exposed(m: Memory, i: nat, length: nat) {
    i < |m.stripe| && i < |m.bufs| && m.stripe[i] == Shared(i) && length <= |m.bufs[i]|
  }

  // A read into the buffer of shard x. A buffer that is too small is replaced; the old one is
  // left to the stripe that uses it.
  function Stored(m: Memory, x: nat, length: nat, got: seq<byte>): Memory
    requires x < |m.bufs| && |got| <= length
  {
    var grow := |m.bufs[x]| < length;
    m.(bufs := m.bufs[x := Overwrite(if grow then seq(length, _ => 0) else m.bufs[x], got)],
       stripe := if grow && x < |m.stripe| then m.stripe[x := Owned(View(m, x))] else m.stripe)
  }

  lemma StoredViews(m: Memory, x: nat, length: nat, got: seq<byte>)
    requires Formed(m) && x < |m.bufs| && |got| <= length
    ensures var r := Stored(m, x, length, got);
      && Formed(r) && |r.stripe| == |m.stripe| && length <= |r.bufs[x]| && r.bufs[x][..|got|] == got
      && (forall i :: 0 <= i < |m.stripe| && i != x ==> r.stripe[i] == m.stripe[i] && r.bufs[i] == m.bufs[i])
      && (x < |m.stripe| ==> View(r, x) == if Exposed(m, x, length) then Lay(View(m, x), got) else View(m, x))
  {
    var r := Stored(m, x, length, got);
    if x < |m.stripe| && Exposed(m, x, length) { LayIsOverwrite(m.bufs[x], got, m.n); }
    forall i | 0 <= i < |m.stripe| && i != x ensures View(r, i) == View(m, i) {}
  }

  // A failed fill: every block of the old stripe that shares a buffer which was read into
  // holds what was read.
  ghost predicate AllRelaid(was: Memory, now: Memory, off: nat, length: nat) {
    && |now.stripe| == |was.stripe| && now.n == was.n && (was.stripe == [] || |was.stripe| == |was.readers|)
    && forall i :: 0 <= i < |was.stripe| ==>
      Relaid(Exposed(was, i, length), View(was, i), View(now, i), was.readers[i], off, length)
  }

  function SharedOnes(stripe: seq<Block>): (w: seq<Option<nat>>)
    ensures |w| == |stripe|
  {
    Picked(|stripe|, i => 0 <= i < |stripe| && stripe[i] == Shared(i))
  }

  class DegradedStream {
    const sch: Scheme
    const meta: ShardMeta
    const perShard: nat
    // The object, its shards as written, and the shard files.
    ghost const obj: seq<byte>
    ghost const truth: seq<seq<byte>>
    ghost const disk: seq<Option<File>>

    var pos: nat
    var readers: seq<Option<File>>
    var bufs: seq<seq<byte>>
    var stripe: seq<Block>
    var stripeOff: int
    var stripeLen: nat
    // Set once a fill has failed: the buffers the stripe shares may hold another stripe.
    ghost var torn: bool

    ghost predicate Context() {
      && Describes(sch, meta, obj) && Trust(sch, meta, obj, disk)
      && perShard == PerShard(|obj|, meta.k) && truth == ShardsOf(sch.c, obj)
    }

    ghost function Mem(): Memory
      reads this
    {
      Memory(readers, bufs, stripe, stripeLen)
    }

    ghost predicate ReadersValid(m: Memory) {
      && |m.readers| == |m.bufs| == |disk| == meta.k + meta.m
      && (forall i :: 0 <= i < |m.readers| && m.readers[i].Some? ==> m.readers[i] == disk[i])
      && (forall i :: 0 <= i < |m.readers| && Lawful(sch.c) && Good(sch, obj, disk, i) ==> m.readers[i].Some?)
    }

    ghost predicate Sane(m: Memory) { ReadersValid(m) && Formed(m) }

    ghost predicate StripeAt(off: int, length: nat) {
      0 <= off < perShard && Aligned(off, sch.stripe) && length == Min(sch.stripe, perShard - off)
    }

    ghost predicate IsTrue(i: nat, off: nat, b: seq<byte>) {
      i < |truth| && off + |b| <= |truth[i]| && b == truth[i][off..off + |b|]
    }

    ghost predicate Shaped()
      reads this
    {
      StripeAt(stripeOff, stripeLen) && |stripe| == meta.k + meta.m
    }

    // The loaded stripe, seen through the buffers it shares, is the object's.
    ghost predicate Loaded()
      reads this
    {
      Shaped() && forall i :: 0 <= i < |stripe| ==> IsTrue(i, stripeOff, View(Mem(), i))
    }

    ghost predicate Valid()
      reads this
    {
      Context() && Sane(Mem()) && (if stripeOff < 0 then stripe == [] else if torn then Shaped() else Loaded())
    }

    constructor (sch: Scheme, meta: ShardMeta, readers: seq<Option<File>>, ghost obj: seq<byte>,
                 ghost disk: seq<Option<File>>)
      requires Describes(sch, meta, obj) && Trust(sch, meta, obj, disk) && |readers| == |disk|
      requires forall i :: 0 <= i < |readers| && readers[i].Some? ==> readers[i] == disk[i]
      requires forall i :: 0 <= i < |readers| && Good(sch, obj, disk, i) ==> readers[i].Some?
      ensures Valid() && !torn && pos == 0 && this.readers == readers && stripe == [] && stripeOff < 0
      ensures this.obj == obj && this.disk == disk && this.sch == sch && this.meta == meta
    {
      this.sch, this.meta, this.obj, this.disk, truth := sch, meta, obj, disk, ShardsOf(sch.c, obj);
      perShard := meta.sizes[0];
      pos, this.readers, bufs := 0, readers, seq(|readers|, _ => []);
      stripe, stripeOff, stripeLen, torn := [], -1, 0, false;
    }

    // The file's part of the stripe is there and passes its check.
    predicate Passes(i: nat, f: File, off: nat, length: nat) {
      i < meta.k + meta.m && off + length <= |f.data| && StripeOK(sch.h, meta, i, off, f.data[off..off + length])
    }

    // The readers that may, and those that are sure to, deliver their part.
    ghost function Could(rs: seq<Option<File>>, off: nat, length: nat): seq<Option<nat>> {
      Picked(|rs|, i => 0 <= i < |rs| && rs[i].Some? && Passes(i, rs[i].value, off, length))
    }

    ghost function Sure(rs: seq<Option<File>>, off: nat, length: nat): seq<Option<nat>> {
      Picked(|rs|, i => 0 <= i < |rs| && rs[i].Some? && !rs[i].value.flaky && Passes(i, rs[i].value, off, length))
    }

    // One turn of the reading loop, at shard x: nothing without a reader; else its buffer
    // takes what the reader delivers, sound or not, and the shard is kept or dropped for good.
    ghost predicate Turned(was: Memory, now: Memory, x: nat, off: nat, length: nat, b: Block) {
      x < |was.bufs| == |was.readers| &&
      if was.readers[x].None? then now == was && b == Missing
      else exists got :: TurnedWith(was, now, x, off, length, b, was.readers[x].value, got)
    }

    ghost predicate TurnedWith(was: Memory, now: Memory, x: nat, off: nat, length: nat, b: Block, f: File,
                               got: seq<byte>)
      requires x < |was.bufs| == |was.readers|
    {
      && |got| <= length && Delivers(f, off, length, |got|) && got == Part(f.data, off, |got|)
      && now == Stored(was, x, length, got).(readers := was.readers[x := if b == Missing then None else Some(f)])
      && (b == Missing || (b == Shared(x) && |got| == length && Passes(x, f, off, length)))
      && (!f.flaky && Passes(x, f, off, length) ==> b == Shared(x))
    }

    method ReadBlock(x: nat, off: nat, length: nat) returns (b: Block)
      requires Context() && Sane(Mem()) && x < |readers| && StripeAt(off, length)
      modifies this`readers, this`bufs, this`stripe
      ensures Turned(old(Mem()), Mem(), x, off, length, b)
    {
      hide Aligned, PerShard, ShardsOf, StripeOK, Describes, Trust, StripeAt, Delivers, Overwrite;
      b := Missing;
      if readers[x].Some? {
        var f := readers[x].value;
        var buf := bufs[x];
        if |buf| < length {
          if x < |stripe| { stripe := stripe[x := Owned(Bytes(bufs, stripe[x], stripeLen))]; }
          buf := seq(length, _ => 0);
        }
        var got, full := ReadFull(f, off, length);
        bufs := bufs[x := Overwrite(buf, got)];
        var sound := false;
        if full {
          Whole(f, off, length, got);
          sound := CheckStripes(sch.h, meta, x, off, got);
        }
        if full && sound {
          b := Shared(x);
        } else {
          readers := readers[x := None];
        }
        assert TurnedWith(old(Mem()), Mem(), x, off, length, b, f, got);
      }
    }

    // A read that delivers all it was asked for delivers the file's bytes there.
    lemma Whole(f: File, off: nat, length: nat, got: seq<byte>)
      requires StripeAt(off, length) && Delivers(f, off, length, |got|) && got == Part(f.data, off, |got|)
      requires |got| == length
      ensures off + length <= |f.data| && got == f.data[off..off + length]
    {
      NotEmpty(off, length);
    }

    // What a turn does to the memory.
    lemma AfterTurn(was: Memory, now: Memory, x: nat, off: nat, length: nat, b: Block)
      requires Context() && Sane(was) && StripeAt(off, length) && Turned(was, now, x, off, length, b)
      ensures Sane(now) && now.n == was.n && |now.bufs| == |was.bufs| && |now.stripe| == |was.stripe|
      ensures forall i :: 0 <= i < |was.bufs| && i != x ==>
        now.bufs[i] == was.bufs[i] && now.readers[i] == was.readers[i]
      ensures forall i :: 0 <= i < |was.stripe| && i != x ==> now.stripe[i] == was.stripe[i]
      ensures CollectedAt(x, b, was, now, off, length)
    {
      hide Aligned, PerShard, ShardsOf, Describes, Trust, TurnedWith, IsTrue, Passes, Relaid, ReadersValid, Formed;
      hide View;
      if was.readers[x].Some? {
        var f := was.readers[x].value;
        var got :| TurnedWith(was, now, x, off, length, b, f, got);
        TurnReaders(was, now, x, off, length, b, f, got);
        TurnViews(was, now, x, off, length, b, f, got);
      } else {
        TurnNone(was, x, off, length);
      }
    }

    lemma TurnNone(m: Memory, x: nat, off: nat, length: nat)
      requires Sane(m) && x < |m.bufs| && m.readers[x].None?
      ensures CollectedAt(x, Missing, m, m, off, length)
    {
    }

    // Its readers, and the buffer that was read into.
    lemma TurnReaders(was: Memory, now: Memory, x: nat, off: nat, length: nat, b: Block, f: File, got: seq<byte>)
      requires Context() && Sane(was) && StripeAt(off, length) && x < |was.bufs| && was.readers[x] == Some(f)
      requires TurnedWith(was, now, x, off, length, b, f, got)
      ensures |was.readers| == |was.bufs| == |now.bufs| == |now.readers|
      ensures ReadersValid(now) && now.n == was.n && (b == Missing <==> now.readers[x].None?)
      ensures forall i :: 0 <= i < |was.bufs| && i != x ==>
        now.bufs[i] == was.bufs[i] && now.readers[i] == was.readers[i]
      ensures b == Missing || (b == Shared(x) && length <= |now.bufs[x]| && IsTrue(x, off, now.bufs[x][..length]))
    {
      hide Aligned, PerShard, ShardsOf, StripeOK, Describes, Trust, Stored, Delivers, StripeAt, Lay, View;
      Basics(sch, meta, obj);
      StoredViews(was, x, length, got);
      StoredSizes(was, x, length, got);
      BlockTrust(x, off, length);
      if b == Shared(x) { Whole(f, off, length, got); }
    }

    // The blocks of the stripe in memory.
    lemma TurnViews(was: Memory, now: Memory, x: nat, off: nat, length: nat, b: Block, f: File, got: seq<byte>)
      requires Sane(was) && x < |was.bufs| && was.readers[x] == Some(f)
      requires TurnedWith(was, now, x, off, length, b, f, got)
      ensures Formed(now) && |now.bufs| == |was.bufs| && |now.stripe| == |was.stripe|
      ensures forall i :: 0 <= i < |was.stripe| && i != x ==> now.stripe[i] == was.stripe[i]
      ensures x < |was.stripe| ==> Relaid(Exposed(was, x, length), View(was, x), View(now, x), Some(f), off, length)
      ensures b != Missing ==> Passes(x, f, off, length)
      ensures !f.flaky && Passes(x, f, off, length) ==> b == Shared(x)
    {
      hide Stored, Delivers, Lay, Passes, ReadersValid, Part;
      var r := Stored(was, x, length, got);
      StoredViews(was, x, length, got);
      StoredSizes(was, x, length, got);
      forall i | 0 <= i < |was.stripe| ensures View(now, i) == View(r, i) {}
    }

    lemma StoredSizes(m: Memory, x: nat, length: nat, got: seq<byte>)
      requires x < |m.bufs| && |got| <= length
      ensures var r := Stored(m, x, length, got);
        && r.n == m.n && r.readers == m.readers && |r.bufs| == |m.bufs|
        && forall i :: 0 <= i < |m.bufs| && i != x ==> r.bufs[i] == m.bufs[i]
    {
    }

    // What is known of shard i once it has been read.
    ghost predicate CollectedAt(i: nat, b: Block, was: Memory, now: Memory, off: nat, length: nat) {
      && i < |was.bufs| == |was.readers| == |now.bufs| == |now.readers| && |now.stripe| == |was.stripe|
      && (b == Missing || (b == Shared(i) && length <= |now.bufs[i]| && IsTrue(i, off, now.bufs[i][..length])))
      && (b == Missing <==> now.readers[i].None?)
      && (b != Missing ==> was.readers[i].Some? && Passes(i, was.readers[i].value, off, length))
      && (was.readers[i].Some? && !was.readers[i].value.flaky && Passes(i, was.readers[i].value, off, length) ==>
            b == Shared(i))
      && (i < |was.stripe| ==> Relaid(Exposed(was, i, length), View(was, i), View(now, i), was.readers[i], off, length))
    }

    lemma NotEmpty(off: nat, length: nat)
      requires StripeAt(off, length)
      ensures length > 0
    {
    }

    lemma BlockTrust(x: nat, off: nat, length: nat)
      requires Context() && x < |disk| && StripeAt(off, length) && disk[x].Some?
      ensures var data := disk[x].value.data;
        off + length <= |data| && StripeOK(sch.h, meta, x, off, data[off..off + length]) ==>
          IsTrue(x, off, data[off..off + length])
      ensures var data := disk[x].value.data;
        Good(sch, obj, disk, x) ==> off + length <= |data| && StripeOK(sch.h, meta, x, off, data[off..off + length])
    {
      assert StripeTrust(sch, meta, obj, disk, x, off);
      assert |truth[x]| == perShard;
      if Good(sch, obj, disk, x) {
        GoodStripe(sch, meta, obj, disk, x, off, length);
      }
    }

    // What the loop has done to the first shards, and not yet to the others.
    ghost predicate Collected(blocks: seq<Block>, was: Memory, now: Memory, off: nat, length: nat) {
      && |blocks| <= |was.bufs| == |was.readers| == |now.bufs| == |now.readers| && |now.stripe| == |was.stripe| &&
        now.n == was.n
      && (was.stripe == [] || |was.stripe| == |was.bufs|)
      && (forall i :: 0 <= i < |blocks| ==> CollectedAt(i, blocks[i], was, now, off, length))
      && (forall i :: |blocks| <= i < |was.bufs| ==> now.readers[i] == was.readers[i] && now.bufs[i] == was.bufs[i])
      && (forall i :: |blocks| <= i < |was.stripe| ==> now.stripe[i] == was.stripe[i])
    }

    lemma CollectStep(blocks: seq<Block>, was: Memory, now: Memory, next: Memory, off: nat, length: nat, b: Block)
      requires Context() && Sane(was) && Sane(now) && StripeAt(off, length) && |blocks| < |was.bufs|
      requires Collected(blocks, was, now, off, length) && Turned(now, next, |blocks|, off, length, b)
      ensures Sane(next) && Collected(blocks + [b], was, next, off, length)
    {
      hide Aligned, PerShard, ShardsOf, Describes, Trust, StripeAt, Turned, IsTrue, Passes, Relaid, Sane;
      var x := |blocks|;
      AfterTurn(now, next, x, off, length, b);
      forall i | 0 <= i <= x ensures CollectedAt(i, (blocks + [b])[i], was, next, off, length) {
        if i == x {
          if x < |was.stripe| { assert View(now, x) == View(was, x) by { SameView(was, now, x); } }
        } else {
          assert CollectedAt(i, blocks[i], was, now, off, length);
          if i < |was.stripe| { assert View(next, i) == View(now, i) by { SameView(now, next, i); } }
        }
      }
    }

    lemma SameView(m: Memory, r: Memory, i: nat)
      requires i < |m.stripe| == |r.stripe| && i < |m.bufs| == |r.bufs| && m.n == r.n && m.stripe[i] == r.stripe[i]
      requires m.bufs[i] == r.bufs[i]
      requires Sane(m)
      ensures View(r, i) == View(m, i)
    {
    }

    // Where the stripe that holds in-shard offset inShard begins, and its length.
    function OffOf(inShard: nat): (off: nat)
      ensures sch.stripe > 0 ==> off <= inShard < off + sch.stripe && Aligned(off, sch.stripe)
    {
      if sch.stripe > 0 then StripeStart(inShard, sch.stripe) else 0
    }

    function LenOf(inShard: nat): (n: nat)
      ensures sch.stripe > 0 && inShard < perShard ==> StripeAt(OffOf(inShard), n) && inShard < OffOf(inShard) + n
    {
      if sch.stripe > 0 && inShard < perShard then Min(sch.stripe, perShard - OffOf(inShard)) else 0
    }

    // Recover the stripe that holds in-shard offset inShard. It succeeds when k readers are
    // sure to deliver it, and only when k may; so always with at most m bad shards. When it
    // fails, fewer than k readers are left, and blocks of the old stripe, still marked as
    // loaded, hold what was read into the buffers they share.
    method Fill(inShard: nat) returns (ok: bool)
      requires Valid() && inShard < perShard
      modifies this`readers, this`bufs, this`stripe, this`stripeOff, this`stripeLen, this`torn
      ensures Valid()
      ensures ok ==> !torn && Loaded() && stripeOff == OffOf(inShard) && stripeLen == LenOf(inShard) && Sharing(Mem())
      ensures ok ==> Present(Could(old(readers), OffOf(inShard), LenOf(inShard))) >= meta.k
      ensures Present(Sure(old(readers), OffOf(inShard), LenOf(inShard))) >= meta.k ==> ok
      ensures Enough(sch, obj, disk) ==> ok
      ensures !ok ==> torn && stripeOff == old(stripeOff) && Present(readers) < meta.k
      ensures Present(old(readers)) < meta.k ==> !ok
      ensures !ok ==> AllRelaid(old(Mem()), Mem(), OffOf(inShard), LenOf(inShard))
    {
      hide Could, Sure, Present, Loaded, Sharing, AllRelaid, Enough, Sane, Aligned, PerShard, ShardsOf, Describes;
      hide Trust;
      Basics(sch, meta, obj);
      ok := FillAt(OffOf(inShard), LenOf(inShard));
    }

    method FillAt(off: nat, length: nat) returns (ok: bool)
      requires Valid() && StripeAt(off, length)
      modifies this`readers, this`bufs, this`stripe, this`stripeOff, this`stripeLen, this`torn
      ensures Valid()
      ensures ok ==> !torn && Loaded() && stripeOff == off && stripeLen == length && Sharing(Mem())
      ensures ok ==> Present(Could(old(readers), off, length)) >= meta.k
      ensures Present(Sure(old(readers), off, length)) >= meta.k ==> ok
      ensures Enough(sch, obj, disk) ==> ok
      ensures !ok ==> torn && stripeOff == old(stripeOff) && Present(readers) < meta.k
      ensures Present(old(readers)) < meta.k ==> !ok
      ensures !ok ==> AllRelaid(old(Mem()), Mem(), off, length)
    {
      hide Aligned, PerShard, ShardsOf, Describes, Trust, Could, Sure, Present, IsTrue, Reconstruct, Sharing;
      hide Enough, ReadersValid, Formed, Exposed, Relaid, Lawful;
      Basics(sch, meta, obj);
      if Enough(sch, obj, disk) { EnoughIsSure(Mem(), off, length); }
      CouldAtMost(readers, off, length);
      var blocks := Gather(off, length);
      ghost var read := Mem();
      Sizes(read);
      torn := true;
      ok := |blocks| == |bufs|;
      if ok {
        Recovery(bufs, blocks, off, length);
        RebuiltShape(readers, bufs, blocks, length);
        stripe, stripeOff, stripeLen, torn := Rebuilt(sch.c, bufs, blocks, length).value, off, length, false;
        SameReaders(read, Mem());
      }
    }

    lemma SameReaders(m: Memory, r: Memory)
      requires ReadersValid(m) && r.readers == m.readers && r.bufs == m.bufs
      ensures ReadersValid(r)
    {
    }

    // The rebuilt stripe is well formed, and what was read still shares its buffer.
    lemma RebuiltShape(rs: seq<Option<File>>, bs: seq<seq<byte>>, blocks: seq<Block>, length: nat)
      requires Lawful(sch.c) && |rs| == |bs| == |blocks| == sch.c.k + sch.c.m
      requires UniformWherePresent(Gotten(bs, blocks, length), length)
      requires Rebuilt(sch.c, bs, blocks, length).Ok? && |Rebuilt(sch.c, bs, blocks, length).value| == |blocks|
      requires var full := Rebuilt(sch.c, bs, blocks, length).value;
        forall i :: 0 <= i < |full| ==> |Bytes(bs, full[i], length)| == length
      requires forall i :: 0 <= i < |blocks| ==> blocks[i] == Missing || (blocks[i] == Shared(i) && rs[i].Some?)
      requires Present(Mask(blocks)) >= meta.k
      ensures var m := Memory(rs, bs, Rebuilt(sch.c, bs, blocks, length).value, length); Formed(m) && Sharing(m)
    {
      var full := Rebuilt(sch.c, bs, blocks, length).value;
      PresentMonotone(Mask(blocks), SharedOnes(full));
    }

    lemma CouldAtMost(rs: seq<Option<File>>, off: nat, length: nat)
      ensures Present(Could(rs, off, length)) <= Present(rs)
    {
      PresentMonotone(Could(rs, off, length), rs);
    }

    // k good shards are sure to deliver any stripe.
    lemma EnoughIsSure(m: Memory, off: nat, length: nat)
      requires Context() && ReadersValid(m) && StripeAt(off, length) && Enough(sch, obj, disk)
      ensures Present(Sure(m.readers, off, length)) >= meta.k
    {
      forall i | 0 <= i < |m.readers| && Good(sch, obj, disk, i) ensures Passes(i, m.readers[i].value, off, length) {
        BlockTrust(i, off, length);
      }
      PresentMonotone(GoodOnly(sch, obj, disk), Sure(m.readers, off, length));
    }

    // k blocks of the stripe share the buffers of open readers.
    ghost predicate Sharing(m: Memory) {
      && Present(SharedOnes(m.stripe)) >= meta.k
      && forall i :: 0 <= i < |m.stripe| && m.stripe[i] == Shared(i) ==> i < |m.readers| && m.readers[i].Some?
    }

    // The reading loop: shard by shard, data shards first, until k blocks are in. The result
    // lists one block per shard, or nothing when there were not enough.
    method Gather(off: nat, length: nat) returns (blocks: seq<Block>)
      requires Context() && Sane(Mem()) && StripeAt(off, length)
      modifies this`readers, this`bufs, this`stripe
      ensures Sane(Mem())
      ensures blocks == [] ||
        (|blocks| == |bufs| && Present(Mask(blocks)) >= meta.k && Blocks(bufs, blocks, off, length))
      ensures forall i :: 0 <= i < |blocks| && blocks[i] != Missing ==> readers[i].Some?
      ensures blocks != [] ==> Present(Could(old(readers), off, length)) >= meta.k
      ensures Present(Sure(old(readers), off, length)) >= meta.k ==> blocks != []
      ensures blocks == [] ==> Present(readers) < meta.k
      ensures blocks == [] ==> AllRelaid(old(Mem()), Mem(), off, length)
    {
      hide Aligned, PerShard, ShardsOf, Describes, Trust, StripeAt, IsTrue, Lawful, Present, Mask, Could, Sure;
      hide Passes, Relaid, View, Turned, Collected, Formed, Sane, AllRelaid;
      Basics(sch, meta, obj);
      MaskNone();
      Sizes(Mem());
      var total := |readers|;
      var present, x := 0, 0;
      blocks := [];
      ghost var was := Mem();
      NoneCollected(was, off, length);
      while x < total && present < meta.k
        invariant 0 <= x == |blocks| <= total == |readers| == |bufs| && Sane(Mem())
        invariant present == Present(Mask(blocks)) && Collected(blocks, was, Mem(), off, length)
      {
        ghost var now := Mem();
        var b := ReadBlock(x, off, length);
        CollectStep(blocks, was, now, Mem(), off, length, b);
        Sizes(Mem());
        MaskAppend(blocks, b);
        blocks := blocks + [b];
        present := if b == Missing then present else present + 1;
        x := x + 1;
      }
      if present < meta.k {
        TooFew(blocks, was, Mem(), off, length);
        blocks := [];
      } else {
        EnoughCould(blocks, was, Mem(), off, length);
        MaskPad(blocks, total - x);
        Padded(blocks, total - x, was, Mem(), off, length);
        blocks := blocks + seq(total - x, _ => Missing);
      }
    }

    lemma Sizes(m: Memory)
      requires Sane(m)
      ensures |m.readers| == |m.bufs| == meta.k + meta.m
    {
    }

    lemma NoneCollected(m: Memory, off: nat, length: nat)
      requires Sane(m)
      ensures Collected([], m, m, off, length)
    {
    }

    // Every shard was read and too few blocks came: fewer than k were sure, and fewer are left.
    lemma TooFew(blocks: seq<Block>, was: Memory, now: Memory, off: nat, length: nat)
      requires |blocks| == |was.bufs| && Collected(blocks, was, now, off, length) && Present(Mask(blocks)) < meta.k
      ensures Present(Sure(was.readers, off, length)) < meta.k && Present(now.readers) < meta.k
      ensures AllRelaid(was, now, off, length)
    {
      hide Passes, IsTrue, Relaid, Present;
      PresentMonotone(Sure(was.readers, off, length), Mask(blocks));
      PresentMonotone(now.readers, Mask(blocks));
      forall i | 0 <= i < |was.stripe|
        ensures Relaid(Exposed(was, i, length), View(was, i), View(now, i), was.readers[i], off, length)
      {
        assert CollectedAt(i, blocks[i], was, now, off, length);
      }
    }

    lemma EnoughCould(blocks: seq<Block>, was: Memory, now: Memory, off: nat, length: nat)
      requires Collected(blocks, was, now, off, length) && Present(Mask(blocks)) >= meta.k
      ensures Present(Could(was.readers, off, length)) >= meta.k
    {
      hide Passes, IsTrue, Relaid, Present;
      var gaps: seq<Option<nat>> := seq(|was.readers| - |blocks|, _ => None);
      PresentPad(Mask(blocks), gaps);
      PresentMonotone(Mask(blocks) + gaps, Could(was.readers, off, length));
    }

    lemma Padded(blocks: seq<Block>, n: nat, was: Memory, now: Memory, off: nat, length: nat)
      requires Collected(blocks, was, now, off, length) && |blocks| + n == |was.bufs|
      ensures var all := blocks + seq(n, _ => Missing);
        Blocks(now.bufs, all, off, length) && forall i :: 0 <= i < |all| && all[i] != Missing ==> now.readers[i].Some?
    {
      hide Passes, IsTrue, Relaid;
      var all := blocks + seq(n, _ => Missing);
      forall i | 0 <= i < |blocks| ensures all[i] == blocks[i] && CollectedAt(i, blocks[i], was, now, off, length) {}
    }

    ghost predicate Blocks(bs: seq<seq<byte>>, blocks: seq<Block>, off: nat, length: nat) {
      |blocks| == |bs| && forall i :: 0 <= i < |blocks| ==>
        blocks[i] == Missing || (blocks[i] == Shared(i) && length <= |bs[i]| && IsTrue(i, off, bs[i][..length]))
    }

    // k true blocks of a stripe determine the whole stripe.
    lemma Recovery(bs: seq<seq<byte>>, blocks: seq<Block>, off: nat, length: nat)
      requires Context() && StripeAt(off, length) && |bs| == meta.k + meta.m && Blocks(bs, blocks, off, length)
      requires Present(Mask(blocks)) >= meta.k
      ensures UniformWherePresent(Gotten(bs, blocks, length), length)
      ensures Rebuilt(sch.c, bs, blocks, length).Ok?
      ensures var full := Rebuilt(sch.c, bs, blocks, length).value;
        && |full| == |blocks|
        && forall i :: 0 <= i < |full| ==>
             |Bytes(bs, full[i], length)| == length && IsTrue(i, off, Bytes(bs, full[i], length))
    {
      hide PerShard, Aligned, Trust, Lawful, Describes, Mask, Present;
      Basics(sch, meta, obj);
      var part := Slices(Split(obj, meta.k, perShard), perShard, off, length);
      TrueStripe(off, length);
      var w := Gotten(bs, blocks, length);
      Whichever(bs, blocks, length);
      ReconstructExact(sch.c, part, length, w);
    }

    // The true stripe is the encoding of the data shards' parts.
    lemma TrueStripe(off: nat, length: nat)
      requires Context() && StripeAt(off, length)
      ensures var want := Encoded(sch.c, Slices(Split(obj, meta.k, perShard), perShard, off, length), length);
        && |want| == meta.k + meta.m && |truth| == meta.k + meta.m
        && forall i :: 0 <= i < |want| ==> off + length <= |truth[i]| && want[i] == truth[i][off..off + length]
    {
      var data := Split(obj, meta.k, perShard);
      var want := Encoded(sch.c, Slices(data, perShard, off, length), length);
      forall i | 0 <= i < |want| ensures off + length <= |truth[i]| && want[i] == truth[i][off..off + length] {
        EncodedSlice(sch.c, data, perShard, off, length, i);
      }
    }

    lemma Whichever(bs: seq<seq<byte>>, blocks: seq<Block>, length: nat)
      ensures Present(Gotten(bs, blocks, length)) >= Present(Mask(blocks))
    {
      PresentMonotone(Mask(blocks), Gotten(bs, blocks, length));
    }


    // The stripe in memory covers in-shard offset inShard.
    predicate InStripe(inShard: nat)
      reads this
    {
      stripeOff >= 0 && stripeOff <= inShard < stripeOff + stripeLen
    }

    // Bytes copied out of block idx of the stripe in memory, whatever it holds.
    function FromStripe(idx: nat, at: int, n: nat): (r: seq<byte>)
      reads this`bufs, this`stripe, this`stripeLen
    {
      var b := if idx < |stripe| then Bytes(bufs, stripe[idx], stripeLen) else [];
      if 0 <= at && at + n <= |b| then b[at..at + n] else []
    }

    // The shard and the offset in it of the read position.
    function Shard(): nat
      reads this
    {
      if perShard == 0 then 0 else pos / perShard
    }

    function InShard(): nat
      reads this
    {
      InShardOf(pos)
    }

    function InShardOf(p: nat): nat { if perShard == 0 then 0 else p % perShard }

    // What a read of want bytes serves from the stripe in memory.
    function Served(want: nat): seq<byte>
      reads this
    {
      FromStripe(Shard(), InShard() - stripeOff, Available(InShard(), want))
    }

    // Inside the stripe in memory a read succeeds and serves what the block holds by now.
    // Outside it succeeds when k readers are sure to deliver the stripe, and only when k may.
    method Read(want: nat) returns (st: Status, out: seq<byte>)
      requires Valid()
      modifies this
      ensures Valid()
      ensures st != Crashed && (st == EOF <==> old(pos) >= |obj|)
      ensures st == Failed ==> torn && !Enough(sch, obj, disk)
      ensures st == EOF ==> torn == old(torn)
      ensures st != Done ==> out == [] && pos == old(pos)
      ensures st == Done ==> |out| <= want && (want > 0 ==> out != []) && pos == old(pos) + |out| <= |obj|
      ensures st == Done && !old(torn) ==> !torn && out == obj[old(pos)..pos]
      ensures old(pos) < |obj| && old(InStripe(InShard())) ==>
        st == Done && out == old(Served(want)) &&
          unchanged(this`readers, this`bufs, this`stripe, this`stripeOff, this`stripeLen)
      ensures old(pos) < |obj| && !old(InStripe(InShard())) ==>
        var off, n := old(OffOf(InShard())), old(LenOf(InShard()));
        && (st == Done ==>
              Present(Could(old(readers), off, n)) >= meta.k && stripeOff == off && stripeLen == n && Sharing(Mem()))
        && (Present(Sure(old(readers), off, n)) >= meta.k ==> st == Done)
        && (Present(old(readers)) < meta.k ==> st == Failed)
      ensures st == Failed ==> stripeOff == old(stripeOff) && Present(readers) < meta.k
      ensures st == Failed ==> AllRelaid(old(Mem()), Mem(), old(OffOf(InShard())), old(LenOf(InShard())))
    {
      hide Aligned, PerShard, Placed, ShardsOf, Could, Sure, Present, AllRelaid, Sharing, Enough, Sane;
      if pos >= meta.size {
        return EOF, [];
      }
      Position();
      st, out := ReadAt(pos / perShard, pos % perShard, want);
    }

    // The offset arithmetic of a read.
    lemma Position()
      requires Context() && pos < |obj|
      ensures perShard > 0 && Placed(pos, meta.k, perShard, pos / perShard, pos % perShard) && pos % perShard < perShard
    {
      PerShardBounds(meta.size, meta.k);
      Locate(meta.size, meta.k, perShard, pos);
    }

    method ReadAt(idx: nat, inShard: nat, want: nat) returns (st: Status, out: seq<byte>)
      requires Valid() && pos < |obj| && Placed(pos, meta.k, perShard, idx, inShard) && inShard < perShard
      modifies this
      ensures Valid() && st != EOF && st != Crashed
      ensures st == Failed ==> torn && !Enough(sch, obj, disk) && out == [] && pos == old(pos)
      ensures st == Done ==> |out| <= want && (want > 0 ==> out != []) && pos == old(pos) + |out| <= |obj|
      ensures st == Done && !old(torn) ==> !torn && out == obj[old(pos)..pos]
      ensures old(InStripe(inShard)) ==>
        st == Done && out == old(FromStripe(idx, inShard - stripeOff, Available(inShard, want))) &&
          unchanged(this`readers, this`bufs, this`stripe, this`stripeOff, this`stripeLen)
      ensures !old(InStripe(inShard)) && st == Done ==>
        Present(Could(old(readers), OffOf(inShard), LenOf(inShard))) >= meta.k && stripeOff == OffOf(inShard) &&
          stripeLen == LenOf(inShard) && Sharing(Mem())
      ensures !old(InStripe(inShard)) && Present(Sure(old(readers), OffOf(inShard), LenOf(inShard))) >= meta.k ==>
        st == Done
      ensures !old(InStripe(inShard)) && Present(old(readers)) < meta.k ==> st == Failed
      ensures st == Failed ==> stripeOff == old(stripeOff) && Present(readers) < meta.k
      ensures st == Failed ==> AllRelaid(old(Mem()), Mem(), OffOf(inShard), LenOf(inShard))
    {
      hide Aligned, PerShard, ShardsOf, Describes, Trust, Sure, Could, Present, AllRelaid, IsTrue, Enough, Sharing;
      hide ReadersValid;
      Basics(sch, meta, obj);
      if !InStripe(inShard) {
        var ok := Fill(inShard);
        if !ok {
          return Failed, [];
        }
      }
      StripeIsObject(idx, inShard, Available(inShard, want));
      out := FromStripe(idx, inShard - stripeOff, Available(inShard, want));
      pos := pos + |out|;
      st := Done;
    }

    // How much a read of want bytes at pos gets from the stripe in memory.
    function Available(inShard: nat, want: nat): (n: nat)
      reads this
      ensures InStripe(inShard) && inShard < perShard && pos < meta.size ==>
        n <= want && pos + n <= meta.size && inShard - stripeOff + n <= stripeLen && (want > 0 ==> n > 0) &&
          inShard + n <= perShard
    {
      if InStripe(inShard) && inShard < perShard && pos < meta.size then
        Min(want, Min(Min(stripeLen - (inShard - stripeOff), perShard - inShard), meta.size - pos))
      else 0
    }

    method Seek(offset: int, whence: Whence) returns (r: Option<nat>)
      requires Valid()
      modifies this`pos
      ensures Valid() && Lands(old(pos), |obj|, offset, whence, r) && pos == r.GetOr(old(pos))
    {
      r := SeekTarget(pos, meta.size, offset, whence);
      pos := r.GetOr(pos);
    }

    // What a read inside the stripe in memory serves, and that it is right before any failure.
    lemma ServedIs(want: nat)
      requires Valid() && pos < |obj| && InStripe(InShard())
      ensures var idx, at, n := Shard(), InShard() - stripeOff, Available(InShard(), want);
        && idx < |stripe| && idx < |readers| && 0 <= at && at + n <= |View(Mem(), idx)| && pos + n <= |obj| &&
          (want > 0 ==> n > 0)
        && Served(want) == View(Mem(), idx)[at..at + n]
        && (!torn ==> Served(want) == obj[pos..pos + n])
    {
      hide Aligned, PerShard, ShardsOf, Lawful, Describes, Trust, IsTrue;
      Basics(sch, meta, obj);
      Position();
      StripeIsObject(Shard(), InShard(), Available(InShard(), want));
    }

    lemma StripeIsObject(idx: nat, inShard: nat, n: nat)
      requires Valid() && Placed(pos, meta.k, perShard, idx, inShard) && pos + n <= |obj|
      requires 0 <= stripeOff <= inShard && inShard - stripeOff + n <= stripeLen
      ensures |FromStripe(idx, inShard - stripeOff, n)| == n
      ensures !torn ==> FromStripe(idx, inShard - stripeOff, n) == obj[pos..pos + n]
    {
      hide Aligned, PerShard, ShardsOf, Lawful, Describes, Trust;
      Basics(sch, meta, obj);
      if !torn {
        var b := View(Mem(), idx);
        assert IsTrue(idx, stripeOff, b);
        BlockRun(sch.c, obj, b, stripeOff, pos, idx, inShard, n);
      }
    }
  }

  lemma {:induction false} PresentPad<T>(w: seq<Option<T>>, gaps: seq<Option<T>>)
    requires forall i :: 0 <= i < |gaps| ==> gaps[i].None?
    ensures Present(w + gaps) == Present(w)
  {
    if gaps == [] {
      assert w + gaps == w;
    } else {
      var front := gaps[..|gaps| - 1];
      PresentPad(w, front);
      PresentAppend(w + front, gaps[|gaps| - 1]);
      assert w + gaps == (w + front) + [gaps[|gaps| - 1]];
    }
  }
}

module ObjectReads {
  import opened Wrappers
  import opened ColumnCode
  import opened Layout
  import opened Checksums
  import opened ShardFiles
  import opened DegradedReads

  function Without(disk: seq<Option<File>>, exclude: int): seq<Option<File>> {
    seq(|disk|, i requires 0 <= i < |disk| => if i == exclude then None else disk[i])
  }

  // newDegradedStreamExcluding: open what can be opened, the excluded shard aside.
  method OpenDegraded(sch: Scheme, meta: ShardMeta, disk: seq<Option<File>>, exclude: int, ghost obj: seq<byte>)
    returns (ds: DegradedStream?)
    requires Describes(sch, meta, obj) && Trust(sch, meta, obj, disk)
    requires exclude >= 0 ==> !Good(sch, obj, disk, exclude)
    ensures ds != null ==>
      fresh(ds) && ds.Valid() && !ds.torn && ds.pos == 0 && ds.obj == obj && ds.disk == disk && ds.sch == sch
    ensures Enough(sch, obj, disk) ==> ds != null
    ensures ds != null <==> Present(Without(disk, exclude)) >= meta.k
    ensures ds != null ==>
      ds.readers == Without(disk, exclude) && ds.stripe == [] && ds.stripeOff < 0 && ds.meta == meta
  {
    var readers: seq<Option<File>>, present := [], 0;
    for i := 0 to meta.k + meta.m
      invariant |readers| == i && present == Present(readers)
      invariant forall j :: 0 <= j < i ==> readers[j] == if j == exclude then None else disk[j]
    {
      var r: Option<File> := if i == exclude then None else disk[i];
      PresentAppend(readers, r);
      readers := readers + [r];
      present := if r.Some? then present + 1 else present;
    }
    if Enough(sch, obj, disk) {
      PresentMonotone(GoodOnly(sch, obj, disk), readers);
    }
    assert readers == Without(disk, exclude);
    ds := null;
    if present >= meta.k {
      ds := new DegradedStream(sch, meta, readers, obj, disk);
    }
  }

  // A shard accepted as a whole is accepted stripe by stripe, so it is the one written.
  lemma WholeTrust(sch: Scheme, meta: ShardMeta, obj: seq<byte>, disk: seq<Option<File>>, i: nat)
    requires Describes(sch, meta, obj) && Trust(sch, meta, obj, disk) && i < |disk| && disk[i].Some?
    requires |disk[i].value.data| == PerShard(|obj|, meta.k) && StripeOK(sch.h, meta, i, 0, disk[i].value.data)
    ensures disk[i].value.data == ShardsOf(sch.c, obj)[i]
  {
    hide Lawful, ShardsOf, StripeOK, StripeTrust, StripeStart;
    Basics(sch, meta, obj);
    var data, truth := disk[i].value.data, ShardsOf(sch.c, obj)[i];
    forall x: nat | x < |data| ensures data[x] == truth[x] { WholeTrustAt(sch, meta, obj, disk, i, x); }
  }

  lemma WholeTrustAt(sch: Scheme, meta: ShardMeta, obj: seq<byte>, disk: seq<Option<File>>, i: nat, x: nat)
    requires Describes(sch, meta, obj) && Trust(sch, meta, obj, disk) && i < |disk| && disk[i].Some?
    requires |disk[i].value.data| == PerShard(|obj|, meta.k) && StripeOK(sch.h, meta, i, 0, disk[i].value.data)
    requires x < |disk[i].value.data| == |ShardsOf(sch.c, obj)[i]|
    ensures disk[i].value.data[x] == ShardsOf(sch.c, obj)[i][x]
  {
    hide Lawful, ShardsOf, StripeOK, PerShard;
    Basics(sch, meta, obj);
    var data, truth, s := disk[i].value.data, ShardsOf(sch.c, obj)[i], sch.stripe;
    var off := StripeStart(x, s);
    var n := Min(s, |data| - off);
    WholeToStripe(sch.h, meta, i, truth, data, off, n, s);
    assert StripeTrust(sch, meta, obj, disk, i, off);
    assert data[x] == data[off..off + n][x - off];
    assert truth[x] == truth[off..off + n][x - off];
  }

  lemma WholeToStripe(h: Hash, meta: ShardMeta, i: nat, shard: seq<byte>, data: seq<byte>, off: nat, n: nat, s: nat)
    requires i < meta.k + meta.m && SumsRecord(h, meta, i, shard) && |shard| == |data|
    requires StripeOK(h, meta, i, 0, data) && s > 0 && (meta.HasChecksums() ==> meta.crcStripe == s)
    requires Aligned(off, s) && off < |data| && n == Min(s, |data| - off)
    ensures StripeOK(h, meta, i, off, data[off..off + n])
  {
    if meta.HasChecksums() {
      AcceptanceIsPrefix(h, meta, i, shard, off, data[off..off + n]);
      assert StripeSums(h, data, s) <= StripeSums(h, shard, s) by {
        assert shard[0..] == shard;
        AcceptanceIsPrefix(h, meta, i, shard, 0, data);
      }
      TailPrefix(h, shard, data, off, s);
      assert StripeSums(h, data[off..off + n], s) <= StripeSums(h, data[off..], s) by {
        MultipleIsAligned(1, s);
        SumsPrefix(h, data[off..], s, n);
        assert data[off..][..n] == data[off..off + n];
      }
    }
  }

  lemma TailPrefix(h: Hash, shard: seq<byte>, data: seq<byte>, off: nat, s: nat)
    requires s > 0 && |shard| == |data| && off % s == 0 && off <= |data|
    requires StripeSums(h, data, s) <= StripeSums(h, shard, s)
    ensures StripeSums(h, data[off..], s) <= StripeSums(h, shard[off..], s)
  {
    DivMod(off, s);
    SumsDrop(h, data, s, off / s, off);
    SumsDrop(h, shard, s, off / s, off);
  }

  // readWholeShard: present, of the recorded length, and matching its checksums.
  method ReadWholeShard(sch: Scheme, meta: ShardMeta, disk: seq<Option<File>>, i: nat, ghost obj: seq<byte>)
    returns (r: Option<seq<byte>>)
    requires Describes(sch, meta, obj) && Trust(sch, meta, obj, disk) && i < |disk|
    ensures r.Some? ==> r.value == ShardsOf(sch.c, obj)[i] && disk[i].Some? && disk[i].value.data == r.value
    ensures Good(sch, obj, disk, i) ==> r.Some?
  {
    if disk[i].None? {
      return None;
    }
    var f := disk[i].value;
    var data, all := ReadFull(f, 0, |f.data|);
    if !all || |data| != meta.sizes[i] {
      return None;
    }
    assert data == f.data;
    var ok := CheckStripes(sch.h, meta, i, 0, data);
    if Good(sch, obj, disk, i) {
      assert data[0..0 + |data|] == data;
      AcceptsTrueStripes(sch.h, meta, i, data, 0, |data|);
    }
    if !ok {
      return None;
    }
    WholeTrust(sch, meta, obj, disk, i);
    return Some(data);
  }

  // The shards that hold their original bytes.
  ghost function TrueOnly(sch: Scheme, obj: seq<byte>, disk: seq<Option<File>>): (w: seq<Option<nat>>)
    requires Lawful(sch.c) && |disk| == sch.c.k + sch.c.m
    ensures |w| == |disk|
  {
    seq(|disk|, i requires 0 <= i < |disk| =>
      if disk[i].Some? && disk[i].value.data == ShardsOf(sch.c, obj)[i] then Some(i) else None)
  }

  // reconstruct: read every shard in full, decode, join.
  method ReconstructWhole(sch: Scheme, meta: ShardMeta, disk: seq<Option<File>>, ghost obj: seq<byte>)
    returns (r: Option<seq<byte>>)
    requires Describes(sch, meta, obj) && Trust(sch, meta, obj, disk)
    ensures r.Some? ==> r.value == obj && Present(TrueOnly(sch, obj, disk)) >= meta.k
    ensures Enough(sch, obj, disk) ==> r.Some?
  {
    var shards: seq<Option<seq<byte>>>, missing: nat := [], 0;
    for i := 0 to meta.k + meta.m
      invariant |shards| == i && missing + Present(shards) == i
      invariant forall j :: 0 <= j < i && shards[j].Some? ==> shards[j].value == ShardsOf(sch.c, obj)[j]
      invariant forall j :: 0 <= j < i && Good(sch, obj, disk, j) ==> shards[j].Some?
      invariant forall j :: 0 <= j < i && shards[j].Some? ==> TrueOnly(sch, obj, disk)[j].Some?
    {
      var d := ReadWholeShard(sch, meta, disk, i, obj);
      PresentAppend(shards, d);
      shards := shards + [d];
      missing := if d.Some? then missing else missing + 1;
    }
    if Enough(sch, obj, disk) {
      PresentMonotone(GoodOnly(sch, obj, disk), shards);
    }
    if missing > meta.m {
      return None;
    }
    PresentMonotone(shards, TrueOnly(sch, obj, disk));
    DecodeEncode(sch.c, obj, shards);
    var full := Reconstruct(sch.c, shards, meta.sizes[0]);
    return Some(Join(full.value, meta.k, meta.size));
  }

  // What a read of want bytes at position at must deliver: bytes of the object from there
  // on, at least one unless none was asked for, or the end exactly when at is past it.
  ghost predicate ReadCorrect(obj: seq<byte>, at: nat, want: nat, st: Status, out: seq<byte>, next: nat) {
    && st != Crashed && (st == EOF <==> at >= |obj|)
    && (st == Done ==> |out| <= want && (want > 0 ==> out != []) && next == at + |out| <= |obj| && out == obj[at..next])
    && (st != Done ==> out == [] && next == at)
  }

  // The reconstructed object in memory (bytes.Reader).
  class MemReader {
    const data: seq<byte>
    var pos: nat

    constructor (data: seq<byte>)
      ensures this.data == data && pos == 0
    {
      this.data, pos := data, 0;
    }

    method Read(want: nat) returns (st: Status, out: seq<byte>)
      modifies this
      ensures st != Failed && ReadCorrect(data, old(pos), want, st, out, pos)
    {
      if pos >= |data| {
        return EOF, [];
      }
      var n := Min(want, |data| - pos);
      st, out := Done, data[pos..pos + n];
      pos := pos + n;
    }

    method Seek(offset: int, whence: Whence) returns (r: Option<nat>)
      modifies this
      ensures Lands(old(pos), |data|, offset, whence, r) && pos == r.GetOr(old(pos))
    {
      r := SeekTarget(pos, |data|, offset, whence);
      pos := r.GetOr(pos);
    }
  }

  // What took over after a data shard failed.
  datatype Alt = NoAlt | Degraded(ds: DegradedStream) | Whole(mem: MemReader)

  class ShardStream {
    const sch: Scheme
    const meta: ShardMeta
    const perShard: nat
    const disk: seq<Option<File>>
    ghost const obj: seq<byte>

    var pos: nat
    var readers: seq<Option<File>>
    var buf: seq<byte>
    var bufShard: int
    var bufOff: nat
    var alt: Alt
    // Set when no takeover was possible. The readers are closed by then.
    ghost var dead: bool

    ghost predicate Context() {
      Describes(sch, meta, obj) && Trust(sch, meta, obj, disk) && perShard == PerShard(|obj|, meta.k)
    }

    ghost function AltObjects(): set<object>
      reads this
    {
      match alt
      case NoAlt => {}
      case Degraded(ds) => {ds}
      case Whole(mem) => {mem}
    }

    ghost predicate BufHolds()
      reads this
    {
      && Context() && 0 <= bufShard < meta.k && Aligned(bufOff, sch.stripe) && bufOff < perShard
      && |buf| == Min(sch.stripe, perShard - bufOff)
      && buf == ShardsOf(sch.c, obj)[bufShard][bufOff..bufOff + |buf|]
    }

    ghost predicate AllOpen()
      reads this
    {
      |readers| == meta.k <= |disk| && forall i :: 0 <= i < meta.k ==> readers[i].Some? && readers[i] == disk[i]
    }

    ghost predicate Closed()
      reads this
    {
      |readers| == meta.k && forall i :: 0 <= i < meta.k ==> readers[i].None?
    }

    ghost predicate Valid()
      reads this, AltObjects()
    {
      && Context()
      && match alt
         case NoAlt => (bufShard >= 0 ==> !dead && BufHolds()) && (if dead then Closed() else AllOpen())
         case Degraded(ds) => !dead && ds.Valid() && ds.obj == obj && ds.disk == disk && ds.sch == sch
         case Whole(mem) => !dead && mem.data == obj
    }

    ghost function Pos(): nat
      reads this, AltObjects()
    {
      match alt
      case NoAlt => pos
      case Degraded(ds) => ds.pos
      case Whole(mem) => mem.pos
    }

    // No error so far.
    ghost predicate Alive()
      reads this, AltObjects()
    {
      !dead && (alt.Degraded? ==> !alt.ds.torn)
    }

    constructor (sch: Scheme, meta: ShardMeta, disk: seq<Option<File>>, ghost obj: seq<byte>)
      requires Describes(sch, meta, obj) && Trust(sch, meta, obj, disk)
      requires forall i :: 0 <= i < meta.k ==> disk[i].Some?
      ensures Valid() && Alive() && Pos() == 0 && alt == NoAlt && this.obj == obj && this.disk == disk
      ensures this.sch == sch
    {
      this.sch, this.meta, this.disk, this.obj := sch, meta, disk, obj;
      perShard := meta.sizes[0];
      pos, readers, buf, bufShard, bufOff, alt, dead := 0, disk[..meta.k], [], -1, 0, NoAlt, false;
    }

    // Read and verify the stripe of data shard idx that starts at off.
    method Load(idx: nat, off: nat) returns (ok: bool)
      requires Valid() && alt == NoAlt && !dead && idx < meta.k && Aligned(off, sch.stripe) && off < perShard
      modifies this`buf, this`bufShard, this`bufOff
      ensures Valid()
      ensures ok ==> bufShard == idx && bufOff == off && BufHolds()
      ensures !ok ==> !Good(sch, obj, disk, idx)
    {
      hide Aligned, PerShard, ShardsOf, StripeOK;
      var n := Min(sch.stripe, perShard - off);
      LoadTrust(idx, off, n);
      var got, full := ReadFull(readers[idx].value, off, n);
      bufShard := -1;
      buf, ok := got, false;
      if full {
        ok := CheckStripes(sch.h, meta, idx, off, got);
        if ok {
          bufShard, bufOff := idx, off;
        }
      }
    }

    lemma LoadTrust(idx: nat, off: nat, n: nat)
      requires Context() && idx < meta.k && disk[idx].Some? && Aligned(off, sch.stripe) && off < perShard
      requires n == Min(sch.stripe, perShard - off)
      ensures var data := disk[idx].value.data;
        && (Good(sch, obj, disk, idx) ==> off + n <= |data| && StripeOK(sch.h, meta, idx, off, data[off..off + n]))
        && (off + n <= |data| && StripeOK(sch.h, meta, idx, off, data[off..off + n]) ==>
              data[off..off + n] == ShardsOf(sch.c, obj)[idx][off..off + n])
    {
      if Good(sch, obj, disk, idx) {
        GoodStripe(sch, meta, obj, disk, idx, off, n);
      }
      assert StripeTrust(sch, meta, obj, disk, idx, off);
    }

    // Up to the first failure a read is right. After a takeover that failed the readers are
    // closed and nothing stands in for them: a read crashes, unless it is past the end.
    method Read(want: nat) returns (st: Status, out: seq<byte>)
      requires Valid()
      modifies this, AltObjects()
      ensures Valid() && fresh(AltObjects() - old(AltObjects()))
      ensures old(Alive()) ==> ReadCorrect(obj, old(Pos()), want, st, out, Pos()) && (Alive() <==> st != Failed)
      ensures Enough(sch, obj, disk) && old(Alive()) ==> st != Failed
      ensures st == Crashed <==> old(dead) && old(pos) < |obj|
      ensures old(dead) ==> dead && st != Failed && st != Done
    {
      match alt
      case Degraded(ds) => st, out := ds.Read(want);
      case Whole(mem) => st, out := mem.Read(want);
      case NoAlt =>
        if pos >= meta.size {
          return EOF, [];
        }
        st, out := ReadShards(want);
    }

    // The healthy path: one stripe of one data shard. `load` on a closed reader crashes.
    method ReadShards(want: nat) returns (st: Status, out: seq<byte>)
      requires Valid() && alt == NoAlt && pos < |obj|
      modifies this
      ensures Valid() && fresh(AltObjects())
      ensures !old(dead) ==> ReadCorrect(obj, old(pos), want, st, out, Pos()) && (Alive() <==> st != Failed)
      ensures Enough(sch, obj, disk) && !old(dead) ==> st != Failed
      ensures st == Crashed <==> old(dead)
      ensures old(dead) ==> dead
    {
      hide Aligned, PerShard, Placed, ShardsOf;
      Position();
      var idx, inShard := pos / perShard, pos % perShard;
      hide Describes, Trust;
      Basics(sch, meta, obj);
      assert idx < meta.k by { PlacedIn(idx, inShard); }
      if readers[idx].None? {
        return Crashed, [];
      }
      st, out := ReadAt(idx, inShard, StripeStart(inShard, sch.stripe), want);
    }

    lemma PlacedIn(idx: nat, inShard: nat)
      requires Placed(pos, meta.k, perShard, idx, inShard)
      ensures idx < meta.k
    {
    }

    // The offset arithmetic of a read.
    lemma Position()
      requires Context() && pos < |obj|
      ensures perShard > 0 && Placed(pos, meta.k, perShard, pos / perShard, pos % perShard)
    {
      PerShardBounds(meta.size, meta.k);
      Locate(meta.size, meta.k, perShard, pos);
    }

    method ReadAt(idx: nat, inShard: nat, start: nat, want: nat) returns (st: Status, out: seq<byte>)
      requires Valid() && Alive() && alt == NoAlt && pos < |obj| && Placed(pos, meta.k, perShard, idx, inShard)
      requires start <= inShard < start + sch.stripe && Aligned(start, sch.stripe)
      modifies this
      ensures Valid() && fresh(AltObjects())
      ensures ReadCorrect(obj, old(pos), want, st, out, Pos())
      ensures Alive() <==> st != Failed
      ensures Enough(sch, obj, disk) ==> st != Failed
    {
      hide Aligned, PerShard, ShardsOf;
      if bufShard != idx || bufOff != start {
        var ok := Load(idx, start);
        if !ok {
          st, out := RecoverAndRead(want, idx);
          return;
        }
      }
      out := CopyOut(inShard, want);
      st := Done;
    }

    method CopyOut(inShard: nat, want: nat) returns (out: seq<byte>)
      requires BufHolds() && pos < |obj| && Placed(pos, meta.k, perShard, bufShard, inShard)
      requires bufOff <= inShard < bufOff + |buf|
      modifies this`pos
      ensures |out| <= want && (want > 0 ==> out != []) && pos == old(pos) + |out| <= |obj| && out == obj[old(pos)..pos]
    {
      hide Aligned, PerShard, ShardsOf, Placed, Lawful, Describes, Trust;
      Basics(sch, meta, obj);
      var within := inShard - bufOff;
      var n := Min(want, Min(|buf| - within, meta.size - pos));
      out := buf[within..within + n];
      BlockRun(sch.c, obj, buf, bufOff, pos, bufShard, inShard, n);
      pos := pos + n;
    }

    // A steady shard that is not good does not hold its bytes, so k others do.
    lemma OthersHold(bad: nat)
      requires Context() && Present(TrueOnly(sch, obj, disk)) >= meta.k && !Good(sch, obj, disk, bad)
      ensures bad < |disk| && disk[bad].Some? && !disk[bad].value.flaky ==> Present(Without(disk, bad)) >= meta.k
    {
      if bad < |disk| && disk[bad].Some? && !disk[bad].value.flaky {
        PresentMonotone(TrueOnly(sch, obj, disk), Without(disk, bad));
      }
    }

    // Take over from the same logical offset once data shard bad has failed.
    method RecoverAndRead(want: nat, bad: nat) returns (st: Status, out: seq<byte>)
      requires Valid() && Alive() && alt == NoAlt && pos < |obj| && !Good(sch, obj, disk, bad)
      modifies this
      ensures Valid() && fresh(AltObjects())
      ensures ReadCorrect(obj, old(pos), want, st, out, Pos())
      ensures Alive() <==> st != Failed
      ensures Enough(sch, obj, disk) ==> st != Failed
      // The takeover fails only when fewer than k of the other shards open, and exactly then
      // unless the bad shard is one that fails now and then.
      ensures dead ==> Present(Without(disk, bad)) < meta.k
      ensures bad < |disk| && disk[bad].Some? && !disk[bad].value.flaky && Present(Without(disk, bad)) < meta.k ==> dead
    {
      hide Aligned, PerShard, ShardsOf, Describes, Trust, AllRelaid, Present, Enough, Without;
      hide DegradedStream.Could, DegradedStream.Sure, DegradedStream.Sharing, DegradedStream.Served;
      hide DegradedStream.Sane, DegradedStream.Loaded;
      Basics(sch, meta, obj);
      readers, bufShard, dead := seq(meta.k, _ => None), -1, true;
      var ds := OpenDegraded(sch, meta, disk, bad, obj);
      if ds != null {
        var _ := ds.Seek(pos, FromStart);
        alt, dead := Degraded(ds), false;
        st, out := ds.Read(want);
      } else {
        var data := ReconstructWhole(sch, meta, disk, obj);
        if data.None? {
          return Failed, [];
        }
        OthersHold(bad);
        var mem := new MemReader(data.value);
        var _ := mem.Seek(pos, FromStart);
        alt, dead := Whole(mem), false;
        st, out := mem.Read(want);
      }
    }

    method Seek(offset: int, whence: Whence) returns (r: Option<nat>)
      requires Valid()
      modifies this, AltObjects()
      ensures Valid() && AltObjects() == old(AltObjects()) && (Alive() <==> old(Alive()))
      ensures Lands(old(Pos()), |obj|, offset, whence, r) && Pos() == r.GetOr(old(Pos()))
    {
      match alt
      case Degraded(ds) => r := ds.Seek(offset, whence);
      case Whole(mem) => r := mem.Seek(offset, whence);
      case NoAlt =>
        r := SeekTarget(pos, meta.size, offset, whence);
        pos := r.GetOr(pos);
    }
  }
}

/** Reading on after a failed read. The stripe that was in memory stays marked as loaded, while
    its blocks share buffers that the failed fill has read into. */
module StaleReads {
  import opened Wrappers
  import opened ColumnCode
  import opened Layout
  import opened Checksums
  import opened CodeInstances
  import opened ShardFiles
  import opened DegradedReads
  import opened ObjectReads

  // Bytes of the object, of which the first d of the block, seen from at on, are replaced by
  // what the file holds at off.
  ghost predicate Patched(out: seq<byte>, right: seq<byte>, data: seq<byte>, off: nat, at: nat, d: nat) {
    && |out| == |right|
    && forall j :: 0 <= j < |out| ==>
      if at + j < d then off + at + j < |data| && out[j] == data[off + at + j] else out[j] == right[j]
  }

  // What the failed fill read happens to be what was there.
  ghost predicate Coincides(right: seq<byte>, data: seq<byte>, off: nat, at: nat, d: nat) {
    forall j :: 0 <= j < |right| && at + j < d ==> off + at + j < |data| && data[off + at + j] == right[j]
  }

  lemma LayIsPatched(was: seq<byte>, f: File, off: nat, length: nat, d: nat, at: nat, n: nat)
    requires at + n <= |was| && Delivers(f, off, length, d)
    ensures Patched(Lay(was, Part(f.data, off, d))[at..at + n], was[at..at + n], f.data, off, at, d)
  {
    var got := Part(f.data, off, d);
    assert d > 0 ==> got == f.data[off..off + d];
  }

  lemma PatchedIsRight(out: seq<byte>, right: seq<byte>, data: seq<byte>, off: nat, at: nat, d: nat)
    requires Patched(out, right, data, off, at, d)
    ensures out == right <==> Coincides(right, data, off, at, d)
  {
    if Coincides(right, data, off, at, d) {
      forall j | 0 <= j < |out| ensures out[j] == right[j] {}
    } else {
      var j :| 0 <= j < |right| && at + j < d && !(off + at + j < |data| && data[off + at + j] == right[j]);
      assert out[j] != right[j];
    }
  }

  // Nothing has been read into the buffer of the block at the position.
  ghost predicate Spared(m: Memory, idx: nat, length: nat) {
    idx < |m.readers| && (!Exposed(m, idx, length) || m.readers[idx].None?)
  }

  // How the bytes served afterwards relate to the right ones.
  ghost predicate ReadOn(m: Memory, idx: nat, off: nat, length: nat, at: nat, out: seq<byte>, right: seq<byte>) {
    if Spared(m, idx, length) then out == right
    else idx < |m.readers| && m.readers[idx].Some? && exists d: nat ::
      && Delivers(m.readers[idx].value, off, length, d)
      && Patched(out, right, m.readers[idx].value.data, off, at, d)
      && (out == right <==> Coincides(right, m.readers[idx].value.data, off, at, d))
  }

  lemma RelaidServes(m: Memory, now: Memory, idx: nat, off: nat, length: nat, at: nat, n: nat)
    requires AllRelaid(m, now, off, length) && idx < |m.stripe| && at + n <= |View(m, idx)|
    ensures now.n == m.n && idx < |now.stripe| && |View(now, idx)| == |View(m, idx)|
    ensures ReadOn(m, idx, off, length, at, View(now, idx)[at..at + n], View(m, idx)[at..at + n])
  {
    hide Lay, Part, Delivers, View, Patched, Coincides;
    if !Spared(m, idx, length) {
      var f := m.readers[idx].value;
      var d: nat :| Delivers(f, off, length, d) && View(now, idx) == Lay(View(m, idx), Part(f.data, off, d));
      LayIsPatched(View(m, idx), f, off, length, d, at, n);
      PatchedIsRight(View(now, idx)[at..at + n], View(m, idx)[at..at + n], f.data, off, at, d);
    }
  }

  /** A read at `elsewhere` fails, and the caller seeks back into the stripe in memory. For every
      object, code, disk and pair of positions: the read there succeeds, and what it returns is
      right if and only if the block was rebuilt or its buffer was not read into (it has no
      reader, or the buffer was too small and replaced), or what the failed fill delivered, good
      or not, equals what was there. Every read outside that stripe fails from then on. */
  method ReadBack(ds: DegradedStream, elsewhere: nat, want: nat) returns (failed: bool, out: seq<byte>)
    requires ds.Valid() && !ds.torn && ds.pos < |ds.obj| && elsewhere < |ds.obj| && ds.InStripe(ds.InShard())
    modifies ds
    ensures ds.Valid()
    ensures failed ==>
      (want > 0 ==> out != []) && old(ds.pos) + |out| == ds.pos <= |ds.obj| && Present(ds.readers) < ds.meta.k
    ensures failed ==>
      var bad := ds.InShardOf(elsewhere);
      ReadOn(old(ds.Mem()), old(ds.Shard()), ds.OffOf(bad), ds.LenOf(bad), old(ds.InShard() - ds.stripeOff), out,
             ds.obj[old(ds.pos)..ds.pos])
  {
    hide ReadOn, AllRelaid, Present, View;
    hide DegradedStream.Could, DegradedStream.Sure, DegradedStream.Sharing, DegradedStream.Valid;
    hide DegradedStream.Served, DegradedStream.LenOf, DegradedStream.OffOf;
    ghost var m, idx, at, n := ds.Mem(), ds.Shard(), ds.InShard() - ds.stripeOff, ds.Available(ds.InShard(), want);
    ds.ServedIs(want);
    var back := ds.pos;
    var _ := ds.Seek(elsewhere, FromStart);
    var st, _ := ds.Read(1);
    failed, out := st == Failed, [];
    if failed {
      ghost var now, bad := ds.Mem(), ds.InShardOf(elsewhere);
      RelaidServes(m, now, idx, ds.OffOf(bad), ds.LenOf(bad), at, n);
      var _ := ds.Seek(back, FromStart);
      ds.ServedIs(want);
      st, out := ds.Read(want);
    }
  }

  // --- it does happen ---

  // Four bytes over two data shards and one parity shard, stripes of one byte, and a checksum
  // that tells 9 from every byte that was written. Shard 1 is lost and the second byte of
  // shard 0 has become a 9.
  function Sum9(): Hash { Hash(0, (c, b) => if b == 9 then 1 else 0) }

  function Coding(): Scheme { Scheme(XorCode(2), Sum9(), 1) }

  function Object(): seq<byte> { [1, 2, 3, 4] }

  function Meta(): ShardMeta { ShardMeta(4, 2, 1, [2, 2, 2], [[0, 0], [0, 0], [0, 0]], 1) }

  function Disk(): seq<Option<File>> { [Some(File([1, 9], false)), None, Some(File([2, 6], false))] }

  lemma Layout4()
    ensures Lawful(XorCode(2)) && PerShard(4, 2) == 2
    ensures ShardsOf(XorCode(2), Object()) == [[1, 2], [3, 4], [2, 6]]
  {
    XorLawful(2);
    var c, d := XorCode(2), Split(Object(), 2, 2);
    assert DataShard(Object(), 2, 0) == [1, 2];
    assert DataShard(Object(), 2, 1) == [3, 4];
    assert d == [[1, 2], [3, 4]];
    assert Column(d, 2, 0) == [1, 3] && Column(d, 2, 1) == [2, 4];
    Xor2(1, 3);
    Xor2(2, 4);
    assert ParityBlock(c, d, 2, 0) == [2, 6];
    assert Encoded(c, d, 2)[2 + 0] == [2, 6];
  }

  lemma Xor2(a: byte, b: byte)
    ensures Xor([a, b]) == a ^ b
  {
    assert [a, b][1..] == [b] && [b][1..] == [];
    assert Xor([b]) == b ^ 0;
  }

  lemma Sums(a: byte, b: byte)
    ensures StripeSums(Sum9(), [a], 1) == [if a == 9 then 1 else 0]
    ensures StripeSums(Sum9(), [a, b], 1) == [if a == 9 then 1 else 0, if b == 9 then 1 else 0]
  {
    assert [a][..0] == [] && [b][..0] == [] && [a, b][..1] == [a] && [a, b][1..] == [b];
  }

  lemma Described()
    ensures Describes(Coding(), Meta(), Object())
  {
    Layout4();
    Sums(1, 2);
    Sums(3, 4);
    Sums(2, 6);
    assert Meta().sizes == seq(3, _ => 2);
    forall i | 0 <= i < 3 ensures SumsRecord(Sum9(), Meta(), i, ShardsOf(XorCode(2), Object())[i]) {
      assert i == 0 || i == 1 || i == 2;
    }
  }

  // Which single bytes pass: those that are not 9.
  lemma Checks(i: nat, off: nat, b: byte)
    requires i < 3 && off < 2
    ensures StripeOK(Sum9(), Meta(), i, off, [b]) <==> b != 9
  {
    Sums(b, b);
    assert off / 1 == off && off % 1 == 0 && Meta().HasChecksums();
    assert i == 0 || i == 1 || i == 2;
    var list: seq<Sum> := [if b == 9 then 1 else 0];
    assert Meta().crcs[i] == [0, 0] && [0, 0][off] == 0 as Sum by { assert off == 0 || off == 1; }
    assert Recorded([0, 0], off, list) <==> list[0] == 0;
  }

  lemma Trusted()
    requires Describes(Coding(), Meta(), Object())
    ensures Trust(Coding(), Meta(), Object(), Disk())
  {
    Layout4();
    forall i: nat, off: nat | i < 3 && off < 2 ensures StripeTrust(Coding(), Meta(), Object(), Disk(), i, off) {
      if Disk()[i].Some? {
        var data := Disk()[i].value.data;
        assert data[off..off + 1] == [data[off]];
        Checks(i, off, data[off]);
      }
    }
  }

  // At the first stripe shards 0 and 2 are sure to deliver, at the second shard 2 alone may.
  lemma WhoDelivers(ds: DegradedStream, rs: seq<Option<File>>)
    requires ds.sch == Coding() && ds.meta == Meta() && |rs| == 3 && rs[1].None?
    ensures rs == Disk() ==> Present(ds.Sure(rs, 0, 1)) == 2
    ensures (rs[0].Some? ==> rs[0] == Disk()[0]) ==> Present(ds.Could(rs, 1, 1)) < 2
  {
    Checks(0, 0, 1);
    Checks(2, 0, 2);
    Checks(0, 1, 9);
    assert [1, 9][0..0 + 1] == [1 as byte] && [2, 6][0..0 + 1] == [2 as byte] && [1, 9][1..1 + 1] == [9 as byte];
    Count3(ds.Sure(rs, 0, 1));
    Count3(ds.Could(rs, 1, 1));
  }

  lemma Count3<T>(w: seq<Option<T>>)
    requires |w| == 3
    ensures Present(w) == (if w[0].Some? then 1 else 0) + (if w[1].Some? then 1 else 0) + (if w[2].Some? then 1 else 0)
  {
    assert w[1..][1..] == w[2..] && w[2..][1..] == [];
    assert w[1..][0] == w[1] && w[2..][0] == w[2];
    assert Present(w[2..]) == if w[2].Some? then 1 else 0;
    assert Present(w[1..]) == Present(w[2..]) + if w[1].Some? then 1 else 0;
  }

  ghost predicate Ours(ds: DegradedStream)
    reads ds
  {
    ds.Valid() && ds.sch == Coding() && ds.meta == Meta() && ds.obj == Object() && ds.disk == Disk() && ds.perShard == 2
  }

  // The first read is right, and its block shares the buffer of shard 0.
  method First(ds: DegradedStream) returns (out: seq<byte>)
    requires Ours(ds) && ds.readers == Disk() && ds.stripeOff < 0 && !ds.torn && ds.pos == 0
    modifies ds
    ensures Ours(ds) && out == Object()[..1] && ds.pos == 1 && !ds.torn
    ensures ds.stripeOff == 0 && ds.stripeLen == 1 && |ds.readers| == 3 && ds.readers[0] == Disk()[0]
    ensures ds.readers[1] == None
    ensures |ds.stripe| == 3 && ds.stripe[0] == Shared(0) && Exposed(ds.Mem(), 0, 1)
  {
    hide Describes, Trust, Enough, ShardsOf, Lawful, Present, SharedOnes, Aligned;
    hide DegradedStream.Could, DegradedStream.Sure, DegradedStream.IsTrue;
    WhoDelivers(ds, ds.readers);
    assert ds.OffOf(0) == 0 && ds.LenOf(0) == 1;
    var st;
    st, out := ds.Read(1);
    Two(ds.stripe);
  }

  // Two of three blocks are shared and the second is not: the first is.
  lemma Two(stripe: seq<Block>)
    requires |stripe| == 3 && Present(SharedOnes(stripe)) >= 2 && stripe[1] != Shared(1)
    ensures stripe[0] == Shared(0)
  {
    Count3(SharedOnes(stripe));
  }

  // The second needs a stripe that cannot be had, and reads a 9 over the first byte.
  method Second(ds: DegradedStream) returns (st: Status)
    requires Ours(ds) && ds.pos == 1 && ds.stripeOff == 0 && ds.stripeLen == 1
    requires |ds.readers| == 3 && ds.readers[0] == Disk()[0] && ds.readers[1] == None
    requires |ds.stripe| == 3 && Exposed(ds.Mem(), 0, 1)
    modifies ds
    ensures Ours(ds) && st == Failed && ds.stripeOff == 0 && ds.stripeLen == 1
    ensures |ds.stripe| == 3 && View(ds.Mem(), 0) == [9]
  {
    hide Describes, Trust, Enough, ShardsOf, Lawful, Present, Aligned;
    hide DegradedStream.Could, DegradedStream.Sure, DegradedStream.IsTrue, DegradedStream.Sharing;
    WhoDelivers(ds, ds.readers);
    assert ds.OffOf(1) == 1 && ds.LenOf(1) == 1;
    ghost var m := ds.Mem();
    var nothing;
    st, nothing := ds.Read(1);
    NineLaid(m, ds.Mem());
  }

  lemma NineLaid(m: Memory, now: Memory)
    requires AllRelaid(m, now, 1, 1) && |m.stripe| == 3 && Exposed(m, 0, 1) && m.n == 1 && |m.readers| == 3
    requires m.readers[0] == Disk()[0]
    ensures View(now, 0) == [9]
  {
    assert Part([1, 9], 1, 1) == [9];
  }

  method Open() returns (ds: DegradedStream)
    ensures fresh(ds) && Ours(ds) && ds.readers == Disk() && ds.stripeOff < 0 && !ds.torn && ds.pos == 0
  {
    Described();
    Trusted();
    hide Describes, Trust, Enough, ShardsOf, Lawful, Formed;
    Layout4();
    Count3(Disk());
    assert Without(Disk(), -1) == Disk();
    ds := OpenDegraded(Coding(), Meta(), Disk(), -1, Object());
  }

  // Back at the start the third read is served from the stripe in memory.
  method Third(ds: DegradedStream) returns (out: seq<byte>)
    requires Ours(ds) && ds.stripeOff == 0 && ds.stripeLen == 1 && |ds.stripe| == 3 && View(ds.Mem(), 0) == [9]
    modifies ds
    ensures out == [9]
  {
    hide Describes, Trust, Enough, ShardsOf, Lawful, View, Formed, Present, Aligned, AllRelaid;
    hide DegradedStream.Could, DegradedStream.Sure, DegradedStream.IsTrue, DegradedStream.Sharing;
    hide DegradedStream.ReadersValid, DegradedStream.Served;
    var _ := ds.Seek(0, FromStart);
    ds.ServedIs(1);
    var st;
    st, out := ds.Read(1);
  }

  /** The first read is right. The second needs a stripe that cannot be had. Back at the start
      the third returns the byte that has just failed its check. */
  method StaleRun() returns (first: seq<byte>, second: Status, third: seq<byte>)
    ensures first == Object()[..1] && second == Failed && third == [9] && third != Object()[..1]
  {
    hide Ours, View, Exposed;
    var ds := Open();
    first := First(ds);
    second := Second(ds);
    third := Third(ds);
    assert Object()[..1][0] == 1;
  }
}

// Opening an object and any run of calls on what was opened.
module GetObject {
  import opened Wrappers
  import opened ColumnCode
  import opened Layout
  import opened Checksums
  import opened ShardFiles
  import opened DegradedReads
  import opened ObjectReads

  datatype Reader = Streaming(s: ShardStream) | Recovering(ds: DegradedStream) | InMemory(mem: MemReader) | Unreadable {
    ghost function Objects(): set<object>
      reads if Streaming? then {s} else {}
    {
      match this
      case Streaming(s) => {s} + s.AltObjects()
      case Recovering(ds) => {ds}
      case InMemory(mem) => {mem}
      case Unreadable => {}
    }

    ghost predicate Serves(sch: Scheme, obj: seq<byte>, disk: seq<Option<File>>)
      reads Objects(), if Streaming? then {s} else {}
    {
      match this
      case Streaming(s) => s.Valid() && s.Alive() && s.obj == obj && s.disk == disk && s.sch == sch
      case Recovering(ds) => ds.Valid() && !ds.torn && ds.obj == obj && ds.disk == disk && ds.sch == sch
      case InMemory(mem) => mem.data == obj
      case Unreadable => false
    }

    ghost function Pos(): nat
      reads Objects(), if Streaming? then {s} else {}
    {
      match this
      case Streaming(s) => s.Pos()
      case Recovering(ds) => ds.pos
      case InMemory(mem) => mem.pos
      case Unreadable => 0
    }
  }

  // openCoded, on one version: stream while every data shard opens, else recover stripe by
  // stripe, else decode the whole object.
  method OpenCoded(sch: Scheme, meta: ShardMeta, disk: seq<Option<File>>, ghost obj: seq<byte>) returns (rd: Reader)
    requires Describes(sch, meta, obj) && Trust(sch, meta, obj, disk)
    ensures fresh(rd.Objects())
    ensures rd.Unreadable? || (rd.Serves(sch, obj, disk) && rd.Pos() == 0)
    ensures Enough(sch, obj, disk) ==> !rd.Unreadable?
  {
    var healthy := true;
    for i := 0 to meta.k
      invariant healthy ==> forall j :: 0 <= j < i ==> disk[j].Some?
    {
      healthy := healthy && disk[i].Some?;
    }
    if healthy {
      var s := new ShardStream(sch, meta, disk, obj);
      return Streaming(s);
    }
    var ds := OpenDegraded(sch, meta, disk, -1, obj);
    if ds != null {
      return Recovering(ds);
    }
    var data := ReconstructWhole(sch, meta, disk, obj);
    if data.None? {
      return Unreadable;
    }
    var mem := new MemReader(data.value);
    return InMemory(mem);
  }

  datatype Call = Read(want: nat) | Seek(offset: int, whence: Whence)

  datatype Reply = Got(st: Status, out: seq<byte>) | Sought(r: Option<nat>)

  // The replies are what the plain object, read from position at, would give, up to the
  // first failed read.
  ghost predicate Conforms(obj: seq<byte>, at: nat, calls: seq<Call>, replies: seq<Reply>)
    decreases |replies|
  {
    if replies == [] || calls == [] then
      replies == [] && calls == []
    else
      match (calls[0], replies[0])
      case (Read(want), Got(st, out)) =>
        && ReadCorrect(obj, at, want, st, out, at + |out|)
        && (if st == Failed then |replies| == 1 else Conforms(obj, at + |out|, calls[1..], replies[1..]))
      case (Seek(offset, whence), Sought(r)) =>
        Lands(at, |obj|, offset, whence, r) && Conforms(obj, r.GetOr(at), calls[1..], replies[1..])
      case _ => false
  }

  // The last n bytes: a seek from the end and a read give a non-empty front of them, wherever
  // the reader was before.
  lemma TailRead(obj: seq<byte>, at: nat, n: int, want: nat, replies: seq<Reply>)
    requires 0 < n <= |obj| && want > 0 && Conforms(obj, at, [Seek(-n, FromEnd), Read(want)], replies)
    ensures |replies| == 2 && replies[0] == Sought(Some(|obj| - n)) && replies[1].Got?
    ensures replies[1].st == Failed ||
      (replies[1].st == Done && replies[1].out != [] && replies[1].out <= obj[|obj| - n..])
  {
    var rest := [Seek(-n, FromEnd), Read(want)][1..];
    assert rest == [Read(want)] && Conforms(obj, |obj| - n, rest, replies[1..]);
    LastRead(obj, |obj| - n, want, replies[1..]);
  }

  lemma LastRead(obj: seq<byte>, at: nat, want: nat, replies: seq<Reply>)
    requires Conforms(obj, at, [Read(want)], replies)
    ensures |replies| == 1 && replies[0].Got?
    ensures ReadCorrect(obj, at, want, replies[0].st, replies[0].out, at + |replies[0].out|)
  {
    assert [Read(want)][1..] == [];
    var r := replies[0];
    if r.Got? && r.st != Failed { assert Conforms(obj, at + |r.out|, [], replies[1..]); }
  }

  // A read, a step of d from where it ended, and another read: the second starts d further on.
  lemma SkipRead(obj: seq<byte>, at: nat, a: nat, d: int, b: nat, replies: seq<Reply>)
    requires Conforms(obj, at, [Read(a), Seek(d, FromCurrent), Read(b)], replies) && NoFailure(replies)
    requires at < |obj| && 0 <= at + |replies[0].out| + d < |obj| && a > 0 && b > 0
    ensures |replies| == 3 && replies[0].Got? && replies[0].out == obj[at..at + |replies[0].out|]
    ensures var from := at + |replies[0].out| + d;
      replies[2].Got? && replies[2].out != [] && replies[2].out <= obj[from..]
  {
    var calls := [Read(a), Seek(d, FromCurrent), Read(b)];
    var c1, r1 := calls[1..], replies[1..];
    var c2, r2 := c1[1..], r1[1..];
    assert c1 == [Seek(d, FromCurrent), Read(b)] && c2 == [Read(b)] && c2[1..] == [];
    assert replies[0].st == Done;
    var next := at + |replies[0].out|;
    assert Conforms(obj, next, c1, r1);
    assert Conforms(obj, next + d, c2, r2);
    LastRead(obj, next + d, b, r2);
    assert r2[0] == replies[2] && replies[2].st != Failed;
  }

  ghost predicate NoFailure(replies: seq<Reply>) {
    forall i :: 0 <= i < |replies| && replies[i].Got? ==> replies[i].st != Failed
  }

  method ReadOnce(rd: Reader, want: nat, ghost sch: Scheme, ghost obj: seq<byte>, ghost disk: seq<Option<File>>)
    returns (st: Status, out: seq<byte>)
    requires Lawful(sch.c) && rd.Serves(sch, obj, disk)
    modifies rd.Objects()
    ensures fresh(rd.Objects() - old(rd.Objects()))
    ensures ReadCorrect(obj, old(rd.Pos()), want, st, out, rd.Pos())
    ensures st != Failed ==> rd.Serves(sch, obj, disk)
    ensures Enough(sch, obj, disk) ==> st != Failed
  {
    match rd
    case Streaming(s) => st, out := s.Read(want);
    case Recovering(ds) => st, out := ds.Read(want);
    case InMemory(mem) => st, out := mem.Read(want);
  }

  method SeekOnce(rd: Reader, offset: int, whence: Whence, ghost sch: Scheme, ghost obj: seq<byte>,
                  ghost disk: seq<Option<File>>)
    returns (r: Option<nat>)
    requires rd.Serves(sch, obj, disk)
    modifies rd.Objects()
    ensures rd.Objects() == old(rd.Objects()) && rd.Serves(sch, obj, disk)
    ensures Lands(old(rd.Pos()), |obj|, offset, whence, r) && rd.Pos() == r.GetOr(old(rd.Pos()))
  {
    match rd
    case Streaming(s) => r := s.Seek(offset, whence);
    case Recovering(ds) => r := ds.Seek(offset, whence);
    case InMemory(mem) => r := mem.Seek(offset, whence);
  }

  method Drive(rd: Reader, calls: seq<Call>, ghost sch: Scheme, ghost obj: seq<byte>, ghost disk: seq<Option<File>>)
    returns (replies: seq<Reply>)
    requires Lawful(sch.c) && rd.Serves(sch, obj, disk)
    modifies rd.Objects()
    ensures Conforms(obj, old(rd.Pos()), calls, replies)
    ensures Enough(sch, obj, disk) ==> NoFailure(replies)
    decreases |calls|
  {
    if calls == [] {
      return [];
    }
    var first: Reply;
    match calls[0] {
      case Read(want) =>
        var st, out := ReadOnce(rd, want, sch, obj, disk);
        first := Got(st, out);
        if st == Failed {
          return [first];
        }
      case Seek(offset, whence) =>
        var r := SeekOnce(rd, offset, whence, sch, obj, disk);
        first := Sought(r);
    }
    var rest := Drive(rd, calls[1..], sch, obj, disk);
    replies := [first] + rest;
    assert replies[1..] == rest;
  }

  // A whole GET. Whatever shards are missing, short, corrupt or flaky, every byte returned
  // is the object's at the requested position; with at most m bad shards nothing fails.
  method GetCoded(sch: Scheme, meta: ShardMeta, disk: seq<Option<File>>, calls: seq<Call>, ghost obj: seq<byte>)
    returns (found: bool, replies: seq<Reply>)
    requires Describes(sch, meta, obj) && Trust(sch, meta, obj, disk)
    ensures found ==> Conforms(obj, 0, calls, replies)
    ensures Enough(sch, obj, disk) ==> found && NoFailure(replies)
  {
    var rd := OpenCoded(sch, meta, disk, obj);
    found, replies := !rd.Unreadable?, [];
    if found {
      replies := Drive(rd, calls, sch, obj, disk);
    }
  }
}
