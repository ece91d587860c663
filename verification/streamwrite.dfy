// The two-pass streaming write of internal/erasure/streamwrite.go and the buffering write of
// internal/erasure/engine.go, proved to produce the same shards and checksums.

module StreamWrite {
  import opened Wrappers
  import opened ColumnCode
  import opened Layout
  import opened Checksums

  function Zeros(n: nat): (z: seq<byte>)
    ensures |z| == n && forall j :: 0 <= j < n ==> z[j] == 0
  {
    seq(n, _ => 0)
  }

  // The request body: delivers its bytes in pieces of any size.
  class Source {
    const data: seq<byte>
    var pos: nat

    ghost predicate Valid()
      reads this
    {
      pos <= |data|
    }

    constructor (data: seq<byte>)
      ensures Valid() && pos == 0 && this.data == data
    {
      this.data, pos := data, 0;
    }

    method Read(max: nat) returns (chunk: seq<byte>)
      requires Valid()
      modifies this
      ensures Valid() && |chunk| <= max && pos == old(pos) + |chunk| && chunk == data[old(pos)..pos]
      ensures chunk == [] <==> max == 0 || old(pos) == |data|
    {
      var limit := Min(max, |data| - pos);
      var n: nat := *;
      n := if limit == 0 then 0 else if 1 <= n <= limit then n else limit;
      chunk := data[pos..pos + n];
      pos := pos + n;
    }
  }

  // One stored shard and the checksums recorded for it.
  datatype Stored = Stored(file: seq<byte>, sums: seq<Sum>)

  ghost predicate Summed(s: Stored, h: Hash, stripe: nat)
    requires stripe > 0
  {
    s.sums == StripeSums(h, s.file, stripe)
  }

  // Pass one, one shard: up to n bytes of the body, then pad zeros, through the summer.
  method StoreData(src: Source, n: nat, pad: nat, h: Hash, stripe: nat) returns (r: Stored)
    requires src.Valid() && stripe > 0
    modifies src
    ensures src.Valid() && src.pos == Min(old(src.pos) + n, |src.data|)
    ensures r.file == src.data[old(src.pos)..src.pos] + Zeros(pad) && Summed(r, h, stripe)
  {
    hide StripeSums, CrcUpdate, StripeSummer.Valid;
    var sum := new StripeSummer(h, stripe);
    var file: seq<byte>, left, eof := [], n, false;
    while left > 0 && !eof
      invariant src.Valid() && sum.Valid() && sum.h == h && sum.stripe == stripe && fresh(sum)
      invariant sum.Fed() == file && old(src.pos) <= src.pos && file == src.data[old(src.pos)..src.pos]
      invariant 0 <= left <= n && src.pos + left == old(src.pos) + n && (eof ==> src.pos == |src.data|)
      decreases left, !eof
    {
      var chunk := src.Read(left);
      eof := chunk == [];
      sum.Write(chunk);
      file := file + chunk;
      left := left - |chunk|;
    }
    ghost var body := file;
    var z := pad;
    while z > 0
      invariant sum.Valid() && sum.h == h && sum.stripe == stripe && fresh(sum)
      invariant 0 <= z <= pad && sum.Fed() == file && file == body + Zeros(pad - z)
      modifies sum
    {
      var piece: nat := *;
      piece := if 1 <= piece <= z then piece else z;
      sum.Write(Zeros(piece));
      file := file + Zeros(piece);
      assert Zeros(pad - z) + Zeros(piece) == Zeros(pad - (z - piece));
      z := z - piece;
    }
    var sums := sum.Encoded();
    r := Stored(file, sums);
  }

  // Data shard i of an object, as the piece of it that the writer cuts plus padding.
  lemma ShardAsSlice(obj: seq<byte>, per: nat, i: nat, lo: nat, n: nat)
    requires lo == Min(i * per, |obj|) && n == Min(per, |obj| - lo)
    ensures DataShard(obj, per, i) == obj[lo..lo + n] + Zeros(per - n)
  {
    var a, b := DataShard(obj, per, i), obj[lo..lo + n] + Zeros(per - n);
    assert forall j :: 0 <= j < per ==> a[j] == b[j];
    assert a == b;
  }

  // What pass one has written: the exact shards, unless the body ended early, and then at
  // least one file is short.
  ghost predicate DataWritten(files: seq<Stored>, obj: seq<byte>, per: nat, short: bool, h: Hash, stripe: nat)
    requires stripe > 0
  {
    && (forall j :: 0 <= j < |files| ==> |files[j].file| <= per && Summed(files[j], h, stripe))
    && (if short then exists j :: 0 <= j < |files| && |files[j].file| < per
        else forall j :: 0 <= j < |files| ==> files[j].file == DataShard(obj, per, j))
  }

  // The object the client declared: the first size bytes of the body.
  ghost function Declared(data: seq<byte>, size: nat): (obj: seq<byte>)
    ensures |obj| == size && (size <= |data| ==> obj == data[..size])
    ensures forall j :: 0 <= j < size && j < |data| ==> obj[j] == data[j]
  {
    (data + Zeros(size))[..size]
  }

  lemma Piece(data: seq<byte>, size: nat, per: nat, i: nat, lo: nat, n: nat)
    requires lo == Min(i * per, size) && n == Min(per, size - lo) && lo + n <= |data|
    ensures DataShard(Declared(data, size), per, i) == data[lo..lo + n] + Zeros(per - n)
  {
    ShardAsSlice(Declared(data, size), per, i, lo, n);
    assert Declared(data, size)[lo..lo + n] == data[lo..lo + n];
  }

  lemma EmptyWritten(obj: seq<byte>, per: nat, h: Hash, stripe: nat)
    requires stripe > 0
    ensures DataWritten([], obj, per, false, h, stripe)
  {
  }

  // Pass one: the body straight into the data shards.
  method WriteData(src: Source, k: nat, size: nat, per: nat, h: Hash, stripe: nat)
    returns (files: seq<Stored>, remaining: nat)
    requires src.Valid() && src.pos == 0 && stripe > 0 && size <= k * per
    modifies src
    ensures |files| == k && remaining == 0
    ensures DataWritten(files, Declared(src.data, size), per, |src.data| < size, h, stripe)
  {
    hide DataWritten, DataShard, Summed;
    files, remaining := [], size;
    EmptyWritten(Declared(src.data, size), per, h, stripe);
    ghost var obj := Declared(src.data, size);
    ghost var base := 0;
    for i := 0 to k
      invariant src.Valid() && |files| == i && base == i * per
      invariant remaining == size - Min(base, size)
      invariant src.pos == Min(size - remaining, |src.data|)
      invariant DataWritten(files, obj, per, src.pos < size - remaining, h, stripe)
    {
      var n := Min(per, remaining);
      ghost var lo := size - remaining;
      if lo + n <= |src.data| { Piece(src.data, size, per, i, lo, n); }
      var f := StoreData(src, n, per - n, h, stripe);
      assert (i + 1) * per == i * per + per;
      base := base + per;
      Extend(files, f, obj, per, lo, n, src.pos, src.data, h, stripe);
      files := files + [f];
      remaining := remaining - n;
    }
  }

  // One more file keeps pass one's account.
  lemma Extend(files: seq<Stored>, f: Stored, obj: seq<byte>, per: nat, lo: nat, n: nat, at: nat, data: seq<byte>,
               h: Hash, stripe: nat)
    requires stripe > 0 && n <= per && Summed(f, h, stripe)
    requires at == Min(lo + n, |data|) && f.file == data[Min(lo, |data|)..at] + Zeros(per - n)
    requires DataWritten(files, obj, per, |data| < lo, h, stripe)
    requires |data| >= lo + n ==> f.file == DataShard(obj, per, |files|)
    ensures DataWritten(files + [f], obj, per, at < lo + n, h, stripe)
  {
    var more := files + [f];
    if |data| < lo {
      var j :| 0 <= j < |files| && |files[j].file| < per;
      assert more[j] == files[j];
    } else if at < lo + n {
      assert |more[|files|].file| < per;
    }
  }

  // Produces one parity shard on demand from the data files, a stripe at a time.
  class ParityReader {
    const c: Code
    const files: seq<seq<byte>>
    const index: nat
    const total: nat
    const stripe: nat
    var pos: nat
    var buf: seq<byte>
    var bufOff: nat

    // The parity shard, when no data file is too short.
    ghost function Whole(): (b: seq<byte>)
      requires Lawful(c) && |files| == c.k && index < c.m && AllLong(files, total)
      ensures |b| == total
    {
      ParityBlock(c, Cut(files, total), total, index)
    }

    ghost predicate Valid()
      reads this
    {
      && Lawful(c) && |files| == c.k && index < c.m && stripe > 0
      && pos <= total && bufOff <= |buf| <= pos && AllLong(files, pos)
      && (AllLong(files, total) ==> buf == Whole()[pos - |buf|..pos])
    }

    // What has been handed out.
    ghost function Delivered(): nat
      requires Valid()
      reads this
    {
      pos - |buf| + bufOff
    }

    constructor (c: Code, files: seq<seq<byte>>, index: nat, total: nat, stripe: nat)
      requires Lawful(c) && |files| == c.k && index < c.m && stripe > 0
      ensures Valid() && Delivered() == 0
      ensures this.c == c && this.files == files && this.index == index && this.total == total && this.stripe == stripe
    {
      this.c, this.files, this.index, this.total, this.stripe := c, files, index, total, stripe;
      pos, buf, bufOff := 0, [], 0;
    }

    // Read the next stripe of every data file and encode it. A file that is too short stops
    // the write.
    method Fill() returns (ok: bool)
      requires Valid() && pos < total && bufOff == |buf|
      modifies this
      ensures Valid() && Delivered() == old(Delivered())
      ensures ok ==> pos > old(pos) && bufOff == 0 && |buf| > 0
      ensures !ok ==> !AllLong(files, total)
    {
      var length := Min(stripe, total - pos);
      for i := 0 to |files|
        invariant forall j :: 0 <= j < i ==> pos + length <= |files[j]|
      {
        if |files[i]| < pos + length {
          return false;
        }
      }
      buf, bufOff := NextStripe(length), 0;
      pos := pos + length;
      ok := true;
    }

    // The parity of the next length bytes of every file.
    function NextStripe(length: nat): (b: seq<byte>)
      requires Valid() && pos + length <= total && AllLong(files, pos + length)
      reads this
      ensures |b| == length && (AllLong(files, total) ==> b == Whole()[pos..pos + length])
    {
      var blocks := Window(files, pos, length);
      assert AllLong(files, total) ==> ParityBlock(c, blocks, length, index) == Whole()[pos..pos + length] by {
        if AllLong(files, total) {
          ParitySlice(c, Cut(files, total), total, pos, length, index);
          forall i | 0 <= i < |files| ensures files[i][..total][pos..pos + length] == blocks[i] {
            SliceOfSlice(files[i], 0, total, pos, length);
          }
          assert Slices(Cut(files, total), total, pos, length) == blocks;
        }
      }
      ParityBlock(c, blocks, length, index)
    }

    method Read(want: nat) returns (st: Option<seq<byte>>)
      requires Valid() && want > 0
      modifies this
      ensures Valid()
      ensures st.None? ==> !AllLong(files, total)
      ensures st.Some? ==> Delivered() == old(Delivered()) + |st.value| && |st.value| <= want
      ensures st.Some? && AllLong(files, total) ==> st.value == Whole()[old(Delivered())..Delivered()]
      ensures st == Some([]) ==> Delivered() == total
    {
      if bufOff >= |buf| {
        if pos >= total {
          return Some([]);
        }
        var ok := Fill();
        if !ok {
          return None;
        }
      }
      var n := Min(want, |buf| - bufOff);
      st := Some(buf[bufOff..bufOff + n]);
      if AllLong(files, total) { SliceOfSlice(Whole(), pos - |buf|, |buf|, bufOff, n); }
      bufOff := bufOff + n;
    }
  }

  function Window(files: seq<seq<byte>>, off: nat, n: nat): (r: seq<seq<byte>>)
    requires AllLong(files, off + n)
    ensures |r| == |files| && Uniform(r, n) && forall i :: 0 <= i < |files| ==> r[i] == files[i][off..off + n]
  {
    seq(|files|, i requires 0 <= i < |files| => files[i][off..off + n])
  }

  predicate AllLong(files: seq<seq<byte>>, n: nat) {
    forall i :: 0 <= i < |files| ==> n <= |files[i]|
  }

  function Cut(files: seq<seq<byte>>, n: nat): (r: seq<seq<byte>>)
    requires AllLong(files, n)
    ensures |r| == |files| && Uniform(r, n) && forall i :: 0 <= i < |files| ==> r[i] == files[i][..n]
  {
    seq(|files|, i requires 0 <= i < |files| => files[i][..n])
  }

  // Pass two, one shard: drain the parity reader through the summer, in pieces of any size.
  method StoreParity(c: Code, files: seq<seq<byte>>, index: nat, total: nat, h: Hash, stripe: nat)
    returns (r: Option<Stored>)
    requires Lawful(c) && |files| == c.k && index < c.m && stripe > 0
    ensures r.Some? <==> AllLong(files, total)
    ensures r.Some? ==> Summed(r.value, h, stripe) && r.value.file == ParityBlock(c, Cut(files, total), total, index)
  {
    hide ParityBlock, StripeSums, CrcUpdate;
    var pr := new ParityReader(c, files, index, total, stripe);
    var sum := new StripeSummer(h, stripe);
    var file: seq<byte>, eof := [], false;
    while !eof
      invariant pr.Valid() && pr.c == c && pr.files == files && pr.index == index && pr.total == total && fresh(pr)
      invariant sum.Valid() && sum.h == h && sum.stripe == stripe && sum.Fed() == file && fresh(sum)
      invariant |file| == pr.Delivered() && (AllLong(files, total) ==> file == pr.Whole()[..|file|])
      invariant eof ==> |file| == total
      decreases total - |file|, !eof
    {
      var want: nat :| want > 0;
      var piece := pr.Read(want);
      if piece.None? {
        return None;
      }
      eof := piece.value == [];
      sum.Write(piece.value);
      file := file + piece.value;
    }
    assert AllLong(files, total) by { assert AllLong(files, pr.pos); }
    assert pr.Whole()[..total] == pr.Whole();
    var sums := sum.Encoded();
    r := Some(Stored(file, sums));
  }

  function Files(s: seq<Stored>): (r: seq<seq<byte>>)
    ensures |r| == |s| && forall i :: 0 <= i < |s| ==> r[i] == s[i].file
  {
    seq(|s|, i requires 0 <= i < |s| => s[i].file)
  }

  // What a write of obj has to leave behind: its shards, each with its checksums.
  ghost predicate Encodes(out: seq<Stored>, c: Code, obj: seq<byte>, h: Hash, stripe: nat)
    requires Lawful(c) && stripe > 0
  {
    Files(out) == ShardsOf(c, obj) && forall i :: 0 <= i < |out| ==> Summed(out[i], h, stripe)
  }

  // putObjectStreaming, with storage that works. The first size bytes of the body end up
  // encoded. The guard on `remaining` never fires; a body that is too short is caught by the
  // parity pass, when there is one.
  method PutStreaming(src: Source, c: Code, size: nat, h: Hash, stripe: nat) returns (r: Option<seq<Stored>>)
    requires src.Valid() && src.pos == 0 && Lawful(c) && stripe > 0
    modifies src
    ensures r.Some? <==> size <= |src.data| || c.m == 0
    ensures size <= |src.data| ==> Encodes(r.value, c, src.data[..size], h, stripe)
    ensures r.Some? && size > |src.data| ==> exists i :: 0 <= i < |r.value| && |r.value[i].file| < PerShard(size, c.k)
  {
    hide ShardsOf, ParityBlock, PerShard, Encoded;
    PerShardBounds(size, c.k);
    var per := PerShard(size, c.k);
    var files, remaining := WriteData(src, c.k, size, per, h, stripe);
    if remaining > 0 {
      return None;
    }
    var data := Files(files);
    var out := files;
    for j := 0 to c.m
      invariant |out| == c.k + j && out[..c.k] == files
      invariant j > 0 ==> AllLong(data, per)
      invariant forall i :: 0 <= i < |out| ==> Summed(out[i], h, stripe)
      invariant forall i :: c.k <= i < |out| ==>
        AllLong(data, per) && out[i].file == ParityBlock(c, Cut(data, per), per, i - c.k)
    {
      var p := StoreParity(c, data, j, per, h, stripe);
      if p.None? {
        ShortDetected(files, src.data, size, per, h, stripe);
        return None;
      }
      out := out + [p.value];
    }
    r := Some(out);
    if size <= |src.data| {
      Assembled(out, c, src.data[..size], per, h, stripe);
    } else {
      ghost var j :| 0 <= j < |files| && |files[j].file| < per;
      assert out[..c.k][j] == files[j];
      assert !AllLong(data, per);
    }
  }

  lemma ShortDetected(files: seq<Stored>, data: seq<byte>, size: nat, per: nat, h: Hash, stripe: nat)
    requires stripe > 0 && DataWritten(files, Declared(data, size), per, |data| < size, h, stripe)
    requires !AllLong(Files(files), per)
    ensures |data| < size
  {
  }

  lemma Assembled(out: seq<Stored>, c: Code, obj: seq<byte>, per: nat, h: Hash, stripe: nat)
    requires Lawful(c) && stripe > 0 && |out| == c.k + c.m && per == PerShard(|obj|, c.k)
    requires DataWritten(out[..c.k], obj, per, false, h, stripe)
    requires forall i :: 0 <= i < |out| ==> Summed(out[i], h, stripe)
    requires c.m > 0 ==> AllLong(Files(out[..c.k]), per)
    requires forall i :: c.k <= i < |out| ==> out[i].file == ParityBlock(c, Cut(Files(out[..c.k]), per), per, i - c.k)
    ensures Encodes(out, c, obj, h, stripe)
  {
    var data := Split(obj, c.k, per);
    assert Files(out[..c.k]) == data;
    if c.m > 0 {
      forall i | 0 <= i < c.k ensures Cut(data, per)[i] == data[i] { assert data[i][..per] == data[i]; }
      assert Cut(data, per) == data;
    }
    forall i | 0 <= i < |out| ensures Files(out)[i] == ShardsOf(c, obj)[i] {
      if i < c.k {
        assert out[i] == out[..c.k][i];
      } else {
        assert Encoded(c, data, per)[c.k + (i - c.k)] == ParityBlock(c, data, per, i - c.k);
      }
    }
    assert Files(out) == ShardsOf(c, obj);
  }

  // The buffering path: the whole body in memory, split, encoded, each shard summed at once.
  method PutBuffered(data: seq<byte>, c: Code, h: Hash, stripe: nat) returns (out: seq<Stored>)
    requires Lawful(c) && stripe > 0
    ensures Encodes(out, c, data, h, stripe)
  {
    hide Encoded, ShardsOf, StripeSums;
    var shards := ShardsOf(c, data);
    out := [];
    for i := 0 to |shards|
      invariant |out| == i && forall j :: 0 <= j < i ==> out[j].file == shards[j] && Summed(out[j], h, stripe)
    {
      var sum := new StripeSummer(h, stripe);
      sum.Write(shards[i]);
      assert sum.Fed() == shards[i];
      var sums := sum.Encoded();
      out := out + [Stored(shards[i], sums)];
    }
    assert Files(out) == shards;
  }

  // Streaming and buffering agree on every shard and every checksum, for every object, code,
  // stripe length and way the body arrives.
  method BothPaths(data: seq<byte>, c: Code, h: Hash, stripe: nat)
    returns (streamed: Option<seq<Stored>>, buffered: seq<Stored>)
    requires Lawful(c) && stripe > 0
    ensures streamed == Some(buffered)
  {
    var src := new Source(data);
    streamed := PutStreaming(src, c, |data|, h, stripe);
    buffered := PutBuffered(data, c, h, stripe);
    assert data[..|data|] == data;
    assert Files(streamed.value) == Files(buffered);
    forall i | 0 <= i < |buffered| ensures streamed.value[i] == buffered[i] {
      assert Files(streamed.value)[i] == Files(buffered)[i];
    }
    assert streamed.value == buffered;
  }
}
