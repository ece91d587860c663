// The systematic column-wise code behind internal/erasure/encoder.go, the layout of an
// object over its shards, and the laws the rest of the project relies on.

module Wrappers {
  datatype Option<+T> = None | Some(value: T) {
    function GetOr(default: T): T {
      if Some? then value else default
    }
  }

  datatype Result<+T> = Ok(value: T) | Err

  function Min(a: nat, b: nat): nat { if a <= b then a else b }
}

/** A code over single bytes. `parity` extends a column of k data bytes by m parity bytes
    and `recover` fills the gaps of a column. `Lawful` is all that is asked of them; the
    code is applied to every byte offset of the shards separately. */
module ColumnCode {
  import opened Wrappers

  type byte = bv8

  datatype Code = Code(k: nat, m: nat, parity: seq<byte> -> seq<byte>, recover: seq<Option<byte>> -> seq<byte>)

  // How many entries are present.
  function Present<T>(w: seq<Option<T>>): (n: nat)
    ensures n <= |w|
  {
    if w == [] then 0 else Present(w[1..]) + (if w[0].Some? then 1 else 0)
  }

  ghost predicate Agrees<T(!new)>(w: seq<Option<T>>, full: seq<T>) {
    |w| == |full| && forall i :: 0 <= i < |w| && w[i].Some? ==> w[i].value == full[i]
  }

  ghost function Codeword(c: Code, d: seq<byte>): seq<byte> {
    d + c.parity(d)
  }

  ghost predicate Lawful(c: Code) {
    && c.k >= 1
    && (forall d :: |d| == c.k ==> |c.parity(d)| == c.m)
    && (forall d, w {:trigger Agrees(w, Codeword(c, d))} ::
          |d| == c.k && Present(w) >= c.k && Agrees(w, Codeword(c, d)) ==> c.recover(w) == Codeword(c, d))
  }

  // Equal-length blocks, one per shard.
  predicate Uniform(bs: seq<seq<byte>>, len: nat) {
    forall i :: 0 <= i < |bs| ==> |bs[i]| == len
  }

  predicate UniformWherePresent(bs: seq<Option<seq<byte>>>, len: nat) {
    forall i :: 0 <= i < |bs| && bs[i].Some? ==> |bs[i].value| == len
  }

  function Column(bs: seq<seq<byte>>, len: nat, j: nat): (col: seq<byte>)
    requires Uniform(bs, len) && j < len
    ensures |col| == |bs| && forall i :: 0 <= i < |bs| ==> col[i] == bs[i][j]
  {
    seq(|bs|, i requires 0 <= i < |bs| => bs[i][j])
  }

  function OptColumn(bs: seq<Option<seq<byte>>>, len: nat, j: nat): (col: seq<Option<byte>>)
    requires UniformWherePresent(bs, len) && j < len
    ensures |col| == |bs|
    ensures forall i :: 0 <= i < |bs| ==> col[i] == if bs[i].Some? then Some(bs[i].value[j]) else None
  {
    seq(|bs|, i requires 0 <= i < |bs| => if bs[i].Some? then Some(bs[i].value[j]) else None)
  }

  // Parity block p of a set of data blocks (reedsolomon Encode).
  function ParityBlock(c: Code, data: seq<seq<byte>>, len: nat, p: nat): (b: seq<byte>)
    requires Lawful(c) && |data| == c.k && Uniform(data, len) && p < c.m
    ensures |b| == len
    ensures forall j :: 0 <= j < len ==> b[j] == c.parity(Column(data, len, j))[p]
  {
    seq(len, j requires 0 <= j < len => c.parity(Column(data, len, j))[p])
  }

  // All k + m blocks: the data unchanged, then the parity.
  function Encoded(c: Code, data: seq<seq<byte>>, len: nat): (bs: seq<seq<byte>>)
    requires Lawful(c) && |data| == c.k && Uniform(data, len)
    ensures |bs| == c.k + c.m && Uniform(bs, len)
    ensures forall i :: 0 <= i < c.k ==> bs[i] == data[i]
    ensures forall p :: 0 <= p < c.m ==> bs[c.k + p] == ParityBlock(c, data, len, p)
  {
    data + seq(c.m, p requires 0 <= p < c.m => ParityBlock(c, data, len, p))
  }

  lemma EncodedColumn(c: Code, data: seq<seq<byte>>, len: nat, j: nat)
    requires Lawful(c) && |data| == c.k && Uniform(data, len) && j < len
    ensures Column(Encoded(c, data, len), len, j) == Codeword(c, Column(data, len, j))
  {
    var col, cw := Column(Encoded(c, data, len), len, j), Codeword(c, Column(data, len, j));
    forall i | 0 <= i < |col| ensures col[i] == cw[i] {
      if i >= c.k {
        assert Encoded(c, data, len)[c.k + (i - c.k)] == ParityBlock(c, data, len, i - c.k);
      }
    }
  }

  // The code works on each byte offset alone, so it commutes with cutting an aligned slice
  // out of every shard. Streaming in stripes rests on this.
  lemma EncodedSlice(c: Code, data: seq<seq<byte>>, len: nat, off: nat, n: nat, i: nat)
    requires Lawful(c) && |data| == c.k && Uniform(data, len) && off + n <= len && i < c.k + c.m
    ensures Uniform(Slices(data, len, off, n), n)
    ensures Encoded(c, Slices(data, len, off, n), n)[i] == Encoded(c, data, len)[i][off..off + n]
  {
    var part := Slices(data, len, off, n);
    if i >= c.k {
      var p := i - c.k;
      assert Encoded(c, part, n)[c.k + p] == ParityBlock(c, part, n, p);
      assert Encoded(c, data, len)[c.k + p] == ParityBlock(c, data, len, p);
      ParitySlice(c, data, len, off, n, p);
    }
  }

  lemma ParitySlice(c: Code, data: seq<seq<byte>>, len: nat, off: nat, n: nat, p: nat)
    requires Lawful(c) && |data| == c.k && Uniform(data, len) && off + n <= len && p < c.m
    ensures ParityBlock(c, Slices(data, len, off, n), n, p) == ParityBlock(c, data, len, p)[off..off + n]
  {
    var part := Slices(data, len, off, n);
    forall j | 0 <= j < n
      ensures ParityBlock(c, part, n, p)[j] == ParityBlock(c, data, len, p)[off + j]
    {
      assert Column(part, n, j) == Column(data, len, off + j);
    }
  }

  function Slices(bs: seq<seq<byte>>, len: nat, off: nat, n: nat): (r: seq<seq<byte>>)
    requires Uniform(bs, len) && off + n <= len
    ensures |r| == |bs| && Uniform(r, n)
    ensures forall i :: 0 <= i < |bs| ==> r[i] == bs[i][off..off + n]
  {
    seq(|bs|, i requires 0 <= i < |bs| => bs[i][off..off + n])
  }

  // reedsolomon Reconstruct: refuses when fewer than k blocks are present, otherwise keeps
  // the present blocks and fills the others column by column.
  function Reconstruct(c: Code, bs: seq<Option<seq<byte>>>, len: nat): (r: Result<seq<seq<byte>>>)
    requires Lawful(c) && |bs| == c.k + c.m && UniformWherePresent(bs, len)
  {
    if Present(bs) < c.k then Err
    else Ok(seq(|bs|, i requires 0 <= i < |bs| =>
      if bs[i].Some? then bs[i].value
      else seq(len, j requires 0 <= j < len => At(c.recover(OptColumn(bs, len, j)), i))))
  }

  function At(s: seq<byte>, i: nat): byte {
    if i < |s| then s[i] else 0
  }

  lemma {:induction false} PresentColumn(bs: seq<Option<seq<byte>>>, len: nat, j: nat)
    requires UniformWherePresent(bs, len) && j < len
    ensures Present(OptColumn(bs, len, j)) == Present(bs)
  {
    if bs != [] {
      PresentColumn(bs[1..], len, j);
      assert OptColumn(bs, len, j)[1..] == OptColumn(bs[1..], len, j);
    }
  }

  // Any k surviving blocks determine all of them.
  lemma ReconstructExact(c: Code, data: seq<seq<byte>>, len: nat, bs: seq<Option<seq<byte>>>)
    requires Lawful(c) && |data| == c.k && Uniform(data, len)
    requires Agrees(bs, Encoded(c, data, len)) && Present(bs) >= c.k
    ensures UniformWherePresent(bs, len)
    ensures Reconstruct(c, bs, len) == Ok(Encoded(c, data, len))
  {
    var full := Encoded(c, data, len);
    assert UniformWherePresent(bs, len);
    var r := Reconstruct(c, bs, len).value;
    forall i | 0 <= i < |bs| ensures r[i] == full[i] {
      if bs[i].None? {
        forall j | 0 <= j < len ensures r[i][j] == full[i][j] {
          PresentColumn(bs, len, j);
          EncodedColumn(c, data, len, j);
          assert Agrees(OptColumn(bs, len, j), Codeword(c, Column(data, len, j)));
          assert full[i][j] == Column(full, len, j)[i];
        }
      }
    }
    assert r == full;
  }

  lemma {:induction false} PresentMonotone<T, U>(w: seq<Option<T>>, v: seq<Option<U>>)
    requires |w| == |v| && forall i :: 0 <= i < |w| && w[i].Some? ==> v[i].Some?
    ensures Present(w) <= Present(v)
  {
    if w != [] {
      PresentMonotone(w[1..], v[1..]);
    }
  }

  lemma {:induction false} PresentAppend<T>(w: seq<Option<T>>, x: Option<T>)
    ensures Present(w + [x]) == Present(w) + (if x.Some? then 1 else 0)
  {
    if w == [] {
      assert w + [x] == [x];
    } else {
      PresentAppend(w[1..], x);
      assert (w + [x])[1..] == w[1..] + [x];
    }
  }
}

/** The object as data shards (reedsolomon Split and Join, and the offset arithmetic of the
    streaming reader). */
module Layout {
  import opened Wrappers
  import opened ColumnCode

  // Ceiling of size / k: every shard has this length.
  function PerShard(size: nat, k: nat): nat
    requires k >= 1
  {
    (size + k - 1) / k
  }

  lemma PerShardBounds(size: nat, k: nat)
    requires k >= 1
    ensures PerShard(size, k) * k >= size && (size > 0 ==> PerShard(size, k) > 0)
    ensures size > 0 ==> (PerShard(size, k) - 1) * k < size
  {
    var n := PerShard(size, k);
    DivMod(size + k - 1, k);
    assert (n - 1) * k == n * k - k;
  }

  lemma DivMod(a: int, b: int)
    requires b > 0
    ensures a == (a / b) * b + a % b && 0 <= a % b < b
  {
  }

  lemma MulMono(a: int, b: int, k: nat)
    requires a <= b
    ensures a * k <= b * k
  {
  }

  lemma SliceOfSlice(t: seq<byte>, off: nat, len: nat, at: nat, n: nat)
    requires off + len <= |t| && at + n <= len
    ensures t[off..off + len][at..at + n] == t[off + at..off + at + n]
  {
    var x, y := t[off..off + len][at..at + n], t[off + at..off + at + n];
    assert forall i :: 0 <= i < n ==> x[i] == t[off + at + i] && y[i] == t[off + at + i];
    assert x == y;
  }

  // Data shard i of an object: the i-th run of per bytes, zero-padded at the end.
  function DataShard(obj: seq<byte>, per: nat, i: nat): (b: seq<byte>)
    ensures |b| == per
    ensures forall j :: 0 <= j < per ==> b[j] == if i * per + j < |obj| then obj[i * per + j] else 0
  {
    seq(per, j requires 0 <= j < per => if i * per + j < |obj| then obj[i * per + j] else 0)
  }

  function Split(obj: seq<byte>, k: nat, per: nat): (d: seq<seq<byte>>)
    ensures |d| == k && Uniform(d, per)
    ensures forall i :: 0 <= i < k ==> d[i] == DataShard(obj, per, i)
  {
    seq(k, i requires 0 <= i < k => DataShard(obj, per, i))
  }

  // The k + m shards the buffering writer produces: split, then encode.
  function ShardsOf(c: Code, obj: seq<byte>): (bs: seq<seq<byte>>)
    requires Lawful(c)
    ensures |bs| == c.k + c.m && Uniform(bs, PerShard(|obj|, c.k))
  {
    var per := PerShard(|obj|, c.k);
    Encoded(c, Split(obj, c.k, per), per)
  }

  // Concatenate the data shards and cut to the object's size (reedsolomon Join).
  function Join(bs: seq<seq<byte>>, k: nat, size: nat): (obj: seq<byte>)
    requires k <= |bs|
  {
    var all := Concat(bs[..k]);
    if size <= |all| then all[..size] else all
  }

  function Concat(bs: seq<seq<byte>>): seq<byte> {
    if bs == [] then [] else Concat(bs[..|bs| - 1]) + bs[|bs| - 1]
  }

  // Logical offset pos is byte inShard of data shard idx.
  predicate Placed(pos: nat, k: nat, per: nat, idx: nat, inShard: nat) {
    idx < k && inShard < per && pos == idx * per + inShard
  }

  // The offset arithmetic of the readers finds that place.
  lemma Locate(size: nat, k: nat, per: nat, pos: nat)
    requires pos < size <= per * k && per > 0
    ensures Placed(pos, k, per, pos / per, pos % per)
  {
    DivMod(pos, per);
    if pos / per >= k {
      MulMono(k, pos / per, per);
      assert false;
    }
  }

  // And there the bytes are a run of the object.
  lemma ShardRun(c: Code, obj: seq<byte>, pos: nat, idx: nat, inShard: nat, n: nat)
    requires Lawful(c) && Placed(pos, c.k, PerShard(|obj|, c.k), idx, inShard)
    requires inShard + n <= PerShard(|obj|, c.k) && pos + n <= |obj|
    ensures ShardsOf(c, obj)[idx][inShard..inShard + n] == obj[pos..pos + n]
  {
    var per := PerShard(|obj|, c.k);
    assert ShardsOf(c, obj)[idx] == DataShard(obj, per, idx);
  }

  lemma {:induction false} ConcatSplit(obj: seq<byte>, k: nat, per: nat)
    ensures |Concat(Split(obj, k, per))| == k * per
    ensures forall x :: 0 <= x < k * per ==> Concat(Split(obj, k, per))[x] == if x < |obj| then obj[x] else 0
  {
    if k > 0 {
      var d := Split(obj, k, per);
      ConcatSplit(obj, k - 1, per);
      assert d[..k - 1] == Split(obj, k - 1, per);
      assert k * per == (k - 1) * per + per;
      var c := Concat(d);
      forall x | 0 <= x < k * per ensures c[x] == if x < |obj| then obj[x] else 0 {
        if x >= (k - 1) * per {
          assert c[x] == d[k - 1][x - (k - 1) * per];
        }
      }
    }
  }

  // Decoding undoes encoding, whatever is missing, as long as k shards survive.
  lemma DecodeEncode(c: Code, obj: seq<byte>, bs: seq<Option<seq<byte>>>)
    requires Lawful(c) && Agrees(bs, ShardsOf(c, obj)) && Present(bs) >= c.k
    ensures UniformWherePresent(bs, PerShard(|obj|, c.k))
    ensures Reconstruct(c, bs, PerShard(|obj|, c.k)) == Ok(ShardsOf(c, obj))
    ensures Join(ShardsOf(c, obj), c.k, |obj|) == obj
  {
    var per := PerShard(|obj|, c.k);
    var d := Split(obj, c.k, per);
    ReconstructExact(c, d, per, bs);
    PerShardBounds(|obj|, c.k);
    ConcatSplit(obj, c.k, per);
    assert ShardsOf(c, obj)[..c.k] == d;
  }
}

/** Two codes that satisfy the law: XOR parity for any k with m = 1, and replication for
    k = 1 with any m. */
module CodeInstances {
  import opened Wrappers
  import opened ColumnCode

  function Xor(d: seq<byte>): byte {
    if d == [] then 0 else d[0] ^ Xor(d[1..])
  }

  function XorPresent(w: seq<Option<byte>>): byte {
    if w == [] then 0 else (if w[0].Some? then w[0].value else 0) ^ XorPresent(w[1..])
  }

  function XorRecover(w: seq<Option<byte>>): seq<byte> {
    seq(|w|, i requires 0 <= i < |w| => if w[i].Some? then w[i].value else XorPresent(w))
  }

  function XorCode(k: nat): Code {
    Code(k, 1, d => [Xor(d)], w => XorRecover(w))
  }

  lemma {:induction false} XorAppend(d: seq<byte>, x: byte)
    ensures Xor(d + [x]) == Xor(d) ^ x
  {
    if d == [] {
      assert d + [x] == [x];
      assert Xor([x]) == x ^ Xor([]);
    } else {
      XorAppend(d[1..], x);
      assert (d + [x])[1..] == d[1..] + [x];
    }
  }

  lemma {:induction false} AllPresent(w: seq<Option<byte>>, full: seq<byte>)
    requires Agrees(w, full) && Present(w) == |w|
    ensures XorPresent(w) == Xor(full) && forall i :: 0 <= i < |w| ==> w[i].Some?
  {
    if w != [] {
      assert Agrees(w[1..], full[1..]);
      assert Present(w[1..]) <= |w| - 1;
      AllPresent(w[1..], full[1..]);
      forall i | 0 <= i < |w| ensures w[i].Some? {
        if i > 0 { assert w[i] == w[1..][i - 1]; }
      }
    }
  }

  lemma {:induction false} OneMissing(w: seq<Option<byte>>, full: seq<byte>, i: nat)
    requires Agrees(w, full) && i < |w| && w[i].None? && Present(w) >= |w| - 1
    ensures Xor(full) == XorPresent(w) ^ full[i]
    ensures forall j :: 0 <= j < |w| && j != i ==> w[j].Some?
  {
    assert Agrees(w[1..], full[1..]);
    if i == 0 {
      AllPresent(w[1..], full[1..]);
      forall j | 0 <= j < |w| && j != i ensures w[j].Some? { assert w[j] == w[1..][j - 1]; }
    } else {
      assert w[1..][i - 1] == w[i];
      MissingCosts(w[1..], i - 1);
      OneMissing(w[1..], full[1..], i - 1);
      forall j | 0 < j < |w| && j != i ensures w[j].Some? { assert w[j] == w[1..][j - 1]; }
    }
  }

  lemma {:induction false} MissingCosts<T>(w: seq<Option<T>>, i: nat)
    requires i < |w| && w[i].None?
    ensures Present(w) <= |w| - 1
  {
    if i > 0 {
      MissingCosts(w[1..], i - 1);
    }
  }

  lemma XorLawful(k: nat)
    requires k >= 1
    ensures Lawful(XorCode(k))
  {
    var c := XorCode(k);
    forall d: seq<byte>, w: seq<Option<byte>> | |d| == k && Present(w) >= k && Agrees(w, Codeword(c, d))
      ensures c.recover(w) == Codeword(c, d)
    {
      var full := Codeword(c, d);
      assert full == d + [Xor(d)];
      XorAppend(d, Xor(d));
      assert Xor(full) == 0;
      forall i | 0 <= i < |w| ensures XorRecover(w)[i] == full[i] {
        if w[i].None? {
          OneMissing(w, full, i);
        }
      }
    }
  }

  function FirstPresent(w: seq<Option<byte>>): byte {
    if w == [] then 0 else if w[0].Some? then w[0].value else FirstPresent(w[1..])
  }

  function ReplicaCode(m: nat): Code {
    Code(1, m, d => seq(m, i => if |d| > 0 then d[0] else 0), w => seq(|w|, i => FirstPresent(w)))
  }

  lemma {:induction false} FirstPresentIs(w: seq<Option<byte>>, x: byte)
    requires Present(w) >= 1 && forall i :: 0 <= i < |w| && w[i].Some? ==> w[i].value == x
    ensures FirstPresent(w) == x
  {
    if w[0].None? {
      forall i | 0 <= i < |w[1..]| && w[1..][i].Some? ensures w[1..][i].value == x {
        assert w[1..][i] == w[i + 1];
      }
      FirstPresentIs(w[1..], x);
    }
  }

  lemma ReplicaLawful(m: nat)
    ensures Lawful(ReplicaCode(m))
  {
    var c := ReplicaCode(m);
    forall d: seq<byte>, w: seq<Option<byte>> | |d| == 1 && Present(w) >= 1 && Agrees(w, Codeword(c, d))
      ensures c.recover(w) == Codeword(c, d)
    {
      FirstPresentIs(w, d[0]);
    }
  }
}
