// Per-stripe checksums of internal/erasure/shard.go: the CRC-32C, the running summer a
// shard is written through, and the check a reader makes.

module Checksums {
  import opened ColumnCode
  import opened Layout

  type Sum = bv32

  // A checksum is a fold over bytes; every statement below holds for any such fold.
  datatype Hash = Hash(init: Sum, step: (Sum, byte) -> Sum)

  function CrcUpdate(h: Hash, c: Sum, data: seq<byte>): Sum {
    if data == [] then c else h.step(CrcUpdate(h, c, data[..|data| - 1]), data[|data| - 1])
  }

  function Crc(h: Hash, data: seq<byte>): Sum {
    CrcUpdate(h, h.init, data)
  }

  lemma {:induction false} CrcExtends(h: Hash, c: Sum, a: seq<byte>, b: seq<byte>)
    ensures CrcUpdate(h, c, a + b) == CrcUpdate(h, CrcUpdate(h, c, a), b)
  {
    if b == [] {
      assert a + b == a;
    } else {
      CrcExtends(h, c, a, b[..|b| - 1]);
      assert (a + b)[..|a + b| - 1] == a + b[..|b| - 1];
    }
  }

  // A checksum takes the bytes in their order, each once.
  lemma CrcOne(h: Hash, c: Sum, a: seq<byte>, b: byte)
    ensures Crc(h, []) == h.init && CrcUpdate(h, c, [b]) == h.step(c, b)
    ensures Crc(h, a + [b]) == h.step(Crc(h, a), b)
  {
    assert (a + [b])[..|a|] == a && [b][..0] == [];
  }

  // What meta.json records for a shard: the checksum of each of its aligned stripes of
  // length s, the last one possibly short.
  function StripeSums(h: Hash, data: seq<byte>, s: nat): seq<Sum>
    requires s > 0
    decreases |data|
  {
    if data == [] then []
    else if |data| <= s then [Crc(h, data)]
    else [Crc(h, data[..s])] + StripeSums(h, data[s..], s)
  }

  // Stripe j of data.
  function Stripe(data: seq<byte>, s: nat, j: nat): seq<byte>
    requires s > 0 && j * s <= |data|
  {
    data[j * s..if j * s + s <= |data| then j * s + s else |data|]
  }

  // There is one entry for each stripe, the last one perhaps short.
  lemma {:induction false} SumsCount(h: Hash, data: seq<byte>, s: nat)
    requires s > 0
    ensures var n := |StripeSums(h, data, s)|; |data| <= n * s && (n > 0 ==> (n - 1) * s < |data|)
    decreases |data|
  {
    hide CrcUpdate;
    if |data| > s {
      SumsCount(h, data[s..], s);
      var n := |StripeSums(h, data[s..], s)|;
      assert (n + 1) * s == n * s + s && n * s == (n - 1) * s + s;
    }
  }

  // Entry j belongs to the bytes from j * s on, s of them or what is left.
  lemma {:induction false} SumsAt(h: Hash, data: seq<byte>, s: nat, j: nat)
    requires s > 0 && j < |StripeSums(h, data, s)|
    ensures j * s < |data| && StripeSums(h, data, s)[j] == Crc(h, Stripe(data, s, j))
    decreases j
  {
    hide CrcUpdate;
    if j == 0 {
      assert 0 * s == 0;
      assert |data| <= s ==> Stripe(data, s, 0) == data;
      assert |data| > s ==> Stripe(data, s, 0) == data[..s];
    } else {
      SumsAt(h, data[s..], s, j - 1);
      NextStripe(data, s, j);
    }
  }

  lemma NextStripe(data: seq<byte>, s: nat, j: nat)
    requires 0 < s <= |data| && j > 0 && (j - 1) * s < |data| - s
    ensures j * s < |data| && Stripe(data[s..], s, j - 1) == Stripe(data, s, j)
  {
    assert j * s == (j - 1) * s + s;
  }

  // data consists of whole stripes.
  predicate Whole(data: seq<byte>, s: nat)
    requires s > 0
    decreases |data|
  {
    data == [] || (|data| >= s && Whole(data[s..], s))
  }

  lemma {:induction false} SumsAppend(h: Hash, whole: seq<byte>, part: seq<byte>, s: nat)
    requires s > 0 && Whole(whole, s) && 0 < |part| <= s
    ensures StripeSums(h, whole + part, s) == StripeSums(h, whole, s) + [Crc(h, part)]
    ensures |part| == s ==> Whole(whole + part, s)
    decreases |whole|
  {
    if whole == [] {
      assert whole + part == part;
    } else {
      SumsAppend(h, whole[s..], part, s);
      assert (whole + part)[..s] == whole[..s] && (whole + part)[s..] == whole[s..] + part;
      if whole[s..] == [] {
        assert whole[..s] == whole;
      }
    }
  }

  class StripeSummer {
    const h: Hash
    const stripe: nat
    var cur: Sum
    var n: nat
    var sums: seq<Sum>
    // What was written so far: the closed stripes, then the open one.
    ghost var closed: seq<byte>
    ghost var open: seq<byte>

    ghost predicate Valid()
      reads this
    {
      && stripe > 0
      && |open| == n < stripe
      && cur == Crc(h, open)
      && Whole(closed, stripe)
      && sums == StripeSums(h, closed, stripe)
    }

    ghost function Fed(): seq<byte>
      reads this
    {
      closed + open
    }

    constructor (h: Hash, s: nat)
      requires s > 0
      ensures Valid() && Fed() == [] && stripe == s && this.h == h
    {
      this.h, stripe := h, s;
      cur, n, sums, closed, open := h.init, 0, [], [], [];
    }

    method Write(p: seq<byte>)
      requires Valid()
      modifies this
      ensures Valid() && Fed() == old(Fed()) + p
    {
      var i := 0;
      while i < |p|
        invariant Valid() && 0 <= i <= |p| && Fed() == old(Fed()) + p[..i]
      {
        var take := if stripe - n <= |p| - i then stripe - n else |p| - i;
        Advance(p[i..i + take]);
        assert p[..i] + p[i..i + take] == p[..i + take];
        i := i + take;
      }
      assert p[..i] == p;
    }

    // One turn of the loop above: bytes that stay within the open stripe.
    method Advance(part: seq<byte>)
      requires Valid() && 0 < |part| <= stripe - n
      modifies this
      ensures Valid() && Fed() == old(Fed()) + part
    {
      hide StripeSums, Whole;
      assert Crc(h, []) == h.init;
      hide CrcUpdate;
      CrcExtends(h, h.init, open, part);
      cur := CrcUpdate(h, cur, part);
      n := n + |part|;
      open := open + part;
      if n == stripe {
        SumsAppend(h, closed, open, stripe);
        sums := sums + [cur];
        cur, n := h.init, 0;
        closed, open := closed + open, [];
      }
    }

    // Closes the last partial stripe. However the bytes were divided over the writes, the
    // result is the list of checksums of the aligned stripes.
    method Encoded() returns (r: seq<Sum>)
      requires Valid()
      modifies this
      ensures r == StripeSums(h, old(Fed()), stripe)
    {
      if n > 0 {
        SumsAppend(h, closed, open, stripe);
        sums := sums + [cur];
        cur, n := h.init, 0;
      } else {
        assert closed + open == closed;
      }
      r := sums;
    }
  }

  /** The parts of meta.json reads depend on. `crcs` is the decoded form of the base64
      strings. */
  datatype ShardMeta = ShardMeta(
    size: nat, k: nat, m: nat, sizes: seq<nat>, crcs: seq<seq<Sum>>, crcStripe: nat)
  {
    predicate HasChecksums() {
      0 < crcStripe <= 0x400_0000 && |crcs| == k + m
    }
  }

  // list is recorded in sums from index at on.
  predicate Recorded(sums: seq<Sum>, at: nat, list: seq<Sum>) {
    forall j :: 0 <= j < |list| ==> at + j < |sums| && sums[at + j] == list[j]
  }

  // data, read from in-shard offset off, carries the recorded checksums of shard i, where
  // there is something to compare.
  predicate StripeOK(h: Hash, meta: ShardMeta, i: nat, off: nat, data: seq<byte>)
    requires i < meta.k + meta.m
  {
    meta.HasChecksums() && off % meta.crcStripe == 0 ==>
      Recorded(meta.crcs[i], off / meta.crcStripe, StripeSums(h, data, meta.crcStripe))
  }

  // Every stripe of data has its checksum in the list from index at on.
  ghost predicate Carries(h: Hash, sums: seq<Sum>, s: nat, at: nat, data: seq<byte>)
    requires s > 0
  {
    forall j: nat :: CarriesOne(h, sums, s, at, data, j)
  }

  ghost predicate CarriesOne(h: Hash, sums: seq<Sum>, s: nat, at: nat, data: seq<byte>, j: nat)
    requires s > 0
  {
    j * s < |data| ==> at + j < |sums| && sums[at + j] == Crc(h, Stripe(data, s, j))
  }

  lemma CarriesExactly(h: Hash, sums: seq<Sum>, s: nat, at: nat, data: seq<byte>)
    requires s > 0
    ensures Recorded(sums, at, StripeSums(h, data, s)) <==> Carries(h, sums, s, at, data)
  {
    hide Crc, Stripe, StripeSums;
    var list := StripeSums(h, data, s);
    if !Recorded(sums, at, list) {
      var j :| 0 <= j < |list| && !(at + j < |sums| && sums[at + j] == list[j]);
      CarriedOne(h, sums, s, at, data, j);
      assert !CarriesOne(h, sums, s, at, data, j);
    }
    if !Carries(h, sums, s, at, data) {
      var j: nat :| !CarriesOne(h, sums, s, at, data, j);
      CarriedOne(h, sums, s, at, data, j);
      assert j < |list| && !(at + j < |sums| && sums[at + j] == list[j]);
    }
  }

  lemma CarriedOne(h: Hash, sums: seq<Sum>, s: nat, at: nat, data: seq<byte>, j: nat)
    requires s > 0
    ensures var list := StripeSums(h, data, s);
      CarriesOne(h, sums, s, at, data, j) <==> j >= |list| || (at + j < |sums| && sums[at + j] == list[j])
  {
    hide Crc, Stripe, StripeSums;
    HasStripe(h, data, s, j);
    if j < |StripeSums(h, data, s)| { SumsAt(h, data, s, j); }
  }

  // Every stripe of data has the checksum that the shard has there, stripe at of the shard
  // being the first.
  ghost predicate Alike(h: Hash, shard: seq<byte>, s: nat, at: nat, data: seq<byte>)
    requires s > 0
  {
    forall j: nat :: AlikeOne(h, shard, s, at, data, j)
  }

  ghost predicate AlikeOne(h: Hash, shard: seq<byte>, s: nat, at: nat, data: seq<byte>, j: nat)
    requires s > 0
  {
    j * s < |data| ==> (at + j) * s < |shard| && Crc(h, Stripe(data, s, j)) == Crc(h, Stripe(shard, s, at + j))
  }

  lemma CarriesAlike(h: Hash, shard: seq<byte>, s: nat, at: nat, data: seq<byte>)
    requires s > 0
    ensures Carries(h, StripeSums(h, shard, s), s, at, data) <==> Alike(h, shard, s, at, data)
  {
    hide Crc, Stripe, StripeSums;
    var sums := StripeSums(h, shard, s);
    forall j: nat ensures CarriesOne(h, sums, s, at, data, j) <==> AlikeOne(h, shard, s, at, data, j) {
      HasStripe(h, shard, s, at + j);
      if at + j < |sums| { SumsAt(h, shard, s, at + j); }
    }
  }

  lemma HasStripe(h: Hash, shard: seq<byte>, s: nat, j: nat)
    requires s > 0
    ensures j < |StripeSums(h, shard, s)| <==> j * s < |shard|
  {
    hide StripeSums;
    var n := |StripeSums(h, shard, s)|;
    SumsCount(h, shard, s);
    if j >= n { MulMono(n, j, s); } else { MulMono(j, n - 1, s); }
  }

  // When bytes are refused: meta.json has checksums for every shard over a stripe length that
  // makes sense, the bytes start on a stripe boundary, and one of their stripes has another
  // checksum than recorded, or none recorded.
  lemma RefusesExactly(h: Hash, meta: ShardMeta, i: nat, off: nat, data: seq<byte>)
    requires i < meta.k + meta.m
    ensures !StripeOK(h, meta, i, off, data) <==>
      && 0 < meta.crcStripe <= 0x400_0000 && |meta.crcs| == meta.k + meta.m && off % meta.crcStripe == 0
      && !Carries(h, meta.crcs[i], meta.crcStripe, off / meta.crcStripe, data)
  {
    hide Carries, CrcUpdate;
    if meta.HasChecksums() {
      CarriesExactly(h, meta.crcs[i], meta.crcStripe, off / meta.crcStripe, data);
    }
  }

  method CheckStripes(h: Hash, meta: ShardMeta, i: nat, off: nat, data: seq<byte>) returns (ok: bool)
    requires i < meta.k + meta.m
    ensures ok == StripeOK(h, meta, i, off, data)
  {
    hide CrcUpdate;
    if !meta.HasChecksums() || off % meta.crcStripe != 0 {
      return true;
    }
    var s, sums := meta.crcStripe, meta.crcs[i];
    var pos := 0;
    ghost var c, all := 0, StripeSums(h, data, s);
    assert data[0..] == data && all[0..] == all;
    hide StripeSums, RestSums, Crc;
    while pos < |data|
      invariant c <= |all| && all[c..] == RestSums(h, data, s, pos)
      invariant (off + pos) / s == off / s + c
      invariant Recorded(sums, off / s, all[..c])
    {
      var idx := (off + pos) / s;
      var end := if pos + s > |data| then |data| else pos + s;
      RestSumsStep(h, data, s, pos);
      assert all[c] == all[c..][0] == Crc(h, data[pos..end]);
      assert all[c + 1..] == all[c..][1..];
      if idx + 1 > |sums| {
        return false;
      }
      if Crc(h, data[pos..end]) != sums[idx] {
        return false;
      }
      QuotientStep(off + pos, s);
      assert all[..c + 1] == all[..c] + [sums[idx]];
      pos, c := pos + s, c + 1;
    }
    assert all[c..] == [] by { RestSumsPast(h, data, s, pos); }
    assert all[..c] == all;
    return true;
  }

  ghost function RestSums(h: Hash, data: seq<byte>, s: nat, pos: nat): seq<Sum>
    requires s > 0
  {
    if pos <= |data| then StripeSums(h, data[pos..], s) else []
  }

  lemma RestSumsPast(h: Hash, data: seq<byte>, s: nat, pos: nat)
    requires s > 0 && pos >= |data|
    ensures RestSums(h, data, s, pos) == []
  {
  }

  lemma RestSumsStep(h: Hash, data: seq<byte>, s: nat, pos: nat)
    requires s > 0 && pos < |data|
    ensures RestSums(h, data, s, pos) ==
      [Crc(h, data[pos..if pos + s > |data| then |data| else pos + s])] + RestSums(h, data, s, pos + s)
  {
    var rest := data[pos..];
    if |rest| <= s {
      assert data[pos..|data|] == rest;
    } else {
      assert rest[..s] == data[pos..pos + s] && rest[s..] == data[pos + s..];
    }
  }

  lemma QuotientStep(x: nat, s: nat)
    requires s > 0
    ensures (x + s) / s == x / s + 1 && (x + s) % s == x % s
  {
    DivMod(x, s);
    DivMod(x + s, s);
    var a, b := (x + s) / s, x / s + 1;
    assert (a + 1) * s == a * s + s && (b + 1) * s == b * s + s && b * s == (x / s) * s + s;
    if a < b {
      MulMono(a + 1, b, s);
    } else if a > b {
      MulMono(b + 1, a, s);
    }
  }

  lemma {:induction false} MultipleIsAligned(q: nat, s: nat)
    requires s > 0
    ensures (q * s) % s == 0 && (q * s) / s == q
  {
    if q > 0 {
      MultipleIsAligned(q - 1, s);
      assert q * s == (q - 1) * s + s;
      QuotientStep((q - 1) * s, s);
    } else {
      assert q * s == 0;
    }
  }

  // The recorded sums of shard i are those of its true contents.
  predicate SumsRecord(h: Hash, meta: ShardMeta, i: nat, shard: seq<byte>) {
    meta.HasChecksums() ==> i < meta.k + meta.m && meta.crcs[i] == StripeSums(h, shard, meta.crcStripe)
  }

  lemma AlignedIsZeroOrMore(x: nat, s: nat)
    requires s > 0 && x % s == 0 && x > 0
    ensures x >= s && (x - s) % s == 0 && (x - s) / s == x / s - 1
  {
    DivMod(x, s);
    assert x == (x / s) * s;
    MulMono(1, x / s, s);
    QuotientStep(x - s, s);
  }

  // Dropping whole stripes from the data drops their checksums from the list.
  lemma {:induction false} SumsDrop(h: Hash, data: seq<byte>, s: nat, q: nat, off: nat)
    requires s > 0 && off == q * s && off <= |data|
    ensures q <= |StripeSums(h, data, s)|
    ensures StripeSums(h, data, s)[q..] == StripeSums(h, data[off..], s)
    decreases q
  {
    if q == 0 {
      assert data[0..] == data;
    } else {
      assert off >= s && off - s == (q - 1) * s by { MulMono(1, q, s); }
      SumsDrop(h, data[s..], s, q - 1, off - s);
      assert data[s..][off - s..] == data[off..];
      SumsTail(h, data, s);
      DropOneMore(StripeSums(h, data, s), q);
    }
  }

  lemma SumsTail(h: Hash, data: seq<byte>, s: nat)
    requires 0 < s <= |data|
    ensures StripeSums(h, data, s) != [] && StripeSums(h, data, s)[1..] == StripeSums(h, data[s..], s)
  {
  }

  lemma DropOneMore(l: seq<Sum>, q: nat)
    requires l != [] && 1 <= q && q - 1 <= |l[1..]|
    ensures q <= |l| && l[q..] == l[1..][q - 1..]
  {
  }

  // A prefix that ends on a stripe boundary, or with the data, has a prefix of the list.
  lemma {:induction false} SumsPrefix(h: Hash, data: seq<byte>, s: nat, n: nat)
    requires s > 0 && n <= |data| && (n % s == 0 || n == |data|)
    ensures StripeSums(h, data[..n], s) <= StripeSums(h, data, s)
    decreases |data|
  {
    if n == |data| {
      assert data[..n] == data;
    } else if n > 0 {
      AlignedIsZeroOrMore(n, s);
      SumsPrefix(h, data[s..], s, n - s);
      assert data[s..][..n - s] == data[..n][s..] && data[..n][..s] == data[..s];
      if n == s {
        assert data[..n][s..] == [] && data[..n] == data[..s];
      }
    }
  }

  // What acceptance means: the data's list of stripe checksums is a prefix of that of the
  // shard from there on. So one stripe with another checksum, or bytes past the end of the
  // shard, is enough to be refused.
  lemma AcceptanceIsPrefix(h: Hash, meta: ShardMeta, i: nat, shard: seq<byte>, off: nat, data: seq<byte>)
    requires meta.HasChecksums() && i < meta.k + meta.m && SumsRecord(h, meta, i, shard)
    requires off % meta.crcStripe == 0 && off <= |shard|
    ensures StripeOK(h, meta, i, off, data) <==>
      StripeSums(h, data, meta.crcStripe) <= StripeSums(h, shard[off..], meta.crcStripe)
  {
    var s, at := meta.crcStripe, off / meta.crcStripe;
    DivMod(off, s);
    SumsDrop(h, shard, s, at, off);
    RecordedIsPrefix(meta.crcs[i], at, StripeSums(h, data, s));
  }

  lemma RecordedIsPrefix(sums: seq<Sum>, at: nat, list: seq<Sum>)
    requires at <= |sums|
    ensures Recorded(sums, at, list) <==> list <= sums[at..]
  {
    if Recorded(sums, at, list) && list != [] {
      var last := list[|list| - 1];
      assert at + |list| - 1 < |sums|;
    }
    if list <= sums[at..] {
      forall j | 0 <= j < |list| ensures at + j < |sums| && sums[at + j] == list[j] {
        assert list[j] == sums[at..][j];
      }
    }
  }

  // The check accepts the shard as a whole and any stripe-aligned part of it that runs to
  // the end of a stripe or of the shard.
  lemma AcceptsTrueStripes(h: Hash, meta: ShardMeta, i: nat, shard: seq<byte>, off: nat, n: nat)
    requires i < meta.k + meta.m && SumsRecord(h, meta, i, shard)
    requires off + n <= |shard|
    requires meta.HasChecksums() ==> n % meta.crcStripe == 0 || off + n == |shard|
    ensures StripeOK(h, meta, i, off, shard[off..off + n])
  {
    if meta.HasChecksums() && off % meta.crcStripe == 0 {
      AcceptanceIsPrefix(h, meta, i, shard, off, shard[off..off + n]);
      assert shard[off..][..n] == shard[off..off + n];
      SumsPrefix(h, shard[off..], meta.crcStripe, n);
    }
  }
}
