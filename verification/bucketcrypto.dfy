// Per-bucket envelope encryption: internal/bucketcrypto/bucketcrypto.go, and the key store
// over bucket configurations in internal/bucketkeys/bucketkeys.go.

module Envelope {
  import opened Wrappers

  type Octet = x: int | 0 <= x < 256

  type Bytes = seq<Octet>

  type Bucket = string

  const KEY_LEN: nat := 32
  const HEADER_LEN: nat := 9
  const MAGIC: Bytes := [86, 83, 51, 88]
  const FORMAT_V1: Octet := 1
  const VERSIONS: nat := 0x1_0000_0000

  // An authenticated cipher. Opening succeeds exactly with the key and nonce that sealed.
  datatype Aead = Aead(
    nonceSize: nat, seal: (Bytes, Bytes, Bytes) -> Bytes, open: (Bytes, Bytes, Bytes) -> Option<Bytes>)

  ghost predicate Ideal(a: Aead) {
    && (forall k, n, p {:trigger a.seal(k, n, p)} :: |k| == KEY_LEN ==> a.open(k, n, a.seal(k, n, p)) == Some(p))
    && (forall k, k', n, p {:trigger a.open(k', n, a.seal(k, n, p))} ::
          |k| == |k'| == KEY_LEN && k != k' ==> a.open(k', n, a.seal(k, n, p)) == None)
    && (forall k, n, c {:trigger a.open(k, n, c)} :: a.open(k, n, c).Some? ==> |a.open(k, n, c).value| <= |c|)
  }

  // The assumption can be met: a toy cipher that carries its key.
  function Toy(): Aead {
    Aead(12, (k, n, p) => k + p,
         (k, n, c) => if |k| <= |c| && c[..|k|] == k then Some(c[|k|..]) else None)
  }

  lemma ToyIsIdeal()
    ensures Ideal(Toy())
  {
    var a := Toy();
    forall k: Bytes, n: Bytes, p: Bytes | |k| == KEY_LEN ensures a.open(k, n, a.seal(k, n, p)) == Some(p) {
      assert (k + p)[..|k|] == k && (k + p)[|k|..] == p;
    }
    forall k: Bytes, k': Bytes, n: Bytes, p: Bytes | |k| == |k'| == KEY_LEN && k != k'
      ensures a.open(k', n, a.seal(k, n, p)) == None
    {
      assert (k + p)[..|k'|] == k;
    }
  }

  datatype Failure = NoKey | Malformed | BadFormat | ShortKey | Unopened

  datatype Answer = Plain(data: Bytes) | Fault(why: Failure)

  // --- wrapping data keys ---

  function Wrap(a: Aead, kek: Bytes, nonce: Bytes, dek: Bytes): Bytes {
    nonce + a.seal(kek, nonce, dek)
  }

  function Unwrap(a: Aead, kek: Bytes, w: Bytes): Option<Bytes> {
    if |w| < a.nonceSize then None else a.open(kek, w[..a.nonceSize], w[a.nonceSize..])
  }

  lemma UnwrapWrap(a: Aead, kek: Bytes, nonce: Bytes, dek: Bytes)
    requires Ideal(a) && |kek| == KEY_LEN && |nonce| == a.nonceSize
    ensures Unwrap(a, kek, Wrap(a, kek, nonce, dek)) == Some(dek)
    ensures Wrap(a, kek, nonce, dek)[..a.nonceSize] == nonce
    ensures Wrap(a, kek, nonce, dek)[a.nonceSize..] == a.seal(kek, nonce, dek)
  {
    var w := Wrap(a, kek, nonce, dek);
    assert w[..a.nonceSize] == nonce && w[a.nonceSize..] == a.seal(kek, nonce, dek);
  }

  // --- the header: magic, format, key version as 32 bits ---

  function BigEndian(v: nat): (b: Bytes)
    ensures |b| == 4
  {
    [v / 256 / 256 / 256 % 256, v / 256 / 256 % 256, v / 256 % 256, v % 256]
  }

  function FromBigEndian(b: Bytes): nat
    requires |b| == 4
  {
    (((b[0] as int) * 256 + b[1] as int) * 256 + b[2] as int) * 256 + b[3] as int
  }

  // The most significant byte comes first, and a version that does not fit in 32 bits is
  // truncated.
  lemma HeaderVersion(v: nat)
    ensures FromBigEndian(BigEndian(v)) == v % VERSIONS
    ensures var b := BigEndian(v);
      v % VERSIONS == b[0] as int * 0x100_0000 + b[1] as int * 0x1_0000 + b[2] as int * 0x100 + b[3] as int
  {
    var q1, q2, q3 := v / 256, v / 256 / 256, v / 256 / 256 / 256;
    var r := FromBigEndian(BigEndian(v));
    assert v == (q3 / 256) * VERSIONS + r && 0 <= r < VERSIONS by {
      assert v == q1 * 256 + v % 256 && q1 == q2 * 256 + q1 % 256 && q2 == q3 * 256 + q2 % 256 &&
        q3 == (q3 / 256) * 256 + q3 % 256;
    }
  }

  function Header(version: nat): (h: Bytes)
    ensures |h| == HEADER_LEN
  {
    MAGIC + [FORMAT_V1] + BigEndian(version)
  }

  predicate HasMagic(data: Bytes) {
    |data| >= 4 && data[..4] == MAGIC
  }

  // --- key material, as a key store holds it ---

  datatype Keys = Keys(current: map<Bucket, nat>, versions: map<Bucket, map<nat, Bytes>>)

  function Get(k: Keys, b: Bucket, v: nat): Option<Bytes> {
    if b in k.versions && v in k.versions[b] then Some(k.versions[b][v]) else None
  }

  function SetCurrent(k: Keys, b: Bucket, v: nat, w: Bytes): Keys {
    var vs: map<nat, Bytes> := if b in k.versions then k.versions[b] else map[];
    Keys(k.current[b := v], k.versions[b := vs[v := w]])
  }

  function Delete(k: Keys, b: Bucket): Keys {
    Keys(k.current - {b}, k.versions - {b})
  }

  // --- encrypting and decrypting, by what the store holds ---

  function DekOf(a: Aead, kek: Bytes, k: Keys, b: Bucket, v: nat): Option<Bytes> {
    match Get(k, b, v) case None => None case Some(w) => Unwrap(a, kek, w)
  }

  function SealBlob(a: Aead, dek: Bytes, version: nat, nonce: Bytes, p: Bytes): Bytes {
    Header(version) + nonce + a.seal(dek, nonce, p)
  }

  function OpenWith(a: Aead, dek: Bytes, data: Bytes): Answer
    requires |data| >= HEADER_LEN
  {
    if |dek| != KEY_LEN then Fault(ShortKey)
    else if |data| < HEADER_LEN + a.nonceSize then Fault(Malformed)
    else
      match a.open(dek, data[HEADER_LEN..HEADER_LEN + a.nonceSize], data[HEADER_LEN + a.nonceSize..])
      case None => Fault(Unopened)
      case Some(p) => Plain(p)
  }

  // What the front of stored data says: not a blob, a broken one, or the key version.
  datatype Front = NotABlob | Broken(why: Failure) | Sealed(version: nat)

  function FrontOf(data: Bytes): (f: Front)
    ensures f.Sealed? ==> |data| >= HEADER_LEN
  {
    if !HasMagic(data) then NotABlob
    else if |data| < HEADER_LEN then Broken(Malformed)
    else if data[4] != FORMAT_V1 then Broken(BadFormat)
    else Sealed(FromBigEndian(data[5..9]))
  }

  // Opening with the wrapped key a store holds for the version, if any.
  function OpenUnder(a: Aead, kek: Bytes, wrapped: Option<Bytes>, data: Bytes): Answer
    requires |data| >= HEADER_LEN
  {
    match wrapped
    case None => Fault(NoKey)
    case Some(w) =>
      match Unwrap(a, kek, w)
      case None => Fault(Unopened)
      case Some(dek) => OpenWith(a, dek, data)
  }

  function Decrypted(a: Aead, kek: Bytes, k: Keys, b: Bucket, data: Bytes): Answer {
    match FrontOf(data)
    case NotABlob => Plain(data)
    case Broken(why) => Fault(why)
    case Sealed(v) => OpenUnder(a, kek, Get(k, b, v), data)
  }

  lemma BlobParts(a: Aead, dek: Bytes, version: nat, nonce: Bytes, p: Bytes)
    requires |nonce| == a.nonceSize
    ensures var d := SealBlob(a, dek, version, nonce, p);
      && HasMagic(d) && |d| >= HEADER_LEN + a.nonceSize && d[4] == FORMAT_V1 && d[5..9] == BigEndian(version)
      && d[HEADER_LEN..HEADER_LEN + a.nonceSize] == nonce && d[HEADER_LEN + a.nonceSize..] == a.seal(dek, nonce, p)
  {
    var d := SealBlob(a, dek, version, nonce, p);
    assert d[..4] == MAGIC;
    assert d[5..9] == BigEndian(version);
  }

  // Every answer of a decryption, in the order of the checks. The key version is in bytes 5
  // to 8, the nonce follows the header, and the rest is sealed.
  lemma DecryptAnswers(a: Aead, kek: Bytes, k: Keys, b: Bucket, data: Bytes)
    ensures var out := Decrypted(a, kek, k, b, data);
      if |data| < 4 || data[0] != 86 || data[1] != 83 || data[2] != 51 || data[3] != 88 then out == Plain(data)
      else if |data| < 9 then out == Fault(Malformed)
      else if data[4] != 1 then out == Fault(BadFormat)
      else
        var v := data[5] as int * 0x100_0000 + data[6] as int * 0x1_0000 + data[7] as int * 0x100 + data[8] as int;
        if b !in k.versions || v !in k.versions[b] then out == Fault(NoKey)
        else
          match Unwrap(a, kek, k.versions[b][v])
          case None => out == Fault(Unopened)
          case Some(dek) =>
            if |dek| != 32 then out == Fault(ShortKey)
            else if |data| < 9 + a.nonceSize then out == Fault(Malformed)
            else
              match a.open(dek, data[9..9 + a.nonceSize], data[9 + a.nonceSize..])
              case None => out == Fault(Unopened)
              case Some(p) => out == Plain(p)
  {
    assert |data| >= 4 ==> data[..4] == [data[0], data[1], data[2], data[3]];
    if |data| >= 9 {
      var b4 := data[5..9];
      assert b4[0] == data[5] && b4[1] == data[6] && b4[2] == data[7] && b4[3] == data[8];
    }
  }

  // Data stored without encryption reads back as itself exactly when it does not begin with
  // the magic bytes.
  lemma PassThrough(a: Aead, kek: Bytes, k: Keys, b: Bucket, data: Bytes)
    requires Ideal(a)
    ensures Decrypted(a, kek, k, b, data) == Plain(data) <==> !HasMagic(data)
  {
    if HasMagic(data) && Decrypted(a, kek, k, b, data).Plain? {
      var dek := Unwrap(a, kek, Get(k, b, FromBigEndian(data[5..9])).value).value;
      var c := data[HEADER_LEN + a.nonceSize..];
      assert |a.open(dek, data[HEADER_LEN..HEADER_LEN + a.nonceSize], c).value| <= |c|;
    }
  }
}

/** Managers sharing one key store. Each has a cache of its own; none of it shows. */
module KeyManagers {
  import opened Wrappers
  import opened Envelope

  class MemKeyStore {
    var keys: Keys

    constructor ()
      ensures keys == Keys(map[], map[])
    {
      keys := Keys(map[], map[]);
    }
  }

  datatype Cached = Cached(wrapped: Bytes, dek: Bytes)

  class Manager {
    const a: Aead
    const kek: Bytes
    const store: MemKeyStore
    var cache: map<(Bucket, nat), Cached>

    // Cached keys are what their wrapped form unwraps to. The store may hold other keys.
    ghost predicate Valid()
      reads this
    {
      && Ideal(a) && |kek| == KEY_LEN
      && forall e :: e in cache ==> Unwrap(a, kek, cache[e].wrapped) == Some(cache[e].dek)
    }

    constructor (a: Aead, kek: Bytes, store: MemKeyStore)
      requires Ideal(a) && |kek| == KEY_LEN
      ensures Valid() && this.a == a && this.kek == kek && this.store == store
    {
      this.a, this.kek, this.store, cache := a, kek, store, map[];
    }

    // The data key of a version: always what unwrapping the stored key gives now, whatever
    // this manager has cached and whatever other managers have done since.
    method Dek(b: Bucket, v: nat) returns (r: Result<Bytes>, why: Failure)
      requires Valid()
      modifies this`cache
      ensures Valid()
      ensures r == match DekOf(a, kek, store.keys, b, v) case Some(d) => Ok(d) case None => Err
      ensures r.Err? ==> why == if Get(store.keys, b, v).None? then NoKey else Unopened
    {
      why := NoKey;
      var wrapped := Get(store.keys, b, v);
      if wrapped.None? {
        cache := cache - {(b, v)};
        return Err, NoKey;
      }
      if (b, v) in cache && cache[(b, v)].wrapped == wrapped.value {
        return Ok(cache[(b, v)].dek), NoKey;
      }
      var d := Unwrap(a, kek, wrapped.value);
      if d.None? {
        return Err, Unopened;
      }
      cache := cache[(b, v) := Cached(wrapped.value, d.value)];
      r := Ok(d.value);
    }

    // A new key version. The random key and nonce are the caller's.
    method NewVersion(b: Bucket, v: nat, dek: Bytes, nonce: Bytes)
      requires Valid() && |dek| == KEY_LEN && |nonce| == a.nonceSize
      modifies this`cache, store
      ensures Valid() && store.keys == SetCurrent(old(store.keys), b, v, Wrap(a, kek, nonce, dek))
      ensures Added(old(store.keys), store.keys, b, v, Wrap(a, kek, nonce, dek))
    {
      UnwrapWrap(a, kek, nonce, dek);
      var wrapped := Wrap(a, kek, nonce, dek);
      store.keys := SetCurrent(store.keys, b, v, wrapped);
      cache := cache[(b, v) := Cached(wrapped, dek)];
    }

    method EnableBucket(b: Bucket, dek: Bytes, nonce: Bytes)
      requires Valid() && |dek| == KEY_LEN && |nonce| == a.nonceSize
      modifies this`cache, store
      ensures Valid() && store.keys == Enabled(old(store.keys), b, Wrap(a, kek, nonce, dek))
      ensures b in old(store.keys).current ==> store.keys == old(store.keys)
      ensures b !in old(store.keys).current ==> Added(old(store.keys), store.keys, b, 1, Wrap(a, kek, nonce, dek))
    {
      if b !in store.keys.current {
        NewVersion(b, 1, dek, nonce);
      }
    }

    method Rotate(b: Bucket, dek: Bytes, nonce: Bytes)
      requires Valid() && |dek| == KEY_LEN && |nonce| == a.nonceSize
      modifies this`cache, store
      ensures Valid() && store.keys == Rotated(old(store.keys), b, Wrap(a, kek, nonce, dek))
      ensures var k := old(store.keys);
        Added(k, store.keys, b, if b in k.current then k.current[b] + 1 else 1, Wrap(a, kek, nonce, dek))
    {
      NewVersion(b, if b in store.keys.current then store.keys.current[b] + 1 else 1, dek, nonce);
    }

    method ShredBucket(b: Bucket)
      requires Valid()
      modifies this`cache, store
      ensures Valid() && store.keys == Delete(old(store.keys), b)
      ensures b !in store.keys.current && b !in store.keys.versions && Elsewhere(old(store.keys), store.keys, b)
    {
      cache := map e | e in cache && e.0 != b :: cache[e];
      store.keys := Delete(store.keys, b);
    }

    method Encrypt(b: Bucket, p: Bytes, nonce: Bytes) returns (out: Answer, encrypted: bool)
      requires Valid() && |nonce| == a.nonceSize
      modifies this`cache
      ensures Valid()
      ensures b !in store.keys.current ==> out == Plain(p) && !encrypted
      ensures b in store.keys.current ==>
        var v := store.keys.current[b];
        match DekOf(a, kek, store.keys, b, v)
        case None => out.Fault? && !encrypted
        case Some(dek) =>
          if |dek| == KEY_LEN then out == Plain(SealBlob(a, dek, v, nonce, p)) && encrypted
          else out == Fault(ShortKey) && !encrypted
    {
      if b !in store.keys.current {
        return Plain(p), false;
      }
      var v := store.keys.current[b];
      var dek, why := Dek(b, v);
      if dek.Err? {
        return Fault(why), false;
      }
      if |dek.value| != KEY_LEN {
        return Fault(ShortKey), false;
      }
      return Plain(SealBlob(a, dek.value, v, nonce, p)), true;
    }

    method Decrypt(b: Bucket, data: Bytes) returns (out: Answer)
      requires Valid()
      modifies this`cache
      ensures Valid() && out == Decrypted(a, kek, store.keys, b, data)
    {
      if !HasMagic(data) {
        return Plain(data);
      }
      if |data| < HEADER_LEN {
        return Fault(Malformed);
      }
      if data[4] != FORMAT_V1 {
        return Fault(BadFormat);
      }
      var dek, why := Dek(b, FromBigEndian(data[5..9]));
      if dek.Err? {
        return Fault(why);
      }
      return OpenWith(a, dek.value, data);
    }
  }

  // Version v of the bucket is now w and current, every other version is kept, and other
  // buckets are as they were.
  ghost predicate Added(k: Keys, k': Keys, b: Bucket, v: nat, w: Bytes) {
    && b in k'.current && k'.current[b] == v && Elsewhere(k, k', b)
    && forall x :: Get(k', b, x) == if x == v then Some(w) else Get(k, b, x)
  }

  ghost predicate Elsewhere(k: Keys, k': Keys, b: Bucket) {
    && (forall x :: x != b ==> (x in k.current <==> x in k'.current) && (x in k.versions <==> x in k'.versions))
    && (forall x :: x != b && x in k.current ==> k'.current[x] == k.current[x])
    && (forall x :: x != b && x in k.versions ==> k'.versions[x] == k.versions[x])
  }

  function Enabled(k: Keys, b: Bucket, w: Bytes): Keys {
    if b in k.current then k else SetCurrent(k, b, 1, w)
  }

  function Rotated(k: Keys, b: Bucket, w: Bytes): Keys {
    SetCurrent(k, b, if b in k.current then k.current[b] + 1 else 1, w)
  }
}

/** Whole runs: any sequence of enable, rotate, shred and encrypt, by any of the managers. */
module KeyRuns {
  import opened Wrappers
  import opened Envelope
  import opened KeyManagers

  datatype Step =
    | Enable(b: Bucket, dek: Bytes, nonce: Bytes)
    | Rotate(b: Bucket, dek: Bytes, nonce: Bytes)
    | Shred(b: Bucket)
    | Encrypt(b: Bucket, p: Bytes, nonce: Bytes)

  // A blob that was produced, and whether its bucket has been shredded since.
  datatype Blob = Blob(b: Bucket, version: nat, dek: Bytes, p: Bytes, nonce: Bytes, shredded: bool)

  // The store, every data key ever drawn, and every blob ever produced.
  datatype World = World(keys: Keys, drawn: set<Bytes>, blobs: seq<Blob>)

  datatype Cipher = Cipher(a: Aead, kek: Bytes)

  ghost predicate Allowed(c: Cipher, drawn: set<Bytes>, step: Step) {
    match step
    case Enable(_, dek, nonce) => |dek| == KEY_LEN && |nonce| == c.a.nonceSize && dek !in drawn
    case Rotate(_, dek, nonce) => |dek| == KEY_LEN && |nonce| == c.a.nonceSize && dek !in drawn
    case Shred(_) => true
    case Encrypt(b, p, nonce) => |nonce| == c.a.nonceSize
  }

  ghost function Marked(blobs: seq<Blob>, b: Bucket): (r: seq<Blob>)
    ensures |r| == |blobs|
  {
    seq(|blobs|, i requires 0 <= i < |blobs| => if blobs[i].b == b then blobs[i].(shredded := true) else blobs[i])
  }

  ghost function Next(c: Cipher, w: World, step: Step): World {
    match step
    case Enable(b, dek, nonce) =>
      w.(keys := Enabled(w.keys, b, Wrap(c.a, c.kek, nonce, dek)), drawn := w.drawn + {dek})
    case Rotate(b, dek, nonce) =>
      w.(keys := Rotated(w.keys, b, Wrap(c.a, c.kek, nonce, dek)), drawn := w.drawn + {dek})
    case Shred(b) =>
      w.(keys := Delete(w.keys, b), blobs := Marked(w.blobs, b))
    case Encrypt(b, p, nonce) =>
      if b in w.keys.current && DekOf(c.a, c.kek, w.keys, b, w.keys.current[b]).Some? then
        var v := w.keys.current[b];
        w.(blobs := w.blobs + [Blob(b, v, DekOf(c.a, c.kek, w.keys, b, v).value, p, nonce, false)])
      else w
  }

  ghost predicate Legal(c: Cipher, w: World, steps: seq<Step>)
    decreases |steps|
  {
    steps == [] || (Allowed(c, w.drawn, steps[0]) && Legal(c, Next(c, w, steps[0]), steps[1..]))
  }

  ghost function Run(c: Cipher, w: World, steps: seq<Step>): World
    decreases |steps|
  {
    if steps == [] then w else Run(c, Next(c, w, steps[0]), steps[1..])
  }

  ghost predicate Good(c: Cipher) { Ideal(c.a) && |c.kek| == KEY_LEN }

  // A stored key has a version up to the current one and unwraps to a key that was drawn;
  // the current version is stored, and no two stored keys of a bucket are equal.
  ghost predicate KeyOk(c: Cipher, w: World, b: Bucket, v: nat) {
    Get(w.keys, b, v).Some? ==>
      && b in w.keys.current && 1 <= v <= w.keys.current[b]
      && var dek := DekOf(c.a, c.kek, w.keys, b, v);
         dek.Some? && dek.value in w.drawn && |dek.value| == KEY_LEN
  }

  ghost predicate KeysOk(c: Cipher, w: World) {
    && (forall b, v :: KeyOk(c, w, b, v))
    && (forall b :: b in w.keys.current ==> Get(w.keys, b, w.keys.current[b]).Some?)
    && (forall b, v, v' :: v != v' && DekOf(c.a, c.kek, w.keys, b, v).Some? ==>
          DekOf(c.a, c.kek, w.keys, b, v) != DekOf(c.a, c.kek, w.keys, b, v'))
  }

  // A blob's key is in the store under its version until its bucket is shredded, and under no
  // version of the bucket afterwards.
  ghost predicate BlobOk(c: Cipher, w: World, x: Blob) {
    && x.dek in w.drawn && |x.dek| == KEY_LEN && |x.nonce| == c.a.nonceSize
    && (!x.shredded ==> DekOf(c.a, c.kek, w.keys, x.b, x.version) == Some(x.dek))
    && (x.shredded ==> forall v :: DekOf(c.a, c.kek, w.keys, x.b, v) != Some(x.dek))
  }

  ghost predicate Inv(c: Cipher, w: World) {
    KeysOk(c, w) && forall i :: 0 <= i < |w.blobs| ==> BlobOk(c, w, w.blobs[i])
  }

  // The effect of a new version on every lookup: that version of that bucket, nothing else.
  ghost predicate Replaces(c: Cipher, k: Keys, k': Keys, b: Bucket, v: nat, dek: Bytes) {
    && k'.current == k.current[b := v]
    && (forall b', v' :: Get(k', b', v').Some? <==> (b' == b && v' == v) || Get(k, b', v').Some?)
    && (forall b', v' ::
          DekOf(c.a, c.kek, k', b', v') == if b' == b && v' == v then Some(dek) else DekOf(c.a, c.kek, k, b', v'))
  }

  lemma SetCurrentReplaces(c: Cipher, k: Keys, b: Bucket, v: nat, nonce: Bytes, dek: Bytes)
    requires Good(c) && |nonce| == c.a.nonceSize
    ensures Replaces(c, k, SetCurrent(k, b, v, Wrap(c.a, c.kek, nonce, dek)), b, v, dek)
  {
    hide Ideal, Unwrap, Wrap;
    UnwrapWrap(c.a, c.kek, nonce, dek);
  }

  lemma NewKeysOk(c: Cipher, w: World, w': World, b: Bucket, v: nat, dek: Bytes)
    requires KeysOk(c, w) && |dek| == KEY_LEN && dek !in w.drawn && w'.drawn == w.drawn + {dek}
    requires v == if b in w.keys.current then w.keys.current[b] + 1 else 1
    requires Replaces(c, w.keys, w'.keys, b, v, dek)
    ensures KeysOk(c, w')
  {
    hide DekOf, Get;
    forall b', v' ensures KeyOk(c, w', b', v') { assert KeyOk(c, w, b', v'); }
    forall b', v1, v2 | v1 != v2 && DekOf(c.a, c.kek, w'.keys, b', v1).Some?
      ensures DekOf(c.a, c.kek, w'.keys, b', v1) != DekOf(c.a, c.kek, w'.keys, b', v2)
    {
      Drawn(c, w, b', v1);
      Drawn(c, w, b', v2);
    }
  }

  lemma Drawn(c: Cipher, w: World, b: Bucket, v: nat)
    requires KeysOk(c, w)
    ensures DekOf(c.a, c.kek, w.keys, b, v).Some? ==> DekOf(c.a, c.kek, w.keys, b, v).value in w.drawn
  {
    assert KeyOk(c, w, b, v);
  }

  lemma NewVersionOk(c: Cipher, w: World, b: Bucket, v: nat, nonce: Bytes, dek: Bytes)
    requires Good(c) && Inv(c, w) && |nonce| == c.a.nonceSize && |dek| == KEY_LEN && dek !in w.drawn
    requires v == if b in w.keys.current then w.keys.current[b] + 1 else 1
    ensures Inv(c, w.(keys := SetCurrent(w.keys, b, v, Wrap(c.a, c.kek, nonce, dek)), drawn := w.drawn + {dek}))
  {
    hide Ideal, Unwrap, Wrap, DekOf, Get, SetCurrent, KeysOk;
    var w' := w.(keys := SetCurrent(w.keys, b, v, Wrap(c.a, c.kek, nonce, dek)), drawn := w.drawn + {dek});
    SetCurrentReplaces(c, w.keys, b, v, nonce, dek);
    NewKeysOk(c, w, w', b, v, dek);
    forall i | 0 <= i < |w'.blobs| ensures BlobOk(c, w', w'.blobs[i]) {
      var x := w.blobs[i];
      assert BlobOk(c, w, x);
      if !x.shredded && x.b == b {
        StoredVersion(c, w, b, x.version);
      }
    }
  }

  // A key that can be looked up is stored, so its version is not beyond the current one.
  lemma StoredVersion(c: Cipher, w: World, b: Bucket, v: nat)
    requires KeysOk(c, w) && DekOf(c.a, c.kek, w.keys, b, v).Some?
    ensures b in w.keys.current && 1 <= v <= w.keys.current[b]
  {
    assert KeyOk(c, w, b, v);
  }

  lemma DeleteForgets(c: Cipher, k: Keys, b: Bucket)
    ensures forall b', v :: Get(Delete(k, b), b', v) == if b' == b then None else Get(k, b', v)
    ensures forall b', v ::
      DekOf(c.a, c.kek, Delete(k, b), b', v) == if b' == b then None else DekOf(c.a, c.kek, k, b', v)
  {
    hide Unwrap;
  }

  lemma ShredOk(c: Cipher, w: World, b: Bucket)
    requires Inv(c, w)
    ensures Inv(c, Next(c, w, Shred(b)))
  {
    hide Unwrap, DekOf, Get;
    var w' := Next(c, w, Shred(b));
    DeleteForgets(c, w.keys, b);
    forall b', v ensures KeyOk(c, w', b', v) { assert KeyOk(c, w, b', v); }
    forall i | 0 <= i < |w'.blobs| ensures BlobOk(c, w', w'.blobs[i]) { assert BlobOk(c, w, w.blobs[i]); }
  }

  lemma StepKeepsInv(c: Cipher, w: World, step: Step)
    requires Good(c) && Inv(c, w) && Allowed(c, w.drawn, step)
    ensures Inv(c, Next(c, w, step))
  {
    hide Ideal, Unwrap, Wrap, DekOf, Get, SetCurrent;
    match step
    case Enable(b, dek, nonce) =>
      if b !in w.keys.current { NewVersionOk(c, w, b, 1, nonce, dek); }
      else {
        forall b', v ensures KeyOk(c, Next(c, w, step), b', v) { assert KeyOk(c, w, b', v); }
        forall i | 0 <= i < |w.blobs| ensures BlobOk(c, Next(c, w, step), w.blobs[i]) {
          assert BlobOk(c, w, w.blobs[i]);
        }
      }
    case Rotate(b, dek, nonce) =>
      NewVersionOk(c, w, b, if b in w.keys.current then w.keys.current[b] + 1 else 1, nonce, dek);
    case Shred(b) => ShredOk(c, w, b);
    case Encrypt(b, p, nonce) =>
      forall b', v ensures KeyOk(c, Next(c, w, step), b', v) { assert KeyOk(c, w, b', v); }
      forall i | 0 <= i < |Next(c, w, step).blobs| ensures BlobOk(c, Next(c, w, step), Next(c, w, step).blobs[i]) {
        if i < |w.blobs| { assert BlobOk(c, w, w.blobs[i]); } else { assert KeyOk(c, w, b, w.keys.current[b]); }
      }
  }

  lemma {:induction false} RunKeepsInv(c: Cipher, w: World, steps: seq<Step>)
    requires Good(c) && Inv(c, w) && Legal(c, w, steps)
    ensures Inv(c, Run(c, w, steps))
    decreases |steps|
  {
    if steps != [] {
      StepKeepsInv(c, w, steps[0]);
      RunKeepsInv(c, Next(c, w, steps[0]), steps[1..]);
    }
  }

  ghost function Data(c: Cipher, x: Blob): Bytes {
    SealBlob(c.a, x.dek, x.version, x.nonce, x.p)
  }

  // What decrypting a blob comes down to: opening with the key its header's version names.
  lemma DecryptBlob(c: Cipher, k: Keys, x: Blob)
    requires Good(c) && |x.nonce| == c.a.nonceSize && |x.dek| == KEY_LEN
    ensures var dek := DekOf(c.a, c.kek, k, x.b, x.version % VERSIONS);
      && (dek == Some(x.dek) ==> Decrypted(c.a, c.kek, k, x.b, Data(c, x)) == Plain(x.p))
      && (dek != Some(x.dek) ==> Decrypted(c.a, c.kek, k, x.b, Data(c, x)).Fault?)
  {
    hide Header, BigEndian, FromBigEndian, Unwrap, HasMagic;
    BlobParts(c.a, x.dek, x.version, x.nonce, x.p);
    HeaderVersion(x.version);
    var dek := DekOf(c.a, c.kek, k, x.b, x.version % VERSIONS);
    if dek.Some? && |dek.value| == KEY_LEN && dek.value != x.dek {
      assert c.a.open(dek.value, x.nonce, c.a.seal(x.dek, x.nonce, x.p)) == None;
    }
  }

  ghost const Start := World(Keys(map[], map[]), {}, [])

  /** The main theorem. From an empty store, after any run: a blob decrypts to its plaintext at
      any time before its bucket is shredded, exactly when its key version fits the 32 bits of
      the header; and never afterwards, even when a later enable starts again at version 1. */
  lemma DecryptsUntilShredded(c: Cipher, steps: seq<Step>, i: nat)
    requires Good(c) && Legal(c, Start, steps)
    requires i < |Run(c, Start, steps).blobs|
    ensures var w := Run(c, Start, steps);
      var x := w.blobs[i];
      && (!x.shredded ==> (Decrypted(c.a, c.kek, w.keys, x.b, Data(c, x)) == Plain(x.p) <==> x.version < VERSIONS))
      && (x.shredded ==> Decrypted(c.a, c.kek, w.keys, x.b, Data(c, x)).Fault?)
  {
    hide Ideal, Decrypted, SealBlob, DekOf, Get, KeysOk;
    EmptyOk(c);
    RunKeepsInv(c, Start, steps);
    var w := Run(c, Start, steps);
    var x := w.blobs[i];
    assert BlobOk(c, w, x);
    DecryptBlob(c, w.keys, x);
    if !x.shredded && x.version >= VERSIONS {
      WrapsToAnother(c, w, x);
    }
  }

  lemma EmptyOk(c: Cipher)
    ensures Inv(c, Start)
  {
  }

  // Past 2^32 rotations the header names another version, which has another key or none.
  lemma WrapsToAnother(c: Cipher, w: World, x: Blob)
    requires KeysOk(c, w) && DekOf(c.a, c.kek, w.keys, x.b, x.version) == Some(x.dek) && x.version >= VERSIONS
    ensures DekOf(c.a, c.kek, w.keys, x.b, x.version % VERSIONS) != Some(x.dek)
  {
    hide Unwrap;
    assert x.version % VERSIONS < VERSIONS;
  }

  ghost predicate Ready(c: Cipher, store: MemKeyStore, ms: seq<Manager>)
    reads ms
  {
    forall i :: 0 <= i < |ms| ==> ms[i].Valid() && ms[i].a == c.a && ms[i].kek == c.kek && ms[i].store == store
  }

  // The blobs are those of the run, in order.
  ghost predicate Produced(c: Cipher, w: World, out: seq<Bytes>) {
    |out| == |w.blobs| && forall i :: 0 <= i < |out| ==> out[i] == Data(c, w.blobs[i])
  }

  /** Managers that share a store, each with a cache of its own, taking turns in any order:
      the store and the blobs are those of the run, as if there were no caches. */
  method Drive(c: Cipher, store: MemKeyStore, ms: seq<Manager>, steps: seq<Step>, who: seq<nat>)
    returns (out: seq<Bytes>)
    requires Good(c) && Ready(c, store, ms) && store.keys == Start.keys && Legal(c, Start, steps)
    requires |who| == |steps| && forall i :: 0 <= i < |who| ==> who[i] < |ms|
    modifies store, ms
    ensures Ready(c, store, ms)
    ensures store.keys == Run(c, Start, steps).keys && Produced(c, Run(c, Start, steps), out)
  {
    hide Ideal, DekOf, Get, SealBlob, Inv;
    out := [];
    ghost var w := Start;
    EmptyOk(c);
    assert steps[0..] == steps;
    for i := 0 to |steps|
      invariant Inv(c, w) && Legal(c, w, steps[i..]) && Run(c, w, steps[i..]) == Run(c, Start, steps)
      invariant Ready(c, store, ms) && store.keys == w.keys && Produced(c, w, out)
    {
      assert steps[i..][1..] == steps[i + 1..];
      StepKeepsInv(c, w, steps[i]);
      var more := Turn(c, store, ms, who[i], steps[i], w);
      w := Next(c, w, steps[i]);
      out := out + more;
    }
    assert steps[|steps|..] == [];
  }

  // One turn: what it adds to the blobs.
  method Turn(c: Cipher, store: MemKeyStore, ms: seq<Manager>, i: nat, step: Step, ghost w: World)
    returns (more: seq<Bytes>)
    requires Good(c) && Ready(c, store, ms) && i < |ms| && store.keys == w.keys && Inv(c, w)
    requires Allowed(c, w.drawn, step)
    modifies store, ms
    ensures Ready(c, store, ms) && store.keys == Next(c, w, step).keys
    ensures forall out :: Produced(c, w, out) ==> Produced(c, Next(c, w, step), out + more)
  {
    hide Ideal, DekOf, Get, SealBlob;
    more := [];
    match step {
      case Enable(b, dek, nonce) => ms[i].EnableBucket(b, dek, nonce);
      case Rotate(b, dek, nonce) => ms[i].Rotate(b, dek, nonce);
      case Shred(b) => ms[i].ShredBucket(b);
      case Encrypt(b, p, nonce) =>
        CurrentKey(c, w, b);
        var ans, sealed := ms[i].Encrypt(b, p, nonce);
        if sealed { more := [ans.data]; }
    }
  }

  // A bucket with a current version has a usable key for it.
  lemma CurrentKey(c: Cipher, w: World, b: Bucket)
    requires Inv(c, w)
    ensures b in w.keys.current ==>
      var dek := DekOf(c.a, c.kek, w.keys, b, w.keys.current[b]); dek.Some? && |dek.value| == KEY_LEN
  {
    hide Unwrap;
    if b in w.keys.current { assert KeyOk(c, w, b, w.keys.current[b]); }
  }

  /** Any of the managers then reads any of the blobs: its plaintext while its bucket was not
      shredded since and its version fits the header, never after the shred. */
  method DriveAndDecrypt(c: Cipher, store: MemKeyStore, ms: seq<Manager>, steps: seq<Step>, who: seq<nat>, i: nat,
                         b: Bucket, reader: nat)
    returns (ans: Option<Answer>)
    requires Good(c) && Ready(c, store, ms) && store.keys == Start.keys && Legal(c, Start, steps)
    requires |who| == |steps| && (forall i :: 0 <= i < |who| ==> who[i] < |ms|) && reader < |ms|
    requires i < |Run(c, Start, steps).blobs| ==> Run(c, Start, steps).blobs[i].b == b
    modifies store, ms
    ensures ans.Some? <==> i < |Run(c, Start, steps).blobs|
    ensures ans.Some? ==> var x := Run(c, Start, steps).blobs[i];
      if x.shredded then ans.value.Fault? else (ans.value == Plain(x.p) <==> x.version < VERSIONS)
  {
    hide Ideal, SealBlob, Decrypted, Legal, Run;
    var out := Drive(c, store, ms, steps, who);
    if i >= |out| { return None; }
    DecryptsUntilShredded(c, steps, i);
    var a := ms[reader].Decrypt(b, out[i]);
    return Some(a);
  }
}

/** The key store over bucket configurations behaves as the one in memory, as long as nothing
    but the manager writes the configuration. */
module ConfigKeyStore {
  import opened Wrappers
  import opened Envelope
  import opened KeyManagers

  datatype Config = Config(keyVersion: nat, deks: map<nat, Bytes>, algorithm: string, shredded: bool)

  type Configs = map<Bucket, Config>

  function Load(cs: Configs, b: Bucket): Config {
    if b in cs then cs[b] else Config(0, map[], "", false)
  }

  function Current(cs: Configs, b: Bucket): Option<nat> {
    var cfg := Load(cs, b);
    if cfg.keyVersion == 0 || cfg.algorithm != "AES256" then None else Some(cfg.keyVersion)
  }

  function Lookup(cs: Configs, b: Bucket, v: nat): Option<Bytes> {
    var cfg := Load(cs, b);
    if v in cfg.deks then Some(cfg.deks[v]) else None
  }

  // Configured to encrypt, with no key here yet.
  predicate Pending(cs: Configs, b: Bucket) {
    Load(cs, b).algorithm == "AES256" && Load(cs, b).keyVersion == 0
  }

  function StoreCurrent(cs: Configs, b: Bucket, v: nat, w: Bytes): Configs {
    var cfg := Load(cs, b);
    cs[b := Config(v, cfg.deks[v := w], if cfg.algorithm == "" then "AES256" else cfg.algorithm, false)]
  }

  function Erase(cs: Configs, b: Bucket): Configs {
    var cfg := Load(cs, b);
    cs[b := Config(0, map[], if cfg.algorithm == "AES256" then "" else cfg.algorithm, true)]
  }

  // The keys a configuration store holds, as the store in memory would hold them.
  function KeysOf(cs: Configs): Keys {
    Keys(map b | b in cs && Current(cs, b).Some? :: Current(cs, b).value,
         map b | b in cs && cs[b].deks != map[] :: cs[b].deks)
  }

  // Only the manager has written the algorithms.
  ghost predicate Managed(cs: Configs) {
    forall b :: ManagedAt(cs, b)
  }

  ghost predicate ManagedAt(cs: Configs, b: Bucket) {
    Load(cs, b).algorithm == if Load(cs, b).keyVersion == 0 then "" else "AES256"
  }

  lemma LookupIsGet(cs: Configs, b: Bucket, v: nat)
    ensures Get(KeysOf(cs), b, v) == Lookup(cs, b, v)
    ensures (b in KeysOf(cs).current <==> Current(cs, b).Some?)
    ensures Current(cs, b).Some? ==> KeysOf(cs).current[b] == Current(cs, b).value
  {
  }

  // The two parts of KeysOf, bucket by bucket.
  lemma KeysOfAt(cs: Configs, b: Bucket)
    ensures b in KeysOf(cs).current <==> Current(cs, b).Some?
    ensures Current(cs, b).Some? ==> KeysOf(cs).current[b] == Current(cs, b).value
    ensures b in KeysOf(cs).versions <==> Load(cs, b).deks != map[]
    ensures Load(cs, b).deks != map[] ==> KeysOf(cs).versions[b] == Load(cs, b).deks
  {
  }

  lemma SameKeys(k: Keys, k': Keys)
    requires forall b :: (b in k.current <==> b in k'.current) && (b in k.current ==> k.current[b] == k'.current[b])
    requires forall b ::
      (b in k.versions <==> b in k'.versions) && (b in k.versions ==> k.versions[b] == k'.versions[b])
    ensures k == k'
  {
    assert k.current == k'.current && k.versions == k'.versions;
  }

  lemma StoreCurrentMaps(cs: Configs, b: Bucket, v: nat, w: Bytes)
    requires Managed(cs) && v >= 1
    ensures Managed(StoreCurrent(cs, b, v, w)) && KeysOf(StoreCurrent(cs, b, v, w)) == SetCurrent(KeysOf(cs), b, v, w)
  {
    hide KeysOf;
    var cs' := StoreCurrent(cs, b, v, w);
    KeysOfAt(cs, b);
    assert v in Load(cs', b).deks;
    forall b' ensures ManagedAt(cs', b') { assert ManagedAt(cs, b'); }
    var k, k' := KeysOf(cs'), SetCurrent(KeysOf(cs), b, v, w);
    forall b'
      ensures (b' in k.current <==> b' in k'.current) && (b' in k.current ==> k.current[b'] == k'.current[b'])
      ensures (b' in k.versions <==> b' in k'.versions) && (b' in k.versions ==> k.versions[b'] == k'.versions[b'])
    {
      KeysOfAt(cs, b');
      KeysOfAt(cs', b');
      assert ManagedAt(cs, b');
    }
    SameKeys(k, k');
  }

  lemma EraseMaps(cs: Configs, b: Bucket)
    requires Managed(cs)
    ensures Managed(Erase(cs, b)) && KeysOf(Erase(cs, b)) == Delete(KeysOf(cs), b)
  {
    hide KeysOf;
    var cs' := Erase(cs, b);
    forall b' ensures ManagedAt(cs', b') { assert ManagedAt(cs, b'); }
    var k, k' := KeysOf(cs'), Delete(KeysOf(cs), b);
    forall b'
      ensures (b' in k.current <==> b' in k'.current) && (b' in k.current ==> k.current[b'] == k'.current[b'])
      ensures (b' in k.versions <==> b' in k'.versions) && (b' in k.versions ==> k.versions[b'] == k'.versions[b'])
    {
      KeysOfAt(cs, b');
      KeysOfAt(cs', b');
      assert ManagedAt(cs, b');
    }
    SameKeys(k, k');
  }

  // --- the manager's operations over configurations ---

  function EnableOn(cs: Configs, b: Bucket, w: Bytes): Configs {
    if Current(cs, b).Some? then cs else StoreCurrent(cs, b, 1, w)
  }

  function NextOn(cs: Configs, b: Bucket): nat {
    match Current(cs, b) case Some(v) => v + 1 case None => 1
  }

  function RotateOn(cs: Configs, b: Bucket, w: Bytes): Configs {
    StoreCurrent(cs, b, NextOn(cs, b), w)
  }

  function DecryptedOn(a: Aead, kek: Bytes, cs: Configs, b: Bucket, data: Bytes): Answer {
    match FrontOf(data)
    case NotABlob => Plain(data)
    case Broken(why) => Fault(why)
    case Sealed(v) => OpenUnder(a, kek, Lookup(cs, b, v), data)
  }

  // Every operation on a configuration store that only the manager writes is the operation
  // on the keys it holds, and no bucket is ever pending; in particular not after a shred.
  lemma OperationsAgree(a: Aead, kek: Bytes, cs: Configs, b: Bucket, w: Bytes, data: Bytes)
    requires Managed(cs)
    ensures KeysOf(EnableOn(cs, b, w)) == Enabled(KeysOf(cs), b, w) && Managed(EnableOn(cs, b, w))
    ensures KeysOf(RotateOn(cs, b, w)) == Rotated(KeysOf(cs), b, w) && Managed(RotateOn(cs, b, w))
    ensures KeysOf(Erase(cs, b)) == Delete(KeysOf(cs), b) && Managed(Erase(cs, b))
    ensures DecryptedOn(a, kek, cs, b, data) == Decrypted(a, kek, KeysOf(cs), b, data)
    ensures !Pending(cs, b)
  {
    hide StoreCurrent, Erase, KeysOf, SetCurrent, Get, Lookup;
    assert ManagedAt(cs, b);
    LookupIsGet(cs, b, 0);
    StoreCurrentMaps(cs, b, NextOn(cs, b), w);
    EraseMaps(cs, b);
    var f := FrontOf(data);
    if f.Sealed? { LookupIsGet(cs, b, f.version); }
  }

  // A bucket is told to encrypt and has no key: not after a key was stored, which also ends a
  // shred, nor after a shred, whatever it was before.
  lemma PendingExactly(cs: Configs, b: Bucket, v: nat, w: Bytes)
    requires v >= 1
    ensures Pending(WithAlgorithm(cs, b, "AES256"), b) <==> Load(cs, b).keyVersion == 0
    ensures var on := StoreCurrent(cs, b, v, w); !Pending(on, b) && !Load(on, b).shredded
    ensures var off := Erase(cs, b);
      && !Pending(off, b) && Load(off, b).shredded && Current(off, b).None?
      && (Load(off, b).algorithm == if Load(cs, b).algorithm == "AES256" then "" else Load(cs, b).algorithm)
      && forall x :: Lookup(off, b, x).None?
  {
  }

  // --- keys lost when something else changes the algorithm ---

  // Every stored key of the bucket is still what it was.
  ghost predicate Kept(cs: Configs, cs': Configs, b: Bucket) {
    forall v :: Lookup(cs, b, v).Some? ==> Lookup(cs', b, v) == Lookup(cs, b, v)
  }

  // Enabling keeps every key if and only if there is a current version or no other key 1.
  lemma EnableKeepsKeys(cs: Configs, b: Bucket, w: Bytes)
    ensures Kept(cs, EnableOn(cs, b, w), b) <==>
      Current(cs, b).Some? || Lookup(cs, b, 1).None? || Lookup(cs, b, 1) == Some(w)
  {
    assert Current(cs, b).None? ==> Lookup(EnableOn(cs, b, w), b, 1) == Some(w);
  }

  lemma RotateKeepsKeys(cs: Configs, b: Bucket, w: Bytes)
    ensures Kept(cs, RotateOn(cs, b, w), b) <==>
      Lookup(cs, b, NextOn(cs, b)).None? || Lookup(cs, b, NextOn(cs, b)) == Some(w)
  {
    assert Lookup(RotateOn(cs, b, w), b, NextOn(cs, b)) == Some(w);
  }

  // The manager numbers the versions from 1 without gaps.
  ghost predicate Gapless(cs: Configs) {
    forall b, v: nat :: Lookup(cs, b, v).Some? <==> 1 <= v <= Load(cs, b).keyVersion
  }

  function WithAlgorithm(cs: Configs, b: Bucket, algorithm: string): Configs {
    cs[b := Load(cs, b).(algorithm := algorithm)]
  }

  lemma OperationsKeepGapless(cs: Configs, b: Bucket, w: Bytes)
    requires Managed(cs) && Gapless(cs)
    ensures Gapless(EnableOn(cs, b, w)) && Gapless(RotateOn(cs, b, w)) && Gapless(Erase(cs, b))
  {
    assert ManagedAt(cs, b);
    forall b', v: nat
      ensures Lookup(EnableOn(cs, b, w), b', v).Some? <==> 1 <= v <= Load(EnableOn(cs, b, w), b').keyVersion
      ensures Lookup(RotateOn(cs, b, w), b', v).Some? <==> 1 <= v <= Load(RotateOn(cs, b, w), b').keyVersion
      ensures Lookup(Erase(cs, b), b', v).Some? <==> 1 <= v <= Load(Erase(cs, b), b').keyVersion
    {
      assert Lookup(cs, b', v).Some? <==> 1 <= v <= Load(cs, b').keyVersion;
    }
  }

  /** Whatever else writes the algorithm of a bucket whose keys the manager made, as removing
      the default encryption does: the next enable or rotate keeps every key if and only if
      the algorithm is AES256 or there is no key. A new wrapped key is never an old one. */
  lemma OtherAlgorithmLosesKey(cs: Configs, b: Bucket, algorithm: string, w: Bytes)
    requires Gapless(cs) && Lookup(cs, b, 1) != Some(w)
    ensures var cs' := WithAlgorithm(cs, b, algorithm);
      && (Kept(cs', EnableOn(cs', b, w), b) <==> algorithm == "AES256" || Load(cs, b).keyVersion == 0)
      && (Kept(cs', RotateOn(cs', b, w), b) <==> algorithm == "AES256" || Load(cs, b).keyVersion == 0)
  {
    var cs', n := WithAlgorithm(cs, b, algorithm), Load(cs, b).keyVersion;
    EnableKeepsKeys(cs', b, w);
    RotateKeepsKeys(cs', b, w);
    assert Lookup(cs', b, 1) == Lookup(cs, b, 1) && Lookup(cs', b, n + 1) == Lookup(cs, b, n + 1);
    assert Lookup(cs, b, n + 1).None?;
    assert Lookup(cs, b, 1).Some? <==> 1 <= n;
    assert Current(cs', b) == if n == 0 || algorithm != "AES256" then None else Some(n);
  }

  // With another algorithm in its place, rather than none, the bucket does not even recover:
  // there is still no current version, and every rotation overwrites key 1 once more.
  lemma {:induction false} NeverCurrent(cs: Configs, b: Bucket, ws: seq<Bytes>)
    requires Load(cs, b).algorithm != "" && Load(cs, b).algorithm != "AES256" && ws != []
    ensures Current(Rotations(cs, b, ws), b) == None && Lookup(Rotations(cs, b, ws), b, 1) == Some(ws[|ws| - 1])
    ensures Load(Rotations(cs, b, ws), b).algorithm == Load(cs, b).algorithm
    decreases |ws|
  {
    if |ws| > 1 { NeverCurrent(cs, b, ws[..|ws| - 1]); } else { assert ws[..0] == []; }
  }

  function Rotations(cs: Configs, b: Bucket, ws: seq<Bytes>): Configs
    decreases |ws|
  {
    if ws == [] then cs else RotateOn(Rotations(cs, b, ws[..|ws| - 1]), b, ws[|ws| - 1])
  }
}

/** Whole runs over the configuration store. */
module ConfigRuns {
  import opened Wrappers
  import opened Envelope
  import opened KeyManagers
  import opened KeyRuns
  import opened ConfigKeyStore

  datatype Shop = Shop(cs: Configs, drawn: set<Bytes>, blobs: seq<Blob>)

  ghost function DekOn(c: Cipher, cs: Configs, b: Bucket, v: nat): Option<Bytes> {
    match Lookup(cs, b, v) case None => None case Some(w) => Unwrap(c.a, c.kek, w)
  }

  ghost function NextShop(c: Cipher, s: Shop, step: Step): Shop {
    match step
    case Enable(b, dek, nonce) => s.(cs := EnableOn(s.cs, b, Wrap(c.a, c.kek, nonce, dek)), drawn := s.drawn + {dek})
    case Rotate(b, dek, nonce) => s.(cs := RotateOn(s.cs, b, Wrap(c.a, c.kek, nonce, dek)), drawn := s.drawn + {dek})
    case Shred(b) => s.(cs := Erase(s.cs, b), blobs := Marked(s.blobs, b))
    case Encrypt(b, p, nonce) =>
      if Current(s.cs, b).Some? && DekOn(c, s.cs, b, Current(s.cs, b).value).Some? then
        var v := Current(s.cs, b).value;
        s.(blobs := s.blobs + [Blob(b, v, DekOn(c, s.cs, b, v).value, p, nonce, false)])
      else s
  }

  ghost predicate LegalShop(c: Cipher, s: Shop, steps: seq<Step>)
    decreases |steps|
  {
    steps == [] || (Allowed(c, s.drawn, steps[0]) && LegalShop(c, NextShop(c, s, steps[0]), steps[1..]))
  }

  ghost function RunShop(c: Cipher, s: Shop, steps: seq<Step>): Shop
    decreases |steps|
  {
    if steps == [] then s else RunShop(c, NextShop(c, s, steps[0]), steps[1..])
  }

  ghost function AsWorld(s: Shop): World { World(KeysOf(s.cs), s.drawn, s.blobs) }

  lemma StepMaps(c: Cipher, s: Shop, step: Step)
    requires Managed(s.cs)
    ensures Managed(NextShop(c, s, step).cs) && AsWorld(NextShop(c, s, step)) == Next(c, AsWorld(s), step)
  {
    hide EnableOn, RotateOn, Erase, KeysOf, Managed, Lookup, Get, Current, Enabled, Rotated, Delete, Unwrap, Wrap;
    hide Marked;
    var b := step.b;
    match step
    case Enable(_, dek, nonce) => OperationsAgree(c.a, c.kek, s.cs, b, Wrap(c.a, c.kek, nonce, dek), []);
    case Rotate(_, dek, nonce) => OperationsAgree(c.a, c.kek, s.cs, b, Wrap(c.a, c.kek, nonce, dek), []);
    case Shred(_) => OperationsAgree(c.a, c.kek, s.cs, b, [], []);
    case Encrypt(_, p, nonce) => LookupIsGet(s.cs, b, Current(s.cs, b).GetOr(0));
  }

  lemma {:induction false} RunMaps(c: Cipher, s: Shop, steps: seq<Step>)
    requires Managed(s.cs) && LegalShop(c, s, steps)
    ensures Legal(c, AsWorld(s), steps) && Managed(RunShop(c, s, steps).cs)
    ensures AsWorld(RunShop(c, s, steps)) == Run(c, AsWorld(s), steps)
    decreases |steps|
  {
    hide Managed, KeysOf;
    if steps != [] {
      StepMaps(c, s, steps[0]);
      RunMaps(c, NextShop(c, s, steps[0]), steps[1..]);
    }
  }

  /** The same promise for the store the server uses: from empty configurations, over any run
      of manager operations, a blob decrypts before its bucket is shredded if and only if its
      version fits the header, and never after. */
  lemma StoreDecryptsUntilShredded(c: Cipher, steps: seq<Step>, i: nat)
    requires Good(c) && LegalShop(c, Shop(map[], {}, []), steps)
    requires i < |RunShop(c, Shop(map[], {}, []), steps).blobs|
    ensures var s := RunShop(c, Shop(map[], {}, []), steps);
      var x := s.blobs[i];
      && (!x.shredded ==> (DecryptedOn(c.a, c.kek, s.cs, x.b, Data(c, x)) == Plain(x.p) <==> x.version < VERSIONS))
      && (x.shredded ==> DecryptedOn(c.a, c.kek, s.cs, x.b, Data(c, x)).Fault?)
  {
    hide Ideal, Decrypted, DecryptedOn, SealBlob, Run, RunShop, Legal, LegalShop;
    var s0 := Shop(map[], {}, []);
    assert AsWorld(s0) == Start;
    RunMaps(c, s0, steps);
    var s := RunShop(c, s0, steps);
    var x := s.blobs[i];
    DecryptsUntilShredded(c, steps, i);
    OperationsAgree(c.a, c.kek, s.cs, x.b, [], Data(c, x));
  }

  lemma {:induction false} RunGapless(c: Cipher, s: Shop, steps: seq<Step>)
    requires Managed(s.cs) && Gapless(s.cs) && LegalShop(c, s, steps)
    ensures Gapless(RunShop(c, s, steps).cs)
    decreases |steps|
  {
    hide Managed, KeysOf, Gapless, EnableOn, RotateOn, Erase, Lookup;
    if steps != [] {
      var step := steps[0];
      StepMaps(c, s, step);
      var w := if step.Enable? || step.Rotate? then Wrap(c.a, c.kek, step.nonce, step.dek) else [];
      OperationsKeepGapless(s.cs, step.b, w);
      RunGapless(c, NextShop(c, s, step), steps[1..]);
    }
  }

  /** After any run of the manager, let something else write the algorithm of a bucket: the
      next enable or rotate, with a key that is new, keeps every key the run has stored if
      and only if that algorithm is AES256 or the run has left the bucket without a key. */
  lemma RunThenOtherAlgorithm(c: Cipher, steps: seq<Step>, b: Bucket, algorithm: string, w: Bytes)
    requires LegalShop(c, Shop(map[], {}, []), steps)
    requires Lookup(RunShop(c, Shop(map[], {}, []), steps).cs, b, 1) != Some(w)
    ensures var cs := RunShop(c, Shop(map[], {}, []), steps).cs;
      var cs' := WithAlgorithm(cs, b, algorithm);
      && (Kept(cs, EnableOn(cs', b, w), b) <==> algorithm == "AES256" || Load(cs, b).keyVersion == 0)
      && (Kept(cs, RotateOn(cs', b, w), b) <==> algorithm == "AES256" || Load(cs, b).keyVersion == 0)
  {
    hide RunShop, LegalShop, EnableOn, RotateOn;
    RunGapless(c, Shop(map[], {}, []), steps);
    var cs := RunShop(c, Shop(map[], {}, []), steps).cs;
    var cs' := WithAlgorithm(cs, b, algorithm);
    OtherAlgorithmLosesKey(cs, b, algorithm, w);
    assert forall v :: Lookup(cs, b, v) == Lookup(cs', b, v);
  }
}
