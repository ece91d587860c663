// The commit protocol of internal/erasure/engine.go for one key: coded puts, plain puts,
// deletes, heal passes and reads as step-by-step operations on shared storage.

module CommitProtocol {
  import opened Wrappers
  import opened ColumnCode
  import opened Layout

  // One coded write: its generation directory, its code, the object, and what its meta.json
  // lets a reader check: shard i as a whole, and the stripe that holds offset x of shard i.
  // Generation 0 is the original layout without one.
  datatype Version = Version(
    gen: nat, c: Code, obj: seq<byte>, check: (nat, seq<byte>) -> bool, pass: (nat, seq<byte>, nat) -> bool)

  ghost function Total(v: Version): nat { v.c.k + v.c.m }

  ghost function Shard(v: Version, i: nat): seq<byte>
    requires Lawful(v.c) && i < Total(v)
  {
    ShardsOf(v.c, v.obj)[i]
  }

  ghost predicate WellMade(v: Version) {
    && Lawful(v.c) && (forall i :: 0 <= i < Total(v) ==> v.check(i, Shard(v, i)))
    && forall i, x :: 0 <= i < Total(v) && 0 <= x < |Shard(v, i)| ==> v.pass(i, Shard(v, i), x)
  }

  // Damage shows: a byte whose stripe passes is the byte that was written.
  ghost predicate Telling(v: Version, i: nat, data: seq<byte>)
    requires Lawful(v.c) && i < Total(v)
  {
    forall x :: 0 <= x < |data| && v.pass(i, data, x) ==> x < |Shard(v, i)| && data[x] == Shard(v, i)[x]
  }

  type Path = (nat, nat)

  /** Storage for the key, followed by history that no operation reads: the versions ever
      begun, the generations meta.json has named, the shards hit by damage and not rewritten
      since, and the plain contents ever stored. */
  datatype World = World(
    meta: Option<Version>, shards: map<Path, seq<byte>>, plain: Option<seq<byte>>,
    versions: map<nat, Version>, published: set<nat>, damaged: set<Path>, plains: set<seq<byte>>)

  // How a storage call went: done, refused without effect, or reported as failed although it
  // took effect (a failing directory sync after the rename, internal/storage/filesystem.go).
  // The last can happen to puts only; for other calls it is the same as refused.
  datatype Outcome = Fine | Fails | FailsLate

  datatype Then = DropPlainCopy | Finish | DeletePlain

  datatype Stage = Fast | Slow(exclude: int, live: bool, fast: seq<Option<seq<byte>>>) | Last(live: bool)

  // Where a running operation stands.
  datatype Op =
    | Writing(v: Version, i: nat) | Aborting(v: Version, i: nat, n: nat) | ReadPrev(v: Version)
    | Switch(v: Version, prev: Option<Version>)
    | Retire(v: Version, i: nat, next: Then, ok: bool) | DropPlain
    | WritePlain(data: seq<byte>) | PlainCheck | PlainReadPrev | PlainDropMeta(prev: Option<Version>)
    | DelCheck | DelReadPrev | DelDropMeta(prev: Option<Version>) | DelPlain(ok: bool)
    | HealMeta | HealRead(v: Version, got: seq<Option<seq<byte>>>)
    | HealWrite(v: Version, full: seq<seq<byte>>, got: seq<Option<seq<byte>>>, j: nat)
    | GetCheck | GetPlain | GetMeta(retry: bool) | GetRetry(v: Version)
    | GetOpen(v: Version, stage: Stage, got: seq<Option<seq<byte>>>, retry: bool)
    | Got(src: Option<Version>, bytes: seq<byte>) | GetFailed | Done(ok: bool)

  // --- storage calls ---

  ghost function PutShard(w: World, v: Version, i: nat, data: seq<byte>): World {
    w.(shards := w.shards[(v.gen, i) := data], damaged := w.damaged - {(v.gen, i)})
  }

  ghost function DeleteShard(w: World, v: Version, i: nat): World {
    w.(shards := w.shards - {(v.gen, i)})
  }

  ghost function PutMeta(w: World, v: Version): World {
    w.(meta := Some(v), published := w.published + {v.gen})
  }

  ghost function PutPlain(w: World, data: seq<byte>): World {
    w.(plain := Some(data), plains := w.plains + {data})
  }

  // ObjectExists on meta.json: a check that fails for any reason answers that it is not there.
  ghost predicate Seen(w: World, out: Outcome) { out == Fine && w.meta.Some? }

  // --- coded put ---

  ghost function StepPut(w: World, op: Op, out: Outcome): (r: (World, Op))
    requires op.Writing? || op.Aborting? || op.ReadPrev? || op.Switch? || op.DropPlain?
    requires op.Writing? ==> Lawful(op.v.c) && op.i < Total(op.v)
  {
    match op
    case Writing(v, i) =>
      var w' := if out == Fails then w else PutShard(w, v, i, Shard(v, i));
      (w', if out != Fine then Aborting(v, 0, i + 1) else if i + 1 == Total(v) then ReadPrev(v) else Writing(v, i + 1))
    case Aborting(v, i, n) =>
      (if out == Fine then DeleteShard(w, v, i) else w, if i + 1 >= n then Done(false) else Aborting(v, i + 1, n))
    case ReadPrev(v) =>
      (w, Switch(v, if out == Fine then w.meta else None))
    case Switch(v, prev) =>
      if out == Fine then
        (PutMeta(w, v),
         if prev.Some? && prev.value.gen != v.gen then Retire(prev.value, 0, DropPlainCopy, true) else DropPlain)
      else (if out == FailsLate then PutMeta(w, v) else w, Aborting(v, 0, Total(v)))
    case DropPlain =>
      (if out == Fine then w.(plain := None) else w, Done(true))
  }

  // --- removing a superseded version: removeShards, and what follows it ---

  ghost function StepRetire(w: World, op: Op, out: Outcome): (r: (World, Op))
    requires op.Retire?
  {
    var w' := if out == Fine then DeleteShard(w, op.v, op.i) else w;
    var ok := op.ok && (op.next == DeletePlain ==> out == Fine);
    if op.i + 1 < Total(op.v) then (w', Retire(op.v, op.i + 1, op.next, ok))
    else
      (w', match op.next case DropPlainCopy => DropPlain case Finish => Done(true) case DeletePlain => DelPlain(ok))
  }

  // --- plain put and delete ---

  ghost function StepPlain(w: World, op: Op, out: Outcome): (r: (World, Op))
    requires op.WritePlain? || op.PlainCheck? || op.PlainReadPrev? || op.PlainDropMeta?
  {
    match op
    case WritePlain(data) =>
      (if out == Fails then w else PutPlain(w, data), if out == Fine then PlainCheck else Done(false))
    case PlainCheck =>
      (w, if !Seen(w, out) then Done(true) else PlainReadPrev)
    case PlainReadPrev =>
      (w, PlainDropMeta(if out == Fine then w.meta else None))
    case PlainDropMeta(prev) =>
      if out != Fine then (w, Done(false))
      else (w.(meta := None), if prev.Some? then Retire(prev.value, 0, Finish, true) else Done(true))
  }

  ghost function StepDelete(w: World, op: Op, out: Outcome): (r: (World, Op))
    requires op.DelCheck? || op.DelReadPrev? || op.DelDropMeta? || op.DelPlain?
  {
    match op
    case DelCheck =>
      (w, if !Seen(w, out) then DelPlain(true) else DelReadPrev)
    case DelReadPrev =>
      (w, DelDropMeta(if out == Fine then w.meta else None))
    case DelDropMeta(prev) =>
      if out != Fine then (w, Done(false))
      else (w.(meta := None), if prev.Some? then Retire(prev.value, 0, DeletePlain, true) else DelPlain(true))
    case DelPlain(ok) =>
      (if out == Fine then w.(plain := None) else w, Done(ok && out == Fine))
  }

  // --- reading shards ---

  // Opening a shard captures its contents: an open file outlives its removal or replacement.
  ghost function OpenShard(w: World, v: Version, i: nat, out: Outcome): Option<seq<byte>> {
    if out == Fine && (v.gen, i) in w.shards then Some(w.shards[(v.gen, i)]) else None
  }

  // readWholeShard: only a shard that passes its recorded size and checksums.
  ghost function ReadShard(w: World, v: Version, i: nat, out: Outcome): Option<seq<byte>> {
    var o := OpenShard(w, v, i, out);
    if o.Some? && v.check(i, o.value) then o else None
  }

  // Of the shards captured, those that pass the check as they are read.
  ghost function Passing(v: Version, got: seq<Option<seq<byte>>>): (r: seq<Option<seq<byte>>>)
    ensures |r| == |got|
  {
    seq(|got|, i requires 0 <= i < |got| => if got[i].Some? && v.check(i, got[i].value) then got[i] else None)
  }

  ghost function PerShardOf(v: Version): nat
    requires v.c.k >= 1
  {
    PerShard(|v.obj|, v.c.k)
  }

  // Decode from shards that passed, where that is possible.
  ghost function Decoded(v: Version, got: seq<Option<seq<byte>>>): (r: Option<seq<seq<byte>>>)
    requires Lawful(v.c)
  {
    if |got| == Total(v) && UniformWherePresent(got, PerShardOf(v)) then
      match Reconstruct(v.c, got, PerShardOf(v)) case Ok(full) => Some(full) case Err => None
    else None
  }

  // --- heal pass ---

  ghost function StepHeal(w: World, op: Op, out: Outcome): (r: (World, Op))
    requires op.HealMeta? || op.HealRead? || op.HealWrite?
    requires op.HealRead? ==> Lawful(op.v.c) && |op.got| < Total(op.v)
    requires op.HealWrite? ==> op.j < |op.full| == |op.got|
  {
    match op
    case HealMeta =>
      (w, if out == Fine && w.meta.Some? then HealRead(w.meta.value, []) else Done(false))
    case HealRead(v, got) =>
      var got' := got + [ReadShard(w, v, |got|, out)];
      if |got'| < Total(v) then (w, HealRead(v, got'))
      else if Present(got') == Total(v) || Present(got') < v.c.k || Decoded(v, got').None? then (w, Done(false))
      else (w, HealWrite(v, Decoded(v, got').value, got', 0))
    case HealWrite(v, full, got, j) =>
      var w' := if got[j].None? && out != Fails then PutShard(w, v, j, full[j]) else w;
      (w', if j + 1 == |full| then Done(true) else HealWrite(v, full, got, j + 1))
  }

  // --- get ---

  ghost function StepGet(w: World, op: Op, out: Outcome): (r: (World, Op))
    requires op.GetCheck? || op.GetPlain? || op.GetMeta? || op.GetOpen? || op.GetRetry?
    requires op.GetOpen? ==> Lawful(op.v.c)
  {
    match op
    case GetCheck =>
      (w, if Seen(w, out) then GetMeta(true) else GetPlain)
    case GetPlain =>
      (w, if out == Fine && w.plain.Some? then Got(None, w.plain.value) else GetFailed)
    case GetMeta(retry) =>
      (w, if out == Fine && w.meta.Some? then GetOpen(w.meta.value, Fast, [], retry) else GetFailed)
    case GetOpen(v, stage, got, retry) =>
      (w, NextOpen(w, v, stage, got, retry, out))
    case GetRetry(v) =>
      // The generation that was read is gone and another is current: follow it, once.
      (w, if out == Fine && w.meta.Some? && v.gen != 0 && w.meta.value.gen != v.gen then GetMeta(false) else GetFailed)
  }

  // One more shard opened, and what that leads to once the stage has all of its shards.
  ghost function NextOpen(w: World, v: Version, stage: Stage, got: seq<Option<seq<byte>>>, retry: bool,
                          out: Outcome): Op
    requires Lawful(v.c)
  {
    match stage
    case Fast =>
      var o := OpenShard(w, v, |got|, out);
      if o.None? then GetOpen(v, Slow(-1, false, []), [], retry)
      else if |got| + 1 < v.c.k then GetOpen(v, Fast, got + [o], retry)
      else FromData(v, got + [o], retry)
    case Slow(exclude, live, fast) =>
      var got' := got + [if |got| == exclude then None else OpenShard(w, v, |got|, out)];
      if |got'| < Total(v) then GetOpen(v, stage, got', retry)
      else if Present(got') < v.c.k then GetOpen(v, Last(live), [], retry)
      else if Covered(v, fast, got') then Got(Some(v), Pieced(v, fast, got'))
      else GetFailed
    case Last(live) =>
      var got' := got + [ReadShard(w, v, |got|, out)];
      if |got'| < Total(v) then GetOpen(v, stage, got', retry)
      else if Present(got') >= v.c.k then FromDecoded(v, got')
      else if retry && !live then GetRetry(v)
      else GetFailed
  }

  // Recovery goes stripe by stripe, and so byte column by byte column: what the shards that
  // pass there hold at offset x.
  ghost function ColumnAt(v: Version, got: seq<Option<seq<byte>>>, x: nat): (w: seq<Option<byte>>)
    ensures |w| == |got|
  {
    seq(|got|, i requires 0 <= i < |got| => if Holds(v, got, i, x) then Some(got[i].value[x]) else None)
  }

  ghost predicate Holds(v: Version, got: seq<Option<seq<byte>>>, i: nat, x: nat) {
    i < |got| && got[i].Some? && x < |got[i].value| && v.pass(i, got[i].value, x)
  }

  // Every byte of the object can be had: from a data shard before it was given up, or from a
  // column with k sound bytes. A reader that gives shards up may fail all the same; one that
  // completes found all of them.
  ghost predicate Covered(v: Version, fast: seq<Option<seq<byte>>>, got: seq<Option<seq<byte>>>)
    requires v.c.k >= 1
  {
    forall q: nat :: q < |v.obj| ==> CoveredAt(v, fast, got, q)
  }

  ghost predicate CoveredAt(v: Version, fast: seq<Option<seq<byte>>>, got: seq<Option<seq<byte>>>, q: nat)
    requires v.c.k >= 1
  {
    var per := PerShardOf(v);
    per > 0 && (Holds(v, fast, q / per, q % per) || Present(ColumnAt(v, got, q % per)) >= v.c.k)
  }

  ghost function Pieced(v: Version, fast: seq<Option<seq<byte>>>, got: seq<Option<seq<byte>>>): seq<byte>
    requires v.c.k >= 1
  {
    seq(|v.obj|, q requires 0 <= q < |v.obj| => PieceAt(v, fast, got, q))
  }

  ghost function PieceAt(v: Version, fast: seq<Option<seq<byte>>>, got: seq<Option<seq<byte>>>, q: nat): byte
    requires v.c.k >= 1
  {
    var per := PerShardOf(v);
    if per == 0 then 0
    else if Holds(v, fast, q / per, q % per) then fast[q / per].value[q % per]
    else
      var column := v.c.recover(ColumnAt(v, got, q % per));
      if q / per < |column| then column[q / per] else 0
  }

  // Every data shard opened: their concatenation, unless one fails its check while it is
  // read, and then the degraded reader takes over without it.
  ghost function FromData(v: Version, got: seq<Option<seq<byte>>>, retry: bool): Op {
    if Present(Passing(v, got)) == |got| then
      Got(Some(v), Join(Values(got), |got|, |v.obj|))
    else GetOpen(v, Slow(FirstBad(Passing(v, got)), true, got), [], retry)
  }

  ghost function Values(got: seq<Option<seq<byte>>>): (r: seq<seq<byte>>)
    ensures |r| == |got|
  {
    seq(|got|, i requires 0 <= i < |got| => got[i].GetOr([]))
  }

  ghost function FirstBad(got: seq<Option<seq<byte>>>): nat {
    if got == [] || got[0].None? then 0 else 1 + FirstBad(got[1..])
  }

  ghost function FromDecoded(v: Version, got: seq<Option<seq<byte>>>): Op
    requires Lawful(v.c)
  {
    if Decoded(v, got).Some? && v.c.k <= |Decoded(v, got).value| then
      Got(Some(v), Join(Decoded(v, got).value, v.c.k, |v.obj|))
    else GetFailed
  }

  // --- the system ---

  datatype System = System(w: World, ops: map<nat, Op>)

  // An operation's position is one it can be in: loop counters in range.
  ghost predicate Positioned(op: Op) {
    && (op.Writing? ==> Lawful(op.v.c) && op.i < Total(op.v))
    && (op.HealRead? ==> Lawful(op.v.c) && |op.got| < Total(op.v))
    && (op.HealWrite? ==> op.j < |op.full| == |op.got|)
    && (op.GetOpen? ==> Lawful(op.v.c))
  }

  ghost predicate Finished(op: Op) { op.Got? || op.GetFailed? || op.Done? }

  ghost function StepOp(w: World, op: Op, out: Outcome): (r: (World, Op))
    requires Positioned(op) && !Finished(op)
  {
    match op
    case Writing(_, _) => StepPut(w, op, out)
    case Aborting(_, _, _) => StepPut(w, op, out)
    case ReadPrev(_) => StepPut(w, op, out)
    case Switch(_, _) => StepPut(w, op, out)
    case DropPlain => StepPut(w, op, out)
    case Retire(_, _, _, _) => StepRetire(w, op, out)
    case WritePlain(_) => StepPlain(w, op, out)
    case PlainCheck => StepPlain(w, op, out)
    case PlainReadPrev => StepPlain(w, op, out)
    case PlainDropMeta(_) => StepPlain(w, op, out)
    case DelCheck => StepDelete(w, op, out)
    case DelReadPrev => StepDelete(w, op, out)
    case DelDropMeta(_) => StepDelete(w, op, out)
    case DelPlain(_) => StepDelete(w, op, out)
    case HealMeta => StepHeal(w, op, out)
    case HealRead(_, _) => StepHeal(w, op, out)
    case HealWrite(_, _, _, _) => StepHeal(w, op, out)
    case GetCheck => StepGet(w, op, out)
    case GetPlain => StepGet(w, op, out)
    case GetMeta(_) => StepGet(w, op, out)
    case GetOpen(_, _, _, _) => StepGet(w, op, out)
    case GetRetry(_) => StepGet(w, op, out)
  }

  datatype Step =
    | BeginPut(id: nat, v: Version)
    | Begin(id: nat, op: Op)
    | Act(id: nat, out: Outcome)
    | Damage(gen: nat, i: nat, data: Option<seq<byte>>)
    | DamageOpen(id: nat, j: nat, bytes: seq<byte>)

  // A new write has a generation of its own. Damage hits any shard, of a version that is or
  // was current or of a write in progress, or one that a reader has open, and what it leaves
  // fails the check.
  ghost predicate Enabled(s: System, step: Step) {
    match step
    case BeginPut(id, v) => id !in s.ops && v.gen !in s.w.versions && WellMade(v)
    case Begin(id, op) => id !in s.ops && (op.WritePlain? || op.DelCheck? || op.HealMeta? || op.GetCheck?)
    case Act(id, out) => id in s.ops && Positioned(s.ops[id]) && !Finished(s.ops[id])
    case Damage(gen, i, data) =>
      && gen in s.w.versions && i < Total(s.w.versions[gen])
      && (data.Some? ==> Lawful(s.w.versions[gen].c) && Damaged(s.w.versions[gen], i, data.value))
    case DamageOpen(id, j, bytes) =>
      && id in s.ops && s.ops[id].GetOpen? && !s.ops[id].stage.Last? && j < |s.ops[id].got| && s.ops[id].got[j].Some?
      && Lawful(s.ops[id].v.c) && j < Total(s.ops[id].v) && Damaged(s.ops[id].v, j, bytes)
  }

  ghost predicate Damaged(v: Version, i: nat, data: seq<byte>)
    requires Lawful(v.c) && i < Total(v)
  {
    !v.check(i, data) && Telling(v, i, data)
  }

  ghost function Next(s: System, step: Step): System
    requires Enabled(s, step)
  {
    match step
    case BeginPut(id, v) =>
      System(s.w.(versions := s.w.versions[v.gen := v]), s.ops[id := Writing(v, 0)])
    case Begin(id, op) =>
      System(s.w, s.ops[id := op])
    case Act(id, out) =>
      var (w, op) := StepOp(s.w, s.ops[id], out);
      System(w, s.ops[id := op])
    case Damage(gen, i, data) =>
      var shards := if data.Some? then s.w.shards[(gen, i) := data.value] else s.w.shards - {(gen, i)};
      System(s.w.(shards := shards, damaged := s.w.damaged + {(gen, i)}), s.ops)
    case DamageOpen(id, j, bytes) =>
      System(s.w, s.ops[id := s.ops[id].(got := s.ops[id].got[j := Some(bytes)])])
  }

  // The step makes a put of meta.json report failure although it took effect.
  ghost predicate LateSwitch(s: System, step: Step) {
    step.Act? && step.id in s.ops && s.ops[step.id].Switch? && step.out == FailsLate
  }

  // steps can be taken one after the other from s, and none is a late switch.
  ghost predicate Legal(s: System, steps: seq<Step>)
    decreases |steps|
  {
    steps == [] || (Enabled(s, steps[0]) && !LateSwitch(s, steps[0]) && Legal(Next(s, steps[0]), steps[1..]))
  }

  ghost function Run(s: System, steps: seq<Step>): System
    requires Legal(s, steps)
    decreases |steps|
  {
    if steps == [] then s else Run(Next(s, steps[0]), steps[1..])
  }
}

module CommitSafety {
  import opened Wrappers
  import opened ColumnCode
  import opened Layout
  import opened CommitProtocol

  // v was committed by its write and is on record as such.
  ghost predicate Published(w: World, v: Version) {
    v.gen in w.published && v.gen in w.versions && w.versions[v.gen] == v && WellMade(v)
  }

  ghost predicate Intact(w: World, v: Version, i: nat)
    requires Lawful(v.c) && i < Total(v)
  {
    (v.gen, i) in w.shards && w.shards[(v.gen, i)] == Shard(v, i)
  }

  // Damage spoils: the shard is no longer as written, and one that a reader has open fails its
  // check there.
  lemma DamageSpoils(s: System, step: Step)
    requires Enabled(s, step) && (step.Damage? || step.DamageOpen?)
    ensures step.Damage? ==> var v := s.w.versions[step.gen];
      v.gen == step.gen && WellMade(v) ==> !Intact(Next(s, step).w, v, step.i)
    ensures step.DamageOpen? ==> var op := Next(s, step).ops[step.id];
      step.j < |op.got| && op.got[step.j].Some? && !op.v.check(step.j, op.got[step.j].value)
  {
  }

  // The promise of the protocol: whenever meta.json exists, every shard it names is present
  // and holds the bytes of the one write that created its generation, outside damage.
  ghost predicate Safe(w: World) {
    w.meta.Some? ==>
      var v := w.meta.value;
      Published(w, v) && forall i :: 0 <= i < Total(v) && (v.gen, i) !in w.damaged ==> Intact(w, v, i)
  }

  // A stored shard is what its write made, or is damaged and shows it.
  ghost predicate FileOk(w: World, p: Path)
    requires p in w.shards
  {
    && p.0 in w.versions && WellMade(w.versions[p.0]) && p.1 < Total(w.versions[p.0])
    && (w.shards[p] == Shard(w.versions[p.0], p.1)
        || (p in w.damaged && Damaged(w.versions[p.0], p.1, w.shards[p])))
  }

  ghost predicate WorldOk(w: World) {
    && Safe(w)
    && (forall p :: p in w.shards ==> FileOk(w, p))
    && (forall p :: p in w.damaged ==> p.0 in w.versions)
    && (forall g :: g in w.versions ==> w.versions[g].gen == g && WellMade(w.versions[g]))
    && (w.published <= w.versions.Keys)
    && (w.plain.Some? ==> w.plain.value in w.plains)
  }

  lemma EmptyStoreOk()
    ensures WorldOk(World(None, map[], None, map[], {}, {}, {}))
  {
  }

  // The generation an unfinished write may still commit or has to clean up.
  ghost function Own(op: Op): Option<nat> {
    if op.Writing? || op.Aborting? || op.ReadPrev? || op.Switch? then Some(op.v.gen) else None
  }

  ghost predicate Unpublished(w: World, v: Version) {
    v.gen !in w.published && v.gen in w.versions && w.versions[v.gen] == v && WellMade(v)
  }

  ghost predicate Written(w: World, v: Version, n: nat)
    requires Lawful(v.c)
  {
    n <= Total(v) && forall i :: 0 <= i < n ==> (v.gen, i) in w.damaged || Intact(w, v, i)
  }

  // Everything captured is either a true shard or fails the check.
  ghost predicate Captured(v: Version, got: seq<Option<seq<byte>>>) {
    && WellMade(v) && |got| <= Total(v)
    && forall i :: 0 <= i < |got| && got[i].Some? ==> TrueOrTelling(v, i, got[i].value)
  }

  ghost predicate TrueOrTelling(v: Version, i: nat, data: seq<byte>)
    requires Lawful(v.c) && i < Total(v)
  {
    data == Shard(v, i) || Damaged(v, i, data)
  }

  ghost predicate Agreeing(v: Version, got: seq<Option<seq<byte>>>) {
    && WellMade(v) && |got| <= Total(v)
    && forall i :: 0 <= i < |got| && got[i].Some? ==> got[i].value == Shard(v, i)
  }

  // What each operation knows.
  ghost predicate OpOk(w: World, op: Op) {
    match op
    case Writing(v, i) => Unpublished(w, v) && i < Total(v) && Written(w, v, i)
    case Aborting(v, i, n) => Unpublished(w, v) && i < n <= Total(v)
    case ReadPrev(v) => Unpublished(w, v) && Written(w, v, Total(v))
    case Switch(v, prev) => Unpublished(w, v) && Written(w, v, Total(v)) && (prev.Some? ==> Published(w, prev.value))
    // A version is only taken apart when it can never be current again.
    case Retire(v, i, _, _) => Published(w, v) && i < Total(v) && (w.meta.Some? ==> w.meta.value.gen != v.gen)
    case PlainDropMeta(prev) => prev.Some? ==> Published(w, prev.value)
    case DelDropMeta(prev) => prev.Some? ==> Published(w, prev.value)
    case HealRead(v, got) => Published(w, v) && |got| < Total(v) && Agreeing(v, got)
    case HealWrite(v, full, got, j) => Published(w, v) && full == ShardsOf(v.c, v.obj) && |got| == |full| && j < |full|
    case GetOpen(v, stage, got, _) =>
      && Published(w, v)
      && (match stage
          case Fast => |got| < v.c.k && Captured(v, got) && forall i :: 0 <= i < |got| ==> got[i].Some?
          case Slow(_, _, fast) => |got| < Total(v) && Captured(v, got) && Captured(v, fast) && |fast| <= v.c.k
          case Last(_) => |got| < Total(v) && Agreeing(v, got))
    case GetRetry(v) => Published(w, v)
    // A completed read returned one whole version, or one plain content.
    case Got(src, bytes) => if src.Some? then Published(w, src.value) && bytes == src.value.obj else bytes in w.plains
    case _ => true
  }

  ghost predicate Inv(s: System) {
    && WorldOk(s.w)
    && (forall id :: id in s.ops ==> OpOk(s.w, s.ops[id]))
    && (forall a, b :: a in s.ops && b in s.ops && a != b && Own(s.ops[a]).Some? ==> Own(s.ops[a]) != Own(s.ops[b]))
  }

  ghost predicate Same(w: World, w': World, p: Path) {
    && p !in w.damaged && (p in w.shards <==> p in w'.shards) && (p in w.shards ==> w'.shards[p] == w.shards[p])
  }

  // What a step of an operation that owns generation `mine` (or of nobody) leaves alone.
  ghost predicate Guarantee(w: World, w': World, mine: Option<nat>) {
    && (forall g :: g in w.versions ==> g in w'.versions && w'.versions[g] == w.versions[g])
    && w.published <= w'.published && w.plains <= w'.plains
    && (forall g :: g in w'.published ==> g in w.published || mine == Some(g))
    && (forall p: Path :: p.0 !in w.published && mine != Some(p.0) ==> p in w'.damaged || Same(w, w', p))
    && (w'.meta == w.meta || w'.meta.None? || (mine == Some(w'.meta.value.gen) && w'.meta.value.gen !in w.published))
  }

  // Other operations are not disturbed.
  lemma Undisturbed(w: World, w': World, mine: Option<nat>, op: Op)
    requires OpOk(w, op) && Guarantee(w, w', mine) && (Own(op).Some? ==> Own(op) != mine)
    ensures OpOk(w', op)
  {
    if Own(op).Some? {
      forall i | 0 <= i < Total(op.v) && ((op.v.gen, i) in w.damaged || Intact(w, op.v, i))
        ensures (op.v.gen, i) in w'.damaged || Intact(w', op.v, i)
      {
        assert (op.v.gen, i) in w'.damaged || Same(w, w', (op.v.gen, i));
      }
    }
  }

  // The obligations of one operation's step.
  ghost predicate StepOk(w: World, op: Op, r: (World, Op)) {
    WorldOk(r.0) && OpOk(r.0, r.1) && Guarantee(w, r.0, Own(op)) && (Own(r.1).Some? ==> Own(r.1) == Own(op))
  }

  // Writing a shard of a version that is not committed.
  lemma ShardWritten(w: World, v: Version, i: nat)
    requires WorldOk(w) && Unpublished(w, v) && i < Total(v)
    ensures var w' := PutShard(w, v, i, Shard(v, i)); WorldOk(w') && Guarantee(w, w', Some(v.gen))
  {
    hide ShardsOf, Lawful;
    var w' := PutShard(w, v, i, Shard(v, i));
    forall p | p in w'.shards ensures FileOk(w', p) { if p in w.shards { assert FileOk(w, p); } }
    if w.meta.Some? {
      var u := w.meta.value;
      forall j | 0 <= j < Total(u) && (u.gen, j) !in w'.damaged ensures Intact(w', u, j) { assert Intact(w, u, j); }
    }
  }

  lemma WritingOk(w: World, op: Op, out: Outcome)
    requires WorldOk(w) && op.Writing? && OpOk(w, op)
    ensures StepOk(w, op, StepPut(w, op, out))
  {
    hide ShardsOf, Lawful, WorldOk, Guarantee;
    Unchanged(w);
    ShardWritten(w, op.v, op.i);
    var w' := StepPut(w, op, out).0;
    forall j | 0 <= j <= op.i && out == Fine ensures (op.v.gen, j) in w'.damaged || Intact(w', op.v, j) {
      if j < op.i { assert (op.v.gen, j) in w.damaged || Intact(w, op.v, j); }
    }
  }

  // Removing a shard of a version that is not current.
  lemma ShardRemoved(w: World, v: Version, i: nat, mine: Option<nat>)
    requires WorldOk(w) && (w.meta.Some? ==> w.meta.value.gen != v.gen) && (v.gen in w.published || mine == Some(v.gen))
    ensures WorldOk(DeleteShard(w, v, i)) && Guarantee(w, DeleteShard(w, v, i), mine)
  {
    StillOk(w, v, i);
    hide WorldOk;
  }

  lemma StillOk(w: World, v: Version, i: nat)
    requires WorldOk(w) && (w.meta.Some? ==> w.meta.value.gen != v.gen)
    ensures WorldOk(DeleteShard(w, v, i))
  {
    hide ShardsOf, Lawful;
    var w' := DeleteShard(w, v, i);
    forall p | p in w'.shards ensures FileOk(w', p) { assert FileOk(w, p); }
    if w.meta.Some? {
      var u := w.meta.value;
      forall j | 0 <= j < Total(u) && (u.gen, j) !in w'.damaged ensures Intact(w', u, j) { assert Intact(w, u, j); }
    }
  }

  lemma AbortingOk(w: World, op: Op, out: Outcome)
    requires WorldOk(w) && op.Aborting? && OpOk(w, op)
    ensures StepOk(w, op, StepPut(w, op, out))
  {
    hide ShardsOf, Lawful, WorldOk, Guarantee, WellMade;
    OnRecord(w);
    Unchanged(w);
    ShardRemoved(w, op.v, op.i, Own(op));
  }

  // The switch makes a completely written version current, and the one it read before can
  // never be current again from here on.
  lemma SwitchOk(w: World, op: Op, out: Outcome)
    requires WorldOk(w) && op.Switch? && OpOk(w, op) && out != FailsLate
    ensures StepOk(w, op, StepPut(w, op, out))
  {
    hide ShardsOf, Lawful;
    AtLeastOneShard(op.v);
    if op.prev.Some? { AtLeastOneShard(op.prev.value); }
    var w' := StepPut(w, op, out).0;
    forall p | p in w'.shards ensures FileOk(w', p) { assert FileOk(w, p); }
    forall j | 0 <= j < Total(op.v) ensures (op.v.gen, j) in w'.damaged || Intact(w', op.v, j) {
      assert (op.v.gen, j) in w.damaged || Intact(w, op.v, j);
    }
  }

  lemma RetireOk(w: World, op: Op, out: Outcome)
    requires WorldOk(w) && op.Retire? && OpOk(w, op)
    ensures StepOk(w, op, StepRetire(w, op, out))
  {
    hide ShardsOf, Lawful, WorldOk, Guarantee;
    Unchanged(w);
    ShardRemoved(w, op.v, op.i, None);
  }

  // Storage after a change that touches no shard and makes no version current.
  lemma NoShardTouched(w: World, w': World)
    requires WorldOk(w) && w' == w.(meta := w'.meta, plain := w'.plain, plains := w'.plains)
    requires (w'.meta == w.meta || w'.meta.None?) && w.plains <= w'.plains
    requires w'.plain.Some? ==> w'.plain.value in w'.plains
    ensures WorldOk(w') && forall mine :: Guarantee(w, w', mine)
  {
    hide ShardsOf, Lawful;
    forall p | p in w'.shards ensures FileOk(w', p) { assert FileOk(w, p); }
    if w'.meta.Some? {
      var v := w.meta.value;
      forall i | 0 <= i < Total(v) && (v.gen, i) !in w.damaged ensures Intact(w', v, i) { assert Intact(w, v, i); }
    }
  }

  lemma Unchanged(w: World)
    ensures forall mine :: Guarantee(w, w, mine)
  {
  }

  lemma ReadPrevOk(w: World, op: Op, out: Outcome)
    requires WorldOk(w) && op.ReadPrev? && OpOk(w, op)
    ensures StepOk(w, op, StepPut(w, op, out))
  {
    hide ShardsOf, Lawful, WellMade;
    Unchanged(w);
  }

  lemma PlainOk(w: World, op: Op, out: Outcome)
    requires WorldOk(w) && OpOk(w, op) && (op.WritePlain? || op.PlainCheck? || op.PlainReadPrev? || op.PlainDropMeta?)
    ensures StepOk(w, op, StepPlain(w, op, out))
  {
    hide ShardsOf, Lawful;
    var (w', op') := StepPlain(w, op, out);
    NoShardTouched(w, w');
    if op'.Retire? { AtLeastOneShard(op'.v); }
  }

  lemma DeleteOk(w: World, op: Op, out: Outcome)
    requires WorldOk(w) && OpOk(w, op) && (op.DelCheck? || op.DelReadPrev? || op.DelDropMeta? || op.DelPlain?)
    ensures StepOk(w, op, StepDelete(w, op, out))
  {
    hide ShardsOf, Lawful;
    var (w', op') := StepDelete(w, op, out);
    NoShardTouched(w, w');
    if op'.Retire? { AtLeastOneShard(op'.v); }
  }

  lemma AtLeastOneShard(v: Version)
    requires WellMade(v)
    ensures 0 < v.c.k <= Total(v)
  {
  }

  // --- reading shards ---

  // What a read captures of a published version's shard is true or fails the check.
  lemma OpenedIs(w: World, v: Version, i: nat, out: Outcome)
    requires WorldOk(w) && Published(w, v) && i < Total(v)
    ensures var o := OpenShard(w, v, i, out); o.Some? ==> TrueOrTelling(v, i, o.value)
    ensures var o := ReadShard(w, v, i, out); o.Some? ==> o.value == Shard(v, i)
  {
    hide ShardsOf, Lawful;
    if (v.gen, i) in w.shards { assert FileOk(w, (v.gen, i)); }
  }

  lemma PassingAgrees(v: Version, got: seq<Option<seq<byte>>>)
    requires Captured(v, got)
    ensures Agreeing(v, Passing(v, got))
  {
  }

  // k true shards decode to the shards of the version, and those to the object.
  lemma DecodedIs(v: Version, got: seq<Option<seq<byte>>>)
    requires Agreeing(v, got) && |got| == Total(v) && Present(got) >= v.c.k
    ensures Decoded(v, got) == Some(ShardsOf(v.c, v.obj))
    ensures Join(ShardsOf(v.c, v.obj), v.c.k, |v.obj|) == v.obj
  {
    DecodeEncode(v.c, v.obj, got);
  }

  lemma {:induction false} AllPresentSome<T>(w: seq<Option<T>>)
    requires Present(w) == |w|
    ensures forall i :: 0 <= i < |w| ==> w[i].Some?
  {
    if w != [] {
      AllPresentSome(w[1..]);
      forall i | 0 <= i < |w| ensures w[i].Some? { if i > 0 { assert w[i] == w[1..][i - 1]; } }
    }
  }

  // A byte that passes is the byte that was written.
  lemma HoldsTrue(v: Version, got: seq<Option<seq<byte>>>, i: nat, x: nat)
    requires Captured(v, got) && Holds(v, got, i, x)
    ensures i < Total(v) && x < |Shard(v, i)| && got[i].value[x] == Shard(v, i)[x]
  {
    hide ShardsOf, Lawful;
    assert TrueOrTelling(v, i, got[i].value);
  }

  // A column with k sound bytes brings back the column that was written.
  lemma ColumnIs(v: Version, got: seq<Option<seq<byte>>>, x: nat)
    requires Captured(v, got) && |got| == Total(v) && x < PerShardOf(v) && Present(ColumnAt(v, got, x)) >= v.c.k
    ensures var column := v.c.recover(ColumnAt(v, got, x));
      |column| == Total(v) && forall i :: 0 <= i < Total(v) ==> column[i] == Shard(v, i)[x]
  {
    hide PerShard, Present;
    var per, data := PerShardOf(v), Split(v.obj, v.c.k, PerShardOf(v));
    EncodedColumn(v.c, data, per, x);
    var d, w := Column(data, per, x), ColumnAt(v, got, x);
    var whole := Column(ShardsOf(v.c, v.obj), per, x);
    forall i | 0 <= i < |w| && w[i].Some? ensures w[i].value == whole[i] { HoldsTrue(v, got, i, x); }
    assert Agrees(w, Codeword(v.c, d));
  }

  // What a reader pieces together is the object.
  lemma PiecedIs(v: Version, fast: seq<Option<seq<byte>>>, got: seq<Option<seq<byte>>>)
    requires WellMade(v) && Captured(v, fast) && |fast| <= v.c.k && Captured(v, got) && |got| == Total(v)
    requires Covered(v, fast, got)
    ensures Pieced(v, fast, got) == v.obj
  {
    hide ShardsOf, Lawful, Present, PerShard, CoveredAt, PieceAt;
    AtLeastOneShard(v);
    forall q: nat | q < |v.obj| ensures PieceAt(v, fast, got, q) == v.obj[q] {
      assert CoveredAt(v, fast, got, q);
      PieceIs(v, fast, got, q);
    }
  }

  lemma PieceIs(v: Version, fast: seq<Option<seq<byte>>>, got: seq<Option<seq<byte>>>, q: nat)
    requires WellMade(v) && v.c.k >= 1 && Captured(v, fast) && |fast| <= v.c.k && Captured(v, got)
    requires |got| == Total(v) && q < |v.obj|
    requires CoveredAt(v, fast, got, q)
    ensures PieceAt(v, fast, got, q) == v.obj[q]
  {
    hide ShardsOf, Lawful, Present, PerShard, ColumnAt, Holds;
    var per := PerShardOf(v);
    var idx, x := q / per, q % per;
    PerShardBounds(|v.obj|, v.c.k);
    Locate(|v.obj|, v.c.k, per, q);
    ShardRun(v.c, v.obj, q, idx, x, 1);
    assert Shard(v, idx)[x] == Shard(v, idx)[x..x + 1][0] == v.obj[q..q + 1][0];
    if Holds(v, fast, idx, x) { HoldsTrue(v, fast, idx, x); } else { ColumnIs(v, got, x); }
  }

  // The data shards joined are the object.
  lemma DataJoins(v: Version, got: seq<Option<seq<byte>>>)
    requires Captured(v, got) && |got| == v.c.k && Present(Passing(v, got)) == |got|
    ensures Join(Values(got), |got|, |v.obj|) == v.obj
  {
    AllPresentSome(Passing(v, got));
    PassingAgrees(v, got);
    var full: seq<Option<seq<byte>>> := seq(Total(v), i requires 0 <= i < Total(v) => Some(Shard(v, i)));
    AllSomePresent(full);
    DecodeEncode(v.c, v.obj, full);
    assert Values(got)[..|got|] == ShardsOf(v.c, v.obj)[..v.c.k];
  }

  lemma {:induction false} AllSomePresent<T>(w: seq<Option<T>>)
    requires forall i :: 0 <= i < |w| ==> w[i].Some?
    ensures Present(w) == |w|
  {
    if w != [] { AllSomePresent(w[1..]); }
  }

  // --- heal and get ---

  lemma HealMetaOk(w: World, op: Op, out: Outcome)
    requires WorldOk(w) && op.HealMeta?
    ensures StepOk(w, op, StepHeal(w, op, out))
  {
    hide ShardsOf, Lawful;
    Unchanged(w);
    if w.meta.Some? { AtLeastOneShard(w.meta.value); }
  }

  lemma AgreeingAppend(v: Version, got: seq<Option<seq<byte>>>, o: Option<seq<byte>>)
    requires Agreeing(v, got) && |got| < Total(v) && (o.Some? ==> o.value == Shard(v, |got|))
    ensures Agreeing(v, got + [o])
  {
  }

  lemma HealReadOk(w: World, op: Op, out: Outcome)
    requires WorldOk(w) && op.HealRead? && OpOk(w, op)
    ensures StepOk(w, op, StepHeal(w, op, out))
  {
    HealReadNext(w, op, out);
    Unchanged(w);
    hide WorldOk, OpOk, Guarantee, StepHeal;
  }

  // What a pass knows after one more shard, and once it has them all.
  lemma HealReadNext(w: World, op: Op, out: Outcome)
    requires WorldOk(w) && op.HealRead? && OpOk(w, op)
    ensures var r := StepHeal(w, op, out); r.0 == w && OpOk(w, r.1) && Own(r.1).None?
  {
    hide ShardsOf, Lawful, WorldOk, Present, Decoded, ReadShard, Agreeing, OpenShard, WellMade;
    var got' := op.got + [ReadShard(w, op.v, |op.got|, out)];
    OpenedIs(w, op.v, |op.got|, out);
    AgreeingAppend(op.v, op.got, ReadShard(w, op.v, |op.got|, out));
    if |got'| == Total(op.v) && Present(got') >= op.v.c.k {
      DecodedIs(op.v, got');
      AtLeastOneShard(op.v);
    }
  }

  // A shard of a published version is rewritten with the bytes it was created with.
  lemma ShardRewritten(w: World, v: Version, j: nat)
    requires WorldOk(w) && Published(w, v) && j < Total(v)
    ensures var w' := PutShard(w, v, j, Shard(v, j)); WorldOk(w') && Guarantee(w, w', None)
  {
    hide ShardsOf, Lawful;
    var w' := PutShard(w, v, j, Shard(v, j));
    forall p | p in w'.shards ensures FileOk(w', p) { if p in w.shards { assert FileOk(w, p); } }
    if w.meta.Some? {
      var u := w.meta.value;
      forall i | 0 <= i < Total(u) && (u.gen, i) !in w'.damaged ensures Intact(w', u, i) {
        if (u.gen, i) !in w.damaged { assert Intact(w, u, i); }
      }
    }
  }

  // A heal pass writes back exactly those bytes.
  lemma HealWriteOk(w: World, op: Op, out: Outcome)
    requires WorldOk(w) && op.HealWrite? && OpOk(w, op)
    ensures StepOk(w, op, StepHeal(w, op, out))
  {
    hide ShardsOf, Lawful, WorldOk, Guarantee;
    Unchanged(w);
    assert op.full[op.j] == Shard(op.v, op.j);
    ShardRewritten(w, op.v, op.j);
  }

  lemma OnRecord(w: World)
    requires WorldOk(w)
    ensures w.meta.Some? ==> Published(w, w.meta.value) && WellMade(w.meta.value)
    ensures w.plain.Some? ==> w.plain.value in w.plains
  {
  }

  lemma GetOk(w: World, op: Op, out: Outcome)
    requires WorldOk(w) && OpOk(w, op) && (op.GetCheck? || op.GetPlain? || op.GetMeta? || op.GetRetry?)
    ensures StepOk(w, op, StepGet(w, op, out))
  {
    hide ShardsOf, Lawful, Guarantee, WorldOk, NextOpen, Published;
    Unchanged(w);
    OnRecord(w);
    if w.meta.Some? { AtLeastOneShard(w.meta.value); }
  }

  lemma GetFastOk(w: World, op: Op, out: Outcome)
    requires WorldOk(w) && op.GetOpen? && op.stage.Fast? && OpOk(w, op)
    ensures OpOk(w, NextOpen(w, op.v, op.stage, op.got, op.retry, out))
  {
    hide ShardsOf, Lawful, WorldOk, Present, Passing, Join, OpenShard, TrueOrTelling;
    var v, got := op.v, op.got;
    AtLeastOneShard(v);
    OpenedIs(w, v, |got|, out);
    var got' := got + [OpenShard(w, v, |got|, out)];
    assert got'[|got|].Some? ==> Captured(v, got');
    if |got'| == v.c.k && got'[|got|].Some? && Present(Passing(v, got')) == |got'| { DataJoins(v, got'); }
  }

  lemma GetSlowOk(w: World, op: Op, out: Outcome)
    requires WorldOk(w) && op.GetOpen? && op.stage.Slow? && OpOk(w, op)
    ensures OpOk(w, NextOpen(w, op.v, op.stage, op.got, op.retry, out))
  {
    hide ShardsOf, Lawful, WorldOk, Present, Passing, Join, OpenShard, Decoded, Covered, Pieced, TrueOrTelling;
    var v, got := op.v, op.got;
    AtLeastOneShard(v);
    OpenedIs(w, v, |got|, out);
    var got' := got + [if |got| == op.stage.exclude then None else OpenShard(w, v, |got|, out)];
    assert Captured(v, got');
    if |got'| == Total(v) && Covered(v, op.stage.fast, got') { PiecedIs(v, op.stage.fast, got'); }
  }

  lemma GetLastOk(w: World, op: Op, out: Outcome)
    requires WorldOk(w) && op.GetOpen? && op.stage.Last? && OpOk(w, op)
    ensures OpOk(w, NextOpen(w, op.v, op.stage, op.got, op.retry, out))
  {
    hide ShardsOf, Lawful, WorldOk, Present, Join, ReadShard, Decoded;
    var v, got := op.v, op.got;
    AtLeastOneShard(v);
    OpenedIs(w, v, |got|, out);
    var got' := got + [ReadShard(w, v, |got|, out)];
    assert Agreeing(v, got');
    if |got'| == Total(v) && Present(got') >= v.c.k { DecodedIs(v, got'); }
  }

  lemma GetOpenOk(w: World, op: Op, out: Outcome)
    requires WorldOk(w) && op.GetOpen? && OpOk(w, op)
    ensures Positioned(op) && StepOk(w, op, StepGet(w, op, out))
  {
    hide WorldOk, NextOpen, Guarantee, OpOk;
    OkIsPositioned(w, op);
    Unchanged(w);
    match op.stage {
      case Fast => GetFastOk(w, op, out);
      case Slow(_, _, _) => GetSlowOk(w, op, out);
      case Last(_) => GetLastOk(w, op, out);
    }
    OpenOwnsNothing(w, op, out);
  }

  lemma OpenOwnsNothing(w: World, op: Op, out: Outcome)
    requires op.GetOpen? && Positioned(op)
    ensures Own(NextOpen(w, op.v, op.stage, op.got, op.retry, out)) == None
  {
  }

  // --- every step, every run ---

  lemma OkIsPositioned(w: World, op: Op)
    requires OpOk(w, op)
    ensures Positioned(op)
  {
  }

  lemma OpStepOk(w: World, op: Op, out: Outcome)
    requires WorldOk(w) && OpOk(w, op) && !Finished(op) && !(op.Switch? && out == FailsLate)
    ensures Positioned(op) && StepOk(w, op, StepOp(w, op, out))
  {
    hide WorldOk, StepOk, OpOk, StepPut, StepRetire, StepPlain, StepDelete, StepHeal, StepGet;
    OkIsPositioned(w, op);
    match op
    case Writing(_, _) => WritingOk(w, op, out);
    case Aborting(_, _, _) => AbortingOk(w, op, out);
    case ReadPrev(_) => ReadPrevOk(w, op, out);
    case Switch(_, _) => SwitchOk(w, op, out);
    case DropPlain => DropPlainOk(w, op, out);
    case Retire(_, _, _, _) => RetireOk(w, op, out);
    case HealMeta => HealMetaOk(w, op, out);
    case HealRead(_, _) => HealReadOk(w, op, out);
    case HealWrite(_, _, _, _) => HealWriteOk(w, op, out);
    case GetOpen(_, _, _, _) => GetOpenOk(w, op, out);
    case _ =>
      if op.WritePlain? || op.PlainCheck? || op.PlainReadPrev? || op.PlainDropMeta? { PlainOk(w, op, out); }
      else if op.DelCheck? || op.DelReadPrev? || op.DelDropMeta? || op.DelPlain? { DeleteOk(w, op, out); }
      else { GetOk(w, op, out); }
  }

  lemma DropPlainOk(w: World, op: Op, out: Outcome)
    requires WorldOk(w) && op.DropPlain?
    ensures StepOk(w, op, StepPut(w, op, out))
  {
    NoShardTouched(w, StepPut(w, op, out).0);
  }

  // Damage touches no unfinished write and leaves only shards that fail their check.
  lemma DamageOk(s: System, step: Step)
    requires WorldOk(s.w) && step.Damage? && Enabled(s, step)
    ensures WorldOk(Next(s, step).w) && Guarantee(s.w, Next(s, step).w, None)
  {
    hide ShardsOf, Lawful;
    var w, w' := s.w, Next(s, step).w;
    forall p | p in w'.shards ensures FileOk(w', p) { if p in w.shards { assert FileOk(w, p); } }
    if w.meta.Some? {
      var v := w.meta.value;
      forall i | 0 <= i < Total(v) && (v.gen, i) !in w'.damaged ensures Intact(w', v, i) { assert Intact(w, v, i); }
    }
  }

  // A file that is damaged while a reader has it open leaves what the reader knows.
  lemma DamageOpenOk(s: System, step: Step)
    requires step.DamageOpen? && Enabled(s, step) && OpOk(s.w, s.ops[step.id])
    ensures OpOk(s.w, Next(s, step).ops[step.id]) && Own(Next(s, step).ops[step.id]) == Own(s.ops[step.id])
  {
    hide ShardsOf, Lawful, Telling;
    var op := s.ops[step.id];
    assert TrueOrTelling(op.v, step.j, step.bytes);
  }

  lemma BeginOk(s: System, step: Step)
    requires WorldOk(s.w) && step.BeginPut? && Enabled(s, step)
    ensures WorldOk(Next(s, step).w) && Guarantee(s.w, Next(s, step).w, None)
    ensures OpOk(Next(s, step).w, Writing(step.v, 0))
    ensures forall id :: id in s.ops && OpOk(s.w, s.ops[id]) && Own(s.ops[id]).Some? ==>
      Own(s.ops[id]) != Some(step.v.gen)
  {
    hide ShardsOf, Lawful;
    AtLeastOneShard(step.v);
    VersionAdded(s.w, step.v);
  }

  lemma VersionAdded(w: World, v: Version)
    requires WorldOk(w) && v.gen !in w.versions && WellMade(v)
    ensures var w' := w.(versions := w.versions[v.gen := v]); WorldOk(w') && Guarantee(w, w', None)
  {
    hide ShardsOf, Lawful;
    var w' := w.(versions := w.versions[v.gen := v]);
    forall p | p in w'.shards ensures FileOk(w', p) { assert FileOk(w, p); }
    if w.meta.Some? {
      var u := w.meta.value;
      forall i | 0 <= i < Total(u) && (u.gen, i) !in w'.damaged ensures Intact(w', u, i) { assert Intact(w, u, i); }
    }
  }

  lemma StepKeepsInv(s: System, step: Step)
    requires Inv(s) && Enabled(s, step) && !LateSwitch(s, step)
    ensures Inv(Next(s, step))
  {
    hide WorldOk, OpOk, StepOp, Guarantee;
    var s' := Next(s, step);
    var mine := if step.Act? then Own(s.ops[step.id]) else None;
    match step {
      case Act(id, out) => OpStepOk(s.w, s.ops[id], out);
      case Damage(_, _, _) => DamageOk(s, step);
      case DamageOpen(_, _, _) => Unchanged(s.w); DamageOpenOk(s, step);
      case BeginPut(_, _) => BeginOk(s, step);
      case Begin(id, op) => Unchanged(s.w); FirstStepOk(s.w, op);
    }
    forall id | id in s.ops && (step.Damage? || id != step.id) ensures OpOk(s'.w, s'.ops[id]) {
      Undisturbed(s.w, s'.w, mine, s.ops[id]);
    }
  }

  lemma FirstStepOk(w: World, op: Op)
    requires op.WritePlain? || op.DelCheck? || op.HealMeta? || op.GetCheck?
    ensures OpOk(w, op)
  {
  }

  // In every interleaving of any number of operations, with any storage call allowed to
  // fail, and whatever is damaged on the way.
  lemma {:induction false} RunKeepsInv(s: System, steps: seq<Step>)
    requires Inv(s) && Legal(s, steps)
    ensures Inv(Run(s, steps))
    decreases |steps|
  {
    if steps != [] {
      StepKeepsInv(s, steps[0]);
      RunKeepsInv(Next(s, steps[0]), steps[1..]);
    }
  }

  // No version that has been superseded is ever current again, however the run goes on: this
  // is what makes it right to remove its shards.
  lemma {:induction false} NeverCurrentAgain(s: System, steps: seq<Step>, gen: nat)
    requires Inv(s) && Legal(s, steps) && gen in s.w.published && (s.w.meta.Some? ==> s.w.meta.value.gen != gen)
    ensures var w := Run(s, steps).w; gen in w.published && (w.meta.Some? ==> w.meta.value.gen != gen)
    decreases |steps|
  {
    if steps != [] {
      var step := steps[0];
      StepKeepsInv(s, step);
      StepGuarantee(s, step);
      NeverCurrentAgain(Next(s, step), steps[1..], gen);
    }
  }

  lemma StepGuarantee(s: System, step: Step)
    requires Inv(s) && Enabled(s, step) && !LateSwitch(s, step)
    ensures Guarantee(s.w, Next(s, step).w, if step.Act? then Own(s.ops[step.id]) else None)
  {
    hide WorldOk, OpOk, StepOp, Guarantee;
    match step {
      case Act(id, out) => OpStepOk(s.w, s.ops[id], out);
      case Damage(_, _, _) => DamageOk(s, step);
      case DamageOpen(_, _, _) => Unchanged(s.w); DamageOpenOk(s, step);
      case BeginPut(_, _) => BeginOk(s, step);
      case Begin(id, op) => Unchanged(s.w);
    }
  }

  // Without damage a heal pass or a write never marks any.
  lemma {:induction false} NoDamage(s: System, steps: seq<Step>)
    requires Legal(s, steps) && s.w.damaged == {} && forall i :: 0 <= i < |steps| ==> !steps[i].Damage?
    ensures Run(s, steps).w.damaged == {}
    decreases |steps|
  {
    if steps != [] {
      var s' := Next(s, steps[0]);
      assert s'.w.damaged == {} by { DamageOnlyByDamage(s, steps[0]); }
      NoDamage(s', steps[1..]);
    }
  }

  lemma DamageOnlyByDamage(s: System, step: Step)
    requires Enabled(s, step) && !step.Damage?
    ensures Next(s, step).w.damaged <= s.w.damaged
  {
    hide Lawful, ShardsOf, NextOpen, Present, Decoded;
  }

  /** The main theorem. From any quiet state in order (an empty store, or one object in either
      form), after any run: if meta.json exists, every shard of the version it names that no
      damage has hit since is there with that version's bytes, so without damage all of them;
      and every read that completed returned the whole of one committed version, or one plain
      content that was stored. */
  lemma NeverTorn(s0: System, steps: seq<Step>)
    requires s0.ops == map[] && WorldOk(s0.w) && Legal(s0, steps)
    ensures var s := Run(s0, steps);
      && Safe(s.w)
      && (s0.w.damaged == {} && (forall i :: 0 <= i < |steps| ==> !steps[i].Damage?) && s.w.meta.Some? ==>
            WellMade(s.w.meta.value) && forall i :: 0 <= i < Total(s.w.meta.value) ==> Intact(s.w, s.w.meta.value, i))
      && forall id :: id in s.ops && s.ops[id].Got? ==>
           if s.ops[id].src.Some? then Published(s.w, s.ops[id].src.value) && s.ops[id].bytes == s.ops[id].src.value.obj
           else s.ops[id].bytes in s.w.plains
  {
    assert Inv(s0);
    hide WorldOk, OpOk, Safe, Inv, Legal, Run, Intact, Published;
    RunKeepsInv(s0, steps);
    var s := Run(s0, steps);
    ReadsAreWhole(s);
    if s0.w.damaged == {} && (forall i :: 0 <= i < |steps| ==> !steps[i].Damage?) {
      NoDamage(s0, steps);
      if s.w.meta.Some? { AllThere(s); }
    }
  }

  lemma ReadsAreWhole(s: System)
    requires Inv(s)
    ensures Safe(s.w)
    ensures forall id :: id in s.ops && s.ops[id].Got? ==>
      if s.ops[id].src.Some? then Published(s.w, s.ops[id].src.value) && s.ops[id].bytes == s.ops[id].src.value.obj
      else s.ops[id].bytes in s.w.plains
  {
    hide Safe, Published, FileOk;
    forall id | id in s.ops && s.ops[id].Got? ensures OpOk(s.w, s.ops[id]) {}
  }

  lemma AllThere(s: System)
    requires Inv(s) && s.w.damaged == {} && s.w.meta.Some?
    ensures WellMade(s.w.meta.value) && forall i :: 0 <= i < Total(s.w.meta.value) ==> Intact(s.w, s.w.meta.value, i)
  {
    hide OpOk, FileOk, ShardsOf, Lawful;
  }

  // Removing the first n shards of an aborted write, from shard i on.
  ghost function Removed(w: World, v: Version, i: nat, n: nat): World
    decreases n - i
  {
    if i >= n then w else Removed(DeleteShard(w, v, i), v, i + 1, n)
  }

  ghost function Repeat(step: Step, n: nat): seq<Step> { seq(n, _ => step) }

  /** Why the late switch is excluded. A put of meta.json that is reported as failed although
      it took effect sends the write into its cleanup, which removes every shard of what has
      just become the current version. From every state in order with a write about to
      switch, that outcome followed by the cleanup leaves meta.json naming a version none of
      whose shards exist, though nothing was damaged. */
  lemma LateSwitchLosesObject(s: System, id: nat)
    requires Inv(s) && id in s.ops && s.ops[id].Switch?
    ensures Enabled(s, Act(id, FailsLate))
    ensures var v, s1 := s.ops[id].v, Next(s, Act(id, FailsLate));
      && Legal(s1, Repeat(Act(id, Fine), Total(v)))
      && var w := Run(s1, Repeat(Act(id, Fine), Total(v))).w;
         && w.meta == Some(v) && (forall i :: 0 <= i < Total(v) ==> (v.gen, i) !in w.shards)
         && (Safe(w) <==> forall i :: 0 <= i < Total(v) ==> (v.gen, i) in s.w.damaged)
  {
    hide Inv, Safe, Next, Legal, Run;
    var v := s.ops[id].v;
    var outs := seq(Total(v), _ => Fine);
    assert Acts(id, outs) == Repeat(Act(id, Fine), Total(v));
    LateSwitchExactly(s, id, outs);
  }

  // The cleanup with whatever outcomes: a shard goes when its delete succeeds.
  ghost function Removals(w: World, v: Version, i: nat, outs: seq<Outcome>): World
    decreases |outs|
  {
    if outs == [] then w else Removals(if outs[0] == Fine then DeleteShard(w, v, i) else w, v, i + 1, outs[1..])
  }

  ghost function Acts(id: nat, outs: seq<Outcome>): seq<Step> {
    seq(|outs|, j requires 0 <= j < |outs| => Act(id, outs[j]))
  }

  lemma {:induction false} RemovalsIs(w: World, v: Version, i: nat, outs: seq<Outcome>)
    ensures var r := Removals(w, v, i, outs);
      && r == w.(shards := r.shards)
      && (forall p :: p in r.shards <==>
            p in w.shards && !(p.0 == v.gen && i <= p.1 < i + |outs| && outs[p.1 - i] == Fine))
      && (forall p :: p in r.shards ==> r.shards[p] == w.shards[p])
    decreases |outs|
  {
    if outs != [] {
      var w' := if outs[0] == Fine then DeleteShard(w, v, i) else w;
      RemovalsIs(w', v, i + 1, outs[1..]);
      forall p: Path | p.0 == v.gen && i + 1 <= p.1 < i + |outs| ensures outs[p.1 - i] == outs[1..][p.1 - (i + 1)] {}
    }
  }

  lemma {:induction false} CleanupRuns(s: System, id: nat, v: Version, i: nat, outs: seq<Outcome>)
    requires id in s.ops && outs != [] && s.ops[id] == Aborting(v, i, i + |outs|)
    ensures Legal(s, Acts(id, outs))
    ensures Run(s, Acts(id, outs)) == System(Removals(s.w, v, i, outs), s.ops[id := Done(false)])
    decreases |outs|
  {
    var steps := Acts(id, outs);
    var s', rest := Next(s, steps[0]), outs[1..];
    assert steps[1..] == Acts(id, rest);
    if rest != [] {
      CleanupRuns(s', id, v, i + 1, rest);
      assert s'.ops[id := Done(false)] == s.ops[id := Done(false)];
    } else {
      assert Acts(id, rest) == [] && Run(s', []) == s';
    }
  }

  /** Exactly what a late switch leaves, however its cleanup goes: meta.json names the version,
      and of its shards those remain whose delete failed. So the store is in order if and only
      if every delete of a shard that is not damaged fails. */
  lemma LateSwitchExactly(s: System, id: nat, outs: seq<Outcome>)
    requires Inv(s) && id in s.ops && s.ops[id].Switch? && |outs| == Total(s.ops[id].v)
    ensures Enabled(s, Act(id, FailsLate))
    ensures var v, s1 := s.ops[id].v, Next(s, Act(id, FailsLate));
      && WellMade(v) && Legal(s1, Acts(id, outs))
      && var w := Run(s1, Acts(id, outs)).w;
         && w.meta == Some(v)
         && (forall i :: 0 <= i < |outs| ==>
               if outs[i] == Fine then (v.gen, i) !in w.shards else (v.gen, i) in w.damaged || Intact(w, v, i))
         && (Safe(w) <==> forall i :: 0 <= i < |outs| ==> (v.gen, i) in s.w.damaged || outs[i] != Fine)
  {
    hide ShardsOf, Lawful, WorldOk, Guarantee;
    assert OpOk(s.w, s.ops[id]);
    var v, s1 := s.ops[id].v, Next(s, Act(id, FailsLate));
    AtLeastOneShard(v);
    CleanupRuns(s1, id, v, 0, outs);
    var w := Removals(s1.w, v, 0, outs);
    RemovalsIs(s1.w, v, 0, outs);
    forall i | 0 <= i < |outs| && outs[i] != Fine ensures (v.gen, i) in w.damaged || Intact(w, v, i) {
      assert (v.gen, i) in s.w.damaged || Intact(s.w, v, i);
    }
  }
}

// Reads while one writer replaces or deletes the object, in any combination of plain and
// coded, and however far the writer gets.
module OneWriter {
  import opened Wrappers
  import opened ColumnCode
  import opened Layout
  import opened CommitProtocol
  import opened CommitSafety

  type Bytes = seq<byte>

  // What a read finds when nothing else runs and nothing fails.
  ghost function Value(w: World): Option<Bytes> {
    if w.meta.Some? then Some(w.meta.value.obj) else w.plain
  }

  ghost predicate PlainSafe(w: World, vals: set<Bytes>) {
    w.plain.Some? ==> w.plain.value in vals
  }

  /** What is going on: who writes and to what end (some content, or nothing), what may be read,
      whether there is always something to read, and whether no read is misled. */
  datatype Plot = Plot(writer: nat, goal: Option<Bytes>, vals: set<Bytes>, had: bool, seen: bool)

  // The writer's check for meta.json fails while one is there that does not hold the goal.
  ghost predicate BlindCheck(s: System, step: Step, goal: Option<Bytes>) {
    && step.Act? && step.id in s.ops && (s.ops[step.id].PlainCheck? || s.ops[step.id].DelCheck?)
    && step.out != Fine && s.w.meta.Some? && Some(s.w.meta.value.obj) != goal
  }

  // A reader's check for meta.json fails while one stands beside a plain copy of something else.
  ghost predicate StaleLook(s: System, step: Step, vals: set<Bytes>) {
    && step.Act? && step.id in s.ops && s.ops[step.id].GetCheck?
    && step.out != Fine && s.w.meta.Some? && !PlainSafe(s.w, vals)
  }

  ghost predicate Blinded(s: System, steps: seq<Step>, goal: Option<Bytes>)
    requires Legal(s, steps)
    decreases |steps|
  {
    steps != [] && (BlindCheck(s, steps[0], goal) || Blinded(Next(s, steps[0]), steps[1..], goal))
  }

  ghost predicate Misled(s: System, steps: seq<Step>, vals: set<Bytes>)
    requires Legal(s, steps)
    decreases |steps|
  {
    steps != [] && (StaleLook(s, steps[0], vals) || Misled(Next(s, steps[0]), steps[1..], vals))
  }

  // What the writer has achieved; blind says whether its check has failed it.
  ghost predicate WriterRole(w: World, op: Op, goal: Option<Bytes>, blind: bool) {
    match op
    case Writing(v, _) => !blind && goal == Some(v.obj)
    case Aborting(v, _, _) => !blind && goal == Some(v.obj)
    case ReadPrev(v) => !blind && goal == Some(v.obj)
    case Switch(v, _) => !blind && goal == Some(v.obj)
    case Retire(_, _, next, _) =>
      !blind && Value(w) == (if next == DeletePlain then w.plain else goal) &&
      (match next
       case DropPlainCopy => w.meta.Some?
       case Finish => w.meta.None? && goal.Some?
       case DeletePlain => w.meta.None? && goal.None?)
    case DropPlain => !blind && w.meta.Some? && goal == Some(w.meta.value.obj)
    case WritePlain(data) => !blind && goal == Some(data)
    case PlainCheck => !blind && goal.Some? && w.plain == goal
    case PlainReadPrev => !blind && goal.Some? && w.plain == goal
    case PlainDropMeta(_) => !blind && goal.Some? && w.plain == goal
    case DelCheck => !blind && goal.None?
    case DelReadPrev => !blind && goal.None?
    case DelDropMeta(_) => !blind && goal.None?
    case DelPlain(_) => goal.None? && (blind <==> w.meta.Some?)
    case Done(ok) => ok ==> (Value(w) == goal <==> !blind)
    case _ => false
  }

  ghost predicate ReaderRole(w: World, op: Op, vals: set<Bytes>, seen: bool) {
    match op
    case HealMeta => true
    case HealRead(_, _) => true
    case HealWrite(_, _, _, _) => true
    case GetCheck => true
    case GetPlain => seen ==> PlainSafe(w, vals)
    case GetMeta(_) => true
    case GetOpen(v, _, _, _) => v.obj in vals
    case GetRetry(v) => true
    case Got(_, bytes) => seen ==> bytes in vals
    case GetFailed => true
    case Done(_) => true
    case _ => false
  }

  ghost predicate Role(s: System, id: nat, pl: Plot, blind: bool)
    requires id in s.ops
  {
    if id == pl.writer then WriterRole(s.w, s.ops[id], pl.goal, blind) else ReaderRole(s.w, s.ops[id], pl.vals, pl.seen)
  }

  // What can be read is always one of the allowed values.
  ghost predicate Cast(s: System, pl: Plot, blind: bool) {
    && Inv(s) && Within(s.w, pl) && (blind ==> pl.writer in s.ops)
    && forall id :: id in s.ops ==> Role(s, id, pl, blind)
  }

  ghost predicate Within(w: World, pl: Plot) {
    && (pl.goal.Some? ==> pl.goal.value in pl.vals) && (pl.had && pl.goal.Some? ==> Value(w).Some?)
    && (w.meta.Some? ==> w.meta.value.obj in pl.vals)
    && (w.meta.None? || pl.goal.None? ==> PlainSafe(w, pl.vals))
  }

  // The only write is the writer's, to its end; anyone may read or heal; damage is allowed.
  ghost predicate Allowed(step: Step, pl: Plot) {
    match step
    case BeginPut(id, v) => id == pl.writer && pl.goal == Some(v.obj)
    case Begin(id, op) =>
      if id == pl.writer then op == (if pl.goal.Some? then WritePlain(pl.goal.value) else DelCheck)
      else op.HealMeta? || op.GetCheck?
    case _ => true
  }

  lemma WriterActs(s: System, out: Outcome, pl: Plot, blind: bool)
    requires Cast(s, pl, blind) && Enabled(s, Act(pl.writer, out)) && !LateSwitch(s, Act(pl.writer, out))
    ensures var (w', op') := StepOp(s.w, s.ops[pl.writer], out);
      && WriterRole(w', op', pl.goal, blind || BlindCheck(s, Act(pl.writer, out), pl.goal)) && Within(w', pl)
      && (PlainSafe(s.w, pl.vals) ==> PlainSafe(w', pl.vals))
  {
    hide Inv, StepGet, StepHeal, StepPut, StepRetire, StepPlain, StepDelete, Within, WriterRole, BlindCheck, Lawful;
    assert Role(s, pl.writer, pl, blind);
    var w, op := s.w, s.ops[pl.writer];
    WriterKinds(w, op, pl.goal, blind);
    if op.WritePlain? || op.PlainCheck? || op.PlainReadPrev? || op.PlainDropMeta? {
      PlainActs(s, out, pl, blind);
    } else if op.DelCheck? || op.DelReadPrev? || op.DelDropMeta? || op.DelPlain? {
      DeleteActs(s, out, pl, blind);
    } else {
      NoCheck(s, out, pl);
      if op.Retire? { RetireActs(w, op, out, pl, blind); } else { PutActs(w, op, out, pl, blind); }
    }
  }

  lemma WriterKinds(w: World, op: Op, goal: Option<Bytes>, blind: bool)
    requires WriterRole(w, op, goal, blind)
    ensures !(op.HealMeta? || op.HealRead? || op.HealWrite?)
    ensures !(op.GetCheck? || op.GetPlain? || op.GetMeta? || op.GetOpen? || op.GetRetry? || op.Got? || op.GetFailed?)
  {
  }

  lemma NoCheck(s: System, out: Outcome, pl: Plot)
    requires pl.writer in s.ops && !s.ops[pl.writer].PlainCheck? && !s.ops[pl.writer].DelCheck?
    ensures !BlindCheck(s, Act(pl.writer, out), pl.goal)
  {
  }

  lemma PutActs(w: World, op: Op, out: Outcome, pl: Plot, blind: bool)
    requires op.Writing? || op.Aborting? || op.ReadPrev? || op.Switch? || op.DropPlain?
    requires op.Writing? ==> Lawful(op.v.c) && op.i < Total(op.v)
    requires op.Switch? ==> out != FailsLate
    requires Within(w, pl) && WriterRole(w, op, pl.goal, blind)
    ensures var (w', op') := StepPut(w, op, out);
      && WriterRole(w', op', pl.goal, blind) && Within(w', pl) && (PlainSafe(w, pl.vals) ==> PlainSafe(w', pl.vals))
  {
    hide ShardsOf, Lawful;
  }

  lemma RetireActs(w: World, op: Op, out: Outcome, pl: Plot, blind: bool)
    requires op.Retire? && Within(w, pl) && WriterRole(w, op, pl.goal, blind)
    ensures var (w', op') := StepRetire(w, op, out);
      && WriterRole(w', op', pl.goal, blind) && Within(w', pl) && (PlainSafe(w, pl.vals) ==> PlainSafe(w', pl.vals))
  {
  }

  lemma PlainActs(s: System, out: Outcome, pl: Plot, blind: bool)
    requires pl.writer in s.ops && Within(s.w, pl) && WriterRole(s.w, s.ops[pl.writer], pl.goal, blind)
    requires var op := s.ops[pl.writer]; op.WritePlain? || op.PlainCheck? || op.PlainReadPrev? || op.PlainDropMeta?
    ensures var (w', op') := StepPlain(s.w, s.ops[pl.writer], out);
      && WriterRole(w', op', pl.goal, blind || BlindCheck(s, Act(pl.writer, out), pl.goal)) && Within(w', pl)
      && (PlainSafe(s.w, pl.vals) ==> PlainSafe(w', pl.vals))
  {
  }

  lemma DeleteActs(s: System, out: Outcome, pl: Plot, blind: bool)
    requires pl.writer in s.ops && Within(s.w, pl) && WriterRole(s.w, s.ops[pl.writer], pl.goal, blind)
    requires var op := s.ops[pl.writer]; op.DelCheck? || op.DelReadPrev? || op.DelDropMeta? || op.DelPlain?
    ensures var (w', op') := StepDelete(s.w, s.ops[pl.writer], out);
      && WriterRole(w', op', pl.goal, blind || BlindCheck(s, Act(pl.writer, out), pl.goal)) && Within(w', pl)
      && (PlainSafe(s.w, pl.vals) ==> PlainSafe(w', pl.vals))
  {
  }

  lemma ReaderActs(s: System, id: nat, out: Outcome, pl: Plot, blind: bool)
    requires Cast(s, pl, blind) && Enabled(s, Act(id, out)) && id != pl.writer
    requires pl.seen ==> !StaleLook(s, Act(id, out), pl.vals)
    ensures var (w', op') := StepOp(s.w, s.ops[id], out);
      w'.meta == s.w.meta && w'.plain == s.w.plain && ReaderRole(w', op', pl.vals, pl.seen)
    ensures !BlindCheck(s, Act(id, out), pl.goal)
  {
    assert Role(s, id, pl, blind);
    assert OpOk(s.w, s.ops[id]);
    OpStepOk(s.w, s.ops[id], out);
    ReadsOnly(s.w, s.ops[id], out, pl.vals, pl.seen);
  }

  // A read sticks to the version it opened.
  lemma OneVersion(w: World, op: Op, out: Outcome)
    requires op.GetOpen? && Positioned(op)
    ensures var r := NextOpen(w, op.v, op.stage, op.got, op.retry, out);
      (r.GetOpen? && r.v == op.v) || (r.Got? && r.src == Some(op.v)) || r.GetRetry? || r.GetFailed?
  {
    hide ShardsOf, Lawful, Present, Passing, Decoded, Join, Covered, Pieced;
  }

  // Reads and heal passes leave meta.json and the plain copy alone.
  lemma ReadsOnly(w: World, op: Op, out: Outcome, vals: set<Bytes>, seen: bool)
    requires Positioned(op) && !Finished(op) && ReaderRole(w, op, vals, seen)
    requires OpOk(StepOp(w, op, out).0, StepOp(w, op, out).1)
    requires (w.meta.Some? ==> w.meta.value.obj in vals) && (w.meta.None? ==> PlainSafe(w, vals))
    requires seen && op.GetCheck? && out != Fine && w.meta.Some? ==> PlainSafe(w, vals)
    ensures var (w', op') := StepOp(w, op, out);
      w'.meta == w.meta && w'.plain == w.plain && ReaderRole(w', op', vals, seen)
  {
    hide StepPut, StepRetire, StepPlain, StepDelete, StepHeal, StepGet, OpOk, Positioned;
    if op.HealMeta? || op.HealRead? || op.HealWrite? {
      HealOnly(w, op, out, vals, seen);
    } else {
      GetOnly(w, op, out, vals, seen);
    }
  }

  lemma HealOnly(w: World, op: Op, out: Outcome, vals: set<Bytes>, seen: bool)
    requires Positioned(op) && (op.HealMeta? || op.HealRead? || op.HealWrite?)
    ensures var (w', op') := StepHeal(w, op, out);
      w'.meta == w.meta && w'.plain == w.plain && ReaderRole(w', op', vals, seen)
  {
    hide ShardsOf, Lawful, Present, Decoded;
  }

  lemma GetOnly(w: World, op: Op, out: Outcome, vals: set<Bytes>, seen: bool)
    requires Positioned(op) && (op.GetCheck? || op.GetPlain? || op.GetMeta? || op.GetOpen? || op.GetRetry?)
    requires ReaderRole(w, op, vals, seen) && OpOk(StepGet(w, op, out).0, StepGet(w, op, out).1)
    requires (w.meta.Some? ==> w.meta.value.obj in vals) && (w.meta.None? ==> PlainSafe(w, vals))
    requires seen && op.GetCheck? && out != Fine && w.meta.Some? ==> PlainSafe(w, vals)
    ensures var (w', op') := StepGet(w, op, out);
      w'.meta == w.meta && w'.plain == w.plain && ReaderRole(w', op', vals, seen)
  {
    hide ShardsOf, Lawful, Present, Decoded, NextOpen, Published, WellMade;
    if op.GetOpen? { OneVersion(w, op, out); }
  }

  lemma StepKeepsCast(s: System, step: Step, pl: Plot, blind: bool)
    requires Cast(s, pl, blind) && Enabled(s, step) && !LateSwitch(s, step) && Allowed(step, pl)
    requires pl.seen ==> !StaleLook(s, step, pl.vals)
    ensures Cast(Next(s, step), pl, blind || BlindCheck(s, step, pl.goal))
  {
    hide Inv, StepOp, WriterRole, ReaderRole, BlindCheck, StaleLook;
    StepKeepsInv(s, step);
    var s', blind' := Next(s, step), blind || BlindCheck(s, step, pl.goal);
    if step.Act? && step.id == pl.writer {
      WriterActs(s, step.out, pl, blind);
    } else if step.Act? {
      ReaderActs(s, step.id, step.out, pl, blind);
    } else {
      OnlyActsBlind(s, step, pl.goal);
    }
    forall id | id in s'.ops ensures Role(s', id, pl, blind') {
      if id in s.ops && (step.Damage? || id != step.id) {
        assert Role(s, id, pl, blind);
        RoleStable(s.w, s'.w, s.ops[id], pl, blind);
      } else if step.DamageOpen? {
        OpenRole(s, step, pl, blind);
      } else if !step.Act? {
        FirstRole(s, step, pl, blind);
      }
    }
  }

  lemma OnlyActsBlind(s: System, step: Step, goal: Option<Bytes>)
    requires !step.Act?
    ensures !BlindCheck(s, step, goal)
  {
  }

  lemma RoleStable(w: World, w': World, op: Op, pl: Plot, blind: bool)
    requires PlainSafe(w, pl.vals) ==> PlainSafe(w', pl.vals)
    ensures ReaderRole(w, op, pl.vals, pl.seen) ==> ReaderRole(w', op, pl.vals, pl.seen)
    ensures w'.meta == w.meta && w'.plain == w.plain && WriterRole(w, op, pl.goal, blind) ==>
      WriterRole(w', op, pl.goal, blind)
  {
  }

  lemma OpenRole(s: System, step: Step, pl: Plot, blind: bool)
    requires step.DamageOpen? && Enabled(s, step) && Role(s, step.id, pl, blind)
    ensures Role(Next(s, step), step.id, pl, blind)
  {
  }

  lemma FirstRole(s: System, step: Step, pl: Plot, blind: bool)
    requires Enabled(s, step) && (step.Begin? || step.BeginPut?) && Allowed(step, pl)
    requires blind ==> step.id != pl.writer
    ensures Role(Next(s, step), step.id, pl, blind)
  {
  }

  lemma {:induction false} RunKeepsCast(s: System, steps: seq<Step>, pl: Plot, blind: bool)
    requires Cast(s, pl, blind) && Legal(s, steps) && (forall i :: 0 <= i < |steps| ==> Allowed(steps[i], pl))
    requires pl.seen ==> !Misled(s, steps, pl.vals)
    ensures Cast(Run(s, steps), pl, blind || Blinded(s, steps, pl.goal))
    decreases |steps|
  {
    hide Cast, Allowed, BlindCheck, StaleLook;
    if steps != [] {
      StepKeepsCast(s, steps[0], pl, blind);
      RunKeepsCast(Next(s, steps[0]), steps[1..], pl, blind || BlindCheck(s, steps[0], pl.goal));
    }
  }

  // What a run leaves, read off the cast.
  lemma Outcomes(s: System, pl: Plot, blind: bool)
    requires Cast(s, pl, blind)
    ensures pl.seen ==> forall id :: id in s.ops && id != pl.writer && s.ops[id].Got? ==> s.ops[id].bytes in pl.vals
    ensures Value(s.w).Some? ==> Value(s.w).value in pl.vals
    ensures pl.had && pl.goal.Some? ==> Value(s.w).Some?
    ensures pl.writer in s.ops ==> !s.ops[pl.writer].Got?
    ensures pl.writer in s.ops && s.ops[pl.writer] == Done(true) ==> (Value(s.w) == pl.goal <==> !blind)
  {
    hide Inv;
    forall id | id in s.ops ensures Role(s, id, pl, blind) {}
  }

  // What the store may be read as while newer replaces what is there.
  ghost function Both(w: World, newer: Bytes): set<Bytes> {
    if Value(w).Some? then {newer, Value(w).value} else {newer}
  }

  /** One writer replaces what a quiet store holds, plain or coded by either. However far it gets
      and whatever calls fail, the store holds the whole old value or the whole new one. Every
      read that completes, whenever it was issued, returned one of the two, unless a reader's
      check for meta.json failed beside a stale plain copy. And when the writer reports success
      the store reads as the new value if and only if its own check for meta.json did not fail
      while the old one was there. */
  lemma OldOrNew(s0: System, steps: seq<Step>, writer: nat, newer: Bytes)
    requires s0.ops == map[] && WorldOk(s0.w) && Legal(s0, steps)
    requires forall i :: 0 <= i < |steps| ==> Allowed(steps[i], Plot(writer, Some(newer), {}, false, false))
    ensures var s := Run(s0, steps);
      && (Value(s.w) == Value(s0.w) || Value(s.w) == Some(newer))
      && (!Misled(s0, steps, Both(s0.w, newer)) ==>
            forall id :: id in s.ops && s.ops[id].Got? ==> s.ops[id].bytes in Both(s0.w, newer))
      && (writer in s.ops && s.ops[writer] == Done(true) ==>
            (Value(s.w) == Some(newer) <==> !Blinded(s0, steps, Some(newer))))
  {
    hide WorldOk, Legal, Run, ShardsOf, Lawful, Misled, Blinded;
    var vals := Both(s0.w, newer);
    var pl := Plot(writer, Some(newer), vals, Value(s0.w).Some?, !Misled(s0, steps, vals));
    RunKeepsCast(s0, steps, pl, false);
    hide Cast;
    Outcomes(Run(s0, steps), pl, Blinded(s0, steps, Some(newer)));
  }

  /** One deleter of what a quiet store holds. Every read that completes returned the object, or
      a plain copy that lay beside it; and when the delete reports success nothing is left to
      read if and only if its check for meta.json did not fail while it was there. */
  lemma GoneOrNot(s0: System, steps: seq<Step>, deleter: nat)
    requires s0.ops == map[] && WorldOk(s0.w) && Legal(s0, steps)
    requires forall i :: 0 <= i < |steps| ==> Allowed(steps[i], Plot(deleter, None, {}, false, false))
    ensures var s := Run(s0, steps);
      && (Value(s.w).Some? ==> Value(s.w).value in Stored(s0.w))
      && (forall id :: id in s.ops && s.ops[id].Got? ==> s.ops[id].bytes in Stored(s0.w))
      && (deleter in s.ops && s.ops[deleter] == Done(true) ==> (Value(s.w) == None <==> !Blinded(s0, steps, None)))
  {
    hide WorldOk, Legal, Run, ShardsOf, Lawful, Misled, Blinded;
    var vals := Stored(s0.w);
    assert Cast(s0, Plot(deleter, None, vals, false, false), false);
    NeverMisled(s0, steps, Plot(deleter, None, vals, false, false));
    var pl := Plot(deleter, None, vals, false, true);
    RunKeepsCast(s0, steps, pl, false);
    hide Cast;
    Outcomes(Run(s0, steps), pl, Blinded(s0, steps, None));
  }

  ghost function Stored(w: World): set<Bytes> {
    (if w.meta.Some? then {w.meta.value.obj} else {}) + (if w.plain.Some? then {w.plain.value} else {})
  }

  // Where both copies may be read, no look is stale.
  lemma {:induction false} NeverMisled(s: System, steps: seq<Step>, pl: Plot)
    requires exists blind :: Cast(s, pl, blind)
    requires pl.goal.None? && !pl.seen && Legal(s, steps) && (forall i :: 0 <= i < |steps| ==> Allowed(steps[i], pl))
    ensures !Misled(s, steps, pl.vals)
    decreases |steps|
  {
    if steps != [] {
      var blind :| Cast(s, pl, blind);
      hide Allowed;
      StepKeepsCast(s, steps[0], pl, blind);
      NeverMisled(Next(s, steps[0]), steps[1..], pl);
    }
  }

  // --- the failed check, step by step ---

  // A plain put whose check for meta.json fails reports success, and the old version is read on.
  lemma BlindPut(s: System, id: nat, out: Outcome)
    requires Inv(s) && id in s.ops && s.ops[id].PlainCheck? && s.w.meta.Some?
    ensures Enabled(s, Act(id, out))
    ensures var s' := Next(s, Act(id, out));
      && s'.w == s.w && Value(s'.w) == Some(s.w.meta.value.obj)
      && (s'.ops[id] == Done(true) <==> out != Fine)
  {
  }

  lemma TwoSteps(s: System, a: Step, b: Step)
    requires Enabled(s, a) && !LateSwitch(s, a) && Enabled(Next(s, a), b) && !LateSwitch(Next(s, a), b)
    ensures Legal(s, [a, b]) && Run(s, [a, b]) == Next(Next(s, a), b)
  {
    hide Enabled, Next, LateSwitch;
    var s1 := Next(s, a);
    var s2 := Next(s1, b);
    assert [a, b][1..] == [b] && [b][1..] == [];
    assert Legal(s2, []) && Run(s2, []) == s2;
    assert Legal(s1, [b]);
    assert Run(s1, [b]) == Run(s2, [b][1..]);
    assert Run(s, [a, b]) == Run(s1, [a, b][1..]);
  }

  lemma FourSteps(s: System, a: Step, b: Step, c: Step, d: Step)
    requires Enabled(s, a) && !LateSwitch(s, a) && Enabled(Next(s, a), b) && !LateSwitch(Next(s, a), b)
    requires Legal(Next(Next(s, a), b), [c, d])
    ensures Legal(s, [a, b, c, d]) && Run(s, [a, b, c, d]) == Run(Next(Next(s, a), b), [c, d])
  {
    hide Enabled, Next, LateSwitch;
    var s1 := Next(s, a);
    assert [a, b, c, d][1..] == [b, c, d] && [b, c, d][1..] == [c, d];
    assert Legal(s1, [b, c, d]) && Run(s1, [b, c, d]) == Run(Next(s1, b), [c, d]);
  }

  // A delete whose check fails takes the plain copy, reports success, and the object stays.
  lemma BlindDelete(s: System, id: nat)
    requires Inv(s) && id in s.ops && s.ops[id].DelCheck? && s.w.meta.Some?
    ensures Legal(s, [Act(id, Fails), Act(id, Fine)])
    ensures var s' := Run(s, [Act(id, Fails), Act(id, Fine)]);
      s'.ops == s.ops[id := Done(true)] && Value(s'.w) == Some(s.w.meta.value.obj)
  {
    hide Inv, ShardsOf, Lawful, WellMade, StepPut, StepRetire, StepPlain, StepGet, StepHeal, Legal, Run;
    var s1 := Next(s, Act(id, Fails));
    assert s1 == System(s.w, s.ops[id := DelPlain(true)]);
    TwoSteps(s, Act(id, Fails), Act(id, Fine));
  }

  // What a read does whose check fails, and which nothing overtakes: it returns the plain copy.
  lemma Look(s: System, id: nat)
    requires id in s.ops && s.ops[id].GetCheck? && s.w.plain.Some?
    ensures Legal(s, [Act(id, Fails), Act(id, Fine)])
    ensures Run(s, [Act(id, Fails), Act(id, Fine)]) == System(s.w, s.ops[id := Got(None, s.w.plain.value)])
  {
    hide ShardsOf, Lawful, WellMade, NextOpen, StepPut, StepRetire, StepPlain, StepDelete, StepHeal, Legal, Run;
    var s1 := Next(s, Act(id, Fails));
    assert s1 == System(s.w, s.ops[id := GetPlain]);
    TwoSteps(s, Act(id, Fails), Act(id, Fine));
  }

  // It is right if and only if the look was not stale.
  lemma LookExactly(s: System, id: nat, vals: set<Bytes>)
    requires id in s.ops && s.ops[id].GetCheck? && s.w.meta.Some? && s.w.plain.Some?
    ensures Legal(s, [Act(id, Fails), Act(id, Fine)])
    ensures var s' := Run(s, [Act(id, Fails), Act(id, Fine)]);
      && s'.ops == s.ops[id := Got(None, s.w.plain.value)]
      && (s.w.plain.value in vals <==> !StaleLook(s, Act(id, Fails), vals))
  {
    hide Legal, Run;
    Look(s, id);
  }

  // A coded put fails to drop the plain copy it replaces and reports success. A read whose
  // check then fails returns that copy, which nobody has stored since.
  lemma StaleCopyServed(s: System, writer: nat, reader: nat)
    requires Inv(s) && writer in s.ops && s.ops[writer].DropPlain? && s.w.meta.Some? && s.w.plain.Some?
    requires reader !in s.ops
    ensures var steps := [Act(writer, Fails), Begin(reader, GetCheck), Act(reader, Fails), Act(reader, Fine)];
      && Legal(s, steps)
      && Run(s, steps) == System(s.w, s.ops[writer := Done(true)][reader := Got(None, s.w.plain.value)])
  {
    hide Inv, ShardsOf, Lawful, WellMade, StepRetire, StepPlain, StepDelete, StepGet, StepHeal, Legal, Run;
    var s1 := Next(s, Act(writer, Fails));
    assert s1 == System(s.w, s.ops[writer := Done(true)]);
    var s2 := Next(s1, Begin(reader, GetCheck));
    assert s2 == System(s.w, s1.ops[reader := GetCheck]);
    Look(s2, reader);
    FourSteps(s, Act(writer, Fails), Begin(reader, GetCheck), Act(reader, Fails), Act(reader, Fine));
  }
}
