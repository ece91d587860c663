// What each operation of the commit protocol achieves when nothing interferes and every
// storage call succeeds: internal/erasure/engine.go and internal/erasure/heal.go.

module AloneRuns {
  import opened Wrappers
  import opened ColumnCode
  import opened Layout
  import opened CommitProtocol
  import opened CommitSafety

  // Up to n steps of one operation, stopping when it is finished.
  ghost function Alone(w: World, op: Op, n: nat): (World, Op)
    decreases n
  {
    if n == 0 || Finished(op) || !Positioned(op) then (w, op)
    else
      var r := StepOp(w, op, Fine);
      Alone(r.0, r.1, n - 1)
  }

  // Running op alone from w gets to op' with storage w'.
  ghost predicate Leads(w: World, op: Op, w': World, op': Op) {
    exists n: nat :: Alone(w, op, n) == (w', op')
  }

  lemma {:induction false} AloneMore(w: World, op: Op, a: nat, b: nat)
    ensures var r := Alone(w, op, a); Alone(w, op, a + b) == Alone(r.0, r.1, b)
    decreases a
  {
    hide StepOp, Positioned;
    if a > 0 && !Finished(op) && Positioned(op) {
      var r := StepOp(w, op, Fine);
      AloneMore(r.0, r.1, a - 1, b);
    }
  }

  lemma Chain(w: World, op: Op, w1: World, op1: Op, w2: World, op2: Op)
    requires Leads(w, op, w1, op1) && Leads(w1, op1, w2, op2)
    ensures Leads(w, op, w2, op2)
  {
    hide Alone;
    var a: nat :| Alone(w, op, a) == (w1, op1);
    var b: nat :| Alone(w1, op1, b) == (w2, op2);
    AloneMore(w, op, a, b);
    assert Alone(w, op, a + b) == (w2, op2);
  }

  lemma Here(w: World, op: Op)
    ensures Leads(w, op, w, op)
  {
    assert Alone(w, op, 0) == (w, op);
  }

  lemma Step(w: World, op: Op, w2: World, op2: Op)
    requires Positioned(op) && !Finished(op) && var r := StepOp(w, op, Fine); Leads(r.0, r.1, w2, op2)
    ensures Leads(w, op, w2, op2)
  {
    hide StepOp, Positioned;
    var r := StepOp(w, op, Fine);
    var n: nat :| Alone(r.0, r.1, n) == (w2, op2);
    assert Alone(w, op, n + 1) == (w2, op2);
  }

  // It is a run of the system.
  lemma {:induction false} AloneIsRun(s: System, id: nat, n: nat) returns (k: nat)
    requires id in s.ops
    ensures Legal(s, Repeat(Act(id, Fine), k))
    ensures var r := Alone(s.w, s.ops[id], n); Run(s, Repeat(Act(id, Fine), k)) == System(r.0, s.ops[id := r.1])
    decreases n
  {
    hide StepOp, Positioned;
    if n == 0 || Finished(s.ops[id]) || !Positioned(s.ops[id]) {
      k := 0;
      assert s.ops[id := s.ops[id]] == s.ops;
    } else {
      var s' := Next(s, Act(id, Fine));
      k := AloneIsRun(s', id, n - 1);
      var steps := Repeat(Act(id, Fine), k + 1);
      assert steps[1..] == Repeat(Act(id, Fine), k);
      var r := Alone(s.w, s.ops[id], n);
      assert s'.ops[id := r.1] == s.ops[id := r.1];
      k := k + 1;
    }
  }

  // So whatever an operation leads to alone, the system with that operation in it can run to,
  // with every other operation where it was.
  lemma LeadsIsRun(s: System, id: nat, w': World, op': Op)
    requires id in s.ops && Leads(s.w, s.ops[id], w', op')
    ensures exists k: nat ::
      && Legal(s, Repeat(Act(id, Fine), k))
      && Run(s, Repeat(Act(id, Fine), k)) == System(w', s.ops[id := op'])
  {
    hide Alone, Legal, Run;
    var n: nat :| Alone(s.w, s.ops[id], n) == (w', op');
    var k := AloneIsRun(s, id, n);
  }

  // --- the loops over shards ---

  ghost function Filled(w: World, v: Version, i: nat): World
    requires Lawful(v.c)
    decreases Total(v) - i
  {
    if i >= Total(v) then w else Filled(PutShard(w, v, i, Shard(v, i)), v, i + 1)
  }

  // The shards of v from i on, and no others.
  ghost predicate Among(v: Version, i: nat, n: nat, p: Path) { p.0 == v.gen && i <= p.1 < n }

  lemma {:induction false} FilledIs(w: World, v: Version, i: nat)
    requires Lawful(v.c)
    ensures var r := Filled(w, v, i);
      && r == w.(shards := r.shards, damaged := r.damaged)
      && (forall p :: p in r.shards <==> p in w.shards || Among(v, i, Total(v), p))
      && (forall p :: p in r.shards ==> r.shards[p] == if Among(v, i, Total(v), p) then Shard(v, p.1) else w.shards[p])
      && (forall p :: p in r.damaged <==> p in w.damaged && !Among(v, i, Total(v), p))
    decreases Total(v) - i
  {
    hide ShardsOf, Lawful;
    if i < Total(v) { FilledIs(PutShard(w, v, i, Shard(v, i)), v, i + 1); }
  }

  lemma {:induction false} RemovedIs(w: World, v: Version, i: nat, n: nat)
    ensures var r := Removed(w, v, i, n);
      && r == w.(shards := r.shards)
      && (forall p :: p in r.shards <==> p in w.shards && !Among(v, i, n, p))
      && (forall p :: p in r.shards ==> r.shards[p] == w.shards[p])
    decreases n - i
  {
    if i < n { RemovedIs(DeleteShard(w, v, i), v, i + 1, n); }
  }

  lemma {:induction false} Writes(w: World, v: Version, i: nat)
    requires Lawful(v.c) && i < Total(v)
    ensures Leads(w, Writing(v, i), Filled(w, v, i), ReadPrev(v))
    decreases Total(v) - i
  {
    hide ShardsOf, Lawful, Leads;
    var w' := PutShard(w, v, i, Shard(v, i));
    if i + 1 == Total(v) {
      assert Filled(w, v, i) == w';
      Here(w', ReadPrev(v));
    } else {
      Writes(w', v, i + 1);
    }
    Step(w, Writing(v, i), Filled(w, v, i), ReadPrev(v));
  }

  ghost function Follow(next: Then): Op {
    match next case DropPlainCopy => DropPlain case Finish => Done(true) case DeletePlain => DelPlain(true)
  }

  lemma {:induction false} Retires(w: World, v: Version, i: nat, next: Then)
    requires i < Total(v)
    ensures Leads(w, Retire(v, i, next, true), Removed(w, v, i, Total(v)), Follow(next))
    decreases Total(v) - i
  {
    hide Leads;
    var w' := DeleteShard(w, v, i);
    if i + 1 == Total(v) {
      assert Removed(w', v, i + 1, Total(v)) == w';
      Here(w', Follow(next));
    } else {
      Retires(w', v, i + 1, next);
    }
    Step(w, Retire(v, i, next, true), Removed(w, v, i, Total(v)), Follow(next));
  }

  lemma {:induction false} Aborts(w: World, v: Version, i: nat, n: nat)
    requires i < n
    ensures Leads(w, Aborting(v, i, n), Removed(w, v, i, n), Done(false))
    decreases n - i
  {
    hide Leads;
    var w' := DeleteShard(w, v, i);
    if i + 1 == n {
      assert Removed(w', v, i + 1, n) == w';
      Here(w', Done(false));
    } else {
      Aborts(w', v, i + 1, n);
    }
    Step(w, Aborting(v, i, n), Removed(w, v, i, n), Done(false));
  }

  // --- writes ---

  // Nothing is stored but the current version, if there is one.
  ghost predicate Tidy(w: World) {
    forall p :: p in w.shards ==> w.meta.Some? && p.0 == w.meta.value.gen
  }

  // Exactly this version is stored.
  ghost predicate OnlyCoded(w: World, v: Version)
    requires Lawful(v.c)
  {
    && w.meta == Some(v) && w.plain == None
    && (forall p :: p in w.shards <==> Among(v, 0, Total(v), p))
    && (forall p :: p in w.shards ==> w.shards[p] == Shard(v, p.1))
  }

  // What the current version leaves when its shards are removed.
  lemma CurrentRemoved(w: World, v: Version)
    requires WorldOk(w) && w.meta == Some(v) && (w.meta.Some? ==> WellMade(v))
    ensures forall p :: p in w.shards && p.0 == v.gen ==> Among(v, 0, Total(v), p)
  {
    forall p | p in w.shards && p.0 == v.gen ensures Among(v, 0, Total(v), p) { assert FileOk(w, p); }
  }

  /** A put that nothing disturbs ends well and leaves exactly its own version: every shard of
      it, no shard of the version it replaced and no plain copy. */
  lemma PutAlone(w: World, v: Version) returns (w': World)
    requires WorldOk(w) && Tidy(w) && v.gen !in w.versions && WellMade(v)
    ensures Leads(w, Writing(v, 0), w', Done(true)) && OnlyCoded(w', v)
  {
    hide ShardsOf, Lawful, Leads, OnlyCoded, Filled, Removed;
    AtLeastOneShard(v);
    if w.meta.Some? { AtLeastOneShard(w.meta.value); }
    PutLeaves(w, v);
    hide WorldOk, Tidy;
    var w1 := Filled(w, v, 0);
    Writes(w, v, 0);
    FilledIs(w, v, 0);
    var w2 := PutMeta(w1, v);
    var w3 := if w.meta.Some? then Removed(w2, w.meta.value, 0, Total(w.meta.value)) else w2;
    w' := w3.(plain := None);
    Here(w', Done(true));
    Step(w3, DropPlain, w', Done(true));
    if w.meta.Some? {
      var u := w.meta.value;
      Retires(w2, u, 0, DropPlainCopy);
      Chain(w2, Retire(u, 0, DropPlainCopy, true), w3, DropPlain, w', Done(true));
    }
    Step(w1, Switch(v, w.meta), w', Done(true));
    Step(w1, ReadPrev(v), w', Done(true));
    Chain(w, Writing(v, 0), w1, ReadPrev(v), w', Done(true));
  }

  // What it leaves.
  lemma PutLeaves(w: World, v: Version)
    requires WorldOk(w) && Tidy(w) && v.gen !in w.versions && WellMade(v)
    ensures w.meta.Some? ==> w.meta.value.gen != v.gen
    ensures var w2 := PutMeta(Filled(w, v, 0), v);
      var w3 := if w.meta.Some? then Removed(w2, w.meta.value, 0, Total(w.meta.value)) else w2;
      OnlyCoded(w3.(plain := None), v)
  {
    hide ShardsOf, Lawful, Filled, Removed;
    FilledIs(w, v, 0);
    var w2 := PutMeta(Filled(w, v, 0), v);
    if w.meta.Some? {
      RemovedIs(w2, w.meta.value, 0, Total(w.meta.value));
      CurrentRemoved(w, w.meta.value);
    }
    forall p | p in w.shards ensures FileOk(w, p) && p.0 != v.gen { assert FileOk(w, p); }
  }

  // A put that fails while it writes shard i, and cleans up, leaves storage as it was.
  lemma FailedPutLeavesNoTrace(w: World, v: Version, i: nat, out: Outcome) returns (w': World)
    requires WorldOk(w) && Unpublished(w, v) && i < Total(v) && Written(w, v, i) && out != Fine
    requires forall p :: p in w.shards && p.0 == v.gen ==> p.1 < i
    ensures var r := StepPut(w, Writing(v, i), out); Leads(r.0, r.1, w', Done(false))
    ensures w'.meta == w.meta && w'.plain == w.plain
    ensures forall p :: p in w'.shards <==> p in w.shards && p.0 != v.gen
    ensures forall p :: p in w'.shards ==> w'.shards[p] == w.shards[p]
  {
    hide ShardsOf, Lawful, Leads, WorldOk;
    var r := StepPut(w, Writing(v, i), out);
    w' := Removed(r.0, v, 0, i + 1);
    Aborts(r.0, v, 0, i + 1);
    RemovedIs(r.0, v, 0, i + 1);
  }

  // A plain put alone leaves exactly the plain content.
  lemma PlainAlone(w: World, data: seq<byte>) returns (w': World)
    requires WorldOk(w) && Tidy(w)
    ensures Leads(w, WritePlain(data), w', Done(true))
    ensures w'.meta == None && w'.plain == Some(data) && w'.shards == map[]
  {
    hide ShardsOf, Lawful, Leads, WorldOk, Tidy, Unlinked;
    var w1 := PutPlain(w, data);
    w' := w1.(meta := None, shards := map[]);
    UnlinkedIs(w, w1);
    if w.meta.Some? {
      RetireCurrent(w, w1, Finish);
      Step(w1, PlainDropMeta(w.meta), w', Done(true));
      Step(w1, PlainReadPrev, w', Done(true));
    } else {
      Here(w1, Done(true));
    }
    Step(w1, PlainCheck, w', Done(true));
    Step(w, WritePlain(data), w', Done(true));
  }

  // A delete alone leaves nothing.
  lemma DeleteAlone(w: World) returns (w': World)
    requires WorldOk(w) && Tidy(w)
    ensures Leads(w, DelCheck, w', Done(true))
    ensures w'.meta == None && w'.plain == None && w'.shards == map[]
  {
    hide ShardsOf, Lawful, Leads, WorldOk, Tidy, Unlinked;
    var w1 := w.(meta := None, shards := map[]);
    UnlinkedIs(w, w);
    w' := w1.(plain := None);
    Here(w', Done(true));
    Step(w1, DelPlain(true), w', Done(true));
    if w.meta.Some? {
      RetireCurrent(w, w, DeletePlain);
      Chain(w.(meta := None), Retire(w.meta.value, 0, DeletePlain, true), w1, DelPlain(true), w', Done(true));
      Step(w, DelDropMeta(w.meta), w', Done(true));
      Step(w, DelReadPrev, w', Done(true));
    }
    Step(w, DelCheck, w', Done(true));
  }

  // Storage without its coded version.
  ghost function Unlinked(w: World): World {
    if w.meta.Some? then Removed(w.(meta := None), w.meta.value, 0, Total(w.meta.value)) else w
  }

  lemma RetireCurrent(w: World, w1: World, next: Then)
    requires WorldOk(w) && Tidy(w) && w.meta.Some? && w1.meta == w.meta && w1.shards == w.shards
    ensures Leads(w1.(meta := None), Retire(w.meta.value, 0, next, true), Unlinked(w1), Follow(next))
  {
    hide ShardsOf, Lawful, Leads;
    var v := w.meta.value;
    AtLeastOneShard(v);
    Retires(w1.(meta := None), v, 0, next);
  }

  lemma UnlinkedIs(w: World, w1: World)
    requires WorldOk(w) && Tidy(w) && w1.meta == w.meta && w1.shards == w.shards
    ensures Unlinked(w1) == w1.(meta := None, shards := map[])
    ensures if w.meta.Some? then Total(w.meta.value) > 0 else w1.shards == map[]
  {
    hide ShardsOf, Lawful;
    if w.meta.Some? {
      var v := w.meta.value;
      AtLeastOneShard(v);
      RemovedIs(w1.(meta := None), v, 0, Total(v));
      CurrentRemoved(w, v);
    }
  }

  // --- reads ---

  // The shards of v that are as they were written.
  ghost function Sound(w: World, v: Version): (r: seq<Option<seq<byte>>>)
    requires Lawful(v.c)
    ensures |r| == Total(v)
  {
    seq(Total(v), i requires 0 <= i < Total(v) => if Intact(w, v, i) then Some(Shard(v, i)) else None)
  }

  // At most m shards of v are bad.
  ghost predicate Readable(w: World, v: Version) {
    WorldOk(w) && Published(w, v) && Present(Sound(w, v)) >= v.c.k
  }

  // got is what opening the first shards gave, the excluded one aside.
  ghost predicate Opened(w: World, v: Version, exclude: int, got: seq<Option<seq<byte>>>) {
    |got| <= Total(v) &&
    forall i :: 0 <= i < |got| ==> got[i] == if i == exclude then None else OpenShard(w, v, i, Fine)
  }

  lemma OpenedCaptured(w: World, v: Version, exclude: int, got: seq<Option<seq<byte>>>)
    requires WorldOk(w) && Published(w, v) && Opened(w, v, exclude, got)
    ensures Captured(v, got)
  {
    hide ShardsOf, Lawful, WorldOk, OpenShard;
    forall i | 0 <= i < |got| && got[i].Some? ensures TrueOrTelling(v, i, got[i].value) {
      OpenedIs(w, v, i, Fine);
    }
  }

  // Of what was opened every column has k sound bytes.
  lemma EnoughPass(w: World, v: Version, exclude: int, got: seq<Option<seq<byte>>>, fast: seq<Option<seq<byte>>>)
    requires Readable(w, v) && Opened(w, v, exclude, got) && |got| == Total(v)
    requires 0 <= exclude < Total(v) ==> !Intact(w, v, exclude)
    ensures v.c.k >= 1 && Present(got) >= v.c.k && Covered(v, fast, got)
  {
    hide ShardsOf, Lawful, WorldOk, Present, PerShard;
    AtLeastOneShard(v);
    PerShardBounds(|v.obj|, v.c.k);
    PresentMonotone(Sound(w, v), got);
    forall q: nat | q < |v.obj| ensures CoveredAt(v, fast, got, q) {
      var per := PerShardOf(v);
      DivMod(q, per);
      SoundColumn(w, v, exclude, got, q % per);
    }
  }

  lemma SoundColumn(w: World, v: Version, exclude: int, got: seq<Option<seq<byte>>>, x: nat)
    requires Published(w, v) && Opened(w, v, exclude, got) && |got| == Total(v) && v.c.k >= 1 && x < PerShardOf(v)
    requires 0 <= exclude < Total(v) ==> !Intact(w, v, exclude)
    ensures Present(ColumnAt(v, got, x)) >= Present(Sound(w, v))
  {
    forall i | 0 <= i < Total(v) && Sound(w, v)[i].Some? ensures ColumnAt(v, got, x)[i].Some? {
      assert got[i] == Some(Shard(v, i)) && |Shard(v, i)| == PerShardOf(v);
    }
    PresentMonotone(Sound(w, v), ColumnAt(v, got, x));
  }

  lemma {:induction false} SlowLeads(w: World, v: Version, exclude: int, live: bool, fast: seq<Option<seq<byte>>>,
                                     got: seq<Option<seq<byte>>>, retry: bool)
    requires Readable(w, v) && Opened(w, v, exclude, got) && |got| < Total(v) && Captured(v, fast) && |fast| <= v.c.k
    requires 0 <= exclude < Total(v) ==> !Intact(w, v, exclude)
    ensures Leads(w, GetOpen(v, Slow(exclude, live, fast), got, retry), w, Got(Some(v), v.obj))
    decreases Total(v) - |got|
  {
    hide ShardsOf, Lawful, WorldOk, Present, Leads, OpenShard, Decoded, Passing, Join, Sound, Covered, Pieced, Captured;
    var got' := got + [if |got| == exclude then None else OpenShard(w, v, |got|, Fine)];
    var op := GetOpen(v, Slow(exclude, live, fast), got, retry);
    if |got'| < Total(v) {
      SlowLeads(w, v, exclude, live, fast, got', retry);
    } else {
      EnoughPass(w, v, exclude, got', fast);
      OpenedCaptured(w, v, exclude, got');
      PiecedIs(v, fast, got');
      Here(w, Got(Some(v), v.obj));
    }
    Step(w, op, w, Got(Some(v), v.obj));
  }

  lemma {:induction false} FirstBadIs(got: seq<Option<seq<byte>>>)
    requires Present(got) != |got|
    ensures FirstBad(got) < |got| && got[FirstBad(got)].None?
  {
    if got != [] && got[0].Some? { FirstBadIs(got[1..]); }
  }

  // A data shard that fails its check is not as written.
  lemma BadIsNotIntact(w: World, v: Version, got: seq<Option<seq<byte>>>, i: nat)
    requires Published(w, v) && Opened(w, v, -1, got) && i < |got| && Passing(v, got)[i].None?
    ensures !Intact(w, v, i)
  {
    hide ShardsOf, Lawful;
  }

  lemma NothingCaptured(v: Version)
    requires WellMade(v)
    ensures Captured(v, [])
  {
  }

  lemma {:induction false} FastLeads(w: World, v: Version, got: seq<Option<seq<byte>>>, retry: bool)
    requires Readable(w, v) && Opened(w, v, -1, got) && |got| < v.c.k
    requires forall i :: 0 <= i < |got| ==> got[i].Some?
    ensures Leads(w, GetOpen(v, Fast, got, retry), w, Got(Some(v), v.obj))
    decreases v.c.k - |got|
  {
    hide ShardsOf, Lawful, WorldOk, Present, Leads, OpenShard, Decoded, Passing, Join, Sound;
    var o := OpenShard(w, v, |got|, Fine);
    var got' := got + [o];
    if o.None? {
      NothingCaptured(v);
      SlowLeads(w, v, -1, false, [], [], retry);
    } else if |got'| < v.c.k {
      FastLeads(w, v, got', retry);
    } else if Present(Passing(v, got')) == |got'| {
      OpenedCaptured(w, v, -1, got');
      DataJoins(v, got');
      Here(w, Got(Some(v), v.obj));
    } else {
      FirstBadIs(Passing(v, got'));
      BadIsNotIntact(w, v, got', FirstBad(Passing(v, got')));
      OpenedCaptured(w, v, -1, got');
      SlowLeads(w, v, FirstBad(Passing(v, got')), true, got', [], retry);
    }
    Step(w, GetOpen(v, Fast, got, retry), w, Got(Some(v), v.obj));
  }

  // --- however many shards are bad ---

  // A read of v ends with all of v, or fails.
  ghost predicate Ends(w: World, op: Op, v: Version) {
    Leads(w, op, w, Got(Some(v), v.obj)) || Leads(w, op, w, GetFailed)
  }

  lemma EndsStep(w: World, op: Op, v: Version)
    requires Positioned(op) && !Finished(op) && StepOp(w, op, Fine).0 == w && Ends(w, StepOp(w, op, Fine).1, v)
    ensures Ends(w, op, v)
  {
    hide Leads, StepOp, Positioned;
    if Leads(w, StepOp(w, op, Fine).1, w, GetFailed) {
      Step(w, op, w, GetFailed);
    } else {
      Step(w, op, w, Got(Some(v), v.obj));
    }
  }

  lemma EndsHere(w: World, v: Version)
    ensures Ends(w, Got(Some(v), v.obj), v) && Ends(w, GetFailed, v)
  {
    hide Leads;
    Here(w, Got(Some(v), v.obj));
    Here(w, GetFailed);
  }

  // The version that was read is still the current one, so there is no other to follow.
  lemma RetryFails(w: World, v: Version)
    requires w.meta == Some(v)
    ensures Leads(w, GetRetry(v), w, GetFailed) && Ends(w, GetRetry(v), v)
  {
    hide Leads;
    Here(w, GetFailed);
    Step(w, GetRetry(v), w, GetFailed);
  }

  lemma {:induction false} LastEnds(w: World, v: Version, got: seq<Option<seq<byte>>>, live: bool, retry: bool)
    requires WorldOk(w) && Published(w, v) && w.meta == Some(v) && Agreeing(v, got) && |got| < Total(v)
    ensures Ends(w, GetOpen(v, Last(live), got, retry), v)
    decreases Total(v) - |got|
  {
    hide ShardsOf, Lawful, WorldOk, Present, Ends, ReadShard, Decoded, Join;
    var got' := got + [ReadShard(w, v, |got|, Fine)];
    OpenedIs(w, v, |got|, Fine);
    AgreeingAppend(v, got, ReadShard(w, v, |got|, Fine));
    EndsHere(w, v);
    if |got'| < Total(v) {
      LastEnds(w, v, got', live, retry);
    } else if Present(got') >= v.c.k {
      DecodedIs(v, got');
      AtLeastOneShard(v);
    } else {
      RetryFails(w, v);
    }
    EndsStep(w, GetOpen(v, Last(live), got, retry), v);
  }

  lemma {:induction false} SlowEnds(w: World, v: Version, stage: Stage, got: seq<Option<seq<byte>>>, retry: bool)
    requires WorldOk(w) && Published(w, v) && w.meta == Some(v) && stage.Slow? && Captured(v, stage.fast)
    requires |stage.fast| <= v.c.k
    requires Opened(w, v, stage.exclude, got) && |got| < Total(v)
    ensures Ends(w, GetOpen(v, stage, got, retry), v)
    decreases Total(v) - |got|
  {
    hide ShardsOf, Lawful, WorldOk, Present, Ends, OpenShard, Covered, Pieced, Captured;
    var got' := got + [if |got| == stage.exclude then None else OpenShard(w, v, |got|, Fine)];
    EndsHere(w, v);
    if |got'| < Total(v) {
      SlowEnds(w, v, stage, got', retry);
    } else {
      AtLeastOneShard(v);
      OpenedCaptured(w, v, stage.exclude, got');
      LastEnds(w, v, [], stage.live, retry);
      if Covered(v, stage.fast, got') { PiecedIs(v, stage.fast, got'); }
    }
    EndsStep(w, GetOpen(v, stage, got, retry), v);
  }

  lemma {:induction false} FastEnds(w: World, v: Version, got: seq<Option<seq<byte>>>, retry: bool)
    requires WorldOk(w) && Published(w, v) && w.meta == Some(v) && Opened(w, v, -1, got) && |got| < v.c.k
    requires forall i :: 0 <= i < |got| ==> got[i].Some?
    ensures Ends(w, GetOpen(v, Fast, got, retry), v)
    decreases v.c.k - |got|
  {
    hide ShardsOf, Lawful, WorldOk, Present, Ends, OpenShard, Passing, Join, Captured;
    var o := OpenShard(w, v, |got|, Fine);
    var got' := got + [o];
    EndsHere(w, v);
    NothingCaptured(v);
    if o.None? {
      SlowEnds(w, v, Slow(-1, false, []), [], retry);
    } else if |got'| < v.c.k {
      FastEnds(w, v, got', retry);
    } else {
      OpenedCaptured(w, v, -1, got');
      if Present(Passing(v, got')) == |got'| {
        DataJoins(v, got');
      } else {
        SlowEnds(w, v, Slow(FirstBad(Passing(v, got')), true, got'), [], retry);
      }
    }
    EndsStep(w, GetOpen(v, Fast, got, retry), v);
  }

  /** A get that nothing disturbs. With a current version it returns that version or fails,
      whatever plain copy there may be: it returns it when at most m shards are bad, and fails
      when none is left. Without one it returns the plain content, and fails if there is none. */
  lemma GetAlone(w: World)
    requires WorldOk(w)
    ensures w.meta.Some? ==> Ends(w, GetCheck, w.meta.value)
    ensures w.meta.Some? && Readable(w, w.meta.value) ==> Leads(w, GetCheck, w, Got(w.meta, w.meta.value.obj))
    ensures w.meta.Some? && Gone(w, w.meta.value) ==> Leads(w, GetCheck, w, GetFailed)
    ensures w.meta.None? ==> Leads(w, GetCheck, w, if w.plain.Some? then Got(None, w.plain.value) else GetFailed)
  {
    OnRecord(w);
    hide ShardsOf, Lawful, WorldOk, Present, Leads, Sound, Gone, Readable;
    if w.meta.Some? {
      var v := w.meta.value;
      AtLeastOneShard(v);
      FastEnds(w, v, [], true);
      EndsStep(w, GetMeta(true), v);
      EndsStep(w, GetCheck, v);
      if Readable(w, v) {
        FastLeads(w, v, [], true);
        Step(w, GetMeta(true), w, Got(w.meta, v.obj));
        Step(w, GetCheck, w, Got(w.meta, v.obj));
      }
      if Gone(w, v) {
        GoneFails(w, v);
        Step(w, GetMeta(true), w, GetFailed);
        Step(w, GetCheck, w, GetFailed);
      }
    } else {
      var end := if w.plain.Some? then Got(None, w.plain.value) else GetFailed;
      Here(w, end);
      Step(w, GetPlain, w, end);
      Step(w, GetCheck, w, end);
    }
  }

  lemma GoneFails(w: World, v: Version)
    requires WellMade(v) && Gone(w, v) && w.meta == Some(v)
    ensures Leads(w, GetOpen(v, Fast, [], true), w, GetFailed)
  {
    hide Leads, Lawful;
    AtLeastOneShard(v);
    RetryFails(w, v);
    SlowOfGone(w, v, [], GetFailed);
    assert OpenShard(w, v, 0, Fine) == None;
    Step(w, GetOpen(v, Fast, [], true), w, GetFailed);
  }

  // Every shard of v has been removed since it was current.
  ghost predicate Gone(w: World, v: Version) {
    forall i :: 0 <= i < Total(v) ==> (v.gen, i) !in w.shards
  }

  ghost predicate AllNone(got: seq<Option<seq<byte>>>) { forall i :: 0 <= i < |got| ==> got[i].None? }

  lemma {:induction false} NonePresent(got: seq<Option<seq<byte>>>)
    requires AllNone(got)
    ensures Present(got) == 0
  {
    if got != [] { NonePresent(got[1..]); }
  }

  lemma {:induction false} LastOfGone(w: World, v: Version, got: seq<Option<seq<byte>>>, op: Op)
    requires Lawful(v.c) && Gone(w, v) && |got| < Total(v) && AllNone(got) && Leads(w, GetRetry(v), w, op)
    ensures Leads(w, GetOpen(v, Last(false), got, true), w, op)
    decreases Total(v) - |got|
  {
    hide Leads, Present, Decoded, Lawful;
    var got' := got + [None];
    assert ReadShard(w, v, |got|, Fine) == None;
    if |got'| < Total(v) {
      LastOfGone(w, v, got', op);
    } else {
      NonePresent(got');
      OneData(v);
    }
    Step(w, GetOpen(v, Last(false), got, true), w, op);
  }

  lemma OneData(v: Version)
    requires Lawful(v.c)
    ensures v.c.k >= 1
  {
  }

  lemma {:induction false} SlowOfGone(w: World, v: Version, got: seq<Option<seq<byte>>>, op: Op)
    requires Lawful(v.c) && Gone(w, v) && |got| < Total(v) && AllNone(got) && Leads(w, GetRetry(v), w, op)
    ensures Leads(w, GetOpen(v, Slow(-1, false, []), got, true), w, op)
    decreases Total(v) - |got|
  {
    hide Leads, Present, Decoded, Lawful;
    var got' := got + [None];
    assert OpenShard(w, v, |got|, Fine) == None;
    if |got'| < Total(v) {
      SlowOfGone(w, v, got', op);
    } else {
      NonePresent(got');
      OneData(v);
      LastOfGone(w, v, [], op);
    }
    Step(w, GetOpen(v, Slow(-1, false, []), got, true), w, op);
  }

  /** A get overtaken by a writer: it has opened some data shards of v, and v has been replaced
      by u and removed. It goes on to return all of u. */
  lemma OvertakenGet(w: World, v: Version, got: seq<Option<seq<byte>>>)
    requires Published(w, v) && v.gen != 0 && Gone(w, v) && |got| < v.c.k
    requires w.meta.Some? && w.meta.value.gen != v.gen && Readable(w, w.meta.value)
    ensures Leads(w, GetOpen(v, Fast, got, true), w, Got(w.meta, w.meta.value.obj))
  {
    hide Leads, Present, Lawful, WorldOk, Sound, ShardsOf;
    var end := Got(w.meta, w.meta.value.obj);
    AtLeastOneShard(v);
    AtLeastOneShard(w.meta.value);
    FastLeads(w, w.meta.value, [], false);
    Step(w, GetMeta(false), w, end);
    Step(w, GetRetry(v), w, end);
    SlowOfGone(w, v, [], end);
    assert OpenShard(w, v, |got|, Fine) == None;
    Step(w, GetOpen(v, Fast, got, true), w, end);
  }

  // --- heal ---

  ghost function Patched(w: World, v: Version, got: seq<Option<seq<byte>>>, j: nat): World
    requires Lawful(v.c) && |got| == Total(v)
    decreases Total(v) - j
  {
    if j >= Total(v) then w
    else Patched(if got[j].None? then PutShard(w, v, j, Shard(v, j)) else w, v, got, j + 1)
  }

  // The shards from j on that could not be read.
  ghost predicate Lost(v: Version, got: seq<Option<seq<byte>>>, j: nat, p: Path) {
    Among(v, j, |got|, p) && got[p.1].None?
  }

  lemma {:induction false} PatchedIs(w: World, v: Version, got: seq<Option<seq<byte>>>, j: nat)
    requires Lawful(v.c) && |got| == Total(v)
    ensures var r := Patched(w, v, got, j);
      && r == w.(shards := r.shards, damaged := r.damaged)
      && (forall p :: p in r.shards <==> p in w.shards || Lost(v, got, j, p))
      && (forall p :: p in r.shards ==> r.shards[p] == if Lost(v, got, j, p) then Shard(v, p.1) else w.shards[p])
    decreases Total(v) - j
  {
    hide ShardsOf, Lawful;
    if j < Total(v) { PatchedIs(if got[j].None? then PutShard(w, v, j, Shard(v, j)) else w, v, got, j + 1); }
  }

  lemma {:induction false} WritesBack(w: World, v: Version, got: seq<Option<seq<byte>>>, j: nat)
    requires Lawful(v.c) && |got| == Total(v) && j < Total(v)
    ensures Leads(w, HealWrite(v, ShardsOf(v.c, v.obj), got, j), Patched(w, v, got, j), Done(true))
    decreases Total(v) - j
  {
    var full := ShardsOf(v.c, v.obj);
    hide ShardsOf, Lawful, Leads;
    var w' := if got[j].None? then PutShard(w, v, j, Shard(v, j)) else w;
    if j + 1 == Total(v) {
      assert Patched(w', v, got, j + 1) == w';
      Here(w', Done(true));
    } else {
      WritesBack(w', v, got, j + 1);
    }
    Step(w, HealWrite(v, full, got, j), Patched(w, v, got, j), Done(true));
  }

  // got is what reading the first shards in full gave.
  ghost predicate Scanned(w: World, v: Version, got: seq<Option<seq<byte>>>) {
    |got| <= Total(v) && forall i :: 0 <= i < |got| ==> got[i] == ReadShard(w, v, i, Fine)
  }

  // Reading a shard in full finds it if and only if it is as written.
  lemma ReadIffIntact(w: World, v: Version, i: nat)
    requires WorldOk(w) && Published(w, v) && i < Total(v)
    ensures ReadShard(w, v, i, Fine) == if Intact(w, v, i) then Some(Shard(v, i)) else None
  {
    hide ShardsOf, Lawful;
    if (v.gen, i) in w.shards { assert FileOk(w, (v.gen, i)); }
  }

  lemma ScannedIsSound(w: World, v: Version, got: seq<Option<seq<byte>>>)
    requires WorldOk(w) && Published(w, v) && Scanned(w, v, got) && |got| == Total(v)
    ensures got == Sound(w, v) && Agreeing(v, got)
  {
    hide ShardsOf, Lawful, WorldOk, ReadShard;
    forall i | 0 <= i < |got| ensures got[i] == Sound(w, v)[i] { ReadIffIntact(w, v, i); }
  }

  // Where the scan leads: nothing to do, or writing back what is bad.
  ghost function AfterScan(w: World, v: Version): (World, Op)
    requires Lawful(v.c)
  {
    if Present(Sound(w, v)) == Total(v) then (w, Done(false)) else (Patched(w, v, Sound(w, v), 0), Done(true))
  }

  lemma {:induction false} ScanLeads(w: World, v: Version, got: seq<Option<seq<byte>>>)
    requires Readable(w, v) && Scanned(w, v, got) && |got| < Total(v)
    ensures var r := AfterScan(w, v); Leads(w, HealRead(v, got), r.0, r.1)
    decreases Total(v) - |got|
  {
    hide ShardsOf, Lawful, WorldOk, Present, Leads, ReadShard, Decoded, Sound, Patched;
    var got' := got + [ReadShard(w, v, |got|, Fine)];
    var r := AfterScan(w, v);
    if |got'| < Total(v) {
      ScanLeads(w, v, got');
    } else {
      ScannedIsSound(w, v, got');
      if Present(got') == Total(v) {
        Here(w, Done(false));
      } else {
        DecodedIs(v, got');
        AtLeastOneShard(v);
        WritesBack(w, v, got', 0);
      }
    }
    Step(w, HealRead(v, got), r.0, r.1);
  }

  /** A heal pass that nothing disturbs, over a version with at most m bad shards: afterwards
      every shard is as written, nothing else has changed, and it reports a repair exactly when
      some shard was bad. */
  lemma HealAlone(w: World) returns (w': World, repaired: bool)
    requires w.meta.Some? && Readable(w, w.meta.value)
    ensures Leads(w, HealMeta, w', Done(repaired)) && w' == w.(shards := w'.shards, damaged := w'.damaged)
    ensures var v := w.meta.value;
      && (forall i :: 0 <= i < Total(v) ==> Intact(w', v, i))
      && (forall p :: !Among(v, 0, Total(v), p) ==>
            (p in w'.shards <==> p in w.shards) && (p in w.shards ==> w'.shards[p] == w.shards[p]))
      && (repaired <==> exists i :: 0 <= i < Total(v) && !Intact(w, v, i))
  {
    hide ShardsOf, Lawful, WorldOk, Leads, Patched, Present;
    var v := w.meta.value;
    AtLeastOneShard(v);
    var r := AfterScan(w, v);
    w', repaired := r.0, r.1.ok;
    ScanLeads(w, v, []);
    Step(w, HealMeta, w', Done(repaired));
    PatchedIs(w, v, Sound(w, v), 0);
    if Present(Sound(w, v)) == Total(v) {
      AllPresentSome(Sound(w, v));
      forall i | 0 <= i < Total(v) ensures Intact(w, v, i) { assert Sound(w, v)[i].Some?; }
    } else {
      forall i | 0 <= i < Total(v) ensures Intact(w', v, i) {
        assert Lost(v, Sound(w, v), 0, (v.gen, i)) || Intact(w, v, i);
      }
      if forall i :: 0 <= i < Total(v) ==> Intact(w, v, i) { AllSomePresent(Sound(w, v)); }
    }
  }
}
