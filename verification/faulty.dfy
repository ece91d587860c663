// What each operation of the commit protocol leaves and reports when storage calls fail
// and nothing else runs: internal/erasure/engine.go.

module FaultyRuns {
  import opened Wrappers
  import opened ColumnCode
  import opened Layout
  import opened CommitProtocol
  import opened CommitSafety
  import opened AloneRuns

  // How each storage call will go, by its number.
  type Fate = nat -> Outcome

  // n steps of one operation, the first of them with call t.
  ghost function After(w: World, op: Op, fate: Fate, t: nat, n: nat): (World, Op)
    decreases n
  {
    if n == 0 || Finished(op) || !Positioned(op) then (w, op)
    else
      var r := StepOp(w, op, fate(t));
      After(r.0, r.1, fate, t + 1, n - 1)
  }

  // From call t on, op ends as end with storage w'.
  ghost predicate Ends(w: World, op: Op, fate: Fate, t: nat, w': World, end: Op) {
    Finished(end) && exists n: nat :: After(w, op, fate, t, n) == (w', end)
  }

  // Its end is determined.
  lemma EndsOnce(w: World, op: Op, fate: Fate, t: nat, w1: World, end1: Op, w2: World, end2: Op)
    requires Ends(w, op, fate, t, w1, end1) && Ends(w, op, fate, t, w2, end2)
    ensures w1 == w2 && end1 == end2
  {
    var a: nat :| After(w, op, fate, t, a) == (w1, end1);
    var b: nat :| After(w, op, fate, t, b) == (w2, end2);
    SettledAfter(w, op, fate, t, a, a + b);
    SettledAfter(w, op, fate, t, b, a + b);
  }

  lemma {:induction false} SettledAfter(w: World, op: Op, fate: Fate, t: nat, n: nat, more: nat)
    requires n <= more && Finished(After(w, op, fate, t, n).1)
    ensures After(w, op, fate, t, more) == After(w, op, fate, t, n)
    decreases n
  {
    hide StepOp, Positioned;
    if n > 0 && !Finished(op) && Positioned(op) {
      var r := StepOp(w, op, fate(t));
      SettledAfter(r.0, r.1, fate, t + 1, n - 1, more - 1);
    }
  }

  lemma Over(w: World, op: Op, fate: Fate, t: nat)
    requires Finished(op)
    ensures Ends(w, op, fate, t, w, op)
  {
    assert After(w, op, fate, t, 0) == (w, op);
  }

  lemma Call(w: World, op: Op, fate: Fate, t: nat, w': World, end: Op)
    requires Positioned(op) && !Finished(op)
    requires var r := StepOp(w, op, fate(t)); Ends(r.0, r.1, fate, t + 1, w', end)
    ensures Ends(w, op, fate, t, w', end)
  {
    hide StepOp, Positioned;
    var r := StepOp(w, op, fate(t));
    var n: nat :| After(r.0, r.1, fate, t + 1, n) == (w', end);
    assert After(w, op, fate, t, n + 1) == (w', end);
  }

  // --- removing shards ---

  // The shards of v from i up to n, removed where the call succeeds; call t is for shard i.
  ghost function Swept(w: World, v: Version, i: nat, n: nat, fate: Fate, t: nat): World
    decreases n - i
  {
    if i >= n then w
    else Swept(if fate(t) == Fine then DeleteShard(w, v, i) else w, v, i + 1, n, fate, t + 1)
  }

  ghost predicate Between(v: Version, i: nat, n: nat, fate: Fate, t: nat, p: Path) {
    p.0 == v.gen && i <= p.1 < n && fate(t + p.1 - i) == Fine
  }

  // A shard of v whose removal succeeds, call t being for the first.
  ghost predicate Hit(v: Version, fate: Fate, t: nat, p: Path) {
    p.0 == v.gen && p.1 < Total(v) && fate(t + p.1) == Fine
  }

  lemma {:induction false} SweptIs(w: World, v: Version, i: nat, n: nat, fate: Fate, t: nat)
    ensures var r := Swept(w, v, i, n, fate, t);
      && r == w.(shards := r.shards)
      && (forall p :: p in r.shards <==> p in w.shards && !Between(v, i, n, fate, t, p))
      && (forall p :: p in r.shards ==> r.shards[p] == w.shards[p])
    decreases n - i
  {
    if i < n {
      var w1 := if fate(t) == Fine then DeleteShard(w, v, i) else w;
      SweptIs(w1, v, i + 1, n, fate, t + 1);
      forall p: Path ensures Between(v, i, n, fate, t, p) <==>
        (p == (v.gen, i) && fate(t) == Fine) || Between(v, i + 1, n, fate, t + 1, p)
      {
        assert p.1 > i ==> t + 1 + p.1 - (i + 1) == t + p.1 - i;
      }
    }
  }

  ghost predicate AllFine(fate: Fate, t: nat, n: nat) {
    forall x :: t <= x < t + n ==> fate(x) == Fine
  }

  // What follows the removal: only a delete minds a shard that stays.
  ghost function Then(next: CommitProtocol.Then, ok: bool): Op {
    match next case DropPlainCopy => DropPlain case Finish => Done(true) case DeletePlain => DelPlain(ok)
  }

  lemma {:induction false} RetireEnds(w: World, v: Version, i: nat, next: CommitProtocol.Then, ok: bool, fate: Fate,
                                      t: nat, w': World, end: Op)
    requires i < Total(v)
    requires var n := Total(v) - i;
      Ends(Swept(w, v, i, Total(v), fate, t), Then(next, ok && (next == DeletePlain ==> AllFine(fate, t, n))),
           fate, t + n, w', end)
    ensures Ends(w, Retire(v, i, next, ok), fate, t, w', end)
    decreases Total(v) - i
  {
    hide Ends;
    var n := Total(v) - i;
    var w1 := if fate(t) == Fine then DeleteShard(w, v, i) else w;
    var ok1 := ok && (next == DeletePlain ==> fate(t) == Fine);
    assert AllFine(fate, t, n) <==> fate(t) == Fine && AllFine(fate, t + 1, n - 1);
    if i + 1 < Total(v) {
      RetireEnds(w1, v, i + 1, next, ok1, fate, t + 1, w', end);
    } else {
      assert Swept(w1, v, i + 1, Total(v), fate, t + 1) == w1;
    }
    Call(w, Retire(v, i, next, ok), fate, t, w', end);
  }

  lemma {:induction false} AbortEnds(w: World, v: Version, i: nat, n: nat, fate: Fate, t: nat)
    requires i < n
    ensures Ends(w, Aborting(v, i, n), fate, t, Swept(w, v, i, n, fate, t), Done(false))
    decreases n - i
  {
    hide Ends;
    var w1 := if fate(t) == Fine then DeleteShard(w, v, i) else w;
    if i + 1 < n {
      AbortEnds(w1, v, i + 1, n, fate, t + 1);
    } else {
      assert Swept(w1, v, i + 1, n, fate, t + 1) == w1;
      Over(w1, Done(false), fate, t + 1);
    }
    Call(w, Aborting(v, i, n), fate, t, Swept(w, v, i, n, fate, t), Done(false));
  }

  // --- delete ---

  // A delete that sees meta.json removes it first. It reports success exactly if that, every
  // shard whose name it could learn and the plain copy were removed, and what could not be
  // removed stays. One whose check fails deletes the plain copy only.
  lemma DeleteReports(w: World, fate: Fate) returns (w': World, ok: bool)
    requires w.meta.Some? ==> Total(w.meta.value) > 0
    ensures Ends(w, DelCheck, fate, 0, w', Done(ok))
    ensures !Seen(w, fate(0)) ==>
      (ok <==> fate(1) == Fine) && w' == if fate(1) == Fine then w.(plain := None) else w
    ensures Seen(w, fate(0)) && fate(2) != Fine ==> !ok && w' == w
    ensures Seen(w, fate(0)) && fate(2) == Fine ==> (var v := w.meta.value;
      var n := if fate(1) == Fine then Total(v) else 0;
      && (ok <==> AllFine(fate, 3, n) && fate(3 + n) == Fine)
      && w'.meta == None && w'.plain == (if fate(3 + n) == Fine then None else w.plain)
      && (forall p :: p in w'.shards <==>
           p in w.shards && !(p.0 == v.gen && p.1 < n && fate(3 + p.1) == Fine))
      && (forall p :: p in w'.shards ==> w'.shards[p] == w.shards[p]))
  {
    hide Ends;
    if !Seen(w, fate(0)) {
      w', ok := PlainGone(w, true, fate, 1);
    } else if fate(2) != Fine {
      w', ok := w, false;
      Over(w, Done(false), fate, 3);
      Call(w, DelDropMeta(if fate(1) == Fine then w.meta else None), fate, 2, w', Done(ok));
      Call(w, DelReadPrev, fate, 1, w', Done(ok));
    } else {
      var v, w1 := w.meta.value, w.(meta := None);
      if fate(1) == Fine {
        var n := Total(v);
        var w2 := Swept(w1, v, 0, n, fate, 3);
        SweptIs(w1, v, 0, n, fate, 3);
        w', ok := PlainGone(w2, AllFine(fate, 3, n), fate, 3 + n);
        RetireEnds(w1, v, 0, DeletePlain, true, fate, 3, w', Done(ok));
      } else {
        w', ok := PlainGone(w1, true, fate, 3);
      }
      Call(w, DelDropMeta(if fate(1) == Fine then w.meta else None), fate, 2, w', Done(ok));
      Call(w, DelReadPrev, fate, 1, w', Done(ok));
    }
    Call(w, DelCheck, fate, 0, w', Done(ok));
  }

  lemma PlainGone(w: World, so: bool, fate: Fate, t: nat) returns (w': World, ok: bool)
    ensures Ends(w, DelPlain(so), fate, t, w', Done(ok)) && (ok <==> so && fate(t) == Fine)
    ensures w' == if fate(t) == Fine then w.(plain := None) else w
  {
    hide Ends;
    w', ok := if fate(t) == Fine then w.(plain := None) else w, so && fate(t) == Fine;
    Over(w', Done(ok), fate, t + 1);
    Call(w, DelPlain(so), fate, t, w', Done(ok));
  }

  // --- plain put ---

  // A plain put reports success exactly if the content was stored and the coded version, where
  // it sees one, no longer has its meta.json; shards that stay do not count.
  lemma PlainReports(w: World, data: seq<byte>, fate: Fate) returns (w': World, ok: bool)
    requires w.meta.Some? ==> Total(w.meta.value) > 0
    ensures Ends(w, WritePlain(data), fate, 0, w', Done(ok))
    ensures ok <==> fate(0) == Fine && (Seen(w, fate(1)) ==> fate(3) == Fine)
    ensures w'.plain == if fate(0) == Fails then w.plain else Some(data)
    ensures w'.meta == if ok && Seen(w, fate(1)) then None else w.meta
    ensures forall p :: p in w'.shards <==>
      p in w.shards && !(ok && Seen(w, fate(1)) && fate(2) == Fine && Hit(w.meta.value, fate, 4, p))
    ensures forall p :: p in w'.shards ==> w'.shards[p] == w.shards[p]
  {
    hide Ends;
    var w1 := if fate(0) == Fails then w else PutPlain(w, data);
    if fate(0) != Fine {
      w', ok := w1, false;
      Over(w1, Done(false), fate, 1);
    } else {
      w', ok := CodedDropped(w1, fate);
      Call(w1, PlainCheck, fate, 1, w', Done(ok));
    }
    Call(w, WritePlain(data), fate, 0, w', Done(ok));
  }

  lemma CodedDropped(w: World, fate: Fate) returns (w': World, ok: bool)
    requires w.meta.Some? ==> Total(w.meta.value) > 0
    ensures Ends(w, if Seen(w, fate(1)) then PlainReadPrev else Done(true), fate, 2, w', Done(ok))
    ensures ok <==> Seen(w, fate(1)) ==> fate(3) == Fine
    ensures w' == w.(meta := w'.meta, shards := w'.shards)
    ensures w'.meta == if ok && Seen(w, fate(1)) then None else w.meta
    ensures forall p :: p in w'.shards <==>
      p in w.shards && !(ok && Seen(w, fate(1)) && fate(2) == Fine && Hit(w.meta.value, fate, 4, p))
    ensures forall p :: p in w'.shards ==> w'.shards[p] == w.shards[p]
  {
    hide Ends;
    w', ok := w, true;
    if !Seen(w, fate(1)) {
      Over(w, Done(true), fate, 2);
      return;
    }
    if fate(3) != Fine {
      ok := false;
    } else {
      w' := w.(meta := None);
      if fate(2) == Fine {
        var v := w.meta.value;
        SweptIs(w', v, 0, Total(v), fate, 4);
        w' := Swept(w', v, 0, Total(v), fate, 4);
        Over(w', Done(true), fate, 4 + Total(v));
        RetireEnds(w.(meta := None), v, 0, Finish, true, fate, 4, w', Done(ok));
      }
    }
    if ok ==> fate(2) != Fine { Over(w', Done(ok), fate, 4); }
    Call(w, PlainDropMeta(if fate(2) == Fine then w.meta else None), fate, 3, w', Done(ok));
    Call(w, PlainReadPrev, fate, 2, w', Done(ok));
  }

  // --- coded put ---

  // The first shard from i on whose write is not reported as done, or their number.
  ghost function FirstFault(v: Version, i: nat, fate: Fate): nat
    decreases Total(v) - i
  {
    if i < Total(v) && fate(i) == Fine then FirstFault(v, i + 1, fate) else i
  }

  lemma {:induction false} FirstFaultIs(v: Version, i: nat, fate: Fate)
    requires i <= Total(v)
    ensures var f := FirstFault(v, i, fate);
      i <= f <= Total(v) && (forall x :: i <= x < f ==> fate(x) == Fine) && (f < Total(v) ==> fate(f) != Fine)
    decreases Total(v) - i
  {
    if i < Total(v) && fate(i) == Fine { FirstFaultIs(v, i + 1, fate); }
  }

  // Shards i up to n of v stored, nothing else changed.
  ghost predicate Stored(w: World, w': World, v: Version, i: nat, n: nat)
    requires Lawful(v.c) && n <= Total(v)
  {
    && w' == w.(shards := w'.shards, damaged := w'.damaged)
    && (forall p :: p in w'.shards <==> p in w.shards || Among(v, i, n, p))
    && (forall p :: p in w'.shards ==> w'.shards[p] == if Among(v, i, n, p) then Shard(v, p.1) else w.shards[p])
  }

  lemma StoredFirst(w: World, v: Version, i: nat)
    requires Lawful(v.c) && i < Total(v)
    ensures Stored(w, w, v, i, i) && Stored(w, PutShard(w, v, i, Shard(v, i)), v, i, i + 1)
  {
    hide ShardsOf, Lawful;
  }

  lemma StoredMore(w: World, w1: World, v: Version, i: nat, n: nat)
    requires Lawful(v.c) && i < n <= Total(v) && Stored(PutShard(w, v, i, Shard(v, i)), w1, v, i + 1, n)
    ensures Stored(w, w1, v, i, n)
  {
    hide ShardsOf, Lawful;
  }

  lemma {:induction false} WritesEnd(w: World, v: Version, i: nat, fate: Fate) returns (w1: World)
    requires Lawful(v.c) && i < Total(v)
    ensures var f := FirstFault(v, i, fate);
      && (f == Total(v) ==> Stored(w, w1, v, i, f))
      && (f < Total(v) ==> Stored(w, w1, v, i, if fate(f) == Fails then f else f + 1))
      && forall w', end ::
           Ends(w1, if f == Total(v) then ReadPrev(v) else Aborting(v, 0, f + 1), fate,
                if f == Total(v) then f else f + 1, w', end)
           ==> Ends(w, Writing(v, i), fate, i, w', end)
    decreases Total(v) - i
  {
    hide Ends, ShardsOf, Lawful, Stored;
    FirstFaultIs(v, i, fate);
    var f := FirstFault(v, i, fate);
    w1 := if fate(i) == Fails then w else PutShard(w, v, i, Shard(v, i));
    if fate(i) == Fine && i + 1 < Total(v) {
      w1 := WritesEnd(w1, v, i + 1, fate);
      StoredMore(w, w1, v, i, if f < Total(v) && fate(f) != Fails then f + 1 else f);
    } else {
      StoredFirst(w, v, i);
    }
    var next, at := if f == Total(v) then ReadPrev(v) else Aborting(v, 0, f + 1), if f == Total(v) then f else f + 1;
    forall w', end | Ends(w1, next, fate, at, w', end) ensures Ends(w, Writing(v, i), fate, i, w', end) {
      Call(w, Writing(v, i), fate, i, w', end);
    }
  }

  // A put that failed: other versions and the plain copy are as they were, and of its own
  // shards only those are left whose removal failed, call t being for the first.
  ghost predicate GivenUp(w: World, w': World, v: Version, fate: Fate, t: nat) {
    && w'.plain == w.plain
    && (forall p: Path :: p.0 != v.gen ==> (p in w'.shards <==> p in w.shards))
    && (forall p :: p in w'.shards && p.0 != v.gen ==> w'.shards[p] == w.shards[p])
    && (forall p :: p in w'.shards && p.0 == v.gen ==> p.1 < Total(v) && fate(t + p.1) != Fine)
  }

  // A put that succeeded: every shard is in place, the version that it replaced, if it could
  // learn it, has lost the shards whose removal succeeded, and the plain copy is gone if its
  // removal did.
  ghost predicate Replaced(w: World, w': World, v: Version, fate: Fate)
    requires Lawful(v.c)
  {
    var n := Total(v);
    var known := fate(n) == Fine && w.meta.Some?;
    && (forall i :: 0 <= i < n ==> (v.gen, i) in w'.shards && w'.shards[(v.gen, i)] == Shard(v, i))
    && (forall p: Path :: p.0 != v.gen ==>
         (p in w'.shards <==> p in w.shards && !(known && Hit(w.meta.value, fate, n + 2, p))))
    && (forall p :: p in w'.shards && p.0 != v.gen ==> w'.shards[p] == w.shards[p])
    && w'.plain ==
       if fate(if known then n + 2 + Total(w.meta.value) else n + 2) == Fine then None else w.plain
  }

  // A put succeeds exactly if every shard and then meta.json are reported as stored, and then
  // its version is the current one. meta.json changes without success only when its put is
  // reported as failed although it took effect.
  lemma PutReports(w: World, v: Version, fate: Fate) returns (w': World, ok: bool)
    requires Lawful(v.c) && 0 < Total(v) && (w.meta.Some? ==> Total(w.meta.value) > 0 && w.meta.value.gen != v.gen)
    requires forall p :: p in w.shards ==> p.0 != v.gen
    ensures Ends(w, Writing(v, 0), fate, 0, w', Done(ok))
    ensures ok <==> AllFine(fate, 0, Total(v)) && fate(Total(v) + 1) == Fine
    ensures w'.meta ==
      if AllFine(fate, 0, Total(v)) && fate(Total(v) + 1) != Fails then Some(v) else w.meta
    ensures ok ==> Replaced(w, w', v, fate)
    ensures !ok ==>
      GivenUp(w, w', v, fate, if AllFine(fate, 0, Total(v)) then Total(v) + 2 else FirstFault(v, 0, fate) + 1)
  {
    hide Ends, ShardsOf, Lawful, Swept, GivenUp, Replaced;
    var n, f := Total(v), FirstFault(v, 0, fate);
    FirstFaultIs(v, 0, fate);
    var w1 := WritesEnd(w, v, 0, fate);
    if f < n {
      assert !AllFine(fate, 0, n);
      AbortEnds(w1, v, 0, f + 1, fate, f + 1);
      w', ok := Swept(w1, v, 0, f + 1, fate, f + 1), false;
      SweptAway(w, w1, v, if fate(f) == Fails then f else f + 1, f + 1, fate, f + 1);
    } else {
      w', ok := SwitchReports(w1, v, fate);
      if ok { SwitchLeaves(w, w1, w', v, fate); } else { NoSwitchLeaves(w, w1, w', v, fate); }
      Call(w1, ReadPrev(v), fate, n, w', Done(ok));
    }
  }

  lemma SweptAway(w: World, w1: World, v: Version, n: nat, all: nat, fate: Fate, t: nat)
    requires Lawful(v.c) && n <= all <= Total(v) && Stored(w, w1, v, 0, n)
    requires forall p :: p in w.shards ==> p.0 != v.gen
    ensures var w' := Swept(w1, v, 0, all, fate, t); GivenUp(w, w', v, fate, t) && w'.meta == w.meta
  {
    hide ShardsOf, Lawful, Swept;
    SweptIs(w1, v, 0, all, fate, t);
  }

  lemma SwitchLeaves(w: World, w1: World, w': World, v: Version, fate: Fate)
    requires Lawful(v.c) && Stored(w, w1, v, 0, Total(v)) && Switched(w1, w', v, fate, true)
    requires (forall p :: p in w.shards ==> p.0 != v.gen) && (w.meta.Some? ==> w.meta.value.gen != v.gen)
    ensures Replaced(w, w', v, fate)
  {
    hide ShardsOf, Lawful;
    assert forall i :: 0 <= i < Total(v) ==> (v.gen, i) in w1.shards && w1.shards[(v.gen, i)] == Shard(v, i);
  }

  lemma NoSwitchLeaves(w: World, w1: World, w': World, v: Version, fate: Fate)
    requires Lawful(v.c) && Stored(w, w1, v, 0, Total(v)) && Switched(w1, w', v, fate, false)
    requires forall p :: p in w.shards ==> p.0 != v.gen
    ensures GivenUp(w, w', v, fate, Total(v) + 2)
  {
    hide ShardsOf, Lawful;
  }

  // From the switch on: a success sweeps the version replaced, a failure the own shards.
  ghost predicate Switched(w: World, w': World, v: Version, fate: Fate, ok: bool) {
    var n := Total(v);
    var known := fate(n) == Fine && w.meta.Some?;
    && (forall p :: p in w'.shards <==>
        p in w.shards && !(if ok then known && Hit(w.meta.value, fate, n + 2, p) else Hit(v, fate, n + 2, p)))
    && (forall p :: p in w'.shards ==> w'.shards[p] == w.shards[p])
    && w'.plain ==
       if ok && fate(if known then n + 2 + Total(w.meta.value) else n + 2) == Fine then None else w.plain
  }

  lemma SwitchReports(w: World, v: Version, fate: Fate) returns (w': World, ok: bool)
    requires 0 < Total(v) && (w.meta.Some? ==> Total(w.meta.value) > 0 && w.meta.value.gen != v.gen)
    ensures var n := Total(v);
      && Ends(w, Switch(v, if fate(n) == Fine then w.meta else None), fate, n + 1, w', Done(ok))
      && (ok <==> fate(n + 1) == Fine)
      && w'.meta == (if fate(n + 1) == Fails then w.meta else Some(v))
      && Switched(w, w', v, fate, ok)
  {
    hide Ends, Swept;
    var n := Total(v);
    var prev := if fate(n) == Fine then w.meta else None;
    ok := fate(n + 1) == Fine;
    var w1 := if fate(n + 1) == Fails then w else PutMeta(w, v);
    if !ok {
      AbortEnds(w1, v, 0, n, fate, n + 2);
      SweptIs(w1, v, 0, n, fate, n + 2);
      w' := Swept(w1, v, 0, n, fate, n + 2);
    } else if prev.Some? {
      var u := prev.value;
      SweptIs(w1, u, 0, Total(u), fate, n + 2);
      w' := CopyDropped(Swept(w1, u, 0, Total(u), fate, n + 2), fate, n + 2 + Total(u));
      RetireEnds(w1, u, 0, DropPlainCopy, true, fate, n + 2, w', Done(true));
    } else {
      w' := CopyDropped(w1, fate, n + 2);
    }
    Call(w, Switch(v, prev), fate, n + 1, w', Done(ok));
  }

  lemma CopyDropped(w: World, fate: Fate, t: nat) returns (w': World)
    ensures Ends(w, DropPlain, fate, t, w', Done(true))
    ensures w' == if fate(t) == Fine then w.(plain := None) else w
  {
    hide Ends;
    w' := if fate(t) == Fine then w.(plain := None) else w;
    Over(w', Done(true), fate, t + 1);
    Call(w, DropPlain, fate, t, w', Done(true));
  }

  // --- get and heal ---

  // A get whose check fails or finds nothing returns the plain copy, if it can be opened; one
  // that sees meta.json and cannot read it fails and does not turn to the plain copy.
  lemma GetReports(w: World, fate: Fate)
    ensures !Seen(w, fate(0)) && fate(1) == Fine && w.plain.Some? ==>
      Ends(w, GetCheck, fate, 0, w, Got(None, w.plain.value))
    ensures !Seen(w, fate(0)) && (fate(1) != Fine || w.plain.None?) ==> Ends(w, GetCheck, fate, 0, w, GetFailed)
    ensures Seen(w, fate(0)) && fate(1) != Fine ==> Ends(w, GetCheck, fate, 0, w, GetFailed)
  {
    hide Ends;
    var end := if !Seen(w, fate(0)) && fate(1) == Fine && w.plain.Some? then Got(None, w.plain.value) else GetFailed;
    if !Seen(w, fate(0)) || fate(1) != Fine {
      Over(w, end, fate, 2);
      Call(w, if Seen(w, fate(0)) then GetMeta(true) else GetPlain, fate, 1, w, end);
      Call(w, GetCheck, fate, 0, w, end);
    }
  }

  // A get that sees a version opens its data shards first. If these are as written and can be
  // opened, it returns the version, whatever the other calls would do.
  lemma FastGet(w: World, fate: Fate)
    requires Seen(w, fate(0)) && fate(1) == Fine && WellMade(w.meta.value)
    requires AllFine(fate, 2, w.meta.value.c.k) && DataIntact(w, w.meta.value)
    ensures Ends(w, GetCheck, fate, 0, w, Got(w.meta, w.meta.value.obj))
  {
    hide Ends, ShardsOf, AllFine, DataIntact;
    var v := w.meta.value;
    AtLeastOneShard(v);
    FastOpens(w, v, [], fate);
    Call(w, GetMeta(true), fate, 1, w, Got(w.meta, v.obj));
    Call(w, GetCheck, fate, 0, w, Got(w.meta, v.obj));
  }

  ghost predicate DataIntact(w: World, v: Version)
    requires Lawful(v.c)
  {
    forall i :: 0 <= i < v.c.k ==> Intact(w, v, i)
  }

  lemma {:induction false} FastOpens(w: World, v: Version, got: seq<Option<seq<byte>>>, fate: Fate)
    requires WellMade(v) && |got| < v.c.k
    requires AllFine(fate, 2, v.c.k) && DataIntact(w, v)
    requires forall i :: 0 <= i < |got| ==> got[i] == Some(Shard(v, i))
    ensures Ends(w, GetOpen(v, Fast, got, true), fate, 2 + |got|, w, Got(Some(v), v.obj))
    decreases v.c.k - |got|
  {
    hide Ends, ShardsOf, Join, Present, Lawful;
    var got' := got + [Some(Shard(v, |got|))];
    assert Intact(w, v, |got|) && OpenShard(w, v, |got|, fate(2 + |got|)) == Some(Shard(v, |got|));
    if |got'| < v.c.k {
      FastOpens(w, v, got', fate);
    } else {
      FromDataIs(v, got');
      Over(w, Got(Some(v), v.obj), fate, 2 + |got'|);
    }
    Call(w, GetOpen(v, Fast, got, true), fate, 2 + |got|, w, Got(Some(v), v.obj));
  }

  lemma FromDataIs(v: Version, got: seq<Option<seq<byte>>>)
    requires WellMade(v) && |got| == v.c.k && forall i :: 0 <= i < |got| ==> got[i] == Some(Shard(v, i))
    ensures FromData(v, got, true) == Got(Some(v), v.obj)
  {
    hide Lawful, Join, ShardsOf;
    AllSomePresent(Passing(v, got));
    DataJoins(v, got);
  }

  // n steps of a get while others change storage as they like: call t finds it as ws(t).
  ghost function Amid(ws: nat -> World, op: Op, fate: Fate, t: nat, n: nat): Op
    decreases n
  {
    if n == 0 || Finished(op) || !Positioned(op) then op
    else Amid(ws, StepOp(ws(t), op, fate(t)).1, fate, t + 1, n - 1)
  }

  // A get has begun to serve v, and goes on with it or has ended.
  ghost predicate Serving(op: Op, v: Version) {
    match op
    case GetOpen(u, stage, _, _) => u == v && !stage.Fast? && stage.live
    case Got(src, _) => src == Some(v)
    case GetFailed => true
    case _ => false
  }

  // Once a get has handed out bytes of a version it never follows meta.json to another one,
  // whatever happens to storage meanwhile.
  lemma {:induction false} NeverFollows(ws: nat -> World, op: Op, v: Version, fate: Fate, t: nat, n: nat)
    requires Serving(op, v)
    ensures Serving(Amid(ws, op, fate, t, n), v)
    decreases n
  {
    if n > 0 && !Finished(op) && Positioned(op) {
      ServesOn(ws(t), op, v, fate(t));
      NeverFollows(ws, StepOp(ws(t), op, fate(t)).1, v, fate, t + 1, n - 1);
    }
  }

  lemma ServesOn(w: World, op: Op, v: Version, out: Outcome)
    requires Serving(op, v) && op.GetOpen? && Positioned(op)
    ensures Serving(StepOp(w, op, out).1, v)
  {
    hide Lawful, Covered, Pieced, Decoded, Present, Join, OpenShard, ReadShard;
  }

  // A heal pass that cannot read meta.json, or finds none, does nothing.
  lemma HealNothing(w: World, fate: Fate)
    requires fate(0) != Fine || w.meta.None?
    ensures Ends(w, HealMeta, fate, 0, w, Done(false))
  {
    hide Ends;
    Over(w, Done(false), fate, 1);
    Call(w, HealMeta, fate, 0, w, Done(false));
  }

  // Shard x, from j on, is missing, and its write, call t being that of shard j, takes effect.
  ghost predicate PutBack(v: Version, got: seq<Option<seq<byte>>>, j: nat, fate: Fate, t: nat, p: Path) {
    p.0 == v.gen && j <= p.1 < |got| && got[p.1].None? && fate(t + p.1 - j) != Fails
  }

  // Otherwise it goes on past writes that fail, and exactly the missing shards whose write took
  // effect, reported or not, have the rebuilt bytes; nothing else changes.
  lemma {:induction false} HealWrites(w: World, v: Version, full: seq<seq<byte>>, got: seq<Option<seq<byte>>>, j: nat,
                                      fate: Fate, t: nat) returns (w': World)
    requires j < |full| == |got|
    ensures Ends(w, HealWrite(v, full, got, j), fate, t, w', Done(true))
    ensures w' == w.(shards := w'.shards, damaged := w'.damaged)
    ensures forall p :: p in w'.shards <==> p in w.shards || PutBack(v, got, j, fate, t, p)
    ensures forall p :: p in w'.shards ==>
      w'.shards[p] == if PutBack(v, got, j, fate, t, p) then full[p.1] else w.shards[p]
    decreases |full| - j
  {
    hide Ends;
    var w1 := if got[j].None? && fate(t) != Fails then PutShard(w, v, j, full[j]) else w;
    if j + 1 < |full| {
      w' := HealWrites(w1, v, full, got, j + 1, fate, t + 1);
    } else {
      w' := w1;
      Over(w1, Done(true), fate, t + 1);
    }
    forall p: Path ensures PutBack(v, got, j, fate, t, p) <==>
      (p == (v.gen, j) && got[j].None? && fate(t) != Fails) ||
      (j + 1 < |full| && PutBack(v, got, j + 1, fate, t + 1, p))
    {
      assert p.1 > j ==> t + 1 + p.1 - (j + 1) == t + p.1 - j;
    }
    Call(w, HealWrite(v, full, got, j), fate, t, w', Done(true));
  }
}
