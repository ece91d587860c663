// The replicated state machine of internal/cluster/fsm.go: one entry at a time, and in
// batches that merge runs of object writes into one transaction.

module Fsm {
  import opened Wrappers

  // What an apply returns to the proposer: nil, or an error.
  datatype Response = Nil | Error(code: nat)

  const UNMARSHAL: nat := 1
  const BAD_OBJECT: nat := 2
  const NOT_A_SHARD_COMMAND: nat := 3

  // A committed entry: a Raft configuration change, bytes that do not decode, an object
  // write whose payload decodes or does not, or any other command.
  datatype Entry<M, D> = Config | Undecodable | PutObject(m: M) | BadObject | Command(isObject: bool, data: D)

  // The metadata store: one object write, and any other command. A write that fails leaves
  // the store as it was.
  datatype Store<!S, !M, !D> = Store(put: (S, M) -> Outcome<S>, run: (S, D) -> Outcome<S>)

  datatype Outcome<+S> = Did(state: S) | Failed(code: nat)

  function Respond<S>(s: S, o: Outcome<S>): (S, Response) {
    match o case Did(s') => (s', Nil) case Failed(code) => (s, Error(code))
  }

  // Apply, with the gate of a metadata shard's state machine.
  function ApplyOne<S, M, D>(st: Store<S, M, D>, objectsOnly: bool, s: S, e: Entry<M, D>): (S, Response) {
    match e
    case Config => (s, Nil)
    case Undecodable => (s, Error(UNMARSHAL))
    case PutObject(m) => Respond(s, st.put(s, m))
    case BadObject => (s, Error(BAD_OBJECT))
    case Command(isObject, data) =>
      if objectsOnly && !isObject then (s, Error(NOT_A_SHARD_COMMAND)) else Respond(s, st.run(s, data))
  }

  // The store operation an entry asks for, where it asks for one and may have it.
  datatype Asked<+S> = Nothing | Denied | Operation(result: Outcome<S>)

  function Asks<S, M, D>(st: Store<S, M, D>, objectsOnly: bool, s: S, e: Entry<M, D>): Asked<S> {
    if e.Config? then Nothing
    else if e.Undecodable? || e.BadObject? || (e.Command? && objectsOnly && !e.isObject) then Denied
    else if e.PutObject? then Operation(st.put(s, e.m))
    else Operation(st.run(s, e.data))
  }

  // What an entry has to do to the store and answer: a configuration change nothing, and nil;
  // one that does not decode, or does not belong in a shard, nothing, and an error; any other
  // exactly the store operation it names, and nil if that succeeds, else the store's error.
  ghost predicate Obeyed<S, M, D>(st: Store<S, M, D>, objectsOnly: bool, s: S, e: Entry<M, D>, s': S, resp: Response) {
    match e
    case Config => s' == s && resp == Nil
    case Undecodable => s' == s && resp.Error?
    case BadObject => s' == s && resp.Error?
    case PutObject(m) => Performed(s, st.put(s, m), s', resp)
    case Command(isObject, data) =>
      if objectsOnly && !isObject then s' == s && resp.Error? else Performed(s, st.run(s, data), s', resp)
  }

  ghost predicate Performed<S>(s: S, o: Outcome<S>, s': S, resp: Response) {
    && (o.Did? ==> s' == o.state && resp == Nil)
    && (o.Failed? ==> s' == s && resp == Error(o.code))
  }

  // Every entry of the log was obeyed, from one state to the next.
  ghost predicate AllObeyed<S, M, D>(st: Store<S, M, D>, objectsOnly: bool, states: seq<S>, log: seq<Entry<M, D>>,
                                     resps: seq<Response>)
  {
    && |states| == |log| + 1 && |resps| == |log|
    && forall i :: 0 <= i < |log| ==> Obeyed(st, objectsOnly, states[i], log[i], states[i + 1], resps[i])
  }

  // A log taken from s to s' with these responses.
  ghost predicate Taken<S(!new), M, D>(st: Store<S, M, D>, objectsOnly: bool, s: S, log: seq<Entry<M, D>>, s': S,
                                       resps: seq<Response>)
  {
    exists states :: AllObeyed(st, objectsOnly, states, log, resps) && states[0] == s && states[|log|] == s'
  }

  lemma ReferenceObeys<S(!new), M, D>(st: Store<S, M, D>, objectsOnly: bool, s: S, log: seq<Entry<M, D>>,
                                      resps: seq<Response>)
    requires |resps| == |log| && Answers(st, objectsOnly, s, log, resps)
    ensures Taken(st, objectsOnly, s, log, States(st, objectsOnly, s, log), resps)
  {
    var states := seq(|log| + 1, i requires 0 <= i <= |log| => States(st, objectsOnly, s, log[..i]));
    forall i | 0 <= i < |log| ensures Obeyed(st, objectsOnly, states[i], log[i], states[i + 1], resps[i]) {
      StatesStep(st, objectsOnly, s, log, i);
    }
    assert log[..|log|] == log && log[..0] == [];
    assert AllObeyed(st, objectsOnly, states, log, resps);
  }

  // Nil is answered exactly for a configuration change and for an operation that succeeded.
  lemma NilExactly<S, M, D>(st: Store<S, M, D>, objectsOnly: bool, s: S, e: Entry<M, D>, s': S, resp: Response)
    requires Obeyed(st, objectsOnly, s, e, s', resp)
    ensures var asked := Asks(st, objectsOnly, s, e);
      && (resp == Nil <==> e.Config? || (asked.Operation? && asked.result.Did?))
      && (asked.Denied? ==> resp.Error? && s' == s)
  {
  }

  // The reference: entry after entry.
  function States<S, M, D>(st: Store<S, M, D>, objectsOnly: bool, s: S, log: seq<Entry<M, D>>): S {
    if log == [] then s
    else ApplyOne(st, objectsOnly, States(st, objectsOnly, s, log[..|log| - 1]), log[|log| - 1]).0
  }

  function ResponseAt<S, M, D>(st: Store<S, M, D>, objectsOnly: bool, s: S, log: seq<Entry<M, D>>, i: nat): Response
    requires i < |log|
  {
    ApplyOne(st, objectsOnly, States(st, objectsOnly, s, log[..i]), log[i]).1
  }

  // resps are the responses of the first entries of log.
  ghost predicate Answers<S, M, D>(st: Store<S, M, D>, objectsOnly: bool, s: S, log: seq<Entry<M, D>>,
                                   resps: seq<Response>)
  {
    |resps| <= |log| && forall i :: 0 <= i < |resps| ==> resps[i] == ResponseAt(st, objectsOnly, s, log, i)
  }

  lemma StatesStep<S, M, D>(st: Store<S, M, D>, objectsOnly: bool, s: S, log: seq<Entry<M, D>>, i: nat)
    requires i < |log|
    ensures States(st, objectsOnly, s, log[..i + 1]) ==
      ApplyOne(st, objectsOnly, States(st, objectsOnly, s, log[..i]), log[i]).0
  {
    assert log[..i + 1][..i] == log[..i];
  }

  // The writes in order, stopping at the first that fails.
  function PutAll<S, M, D>(st: Store<S, M, D>, s: S, ms: seq<M>): Outcome<S> {
    if ms == [] then Did(s)
    else
      match PutAll(st, s, ms[..|ms| - 1])
      case Failed(code) => Failed(code)
      case Did(s') => st.put(s', ms[|ms| - 1])
  }

  // Entries i up to j are object writes, and ms are their records.
  ghost predicate RunOf<M, D>(log: seq<Entry<M, D>>, i: nat, j: nat, ms: seq<M>) {
    i <= j <= |log| && |ms| == j - i && forall x :: i <= x < j ==> log[x] == PutObject(ms[x - i])
  }

  // When all writes of a run go through in one transaction, so they do one by one.
  lemma {:induction false} BatchIsSequence<S, M, D>(st: Store<S, M, D>, objectsOnly: bool, s: S,
                                                    log: seq<Entry<M, D>>, i: nat, j: nat, ms: seq<M>)
    requires RunOf(log, i, j, ms) && PutAll(st, States(st, objectsOnly, s, log[..i]), ms).Did?
    ensures PutAll(st, States(st, objectsOnly, s, log[..i]), ms) == Did(States(st, objectsOnly, s, log[..j]))
    ensures forall x :: i <= x < j ==> ResponseAt(st, objectsOnly, s, log, x) == Nil
    decreases j
  {
    if i < j {
      var front := ms[..|ms| - 1];
      assert RunOf(log, i, j - 1, front);
      BatchIsSequence(st, objectsOnly, s, log, i, j - 1, front);
      StatesStep(st, objectsOnly, s, log, j - 1);
    }
  }

  class FSM<S(!new), M, D> {
    const st: Store<S, M, D>
    const objectsOnly: bool
    var store: S
    var appliedIndex: nat

    constructor (st: Store<S, M, D>, objectsOnly: bool, store: S)
      ensures this.st == st && this.objectsOnly == objectsOnly && this.store == store && appliedIndex == 0
    {
      this.st, this.objectsOnly, this.store, appliedIndex := st, objectsOnly, store, 0;
    }

    method Apply(e: Entry<M, D>, index: nat) returns (resp: Response)
      modifies this
      ensures (store, resp) == ApplyOne(st, objectsOnly, old(store), e) && appliedIndex == index
    {
      var r := ApplyOne(st, objectsOnly, store, e);
      store, resp := r.0, r.1;
      appliedIndex := index;
    }

    // PutObjectMetaBatch: all the writes in order, or none. It may fail for reasons of its
    // own even when each write alone would not.
    method PutBatch(ms: seq<M>) returns (ok: bool)
      modifies this`store
      ensures ok ==> PutAll(st, old(store), ms) == Did(store)
      ensures !ok ==> store == old(store)
    {
      var r := PutAll(st, store, ms);
      ok := *;
      ok := ok && r.Did?;
      if ok {
        store := r.state;
      }
    }

    // ApplyBatch for the entries at indexes first, first + 1, ...
    method ApplyBatch(log: seq<Entry<M, D>>, first: nat) returns (resps: seq<Response>)
      modifies this
      ensures store == States(st, objectsOnly, old(store), log)
      ensures |resps| == |log| && Answers(st, objectsOnly, old(store), log, resps)
      ensures Taken(st, objectsOnly, old(store), log, store, resps)
      ensures appliedIndex == if log == [] then old(appliedIndex) else first + |log| - 1
    {
      resps := [];
      ghost var s := store;
      if |log| == 0 {
        ReferenceObeys(st, objectsOnly, s, log, resps);
        return;
      }
      var i := 0;
      while i < |log|
        invariant 0 <= i <= |log| && |resps| == i && store == States(st, objectsOnly, s, log[..i])
        invariant Answers(st, objectsOnly, s, log, resps)
      {
        if !log[i].PutObject? {
          StatesStep(st, objectsOnly, s, log, i);
          var r := ApplyOne(st, objectsOnly, store, log[i]);
          store := r.0;
          resps := resps + [r.1];
          i := i + 1;
        } else {
          i, resps := ApplyRun(log, i, resps, s);
        }
      }
      assert log[..|log|] == log;
      ReferenceObeys(st, objectsOnly, s, log, resps);
      appliedIndex := first + |log| - 1;
    }

    // Gather the run of object writes from i on, write it as one transaction, and on failure
    // replay it one by one.
    method ApplyRun(log: seq<Entry<M, D>>, i: nat, resps: seq<Response>, ghost s: S)
      returns (j: nat, more: seq<Response>)
      requires i < |log| && |resps| == i && log[i].PutObject? && store == States(st, objectsOnly, s, log[..i])
      requires Answers(st, objectsOnly, s, log, resps)
      modifies this`store
      ensures i < j <= |log| && |more| == j && store == States(st, objectsOnly, s, log[..j])
      ensures Answers(st, objectsOnly, s, log, more)
    {
      j := i;
      var ms: seq<M> := [];
      while j < |log| && log[j].PutObject?
        invariant i <= j <= |log| && RunOf(log, i, j, ms) && (j == i ==> log[j].PutObject?)
      {
        ms := ms + [log[j].m];
        j := j + 1;
      }
      var ok := PutBatch(ms);
      if ok {
        BatchIsSequence(st, objectsOnly, s, log, i, j, ms);
        more := resps + seq(j - i, _ => Nil);
      } else {
        more := resps;
        for k := i to j
          invariant |more| == k && store == States(st, objectsOnly, s, log[..k])
          invariant Answers(st, objectsOnly, s, log, more)
        {
          StatesStep(st, objectsOnly, s, log, k);
          var r := Respond(store, st.put(store, ms[k - i]));
          store := r.0;
          more := more + [r.1];
        }
      }
    }
  }

  // --- cutting a log into batches ---

  lemma {:induction false} StatesConcat<S, M, D>(st: Store<S, M, D>, objectsOnly: bool, s: S, a: seq<Entry<M, D>>,
                                                 b: seq<Entry<M, D>>)
    ensures States(st, objectsOnly, s, a + b) == States(st, objectsOnly, States(st, objectsOnly, s, a), b)
  {
    if b == [] {
      assert a + b == a;
    } else {
      StatesConcat(st, objectsOnly, s, a, b[..|b| - 1]);
      assert (a + b)[..|a + b| - 1] == a + b[..|b| - 1];
    }
  }

  lemma AnswersConcat<S, M, D>(st: Store<S, M, D>, objectsOnly: bool, s: S, a: seq<Entry<M, D>>, b: seq<Entry<M, D>>,
                               ra: seq<Response>, rb: seq<Response>)
    requires |ra| == |a| && |rb| == |b| && Answers(st, objectsOnly, s, a, ra)
    requires Answers(st, objectsOnly, States(st, objectsOnly, s, a), b, rb)
    ensures Answers(st, objectsOnly, s, a + b, ra + rb)
  {
    var all := a + b;
    forall i | 0 <= i < |all| ensures (ra + rb)[i] == ResponseAt(st, objectsOnly, s, all, i) {
      if i < |a| {
        assert all[..i] == a[..i];
      } else {
        assert all[..i] == a + b[..i - |a|];
        StatesConcat(st, objectsOnly, s, a, b[..i - |a|]);
      }
    }
  }

  function Flatten<T>(cuts: seq<seq<T>>): seq<T> {
    if cuts == [] then [] else Flatten(cuts[..|cuts| - 1]) + cuts[|cuts| - 1]
  }

  lemma FlattenStep<T>(cuts: seq<seq<T>>, i: nat)
    requires i < |cuts|
    ensures Flatten(cuts[..i + 1]) == Flatten(cuts[..i]) + cuts[i]
  {
    assert cuts[..i + 1][..i] == cuts[..i];
  }

  // However a log is cut into batches, and whichever batch writes fail and are replayed: the
  // store, every response and the applied index are those of applying entry after entry.
  method ApplyAll<S(!new), M, D>(f: FSM<S, M, D>, cuts: seq<seq<Entry<M, D>>>) returns (resps: seq<Response>)
    modifies f
    ensures var log := Flatten(cuts);
      && f.store == States(f.st, f.objectsOnly, old(f.store), log)
      && |resps| == |log| && Answers(f.st, f.objectsOnly, old(f.store), log, resps)
      && Taken(f.st, f.objectsOnly, old(f.store), log, f.store, resps)
      && f.appliedIndex == (if log == [] then old(f.appliedIndex) else |log| - 1)
  {
    resps := [];
    ghost var s := f.store;
    for i := 0 to |cuts|
      invariant f.store == States(f.st, f.objectsOnly, s, Flatten(cuts[..i])) && |resps| == |Flatten(cuts[..i])|
      invariant Answers(f.st, f.objectsOnly, s, Flatten(cuts[..i]), resps)
      invariant f.appliedIndex == (if resps == [] then old(f.appliedIndex) else |resps| - 1)
    {
      FlattenStep(cuts, i);
      var more := f.ApplyBatch(cuts[i], |resps|);
      StatesConcat(f.st, f.objectsOnly, s, Flatten(cuts[..i]), cuts[i]);
      AnswersConcat(f.st, f.objectsOnly, s, Flatten(cuts[..i]), cuts[i], resps, more);
      resps := resps + more;
    }
    assert cuts[..|cuts|] == cuts;
    ReferenceObeys(f.st, f.objectsOnly, s, Flatten(cuts), resps);
  }

  // The other way: one Apply after another.
  method ApplyEach<S(!new), M, D>(f: FSM<S, M, D>, log: seq<Entry<M, D>>) returns (resps: seq<Response>)
    modifies f
    ensures f.store == States(f.st, f.objectsOnly, old(f.store), log)
    ensures |resps| == |log| && Answers(f.st, f.objectsOnly, old(f.store), log, resps)
    ensures Taken(f.st, f.objectsOnly, old(f.store), log, f.store, resps)
    ensures f.appliedIndex == if log == [] then old(f.appliedIndex) else |log| - 1
  {
    resps := [];
    ghost var s := f.store;
    for i := 0 to |log|
      invariant |resps| == i && f.store == States(f.st, f.objectsOnly, s, log[..i])
      invariant Answers(f.st, f.objectsOnly, s, log, resps)
      invariant f.appliedIndex == if i == 0 then old(f.appliedIndex) else i - 1
    {
      StatesStep(f.st, f.objectsOnly, s, log, i);
      var resp := f.Apply(log[i], i);
      resps := resps + [resp];
    }
    assert log[..|log|] == log;
    ReferenceObeys(f.st, f.objectsOnly, s, log, resps);
  }

  // Two replicas of one state, one fed entry by entry and one in batches cut anywhere, end
  // with the same store, the same responses and the same applied index, whichever batch
  // writes fail on the way.
  method ReplicasAgree<S(!new), M, D>(one: FSM<S, M, D>, other: FSM<S, M, D>, cuts: seq<seq<Entry<M, D>>>)
    returns (each: seq<Response>, batched: seq<Response>)
    requires one != other && one.st == other.st && one.objectsOnly == other.objectsOnly
    requires one.store == other.store && one.appliedIndex == other.appliedIndex
    modifies one, other
    ensures one.store == other.store && each == batched && one.appliedIndex == other.appliedIndex
    ensures Taken(one.st, one.objectsOnly, old(one.store), Flatten(cuts), one.store, each)
  {
    ghost var s := one.store;
    each := ApplyEach(one, Flatten(cuts));
    batched := ApplyAll(other, cuts);
    forall i | 0 <= i < |each| ensures each[i] == batched[i] {
      assert each[i] == ResponseAt(one.st, one.objectsOnly, s, Flatten(cuts), i);
    }
  }

  // A shard's state machine is changed by object commands only: any other command is
  // answered with an error and leaves the store alone.
  lemma {:induction false} ShardHoldsObjectsOnly<S, M, D>(st: Store<S, M, D>, s: S, log: seq<Entry<M, D>>)
    ensures States(st, true, s, log) == States(st, true, s, ObjectEntries(log))
  {
    if log != [] {
      var front, last := log[..|log| - 1], log[|log| - 1];
      ShardHoldsObjectsOnly(st, s, front);
      if last.PutObject? || (last.Command? && last.isObject) {
        var kept := ObjectEntries(front);
        assert (kept + [last])[..|kept|] == kept;
      }
    }
  }

  ghost function ObjectEntries<M, D>(log: seq<Entry<M, D>>): seq<Entry<M, D>> {
    if log == [] then []
    else
      var front, last := ObjectEntries(log[..|log| - 1]), log[|log| - 1];
      if last.PutObject? || (last.Command? && last.isObject) then front + [last] else front
  }
}
