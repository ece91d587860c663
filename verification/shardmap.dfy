// The metadata shard map of internal/cluster/shardmap.go, the rule by which the control
// group's state machine accepts a new one (internal/cluster/fsm.go), and what follows for
// bootstrapping, planning and routing.

module ShardMaps {
  import Layout
  import opened Wrappers
  import opened Lists
  import opened HashRings

  const MAX_VERSION: nat := 0xFFFF_FFFF_FFFF_FFFF

  datatype ShardMap = ShardMap(
    version: nat, epoch: nat, shards: int, replicas: int, members: seq<seq<Node>>, founders: seq<seq<Node>>)

  predicate GoodMembers(members: seq<Node>) {
    members != [] && Distinct(members) && "" !in members
  }

  predicate Valid(m: ShardMap) {
    && m.shards >= 1 && |m.members| == m.shards && m.epoch != 0 && |m.founders| == m.shards
    && (forall i :: 0 <= i < |m.founders| ==> m.founders[i] != [])
    && (forall i :: 0 <= i < |m.members| ==> GoodMembers(m.members[i]))
  }

  method Validate(m: ShardMap) returns (ok: bool)
    ensures ok == Valid(m)
  {
    if m.shards < 1 || |m.members| != m.shards || m.epoch == 0 || |m.founders| != m.shards {
      return false;
    }
    for i := 0 to |m.founders|
      invariant forall j :: 0 <= j < i ==> m.founders[j] != []
    {
      if |m.founders[i]| == 0 {
        return false;
      }
    }
    for i := 0 to |m.members|
      invariant forall j :: 0 <= j < i ==> GoodMembers(m.members[j])
    {
      var good := CheckMembers(m.members[i]);
      if !good {
        return false;
      }
    }
    return true;
  }

  // A map is refused for each thing that can be wrong with it, whatever else it holds.
  lemma WrongMaps(m: ShardMap, i: nat, node: Node)
    ensures m.shards < 1 || |m.members| != m.shards || |m.founders| != m.shards || m.epoch == 0 ==> !Valid(m)
    ensures i < |m.founders| && |m.founders[i]| == 0 ==> !Valid(m)
    ensures i < |m.members| && |m.members[i]| == 0 ==> !Valid(m)
    ensures i < |m.members| && "" in m.members[i] ==> !Valid(m)
    ensures i < |m.members| && multiset(m.members[i])[node] > 1 ==> !Valid(m)
  {
    if i < |m.members| && Valid(m) { Repeats(m.members[i], node); }
  }

  lemma {:induction false} Repeats(s: seq<Node>, x: Node)
    requires Distinct(s)
    ensures multiset(s)[x] <= 1
  {
    if s != [] {
      var front, last := s[..|s| - 1], s[|s| - 1];
      assert s == front + [last];
      Repeats(front, x);
      if x == last { assert x !in front; }
    }
  }

  method CheckMembers(members: seq<Node>) returns (ok: bool)
    ensures ok == GoodMembers(members)
  {
    if |members| == 0 {
      return false;
    }
    var seen: set<Node> := {};
    for j := 0 to |members|
      invariant seen == SetOf(members[..j]) && "" !in seen && Distinct(members[..j])
    {
      if members[j] == "" || members[j] in seen {
        assert members[j] in members[..j] || members[j] == "";
        return false;
      }
      seen := seen + {members[j]};
      assert members[..j + 1] == members[..j] + [members[j]];
    }
    assert members[..|members|] == members;
    return true;
  }

  predicate IsFounder(m: ShardMap, shard: int, node: Node) {
    0 <= shard < |m.founders| && node in m.founders[shard]
  }

  predicate HoldsShard(m: ShardMap, node: Node, shard: int) {
    0 <= shard < |m.members| && node in m.members[shard]
  }

  // next may replace prev.
  predicate Succeeds(prev: Option<ShardMap>, next: ShardMap) {
    Valid(next) &&
    (prev.Some? ==>
      && next.version > prev.value.version && next.epoch == prev.value.epoch
      && next.shards == prev.value.shards && next.founders == prev.value.founders)
  }

  method ValidateSuccession(prev: Option<ShardMap>, next: ShardMap) returns (ok: bool)
    ensures ok == Succeeds(prev, next)
  {
    ok := Validate(next);
    if !ok || prev.None? {
      return;
    }
    var p := prev.value;
    if next.version <= p.version || next.epoch != p.epoch || next.shards != p.shards ||
      |next.founders| != |p.founders| {
      return false;
    }
    for i := 0 to |p.founders|
      invariant forall j :: 0 <= j < i ==> next.founders[j] == p.founders[j]
    {
      if |next.founders[i]| != |p.founders[i]| {
        return false;
      }
      for j := 0 to |p.founders[i]|
        invariant forall x :: 0 <= x < j ==> next.founders[i][x] == p.founders[i][x]
      {
        if next.founders[i][j] != p.founders[i][j] {
          return false;
        }
      }
    }
    return true;
  }

  function WithMembers(m: ShardMap, members: seq<seq<Node>>, version: nat): ShardMap {
    m.(version := version, members := members)
  }

  // A bucket's shard. The name enters only through its hash.
  function ShardForBucket(hash: nat, shards: int): (r: int)
    ensures shards <= 1 ==> r == 0
    ensures shards > 1 ==> 0 <= r < shards && exists q: nat :: hash == q * shards + r
  {
    if shards <= 1 then 0
    else
      assert hash == hash / shards * shards + hash % shards by { Layout.DivMod(hash, shards); }
      hash % shards
  }

  // A bucket of a valid map has a shard with members to turn to.
  lemma BucketHasMembers(m: ShardMap, hash: nat)
    requires Valid(m)
    ensures var shard := ShardForBucket(hash, m.shards); 0 <= shard < |m.members| && GoodMembers(m.members[shard])
  {
    assert m.shards > 1 ==> 0 <= ShardForBucket(hash, m.shards) < m.shards;
  }

  // No shard is idle: each is the shard of some bucket.
  lemma EveryShardServes(shards: int, shard: nat)
    requires 0 <= shard < shards
    ensures ShardForBucket(shard, shards) == shard
  {
    if shards > 1 {
      var r := ShardForBucket(shard, shards);
      var q: nat :| shard == q * shards + r;
      if q > 0 { Layout.MulMono(1, q, shards); }
    }
  }

  // --- the control log ---

  datatype Entry = Proposal(m: ShardMap) | Other

  function ApplyEntry(cur: Option<ShardMap>, e: Entry): Option<ShardMap> {
    if e.Proposal? && Succeeds(cur, e.m) then Some(e.m) else cur
  }

  // The map committed by a log.
  function Committed(log: seq<Entry>): Option<ShardMap> {
    if log == [] then None else ApplyEntry(Committed(log[..|log| - 1]), log[|log| - 1])
  }

  // What never changes once there is a map, and the version that only grows.
  ghost predicate Agree(a: Option<ShardMap>, b: Option<ShardMap>) {
    a.Some? ==>
      && b.Some? && b.value.epoch == a.value.epoch && b.value.shards == a.value.shards &&
        b.value.founders == a.value.founders
      && a.value.version <= b.value.version && (a.value.version == b.value.version ==> a == b)
  }

  lemma {:induction false} CommittedValid(log: seq<Entry>)
    ensures Committed(log).Some? ==> Valid(Committed(log).value)
  {
    if log != [] { CommittedValid(log[..|log| - 1]); }
  }

  // What an entry does to the committed map. It becomes the map exactly when it is well formed
  // and either the first, or newer with the same epoch, shard count and founders; no other
  // entry changes anything.
  lemma CommittedExactly(log: seq<Entry>, e: Entry)
    ensures var was, now := Committed(log), Committed(log + [e]);
      now == if e.Proposal? && Valid(e.m) &&
          (was.None? || (e.m.version > was.value.version && e.m.epoch == was.value.epoch &&
                         e.m.shards == was.value.shards && e.m.founders == was.value.founders))
        then Some(e.m) else was
  {
    hide Valid;
    assert (log + [e])[..|log|] == log;
  }

  // Over every log of arbitrary proposals: any two nodes, whatever prefixes they have
  // applied, agree on the epoch, the shard count and every founding set.
  lemma {:induction false} PrefixesAgree(log: seq<Entry>, i: nat, j: nat)
    requires i <= j <= |log|
    ensures Agree(Committed(log[..i]), Committed(log[..j]))
    decreases j
  {
    if i < j {
      PrefixesAgree(log, i, j - 1);
      assert log[..j][..j - 1] == log[..j - 1];
    }
  }

  // Applying an entry that lies within the prefix already applied changes nothing, whether
  // it was accepted or refused the first time.
  lemma ReplayIsHarmless(log: seq<Entry>, x: nat, n: nat)
    requires x < n <= |log|
    ensures ApplyEntry(Committed(log[..n]), log[x]) == Committed(log[..n])
  {
    hide Valid;
    PrefixesAgree(log, x, n);
    PrefixesAgree(log, x + 1, n);
    assert log[..x + 1][..x] == log[..x];
    assert Committed(log[..x + 1]) == ApplyEntry(Committed(log[..x]), log[x]);
  }
}

/** Which nodes bootstrap which shard groups. Every node applies the control log at its own
    pace, may restart and replay, and starts groups from the map in its own store. */
module Bootstrapping {
  import opened Wrappers
  import opened HashRings
  import opened ShardMaps

  // store: the map in the node's own store; next: the next entry to apply; groups: running;
  // state: shards for which Raft state exists on disk.
  datatype NodeState = NodeState(store: Option<ShardMap>, next: nat, groups: set<int>, state: set<int>)

  datatype Bootstrap = Bootstrap(node: Node, shard: int, servers: seq<Node>)

  datatype Cluster = Cluster(log: seq<Entry>, nodes: map<Node, NodeState>, done: seq<Bootstrap>)

  datatype Step =
    | Append(e: Entry)
    | Join(node: Node)
    | ApplyOne(node: Node)
    | ApplyFails(node: Node)
    | Restart(node: Node, from: nat)
    | Start(node: Node, shard: int, resolved: bool)
    | Stop(node: Node, shard: int)
    | Replicated(node: Node, shard: int)
    | LoseDisk(node: Node, shard: int)
    | Install(node: Node, n: nat)

  predicate Enabled(c: Cluster, step: Step) {
    match step
    case Append(_) => true
    case Join(node) => node !in c.nodes
    case ApplyOne(node) => node in c.nodes && c.nodes[node].next < |c.log|
    case ApplyFails(node) => node in c.nodes && c.nodes[node].next < |c.log|
    case Restart(node, from) => node in c.nodes && from <= c.nodes[node].next
    case Start(node, _, _) => node in c.nodes
    case Stop(node, _) => node in c.nodes
    case Replicated(node, _) => node in c.nodes
    case LoseDisk(node, _) => node in c.nodes
    case Install(node, n) => node in c.nodes && n <= |c.log|
  }

  // ShardRuntime.Start: refuse without a map or membership; a running group is returned as
  // it is; a founder whose disk has no state for the shard bootstraps it, if every founder's
  // address resolves.
  function StartShard(c: Cluster, node: Node, shard: int, resolved: bool): Cluster
    requires node in c.nodes
  {
    var n := c.nodes[node];
    if n.store.None? || !HoldsShard(n.store.value, node, shard) || shard in n.groups then c
    else if IsFounder(n.store.value, shard, node) && shard !in n.state then
      if !resolved then c
      else
        var b := Bootstrap(node, shard, n.store.value.founders[shard]);
        c.(nodes := c.nodes[node := n.(groups := n.groups + {shard}, state := n.state + {shard})], done := c.done + [b])
    else c.(nodes := c.nodes[node := n.(groups := n.groups + {shard})])
  }

  // Exactly what a start does: a node that has no map, or is not among the shard's members, or
  // runs the group already, or is to found it and cannot resolve an address, changes nothing;
  // any other runs the group from then on. It founds the group exactly when it is a founder
  // without state on disk.
  lemma StartExactly(c: Cluster, node: Node, shard: int, resolved: bool)
    requires node in c.nodes
    ensures var n, c' := c.nodes[node], StartShard(c, node, shard, resolved);
      var listed := n.store.Some? && 0 <= shard < |n.store.value.members| && node in n.store.value.members[shard];
      var founds := n.store.Some? && 0 <= shard < |n.store.value.founders| && node in n.store.value.founders[shard] &&
        shard !in n.state;
      if !listed || shard in n.groups || (founds && !resolved) then c' == c
      else
        && node in c'.nodes && c'.nodes[node].groups == n.groups + {shard} && c'.log == c.log
        && c'.nodes[node].state == (if founds then n.state + {shard} else n.state)
        && c'.nodes[node].store == n.store && c'.nodes[node].next == n.next
        && c'.done == c.done + (if founds then [Bootstrap(node, shard, n.store.value.founders[shard])] else [])
        && c'.nodes.Keys == c.nodes.Keys && forall x :: x in c.nodes && x != node ==> c'.nodes[x] == c.nodes[x]
  {
  }

  function Next(c: Cluster, step: Step): Cluster
    requires Enabled(c, step)
  {
    match step
    case Append(e) => c.(log := c.log + [e])
    case Join(node) => c.(nodes := c.nodes[node := NodeState(None, 0, {}, {})])
    case ApplyOne(node) =>
      var n := c.nodes[node];
      c.(nodes := c.nodes[node := n.(store := ApplyEntry(n.store, c.log[n.next]), next := n.next + 1)])
    // The write to the node's own store fails, and the node carries on behind the entry.
    case ApplyFails(node) =>
      c.(nodes := c.nodes[node := c.nodes[node].(next := c.nodes[node].next + 1)])
    case Restart(node, from) =>
      c.(nodes := c.nodes[node := c.nodes[node].(next := from, groups := {})])
    case Start(node, shard, resolved) => StartShard(c, node, shard, resolved)
    case Stop(node, shard) =>
      c.(nodes := c.nodes[node := c.nodes[node].(groups := c.nodes[node].groups - {shard})])
    case Replicated(node, shard) =>
      c.(nodes := c.nodes[node := c.nodes[node].(state := c.nodes[node].state + {shard})])
    case LoseDisk(node, shard) =>
      var n := c.nodes[node];
      c.(nodes := c.nodes[node := n.(groups := n.groups - {shard}, state := n.state - {shard})])
    // A snapshot of the log up to n replaces the store, for n == 0 an empty one.
    case Install(node, n) =>
      c.(nodes := c.nodes[node := c.nodes[node].(store := Committed(c.log[..n]), next := n)])
  }

  ghost predicate Legal(c: Cluster, steps: seq<Step>)
    decreases |steps|
  {
    steps == [] || (Enabled(c, steps[0]) && Legal(Next(c, steps[0]), steps[1..]))
  }

  ghost function Run(c: Cluster, steps: seq<Step>): Cluster
    requires Legal(c, steps)
    decreases |steps|
  {
    if steps == [] then c else Run(Next(c, steps[0]), steps[1..])
  }

  // A node that applies its way to the end of the log holds the committed map.
  lemma {:induction false} CatchesUp(c: Cluster, node: Node, k: nat)
    requires node in c.nodes && c.nodes[node].next + k == |c.log|
    requires c.nodes[node].store == Committed(c.log[..c.nodes[node].next])
    ensures var steps := seq(k, _ => ApplyOne(node));
      && Legal(c, steps) && Run(c, steps).nodes.Keys == c.nodes.Keys && Run(c, steps).log == c.log
      && Run(c, steps).nodes[node] == c.nodes[node].(store := Committed(c.log), next := |c.log|)
    decreases k
  {
    hide ApplyEntry;
    var n := c.nodes[node].next;
    if k == 0 {
      assert c.log[..n] == c.log;
    } else {
      var c' := Next(c, ApplyOne(node));
      assert c.log[..n + 1][..n] == c.log[..n];
      assert Committed(c.log[..n + 1]) == ApplyEntry(Committed(c.log[..n]), c.log[n]);
      CatchesUp(c', node, k - 1);
      assert seq(k, _ => ApplyOne(node))[1..] == seq(k - 1, _ => ApplyOne(node));
    }
  }

  // The life of a group at a founder: with the first map applied it founds the group with the
  // listed servers, once; stopped and started again it does not found it a second time, and
  // with its disk lost it does.
  lemma FounderStarts(m: ShardMap, node: Node, shard: int)
    requires Valid(m) && 0 <= shard < m.shards && node in m.members[shard] && node in m.founders[shard]
    ensures var b := Bootstrap(node, shard, m.founders[shard]);
      var setup := [Append(Proposal(m)), Step.Join(node), ApplyOne(node), Start(node, shard, true)];
      var again := setup + [Stop(node, shard), Start(node, shard, true)];
      var anew := again + [LoseDisk(node, shard), Start(node, shard, true)];
      && Founds(setup, node, shard, [b]) && Founds(again, node, shard, [b]) && Founds(anew, node, shard, [b, b])
  {
    assert shard < |m.members| && shard < |m.founders|;
    hide Valid, Legal, Run;
    var b := Bootstrap(node, shard, m.founders[shard]);
    var n := NodeState(Some(m), 1, {shard}, {shard});
    var setup := [Append(Proposal(m)), Step.Join(node), ApplyOne(node), Start(node, shard, true)];
    var c := Cluster([Proposal(m)], map[node := n], [b]);
    assert RunsTo(Empty(), setup, c) by { SetsUp(m, node, shard); }
    assert Founds(setup, node, shard, [b]);
    var stop, start := Stop(node, shard), Start(node, shard, true);
    GoesOn(setup, c, stop, start);
    assert n.groups - {shard} + {shard} == n.groups && n.state - {shard} + {shard} == n.state;
    assert Next(c, stop).nodes[node := n] == c.nodes && Next(c, LoseDisk(node, shard)).nodes[node := n] == c.nodes;
    assert Next(Next(c, stop), start) == c;
    assert Founds(setup + [stop, start], node, shard, [b]);
    GoesOn(setup + [stop, start], c, LoseDisk(node, shard), start);
    assert Next(Next(c, LoseDisk(node, shard)), start) == c.(done := [b, b]);
    assert Founds(setup + [stop, start] + [LoseDisk(node, shard), start], node, shard, [b, b]);
  }

  ghost function Empty(): Cluster { Cluster([], map[], []) }

  ghost predicate RunsTo(c: Cluster, steps: seq<Step>, c': Cluster) { Legal(c, steps) && Run(c, steps) == c' }

  // From the empty cluster, the steps leave the group running with these bootstraps done.
  ghost predicate Founds(steps: seq<Step>, node: Node, shard: int, done: seq<Bootstrap>) {
    Legal(Empty(), steps) && var c := Run(Empty(), steps);
      c.done == done && node in c.nodes && shard in c.nodes[node].groups
  }

  lemma SetsUp(m: ShardMap, node: Node, shard: int)
    requires Valid(m) && 0 <= shard < m.shards && node in m.members[shard] && node in m.founders[shard]
    ensures RunsTo(Empty(), [Append(Proposal(m)), Step.Join(node), ApplyOne(node), Start(node, shard, true)],
      Cluster([Proposal(m)], map[node := NodeState(Some(m), 1, {shard}, {shard})],
              [Bootstrap(node, shard, m.founders[shard])]))
  {
    CommittedExactly([], Proposal(m));
    assert [] + [Proposal(m)] == [Proposal(m)];
    assert shard < |m.members| && shard < |m.founders|;
    hide Valid, Legal, Run;
    var c1 := Cluster([Proposal(m)], map[], []);
    var c2 := Cluster([Proposal(m)], map[node := NodeState(None, 0, {}, {})], []);
    var c3 := Cluster([Proposal(m)], map[node := NodeState(Some(m), 1, {}, {})], []);
    var c4 := Cluster([Proposal(m)], map[node := NodeState(Some(m), 1, {shard}, {shard})],
                      [Bootstrap(node, shard, m.founders[shard])]);
    assert Next(Empty(), Append(Proposal(m))) == c1 && Next(c1, Step.Join(node)) == c2;
    assert Next(c2, ApplyOne(node)) == c3;
    var none: set<int> := {};
    assert none + {shard} == {shard};
    assert c3.nodes[node := c4.nodes[node]] == c4.nodes;
    assert Next(c3, Start(node, shard, true)) == c4;
    Nowhere(Empty());
    GoesOn([], Empty(), Append(Proposal(m)), Step.Join(node));
    GoesOn([] + [Append(Proposal(m)), Step.Join(node)], c2, ApplyOne(node), Start(node, shard, true));
    assert [] + [Append(Proposal(m)), Step.Join(node)] + [ApplyOne(node), Start(node, shard, true)] ==
      [Append(Proposal(m)), Step.Join(node), ApplyOne(node), Start(node, shard, true)];
  }

  lemma Nowhere(c: Cluster)
    ensures RunsTo(c, [], c)
  {
  }

  lemma {:induction false} GoesOn(steps: seq<Step>, c: Cluster, x: Step, y: Step)
    requires RunsTo(Empty(), steps, c) && Enabled(c, x) && Enabled(Next(c, x), y)
    ensures RunsTo(Empty(), steps + [x, y], Next(Next(c, x), y))
  {
    Extends(Empty(), steps, c, x);
    Extends(Empty(), steps + [x], Next(c, x), y);
    assert steps + [x] + [y] == steps + [x, y];
  }

  lemma {:induction false} Extends(a: Cluster, steps: seq<Step>, c: Cluster, x: Step)
    requires RunsTo(a, steps, c) && Enabled(c, x)
    ensures RunsTo(a, steps + [x], Next(c, x))
    decreases |steps|
  {
    hide Next;
    if steps == [] {
      assert (steps + [x])[0] == x && (steps + [x])[1..] == [];
      assert RunsTo(Next(a, x), [], Next(a, x));
    } else {
      Extends(Next(a, steps[0]), steps[1..], c, x);
      assert (steps + [x])[1..] == steps[1..] + [x];
    }
  }

  // What every map of the log has in common: epoch, shard count and founders.
  ghost predicate Founded(log: seq<Entry>, m: ShardMap) {
    && Committed(log).Some? && m.epoch == Committed(log).value.epoch && m.shards == Committed(log).value.shards
    && m.founders == Committed(log).value.founders
  }

  // A node that has a map has one with the founders of the committed map, though perhaps not
  // one the others ever had. A node without has not gone past the first map of the log.
  ghost predicate NodeOk(log: seq<Entry>, n: NodeState) {
    && n.next <= |log|
    && (n.store.Some? ==> Founded(log, n.store.value))
    && (n.store.None? ==> Committed(log[..n.next]) == None)
  }

  // The bootstrap used the founding set of the committed map, and was done by a founder.
  ghost predicate BootstrapOk(log: seq<Entry>, b: Bootstrap) {
    && Committed(log).Some? && 0 <= b.shard < |Committed(log).value.founders|
    && b.servers == Committed(log).value.founders[b.shard] && b.node in b.servers
  }

  ghost predicate Inv(c: Cluster) {
    && (forall node :: node in c.nodes ==> NodeOk(c.log, c.nodes[node]))
    && (forall i :: 0 <= i < |c.done| ==> BootstrapOk(c.log, c.done[i]))
  }

  // The step loses the first map: a node without one fails to store one it accepts.
  ghost predicate LosesFirstMap(c: Cluster, step: Step)
    requires Enabled(c, step)
  {
    step.ApplyFails? && var n := c.nodes[step.node];
    n.store.None? && c.log[n.next].Proposal? && Succeeds(None, c.log[n.next].m)
  }

  lemma Grow(log: seq<Entry>, e: Entry)
    ensures Agree(Committed(log), Committed(log + [e]))
    ensures forall n: NodeState :: NodeOk(log, n) ==> NodeOk(log + [e], n)
    ensures forall b :: BootstrapOk(log, b) ==> BootstrapOk(log + [e], b)
  {
    var more := log + [e];
    assert more[..|log|] == log && more[..|more|] == more;
    PrefixesAgree(more, |log|, |more|);
    forall n: NodeState | NodeOk(log, n) ensures NodeOk(more, n) {
      assert more[..n.next] == log[..n.next];
    }
  }

  // The map that entry x of the log commits, if it does, is founded.
  lemma CommittedFounded(log: seq<Entry>, n: nat)
    requires n <= |log|
    ensures Committed(log[..n]).Some? ==> Founded(log, Committed(log[..n]).value)
  {
    PrefixesAgree(log, n, |log|);
    assert log[..|log|] == log;
  }

  // Applying an entry: a node with a map takes only one with the same founders; a node
  // without takes the first of the log.
  lemma ApplyOneOk(log: seq<Entry>, n: NodeState)
    requires NodeOk(log, n) && n.next < |log|
    ensures NodeOk(log, n.(store := ApplyEntry(n.store, log[n.next]), next := n.next + 1))
  {
    hide Valid;
    var x := n.next;
    assert log[..x + 1][..x] == log[..x];
    assert Committed(log[..x + 1]) == ApplyEntry(Committed(log[..x]), log[x]);
    CommittedFounded(log, x + 1);
  }

  lemma ApplyFailsOk(c: Cluster, node: Node)
    requires Inv(c) && Enabled(c, ApplyFails(node)) && !LosesFirstMap(c, ApplyFails(node))
    ensures NodeOk(c.log, c.nodes[node].(next := c.nodes[node].next + 1))
  {
    hide Valid;
    var x := c.nodes[node].next;
    assert NodeOk(c.log, c.nodes[node]);
    assert c.log[..x + 1][..x] == c.log[..x];
    assert Committed(c.log[..x + 1]) == ApplyEntry(Committed(c.log[..x]), c.log[x]);
  }

  lemma RestartOk(log: seq<Entry>, n: NodeState, from: nat)
    requires NodeOk(log, n) && from <= n.next
    ensures NodeOk(log, n.(next := from, groups := {}))
  {
    hide Committed;
    PrefixesAgree(log, from, n.next);
  }

  lemma StartOk(c: Cluster, node: Node, shard: int, resolved: bool)
    requires Inv(c) && node in c.nodes
    ensures Inv(StartShard(c, node, shard, resolved))
  {
    hide Committed, Valid;
    var n, c' := c.nodes[node], StartShard(c, node, shard, resolved);
    assert NodeOk(c.log, n);
    forall x | x in c'.nodes ensures NodeOk(c'.log, c'.nodes[x]) { assert NodeOk(c.log, c.nodes[x]); }
  }

  lemma StepKeepsInv(c: Cluster, step: Step)
    requires Inv(c) && Enabled(c, step) && !LosesFirstMap(c, step)
    ensures Inv(Next(c, step))
  {
    hide Committed, Valid, LosesFirstMap;
    var c' := Next(c, step);
    match step {
      case Append(e) => Grow(c.log, e);
      case Join(node) => assert Committed(c.log[..0]) == None by { EmptyLog(c.log); }
      case ApplyOne(node) => ApplyOneOk(c.log, c.nodes[node]);
      case ApplyFails(node) => ApplyFailsOk(c, node);
      case Restart(node, from) => RestartOk(c.log, c.nodes[node], from);
      case Start(node, shard, resolved) => StartOk(c, node, shard, resolved);
      case Install(node, n) => CommittedFounded(c.log, n);
      case _ =>
    }
    if !step.Start? && !step.Append? {
      forall x | x in c'.nodes ensures NodeOk(c'.log, c'.nodes[x]) {
        if x in c.nodes { assert NodeOk(c.log, c.nodes[x]); }
      }
    }
  }

  lemma EmptyLog(log: seq<Entry>)
    ensures Committed(log[..0]) == None
  {
  }

  // No step of the run loses the first map.
  ghost predicate NoneLost(c: Cluster, steps: seq<Step>)
    requires Legal(c, steps)
    decreases |steps|
  {
    steps == [] || (!LosesFirstMap(c, steps[0]) && NoneLost(Next(c, steps[0]), steps[1..]))
  }

  lemma {:induction false} RunKeepsInv(c: Cluster, steps: seq<Step>)
    requires Inv(c) && Legal(c, steps) && NoneLost(c, steps)
    ensures Inv(Run(c, steps))
    decreases |steps|
  {
    if steps != [] {
      StepKeepsInv(c, steps[0]);
      RunKeepsInv(Next(c, steps[0]), steps[1..]);
    }
  }

  /** Over every control log of arbitrary proposals, with each node having applied any prefix,
      restarting, replaying, losing disks and failing to store entries at will, except that no
      node without a map loses the first one it accepts: all bootstraps of a shard, anywhere,
      use one and the same server list, and only its founders perform them. Two groups for one
      shard can then never be bootstrapped from different configurations. */
  lemma OneFoundingConfiguration(steps: seq<Step>, a: nat, b: nat)
    requires Legal(Cluster([], map[], []), steps) && NoneLost(Cluster([], map[], []), steps)
    requires var c := Run(Cluster([], map[], []), steps);
      a < |c.done| && b < |c.done| && c.done[a].shard == c.done[b].shard
    ensures var c := Run(Cluster([], map[], []), steps);
      c.done[a].servers == c.done[b].servers && c.done[a].node in c.done[a].servers &&
        c.done[b].node in c.done[a].servers
  {
    RunKeepsInv(Cluster([], map[], []), steps);
  }

  // A first map of one shard for one node alone.
  function Rival(node: Node): ShardMap { ShardMap(0, 1, 1, 1, [[node]], [[node]]) }

  /** The exception is needed, for every state: once a node has lost the first map, at the end
      of the log, one rival proposal later it founds a group of its own, whoever has founded
      shard 0 before. The others refuse that proposal; this node has nothing to refuse it by. */
  lemma LostFirstMapFoundsRival(c: Cluster, node: Node)
    requires Inv(c) && node in c.nodes && node != "" && 0 !in c.nodes[node].state && 0 !in c.nodes[node].groups
    requires Enabled(c, ApplyFails(node)) && LosesFirstMap(c, ApplyFails(node)) && c.nodes[node].next + 1 == |c.log|
    ensures var steps := [ApplyFails(node), Append(Proposal(Rival(node))), ApplyOne(node), Start(node, 0, true)];
      && Legal(c, steps)
      && var c' := Run(c, steps);
         c'.done == c.done + [Bootstrap(node, 0, [node])] && Committed(c'.log) == Committed(c.log)
    ensures forall i :: 0 <= i < |c.done| && c.done[i].shard == 0 ==> BootstrapOk(c.log, c.done[i])
  {
    var m := Rival(node);
    var c1 := Next(c, ApplyFails(node));
    var c2 := Next(c1, Append(Proposal(m)));
    assert Valid(m) && Succeeds(None, m);
    var c3 := Next(c2, ApplyOne(node));
    assert c3.nodes[node].store == Some(m);
    var c4 := Next(c3, Start(node, 0, true));
    assert Run(c, [ApplyFails(node), Append(Proposal(m)), ApplyOne(node), Start(node, 0, true)]) == c4 by {
      FourSteps(c, ApplyFails(node), Append(Proposal(m)), ApplyOne(node), Start(node, 0, true));
    }
    RivalRefused(c, node);
  }

  lemma FourSteps(c: Cluster, s1: Step, s2: Step, s3: Step, s4: Step)
    requires Enabled(c, s1) && Enabled(Next(c, s1), s2) && Enabled(Next(Next(c, s1), s2), s3)
    requires Enabled(Next(Next(Next(c, s1), s2), s3), s4)
    ensures Legal(c, [s1, s2, s3, s4]) && Run(c, [s1, s2, s3, s4]) == Next(Next(Next(Next(c, s1), s2), s3), s4)
  {
    hide Enabled, Next;
    var c1 := Next(c, s1);
    var c2 := Next(c1, s2);
    var c3 := Next(c2, s3);
    assert [s1, s2, s3, s4][1..] == [s2, s3, s4] && [s2, s3, s4][1..] == [s3, s4] && [s3, s4][1..] == [s4] &&
      [s4][1..] == [];
    assert Legal(c3, [s4]) && Run(c3, [s4]) == Next(c3, s4);
    assert Legal(c2, [s3, s4]) && Run(c2, [s3, s4]) == Run(c3, [s4]);
    assert Legal(c1, [s2, s3, s4]) && Run(c1, [s2, s3, s4]) == Run(c2, [s3, s4]);
  }

  // Where there is a map, the rival does not succeed it: its version is not higher.
  lemma RivalRefused(c: Cluster, node: Node)
    requires Inv(c) && node in c.nodes && Enabled(c, ApplyFails(node)) && LosesFirstMap(c, ApplyFails(node))
    requires c.nodes[node].next + 1 == |c.log|
    ensures Committed(c.log).Some? && Committed(c.log + [Proposal(Rival(node))]) == Committed(c.log)
  {
    hide Valid;
    var log, x := c.log, c.nodes[node].next;
    assert NodeOk(log, c.nodes[node]);
    assert log[..|log| - 1] == log[..x];
    var more := log + [Proposal(Rival(node))];
    assert more[..|more| - 1] == log;
  }

  ghost predicate By(b: Bootstrap, node: Node, shard: int) { b.node == node && b.shard == shard }

  // The node has bootstrapped the shard at most once, and its disk shows it.
  ghost predicate AtMostOnce(c: Cluster, node: Node, shard: int) {
    && (forall i :: 0 <= i < |c.done| && By(c.done[i], node, shard) ==> node in c.nodes && shard in c.nodes[node].state)
    && (forall i, j :: 0 <= i < j < |c.done| ==> !(By(c.done[i], node, shard) && By(c.done[j], node, shard)))
  }

  // A node that keeps its disk never bootstraps a shard a second time, whatever else happens:
  // restarting or stopping a group does not found it again.
  lemma {:induction false} BootstrapsOnce(c: Cluster, steps: seq<Step>, node: Node, shard: int)
    requires AtMostOnce(c, node, shard) && Legal(c, steps)
    requires forall i :: 0 <= i < |steps| ==> steps[i] != LoseDisk(node, shard)
    ensures AtMostOnce(Run(c, steps), node, shard)
    decreases |steps|
  {
    if steps != [] {
      assert AtMostOnce(Next(c, steps[0]), node, shard) by { hide Committed, ApplyEntry; }
      BootstrapsOnce(Next(c, steps[0]), steps[1..], node, shard);
    }
  }
}

/** The planner of internal/cluster/shardsupervisor.go and the creation of the first map. */
module Planning {
  import opened Wrappers
  import opened Lists
  import opened HashRings
  import opened ShardMaps

  predicate Overlaps(a: seq<Node>, b: seq<Node>) {
    exists x :: x in a && x in b
  }

  method CheckOverlaps(a: seq<Node>, b: seq<Node>) returns (r: bool)
    ensures r == Overlaps(a, b)
  {
    for i := 0 to |a|
      invariant forall x :: 0 <= x < i ==> a[x] !in b
    {
      for j := 0 to |b|
        invariant forall y :: 0 <= y < j ==> a[i] != b[y]
      {
        if a[i] == b[j] {
          assert a[i] in a && a[i] in b;
          return true;
        }
      }
    }
    return false;
  }

  // A membership the planner may propose for m: well formed, and no shard handed wholly to
  // nodes that were not members.
  ghost predicate Keeps(m: ShardMap, desired: seq<seq<Node>>) {
    |desired| == |m.members| && forall i :: 0 <= i < |desired| ==>
      GoodMembers(desired[i]) && Overlaps(m.members[i], desired[i])
  }

  // One shard: what the ring implies, unless that shares no member with the current set.
  ghost predicate PlannedShard(current: seq<Node>, next: seq<Node>, ring: HashRing, key: nat, replicas: nat)
    reads ring
  {
    && GoodMembers(next) && Overlaps(current, next)
    && var choice := Take(Preference(ring.ring, ring.nodeMap, key), Min(replicas, |ring.nodes|));
       next == if Overlaps(current, choice) then choice else current
  }

  method PlanShard(current: seq<Node>, ring: HashRing, key: nat, replicas: nat) returns (next: seq<Node>)
    requires GoodMembers(current) && ring.Valid() && "" !in ring.nodes
    ensures PlannedShard(current, next, ring, key, replicas)
  {
    hide HashRing.Valid, Preference;
    next := ring.GetNodes(key, Min(replicas, |ring.nodes|));
    var share := CheckOverlaps(current, next);
    if |next| == 0 || !share {
      SelfOverlap(current);
      next := current;
    }
  }

  // plan. keyOf(i) is the hash of shard i's ring key.
  method Plan(committed: ShardMap, ring: HashRing, keyOf: nat -> nat, replicas: nat)
    returns (desired: seq<seq<Node>>, changed: bool)
    requires Valid(committed) && ring.Valid() && "" !in ring.nodes
    ensures Keeps(committed, desired)
    ensures forall i :: 0 <= i < |desired| ==> PlannedShard(committed.members[i], desired[i], ring, keyOf(i), replicas)
    ensures changed <==> exists i :: 0 <= i < |desired| && multiset(desired[i]) != multiset(committed.members[i])
  {
    hide HashRing.Valid, Preference, PlannedShard, Keeps;
    desired, changed := [], false;
    for i := 0 to committed.shards
      invariant |desired| == i
      invariant forall j :: 0 <= j < i ==> PlannedShard(committed.members[j], desired[j], ring, keyOf(j), replicas)
      invariant changed <==> exists j :: 0 <= j < i && multiset(desired[j]) != multiset(committed.members[j])
    {
      var current := committed.members[i];
      var next := PlanShard(current, ring, keyOf(i), replicas);
      changed := changed || multiset(next) != multiset(current);
      desired := desired + [next];
    }
    PlannedKeeps(committed, ring, keyOf, replicas, desired);
  }

  lemma PlannedKeeps(m: ShardMap, ring: HashRing, keyOf: nat -> nat, replicas: nat, desired: seq<seq<Node>>)
    requires |desired| == |m.members|
    requires forall i :: 0 <= i < |desired| ==> PlannedShard(m.members[i], desired[i], ring, keyOf(i), replicas)
    ensures Keeps(m, desired)
  {
    hide GoodMembers, Overlaps, Preference;
  }

  lemma SelfOverlap(a: seq<Node>)
    requires a != []
    ensures Overlaps(a, a)
  {
    assert a[0] in a;
  }

  // Versions are 64-bit: the last one is followed by zero.
  function NextVersion(v: nat): nat { if v == MAX_VERSION then 0 else v + 1 }

  function PlanEntry(m: ShardMap, desired: seq<seq<Node>>): Entry {
    Proposal(WithMembers(m, desired, NextVersion(m.version)))
  }

  // What the planner proposes is a legal successor of the map it read, always unless the
  // version counter is exhausted, and changes only members and version.
  lemma ProposalIsLegal(m: ShardMap, desired: seq<seq<Node>>)
    requires Valid(m) && m.version <= MAX_VERSION && Keeps(m, desired)
    ensures Succeeds(Some(m), PlanEntry(m, desired).m) <==> m.version < MAX_VERSION
    ensures PlanEntry(m, desired).m.(members := m.members, version := m.version) == m
  {
  }

  // A proposal made from the current map is committed.
  lemma FreshIsCommitted(log: seq<Entry>, desired: seq<seq<Node>>)
    requires Committed(log).Some? && Committed(log).value.version < MAX_VERSION && Keeps(Committed(log).value, desired)
    ensures var m := Committed(log).value;
      Committed(log + [PlanEntry(m, desired)]) == Some(m.(members := desired, version := m.version + 1))
  {
    hide Valid;
    CommittedValid(log);
    ProposalIsLegal(Committed(log).value, desired);
    CommittedExactly(log, PlanEntry(Committed(log).value, desired));
  }

  // A proposal made from a stale map is refused: if entry x was planned from the map that
  // prefix r commits, and is accepted, then that map was still the current one.
  lemma StaleIsRefused(log: seq<Entry>, r: nat, x: nat, desired: seq<seq<Node>>)
    requires r <= x < |log| && Committed(log[..r]).Some? && log[x] == PlanEntry(Committed(log[..r]).value, desired)
    requires Committed(log[..x + 1]) != Committed(log[..x])
    ensures Committed(log[..x]) == Committed(log[..r])
  {
    hide Valid;
    PrefixesAgree(log, r, x);
    assert log[..x + 1][..x] == log[..x];
    assert Committed(log[..x + 1]) == ApplyEntry(Committed(log[..x]), log[x]);
  }

  // Entry x is not a map, or creates the first one (version 1), or was planned from a map
  // some prefix commits, however stale.
  ghost predicate Planned(log: seq<Entry>, x: nat)
    requires x < |log|
  {
    || log[x].Other?
    || log[x].m.version == 1
    || exists r, desired :: PlannedFrom(log, x, r, desired)
  }

  ghost predicate PlannedFrom(log: seq<Entry>, x: nat, r: nat, desired: seq<seq<Node>>)
    requires x < |log|
  {
    r <= x && Committed(log[..r]).Some? && log[x] == PlanEntry(Committed(log[..r]).value, desired) &&
      Keeps(Committed(log[..r]).value, desired)
  }

  lemma {:induction false} VersionsPositive(log: seq<Entry>, n: nat)
    requires n <= |log| && forall x :: 0 <= x < n ==> Planned(log, x)
    ensures Committed(log[..n]).Some? ==> Committed(log[..n]).value.version >= 1
    decreases n
  {
    hide Valid;
    if n > 0 {
      VersionsPositive(log, n - 1);
      assert log[..n][..n - 1] == log[..n - 1];
      assert Planned(log, n - 1);
      if log[n - 1].Proposal? && log[n - 1].m.version != 1 {
        var r, desired :| PlannedFrom(log, n - 1, r, desired);
        PrefixesAgree(log, r, n - 1);
      }
    }
  }

  // Over any run driven by planners, on any number of leaders reading maps as stale as they
  // like: from one committed map to the next every shard keeps at least one member.
  lemma NeverAbandoned(log: seq<Entry>, x: nat, shard: nat)
    requires x < |log| && (forall y :: 0 <= y <= x ==> Planned(log, y))
    requires Committed(log[..x]).Some? && shard < |Committed(log[..x]).value.members|
    ensures Committed(log[..x + 1]).Some? && shard < |Committed(log[..x + 1]).value.members|
    ensures Overlaps(Committed(log[..x]).value.members[shard], Committed(log[..x + 1]).value.members[shard])
  {
    assert log[..x + 1][..x] == log[..x];
    CommittedValid(log[..x]);
    var was := Committed(log[..x]).value;
    SelfOverlap(was.members[shard]);
    if Committed(log[..x + 1]) != Committed(log[..x]) {
      assert Committed(log[..x + 1]) == Some(log[x].m);
      VersionsPositive(log, x);
      assert Planned(log, x);
      var r, desired :| PlannedFrom(log, x, r, desired);
      StaleIsRefused(log, r, x, desired);
    }
  }

  // BuildShardMap: the first map, from the ring as it stands.
  method BuildShardMap(shards: int, replicas: int, ring: HashRing, keyOf: nat -> nat, version: nat)
    returns (r: Option<ShardMap>)
    requires ring.Valid() && "" !in ring.nodes
    ensures r.Some? <==> shards >= 1 && replicas >= 1 && ring.nodes != {}
    ensures r.Some? ==> r.value.founders == r.value.members && r.value.version == r.value.epoch == version
    ensures r.Some? ==> (Succeeds(None, r.value) <==> version != 0)
    ensures r.Some? ==> |r.value.members| == shards && r.value.replicas == Min(replicas, |ring.nodes|)
    ensures r.Some? ==> forall i :: 0 <= i < shards ==>
      r.value.members[i] == Take(Preference(ring.ring, ring.nodeMap, keyOf(i)), r.value.replicas) &&
        |r.value.members[i]| == r.value.replicas
  {
    hide HashRing.Valid, Preference;
    if shards < 1 || replicas < 1 || |ring.nodes| == 0 {
      return None;
    }
    var copies := Min(replicas, |ring.nodes|);
    var members: seq<seq<Node>> := [];
    for i := 0 to shards
      invariant |members| == i && forall j :: 0 <= j < i ==> GoodMembers(members[j]) && |members[j]| == copies
      invariant forall j :: 0 <= j < i ==> members[j] == Take(Preference(ring.ring, ring.nodeMap, keyOf(j)), copies)
    {
      var m := ring.GetNodes(keyOf(i), copies);
      members := members + [m];
    }
    return Some(ShardMap(version, version, shards, copies, members, members));
  }
}
