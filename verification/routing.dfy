// Routing a metadata write to the group that owns the bucket: internal/cluster/shardrouter.go
// and the receiving side in internal/cluster/shardrpc.go.

module Routing {
  import opened Wrappers
  import opened Lists
  import opened HashRings
  import opened ShardMaps

  // How an apply on a leader ends: committed, not committed, or committed although the caller
  // is told otherwise (a timeout, or leadership lost while the entry was under way).
  datatype Apply = Works | Refuses | WorksUnseen

  // A node at one moment, as the router meets it: the map it routes by, the groups it runs
  // and leads, whom it believes to lead the others, how its applies end, and whether its
  // answers get through.
  datatype Peer = Peer(
    map_: Option<ShardMap>, running: set<int>, leads: set<int>, leaderOf: map<int, Node>, apply: Apply, silent: bool)

  datatype Answer = Accepted | LeaderIs(node: Node) | Refused

  // What the caller is told, and whether the group took the write.
  datatype Reply = Reply(answer: Answer, taken: bool)

  function Applied(a: Apply): Reply {
    match a
    case Works => Reply(Accepted, true)
    case Refuses => Reply(Refused, false)
    case WorksUnseen => Reply(Refused, true)
  }

  // ApplyHandler: refuse a caller that addresses another shard than this node's own map
  // gives for the bucket; then only the leader accepts, and another member names the leader.
  function Handle(p: Peer, bucket: nat, shard: int): Reply {
    if p.map_.None? || ShardForBucket(bucket, p.map_.value.shards) != shard then Reply(Refused, false)
    else if shard !in p.running then Reply(Refused, false)
    else if shard in p.leads then Applied(p.apply)
    else if shard in p.leaderOf && p.leaderOf[shard] != "" then Reply(LeaderIs(p.leaderOf[shard]), false)
    else Reply(Refused, false)
  }

  // What a receiver answers, case by case. It takes the write exactly when it has a map that
  // gives the bucket this shard, runs the group, leads it, and its apply commits.
  lemma HandleExactly(p: Peer, bucket: nat, shard: int)
    ensures var ours := p.map_.Some? && ShardForBucket(bucket, p.map_.value.shards) == shard && shard in p.running;
      var r := Handle(p, bucket, shard);
      && (r.taken <==> ours && shard in p.leads && (p.apply == Works || p.apply == WorksUnseen))
      && (r.answer == Accepted <==> ours && shard in p.leads && p.apply == Works)
      && (forall n :: r.answer == LeaderIs(n) <==>
            ours && shard !in p.leads && shard in p.leaderOf && p.leaderOf[shard] == n && n != "")
  {
  }

  // postApply: an answer that is lost is an error like any other.
  function Post(p: Peer, bucket: nat, shard: int): Reply {
    var r := Handle(p, bucket, shard);
    if p.silent then r.(answer := Refused) else r
  }

  // The nodes that have an address, as the router finds them at each moment.
  type Network = nat -> map<Node, Peer>

  datatype Event = Sent(node: Node, shard: int, reply: Reply) | NoAddress(node: Node) {
    predicate Taken() { Sent? && reply.taken }
    predicate Good() { Sent? && reply.answer == Accepted }
    predicate TakenUnseen() { Taken() && !Good() }
  }

  function Ask(net: Network, t: nat, id: Node, bucket: nat, shard: int): (e: Event)
    ensures e.node == id && (e.Good() ==> e.Taken())
  {
    if id in net(t) then Sent(id, shard, Post(net(t)[id], bucket, shard)) else NoAddress(id)
  }

  datatype Outcome = Outcome(ok: bool, trace: seq<Event>)

  function Preceded(events: seq<Event>, o: Outcome): Outcome { o.(trace := events + o.trace) }

  // The order in which members are asked, from the t-th event on: each node once, and after a
  // redirect the leader it names.
  function Tour(net: Network, bucket: nat, shard: int, order: seq<Node>, tried: set<Node>, t: nat): (o: Outcome)
    decreases |order|
  {
    if order == [] then Outcome(false, [])
    else if order[0] in tried then Tour(net, bucket, shard, order[1..], tried, t)
    else
      var id := order[0];
      var first := Ask(net, t, id, bucket, shard);
      if first.Good() then Outcome(true, [first])
      else if first.Sent? && first.reply.answer.LeaderIs? && first.reply.answer.node !in tried + {id} then
        var leader := first.reply.answer.node;
        var second := Ask(net, t + 1, leader, bucket, shard);
        if second.Good() then Outcome(true, [first, second])
        else Preceded([first, second], Tour(net, bucket, shard, order[1..], tried + {id, leader}, t + 2))
      else Preceded([first], Tour(net, bucket, shard, order[1..], tried + {id}, t + 1))
  }

  // One turn of the tour: the request to the next node, and to the leader it names.
  lemma TourTurn(net: Network, bucket: nat, shard: int, order: seq<Node>, tried: set<Node>, t: nat)
    requires order != []
    ensures var o, id := Tour(net, bucket, shard, order, tried, t), order[0];
      if id in tried then o == Tour(net, bucket, shard, order[1..], tried, t)
      else
        var first := Ask(net, t, id, bucket, shard);
        if first.Good() then o == Outcome(true, [first])
        else if first.Sent? && first.reply.answer.LeaderIs? && first.reply.answer.node !in tried + {id} then
          var leader := first.reply.answer.node;
          var second := Ask(net, t + 1, leader, bucket, shard);
          if second.Good() then o == Outcome(true, [first] + [second])
          else o == Preceded([first] + [second], Tour(net, bucket, shard, order[1..], tried + {id} + {leader}, t + 2))
        else o == Preceded([first], Tour(net, bucket, shard, order[1..], tried + {id}, t + 1))
  {
    hide Ask;
    var id := order[0];
    var first := Ask(net, t, id, bucket, shard);
    if first.Sent? && first.reply.answer.LeaderIs? {
      assert tried + {id, first.reply.answer.node} == tried + {id} + {first.reply.answer.node};
    }
  }

  lemma PrecededTwice(a: seq<Event>, b: seq<Event>, o: Outcome)
    ensures Preceded(a, Preceded(b, o)) == Preceded(a + b, o)
  {
    assert a + (b + o.trace) == a + b + o.trace;
  }

  // Every event of a tour is what asking that node at that moment gives.
  lemma {:induction false} TourGenuine(net: Network, bucket: nat, shard: int, order: seq<Node>, tried: set<Node>,
                                       t: nat)
    ensures var trace := Tour(net, bucket, shard, order, tried, t).trace;
      forall i :: 0 <= i < |trace| ==> trace[i] == Ask(net, t + i, trace[i].node, bucket, shard)
    decreases |order|
  {
    hide Ask;
    if order != [] {
      TourTurn(net, bucket, shard, order, tried, t);
      var id, rest := order[0], order[1..];
      var first := Ask(net, t, id, bucket, shard);
      var trace := Tour(net, bucket, shard, order, tried, t).trace;
      if id in tried {
        TourGenuine(net, bucket, shard, rest, tried, t);
      } else if first.Sent? && first.reply.answer.LeaderIs? && first.reply.answer.node !in tried + {id} {
        var leader := first.reply.answer.node;
        var o := Tour(net, bucket, shard, rest, tried + {id} + {leader}, t + 2);
        TourGenuine(net, bucket, shard, rest, tried + {id} + {leader}, t + 2);
        forall i | 2 <= i < |trace| ensures trace[i] == Ask(net, t + i, trace[i].node, bucket, shard) {
          assert trace[i] == o.trace[i - 2];
        }
      } else {
        var o := Tour(net, bucket, shard, rest, tried + {id}, t + 1);
        TourGenuine(net, bucket, shard, rest, tried + {id}, t + 1);
        forall i | 1 <= i < |trace| ensures trace[i] == Ask(net, t + i, trace[i].node, bucket, shard) {
          assert trace[i] == o.trace[i - 1];
        }
      }
    }
  }

  // The first node of the order is asked first, and the leader it names next.
  lemma RedirectFollowed(net: Network, bucket: nat, shard: int, order: seq<Node>, tried: set<Node>, t: nat)
    requires order != [] && order[0] !in tried
    ensures var trace := Tour(net, bucket, shard, order, tried, t).trace;
      && trace != [] && trace[0].node == order[0]
      && (trace[0].Sent? && trace[0].reply.answer.LeaderIs? &&
          trace[0].reply.answer.node !in tried && trace[0].reply.answer.node != order[0] ==>
            |trace| > 1 && trace[1].node == trace[0].reply.answer.node)
  {
    TourTurn(net, bucket, shard, order, tried, t);
  }

  // --- what holds of every tour ---

  // A map some prefix of the control log commits, however stale.
  ghost predicate FromLog(log: seq<Entry>, m: Option<ShardMap>) {
    exists i :: 0 <= i <= |log| && m == Committed(log[..i])
  }

  ghost predicate AllFromLog(log: seq<Entry>, net: Network) {
    forall t, n :: n in net(t) ==> FromLog(log, net(t)[n].map_)
  }

  // A bucket never moves: every map of the log gives it the same shard.
  lemma BucketStays(log: seq<Entry>, m: Option<ShardMap>, bucket: nat)
    requires FromLog(log, m) && m.Some?
    ensures Committed(log).Some?
    ensures ShardForBucket(bucket, m.value.shards) == ShardForBucket(bucket, Committed(log).value.shards)
  {
    var i :| 0 <= i <= |log| && m == Committed(log[..i]);
    PrefixesAgree(log, i, |log|);
    assert log[..|log|] == log;
  }

  // The receiving side alone: whatever shard a caller addresses, by whatever map it routes,
  // the write is taken only if that is the shard every committed map gives the bucket.
  lemma TakenOnlyByOwner(log: seq<Entry>, p: Peer, bucket: nat, shard: int)
    requires FromLog(log, p.map_) && Post(p, bucket, shard).taken
    ensures Committed(log).Some? && shard == ShardForBucket(bucket, Committed(log).value.shards) && shard in p.leads
  {
    BucketStays(log, p.map_, bucket);
  }

  // Every group that took the write is that of the bucket's one shard.
  ghost predicate Owned(log: seq<Entry>, bucket: nat, trace: seq<Event>) {
    forall i :: 0 <= i < |trace| && trace[i].Taken() ==>
      Committed(log).Some? && trace[i].shard == ShardForBucket(bucket, Committed(log).value.shards)
  }

  // Nobody is asked twice, and the write ends with the first request reported as accepted.
  ghost predicate Orderly(o: Outcome, tried: set<Node>) {
    && (forall i :: 0 <= i < |o.trace| ==> o.trace[i].node !in tried)
    && (forall i, j :: 0 <= i < j < |o.trace| ==> o.trace[i].node != o.trace[j].node)
    && (forall i :: 0 <= i < |o.trace| ==> (o.trace[i].Good() <==> o.ok && i == |o.trace| - 1))
    && (forall i :: 0 <= i < |o.trace| && o.trace[i].Good() ==> o.trace[i].Taken())
    && (o.ok ==> o.trace != [])
  }

  lemma OwnedBoth(log: seq<Entry>, bucket: nat, a: seq<Event>, b: seq<Event>)
    requires Owned(log, bucket, a) && Owned(log, bucket, b)
    ensures Owned(log, bucket, a + b)
  {
  }

  lemma {:induction false} TourOwned(log: seq<Entry>, net: Network, bucket: nat, shard: int, order: seq<Node>,
                                     tried: set<Node>, t: nat)
    requires AllFromLog(log, net)
    ensures Owned(log, bucket, Tour(net, bucket, shard, order, tried, t).trace)
    decreases |order|
  {
    hide Committed, FromLog, Post, Ask, Owned;
    if order == [] {
      assert Owned(log, bucket, []) by { NoneOwned(log, bucket); }
    } else {
      TourTurn(net, bucket, shard, order, tried, t);
      hide Tour;
      var id, rest := order[0], order[1..];
      AskOwned(log, net, t, id, bucket, shard);
      var first := Ask(net, t, id, bucket, shard);
      if id in tried {
        TourOwned(log, net, bucket, shard, rest, tried, t);
      } else if first.Sent? && first.reply.answer.LeaderIs? && first.reply.answer.node !in tried + {id} {
        var leader := first.reply.answer.node;
        var second := Ask(net, t + 1, leader, bucket, shard);
        AskOwned(log, net, t + 1, leader, bucket, shard);
        OwnedBoth(log, bucket, [first], [second]);
        TourOwned(log, net, bucket, shard, rest, tried + {id} + {leader}, t + 2);
        var o := Tour(net, bucket, shard, rest, tried + {id} + {leader}, t + 2);
        OwnedBoth(log, bucket, [first] + [second], o.trace);
      } else {
        TourOwned(log, net, bucket, shard, rest, tried + {id}, t + 1);
        OwnedBoth(log, bucket, [first], Tour(net, bucket, shard, rest, tried + {id}, t + 1).trace);
      }
    }
  }

  lemma NoneOwned(log: seq<Entry>, bucket: nat)
    ensures Owned(log, bucket, [])
  {
  }

  lemma AskOwned(log: seq<Entry>, net: Network, t: nat, id: Node, bucket: nat, shard: int)
    requires AllFromLog(log, net)
    ensures Owned(log, bucket, [Ask(net, t, id, bucket, shard)])
  {
    hide Committed, FromLog;
    if Ask(net, t, id, bucket, shard).Taken() { TakenOnlyByOwner(log, net(t)[id], bucket, shard); }
  }

  lemma {:induction false} TourOrderly(net: Network, bucket: nat, shard: int, order: seq<Node>, tried: set<Node>,
                                       t: nat)
    ensures Orderly(Tour(net, bucket, shard, order, tried, t), tried)
    decreases |order|
  {
    hide Ask;
    if order != [] && order[0] in tried {
      TourOrderly(net, bucket, shard, order[1..], tried, t);
    } else if order != [] {
      var id := order[0];
      var first := Ask(net, t, id, bucket, shard);
      if first.Sent? && first.reply.answer.LeaderIs? && first.reply.answer.node !in tried + {id} {
        var leader := first.reply.answer.node;
        TourOrderly(net, bucket, shard, order[1..], tried + {id, leader}, t + 2);
      } else {
        TourOrderly(net, bucket, shard, order[1..], tried + {id}, t + 1);
      }
    }
  }

  // A tour that ends without success has turned to every node of the order.
  ghost predicate Reached(trace: seq<Event>, id: Node) { exists i :: 0 <= i < |trace| && trace[i].node == id }

  lemma {:induction false} TourReachesAll(net: Network, bucket: nat, shard: int, order: seq<Node>, tried: set<Node>,
                                          t: nat, id: Node)
    requires !Tour(net, bucket, shard, order, tried, t).ok && id in order && id !in tried
    ensures Reached(Tour(net, bucket, shard, order, tried, t).trace, id)
    decreases |order|
  {
    hide Ask;
    var next, rest := order[0], order[1..];
    var trace := Tour(net, bucket, shard, order, tried, t).trace;
    assert order == [next] + rest;
    if next in tried {
      TourReachesAll(net, bucket, shard, rest, tried, t, id);
    } else {
      var first := Ask(net, t, next, bucket, shard);
      assert trace[0] == first;
      if first.Sent? && first.reply.answer.LeaderIs? && first.reply.answer.node !in tried + {next} {
        var leader := first.reply.answer.node;
        assert trace[1].node == leader;
        if id != next && id != leader {
          var o := Tour(net, bucket, shard, rest, tried + {next, leader}, t + 2);
          TourReachesAll(net, bucket, shard, rest, tried + {next, leader}, t + 2, id);
          var i :| 0 <= i < |o.trace| && o.trace[i].node == id;
          assert trace[i + 2] == o.trace[i];
        }
      } else if id != next {
        var o := Tour(net, bucket, shard, rest, tried + {next}, t + 1);
        TourReachesAll(net, bucket, shard, rest, tried + {next}, t + 1, id);
        var i :| 0 <= i < |o.trace| && o.trace[i].node == id;
        assert trace[i + 1] == o.trace[i];
      }
    }
  }

  // --- how often a write is taken ---

  function Takes(trace: seq<Event>): nat {
    if trace == [] then 0 else Takes(trace[..|trace| - 1]) + if trace[|trace| - 1].Taken() then 1 else 0
  }

  function Unseen(trace: seq<Event>): nat {
    if trace == [] then 0 else Unseen(trace[..|trace| - 1]) + if trace[|trace| - 1].TakenUnseen() then 1 else 0
  }

  lemma {:induction false} TakesUnseen(trace: seq<Event>)
    requires forall i :: 0 <= i < |trace| ==> !trace[i].Good()
    ensures Takes(trace) == Unseen(trace)
  {
    if trace != [] { TakesUnseen(trace[..|trace| - 1]); }
  }

  // The write is taken once for every request that was taken and reported as failed, and once
  // more if it succeeds.
  lemma HowOften(o: Outcome, tried: set<Node>)
    requires Orderly(o, tried)
    ensures Takes(o.trace) == Unseen(o.trace) + if o.ok then 1 else 0
  {
    if o.ok {
      var last := o.trace[|o.trace| - 1];
      TakesUnseen(o.trace[..|o.trace| - 1]);
      assert last.Good() && last.Taken();
    } else {
      TakesUnseen(o.trace);
    }
  }

  // One request was taken and reported as failed, and a later one was taken again.
  ghost predicate Repeated(trace: seq<Event>) {
    exists i, j :: 0 <= i < j < |trace| && trace[i].TakenUnseen() && trace[j].Taken()
  }

  lemma {:induction false} SomeTaken(trace: seq<Event>)
    ensures Takes(trace) > 0 <==> exists i :: 0 <= i < |trace| && trace[i].Taken()
  {
    if trace != [] {
      var front := trace[..|trace| - 1];
      SomeTaken(front);
      if i :| 0 <= i < |trace| && trace[i].Taken() {
        if i < |front| { assert front[i].Taken(); }
      }
      if i :| 0 <= i < |front| && front[i].Taken() { assert trace[i].Taken(); }
    }
  }

  lemma {:induction false} TakenTwice(trace: seq<Event>)
    ensures Takes(trace) > 1 <==> exists i, j :: 0 <= i < j < |trace| && trace[i].Taken() && trace[j].Taken()
  {
    if trace != [] {
      var front, last := trace[..|trace| - 1], trace[|trace| - 1];
      TakenTwice(front);
      SomeTaken(front);
      if i, j :| 0 <= i < j < |trace| && trace[i].Taken() && trace[j].Taken() {
        assert front[i].Taken();
        if j < |front| { assert front[j].Taken(); }
      }
      if Takes(front) > 1 {
        var i, j :| 0 <= i < j < |front| && front[i].Taken() && front[j].Taken();
        assert trace[i].Taken() && trace[j].Taken();
      } else if Takes(front) == 1 && last.Taken() {
        var i :| 0 <= i < |front| && front[i].Taken();
        assert trace[i].Taken() && trace[|trace| - 1].Taken();
      }
    }
  }

  /** A write is taken at most once if and only if no request that was taken and reported as
      failed is followed by one that is taken again. */
  lemma AtMostOnceExactly(o: Outcome, tried: set<Node>)
    requires Orderly(o, tried)
    ensures Takes(o.trace) <= 1 <==> !Repeated(o.trace)
  {
    TakenTwice(o.trace);
    if i, j :| 0 <= i < j < |o.trace| && o.trace[i].Taken() && o.trace[j].Taken() {
      assert !o.trace[i].Good();
      assert o.trace[i].TakenUnseen();
    }
    if Repeated(o.trace) {
      var i, j :| 0 <= i < j < |o.trace| && o.trace[i].TakenUnseen() && o.trace[j].Taken();
      assert o.trace[i].Taken() && o.trace[j].Taken();
    }
  }

  // It does happen: the first member takes the write and its answer is lost or late, and the
  // next one, by then the leader, takes it again. The caller sees one success.
  lemma TakenAgain(net: Network, bucket: nat, shard: int, a: Node, b: Node)
    requires a != b && a in net(0) && b in net(1)
    requires Post(net(0)[a], bucket, shard) == Reply(Refused, true)
    requires Post(net(1)[b], bucket, shard) == Reply(Accepted, true)
    ensures var o := Tour(net, bucket, shard, [a, b], {}, 0);
      o.ok && |o.trace| == 2 && Takes(o.trace) == 2 && Repeated(o.trace)
  {
    hide Tour, Takes, Post;
    var o := Tour(net, bucket, shard, [a, b], {}, 0);
    assert [a, b][1..] == [b] && {} + {a} == {a};
    var first, second := Ask(net, 0, a, bucket, shard), Ask(net, 1, b, bucket, shard);
    TourTurn(net, bucket, shard, [a, b], {}, 0);
    TourTurn(net, bucket, shard, [b], {a}, 1);
    assert o.trace == [first, second];
    assert o.trace[0].TakenUnseen() && o.trace[1].Taken();
    TakenTwice(o.trace);
    HowMany(o.trace);
  }

  lemma {:induction false} HowMany(trace: seq<Event>)
    ensures Takes(trace) <= |trace|
  {
    if trace != [] { HowMany(trace[..|trace| - 1]); }
  }

  // --- the router ---

  // Where a write goes: to this node's own group, to the leader that group knows, or round
  // the members, the remembered leader first.
  function Route(net: Network, self: Node, m: Option<ShardMap>, hint: map<int, Node>, bucket: nat): Outcome {
    if m.None? || self !in net(0) then Outcome(false, [])
    else
      var shard, me := ShardForBucket(bucket, m.value.shards), net(0)[self];
      if shard !in me.running then Tour(net, bucket, shard, Members(m.value, shard, hint), {}, 0)
      else if shard in me.leads then
        var own := Sent(self, shard, Applied(me.apply));
        Outcome(own.Good(), [own])
      else if shard !in me.leaderOf || me.leaderOf[shard] == "" then Outcome(false, [])
      else
        var asked := Ask(net, 0, me.leaderOf[shard], bucket, shard);
        Outcome(asked.Good(), [asked])
  }

  function Members(m: ShardMap, shard: int, hint: map<int, Node>): seq<Node> {
    var members := if 0 <= shard < |m.members| then m.members[shard] else [];
    if members != [] && shard in hint && hint[shard] != "" then [hint[shard]] + members else members
  }

  /** A routed write, whatever maps the nodes hold, however they change from one request to the
      next and whichever answers are lost: only groups of the bucket's one shard take it, nobody
      is asked twice, it is taken once per unseen taking and once more on success, so at most
      once if and only if no unseen taking is followed by another; and from a node that does
      not run the shard it fails only after turning to every member. */
  lemma RoutedWrite(log: seq<Entry>, net: Network, self: Node, m: Option<ShardMap>, hint: map<int, Node>, bucket: nat)
    requires AllFromLog(log, net) && FromLog(log, m)
    ensures var o := Route(net, self, m, hint, bucket);
      && Owned(log, bucket, o.trace) && Orderly(o, {})
      && Takes(o.trace) == Unseen(o.trace) + (if o.ok then 1 else 0)
      && (Takes(o.trace) <= 1 <==> !Repeated(o.trace))
    ensures m.Some? && self in net(0) && !Route(net, self, m, hint, bucket).ok ==>
      var shard := ShardForBucket(bucket, m.value.shards);
      0 <= shard < |m.value.members| && m.value.members[shard] != [] && (shard !in net(0)[self].running ==>
        forall id :: id in m.value.members[shard] ==> Reached(Route(net, self, m, hint, bucket).trace, id))
  {
    hide Committed, FromLog, Tour, Post, Takes, Unseen, AllFromLog;
    var o := Route(net, self, m, hint, bucket);
    if m.Some? && self in net(0) {
      BucketStays(log, m, bucket);
      LogHasMembers(log, m, bucket);
      var shard, me := ShardForBucket(bucket, m.value.shards), net(0)[self];
      if shard !in me.running {
        var order := Members(m.value, shard, hint);
        TourOwned(log, net, bucket, shard, order, {}, 0);
        TourOrderly(net, bucket, shard, order, {}, 0);
        if !o.ok {
          forall id | id in m.value.members[shard] ensures Reached(o.trace, id) {
            TourReachesAll(net, bucket, shard, order, {}, 0, id);
          }
        }
      } else if shard !in me.leads && shard in me.leaderOf {
        AskOwned(log, net, 0, me.leaderOf[shard], bucket, shard);
      }
    }
    HowOften(o, {});
    AtMostOnceExactly(o, {});
  }

  // A peer that takes a write says so and is heard.
  predicate Frank(p: Peer) { p.apply != WorksUnseen && !(p.silent && p.apply == Works) }

  ghost predicate AllFrank(net: Network) { forall t, n :: n in net(t) ==> Frank(net(t)[n]) }

  lemma {:induction false} FrankTour(net: Network, bucket: nat, shard: int, order: seq<Node>, tried: set<Node>, t: nat)
    requires AllFrank(net)
    ensures var trace := Tour(net, bucket, shard, order, tried, t).trace;
      forall i :: 0 <= i < |trace| ==> !trace[i].TakenUnseen()
    decreases |order|
  {
    if order != [] {
      TourTurn(net, bucket, shard, order, tried, t);
      var id, rest := order[0], order[1..];
      var first := Ask(net, t, id, bucket, shard);
      if id in tried {
        FrankTour(net, bucket, shard, rest, tried, t);
      } else if first.Sent? && first.reply.answer.LeaderIs? && first.reply.answer.node !in tried + {id} {
        FrankTour(net, bucket, shard, rest, tried + {id} + {first.reply.answer.node}, t + 2);
      } else {
        FrankTour(net, bucket, shard, rest, tried + {id}, t + 1);
      }
    }
  }

  /** Said of the network before the call: where every peer that may take the write says so and
      is heard, a write is taken exactly once if it succeeds and not at all if it fails. Where
      one takes it unseen at the moment it is asked and another would take it at the next,
      TakenAgain gives the order of members in which both do. */
  lemma FrankNetwork(net: Network, self: Node, m: Option<ShardMap>, hint: map<int, Node>, bucket: nat)
    requires AllFrank(net)
    ensures var o := Route(net, self, m, hint, bucket); Takes(o.trace) == if o.ok then 1 else 0
  {
    hide Takes, Unseen;
    var o := Route(net, self, m, hint, bucket);
    if m.Some? && self in net(0) {
      var shard := ShardForBucket(bucket, m.value.shards);
      if shard !in net(0)[self].running {
        var order := Members(m.value, shard, hint);
        FrankTour(net, bucket, shard, order, {}, 0);
        TourOrderly(net, bucket, shard, order, {}, 0);
      }
    }
    NoneUnseen(o.trace);
    HowOften(o, {});
  }

  lemma {:induction false} NoneUnseen(trace: seq<Event>)
    requires forall i :: 0 <= i < |trace| ==> !trace[i].TakenUnseen()
    ensures Unseen(trace) == 0
  {
    if trace != [] { NoneUnseen(trace[..|trace| - 1]); }
  }

  // Where a write goes. A node that leads the bucket's group applies it itself; one that follows
  // asks the leader it knows; one that does not run the group asks the leader it remembers
  // first, if it remembers one, and otherwise the first member.
  lemma RouteExactly(net: Network, self: Node, m: ShardMap, hint: map<int, Node>, bucket: nat)
    requires self in net(0) && Valid(m)
    ensures var shard, me, o := ShardForBucket(bucket, m.shards), net(0)[self], Route(net, self, Some(m), hint, bucket);
      && (shard in me.running && shard in me.leads ==>
            o.trace == [Sent(self, shard, Applied(me.apply))] && (o.ok <==> me.apply == Works))
      && (shard in me.running && shard !in me.leads && shard in me.leaderOf && me.leaderOf[shard] != "" ==>
            |o.trace| == 1 && o.trace[0] == Ask(net, 0, me.leaderOf[shard], bucket, shard))
      && (shard !in me.running ==>
            o.trace != [] &&
            o.trace[0].node == if shard in hint && hint[shard] != "" then hint[shard] else m.members[shard][0])
  {
    hide Tour, Ask, Valid;
    BucketHasMembers(m, bucket);
    var shard := ShardForBucket(bucket, m.shards);
    if shard !in net(0)[self].running { RedirectFollowed(net, bucket, shard, Members(m, shard, hint), {}, 0); }
  }

  // A map of the log gives a bucket a shard that has members.
  lemma LogHasMembers(log: seq<Entry>, m: Option<ShardMap>, bucket: nat)
    requires FromLog(log, m) && m.Some?
    ensures Valid(m.value)
    ensures var shard := ShardForBucket(bucket, m.value.shards);
      0 <= shard < |m.value.members| && m.value.members[shard] != []
  {
    hide Valid;
    var i :| 0 <= i <= |log| && m == Committed(log[..i]);
    CommittedValid(log[..i]);
    BucketHasMembers(m.value, bucket);
  }

  class ShardRouter {
    const nodeID: Node
    var committed: Option<ShardMap>
    var leaderHint: map<int, Node>

    constructor (nodeID: Node)
      ensures committed == None && leaderHint == map[] && this.nodeID == nodeID
    {
      this.nodeID, committed, leaderHint := nodeID, None, map[];
    }

    method RememberLeader(shard: int, node: Node)
      modifies this`leaderHint
      ensures leaderHint == if node == "" then old(leaderHint) else old(leaderHint)[shard := node]
    {
      if node != "" {
        leaderHint := leaderHint[shard := node];
      }
    }

    method Write(net: Network, bucket: nat) returns (ok: bool, ghost trace: seq<Event>)
      requires nodeID in net(0)
      modifies this`leaderHint
      ensures Outcome(ok, trace) == Route(net, nodeID, committed, old(leaderHint), bucket)
      ensures ok && committed.Some? ==> var shard := ShardForBucket(bucket, committed.value.shards);
        shard !in net(0)[nodeID].running && trace[|trace| - 1].node != "" ==>
          shard in leaderHint && leaderHint[shard] == trace[|trace| - 1].node
    {
      hide Tour;
      if committed.None? {
        return false, [];
      }
      var m := committed.value;
      var shard, self := ShardForBucket(bucket, m.shards), net(0)[nodeID];
      if shard in self.running {
        if shard in self.leads {
          var own := Sent(nodeID, shard, Applied(self.apply));
          return own.Good(), [own];
        }
        var leader := if shard in self.leaderOf then self.leaderOf[shard] else "";
        if leader == "" {
          return false, [];
        }
        var asked := Ask(net, 0, leader, bucket, shard);
        return asked.Good(), [asked];
      }
      ok, trace := WriteViaMembers(net, shard, m, bucket);
    }

    // From a node that holds no copy: ask the members, following each one's redirect once.
    method WriteViaMembers(net: Network, shard: int, m: ShardMap, bucket: nat)
      returns (ok: bool, ghost trace: seq<Event>)
      modifies this`leaderHint
      ensures Outcome(ok, trace) == Tour(net, bucket, shard, Members(m, shard, old(leaderHint)), {}, 0)
      // The node that took the write is remembered for the next one; other shards are as before.
      ensures ok && trace[|trace| - 1].node != "" ==>
        shard in leaderHint && leaderHint[shard] == trace[|trace| - 1].node
      ensures leaderHint - {shard} == old(leaderHint) - {shard}
    {
      hide Ask, Preceded;
      ok, trace := false, [];
      var order := if 0 <= shard < |m.members| then m.members[shard] else [];
      if |order| == 0 {
        return;
      }
      if shard in leaderHint && leaderHint[shard] != "" {
        order := [leaderHint[shard]] + order;
      }
      var tried: set<Node>, t := {}, 0;
      ghost var all := Tour(net, bucket, shard, order, {}, 0);
      hide Tour;
      assert order[0..] == order && Preceded([], all) == all by { NonePreceded(all); }
      for i := 0 to |order|
        invariant !ok && all == Preceded(trace, Tour(net, bucket, shard, order[i..], tried, t))
        invariant leaderHint - {shard} == old(leaderHint) - {shard}
      {
        var id := order[i];
        assert order[i..][0] == id && order[i..][1..] == order[i + 1..];
        TourTurn(net, bucket, shard, order[i..], tried, t);
        if id in tried {
          continue;
        }
        tried := tried + {id};
        var first := Ask(net, t, id, bucket, shard);
        ghost var was, rest := trace, order[i + 1..];
        t, trace := t + 1, trace + [first];
        if first.Good() {
          PrecededEnd(was, [first]);
          RememberLeader(shard, id);
          return true, trace;
        }
        if first.Sent? && first.reply.answer.LeaderIs? && first.reply.answer.node !in tried {
          var leader := first.reply.answer.node;
          tried := tried + {leader};
          RememberLeader(shard, leader);
          var second := Ask(net, t, leader, bucket, shard);
          t, trace := t + 1, trace + [second];
          assert trace == was + ([first] + [second]);
          if second.Good() {
            PrecededEnd(was, [first] + [second]);
            return true, trace;
          }
          PrecededTwice(was, [first] + [second], Tour(net, bucket, shard, rest, tried, t));
        } else {
          PrecededTwice(was, [first], Tour(net, bucket, shard, rest, tried, t));
        }
      }
      assert order[|order|..] == [];
      TourEnds(net, bucket, shard, tried, t, trace);
    }
  }

  lemma NonePreceded(o: Outcome)
    ensures Preceded([], o) == o
  {
    assert [] + o.trace == o.trace;
  }

  lemma PrecededEnd(a: seq<Event>, b: seq<Event>)
    ensures Preceded(a, Outcome(true, b)) == Outcome(true, a + b)
  {
  }

  lemma TourEnds(net: Network, bucket: nat, shard: int, tried: set<Node>, t: nat, trace: seq<Event>)
    ensures Preceded(trace, Tour(net, bucket, shard, [], tried, t)) == Outcome(false, trace)
  {
    assert trace + [] == trace;
  }
}
