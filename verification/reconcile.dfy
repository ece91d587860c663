// The membership reconciler of internal/cluster/shardsupervisor.go: one round changes a
// shard's Raft configuration by at most one server.

module Reconciling {
  import opened Wrappers
  import opened Lists
  import opened HashRings

  datatype Change = Nothing | Add(id: Node) | Remove(id: Node)

  // The first wanted member that is not in the configuration.
  function FirstMissing(want: seq<Node>, have: seq<Node>): (r: Option<Node>)
    ensures r.Some? ==> r.value in want && r.value !in have
    ensures r.None? ==> forall x :: x in want ==> x in have
    ensures r.Some? ==> exists i :: 0 <= i < |want| && want[i] == r.value && forall x :: x in want[..i] ==> x in have
  {
    if want == [] then None
    else if want[0] !in have then Some(want[0])
    else
      var r := FirstMissing(want[1..], have);
      assert forall x :: x in want ==> x == want[0] || x in want[1..];
      assert forall i :: 0 <= i < |want| - 1 ==>
        want[1..][i] == want[i + 1] && want[..i + 1] == [want[0]] + want[1..][..i];
      r
  }

  // The first surplus member other than the leader; the leader only when it is the last.
  function Surplus(leader: Node, want: seq<Node>, have: seq<Node>): (r: Option<Node>)
    ensures r.Some? ==> r.value in have && r.value !in want
    ensures r.None? <==> forall x :: x in have ==> x in want
    ensures r == Some(leader) ==> forall x :: x in have && x !in want ==> x == leader
    ensures r.Some? && r.value != leader ==> exists i ::
      0 <= i < |have| && have[i] == r.value && forall x :: x in have[..i] ==> x in want || x == leader
  {
    if have == [] then None
    else
      assert forall x :: x in have <==> x == have[0] || x in have[1..];
      assert forall i :: 0 <= i < |have| - 1 ==>
        have[1..][i] == have[i + 1] && have[..i + 1] == [have[0]] + have[1..][..i];
      var rest := Surplus(leader, want, have[1..]);
      if have[0] in want then rest
      else if have[0] != leader || rest.None? then Some(have[0])
      else rest
  }

  // What a round attempts. An address that does not resolve ends the search for an addition,
  // and the round goes on to removals.
  function Attempt(leader: Node, want: seq<Node>, have: seq<Node>, resolves: Node -> bool): Change {
    var missing := FirstMissing(want, have);
    if want == [] then Nothing
    else if missing.Some? && resolves(missing.value) then Add(missing.value)
    else if |have| <= 1 then Nothing
    else match Surplus(leader, want, have) case None => Nothing case Some(id) => Remove(id)
  }

  function Carry(have: seq<Node>, c: Change, succeeds: bool): seq<Node> {
    if !succeeds then have
    else match c case Nothing => have case Add(id) => have + [id] case Remove(id) => Without(have, id)
  }

  // shardReconciler.step for one shard this node leads.
  method Round(leader: Node, want: seq<Node>, have: seq<Node>, resolves: Node -> bool, succeeds: bool)
    returns (now: seq<Node>)
    requires leader != "" && "" !in have && Distinct(have)
    ensures now == Carry(have, Attempt(leader, want, have, resolves), succeeds)
  {
    now := have;
    if |want| == 0 {
      return;
    }
    var present := SetOf(have);
    var i, searching := 0, true;
    while i < |want| && searching
      invariant 0 <= i <= |want| && (searching ==> FirstMissing(want, have) == FirstMissing(want[i..], have))
      invariant !searching ==> FirstMissing(want, have).Some? && !resolves(FirstMissing(want, have).value)
      decreases |want| - i, searching
    {
      if want[i] in present {
        i := i + 1;
      } else if !resolves(want[i]) {
        searching := false;
      } else {
        if succeeds {
          now := have + [want[i]];
        }
        return;
      }
    }
    if |have| <= 1 {
      return;
    }
    var extra := FindSurplus(leader, want, have);
    if extra == "" {
      return;
    }
    if succeeds {
      now := Without(have, extra);
    }
  }

  method FindSurplus(leader: Node, want: seq<Node>, have: seq<Node>) returns (extra: Node)
    requires leader != "" && "" !in have && Distinct(have)
    ensures Surplus(leader, want, have) == if extra == "" then None else Some(extra)
  {
    extra := "";
    for i := 0 to |have|
      invariant extra == "" || (extra == leader && leader !in want && leader in have[..i])
      invariant Surplus(leader, want, have) ==
        var rest := Surplus(leader, want, have[i..]);
        if extra != "" && rest.None? then Some(leader) else rest
    {
      assert have[i..][0] == have[i] && have[i..][1..] == have[i + 1..];
      assert have[i] in have;
      if have[i] in want {
        continue;
      }
      if have[i] == leader && extra == "" {
        extra := leader;
        continue;
      }
      if have[i] != leader {
        extra := have[i];
        return;
      }
    }
  }

  ghost predicate Config(have: seq<Node>) { have != [] && Distinct(have) }

  // A round changes the set of servers by at most one, drops nobody who is wanted, and never
  // empties the group.
  lemma OneServerAtATime(leader: Node, want: seq<Node>, have: seq<Node>, resolves: Node -> bool, succeeds: bool)
    requires Config(have)
    ensures var now := Carry(have, Attempt(leader, want, have, resolves), succeeds);
      && Config(now) && (!succeeds ==> now == have)
      && |SetOf(now) - SetOf(have)| + |SetOf(have) - SetOf(now)| <= 1
      && (forall x :: x in have && x in want ==> x in now)
  {
    var c := Attempt(leader, want, have, resolves);
    var now := Carry(have, c, succeeds);
    if now != have && c.Add? {
      assert SetOf(now) - SetOf(have) == {c.id} && SetOf(have) - SetOf(now) == {};
    } else if now != have {
      RemoveOne(have, c.id);
    } else {
      assert SetOf(now) - SetOf(have) == {};
    }
  }

  lemma RemoveOne(have: seq<Node>, id: Node)
    requires Distinct(have) && id in have
    ensures var now := Without(have, id);
      && Distinct(now) && |now| == |have| - 1 && SetOf(have) - SetOf(now) == {id} && SetOf(now) - SetOf(have) == {}
      && forall x :: x in now <==> x in have && x != id
  {
    hide Without;
    WithoutMembers(have, id);
    var p :| 0 <= p < |have| && have[p] == id;
    WithoutAt(have, p);
  }

  // Configurations that differ by one server cannot both have a quorum of their own: any
  // majority of the one meets any majority of the other.
  lemma QuorumsMeet(a: set<Node>, b: set<Node>, q: set<Node>, r: set<Node>)
    requires |a - b| + |b - a| <= 1
    requires q <= a && 2 * |q| > |a| && r <= b && 2 * |r| > |b|
    ensures q * r != {}
  {
    var u := a + b;
    assert u == a + (b - a) && u == b + (a - b);
    assert |u| == |a| + |b - a| == |b| + |a - b|;
    SubsetSize(q + r, u);
    assert |q + r| + |q * r| == |q| + |r|;
  }

  lemma {:induction false} SubsetSize(x: set<Node>, y: set<Node>)
    requires x <= y
    ensures |x| <= |y|
    decreases |x|
  {
    if x != {} {
      var e :| e in x;
      SubsetSize(x - {e}, y - {e});
    }
  }

  // With resolvable addresses nothing is removed before every wanted member is in.
  lemma AddsFirst(leader: Node, want: seq<Node>, have: seq<Node>, resolves: Node -> bool)
    requires forall x :: x in want ==> resolves(x)
    ensures Attempt(leader, want, have, resolves).Remove? ==> forall x :: x in want ==> x in have
  {
  }

  // What a round attempts: an addition of the first missing member exactly if its address
  // resolves; else, in a group of more than one, a removal exactly if somebody is surplus;
  // nothing for a shard without wanted members.
  lemma AttemptExactly(leader: Node, want: seq<Node>, have: seq<Node>, resolves: Node -> bool)
    ensures var c := Attempt(leader, want, have, resolves);
      var missing := FirstMissing(want, have);
      && (want == [] ==> c == Nothing)
      && (forall id :: c == Add(id) <==> missing == Some(id) && resolves(id))
      && (c.Remove? <==> want != [] && !c.Add? && |have| > 1 && exists x :: x in have && x !in want)
      && (c.Remove? ==> c.id in have && c.id !in want)
  {
  }

  // That hypothesis is needed, and exactly for the first missing member: when its address
  // does not resolve, a group with a surplus server loses one although a wanted member is
  // still missing.
  lemma RemovesWhileMissing(leader: Node, want: seq<Node>, have: seq<Node>, resolves: Node -> bool)
    requires Config(have) && FirstMissing(want, have).Some?
    ensures Attempt(leader, want, have, resolves).Remove? <==>
      !resolves(FirstMissing(want, have).value) && |have| > 1 && exists x :: x in have && x !in want
  {
  }

  // The configuration after a run of rounds, each under some leader.
  ghost function Rounds(leaders: seq<Node>, want: seq<Node>, have: seq<Node>, resolves: Node -> bool): seq<Node>
    decreases |leaders|
  {
    if leaders == [] then have
    else Rounds(leaders[1..], want, Carry(have, Attempt(leaders[0], want, have, resolves), true), resolves)
  }

  ghost function ToAdd(want: seq<Node>, have: seq<Node>): nat { |SetOf(want) - SetOf(have)| }
  ghost function ToRemove(want: seq<Node>, have: seq<Node>): nat { |SetOf(have) - SetOf(want)| }

  // A successful round that is not finished adds a missing member, or, when none is missing,
  // removes a surplus one.
  lemma Progress(leader: Node, want: seq<Node>, have: seq<Node>, resolves: Node -> bool)
    requires Config(have) && want != [] && (forall x :: x in want ==> resolves(x)) && SetOf(have) != SetOf(want)
    ensures var now := Carry(have, Attempt(leader, want, have, resolves), true);
      && Config(now)
      && (if ToAdd(want, have) > 0 then
            ToAdd(want, now) == ToAdd(want, have) - 1 && ToRemove(want, now) == ToRemove(want, have)
          else ToAdd(want, now) == 0 && ToRemove(want, now) == ToRemove(want, have) - 1)
  {
    var w, h := SetOf(want), SetOf(have);
    OneServerAtATime(leader, want, have, resolves, true);
    var c := Attempt(leader, want, have, resolves);
    var now := Carry(have, c, true);
    var missing := FirstMissing(want, have);
    if missing.Some? {
      assert c == Add(missing.value);
      assert missing.value in w - h;
      assert w - SetOf(now) == (w - h) - {missing.value};
      assert SetOf(now) - w == h - w;
    } else {
      assert w <= h && w - h == {};
      SurplusExists(want, have);
      assert c.Remove?;
      RemoveOne(have, c.id);
      assert w - SetOf(now) == {};
      assert SetOf(now) - w == (h - w) - {c.id};
    }
  }

  lemma SurplusExists(want: seq<Node>, have: seq<Node>)
    requires want != [] && Distinct(have) && SetOf(want) <= SetOf(have) && SetOf(want) != SetOf(have)
    ensures |have| > 1 && exists x :: x in have && x !in want
  {
    var x :| x in SetOf(have) && x !in SetOf(want);
    assert want[0] in SetOf(want);
    assert want[0] in have && x in have;
  }

  // With a fixed committed set, resolvable addresses and rounds that succeed, the group is
  // exactly the wanted set after as many rounds as there are members to add and to remove,
  // whoever leads each round, and stays there.
  lemma {:induction false} Converges(leaders: seq<Node>, want: seq<Node>, have: seq<Node>, resolves: Node -> bool)
    requires Config(have) && want != [] && (forall x :: x in want ==> resolves(x))
    requires |leaders| >= ToAdd(want, have) + ToRemove(want, have)
    ensures SetOf(Rounds(leaders, want, have, resolves)) == SetOf(want)
    decreases |leaders|
  {
    NothingLeft(want, have);
    if SetOf(have) == SetOf(want) {
      Stays(leaders, want, have, resolves);
    } else {
      Progress(leaders[0], want, have, resolves);
      Converges(leaders[1..], want, Carry(have, Attempt(leaders[0], want, have, resolves), true), resolves);
    }
  }

  lemma NothingLeft(want: seq<Node>, have: seq<Node>)
    ensures ToAdd(want, have) + ToRemove(want, have) == 0 <==> SetOf(have) == SetOf(want)
  {
    var w, h := SetOf(want), SetOf(have);
    assert w == h <==> w - h == {} && h - w == {};
  }

  lemma {:induction false} Stays(leaders: seq<Node>, want: seq<Node>, have: seq<Node>, resolves: Node -> bool)
    requires SetOf(have) == SetOf(want)
    ensures Rounds(leaders, want, have, resolves) == have
    decreases |leaders|
  {
    if leaders != [] {
      assert forall x :: x in have <==> x in SetOf(have);
      assert forall x :: x in want <==> x in SetOf(want);
      assert Attempt(leaders[0], want, have, resolves) == Nothing;
      Stays(leaders[1..], want, have, resolves);
    }
  }
}
