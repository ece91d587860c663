// Placement by consistent hashing: internal/cluster/hashring.go, and the reconciliation of
// the ring with the live member set in internal/cluster/proxy.go.

module Lists {
  // Keep the elements that satisfy f, in order.
  function Filter<T>(s: seq<T>, f: T -> bool): (r: seq<T>) {
    if s == [] then []
    else if f(s[|s| - 1]) then Filter(s[..|s| - 1], f) + [s[|s| - 1]]
    else Filter(s[..|s| - 1], f)
  }

  lemma {:induction false} FilterConcat<T>(a: seq<T>, b: seq<T>, f: T -> bool)
    ensures Filter(a + b, f) == Filter(a, f) + Filter(b, f)
  {
    if b == [] {
      assert a + b == a;
    } else {
      FilterConcat(a, b[..|b| - 1], f);
      assert (a + b)[..|a + b| - 1] == a + b[..|b| - 1];
    }
  }

  lemma {:induction false} FilterMembers<T>(s: seq<T>, f: T -> bool)
    ensures forall x :: x in Filter(s, f) <==> x in s && f(x)
  {
    if s != [] {
      FilterMembers(s[..|s| - 1], f);
      assert s == s[..|s| - 1] + [s[|s| - 1]];
    }
  }

  lemma {:induction false} FilterSwap<T>(s: seq<T>, f: T -> bool, g: T -> bool)
    ensures Filter(Filter(s, f), g) == Filter(Filter(s, g), f)
  {
    if s != [] {
      var front, last := s[..|s| - 1], s[|s| - 1];
      FilterSwap(front, f, g);
      FilterConcat(Filter(front, f), [last], g);
      FilterConcat(Filter(front, g), [last], f);
      FilterOne(last, f);
      FilterOne(last, g);
    }
  }

  lemma FilterOne<T>(x: T, f: T -> bool)
    ensures Filter([x], f) == if f(x) then [x] else []
  {
    assert [x][..0] == [];
  }

  lemma {:induction false} FilterAll<T>(s: seq<T>, f: T -> bool)
    requires forall x :: x in s ==> f(x)
    ensures Filter(s, f) == s
  {
    if s != [] { FilterAll(s[..|s| - 1], f); }
  }

  lemma {:induction false} FilterNone<T>(s: seq<T>, f: T -> bool)
    requires forall x :: x in s ==> !f(x)
    ensures Filter(s, f) == []
  {
    if s != [] { FilterNone(s[..|s| - 1], f); }
  }

  predicate Distinct<T(==)>(s: seq<T>) {
    forall i, j :: 0 <= i < j < |s| ==> s[i] != s[j]
  }

  // The first occurrence of each element.
  function Firsts<T(==, !new)>(s: seq<T>): (r: seq<T>)
    ensures Distinct(r)
    ensures forall x :: x in r <==> x in s
  {
    if s == [] then []
    else
      var front, last := Firsts(s[..|s| - 1]), s[|s| - 1];
      assert s == s[..|s| - 1] + [last];
      if last in front then front else front + [last]
  }

  lemma {:induction false} FirstsPrefix<T(!new)>(s: seq<T>, n: nat)
    requires n <= |s|
    ensures Firsts(s[..n]) <= Firsts(s)
  {
    if n == |s| {
      assert s[..n] == s;
    } else {
      FirstsPrefix(s[..|s| - 1], n);
      assert s[..|s| - 1][..n] == s[..n];
    }
  }

  // They come in the order in which they first occur.
  lemma {:induction false} FirstsOrder<T(!new)>(s: seq<T>, i: nat, j: nat)
    requires i < j < |Firsts(s)|
    ensures exists x :: 0 <= x < |s| && s[x] == Firsts(s)[i] && Firsts(s)[j] !in s[..x + 1]
  {
    var front, last := s[..|s| - 1], s[|s| - 1];
    var f := Firsts(front);
    if j < |f| {
      FirstsOrder(front, i, j);
      var x :| 0 <= x < |front| && front[x] == f[i] && f[j] !in front[..x + 1];
      assert s[x] == f[i] && s[..x + 1] == front[..x + 1];
    } else {
      assert f[i] in front;
      var x :| 0 <= x < |front| && front[x] == f[i];
      assert forall y :: y in s[..x + 1] ==> y in front;
      assert s[x] == f[i] && last !in s[..x + 1];
    }
  }

  function Without<T(==)>(s: seq<T>, x: T): seq<T> {
    if s == [] then []
    else if s[|s| - 1] == x then Without(s[..|s| - 1], x)
    else Without(s[..|s| - 1], x) + [s[|s| - 1]]
  }

  lemma {:induction false} WithoutConcat<T>(a: seq<T>, b: seq<T>, x: T)
    ensures Without(a + b, x) == Without(a, x) + Without(b, x)
  {
    if b == [] {
      assert a + b == a;
    } else {
      WithoutConcat(a, b[..|b| - 1], x);
      assert (a + b)[..|a + b| - 1] == a + b[..|b| - 1];
    }
  }

  lemma {:induction false} WithoutAbsent<T>(s: seq<T>, x: T)
    requires x !in s
    ensures Without(s, x) == s
  {
    if s != [] { WithoutAbsent(s[..|s| - 1], x); }
  }

  lemma {:induction false} WithoutMembers<T>(s: seq<T>, x: T)
    ensures forall y :: y in Without(s, x) <==> y in s && y != x
  {
    if s != [] {
      WithoutMembers(s[..|s| - 1], x);
      assert s == s[..|s| - 1] + [s[|s| - 1]];
    }
  }

  // Dropping one element everywhere drops it from the list of first occurrences.
  lemma {:induction false} FirstsWithout<T(!new)>(s: seq<T>, x: T)
    ensures Firsts(Without(s, x)) == Without(Firsts(s), x)
  {
    if s != [] {
      var front, last := s[..|s| - 1], s[|s| - 1];
      FirstsWithout(front, x);
      WithoutMembers(front, x);
      var f := Without(front, x);
      if last != x {
        assert (f + [last])[..|f|] == f;
      }
      if last !in Firsts(front) {
        assert (Firsts(front) + [last])[..|Firsts(front)|] == Firsts(front);
      }
    }
  }

  function SetOf<T(==)>(s: seq<T>): set<T> { set x | x in s }

  lemma {:induction false} DistinctSize<T>(s: seq<T>)
    requires Distinct(s)
    ensures |SetOf(s)| == |s|
  {
    if s != [] {
      var front, last := s[..|s| - 1], s[|s| - 1];
      DistinctSize(front);
      assert s == front + [last];
      assert SetOf(s) == SetOf(front) + {last};
      assert last !in SetOf(front);
    }
  }

  lemma NotEarlier<T>(s: seq<T>, j: nat, n: nat)
    requires j < |s| && n <= |s| && s[j] !in s[..n]
    ensures n <= j
  {
    assert forall k :: 0 <= k < n ==> s[k] == s[..n][k];
  }

  function Take<T>(s: seq<T>, n: nat): seq<T> { if n <= |s| then s[..n] else s }

  lemma WithoutAt<T>(l: seq<T>, p: nat)
    requires Distinct(l) && p < |l|
    ensures Without(l, l[p]) == l[..p] + l[p + 1..]
  {
    hide Without, Distinct;
    var a, x, b := OnceOnly(l, p);
    WithoutMiddle(a, x, b);
  }

  lemma OnceOnly<T>(l: seq<T>, p: nat) returns (a: seq<T>, x: T, b: seq<T>)
    requires Distinct(l) && p < |l|
    ensures a == l[..p] && x == l[p] && b == l[p + 1..] && l == a + [x] + b
    ensures x !in a && x !in b
  {
    a, x, b := l[..p], l[p], l[p + 1..];
  }

  lemma WithoutMiddle<T>(a: seq<T>, x: T, b: seq<T>)
    requires x !in a && x !in b
    ensures Without(a + [x] + b, x) == a + b
  {
    WithoutConcat(a + [x], b, x);
    WithoutConcat(a, [x], x);
    assert Without([x], x) == [] by { assert [x][..0] == []; }
    hide Without;
    WithoutAbsent(a, x);
    WithoutAbsent(b, x);
  }

  // Taking x out of a list of distinct elements takes only x out of the first n.
  lemma OnlyOneLeaves<T>(l: seq<T>, x: T, n: nat, y: T)
    requires Distinct(l) && y in Take(l, n) && y != x
    ensures y in Take(Without(l, x), n)
  {
    hide Without;
    if x !in l {
      WithoutAbsent(l, x);
    } else {
      var p :| 0 <= p < |l| && l[p] == x;
      WithoutAt(l, p);
      var w := l[..p] + l[p + 1..];
      var i :| 0 <= i < |Take(l, n)| && Take(l, n)[i] == y;
      assert Take(w, n)[if i < p then i else i - 1] == y;
    }
  }

  // Putting x in pushes out at most the last of the first n.
  lemma OnlyLastPushedOut<T>(l: seq<T>, x: T, n: nat, y: T)
    requires Distinct(l) && n > 0 && y in Take(Without(l, x), n - 1)
    ensures y in Take(l, n)
  {
    hide Without;
    if x !in l {
      WithoutAbsent(l, x);
      var i :| 0 <= i < |Take(l, n - 1)| && Take(l, n - 1)[i] == y;
      assert Take(l, n)[i] == y;
    } else {
      var p :| 0 <= p < |l| && l[p] == x;
      WithoutAt(l, p);
      PushedByOne(l, p, n, y);
    }
  }

  lemma PushedByOne<T>(l: seq<T>, p: nat, n: nat, y: T)
    requires p < |l| && n > 0 && y in Take(l[..p] + l[p + 1..], n - 1)
    ensures y in Take(l, n)
  {
    var w := l[..p] + l[p + 1..];
    var i :| 0 <= i < |Take(w, n - 1)| && Take(w, n - 1)[i] == y;
    var j := if i < p then i else i + 1;
    assert w[i] == l[j];
    assert j < |Take(l, n)| && Take(l, n)[j] == y;
  }
}

module HashRings {
  import opened Lists

  type Node = string

  // The virtual nodes: of(n, i) is the hash of node n's i-th point, i < vnodes.
  datatype Hashing = Hashing(vnodes: nat, of: (Node, nat) -> nat)

  ghost predicate NoCollisions(hs: Hashing, ns: set<Node>) {
    hs.vnodes > 0 &&
    forall a, b, i, j {:trigger hs.of(a, i), hs.of(b, j)} ::
      a in ns && b in ns && 0 <= i < hs.vnodes && 0 <= j < hs.vnodes && hs.of(a, i) == hs.of(b, j) ==> a == b && i == j
  }

  ghost predicate Rising(s: seq<nat>) {
    forall i, j :: 0 <= i < j < |s| ==> s[i] < s[j]
  }

  ghost predicate PointOf(hs: Hashing, n: Node, x: nat) {
    exists i :: 0 <= i < hs.vnodes && hs.of(n, i) == x
  }

  // The sorted points of exactly the nodes ns, and who owns each.
  ghost predicate RingFor(hs: Hashing, ns: set<Node>, ring: seq<nat>, owner: map<nat, Node>) {
    && Rising(ring)
    && (forall x :: x in ring <==> x in owner)
    && (forall x :: x in owner ==> owner[x] in ns && PointOf(hs, owner[x], x))
    && (forall n, i {:trigger hs.of(n, i)} :: n in ns && 0 <= i < hs.vnodes ==>
          hs.of(n, i) in owner && owner[hs.of(n, i)] == n)
  }

  lemma RisingFront(a: seq<nat>, front: seq<nat>, last: nat)
    requires Rising(a) && a == front + [last]
    ensures Rising(front)
    ensures forall x :: x in front <==> x in a && x != last
    ensures forall x :: x in front ==> x < last
  {
    assert forall i :: 0 <= i < |front| ==> front[i] == a[i];
    forall x | x in front ensures x in a && x < last {
      var i :| 0 <= i < |front| && front[i] == x;
      assert a[i] == x && a[|front|] == last;
    }
  }

  lemma HasMember(s: seq<nat>)
    requires s != []
    ensures exists x :: x in s
  {
    assert s[0] in s;
  }

  lemma {:induction false} RisingUnique(a: seq<nat>, b: seq<nat>)
    requires Rising(a) && Rising(b) && forall x :: x in a <==> x in b
    ensures a == b
    decreases |a|
  {
    if a == [] || b == [] {
      if a != [] { HasMember(a); assert false; }
      if b != [] { HasMember(b); assert false; }
    } else {
      assert a[|a| - 1] in b;
      assert b[|b| - 1] in a;
      var x := a[|a| - 1];
      assert x == b[|b| - 1];
      var fa, fb := a[..|a| - 1], b[..|b| - 1];
      RisingFront(a, fa, x);
      RisingFront(b, fb, x);
      RisingUnique(fa, fb);
    }
  }

  // Placement depends on the member set alone, not on how it came about: the ring and the
  // owner map of a node set are unique.
  lemma SameMembersSameRing(hs: Hashing, ns: set<Node>, r1: seq<nat>, o1: map<nat, Node>, r2: seq<nat>,
                            o2: map<nat, Node>)
    requires RingFor(hs, ns, r1, o1) && RingFor(hs, ns, r2, o2)
    ensures r1 == r2 && o1 == o2
  {
    forall x | x in o1 ensures x in o2 && o2[x] == o1[x] {
      var i :| 0 <= i < hs.vnodes && hs.of(o1[x], i) == x;
    }
    forall x | x in o2 ensures x in o1 {
      var i :| 0 <= i < hs.vnodes && hs.of(o2[x], i) == x;
    }
    RisingUnique(r1, r2);
  }

  // --- the walk around the ring ---

  function GE(h: nat): nat -> bool { x => x >= h }
  function LT(h: nat): nat -> bool { x => x < h }

  // Clockwise from h: the points at or after it, then the rest.
  function Clock(ring: seq<nat>, h: nat): seq<nat> {
    Filter(ring, GE(h)) + Filter(ring, LT(h))
  }

  function Owners(owner: map<nat, Node>, s: seq<nat>): (r: seq<Node>)
    ensures |r| == |s|
  {
    seq(|s|, i requires 0 <= i < |s| => if s[i] in owner then owner[s[i]] else "")
  }

  // The full preference list of a key that hashes to h.
  function Preference(ring: seq<nat>, owner: map<nat, Node>, h: nat): seq<Node> {
    Firsts(Owners(owner, Clock(ring, h)))
  }

  function OwnedByOther(owner: map<nat, Node>, x: Node): nat -> bool { p => p in owner && owner[p] != x }

  lemma {:induction false} OwnersWithout(owner: map<nat, Node>, s: seq<nat>, x: Node)
    requires forall p :: p in s ==> p in owner
    ensures Owners(owner, Filter(s, OwnedByOther(owner, x))) == Without(Owners(owner, s), x)
  {
    if s != [] {
      var front, last := s[..|s| - 1], s[|s| - 1];
      OwnersWithout(owner, front, x);
      assert Owners(owner, s)[..|s| - 1] == Owners(owner, front);
      if owner[last] != x {
        var f := Filter(front, OwnedByOther(owner, x));
        assert Owners(owner, f + [last]) == Owners(owner, f) + [owner[last]];
      }
    }
  }

  // --- what removing a node does to a ring ---

  lemma {:induction false} FilterRising(s: seq<nat>, f: nat -> bool)
    requires Rising(s)
    ensures Rising(Filter(s, f))
  {
    if s != [] {
      FilterRising(s[..|s| - 1], f);
      FilterMembers(s[..|s| - 1], f);
      RisingFront(s, s[..|s| - 1], s[|s| - 1]);
      var kept := Filter(s[..|s| - 1], f);
      assert forall i :: 0 <= i < |kept| ==> kept[i] in kept;
    }
  }

  lemma RemovedRing(hs: Hashing, ns: set<Node>, ring: seq<nat>, owner: map<nat, Node>, x: Node, owner': map<nat, Node>)
    requires RingFor(hs, ns, ring, owner) && x in ns
    requires forall p :: p in owner' <==> p in owner && owner[p] != x
    requires forall p :: p in owner' ==> owner'[p] == owner[p]
    ensures RingFor(hs, ns - {x}, Filter(ring, OwnedByOther(owner, x)), owner')
  {
    FilterRising(ring, OwnedByOther(owner, x));
    FilterMembers(ring, OwnedByOther(owner, x));
  }

  // Removing a node removes just that node from every preference list. Read from right to
  // left: adding one just inserts it.
  lemma RemovalIsStable(hs: Hashing, ns: set<Node>, r1: seq<nat>, o1: map<nat, Node>, r2: seq<nat>,
                        o2: map<nat, Node>, x: Node, h: nat)
    requires RingFor(hs, ns, r1, o1) && x in ns && RingFor(hs, ns - {x}, r2, o2)
    ensures Preference(r2, o2, h) == Without(Preference(r1, o1, h), x)
  {
    hide Filter, Firsts, Without;
    var other := OwnedByOther(o1, x);
    var o := map p | p in o1 && o1[p] != x :: o1[p];
    RemovedRing(hs, ns, r1, o1, x, o);
    SameMembersSameRing(hs, ns - {x}, r2, o2, Filter(r1, other), o);
    FilterSwap(r1, other, GE(h));
    FilterSwap(r1, other, LT(h));
    FilterConcat(Filter(r1, GE(h)), Filter(r1, LT(h)), other);
    assert Clock(r2, h) == Filter(Clock(r1, h), other);
    ClockMembers(r1, h);
    FilterMembers(Clock(r1, h), other);
    assert Owners(o2, Clock(r2, h)) == Owners(o1, Clock(r2, h));
    OwnersWithout(o1, Clock(r1, h), x);
    FirstsWithout(Owners(o1, Clock(r1, h)), x);
  }

  lemma ClockMembers(ring: seq<nat>, h: nat)
    ensures forall p :: p in Clock(ring, h) <==> p in ring
  {
    FilterMembers(ring, GE(h));
    FilterMembers(ring, LT(h));
  }

  // A preference list names every node exactly once.
  lemma PreferenceIsComplete(hs: Hashing, ns: set<Node>, ring: seq<nat>, owner: map<nat, Node>, h: nat)
    requires RingFor(hs, ns, ring, owner) && hs.vnodes > 0
    ensures Distinct(Preference(ring, owner, h)) && SetOf(Preference(ring, owner, h)) == ns
    ensures |Preference(ring, owner, h)| == |ns|
  {
    hide Filter, Firsts;
    ClockMembers(ring, h);
    var walk := Owners(owner, Clock(ring, h));
    forall n | n in ns ensures n in walk {
      var p := hs.of(n, 0);
      assert p in Clock(ring, h);
      var i :| 0 <= i < |Clock(ring, h)| && Clock(ring, h)[i] == p;
      assert walk[i] == n;
    }
    forall n | n in walk ensures n in ns {
      var i :| 0 <= i < |walk| && walk[i] == n;
      assert Clock(ring, h)[i] in ring;
    }
    DistinctSize(Preference(ring, owner, h));
  }

  // Going clockwise from h, point p comes no later than q: the points from h upwards come
  // first, then from zero those below h.
  ghost predicate Nearer(h: nat, p: nat, q: nat) {
    if p >= h then q < h || p <= q else p <= q < h
  }

  // A point of a comes before every point of b.
  ghost predicate Precedes(owner: map<nat, Node>, h: nat, a: Node, b: Node) {
    exists p :: p in owner && owner[p] == a && forall q :: q in owner && owner[q] == b ==> Nearer(h, p, q)
  }

  // Each node of the list is the next one met, clockwise from h, of those not yet in it.
  ghost predicate NearestFirst(owner: map<nat, Node>, h: nat, ns: set<Node>, l: seq<Node>) {
    forall i, b :: 0 <= i < |l| && b in ns && b !in l[..i + 1] ==> Precedes(owner, h, l[i], b)
  }

  lemma ClockOrder(ring: seq<nat>, h: nat, x: nat, y: nat)
    requires Rising(ring) && x <= y < |Clock(ring, h)|
    ensures Nearer(h, Clock(ring, h)[x], Clock(ring, h)[y])
  {
    hide Filter;
    var a, b := Filter(ring, GE(h)), Filter(ring, LT(h));
    FilterRising(ring, GE(h));
    FilterRising(ring, LT(h));
    FilterMembers(ring, GE(h));
    FilterMembers(ring, LT(h));
    assert forall i :: 0 <= i < |a| ==> a[i] in a;
    assert forall i :: 0 <= i < |b| ==> b[i] in b;
  }

  // The order of a preference list.
  lemma PrefersNearest(hs: Hashing, ns: set<Node>, ring: seq<nat>, owner: map<nat, Node>, h: nat)
    requires RingFor(hs, ns, ring, owner) && hs.vnodes > 0
    ensures NearestFirst(owner, h, ns, Preference(ring, owner, h))
  {
    hide Clock, Firsts;
    var l := Preference(ring, owner, h);
    PreferenceIsComplete(hs, ns, ring, owner, h);
    forall i, b | 0 <= i < |l| && b in ns && b !in l[..i + 1] ensures Precedes(owner, h, l[i], b) {
      assert b in SetOf(l);
      var j :| 0 <= j < |l| && l[j] == b;
      NotEarlier(l, j, i + 1);
      InOrder(ring, owner, h, i, j);
    }
  }

  lemma InOrder(ring: seq<nat>, owner: map<nat, Node>, h: nat, i: nat, j: nat)
    requires Rising(ring) && (forall x :: x in ring <==> x in owner) && i < j < |Preference(ring, owner, h)|
    ensures var l := Preference(ring, owner, h); Precedes(owner, h, l[i], l[j])
  {
    hide Clock, Firsts;
    var l, walk := Preference(ring, owner, h), Clock(ring, h);
    var owners := Owners(owner, walk);
    FirstsOrder(owners, i, j);
    var x :| 0 <= x < |owners| && owners[x] == l[i] && l[j] !in owners[..x + 1];
    ClockMembers(ring, h);
    var p := walk[x];
    assert p in walk;
    forall q | q in owner && owner[q] == l[j] ensures Nearer(h, p, q) {
      assert q in walk;
      var y :| 0 <= y < |walk| && walk[y] == q;
      NotEarlier(owners, y, x + 1);
      ClockOrder(ring, h, x, y);
    }
  }

  // The holders of a key are the first n of its preference list. When a node leaves, no
  // other holder stops being one; when one joins, at most the last holder does.
  lemma HoldersAreStable(hs: Hashing, ns: set<Node>, r1: seq<nat>, o1: map<nat, Node>, r2: seq<nat>,
                         o2: map<nat, Node>, x: Node, h: nat, n: nat)
    requires RingFor(hs, ns, r1, o1) && x in ns && RingFor(hs, ns - {x}, r2, o2)
    ensures forall y :: y in Take(Preference(r1, o1, h), n) && y != x ==> y in Take(Preference(r2, o2, h), n)
    ensures forall y :: n > 0 && y in Take(Preference(r2, o2, h), n - 1) ==> y in Take(Preference(r1, o1, h), n)
  {
    RemovalIsStable(hs, ns, r1, o1, r2, o2, x, h);
    var l := Preference(r1, o1, h);
    forall y | y in Take(l, n) && y != x ensures y in Take(Preference(r2, o2, h), n) { OnlyOneLeaves(l, x, n, y); }
    forall y | n > 0 && y in Take(Preference(r2, o2, h), n - 1) ensures y in Take(l, n) {
      OnlyLastPushedOut(l, x, n, y);
    }
  }

  // --- the ring as an object ---

  // sort.Slice
  function Insert(s: seq<nat>, x: nat): (r: seq<nat>)
    ensures |r| == |s| + 1
  {
    if s == [] || s[|s| - 1] <= x then s + [x] else Insert(s[..|s| - 1], x) + [s[|s| - 1]]
  }

  function Sort(s: seq<nat>): (r: seq<nat>)
    ensures |r| == |s|
  {
    if s == [] then [] else Insert(Sort(s[..|s| - 1]), s[|s| - 1])
  }

  lemma {:induction false} InsertRises(s: seq<nat>, x: nat)
    requires Rising(s) && x !in s
    ensures Rising(Insert(s, x)) && forall y :: y in Insert(s, x) <==> y in s || y == x
  {
    if s != [] && s[|s| - 1] > x {
      var front, last := s[..|s| - 1], s[|s| - 1];
      RisingFront(s, front, last);
      InsertRises(front, x);
      var t := Insert(front, x);
      assert forall i :: 0 <= i < |t| ==> t[i] in t;
    } else if s != [] {
      RisingFront(s, s[..|s| - 1], s[|s| - 1]);
      assert s[|s| - 1] in s;
    }
  }

  lemma {:induction false} SortRises(s: seq<nat>)
    requires Distinct(s)
    ensures Rising(Sort(s)) && forall y :: y in Sort(s) <==> y in s
  {
    if s != [] {
      var front, last := s[..|s| - 1], s[|s| - 1];
      SortRises(front);
      assert s == front + [last];
      InsertRises(Sort(front), last);
    }
  }

  class HashRing {
    const hs: Hashing
    var ring: seq<nat>
    var nodeMap: map<nat, Node>
    var nodes: set<Node>
    // The nodes this ring may ever hold.
    ghost const universe: set<Node>

    ghost predicate Valid()
      reads this
    {
      NoCollisions(hs, universe) && nodes <= universe && RingFor(hs, nodes, ring, nodeMap)
    }

    constructor (hs: Hashing, ghost universe: set<Node>)
      requires NoCollisions(hs, universe)
      ensures Valid() && nodes == {} && this.hs == hs && this.universe == universe
    {
      this.hs, this.universe := hs, universe;
      ring, nodeMap, nodes := [], map[], {};
    }

    // The points of the nodes so far and the first i of node n, in any order.
    ghost predicate Adding(s: seq<nat>, owner: map<nat, Node>, ns: set<Node>, n: Node, i: nat) {
      && Distinct(s) && (forall x :: x in s <==> x in owner)
      && (forall x :: x in owner ==> owner[x] in ns && PointOf(hs, owner[x], x))
      && (forall a, j {:trigger hs.of(a, j)} :: a in ns && 0 <= j < (if a == n then i else hs.vnodes) ==>
            hs.of(a, j) in owner && owner[hs.of(a, j)] == a)
      && (forall x :: x in owner && owner[x] == n ==> exists j :: 0 <= j < i && hs.of(n, j) == x)
    }

    lemma NewPoint(s: seq<nat>, owner: map<nat, Node>, ns: set<Node>, n: Node, i: nat)
      requires NoCollisions(hs, universe) && ns <= universe && n in ns && i < hs.vnodes && Adding(s, owner, ns, n, i)
      ensures hs.of(n, i) !in s && PointOf(hs, n, hs.of(n, i))
    {
    }

    method AddNode(n: Node)
      requires Valid() && n in universe
      modifies this
      ensures Valid() && nodes == old(nodes) + {n}
    {
      if n in nodes {
        return;
      }
      nodes := nodes + {n};
      for i := 0 to hs.vnodes
        invariant nodes == old(nodes) + {n} && Adding(ring, nodeMap, nodes, n, i)
      {
        var hash := hs.of(n, i);
        NewPoint(ring, nodeMap, nodes, n, i);
        ring := ring + [hash];
        nodeMap := nodeMap[hash := n];
      }
      SortRises(ring);
      ring := Sort(ring);
    }

    method RemoveNode(n: Node)
      requires Valid()
      modifies this
      ensures Valid() && nodes == old(nodes) - {n}
    {
      if n !in nodes {
        return;
      }
      ghost var owner, points := nodeMap, ring;
      nodes := nodes - {n};
      ring, nodeMap := DropPoints(ring, nodeMap, n);
      RemovedRing(hs, old(nodes), points, owner, n, nodeMap);
    }

    // The rebuild loop: keep the points of other nodes, forget those of n.
    static method DropPoints(points: seq<nat>, owner: map<nat, Node>, n: Node)
      returns (newRing: seq<nat>, nodeMap: map<nat, Node>)
      requires Rising(points) && forall p :: p in points <==> p in owner
      ensures newRing == Filter(points, OwnedByOther(owner, n))
      ensures forall p :: p in nodeMap <==> p in owner && owner[p] != n
      ensures forall p :: p in nodeMap ==> nodeMap[p] == owner[p]
    {
      newRing, nodeMap := [], owner;
      for i := 0 to |points|
        invariant newRing == Filter(points[..i], OwnedByOther(owner, n))
        invariant forall p :: p in nodeMap <==> p in owner && (owner[p] != n || p !in points[..i])
        invariant forall p :: p in nodeMap ==> nodeMap[p] == owner[p]
      {
        Visited(points, i);
        if nodeMap[points[i]] != n {
          newRing := newRing + [points[i]];
        } else {
          nodeMap := nodeMap - {points[i]};
        }
      }
      assert points[..|points|] == points;
    }

    // sort.Search: the first point at or after h.
    method Search(h: nat) returns (idx: nat)
      requires Rising(ring)
      ensures idx <= |ring| && (forall i :: 0 <= i < idx ==> ring[i] < h)
      ensures forall i :: idx <= i < |ring| ==> ring[i] >= h
    {
      var lo, hi := 0, |ring|;
      while lo < hi
        invariant 0 <= lo <= hi <= |ring|
        invariant forall i :: 0 <= i < lo ==> ring[i] < h
        invariant forall i :: hi <= i < |ring| ==> ring[i] >= h
      {
        var mid := (lo + hi) / 2;
        if ring[mid] >= h { hi := mid; } else { lo := mid + 1; }
      }
      idx := lo;
    }

    // GetNodes for a key that hashes to h: the first n of its preference list.
    method GetNodes(h: nat, n: nat) returns (result: seq<Node>)
      requires Valid()
      ensures result == Take(Preference(ring, nodeMap, h), n)
      ensures |result| == (if n <= |nodes| then n else |nodes|) && Distinct(result)
      ensures forall x :: x in result ==> x in nodes
      ensures NearestFirst(nodeMap, h, nodes, result)
    {
      hide Valid, NearestFirst, Rising, Firsts, Clock, Owners, Distinct;
      Placement(h, n);
      result := [];
      if |ring| == 0 {
        EmptyRing();
      } else {
        var idx := Start(h);
        var count := if n > |nodes| then |nodes| else n;
        result := Collect(idx, count, Clock(ring, h));
      }
    }

    // The first n of a preference list: that many distinct members.
    lemma Placement(h: nat, n: nat)
      requires Valid()
      ensures Rising(ring) && forall p :: p in ring ==> p in nodeMap
      ensures var pref := Preference(ring, nodeMap, h);
        && |pref| == |nodes| && |Take(pref, n)| == (if n <= |nodes| then n else |nodes|)
        && Distinct(Take(pref, n)) && NearestFirst(nodeMap, h, nodes, Take(pref, n))
        && forall x :: x in Take(pref, n) ==> x in nodes
    {
      hide Preference, Precedes;
      PreferenceIsComplete(hs, nodes, ring, nodeMap, h);
      PrefersNearest(hs, nodes, ring, nodeMap, h);
      var pref := Preference(ring, nodeMap, h);
      forall i, b | 0 <= i < |Take(pref, n)| && b in nodes && b !in Take(pref, n)[..i + 1]
        ensures Precedes(nodeMap, h, Take(pref, n)[i], b)
      {
        assert Take(pref, n)[..i + 1] == pref[..i + 1];
      }
      PrefixOfDistinct(Preference(ring, nodeMap, h), n, nodes);
    }

    method Start(h: nat) returns (idx: nat)
      requires Rising(ring) && ring != []
      ensures idx < |ring| && Clock(ring, h) == ring[idx..] + ring[..idx]
    {
      hide Clock;
      idx := Search(h);
      WalkIsClock(ring, idx, h);
      if idx >= |ring| {
        assert ring[|ring|..] + ring[..|ring|] == ring[0..] + ring[..0];
        idx := 0;
      }
    }

    lemma EmptyRing()
      requires Valid() && ring == []
      ensures |nodes| == 0
    {
      if nodes != {} {
        var n :| n in nodes;
        PointExists(n);
        assert false;
      }
    }

    lemma PointExists(n: Node)
      requires Valid() && n in nodes
      ensures exists x :: x in ring
    {
      assert hs.of(n, 0) in ring;
    }

    // The walk: the first count distinct owners from point idx on.
    method Collect(idx: nat, count: nat, ghost walk: seq<nat>) returns (result: seq<Node>)
      requires idx < |ring| && walk == ring[idx..] + ring[..idx] && forall p :: p in ring ==> p in nodeMap
      requires count <= |Firsts(Owners(nodeMap, walk))|
      ensures result == Firsts(Owners(nodeMap, walk))[..count]
    {
      hide Firsts;
      var seen: set<Node> := {};
      result := [];
      var i := 0;
      ghost var owners := Owners(nodeMap, walk);
      FirstsEmpty();
      while i < |ring| && |result| < count
        invariant 0 <= i <= |ring| && |result| <= count && result == Firsts(owners[..i]) && seen == SetOf(result)
      {
        var pos := (idx + i) % |ring|;
        assert ring[pos] == walk[i] by { Wraps(idx, i, |ring|); }
        assert walk[i] in ring;
        var nodeID := nodeMap[ring[pos]];
        FirstsStep(owners, i);
        if nodeID !in seen {
          seen := seen + {nodeID};
          result := result + [nodeID];
        }
        i := i + 1;
      }
      FirstsPrefix(owners, i);
      assert owners[..|ring|] == owners;
    }

    // syncMembership: bring the ring to exactly the live members.
    method SyncMembership(members: set<Node>)
      requires Valid() && members <= universe
      modifies this
      ensures Valid() && nodes == members
    {
      var gone := nodes - members;
      while gone != {}
        invariant Valid() && gone <= nodes && nodes - gone <= members && nodes <= old(nodes)
        invariant old(nodes) * members <= nodes
        decreases gone
      {
        var id :| id in gone;
        RemoveNode(id);
        gone := gone - {id};
      }
      var missing := members - nodes;
      while missing != {}
        invariant Valid() && nodes + missing == members
        decreases missing
      {
        var id :| id in missing;
        AddNode(id);
        missing := missing - {id};
      }
    }
  }

  lemma Wraps(idx: nat, i: nat, n: nat)
    requires idx < n && i < n
    ensures (idx + i) % n == if idx + i < n then idx + i else idx + i - n
  {
  }

  lemma PrefixOfDistinct(s: seq<Node>, n: nat, ns: set<Node>)
    requires Distinct(s) && SetOf(s) == ns && |s| == |ns|
    ensures |Take(s, n)| == (if n <= |ns| then n else |ns|) && Distinct(Take(s, n))
    ensures forall x :: x in Take(s, n) ==> x in ns
  {
    forall x | x in Take(s, n) ensures x in ns { assert x in SetOf(s); }
  }

  lemma FirstsEmpty()
    ensures Firsts<Node>([]) == []
  {
  }

  lemma FirstsStep(s: seq<Node>, i: nat)
    requires i < |s|
    ensures Firsts(s[..i + 1]) == if s[i] in Firsts(s[..i]) then Firsts(s[..i]) else Firsts(s[..i]) + [s[i]]
  {
    assert s[..i + 1][..i] == s[..i];
  }

  // Starting at the first point at or after h and wrapping is going clockwise from h.
  lemma WalkIsClock(ring: seq<nat>, idx: nat, h: nat)
    requires idx <= |ring| && (forall i :: 0 <= i < idx ==> ring[i] < h)
    requires forall i :: idx <= i < |ring| ==> ring[i] >= h
    ensures ring[idx..] + ring[..idx] == Clock(ring, h)
  {
    assert ring == ring[..idx] + ring[idx..];
    FilterConcat(ring[..idx], ring[idx..], GE(h));
    FilterConcat(ring[..idx], ring[idx..], LT(h));
    FilterNone(ring[..idx], GE(h));
    FilterAll(ring[idx..], GE(h));
    FilterAll(ring[..idx], LT(h));
    FilterNone(ring[idx..], LT(h));
  }

  // The i-th point is met for the first time at step i.
  lemma Visited(points: seq<nat>, i: nat)
    requires Rising(points) && i < |points|
    ensures points[i] in points && points[i] !in points[..i] && points[..i + 1] == points[..i] + [points[i]]
    ensures points[..i + 1][..i] == points[..i] && points[..i + 1][i] == points[i]
  {
  }

  datatype Change = Join(n: Node) | Leave(n: Node) | Sync(members: set<Node>)

  ghost function After(ns: set<Node>, changes: seq<Change>): set<Node>
    decreases |changes|
  {
    if changes == [] then ns
    else
      var ns' := match changes[0] case Join(n) => ns + {n} case Leave(n) => ns - {n} case Sync(m) => m;
      After(ns', changes[1..])
  }

  ghost predicate Within(changes: seq<Change>, universe: set<Node>) {
    forall i :: 0 <= i < |changes| ==>
      match changes[i] case Join(n) => n in universe case Leave(_) => true case Sync(m) => m <= universe
  }

  method Apply(r: HashRing, changes: seq<Change>)
    requires r.Valid() && Within(changes, r.universe)
    modifies r
    ensures r.Valid() && r.nodes == After(old(r.nodes), changes)
    decreases |changes|
  {
    if changes == [] {
      return;
    }
    match changes[0] {
      case Join(n) => r.AddNode(n);
      case Leave(n) => r.RemoveNode(n);
      case Sync(m) => r.SyncMembership(m);
    }
    Apply(r, changes[1..]);
  }

  // Two cluster nodes whose rings went through different histories but agree on the members
  // place every key on the same holders.
  method TwoHistories(hs: Hashing, changes1: seq<Change>, changes2: seq<Change>, h: nat, n: nat,
                      ghost universe: set<Node>)
    returns (holders1: seq<Node>, holders2: seq<Node>)
    requires NoCollisions(hs, universe) && Within(changes1, universe) && Within(changes2, universe)
    requires After({}, changes1) == After({}, changes2)
    ensures holders1 == holders2
  {
    var r1 := new HashRing(hs, universe);
    var r2 := new HashRing(hs, universe);
    Apply(r1, changes1);
    Apply(r2, changes2);
    SameMembersSameRing(hs, r1.nodes, r1.ring, r1.nodeMap, r2.ring, r2.nodeMap);
    holders1 := r1.GetNodes(h, n);
    holders2 := r2.GetNodes(h, n);
  }
}
