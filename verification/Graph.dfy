/** The object graph: edges, reachability, the references held by a set of objects, and cycles. */
module Graph {
  import opened Objects

  predicate Edge(bs: Bodies, a: Ref, b: Ref) {
    a in bs && b in Children(bs[a])
  }

  /** No object in `s` has a member outside of `s`. */
  predicate Closed(bs: Bodies, s: set<Ref>)
    requires s <= bs.Keys
  {
    forall o :: o in s ==> forall c :: c in Children(bs[o]) ==> c in s
  }

  // ---------------------------------------------------------------- reachability

  ghost predicate Link(bs: Bodies, p: seq<Ref>, i: int) {
    0 <= i < |p| - 1 ==> Edge(bs, p[i], p[i + 1])
  }

  ghost predicate IsPath(bs: Bodies, p: seq<Ref>) {
    |p| > 0 && forall i {:trigger Link(bs, p, i)} :: Link(bs, p, i)
  }

  lemma PathSlice(bs: Bodies, p: seq<Ref>, i: nat, j: nat)
    requires IsPath(bs, p) && i < j <= |p|
    ensures IsPath(bs, p[i..j])
  {
    var q := p[i..j];
    forall k
      ensures Link(bs, q, k)
    {
      assert Link(bs, p, i + k);
    }
  }

  lemma PathJoin(bs: Bodies, p: seq<Ref>, q: seq<Ref>)
    requires IsPath(bs, p) && IsPath(bs, q) && Edge(bs, p[|p| - 1], q[0])
    ensures IsPath(bs, p + q)
  {
    forall k
      ensures Link(bs, p + q, k)
    {
      assert Link(bs, p, k) && Link(bs, q, k - |p|);
    }
  }

  ghost predicate Reaches(bs: Bodies, a: Ref, b: Ref) {
    exists p :: IsPath(bs, p) && p[0] == a && p[|p| - 1] == b
  }

  ghost function Reachable(bs: Bodies, roots: set<Ref>): set<Ref> {
    set o | o in bs.Keys && exists r :: r in roots && Reaches(bs, r, o)
  }

  function RootSet(roots: seq<Ref>): set<Ref> {
    set r | r in roots
  }

  lemma ReachesSelf(bs: Bodies, a: Ref)
    ensures Reaches(bs, a, a)
  {
    assert IsPath(bs, [a]);
  }

  lemma ReachesEdge(bs: Bodies, a: Ref, b: Ref, c: Ref)
    requires Reaches(bs, a, b) && Edge(bs, b, c)
    ensures Reaches(bs, a, c)
  {
    var p :| IsPath(bs, p) && p[0] == a && p[|p| - 1] == b;
    assert IsPath(bs, [c]);
    PathJoin(bs, p, [c]);
  }

  lemma ReachableRoot(bs: Bodies, roots: set<Ref>, r: Ref)
    requires r in roots && r in bs
    ensures r in Reachable(bs, roots)
  {
    ReachesSelf(bs, r);
  }

  lemma ReachableEdge(bs: Bodies, roots: set<Ref>, a: Ref, b: Ref)
    requires a in Reachable(bs, roots) && Edge(bs, a, b) && b in bs
    ensures b in Reachable(bs, roots)
  {
    var r :| r in roots && Reaches(bs, r, a);
    ReachesEdge(bs, r, a, b);
  }

  /** Reachability is the least set that holds the roots and is closed under edges. */
  lemma ReachableLeast(bs: Bodies, roots: set<Ref>, s: set<Ref>)
    requires roots <= s
    requires forall a, b :: a in s && Edge(bs, a, b) ==> b in s
    ensures Reachable(bs, roots) <= s
  {
    forall o | o in Reachable(bs, roots)
      ensures o in s
    {
      var r :| r in roots && Reaches(bs, r, o);
      ReachesStays(bs, r, o, s);
    }
  }

  lemma ReachesStays(bs: Bodies, a: Ref, b: Ref, s: set<Ref>)
    requires a in s && Reaches(bs, a, b) && forall x, y :: x in s && Edge(bs, x, y) ==> y in s
    ensures b in s
  {
    var p :| IsPath(bs, p) && p[0] == a && p[|p| - 1] == b;
    PathStays(bs, p, s, |p| - 1);
  }

  lemma {:induction false} PathStays(bs: Bodies, p: seq<Ref>, s: set<Ref>, n: nat)
    requires IsPath(bs, p) && p[0] in s && n < |p|
    requires forall a, b :: a in s && Edge(bs, a, b) ==> b in s
    ensures p[n] in s
  {
    if n > 0 {
      PathStays(bs, p, s, n - 1);
      assert Link(bs, p, n - 1);
    }
  }

  lemma ReachableClosed(bs: Bodies, roots: set<Ref>)
    requires Closed(bs, bs.Keys)
    ensures Closed(bs, Reachable(bs, roots))
  {
    forall o, c | o in Reachable(bs, roots) && c in Children(bs[o])
      ensures c in Reachable(bs, roots)
    {
      assert Edge(bs, o, c);
      ReachableEdge(bs, roots, o, c);
    }
  }

  /** Two memories that agree on a set closed in the first reach the same objects from roots inside of it. */
  lemma ReachableFrame(bs: Bodies, bs': Bodies, s: set<Ref>, roots: set<Ref>)
    requires s <= bs.Keys && Closed(bs, s) && roots <= s
    requires forall o :: o in s ==> o in bs' && bs'[o] == bs[o]
    ensures Reachable(bs, roots) == Reachable(bs', roots) <= s
  {
    hide Reachable;
    ReachableLeast(bs, roots, s);
    ReachableLeast(bs', roots, s);
    var r, r' := Reachable(bs, roots), Reachable(bs', roots);
    forall o | o in roots
      ensures o in r && o in r'
    {
      ReachableRoot(bs, roots, o);
      ReachableRoot(bs', roots, o);
    }
    forall a, b | a in r * r' && Edge(bs, a, b)
      ensures b in r * r'
    {
      assert a in s && b in s && Edge(bs', a, b);
      ReachableEdge(bs, roots, a, b);
      ReachableEdge(bs', roots, a, b);
    }
    ReachableLeast(bs, roots, r * r');
    forall a, b | a in r * r' && Edge(bs', a, b)
      ensures b in r * r'
    {
      assert a in s && Edge(bs, a, b);
    }
    ReachableLeast(bs', roots, r * r');
  }

  // ---------------------------------------------------------------- counting references

  /** All references held in members of the objects in `c`, with multiplicity. */
  ghost function InRefs(bs: Bodies, c: set<Ref>): multiset<Ref>
    requires c <= bs.Keys
    decreases |c|
  {
    if c == {} then multiset{}
    else
      var x :| x in c;
      multiset(Children(bs[x])) + InRefs(bs, c - {x})
  }

  lemma {:induction false} InRefsSplit(bs: Bodies, c: set<Ref>, x: Ref)
    requires c <= bs.Keys && x in c
    ensures InRefs(bs, c) == multiset(Children(bs[x])) + InRefs(bs, c - {x})
    decreases |c|
  {
    var y :| y in c && InRefs(bs, c) == multiset(Children(bs[y])) + InRefs(bs, c - {y});
    if y != x {
      InRefsSplit(bs, c - {y}, x);
      InRefsSplit(bs, c - {x}, y);
      assert c - {y} - {x} == c - {x} - {y};
    }
  }

  lemma InRefsNone(bs: Bodies)
    ensures InRefs(bs, {}) == multiset{}
  {
  }

  lemma InRefsAdd(bs: Bodies, c: set<Ref>, x: Ref)
    requires c <= bs.Keys && x in bs && x !in c
    ensures InRefs(bs, c + {x}) == multiset(Children(bs[x])) + InRefs(bs, c)
  {
    InRefsSplit(bs, c + {x}, x);
    assert c + {x} - {x} == c;
  }

  lemma {:induction false} InRefsFrame(bs: Bodies, bs': Bodies, c: set<Ref>)
    requires c <= bs.Keys && c <= bs'.Keys
    requires forall o :: o in c ==> bs[o] == bs'[o]
    ensures InRefs(bs, c) == InRefs(bs', c)
    decreases |c|
  {
    if c != {} {
      var x :| x in c;
      InRefsSplit(bs, c, x);
      InRefsSplit(bs', c, x);
      InRefsFrame(bs, bs', c - {x});
    }
  }

  lemma {:induction false} InRefsMonotone(bs: Bodies, c: set<Ref>, d: set<Ref>)
    requires c <= d <= bs.Keys
    ensures InRefs(bs, c) <= InRefs(bs, d)
    decreases |c|
  {
    if c != {} {
      var x :| x in c;
      InRefsSplit(bs, c, x);
      InRefsSplit(bs, d, x);
      InRefsMonotone(bs, c - {x}, d - {x});
    }
  }

  /** An object has an incoming reference from `c` exactly if some object of `c` has it as a child. */
  lemma {:induction false} InRefsMember(bs: Bodies, c: set<Ref>, o: Ref)
    requires c <= bs.Keys
    ensures o in InRefs(bs, c) <==> exists p :: p in c && o in Children(bs[p])
    decreases |c|
  {
    if c != {} {
      var x :| x in c;
      InRefsSplit(bs, c, x);
      InRefsMember(bs, c - {x}, o);
    }
  }

  // ---------------------------------------------------------------- cycles

  ghost predicate OnCycle(bs: Bodies, s: set<Ref>, o: Ref) {
    exists p :: IsPath(bs, p) && |p| > 1 && p[0] == o && p[|p| - 1] == o && forall x :: x in p ==> x in s
  }

  /** `o` is reached from an object that lies on a cycle; everything on the way is in `s`. */
  ghost predicate BehindCycle(bs: Bodies, s: set<Ref>, o: Ref) {
    exists p :: IsPath(bs, p) && p[|p| - 1] == o && (forall x :: x in p ==> x in s) && OnCycle(bs, s, p[0])
  }

  lemma {:induction false} Pigeonhole(p: seq<Ref>, s: set<Ref>)
    requires forall x :: x in p ==> x in s
    requires |p| > |s|
    ensures exists i, j :: 0 <= i < j < |p| && p[i] == p[j]
    decreases |p|
  {
    var x := p[0];
    if x in p[1..] {
      var k :| 0 <= k < |p[1..]| && p[1..][k] == x;
      assert p[0] == p[k + 1];
    } else {
      Pigeonhole(p[1..], s - {x});
      var i, j :| 0 <= i < j < |p[1..]| && p[1..][i] == p[1..][j];
      assert p[i + 1] == p[j + 1];
    }
  }

  ghost predicate HasParent(bs: Bodies, s: set<Ref>, o: Ref) {
    exists q :: q in s && Edge(bs, q, o)
  }

  ghost predicate AllHaveParents(bs: Bodies, s: set<Ref>) {
    forall x {:trigger HasParent(bs, s, x)} :: x in s ==> HasParent(bs, s, x)
  }

  /** Walks backwards along parents inside of `s`. */
  lemma {:induction false} WalkBack(bs: Bodies, s: set<Ref>, o: Ref, n: nat) returns (p: seq<Ref>)
    requires o in s
    requires AllHaveParents(bs, s)
    ensures |p| == n + 1 && IsPath(bs, p) && p[|p| - 1] == o && forall x :: x in p ==> x in s
  {
    if n == 0 {
      p := [o];
    } else {
      var q := WalkBack(bs, s, o, n - 1);
      assert HasParent(bs, s, q[0]);
      var r :| r in s && Edge(bs, r, q[0]);
      assert IsPath(bs, [r]);
      PathJoin(bs, [r], q);
      p := [r] + q;
    }
  }

  /** In a finite set where every object has a parent, every object lies behind a cycle. */
  lemma ParentsMeanCycle(bs: Bodies, s: set<Ref>, o: Ref)
    requires o in s
    requires AllHaveParents(bs, s)
    ensures BehindCycle(bs, s, o)
  {
    var p := WalkBack(bs, s, o, |s|);
    Pigeonhole(p, s);
    var i, j :| 0 <= i < j < |p| && p[i] == p[j];
    var cycle, tail := p[i..j + 1], p[i..|p|];
    PathSlice(bs, p, i, j + 1);
    PathSlice(bs, p, i, |p|);
    assert OnCycle(bs, s, tail[0]);
  }
}
