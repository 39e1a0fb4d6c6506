/** The `UnionFind` of `day_08.rs`: disjoint sets over `0..n` with path
    compression in `find` and union by size.

    Termination of `find` rests on the parent links never forming a cycle
    other than a root pointing to itself. The model carries that as a ghost
    rank that rises strictly from every non-root to its parent; `Root` is
    the reference definition of the representative, and `Find` and `Union`
    are proved against it. */
module DisjointSets {
  import opened Seqs

  /** `UnionFind`: a parent and a size per element. */
  datatype UnionFind = UnionFind(parent: seq<nat>, size: seq<nat>)

  /** Every parent is an element and the rank rises along each link. */
  ghost predicate Ranked(parent: seq<nat>, rank: seq<nat>) {
    && |rank| == |parent|
    && (forall x :: 0 <= x < |parent| ==> parent[x] < |parent|)
    && (forall x :: 0 <= x < |parent| && parent[x] != x ==> rank[x] < rank[parent[x]])
  }

  /** A union-find whose parents are ranked by `rank` and which has a size
      per element. */
  ghost predicate Valid(uf: UnionFind, rank: seq<nat>) {
    Ranked(uf.parent, rank) && |uf.size| == |uf.parent|
  }

  ghost function MaxRank(rank: seq<nat>): (m: nat)
    ensures forall i :: 0 <= i < |rank| ==> rank[i] <= m
  {
    if |rank| == 0 then 0
    else
      var m := MaxRank(rank[..|rank| - 1]);
      if rank[|rank| - 1] > m then rank[|rank| - 1] else m
  }

  /** The representative of `x`: follow the parents to the element that is
      its own parent. */
  ghost function Root(parent: seq<nat>, rank: seq<nat>, x: nat): (r: nat)
    requires Ranked(parent, rank) && x < |parent|
    ensures r < |parent| && parent[r] == r
    ensures rank[x] <= rank[r] && (parent[x] != x ==> rank[x] < rank[r])
    decreases MaxRank(rank) - rank[x]
  {
    if parent[x] == x then x else Root(parent, rank, parent[x])
  }

  /** An element is its own representative exactly when it is a root. */
  lemma RootIsSelf(parent: seq<nat>, rank: seq<nat>, x: nat)
    requires Ranked(parent, rank) && x < |parent|
    ensures Root(parent, rank, x) == x <==> parent[x] == x
  {
  }

  /** The representative does not depend on which rank shows termination. */
  lemma {:induction false} RootRankFree(parent: seq<nat>, rank: seq<nat>, rank': seq<nat>, x: nat)
    requires Ranked(parent, rank) && Ranked(parent, rank') && x < |parent|
    ensures Root(parent, rank', x) == Root(parent, rank, x)
    decreases MaxRank(rank) - rank[x]
  {
    if parent[x] != x {
      RootRankFree(parent, rank, rank', parent[x]);
    }
  }

  /** Two parent arrays over the same elements give every element the same
      representative. */
  ghost predicate SameRoots(p: seq<nat>, q: seq<nat>, rank: seq<nat>)
    requires Ranked(p, rank) && Ranked(q, rank)
  {
    forall y :: 0 <= y < |p| ==> Root(q, rank, y) == Root(p, rank, y)
  }

  // ================================================================ new

  /** `UnionFind::new(n)`: every element its own root, every size 1. */
  function New(n: nat): (uf: UnionFind)
    ensures |uf.parent| == |uf.size| == n
    ensures forall x :: 0 <= x < n ==> uf.parent[x] == x && uf.size[x] == 1
  {
    UnionFind(seq(n, x => x), seq(n, x => 1))
  }

  /** A fresh union-find is valid with all ranks zero. */
  lemma NewValid(n: nat)
    ensures Valid(New(n), seq(n, x => 0))
  {
  }

  /** In a fresh union-find every element is alone in its set. */
  lemma {:induction false} NewMembers(n: nat, r: nat, m: nat)
    requires m <= n
    ensures Valid(New(n), seq(n, x => 0))
    ensures Members(New(n).parent, seq(n, x => 0), r, m) == if r < m then 1 else 0
  {
    NewValid(n);
    if m > 0 {
      NewMembers(n, r, m - 1);
      RootIsSelf(New(n).parent, seq(n, x => 0), m - 1);
    }
  }

  /** In a fresh union-find every element is a root. */
  lemma {:induction false} NewRoots(n: nat, m: nat)
    requires m <= n
    ensures RootCount(New(n).parent, m) == m
  {
    if m > 0 {
      NewRoots(n, m - 1);
    }
  }

  /** A fresh union-find has `n` sets, each of size one. */
  lemma NewCounts(n: nat)
    ensures Valid(New(n), seq(n, x => 0))
    ensures SizesCount(New(n), seq(n, x => 0))
    ensures RootCount(New(n).parent, n) == n
  {
    NewValid(n);
    forall r | 0 <= r < n && New(n).parent[r] == r
      ensures New(n).size[r] == Members(New(n).parent, seq(n, x => 0), r, n)
    {
      NewMembers(n, r, n);
    }
    NewRoots(n, n);
  }

  // ================================================================ find

  /** Pointing `x` straight at its representative keeps the ranking and
      every element's representative. */
  lemma Compress(parent: seq<nat>, rank: seq<nat>, x: nat, r: nat)
    requires Ranked(parent, rank) && x < |parent| && r == Root(parent, rank, x)
    ensures Ranked(parent[x := r], rank)
    ensures SameRoots(parent, parent[x := r], rank)
  {
    forall y | 0 <= y < |parent|
      ensures Root(parent[x := r], rank, y) == Root(parent, rank, y)
    {
      CompressRoot(parent, rank, x, r, y);
    }
  }

  lemma {:induction false} CompressRoot(parent: seq<nat>, rank: seq<nat>, x: nat, r: nat, y: nat)
    requires Ranked(parent, rank) && x < |parent| && r == Root(parent, rank, x)
    requires Ranked(parent[x := r], rank) && y < |parent|
    ensures Root(parent[x := r], rank, y) == Root(parent, rank, y)
    decreases MaxRank(rank) - rank[y]
  {
    if y != x && parent[y] != y {
      CompressRoot(parent, rank, x, r, parent[y]);
    }
  }

  /** `find(x)`: the representative of `x`, and the parents with every
      element on the way pointing straight at it. */
  function Find(uf: UnionFind, x: nat, ghost rank: seq<nat>): (res: (nat, UnionFind))
    requires Valid(uf, rank) && x < |uf.parent|
    ensures res.0 == Root(uf.parent, rank, x)
    ensures Valid(res.1, rank) && res.1.size == uf.size
    ensures SameRoots(uf.parent, res.1.parent, rank)
    ensures res.1.parent[x] == res.0
    decreases MaxRank(rank) - rank[x]
  {
    if uf.parent[x] == x then (x, uf)
    else
      var next := Find(uf, uf.parent[x], rank);
      var root := next.0;
      var parent := next.1.parent;
      Compress(parent, rank, x, root);
      (root, UnionFind(parent[x := root], uf.size))
  }

  // ================================================================ union

  /** Raising the rank of a root keeps the ranking and the representatives. */
  lemma RaiseRoot(parent: seq<nat>, rank: seq<nat>, r: nat, v: nat)
    requires Ranked(parent, rank) && r < |parent| && parent[r] == r && rank[r] <= v
    ensures Ranked(parent, rank[r := v])
    ensures forall y :: 0 <= y < |parent| ==> Root(parent, rank[r := v], y) == Root(parent, rank, y)
  {
    forall y | 0 <= y < |parent|
      ensures Root(parent, rank[r := v], y) == Root(parent, rank, y)
    {
      RootRankFree(parent, rank, rank[r := v], y);
    }
  }

  /** The rank after linking root `small` under root `big`. */
  ghost function LinkRank(rank: seq<nat>, big: nat, small: nat): seq<nat>
    requires big < |rank| && small < |rank|
  {
    rank[big := if rank[big] > rank[small] then rank[big] else rank[small] + 1]
  }

  /** Linking root `small` under root `big` sends every element of the
      `small` set to `big` and leaves all other representatives alone. */
  lemma Link(parent: seq<nat>, rank: seq<nat>, big: nat, small: nat)
    requires Ranked(parent, rank) && big < |parent| && small < |parent| && big != small
    requires parent[big] == big && parent[small] == small
    ensures Ranked(parent[small := big], LinkRank(rank, big, small))
    ensures forall y :: 0 <= y < |parent| ==>
      Root(parent[small := big], LinkRank(rank, big, small), y)
        == if Root(parent, rank, y) == small then big else Root(parent, rank, y)
  {
    var rank' := LinkRank(rank, big, small);
    RaiseRoot(parent, rank, big, rank'[big]);
    forall y | 0 <= y < |parent|
      ensures Root(parent[small := big], rank', y) == if Root(parent, rank, y) == small then big else Root(parent, rank, y)
    {
      LinkRoot(parent, rank, big, small, y);
    }
  }

  lemma {:induction false} LinkRoot(parent: seq<nat>, rank: seq<nat>, big: nat, small: nat, y: nat)
    requires Ranked(parent, rank) && big < |parent| && small < |parent| && big != small
    requires parent[big] == big && parent[small] == small
    requires Ranked(parent[small := big], LinkRank(rank, big, small)) && y < |parent|
    ensures Root(parent[small := big], LinkRank(rank, big, small), y)
      == if Root(parent, rank, y) == small then big else Root(parent, rank, y)
    decreases MaxRank(rank) - rank[y]
  {
    if parent[y] != y {
      LinkRoot(parent, rank, big, small, parent[y]);
    }
  }

  /** The root that survives a union: the one of the larger set, and the
      first root on a tie. */
  function Survivor(size: seq<nat>, ra: nat, rb: nat): nat
    requires ra < |size| && rb < |size|
  {
    if size[ra] < size[rb] then rb else ra
  }

  /** The ghost rank after `Union(uf, a, b)`. */
  ghost function UnionRank(uf: UnionFind, a: nat, b: nat, rank: seq<nat>): seq<nat>
    requires Valid(uf, rank) && a < |uf.parent| && b < |uf.parent|
  {
    var ra, rb := Root(uf.parent, rank, a), Root(uf.parent, rank, b);
    if ra == rb then rank
    else
      var big := Survivor(uf.size, ra, rb);
      LinkRank(rank, big, if big == ra then rb else ra)
  }

  /** `union(a, b)`: nothing when `a` and `b` already share a root;
      otherwise the root of the smaller set goes under the root of the
      larger, whose size becomes the sum. */
  function Union(uf: UnionFind, a: nat, b: nat, ghost rank: seq<nat>): (res: (bool, UnionFind))
    requires Valid(uf, rank) && a < |uf.parent| && b < |uf.parent|
    ensures Valid(res.1, UnionRank(uf, a, b, rank))
    ensures res.0 <==> Root(uf.parent, rank, a) != Root(uf.parent, rank, b)
    ensures !res.0 ==> res.1.size == uf.size && SameRoots(uf.parent, res.1.parent, rank)
    ensures res.0 ==>
      var ra, rb := Root(uf.parent, rank, a), Root(uf.parent, rank, b);
      var big := Survivor(uf.size, ra, rb);
      var small := if big == ra then rb else ra;
      && res.1.size == uf.size[big := uf.size[ra] + uf.size[rb]]
      && forall y :: 0 <= y < |uf.parent| ==>
           Root(res.1.parent, UnionRank(uf, a, b, rank), y)
             == if Root(uf.parent, rank, y) == small then big else Root(uf.parent, rank, y)
  {
    var fa := Find(uf, a, rank);
    var fb := Find(fa.1, b, rank);
    var ra, rb, uf2 := fa.0, fb.0, fb.1;
    if ra == rb then (false, uf2)
    else
      var big := Survivor(uf2.size, ra, rb);
      var small := if big == ra then rb else ra;
      Link(uf2.parent, rank, big, small);
      LinkAfterFinds(uf.parent, uf2.parent, rank, big, small);
      (true, UnionFind(uf2.parent[small := big], uf2.size[big := uf2.size[big] + uf2.size[small]]))
  }

  /** Linking after the finds moves the same elements as linking before
      them would: the finds changed no representative. */
  lemma LinkAfterFinds(p: seq<nat>, q: seq<nat>, rank: seq<nat>, big: nat, small: nat)
    requires Ranked(p, rank) && Ranked(q, rank) && SameRoots(p, q, rank)
    requires big < |p| && small < |p| && big != small && q[big] == big && q[small] == small
    requires Ranked(q[small := big], LinkRank(rank, big, small))
    requires forall y :: 0 <= y < |q| ==>
      Root(q[small := big], LinkRank(rank, big, small), y) == if Root(q, rank, y) == small then big else Root(q, rank, y)
    ensures forall y :: 0 <= y < |p| ==>
      Root(q[small := big], LinkRank(rank, big, small), y) == if Root(p, rank, y) == small then big else Root(p, rank, y)
  {
  }

  // ================================================================ components

  /** How many of the elements `0..m` have `r` as representative. */
  ghost function Members(parent: seq<nat>, rank: seq<nat>, r: nat, m: nat): (k: nat)
    requires Ranked(parent, rank) && m <= |parent|
    ensures k <= m
  {
    if m == 0 then 0
    else Members(parent, rank, r, m - 1) + (if Root(parent, rank, m - 1) == r then 1 else 0)
  }

  /** Each root's size is the number of elements in its set. */
  ghost predicate SizesCount(uf: UnionFind, rank: seq<nat>)
    requires Valid(uf, rank)
  {
    forall r :: 0 <= r < |uf.parent| && uf.parent[r] == r ==> uf.size[r] == Members(uf.parent, rank, r, |uf.parent|)
  }

  /** Counting members depends only on the representatives. */
  lemma {:induction false} MembersAgree(p: seq<nat>, rp: seq<nat>, q: seq<nat>, rq: seq<nat>, r: nat, r': nat, m: nat)
    requires Ranked(p, rp) && Ranked(q, rq) && m <= |p| == |q|
    requires forall y :: 0 <= y < m ==> (Root(q, rq, y) == r' <==> Root(p, rp, y) == r)
    ensures Members(q, rq, r', m) == Members(p, rp, r, m)
  {
    if m > 0 {
      MembersAgree(p, rp, q, rq, r, r', m - 1);
    }
  }

  /** After a merge the survivor counts the members of both sets. */
  lemma {:induction false} MembersMerge(p: seq<nat>, rp: seq<nat>, q: seq<nat>, rq: seq<nat>, big: nat, small: nat, m: nat)
    requires Ranked(p, rp) && Ranked(q, rq) && m <= |p| == |q| && big != small
    requires forall y :: 0 <= y < m ==> Root(q, rq, y) == if Root(p, rp, y) == small then big else Root(p, rp, y)
    ensures Members(q, rq, big, m) == Members(p, rp, big, m) + Members(p, rp, small, m)
  {
    if m > 0 {
      MembersMerge(p, rp, q, rq, big, small, m - 1);
    }
  }

  /** `find` keeps the sizes right. */
  lemma FindKeepsSizes(uf: UnionFind, x: nat, rank: seq<nat>)
    requires Valid(uf, rank) && x < |uf.parent| && SizesCount(uf, rank)
    ensures SizesCount(Find(uf, x, rank).1, rank)
  {
    var uf' := Find(uf, x, rank).1;
    forall r | 0 <= r < |uf.parent| && uf'.parent[r] == r
      ensures uf'.size[r] == Members(uf'.parent, rank, r, |uf.parent|)
    {
      RootIsSelf(uf'.parent, rank, r);
      RootIsSelf(uf.parent, rank, r);
      MembersAgree(uf.parent, rank, uf'.parent, rank, r, r, |uf.parent|);
    }
  }

  /** `union` keeps the sizes right. */
  lemma UnionKeepsSizes(uf: UnionFind, a: nat, b: nat, rank: seq<nat>)
    requires Valid(uf, rank) && a < |uf.parent| && b < |uf.parent| && SizesCount(uf, rank)
    ensures SizesCount(Union(uf, a, b, rank).1, UnionRank(uf, a, b, rank))
  {
    if Union(uf, a, b, rank).0 {
      MergedSizes(uf, a, b, rank);
    } else {
      UnmergedSizes(uf, a, b, rank);
    }
  }

  lemma UnmergedSizes(uf: UnionFind, a: nat, b: nat, rank: seq<nat>)
    requires Valid(uf, rank) && a < |uf.parent| && b < |uf.parent| && SizesCount(uf, rank)
    requires !Union(uf, a, b, rank).0
    ensures SizesCount(Union(uf, a, b, rank).1, UnionRank(uf, a, b, rank))
  {
    var uf', rank' := Union(uf, a, b, rank).1, UnionRank(uf, a, b, rank);
    var n := |uf.parent|;
    forall r | 0 <= r < n && uf'.parent[r] == r
      ensures uf'.size[r] == Members(uf'.parent, rank', r, n)
    {
      RootIsSelf(uf'.parent, rank, r);
      RootIsSelf(uf.parent, rank, r);
      MembersAgree(uf.parent, rank, uf'.parent, rank', r, r, n);
    }
  }

  lemma MergedSizes(uf: UnionFind, a: nat, b: nat, rank: seq<nat>)
    requires Valid(uf, rank) && a < |uf.parent| && b < |uf.parent| && SizesCount(uf, rank)
    requires Union(uf, a, b, rank).0
    ensures SizesCount(Union(uf, a, b, rank).1, UnionRank(uf, a, b, rank))
  {
    var uf', rank' := Union(uf, a, b, rank).1, UnionRank(uf, a, b, rank);
    var ra, rb := Root(uf.parent, rank, a), Root(uf.parent, rank, b);
    var big := Survivor(uf.size, ra, rb);
    var small := if big == ra then rb else ra;
    assert uf'.size == uf.size[big := uf.size[big] + uf.size[small]];
    MergeKeepsCounts(uf.parent, rank, uf.size, uf'.parent, rank', uf'.size, big, small);
  }

  /** Sizes stay counts when the set of `small` is merged into that of
      `big` and `big`'s size becomes the sum of the two. */
  lemma MergeKeepsCounts(p: seq<nat>, rp: seq<nat>, size: seq<nat>, q: seq<nat>, rq: seq<nat>, size': seq<nat>, big: nat, small: nat)
    requires Ranked(p, rp) && Ranked(q, rq) && |q| == |p| == |size|
    requires big < |p| && small < |p| && big != small && p[big] == big && p[small] == small
    requires forall y :: 0 <= y < |p| ==> Root(q, rq, y) == if Root(p, rp, y) == small then big else Root(p, rp, y)
    requires size' == size[big := size[big] + size[small]]
    requires forall r :: 0 <= r < |p| && p[r] == r ==> size[r] == Members(p, rp, r, |p|)
    ensures forall r :: 0 <= r < |q| && q[r] == r ==> size'[r] == Members(q, rq, r, |q|)
  {
    forall r | 0 <= r < |q| && q[r] == r
      ensures size'[r] == Members(q, rq, r, |q|)
    {
      MergeRootCount(p, rp, size, q, rq, size', big, small, r);
    }
  }

  lemma MergeRootCount(p: seq<nat>, rp: seq<nat>, size: seq<nat>, q: seq<nat>, rq: seq<nat>, size': seq<nat>, big: nat, small: nat, r: nat)
    requires Ranked(p, rp) && Ranked(q, rq) && |q| == |p| == |size|
    requires big < |p| && small < |p| && big != small && p[big] == big && p[small] == small
    requires forall y :: 0 <= y < |p| ==> Root(q, rq, y) == if Root(p, rp, y) == small then big else Root(p, rp, y)
    requires size' == size[big := size[big] + size[small]]
    requires forall r :: 0 <= r < |p| && p[r] == r ==> size[r] == Members(p, rp, r, |p|)
    requires r < |q| && q[r] == r
    ensures size'[r] == Members(q, rq, r, |q|)
  {
    RootIsSelf(q, rq, r);
    RootIsSelf(p, rp, r);
    RootIsSelf(p, rp, big);
    RootIsSelf(p, rp, small);
    if r == big {
      MembersMerge(p, rp, q, rq, big, small, |p|);
    } else {
      MembersAgree(p, rp, q, rq, r, r, |p|);
    }
  }

  // ================================================================ counting roots

  /** The number of roots among the elements `0..m`. */
  function RootCount(parent: seq<nat>, m: nat): (k: nat)
    requires m <= |parent|
    ensures k <= m
  {
    if m == 0 then 0 else RootCount(parent, m - 1) + (if parent[m - 1] == m - 1 then 1 else 0)
  }

  /** Root counts agree where root-ness does. */
  lemma {:induction false} RootCountAgree(p: seq<nat>, q: seq<nat>, m: nat)
    requires m <= |p| == |q|
    requires forall y :: 0 <= y < m ==> (p[y] == y <==> q[y] == y)
    ensures RootCount(p, m) == RootCount(q, m)
  {
    if m > 0 {
      RootCountAgree(p, q, m - 1);
    }
  }

  /** Losing one root lowers the count by one. */
  lemma {:induction false} RootCountLose(p: seq<nat>, q: seq<nat>, s: nat, m: nat)
    requires m <= |p| == |q| && s < |p| && p[s] == s && q[s] != s
    requires forall y :: 0 <= y < |p| && y != s ==> (p[y] == y <==> q[y] == y)
    ensures RootCount(q, m) == RootCount(p, m) - (if s < m then 1 else 0)
  {
    if m > 0 {
      RootCountLose(p, q, s, m - 1);
    }
  }

  /** A successful union removes exactly one root, a failed one none. */
  lemma UnionRootCount(uf: UnionFind, a: nat, b: nat, rank: seq<nat>)
    requires Valid(uf, rank) && a < |uf.parent| && b < |uf.parent|
    ensures var res := Union(uf, a, b, rank);
      RootCount(res.1.parent, |uf.parent|) == RootCount(uf.parent, |uf.parent|) - (if res.0 then 1 else 0)
  {
    var res := Union(uf, a, b, rank);
    var uf', rank' := res.1, UnionRank(uf, a, b, rank);
    var n := |uf.parent|;
    if !res.0 {
      forall y | 0 <= y < n
        ensures uf.parent[y] == y <==> uf'.parent[y] == y
      {
        RootIsSelf(uf'.parent, rank, y);
        RootIsSelf(uf.parent, rank, y);
      }
      RootCountAgree(uf.parent, uf'.parent, n);
    } else {
      var ra, rb := Root(uf.parent, rank, a), Root(uf.parent, rank, b);
      var big := Survivor(uf.size, ra, rb);
      var small := if big == ra then rb else ra;
      forall y | 0 <= y < n && y != small
        ensures uf.parent[y] == y <==> uf'.parent[y] == y
      {
        RootIsSelf(uf'.parent, rank', y);
        RootIsSelf(uf.parent, rank, y);
      }
      RootIsSelf(uf'.parent, rank', small);
      RootCountLose(uf.parent, uf'.parent, small, n);
    }
  }

  /** After a union `a` and `b` share a representative, and elements that
      shared one still do. */
  lemma UnionConnects(uf: UnionFind, a: nat, b: nat, rank: seq<nat>, y: nat, z: nat)
    requires Valid(uf, rank) && a < |uf.parent| && b < |uf.parent| && y < |uf.parent| && z < |uf.parent|
    ensures var p', rank' := Union(uf, a, b, rank).1.parent, UnionRank(uf, a, b, rank);
      && Root(p', rank', a) == Root(p', rank', b)
      && (Root(uf.parent, rank, y) == Root(uf.parent, rank, z) ==> Root(p', rank', y) == Root(p', rank', z))
  {
    var res := Union(uf, a, b, rank);
    if !res.0 {
      RootRankFree(res.1.parent, rank, UnionRank(uf, a, b, rank), a);
      RootRankFree(res.1.parent, rank, UnionRank(uf, a, b, rank), b);
      RootRankFree(res.1.parent, rank, UnionRank(uf, a, b, rank), y);
      RootRankFree(res.1.parent, rank, UnionRank(uf, a, b, rank), z);
    }
  }

  // ================================================================ component sizes

  /** Only a root has members. */
  lemma {:induction false} MembersOfNonRoot(parent: seq<nat>, rank: seq<nat>, r: nat, m: nat)
    requires Ranked(parent, rank) && m <= |parent|
    requires !(r < |parent| && parent[r] == r)
    ensures Members(parent, rank, r, m) == 0
  {
    if m > 0 {
      MembersOfNonRoot(parent, rank, r, m - 1);
    }
  }

  /** A root counted so far is among its own members. */
  lemma {:induction false} MembersOfRoot(parent: seq<nat>, rank: seq<nat>, r: nat, m: nat)
    requires Ranked(parent, rank) && r < m <= |parent| && parent[r] == r
    ensures Members(parent, rank, r, m) > 0
  {
    if m - 1 > r {
      MembersOfRoot(parent, rank, r, m - 1);
    } else {
      RootIsSelf(parent, rank, r);
    }
  }

  /** `sizes` maps the representatives of the elements `0..i`, each to
      how many of those elements it represents. */
  ghost predicate Counted(parent: seq<nat>, rank: seq<nat>, sizes: map<nat, nat>, i: nat)
    requires Ranked(parent, rank) && i <= |parent|
  {
    forall r: nat :: (r in sizes <==> Members(parent, rank, r, i) > 0)
      && (r in sizes ==> sizes[r] == Members(parent, rank, r, i))
  }

  /** Counting element `i` towards its representative. */
  lemma CountStep(parent: seq<nat>, rank: seq<nat>, sizes: map<nat, nat>, i: nat)
    requires Ranked(parent, rank) && i < |parent| && Counted(parent, rank, sizes, i)
    ensures var r := Root(parent, rank, i);
      Counted(parent, rank, sizes[r := (if r in sizes then sizes[r] else 0) + 1], i + 1)
  {
    var r := Root(parent, rank, i);
    var sizes' := sizes[r := (if r in sizes then sizes[r] else 0) + 1];
    forall q: nat
      ensures (q in sizes' <==> Members(parent, rank, q, i + 1) > 0)
        && (q in sizes' ==> sizes'[q] == Members(parent, rank, q, i + 1))
    {
      assert Members(parent, rank, q, i + 1)
        == Members(parent, rank, q, i) + (if r == q then 1 else 0);
    }
  }

  /** Once every element is counted, the keys are exactly the roots. */
  lemma CountDone(parent: seq<nat>, rank: seq<nat>, sizes: map<nat, nat>)
    requires Ranked(parent, rank) && Counted(parent, rank, sizes, |parent|)
    ensures forall r: nat :: r in sizes <==> r < |parent| && parent[r] == r
    ensures forall r :: r in sizes ==> sizes[r] == Members(parent, rank, r, |parent|)
  {
    forall r: nat
      ensures r in sizes <==> r < |parent| && parent[r] == r
    {
      if r < |parent| && parent[r] == r {
        MembersOfRoot(parent, rank, r, |parent|);
      } else {
        MembersOfNonRoot(parent, rank, r, |parent|);
      }
    }
  }

  /** `component_sizes`: `find` every element in turn and count the
      elements per representative. The result maps exactly the roots, each
      to the number of elements in its set; the finds compress paths but
      change no representative. */
  method ComponentSizes(uf: UnionFind, ghost rank: seq<nat>) returns (sizes: map<nat, nat>, after: UnionFind)
    requires Valid(uf, rank)
    ensures Valid(after, rank) && after.size == uf.size && SameRoots(uf.parent, after.parent, rank)
    ensures forall r: nat :: r in sizes <==> r < |uf.parent| && uf.parent[r] == r
    ensures forall r :: r in sizes ==> sizes[r] == Members(uf.parent, rank, r, |uf.parent|)
  {
    sizes := map[];
    after := uf;
    for i := 0 to |uf.parent|
      invariant Valid(after, rank) && after.size == uf.size && SameRoots(uf.parent, after.parent, rank)
      invariant Counted(uf.parent, rank, sizes, i)
    {
      var found := Find(after, i, rank);
      var r := found.0;
      assert r == Root(uf.parent, rank, i);
      CountStep(uf.parent, rank, sizes, i);
      after := found.1;
      sizes := sizes[r := (if r in sizes then sizes[r] else 0) + 1];
    }
    CountDone(uf.parent, rank, sizes);
  }

  /** The values of `sizes` for the keys `0..k`, in increasing key order. */
  function RootSizes(sizes: map<nat, nat>, k: nat): (s: seq<nat>)
  {
    if k == 0 then [] else RootSizes(sizes, k - 1) + (if k - 1 in sizes then [sizes[k - 1]] else [])
  }

  /** The members of the roots `0..k` among the elements `0..m`. */
  ghost function MemberTotal(parent: seq<nat>, rank: seq<nat>, k: nat, m: nat): nat
    requires Ranked(parent, rank) && k <= |parent| && m <= |parent|
  {
    if k == 0 then 0
    else MemberTotal(parent, rank, k - 1, m) + (if parent[k - 1] == k - 1 then Members(parent, rank, k - 1, m) else 0)
  }

  lemma {:induction false} MemberTotalStep(parent: seq<nat>, rank: seq<nat>, k: nat, m: nat)
    requires Ranked(parent, rank) && k <= |parent| && m < |parent|
    ensures MemberTotal(parent, rank, k, m + 1) == MemberTotal(parent, rank, k, m) + (if Root(parent, rank, m) < k then 1 else 0)
  {
    if k > 0 {
      MemberTotalStep(parent, rank, k - 1, m);
    }
  }

  /** Every element belongs to exactly one root's set. */
  lemma {:induction false} MemberTotalAll(parent: seq<nat>, rank: seq<nat>, m: nat)
    requires Ranked(parent, rank) && m <= |parent|
    ensures MemberTotal(parent, rank, |parent|, m) == m
  {
    if m > 0 {
      MemberTotalAll(parent, rank, m - 1);
      MemberTotalStep(parent, rank, |parent|, m - 1);
    } else {
      MemberTotalZero(parent, rank, |parent|);
    }
  }

  lemma {:induction false} MemberTotalZero(parent: seq<nat>, rank: seq<nat>, k: nat)
    requires Ranked(parent, rank) && k <= |parent|
    ensures MemberTotal(parent, rank, k, 0) == 0
  {
    if k > 0 {
      MemberTotalZero(parent, rank, k - 1);
    }
  }

  /** The component sizes add up to the number of elements, and there is
      one per root. */
  lemma ComponentSizesTotal(parent: seq<nat>, rank: seq<nat>, sizes: map<nat, nat>)
    requires Ranked(parent, rank)
    requires forall r: nat :: r in sizes <==> r < |parent| && parent[r] == r
    requires forall r :: r in sizes ==> sizes[r] == Members(parent, rank, r, |parent|)
    ensures |RootSizes(sizes, |parent|)| == RootCount(parent, |parent|)
    ensures Sum(RootSizes(sizes, |parent|)) == |parent|
  {
    RootSizesList(parent, rank, sizes, |parent|);
    MemberTotalAll(parent, rank, |parent|);
  }
  /** The sizes of the sets, one per root in increasing root order. */
  ghost function ComponentList(parent: seq<nat>, rank: seq<nat>, k: nat): (s: seq<nat>)
    requires Ranked(parent, rank) && k <= |parent|
    ensures |s| == RootCount(parent, k)
    ensures Sum(s) == MemberTotal(parent, rank, k, |parent|)
  {
    if k == 0 then []
    else
      var init := ComponentList(parent, rank, k - 1);
      var last: seq<nat> := if parent[k - 1] == k - 1 then [Members(parent, rank, k - 1, |parent|)] else [];
      SumConcat(init, last);
      init + last
  }

  /** Every set has at least one element, and the sets together hold all
      `n` elements. */
  lemma ComponentListFacts(parent: seq<nat>, rank: seq<nat>)
    requires Ranked(parent, rank)
    ensures var s := ComponentList(parent, rank, |parent|);
      && Sum(s) == |parent|
      && forall i :: 0 <= i < |s| ==> s[i] >= 1
  {
    MemberTotalAll(parent, rank, |parent|);
    ListPositive(parent, rank, |parent|);
  }

  lemma {:induction false} ListPositive(parent: seq<nat>, rank: seq<nat>, k: nat)
    requires Ranked(parent, rank) && k <= |parent|
    ensures forall i :: 0 <= i < |ComponentList(parent, rank, k)| ==> ComponentList(parent, rank, k)[i] >= 1
  {
    if k > 0 {
      ListPositive(parent, rank, k - 1);
      if parent[k - 1] == k - 1 {
        MembersOfRoot(parent, rank, k - 1, |parent|);
      }
    }
  }

  /** The map that `ComponentSizes` returns lists the sets' sizes. */
  lemma {:induction false} RootSizesList(parent: seq<nat>, rank: seq<nat>, sizes: map<nat, nat>, k: nat)
    requires Ranked(parent, rank) && k <= |parent|
    requires forall r: nat :: r in sizes <==> r < |parent| && parent[r] == r
    requires forall r :: r in sizes ==> sizes[r] == Members(parent, rank, r, |parent|)
    ensures RootSizes(sizes, k) == ComponentList(parent, rank, k)
  {
    if k > 0 {
      RootSizesList(parent, rank, sizes, k - 1);
    }
  }
}
