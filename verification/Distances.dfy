/** Which nodes of a finite graph are within `k` edges of a set of seeds, and the paths that show it. */
module Distances {

  type Edges<T(==)> = set<(T, T)>

  function Next<T>(edges: Edges<T>, from: set<T>): set<T> {
    set e | e in edges && e.0 in from :: e.1
  }

  /** The seeds, and what at most `k` edges reach from there. */
  function Within<T>(seeds: set<T>, edges: Edges<T>, k: nat): set<T> {
    if k == 0 then seeds
    else Within(seeds, edges, k - 1) + Next(edges, Within(seeds, edges, k - 1))
  }

  /** Nodes from a seed on, each an edge from the one before. */
  ghost predicate IsPath<T>(seeds: set<T>, edges: Edges<T>, s: seq<T>) {
    && s != [] && s[0] in seeds
    && forall i, j :: 0 <= i < j < |s| && j == i + 1 ==> (s[i], s[j]) in edges
  }

  /** A path of at most `k` edges ends in `c`. */
  ghost predicate AtDistance<T(!new)>(seeds: set<T>, edges: Edges<T>, c: T, k: nat) {
    exists s :: IsPath(seeds, edges, s) && |s| <= k + 1 && s[|s| - 1] == c
  }

  /** Every node a path reaches is reached by one of at most `k` edges. */
  ghost predicate AllNear<T(!new)>(seeds: set<T>, edges: Edges<T>, k: nat) {
    forall s :: IsPath(seeds, edges, s) ==> AtDistance(seeds, edges, s[|s| - 1], k)
  }

  lemma {:induction false} WithinGrows<T>(seeds: set<T>, edges: Edges<T>, j: nat, k: nat)
    requires j <= k
    ensures Within(seeds, edges, j) <= Within(seeds, edges, k)
  {
    if j < k { WithinGrows(seeds, edges, j, k - 1); }
  }

  lemma {:induction false} PathIsWithin<T>(seeds: set<T>, edges: Edges<T>, s: seq<T>)
    requires IsPath(seeds, edges, s)
    ensures s[|s| - 1] in Within(seeds, edges, |s| - 1)
  {
    var n := |s| - 1;
    if n > 0 {
      PathIsWithin(seeds, edges, s[..n]);
      assert (s[n - 1], s[n]) in edges;
    }
  }

  lemma {:induction false} WithinHasPath<T>(seeds: set<T>, edges: Edges<T>, c: T, k: nat) returns (s: seq<T>)
    requires c in Within(seeds, edges, k)
    ensures IsPath(seeds, edges, s) && |s| <= k + 1 && s[|s| - 1] == c
  {
    if k == 0 {
      s := [c];
    } else if c in Within(seeds, edges, k - 1) {
      s := WithinHasPath(seeds, edges, c, k - 1);
    } else {
      var e :| e in edges && e.0 in Within(seeds, edges, k - 1) && e.1 == c;
      s := WithinHasPath(seeds, edges, e.0, k - 1);
      assert (e.0, c) in edges;
      s := s + [c];
    }
  }

  /** `Within` measures paths. */
  lemma WithinIsDistance<T(!new)>(seeds: set<T>, edges: Edges<T>, c: T, k: nat)
    ensures c in Within(seeds, edges, k) <==> AtDistance(seeds, edges, c, k)
  {
    if c in Within(seeds, edges, k) {
      var s := WithinHasPath(seeds, edges, c, k);
    }
    if AtDistance(seeds, edges, c, k) {
      var s :| IsPath(seeds, edges, s) && |s| <= k + 1 && s[|s| - 1] == c;
      PathIsWithin(seeds, edges, s);
      WithinGrows(seeds, edges, |s| - 1, k);
    }
  }

  lemma {:induction false} ReachStops<T>(seeds: set<T>, edges: Edges<T>, k: nat, n: nat)
    requires Within(seeds, edges, k + 1) == Within(seeds, edges, k)
    ensures Within(seeds, edges, n) <= Within(seeds, edges, k)
  {
    if n <= k {
      WithinGrows(seeds, edges, n, k);
    } else if n > k + 1 {
      ReachStops(seeds, edges, k, n - 1);
    }
  }

  /** One more edge reaches nothing new exactly when every path can be had that short. */
  lemma NothingFurther<T(!new)>(seeds: set<T>, edges: Edges<T>, k: nat)
    ensures Within(seeds, edges, k + 1) == Within(seeds, edges, k) <==> AllNear(seeds, edges, k)
  {
    if Within(seeds, edges, k + 1) == Within(seeds, edges, k) {
      forall s | IsPath(seeds, edges, s)
        ensures AtDistance(seeds, edges, s[|s| - 1], k)
      {
        PathIsWithin(seeds, edges, s);
        ReachStops(seeds, edges, k, |s| - 1);
        WithinIsDistance(seeds, edges, s[|s| - 1], k);
      }
    }
    if AllNear(seeds, edges, k) {
      forall c | c in Within(seeds, edges, k + 1)
        ensures c in Within(seeds, edges, k)
      {
        var s := WithinHasPath(seeds, edges, c, k + 1);
        WithinIsDistance(seeds, edges, c, k);
      }
    }
  }
}
