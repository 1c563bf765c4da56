/**
 `prune-superseded-caches.py`: of main's build caches in a known key shape, all
 but the newest of each group go. How a key names its group is a parameter.
 */
module CachePruner {
  import opened Options

  datatype Cache = Cache(id: nat, key: string, ref: string, created: nat)

  const MAIN := "refs/heads/main"

  type Grouping = string -> Option<string>

  /** A cache on main whose key has a known shape, in group `g`. */
  predicate InGroup(group: Grouping, c: Cache, g: string) {
    c.ref == MAIN && group(c.key) == Some(g)
  }

  ghost predicate DistinctIds(caches: seq<Cache>) {
    forall i, j :: 0 <= i < j < |caches| ==> caches[i].id != caches[j].id
  }

  /** Among the first `n`, the kept one of a group: the first of its newest. */
  ghost predicate NewestIn(group: Grouping, caches: seq<Cache>, n: nat, g: string, k: int)
    requires n <= |caches|
  {
    && 0 <= k < n && InGroup(group, caches[k], g)
    && (forall i :: 0 <= i < n && InGroup(group, caches[i], g) ==> caches[i].created <= caches[k].created)
    && (forall i :: 0 <= i < k && InGroup(group, caches[i], g) ==> caches[i].created < caches[k].created)
  }

  ghost predicate IsNewest(group: Grouping, caches: seq<Cache>, g: string, k: int) {
    NewestIn(group, caches, |caches|, g, k)
  }

  ghost predicate Doomed(group: Grouping, caches: seq<Cache>, c: Cache) {
    && c in caches
    && exists g, k :: InGroup(group, c, g) && IsNewest(group, caches, g, k) && c.id != caches[k].id
  }

  ghost predicate HasGroup(group: Grouping, caches: seq<Cache>, n: nat, g: string)
    requires n <= |caches|
  {
    exists i :: 0 <= i < n && InGroup(group, caches[i], g)
  }

  /** The dictionary holds the newest of every group among the first `n`, found at these places. */
  ghost predicate Tracks(group: Grouping, caches: seq<Cache>, n: nat, newest: map<string, Cache>, at: map<string, nat>)
    requires n <= |caches|
  {
    && at.Keys == newest.Keys
    && (forall g :: g in newest <==> HasGroup(group, caches, n, g))
    && (forall g :: g in newest ==> NewestIn(group, caches, n, g, at[g]) && newest[g] == caches[at[g]])
  }

  lemma GroupsGrow(group: Grouping, caches: seq<Cache>, n: nat, g: string)
    requires n < |caches|
    ensures HasGroup(group, caches, n + 1, g) <==> HasGroup(group, caches, n, g) || InGroup(group, caches[n], g)
  {
    if HasGroup(group, caches, n, g) {
      var i :| 0 <= i < n && InGroup(group, caches[i], g);
      assert 0 <= i < n + 1;
    }
  }

  /** The kept one of a group stays while no newer one arrives. */
  lemma NewestStays(group: Grouping, caches: seq<Cache>, n: nat, g: string, k: int)
    requires n < |caches| && NewestIn(group, caches, n, g, k)
    requires InGroup(group, caches[n], g) ==> caches[n].created <= caches[k].created
    ensures NewestIn(group, caches, n + 1, g, k)
  {
  }

  lemma TracksOn(group: Grouping, caches: seq<Cache>, n: nat, newest: map<string, Cache>, at: map<string, nat>)
    requires n < |caches| && Tracks(group, caches, n, newest, at)
    requires forall g :: InGroup(group, caches[n], g) ==> g in newest && caches[n].created <= newest[g].created
    ensures Tracks(group, caches, n + 1, newest, at)
  {
    forall g
      ensures g in newest <==> HasGroup(group, caches, n + 1, g)
    {
      GroupsGrow(group, caches, n, g);
    }
    forall g | g in newest
      ensures NewestIn(group, caches, n + 1, g, at[g])
    {
      NewestStays(group, caches, n, g, at[g]);
    }
  }

  lemma TracksNew(group: Grouping, caches: seq<Cache>, n: nat, newest: map<string, Cache>, at: map<string, nat>, g: string)
    requires n < |caches| && Tracks(group, caches, n, newest, at) && InGroup(group, caches[n], g)
    requires g in newest ==> caches[n].created > newest[g].created
    ensures Tracks(group, caches, n + 1, newest[g := caches[n]], at[g := n])
  {
    var newer, later := newest[g := caches[n]], at[g := n];
    forall h
      ensures h in newer <==> HasGroup(group, caches, n + 1, h)
    {
      GroupsGrow(group, caches, n, h);
    }
    forall h | h in newer
      ensures NewestIn(group, caches, n + 1, h, later[h]) && newer[h] == caches[later[h]]
    {
      NewestNow(group, caches, n, newest, at, g, h);
    }
  }

  lemma NewestNow(group: Grouping, caches: seq<Cache>, n: nat, newest: map<string, Cache>, at: map<string, nat>, g: string, h: string)
    requires n < |caches| && Tracks(group, caches, n, newest, at) && InGroup(group, caches[n], g)
    requires (g in newest ==> caches[n].created > newest[g].created) && (h in newest || h == g)
    ensures NewestIn(group, caches, n + 1, h, if h == g then n else at[h])
    ensures h != g ==> newest[h] == caches[at[h]]
  {
    if h == g {
      NewestArrives(group, caches, n, newest, at, g);
    } else {
      NewestStays(group, caches, n, h, at[h]);
    }
  }

  lemma NewestArrives(group: Grouping, caches: seq<Cache>, n: nat, newest: map<string, Cache>, at: map<string, nat>, g: string)
    requires n < |caches| && Tracks(group, caches, n, newest, at) && InGroup(group, caches[n], g)
    requires g in newest ==> caches[n].created > newest[g].created
    ensures NewestIn(group, caches, n + 1, g, n)
  {
    forall i | 0 <= i < n && InGroup(group, caches[i], g)
      ensures caches[i].created < caches[n].created
    {
      assert HasGroup(group, caches, n, g);
    }
  }

  /** The first pass: the newest cache of every group. */
  method NewestOf(group: Grouping, caches: seq<Cache>) returns (newest: map<string, Cache>, ghost at: map<string, nat>)
    ensures Tracks(group, caches, |caches|, newest, at)
  {
    newest, at := map[], map[];
    for n := 0 to |caches|
      invariant Tracks(group, caches, n, newest, at)
    {
      var c := caches[n];
      if c.ref == MAIN && group(c.key).Some? && (group(c.key).value !in newest || c.created > newest[group(c.key).value].created) {
        var g := group(c.key).value;
        TracksNew(group, caches, n, newest, at, g);
        newest, at := newest[g := c], at[g := n];
      } else {
        TracksOn(group, caches, n, newest, at);
      }
    }
  }

  /** Not the newest of its group, by id. */
  lemma DoomedIsNotNewest(group: Grouping, caches: seq<Cache>, c: Cache, k: nat)
    requires c in caches && c.ref == MAIN && group(c.key).Some? && IsNewest(group, caches, group(c.key).value, k)
    ensures Doomed(group, caches, c) <==> c.id != caches[k].id
  {
    var g := group(c.key).value;
    if Doomed(group, caches, c) {
      var h, m :| InGroup(group, c, h) && IsNewest(group, caches, h, m) && c.id != caches[m].id;
      NewestIsUnique(group, caches, g, k, m);
    }
  }

  /** `superseded`: the caches to delete. */
  method Superseded(group: Grouping, caches: seq<Cache>) returns (doomed: seq<Cache>)
    ensures forall c :: c in doomed <==> Doomed(group, caches, c)
  {
    var newest: map<string, Cache>;
    ghost var at: map<string, nat>;
    newest, at := NewestOf(group, caches);
    doomed := [];
    for n := 0 to |caches|
      invariant forall c :: c in doomed <==> c in caches[..n] && Doomed(group, caches, c)
    {
      var c := caches[n];
      assert caches[..n + 1] == caches[..n] + [c];
      if c.ref == MAIN && group(c.key).Some? {
        var g := group(c.key).value;
        assert InGroup(group, caches[n], g);
        assert HasGroup(group, caches, |caches|, g);
        DoomedIsNotNewest(group, caches, c, at[g]);
        if c.id != newest[g].id {
          doomed := doomed + [c];
        }
      }
    }
    assert caches[..|caches|] == caches;
  }

  lemma NewestIsUnique(group: Grouping, caches: seq<Cache>, g: string, a: int, b: int)
    requires IsNewest(group, caches, g, a) && IsNewest(group, caches, g, b)
    ensures a == b
  {
  }

  /**
   With distinct ids, pruning leaves exactly one cache of each group main has,
   and none of that group was newer; other refs and unknown keys are all kept.
   */
  lemma OneIsKept(group: Grouping, caches: seq<Cache>, g: string, k: nat, c: Cache)
    requires DistinctIds(caches) && IsNewest(group, caches, g, k) && c in caches
    ensures InGroup(group, c, g) ==> (!Doomed(group, caches, c) <==> c == caches[k]) && c.created <= caches[k].created
    ensures c.ref != MAIN || group(c.key).None? ==> !Doomed(group, caches, c)
  {
    var i :| 0 <= i < |caches| && caches[i] == c;
    if InGroup(group, c, g) {
      if c == caches[k] && Doomed(group, caches, c) {
        var h, m :| InGroup(group, c, h) && IsNewest(group, caches, h, m) && c.id != caches[m].id;
        NewestIsUnique(group, caches, g, k, m);
      }
      if c != caches[k] {
        assert c.id != caches[k].id;
      }
    }
  }

  /** Pruning what is left finds nothing: `rest` is any list of exactly the kept caches. */
  lemma PruningAgainFindsNothing(group: Grouping, caches: seq<Cache>, rest: seq<Cache>, c: Cache)
    requires DistinctIds(caches)
    requires forall x :: x in rest <==> x in caches && !Doomed(group, caches, x)
    ensures !Doomed(group, rest, c)
  {
    if Doomed(group, rest, c) {
      var g, k :| InGroup(group, c, g) && IsNewest(group, rest, g, k) && c.id != rest[k].id;
      var kept := rest[k];
      assert kept in rest;
      var i :| 0 <= i < |caches| && caches[i] == c;
      var m := SomeNewest(group, caches, g, i);
      OneIsKept(group, caches, g, m, c);
      OneIsKept(group, caches, g, m, kept);
    }
  }

  lemma {:induction false} SomeNewest(group: Grouping, caches: seq<Cache>, g: string, i: nat) returns (k: nat)
    requires i < |caches| && InGroup(group, caches[i], g)
    ensures IsNewest(group, caches, g, k)
    decreases |caches|
  {
    var n := |caches| - 1;
    var front := caches[..n];
    if exists j :: 0 <= j < n && InGroup(group, front[j], g) {
      var j :| 0 <= j < n && InGroup(group, front[j], g);
      k := SomeNewest(group, front, g, j);
      if InGroup(group, caches[n], g) && caches[n].created > caches[k].created { k := n; }
    } else {
      k := n;
    }
  }
}
