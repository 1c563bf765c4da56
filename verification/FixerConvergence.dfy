/**
 How long the fixer runs. Without its cap it always reaches a checkout the
 guards name nothing in. If no crate is named twice, as many rounds as the
 longest dependency chain has crates are enough.
 */
module FixerConvergence {
  import opened Versions
  import opened ReleaseGuards
  import opened BumpFixer

  lemma KeysKept(cx: Context, ws: Workspace, k: nat)
    ensures Rounds(cx, ws, k).Keys == ws.Keys
  {
  }

  // ----- a crate's weight: what its bumps can still use up -----

  function AtOrAbove(vs: set<Version>, v: Version): set<Version> {
    set u | u in vs && AtMost(v, u)
  }

  /** The cut versions whose line is `v`'s or a later one. */
  function LinesAtOrAbove(cuts: set<Version>, v: Version): set<Version> {
    set u | u in cuts && (Compat(u) == Compat(v) || Less(v, u))
  }

  function PublishedVersions(reg: Registry, c: Crate): set<Version> {
    if c in reg then reg[c].Keys else {}
  }

  function Weight(cx: Context, c: Crate, v: Version): nat {
    (if Floor(v) == v then 0 else 1)
    + |AtOrAbove(PublishedVersions(cx.reg, c), v)|
    + |LinesAtOrAbove(OwnedCuts(cx.manifests, cx.own, c), v)|
  }

  lemma SmallerSet<T>(a: set<T>, b: set<T>)
    requires a <= b
    ensures |a| <= |b|
    ensures a != b ==> |a| < |b|
  {
    assert b == a + (b - a);
    assert a != b ==> b - a != {};
  }

  /** Raising a version to the next breaking one never adds weight. */
  lemma RaiseSheds(cx: Context, c: Crate, v: Version)
    ensures AtOrAbove(PublishedVersions(cx.reg, c), NextBreaking(v)) <= AtOrAbove(PublishedVersions(cx.reg, c), v)
    ensures LinesAtOrAbove(OwnedCuts(cx.manifests, cx.own, c), NextBreaking(v))
         <= LinesAtOrAbove(OwnedCuts(cx.manifests, cx.own, c), v)
    ensures Floor(NextBreaking(v)) == NextBreaking(v)
    ensures forall u :: Compat(u) == Compat(v) ==> u !in LinesAtOrAbove(OwnedCuts(cx.manifests, cx.own, c), NextBreaking(v))
  {
    var b := NextBreaking(v);
    NextBreakingIsLeast(v);
    forall u | Compat(u) == Compat(v)
      ensures !Less(b, u)
    {
      if Less(b, u) { LineConvex(v, b, u); }
    }
  }

  /** A crate the guards name loses weight when it is raised. */
  lemma NamedLosesWeight(cx: Context, ws: Workspace, c: Crate)
    requires c in Named(cx, ws)
    ensures Weight(cx, c, NextBreaking(ws[c].version)) < Weight(cx, c, ws[c].version)
  {
    var v := ws[c].version;
    var b := NextBreaking(v);
    var published, cuts := PublishedVersions(cx.reg, c), OwnedCuts(cx.manifests, cx.own, c);
    RaiseSheds(cx, c, v);
    NextBreakingIsLeast(v);
    SmallerSet(AtOrAbove(published, b), AtOrAbove(published, v));
    SmallerSet(LinesAtOrAbove(cuts, b), LinesAtOrAbove(cuts, v));
    if TooSmall(ws, cx.reg, c) {
      var base :| IsBaseline(cx.reg[c], v, base) && Compat(base) == Compat(v);
      FloorIsLeast(v);
      assert Floor(v) != v;
    } else if Stale(ws, cx.reg, c) {
      assert v in AtOrAbove(published, v) && v !in AtOrAbove(published, b);
    } else {
      var u :| u in cuts && Compat(u) == Compat(v);
      assert u in LinesAtOrAbove(cuts, v) && u !in LinesAtOrAbove(cuts, b);
    }
  }

  ghost function Pick(s: set<Crate>): Crate
    requires s != {}
  {
    var c :| c in s; c
  }

  /** The checkout's weight: that of its crates together. */
  ghost function Total(cx: Context, ws: Workspace, crates: set<Crate>): nat
    requires crates <= ws.Keys
  {
    if crates == {} then 0
    else
      var c := Pick(crates);
      Weight(cx, c, ws[c].version) + Total(cx, ws, crates - {c})
  }

  lemma {:induction false} TotalDrops(cx: Context, ws: Workspace, crates: set<Crate>)
    requires crates <= ws.Keys
    ensures crates <= Round(cx, ws).Keys
    ensures Total(cx, Round(cx, ws), crates) <= Total(cx, ws, crates)
    ensures crates * Named(cx, ws) != {} ==> Total(cx, Round(cx, ws), crates) < Total(cx, ws, crates)
  {
    if crates != {} {
      var c := Pick(crates);
      TotalDrops(cx, ws, crates - {c});
      if c in Named(cx, ws) {
        NamedLosesWeight(cx, ws, c);
      } else {
        assert Round(cx, ws)[c].version == ws[c].version;
        assert crates * Named(cx, ws) == (crates - {c}) * Named(cx, ws);
      }
    }
  }

  lemma NothingNamedStays(cx: Context, ws: Workspace, k: nat, n: nat)
    requires k <= n && Named(cx, Rounds(cx, ws, k)) == {}
    ensures Rounds(cx, ws, n) == Rounds(cx, ws, k)
  {
    if k < n {
      NothingNamedStays(cx, ws, k, n - 1);
      RaiseNone(Rounds(cx, ws, k));
    }
  }

  lemma RoundDrops(cx: Context, ws: Workspace)
    requires Named(cx, ws) != {}
    ensures Round(cx, ws).Keys == ws.Keys
    ensures Total(cx, Round(cx, ws), ws.Keys) < Total(cx, ws, ws.Keys)
  {
    TotalDrops(cx, ws, ws.Keys);
    assert ws.Keys * Named(cx, ws) == Named(cx, ws);
  }

  lemma {:induction false} TotalAfter(cx: Context, ws: Workspace, k: nat)
    ensures Rounds(cx, ws, k).Keys == ws.Keys
    ensures Named(cx, Rounds(cx, ws, k)) == {} || Total(cx, Rounds(cx, ws, k), ws.Keys) + k <= Total(cx, ws, ws.Keys)
  {
    if k > 0 {
      TotalAfter(cx, ws, k - 1);
      TotalStep(cx, Rounds(cx, ws, k - 1), ws.Keys, k - 1, Total(cx, ws, ws.Keys));
    }
  }

  /** One round: nothing is named, or the weight and the rounds so far stay within the bound. */
  lemma TotalStep(cx: Context, w: Workspace, crates: set<Crate>, k: nat, bound: nat)
    requires w.Keys == crates && (Named(cx, w) == {} || Total(cx, w, crates) + k <= bound)
    ensures Round(cx, w).Keys == crates
    ensures Named(cx, Round(cx, w)) == {} || Total(cx, Round(cx, w), crates) + k + 1 <= bound
  {
    if Named(cx, w) == {} {
      RaiseNone(w);
    } else {
      RoundDrops(cx, w);
    }
  }

  /**
   Without the cap the loop ends, whatever the registry, the manifests and the
   dependency graph (cycles included): the weight of the checkout bounds the
   number of rounds that raise something.
   */
  lemma FixerTerminates(cx: Context, ws: Workspace)
    ensures Named(cx, Rounds(cx, ws, Total(cx, ws, ws.Keys))) == {}
  {
    var n := Total(cx, ws, ws.Keys);
    TotalAfter(cx, ws, n);
    if Named(cx, Rounds(cx, ws, n)) != {} {
      RoundDrops(cx, Rounds(cx, ws, n));
    }
  }

  // ----- how many rounds -----

  /** `c` has a normal or build dependency on `d`. */
  predicate DependsOn(ws: Workspace, c: Crate, d: Crate) {
    c in ws && Ordered(ws[c].deps, d)
  }

  /** Distinct crates, each depending on the one before it. */
  ghost predicate IsChain(ws: Workspace, s: seq<Crate>) {
    && (forall i :: 0 <= i < |s| ==> s[i] in ws)
    && (forall i, j :: 0 <= i < j < |s| && j == i + 1 ==> DependsOn(ws, s[j], s[i]))
    && (forall i, j :: 0 <= i < j < |s| ==> s[i] != s[j])
  }

  /** A round never turns a tree that is not releasing into one that is. */
  lemma ReleasingOnlyEnds(cx: Context, ws: Workspace)
    requires Releasing(Round(cx, ws), cx.reg)
    ensures Releasing(ws, cx.reg)
  {
    var w := Round(cx, ws);
    var c :| c in w && c in cx.reg && Proposed(w, cx.reg, c);
    if c !in Named(cx, ws) {
      assert w[c].version == ws[c].version;
      assert Proposed(ws, cx.reg, c);
    }
  }

  /** If no dependency of `c` was raised, what `c` asks for did not move. */
  lemma SameRequirements(ws: Workspace, raised: set<Crate>, c: Crate, published: seq<Dep>)
    requires c in ws && forall d :: d in raised ==> !DependsOn(ws, c, d)
    ensures HasMoved(RaiseAll(ws, raised)[c].deps, ws.Keys, published) ==> HasMoved(ws[c].deps, ws.Keys, published)
  {
    var w := RaiseAll(ws, raised);
    forall i | 0 <= i < |ws[c].deps| && ws[c].deps[i].kind != Dev
      ensures w[c].deps[i] == ws[c].deps[i]
    {
      assert Ordered(ws[c].deps, ws[c].deps[i].name);
    }
  }

  /** A crate named only now depends on one raised in the round before. */
  lemma NewlyNamed(cx: Context, ws: Workspace, c: Crate) returns (d: Crate)
    requires c in Named(cx, Round(cx, ws)) && c !in Named(cx, ws)
    ensures d in Named(cx, ws) && DependsOn(ws, c, d)
  {
    var w := Round(cx, ws);
    assert w.Keys == ws.Keys && w[c].version == ws[c].version;
    if forall d :: d in Named(cx, ws) ==> !DependsOn(ws, c, d) {
      if TooSmall(w, cx.reg, c) {
        var b :| IsBaseline(cx.reg[c], w[c].version, b) && Compat(b) == Compat(w[c].version)
                 && HasMoved(w[c].deps, w.Keys, cx.reg[c][b].deps);
        SameRequirements(ws, Named(cx, ws), c, cx.reg[c][b].deps);
      } else if Stale(w, cx.reg, c) && Releasing(w, cx.reg) {
        ReleasingOnlyEnds(cx, ws);
        SameRequirements(ws, Named(cx, ws), c, cx.reg[c][w[c].version].deps);
      }
      assert false;
    }
    d :| d in Named(cx, ws) && DependsOn(ws, c, d);
  }

  lemma RaiseKeepsDependencies(ws: Workspace, raised: set<Crate>, c: Crate, d: Crate)
    ensures DependsOn(RaiseAll(ws, raised), c, d) <==> DependsOn(ws, c, d)
  {
    if c in ws {
      OrderedByNames(ws[c].deps, RaiseAll(ws, raised)[c].deps, d);
      OrderedByNames(RaiseAll(ws, raised)[c].deps, ws[c].deps, d);
    }
  }

  lemma {:induction false} DependenciesKept(cx: Context, ws: Workspace, k: nat, c: Crate, d: Crate)
    ensures DependsOn(Rounds(cx, ws, k), c, d) <==> DependsOn(ws, c, d)
  {
    if k > 0 {
      DependenciesKept(cx, ws, k - 1, c, d);
      RaiseKeepsDependencies(Rounds(cx, ws, k - 1), Named(cx, Rounds(cx, ws, k - 1)), c, d);
    }
  }

  lemma OrderedByNames(a: seq<Dep>, b: seq<Dep>, d: Crate)
    requires |a| == |b| && forall i :: 0 <= i < |a| ==> a[i].name == b[i].name && a[i].kind == b[i].kind
    ensures Ordered(a, d) ==> Ordered(b, d)
  {
    if Ordered(a, d) {
      var j :| 0 <= j < |a| && a[j].kind != Dev && a[j].name == d;
      assert b[j].kind != Dev && b[j].name == d;
    }
  }

  /** Some member of `earlier` is a dependency of `c`. */
  ghost predicate Linked(ws: Workspace, earlier: set<Crate>, c: Crate) {
    exists d :: d in earlier && DependsOn(ws, c, d)
  }

  ghost predicate Layered(ws: Workspace, sets: seq<set<Crate>>) {
    && (forall i, c :: 0 <= i < |sets| && c in sets[i] ==> c in ws)
    && (forall i, j :: 0 <= i < j < |sets| ==> sets[i] !! sets[j])
    && (forall i, j, c :: 0 <= i < j < |sets| && j == i + 1 && c in sets[j] ==> Linked(ws, sets[i], c))
  }

  lemma LinkedToPrevious(cx: Context, ws: Workspace, k: nat, c: Crate)
    requires c in Named(cx, Rounds(cx, ws, k + 1)) && c !in Named(cx, Rounds(cx, ws, k))
    ensures Linked(ws, Named(cx, Rounds(cx, ws, k)), c)
  {
    var d := NewlyNamed(cx, Rounds(cx, ws, k), c);
    DependenciesKept(cx, ws, k, c, d);
  }

  lemma AllLinked(cx: Context, ws: Workspace, k: nat, earlier: set<Crate>, last: set<Crate>)
    requires earlier == Named(cx, Rounds(cx, ws, k)) && last == Named(cx, Rounds(cx, ws, k + 1)) && earlier !! last
    ensures forall c :: c in last ==> Linked(ws, earlier, c)
  {
    forall c | c in last
      ensures Linked(ws, earlier, c)
    {
      LinkedToPrevious(cx, ws, k, c);
    }
  }

  /** The guards name `c` in round `i`, counted from 0. */
  ghost predicate NamedIn(cx: Context, ws: Workspace, i: nat, c: Crate) {
    c in Named(cx, Rounds(cx, ws, i))
  }

  /** No crate is named in two rounds. */
  ghost predicate NamedOnce(cx: Context, ws: Workspace) {
    forall i: nat, j: nat, c {:trigger NamedIn(cx, ws, i, c), NamedIn(cx, ws, j, c)} ::
      i < j && NamedIn(cx, ws, i, c) ==> !NamedIn(cx, ws, j, c)
  }

  lemma LayersApart(cx: Context, ws: Workspace, i: nat, j: nat, earlier: set<Crate>, last: set<Crate>)
    requires NamedOnce(cx, ws) && i < j && earlier == Named(cx, Rounds(cx, ws, i)) && last == Named(cx, Rounds(cx, ws, j))
    ensures earlier !! last
  {
    forall c | c in earlier
      ensures c !in last
    {
      assert NamedIn(cx, ws, i, c);
      assert !NamedIn(cx, ws, j, c);
    }
  }

  /** The crates named in round `i`, of the checkout. */
  lemma LayerOf(cx: Context, ws: Workspace, i: nat) returns (layer: set<Crate>)
    ensures layer == Named(cx, Rounds(cx, ws, i)) && forall c :: c in layer ==> c in ws
  {
    KeysKept(cx, ws, i);
    layer := Named(cx, Rounds(cx, ws, i));
  }

  /** A round's crates stand apart from every earlier round's, each linked to the round before. */
  lemma LayerFits(cx: Context, ws: Workspace, n: nat, i: nat, earlier: set<Crate>, last: set<Crate>)
    requires NamedOnce(cx, ws) && i < n && earlier == Named(cx, Rounds(cx, ws, i)) && last == Named(cx, Rounds(cx, ws, n))
    ensures earlier !! last && (n == i + 1 ==> forall c :: c in last ==> Linked(ws, earlier, c))
  {
    LayersApart(cx, ws, i, n, earlier, last);
    if n == i + 1 { AllLinked(cx, ws, i, earlier, last); }
  }

  /** The crates named in rounds 0 to `n`: disjoint layers, each linked to the one before. */
  lemma LayersOf(cx: Context, ws: Workspace, n: nat) returns (sets: seq<set<Crate>>)
    requires NamedOnce(cx, ws)
    ensures |sets| == n + 1 && Layered(ws, sets) && sets[n] == Named(cx, Rounds(cx, ws, n))
  {
    sets := seq(n + 1, i requires 0 <= i => Named(cx, Rounds(cx, ws, i)));
    forall i | 0 <= i <= n
      ensures forall c :: c in sets[i] ==> c in ws
    {
      var layer := LayerOf(cx, ws, i);
    }
    forall i, j | 0 <= i < j <= n
      ensures sets[i] !! sets[j] && (j == i + 1 ==> forall c :: c in sets[j] ==> Linked(ws, sets[i], c))
    {
      LayerFits(cx, ws, j, i, sets[i], sets[j]);
    }
  }

  /** A crate in layer `k` ends a dependency chain with one crate from each layer up to it. */
  lemma {:induction false} ChainTo(ws: Workspace, sets: seq<set<Crate>>, k: nat, c: Crate) returns (s: seq<Crate>)
    requires Layered(ws, sets) && k < |sets| && c in sets[k]
    ensures |s| == k + 1 && s[k] == c && IsChain(ws, s)
    ensures forall i :: 0 <= i <= k ==> s[i] in sets[i]
  {
    if k == 0 {
      s := [c];
    } else {
      var d :| d in sets[k - 1] && DependsOn(ws, c, d);
      s := ChainTo(ws, sets, k - 1, d);
      s := s + [c];
    }
  }

  /** As many rounds as the longest dependency chain has crates leave nothing named. */
  lemma RoundsWithinChains(cx: Context, ws: Workspace, n: nat)
    requires NamedOnce(cx, ws)
    requires forall s :: IsChain(ws, s) ==> |s| <= n
    ensures Named(cx, Rounds(cx, ws, n)) == {}
  {
    var sets := LayersOf(cx, ws, n);
    if c :| c in sets[n] {
      var s := ChainTo(ws, sets, n, c);
    }
  }

  // ----- the cap -----

  lemma RaiseKeepsDevProblems(ws: Workspace, raised: set<Crate>, c: Crate)
    ensures VersionedDev(RaiseAll(ws, raised), c) <==> VersionedDev(ws, c)
  {
    if c in ws {
      var a, b := ws[c].deps, RaiseAll(ws, raised)[c].deps;
      forall d
        ensures Ordered(a, d) <==> Ordered(b, d)
      {
        OrderedByNames(a, b, d);
        OrderedByNames(b, a, d);
      }
      assert forall i :: 0 <= i < |a| ==> (a[i].req == Any <==> b[i].req == Any) && a[i].path == b[i].path;
      assert forall i :: 0 <= i < |a| ==> a[i].name == b[i].name && a[i].kind == b[i].kind;
    }
  }

  lemma {:induction false} DevProblemsKept(cx: Context, ws: Workspace, k: nat, c: Crate)
    ensures VersionedDev(Rounds(cx, ws, k), c) <==> VersionedDev(ws, c)
  {
    if k > 0 {
      DevProblemsKept(cx, ws, k - 1, c);
      RaiseKeepsDevProblems(Rounds(cx, ws, k - 1), Named(cx, Rounds(cx, ws, k - 1)), c);
    }
  }
}
