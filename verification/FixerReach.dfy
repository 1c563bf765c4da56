/**
 Exactly how many rounds the fixer takes, read off the checkout before it runs:
 raising a crate drags another along when the requirement it then asks for
 moves away from what that other has published. When no reached crate's next
 breaking version is claimed, the crates named in round k are those k drags
 away from the ones named at the start.
 */
module FixerReach {
  import opened Versions
  import opened ReleaseGuards
  import opened BumpFixer
  import opened FixerConvergence
  import opened Distances

  // ----- who drags whom -----

  /** The guards hold `c`'s requirements against `b`: rule 2's baseline in its class, or rule 3's published copy. */
  ghost predicate Compared(cx: Context, ws: Workspace, c: Crate, b: Version) {
    && c in ws && ws[c].publishable && c in cx.reg && b in cx.reg[c] && Releasing(ws, cx.reg)
    && if ws[c].version in cx.reg[c] then b == ws[c].version
       else IsBaseline(cx.reg[c], ws[c].version, b) && Compat(b) == Compat(ws[c].version)
  }

  /** Raising `d` gives `c` a requirement that moved away from the release it is compared with. */
  ghost predicate Drags(cx: Context, ws: Workspace, d: Crate, c: Crate) {
    exists b, i :: Compared(cx, ws, c, b) && DragsAt(cx, ws, d, c, b, i)
  }

  predicate DragsAt(cx: Context, ws: Workspace, d: Crate, c: Crate, b: Version, i: int)
    requires c in ws && c in cx.reg && b in cx.reg[c]
  {
    && 0 <= i < |ws[c].deps| && d in ws && ws[c].deps[i].name == d && ws[c].deps[i].kind != Dev && ws[c].deps[i].req != Any
    && Moves(MoveDep(ws[c].deps[i], ws, {d}), BaseReqs(cx.reg[c][b].deps, ws.Keys))
  }

  /** The drags of a checkout, as edges from the crate raised to the one it drags. */
  ghost function DragEdges(cx: Context, ws: Workspace): Edges<Crate> {
    set d, c | d in ws && c in ws && Drags(cx, ws, d, c) :: (d, c)
  }

  /** The crates at most `k` drags from the ones named at the start. */
  ghost function Reach(cx: Context, ws: Workspace, k: nat): set<Crate> {
    Within(Named(cx, ws), DragEdges(cx, ws), k)
  }

  ghost predicate IsReached(cx: Context, ws: Workspace, k: nat, c: Crate) {
    c in Reach(cx, ws, k)
  }

  /** Nothing of `c` is published at `v` and no release owns its line. */
  predicate Unclaimed(cx: Context, c: Crate, v: Version) {
    && v !in PublishedVersions(cx.reg, c)
    && forall u :: u in OwnedCuts(cx.manifests, cx.own, c) ==> Compat(u) != Compat(v)
  }

  /** Checkable before the run: the next breaking version of every crate the drags reach is free. */
  ghost predicate SuccessorsUnclaimed(cx: Context, ws: Workspace) {
    forall k: nat, c {:trigger IsReached(cx, ws, k, c)} ::
      IsReached(cx, ws, k, c) ==> c in ws && Unclaimed(cx, c, NextBreaking(ws[c].version))
  }

  // ----- what the guards name once a set is raised -----

  /** A set of crates the run may raise: they may be published, and have free successors. */
  ghost predicate Raisable(cx: Context, ws: Workspace, raised: set<Crate>) {
    forall c :: c in raised ==>
      && c in ws && ws[c].publishable && Unclaimed(cx, c, NextBreaking(ws[c].version))
      && (c in cx.reg ==> Releasing(ws, cx.reg))
  }

  lemma ReleasingKept(cx: Context, ws: Workspace, raised: set<Crate>)
    requires Raisable(cx, ws, raised)
    ensures Releasing(RaiseAll(ws, raised), cx.reg) <==> Releasing(ws, cx.reg)
  {
    var w := RaiseAll(ws, raised);
    if Releasing(ws, cx.reg) {
      var c :| c in ws && c in cx.reg && Proposed(ws, cx.reg, c);
      assert Proposed(w, cx.reg, c);
    }
    if Releasing(w, cx.reg) {
      var c :| c in w && c in cx.reg && Proposed(w, cx.reg, c);
      if c !in raised { assert Proposed(ws, cx.reg, c); }
    }
  }

  /** A raised crate sits at a free floor, where no guard names it. */
  lemma RaisedIsNotNamed(cx: Context, ws: Workspace, raised: set<Crate>, c: Crate)
    requires Raisable(cx, ws, raised) && c in raised
    ensures !IsNamed(cx, RaiseAll(ws, raised), c)
  {
    var w := RaiseAll(ws, raised);
    var v := w[c].version;
    RaiseSheds(cx, c, ws[c].version);
    if TooSmall(w, cx.reg, c) {
      var b :| IsBaseline(cx.reg[c], v, b) && Compat(b) == Compat(v);
      FloorIsLeast(v);
    }
  }

  /** Being named without owning a line is being compared and having moved. */
  lemma NamedByComparison(cx: Context, ws: Workspace, c: Crate)
    requires c in ws && !InOwnedLine(ws, cx.reg, cx.manifests, cx.own, c)
    ensures IsNamed(cx, ws, c) <==>
            exists b :: Compared(cx, ws, c, b) && HasMoved(ws[c].deps, ws.Keys, cx.reg[c][b].deps)
  {
    if TooSmall(ws, cx.reg, c) {
      var b :| IsBaseline(cx.reg[c], ws[c].version, b) && Compat(b) == Compat(ws[c].version)
               && HasMoved(ws[c].deps, ws.Keys, cx.reg[c][b].deps);
      assert Compared(cx, ws, c, b);
    }
    if Releasing(ws, cx.reg) && Stale(ws, cx.reg, c) {
      assert Compared(cx, ws, c, ws[c].version);
    }
  }

  /** Raising others changes nothing about what a crate is compared with. */
  lemma ComparedKept(cx: Context, ws: Workspace, raised: set<Crate>, c: Crate, b: Version)
    requires Raisable(cx, ws, raised) && c !in raised
    ensures Compared(cx, RaiseAll(ws, raised), c, b) <==> Compared(cx, ws, c, b)
  {
    ReleasingKept(cx, ws, raised);
  }

  /** A requirement moved after the raise: it had moved before, or its crate was raised and drags. */
  lemma MovedAfter(cx: Context, ws: Workspace, raised: set<Crate>, c: Crate, b: Version)
    requires Compared(cx, ws, c, b) && raised <= ws.Keys
    requires !HasMoved(ws[c].deps, ws.Keys, cx.reg[c][b].deps)
    ensures HasMoved(RaiseAll(ws, raised)[c].deps, ws.Keys, cx.reg[c][b].deps) <==>
            exists d, i :: d in raised && DragsAt(cx, ws, d, c, b, i)
  {
    var base := BaseReqs(cx.reg[c][b].deps, ws.Keys);
    var before, after := ws[c].deps, RaiseAll(ws, raised)[c].deps;
    forall i | 0 <= i < |before| && Counts(before[i], ws.Keys)
      ensures Moves(after[i], base) <==> before[i].name in raised && DragsAt(cx, ws, before[i].name, c, b, i)
    {
      assert !Moves(before[i], base);
    }
    if d, i :| d in raised && DragsAt(cx, ws, d, c, b, i) {
      assert Counts(after[i], ws.Keys) && Moves(after[i], base);
    }
    if HasMoved(after, ws.Keys, cx.reg[c][b].deps) {
      var i :| 0 <= i < |after| && Counts(after[i], ws.Keys) && Moves(after[i], base);
      assert before[i].name in raised && DragsAt(cx, ws, before[i].name, c, b, i);
    }
  }

  /** A crate that was not named and not raised is named after the raise exactly when a raised one drags it. */
  lemma NamedAfter(cx: Context, ws: Workspace, raised: set<Crate>, c: Crate)
    requires Raisable(cx, ws, raised) && c in ws && c !in raised && !IsNamed(cx, ws, c)
    ensures IsNamed(cx, RaiseAll(ws, raised), c) <==> c in Next(DragEdges(cx, ws), raised)
  {
    var w := RaiseAll(ws, raised);
    NamedByComparison(cx, ws, c);
    NamedByComparison(cx, w, c);
    forall b | Compared(cx, ws, c, b)
      ensures HasMoved(w[c].deps, ws.Keys, cx.reg[c][b].deps) <==> exists d, i :: d in raised && DragsAt(cx, ws, d, c, b, i)
    {
      MovedAfter(cx, ws, raised, c, b);
    }
    assert w.Keys == ws.Keys;
    forall b
      ensures Compared(cx, w, c, b) <==> Compared(cx, ws, c, b)
    {
      ComparedKept(cx, ws, raised, c, b);
    }
    if e :| e in DragEdges(cx, ws) && e.0 in raised && e.1 == c {
      var b, i :| Compared(cx, ws, c, b) && DragsAt(cx, ws, e.0, c, b, i);
      assert HasMoved(w[c].deps, ws.Keys, cx.reg[c][b].deps);
    }
    if IsNamed(cx, w, c) {
      var b :| Compared(cx, w, c, b) && HasMoved(w[c].deps, w.Keys, cx.reg[c][b].deps);
      var d, i :| d in raised && DragsAt(cx, ws, d, c, b, i);
      assert Drags(cx, ws, d, c);
      assert (d, c) in DragEdges(cx, ws);
    }
  }

  /** With everything named at the start raised, the guards name what the raised set drags and has not raised. */
  lemma NamedIsDragged(cx: Context, ws: Workspace, raised: set<Crate>)
    requires Raisable(cx, ws, raised) && Named(cx, ws) <= raised
    ensures Named(cx, RaiseAll(ws, raised)) == Next(DragEdges(cx, ws), raised) - raised
  {
    forall c | c in ws
      ensures IsNamed(cx, RaiseAll(ws, raised), c) <==> c in Next(DragEdges(cx, ws), raised) - raised
    {
      if c in raised {
        RaisedIsNotNamed(cx, ws, raised, c);
      } else {
        assert c !in Named(cx, ws);
        NamedAfter(cx, ws, raised, c);
      }
    }
  }

  // ----- the rounds in closed form -----

  lemma RaiseBoth(ws: Workspace, a: set<Crate>, b: set<Crate>)
    requires a !! b
    ensures RaiseAll(RaiseAll(ws, a), b) == RaiseAll(ws, a + b)
  {
    var l, r := RaiseAll(RaiseAll(ws, a), b), RaiseAll(ws, a + b);
    forall c | c in ws
      ensures l[c] == r[c]
    {
      assert l[c].deps == r[c].deps;
    }
  }

  lemma {:induction false} ReachIsRaisable(cx: Context, ws: Workspace, k: nat)
    requires SuccessorsUnclaimed(cx, ws)
    ensures Raisable(cx, ws, Reach(cx, ws, k))
  {
    forall c | c in Reach(cx, ws, k)
      ensures && c in ws && ws[c].publishable && Unclaimed(cx, c, NextBreaking(ws[c].version))
              && (c in cx.reg ==> Releasing(ws, cx.reg))
    {
      assert IsReached(cx, ws, k, c);
      ReachedIsReleasable(cx, ws, k, c);
    }
  }

  lemma {:induction false} ReachedIsReleasable(cx: Context, ws: Workspace, k: nat, c: Crate)
    requires c in Reach(cx, ws, k)
    ensures c in ws && ws[c].publishable && (c in cx.reg ==> Releasing(ws, cx.reg))
  {
    if k > 0 {
      if c in Reach(cx, ws, k - 1) {
        ReachedIsReleasable(cx, ws, k - 1, c);
      } else {
        var e :| e in DragEdges(cx, ws) && e.1 == c;
      }
    }
  }

  /** The crates at distances up to `k` and `k + 1`, and those the guards name after `k + 1` rounds. */
  lemma {:induction false} Frontier(cx: Context, ws: Workspace, k: nat)
    returns (near: set<Crate>, far: set<Crate>, named: set<Crate>)
    requires SuccessorsUnclaimed(cx, ws)
    ensures near == Reach(cx, ws, k) && far == Reach(cx, ws, k + 1)
    ensures Rounds(cx, ws, k + 1) == RaiseAll(ws, near)
    ensures named == Named(cx, Rounds(cx, ws, k + 1)) && named == far - near && near <= far
    decreases k, 1
  {
    near, far := Reach(cx, ws, k), Reach(cx, ws, k + 1);
    ReachIsRaisable(cx, ws, k);
    WithinGrows(Named(cx, ws), DragEdges(cx, ws), 0, k);
    RoundsSoFar(cx, ws, k, near);
    NamedIsDragged(cx, ws, near);
    named := Named(cx, RaiseAll(ws, near));
  }

  lemma {:induction false} RoundsSoFar(cx: Context, ws: Workspace, k: nat, near: set<Crate>)
    requires SuccessorsUnclaimed(cx, ws) && near == Reach(cx, ws, k)
    ensures Rounds(cx, ws, k + 1) == RaiseAll(ws, near)
    decreases k, 0
  {
    if k == 0 {
      assert Rounds(cx, ws, 0) == ws;
    } else {
      var before, after, named := Frontier(cx, ws, k - 1);
      RaiseBoth(ws, before, named);
      assert before + named == near;
    }
  }

  /**
   After k + 1 rounds the checkout is the first one with everything within k
   drags raised, and the guards name what is one drag further.
   */
  lemma RoundsRaiseTheReach(cx: Context, ws: Workspace, k: nat)
    requires SuccessorsUnclaimed(cx, ws)
    ensures Rounds(cx, ws, k + 1) == RaiseAll(ws, Reach(cx, ws, k))
    ensures Named(cx, Rounds(cx, ws, k + 1)) == Reach(cx, ws, k + 1) - Reach(cx, ws, k)
  {
    var near, far, named := Frontier(cx, ws, k);
  }

  // ----- named once -----

  lemma NamedIsReached(cx: Context, ws: Workspace, i: nat, c: Crate)
    requires SuccessorsUnclaimed(cx, ws) && c in Named(cx, Rounds(cx, ws, i))
    ensures c in Reach(cx, ws, i)
  {
    if i > 0 {
      var near, far, named := Frontier(cx, ws, i - 1);
    }
  }

  lemma ReachedIsNotNamed(cx: Context, ws: Workspace, i: nat, k: nat, c: Crate)
    requires SuccessorsUnclaimed(cx, ws) && i <= k && c in Reach(cx, ws, i)
    ensures c !in Named(cx, Rounds(cx, ws, k + 1))
  {
    ReachGrows(cx, ws, i, k, c);
    NamedLater(cx, ws, c, k);
  }

  lemma ReachGrows(cx: Context, ws: Workspace, i: nat, j: nat, c: Crate)
    requires i <= j && c in Reach(cx, ws, i)
    ensures c in Reach(cx, ws, j)
  {
    WithinGrows(Named(cx, ws), DragEdges(cx, ws), i, j);
  }

  /** A crate that was raised is never named again. */
  lemma RaiseSettles(cx: Context, ws: Workspace, i: nat, k: nat, c: Crate)
    requires SuccessorsUnclaimed(cx, ws) && i <= k && c in Named(cx, Rounds(cx, ws, i))
    ensures c !in Named(cx, Rounds(cx, ws, k + 1))
  {
    NamedIsReached(cx, ws, i, c);
    ReachedIsNotNamed(cx, ws, i, k, c);
  }

  lemma UnclaimedNamesOnce(cx: Context, ws: Workspace)
    requires SuccessorsUnclaimed(cx, ws)
    ensures NamedOnce(cx, ws)
  {
    forall i: nat, j: nat, c | i < j && NamedIn(cx, ws, i, c)
      ensures !NamedIn(cx, ws, j, c)
    {
      var k := j - 1;
      RaiseSettles(cx, ws, i, k, c);
      assert j == k + 1;
    }
  }

  // ----- the distance is the round -----

  lemma NamedLater(cx: Context, ws: Workspace, c: Crate, k: nat)
    requires SuccessorsUnclaimed(cx, ws)
    ensures c in Named(cx, Rounds(cx, ws, k + 1)) <==> c in Reach(cx, ws, k + 1) && c !in Reach(cx, ws, k)
  {
    var near, far, named := Frontier(cx, ws, k);
  }

  /** A crate is named in round `k` exactly when its shortest drag path has `k` drags. */
  lemma NamedAtItsDistance(cx: Context, ws: Workspace, c: Crate, k: nat)
    requires SuccessorsUnclaimed(cx, ws)
    ensures var seeds, edges := Named(cx, ws), DragEdges(cx, ws);
            c in Named(cx, Rounds(cx, ws, k)) <==>
            AtDistance(seeds, edges, c, k) && (k > 0 ==> !AtDistance(seeds, edges, c, k - 1))
  {
    ReachIsDistance(cx, ws, c, k);
    if k > 0 {
      NamedLater(cx, ws, c, k - 1);
      ReachIsDistance(cx, ws, c, k - 1);
    }
  }

  lemma ReachIsDistance(cx: Context, ws: Workspace, c: Crate, k: nat)
    ensures c in Reach(cx, ws, k) <==> AtDistance(Named(cx, ws), DragEdges(cx, ws), c, k)
  {
    WithinIsDistance(Named(cx, ws), DragEdges(cx, ws), c, k);
  }

  // ----- the cap -----

  /** `k + 1` rounds leave nothing named exactly when no crate is further than `k` drags away. */
  lemma RoundsNeeded(cx: Context, ws: Workspace, k: nat)
    requires SuccessorsUnclaimed(cx, ws)
    ensures Named(cx, Rounds(cx, ws, k + 1)) == {} <==> AllNear(Named(cx, ws), DragEdges(cx, ws), k)
  {
    FrontierEmpty(cx, ws, k);
    ReachEnds(cx, ws, k);
  }

  lemma FrontierEmpty(cx: Context, ws: Workspace, k: nat)
    requires SuccessorsUnclaimed(cx, ws)
    ensures Named(cx, Rounds(cx, ws, k + 1)) == {} <==> Reach(cx, ws, k + 1) == Reach(cx, ws, k)
  {
    var near, far, named := Frontier(cx, ws, k);
    EmptyDifference(near, far, named);
  }

  lemma EmptyDifference(near: set<Crate>, far: set<Crate>, named: set<Crate>)
    requires near <= far && named == far - near
    ensures named == {} <==> far == near
  {
    assert far == near + named;
  }

  lemma ReachEnds(cx: Context, ws: Workspace, k: nat)
    ensures Reach(cx, ws, k + 1) == Reach(cx, ws, k) <==> AllNear(Named(cx, ws), DragEdges(cx, ws), k)
  {
    NothingFurther(Named(cx, ws), DragEdges(cx, ws), k);
  }

  lemma RanOut(cx: Context, ws: Workspace, rounds: nat)
    requires RanFor(cx, ws, rounds)
    ensures rounds < MAX_ROUNDS <==> Named(cx, Rounds(cx, ws, MAX_ROUNDS - 1)) == {}
  {
    if rounds < MAX_ROUNDS {
      NothingNamedStays(cx, ws, rounds, MAX_ROUNDS - 1);
    }
  }

  /**
   The run stays below its cap exactly when every crate the drags reach is at
   most six of them away: at seven the eighth round still raises something, and
   the script gives up after it. Rule 1 reports what it reported at the start.
   */
  lemma CapIsExact(cx: Context, ws: Workspace, rounds: nat)
    requires SuccessorsUnclaimed(cx, ws) && RanFor(cx, ws, rounds)
    ensures rounds < MAX_ROUNDS <==> AllNear(Named(cx, ws), DragEdges(cx, ws), MAX_ROUNDS - 2)
    ensures forall c :: VersionedDev(Rounds(cx, ws, rounds), c) <==> VersionedDev(ws, c)
  {
    RanOut(cx, ws, rounds);
    RoundsNeeded(cx, ws, MAX_ROUNDS - 2);
    forall c {
      DevProblemsKept(cx, ws, rounds, c);
    }
  }

  /** In particular it does when no dependency chain has eight crates. */
  lemma CapSuffices(cx: Context, ws: Workspace, rounds: nat)
    requires SuccessorsUnclaimed(cx, ws)
    requires forall s :: IsChain(ws, s) ==> |s| < MAX_ROUNDS
    requires rounds <= MAX_ROUNDS && (rounds > 0 ==> Named(cx, Rounds(cx, ws, rounds - 1)) != {})
    ensures rounds < MAX_ROUNDS && AllNear(Named(cx, ws), DragEdges(cx, ws), MAX_ROUNDS - 2)
    ensures forall c :: VersionedDev(Rounds(cx, ws, rounds), c) <==> VersionedDev(ws, c)
  {
    UnclaimedNamesOnce(cx, ws);
    RoundsWithinChains(cx, ws, MAX_ROUNDS - 1);
    RoundsNeeded(cx, ws, MAX_ROUNDS - 2);
    forall c {
      DevProblemsKept(cx, ws, rounds, c);
    }
  }
}
