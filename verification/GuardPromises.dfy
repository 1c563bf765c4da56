/**
 What the two release guards promise, said of versions, requirements and
 manifests directly: which trees they pass over in silence, and which crates
 they name.
 */
module GuardPromises {
  import opened Options
  import opened Versions
  import opened ReleaseGuards

  // ----- requirements that moved -----

  /** An ordinary dependency, not one for tests. */
  predicate Ordinary(d: Dep) {
    d.kind == Normal || d.kind == Build
  }

  /** The two entries ask for different compatibility classes of the same crate. */
  predicate Disagree(d: Dep, e: Dep) {
    && d.name == e.name && Ordinary(d) && Ordinary(e) && d.req.Caret? && e.req.Caret?
    && Compat(Pad(d.req.parts)) != Compat(Pad(e.req.parts))
  }

  /** What the table says of a crate is what an entry says of it. */
  lemma {:induction false} TableHasAnEntry(deps: seq<Dep>, members: set<Crate>, name: Crate)
    ensures name in BaseReqs(deps, members) ==>
            exists e :: e in deps && Ordinary(e) && e.name == name && e.req == BaseReqs(deps, members)[name]
    ensures (exists e :: e in deps && Ordinary(e) && e.name == name && Tracked(name, members)) ==> name in BaseReqs(deps, members)
  {
    if deps != [] {
      var n := |deps| - 1;
      TableHasAnEntry(deps[..n], members, name);
      assert deps[n] in deps && forall e :: e in deps ==> e in deps[..n] || e == deps[n];
      if e :| e in deps[..n] && Ordinary(e) && e.name == name && name in BaseReqs(deps[..n], members) && e.req == BaseReqs(deps[..n], members)[name] {
        assert e in deps;
      }
    }
  }

  /** Nothing has moved when no ordinary entry disagrees with a published one on a tracked crate. */
  lemma AgreementHasNotMoved(deps: seq<Dep>, members: set<Crate>, published: seq<Dep>)
    requires forall d, e :: d in deps && e in published && Tracked(d.name, members) ==> !Disagree(d, e)
    ensures !HasMoved(deps, members, published)
  {
    forall i | 0 <= i < |deps| && Counts(deps[i], members)
      ensures !Moves(deps[i], BaseReqs(published, members))
    {
      TableHasAnEntry(published, members, deps[i].name);
    }
  }

  /** Something has when an ordinary entry on a tracked crate disagrees with every published one on it. */
  lemma DisagreementHasMoved(deps: seq<Dep>, members: set<Crate>, published: seq<Dep>, d: Dep)
    requires d in deps && Tracked(d.name, members)
    requires exists e :: e in published && Disagree(d, e)
    requires forall e :: e in published && Ordinary(e) && e.name == d.name ==> Disagree(d, e)
    ensures HasMoved(deps, members, published)
  {
    var i :| 0 <= i < |deps| && deps[i] == d;
    TableHasAnEntry(published, members, d.name);
    assert Counts(deps[i], members) && Moves(deps[i], BaseReqs(published, members));
  }

  // ----- rule 2 -----

  /** A tree that proposes no new version of a crate already published is no release, and rule 2 has nothing to say of it. */
  lemma FeatureBranchIsSilent(ws: Workspace, reg: Registry, c: Crate)
    requires forall x :: x in ws && ws[x].publishable && x in reg ==> ws[x].version in reg[x]
    ensures !Releasing(ws, reg) && !TooSmall(ws, reg, c)
  {
  }

  /** One new version of a published crate makes it a release; a crate never published does not. */
  lemma ReleasesByPublishedCrates(ws: Workspace, reg: Registry)
    ensures Releasing(ws, reg) <==> exists c :: c in ws && ws[c].publishable && c in reg && ws[c].version !in reg[c]
  {
    if c :| c in ws && ws[c].publishable && c in reg && ws[c].version !in reg[c] {
      assert Proposed(ws, reg, c);
    }
  }

  lemma FirstReleaseIsSilent(ws: Workspace, reg: Registry, c: Crate)
    requires c !in reg
    ensures !TooSmall(ws, reg, c) && !Stale(ws, reg, c)
  {
  }

  /** A breaking bump may move anything: no live version below it is in its class. */
  lemma BreakingBumpIsSilent(ws: Workspace, reg: Registry, c: Crate)
    requires c in ws && c in reg
    requires forall u :: u in reg[c] && !reg[c][u].yanked && Less(u, ws[c].version) ==> Compat(u) != Compat(ws[c].version)
    ensures !TooSmall(ws, reg, c)
  {
  }

  /** The newest live version below decides. When it is in the class and the floors disagree, the crate is named. */
  lemma SmallBumpIsNamed(ws: Workspace, reg: Registry, c: Crate, b: Version, d: Dep)
    requires c in ws && ws[c].publishable && c in reg && ws[c].version !in reg[c]
    requires b in reg[c] && !reg[c][b].yanked && Less(b, ws[c].version) && Compat(b) == Compat(ws[c].version)
    requires forall u :: u in reg[c] && !reg[c][u].yanked && Less(u, ws[c].version) ==> AtMost(u, b)
    requires d in ws[c].deps && Tracked(d.name, ws.Keys) && exists e :: e in reg[c][b].deps && Disagree(d, e)
    requires forall e :: e in reg[c][b].deps && Ordinary(e) && e.name == d.name ==> Disagree(d, e)
    ensures TooSmall(ws, reg, c)
  {
    DisagreementHasMoved(ws[c].deps, ws.Keys, reg[c][b].deps, d);
    assert IsBaseline(reg[c], ws[c].version, b);
  }

  /** When no floor disagrees with it, the crate is not. */
  lemma SmallBumpWithSameFloors(ws: Workspace, reg: Registry, c: Crate, b: Version)
    requires c in ws && c in reg && IsBaseline(reg[c], ws[c].version, b)
    requires forall d, e :: d in ws[c].deps && e in reg[c][b].deps && Tracked(d.name, ws.Keys) ==> !Disagree(d, e)
    ensures !TooSmall(ws, reg, c)
  {
    AgreementHasNotMoved(ws[c].deps, ws.Keys, reg[c][b].deps);
    BaselineUnique(reg[c], ws[c].version, b);
  }

  // ----- rule 3 -----

  /** A published version, yanked or not, whose manifest's floors disagree with the release is stale; with none, it is not. */
  lemma StaleByDisagreement(ws: Workspace, reg: Registry, c: Crate, d: Dep)
    requires c in ws && ws[c].publishable && c in reg && ws[c].version in reg[c]
    requires d in ws[c].deps && Tracked(d.name, ws.Keys) && exists e :: e in reg[c][ws[c].version].deps && Disagree(d, e)
    requires forall e :: e in reg[c][ws[c].version].deps && Ordinary(e) && e.name == d.name ==> Disagree(d, e)
    ensures Stale(ws, reg, c)
  {
    DisagreementHasMoved(ws[c].deps, ws.Keys, reg[c][ws[c].version].deps, d);
  }

  lemma NotStaleByAgreement(ws: Workspace, reg: Registry, c: Crate)
    requires c in ws && c in reg && ws[c].version in reg[c]
    requires forall d, e :: d in ws[c].deps && e in reg[c][ws[c].version].deps && Tracked(d.name, ws.Keys) ==> !Disagree(d, e)
    ensures !Stale(ws, reg, c)
  {
    AgreementHasNotMoved(ws[c].deps, ws.Keys, reg[c][ws[c].version].deps);
  }

  /** A version that is not published is rule 2's, one that is published rule 3's; an unpublishable member is nobody's. */
  lemma OneRuleEach(ws: Workspace, reg: Registry, c: Crate)
    ensures TooSmall(ws, reg, c) ==> !Stale(ws, reg, c)
    ensures c in ws && !ws[c].publishable ==> !TooSmall(ws, reg, c) && !Stale(ws, reg, c)
  {
  }

  // ----- line ownership -----

  /** A new version in the class of what another release was cut with is named. */
  lemma OwnedLineIsNamed(ws: Workspace, reg: Registry, ms: seq<Manifest>, own: Option<string>, c: Crate, i: nat)
    requires c in ws && ws[c].publishable && (c in reg ==> ws[c].version !in reg[c])
    requires i < |ms| && own != Some(ms[i].release) && c in ms[i].crates && Compat(ms[i].crates[c]) == Compat(ws[c].version)
    ensures InOwnedLine(ws, reg, ms, own, c)
  {
    assert ms[i].crates[c] in OwnedCuts(ms, own, c);
  }

  /** One that no other release was cut with is not: a branch patches its own lines freely. */
  lemma OwnLineIsFree(ws: Workspace, reg: Registry, ms: seq<Manifest>, own: Option<string>, c: Crate)
    requires c in ws
    requires forall i :: 0 <= i < |ms| && c in ms[i].crates && Compat(ms[i].crates[c]) == Compat(ws[c].version) ==> own == Some(ms[i].release)
    ensures !InOwnedLine(ws, reg, ms, own, c)
  {
  }

  /** What is published already is not asked about, nor what is never published. */
  lemma PublishedIsFree(ws: Workspace, reg: Registry, ms: seq<Manifest>, own: Option<string>, c: Crate)
    requires c in ws && (!ws[c].publishable || (c in reg && ws[c].version in reg[c]))
    ensures !InOwnedLine(ws, reg, ms, own, c)
  {
  }

  /** Members and `trust-tasks-rs` are tracked, and nothing else. */
  lemma TrackedCrates(name: Crate, members: set<Crate>)
    ensures Tracked(name, members) <==> name in members || name == "trust-tasks-rs"
  {
  }
}
