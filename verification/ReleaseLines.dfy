/**
 The release-line protocol: main's releases, cuts of `release/<name>`, the
 merge that records a cut's manifest on main, and branch patches, in any order.
 */
module ReleaseLines {
  import opened Options
  import opened Versions
  import opened ReleaseGuards

  type Name = string
  type Versioned = map<Crate, Version>

  datatype Publisher = Main | Branch(name: Name)

  datatype World = World(
    published: map<(Crate, Version), Publisher>,  // crates.io, and who put it there
    cuts: map<Name, Versioned>,                   // the manifest each release branch carries
    heads: map<Name, Versioned>,                  // the crate versions on each release branch
    recorded: map<Name, Versioned>)               // the manifests merged into main

  datatype Event =
    | MainRelease(versions: Versioned)
    | Cut(name: Name, versions: Versioned)
    | Record(name: Name)
    | Patch(name: Name, changed: set<Crate>)

  // ----- one step; a refused script leaves the world as it was -----

  /** The line of `v` is closed to main by a recorded manifest. */
  predicate Closed(recorded: map<Name, Versioned>, c: Crate, v: Version) {
    exists n :: n in recorded && c in recorded[n] && Compat(recorded[n][c]) == Compat(v)
  }

  predicate MainAllowed(w: World, versions: Versioned) {
    forall c :: c in versions && (c, versions[c]) !in w.published ==> !Closed(w.recorded, c, versions[c])
  }

  predicate CutAllowed(w: World, name: Name, versions: Versioned) {
    && name !in w.cuts && name !in w.recorded
    && forall c :: c in versions ==> (c, versions[c]) in w.published && !Closed(w.recorded, c, versions[c])
  }

  /** A preparation refuses unless every crate version on the branch is published. */
  predicate PatchAllowed(w: World, name: Name) {
    name in w.heads && forall c :: c in w.heads[name] ==> (c, w.heads[name][c]) in w.published
  }

  /** The same registry and manifests, as the guard on main reads them. */
  ghost predicate GuardSees(w: World, reg: Registry, ms: seq<Manifest>) {
    && (forall c, v :: (c, v) in w.published <==> c in reg && v in reg[c])
    && (forall i :: 0 <= i < |ms| ==> ms[i].release in w.recorded && w.recorded[ms[i].release] == ms[i].crates)
    && (forall n :: n in w.recorded ==> exists i :: 0 <= i < |ms| && ms[i].release == n)
  }

  /** Main's step is allowed exactly when `check-release-line-ownership.py` names nothing. */
  lemma MainAllowedIsTheGuard(w: World, ws: Workspace, reg: Registry, ms: seq<Manifest>)
    requires GuardSees(w, reg, ms)
    ensures MainAllowed(w, map c | c in ws && ws[c].publishable :: ws[c].version) <==> forall c :: !InOwnedLine(ws, reg, ms, None, c)
  {
    var versions := map c | c in ws && ws[c].publishable :: ws[c].version;
    forall c
      ensures InOwnedLine(ws, reg, ms, None, c) <==>
              c in versions && (c, versions[c]) !in w.published && Closed(w.recorded, c, versions[c])
    {
      if c in versions { OwnedIsClosed(w, reg, ms, c, versions[c]); }
    }
  }

  lemma OwnedIsClosed(w: World, reg: Registry, ms: seq<Manifest>, c: Crate, v: Version)
    requires GuardSees(w, reg, ms)
    ensures Closed(w.recorded, c, v) <==> exists u :: u in OwnedCuts(ms, None, c) && Compat(u) == Compat(v)
  {
    if n :| n in w.recorded && c in w.recorded[n] && Compat(w.recorded[n][c]) == Compat(v) {
      var i :| 0 <= i < |ms| && ms[i].release == n;
      assert ms[i].crates[c] in OwnedCuts(ms, None, c);
    }
  }

  function Bumped(head: Versioned, changed: set<Crate>): Versioned {
    map c | c in head :: if c in changed then NextPatch(head[c]) else head[c]
  }

  /** A release job publishes the exact versions that are not there yet. */
  function PublishAll(published: map<(Crate, Version), Publisher>, versions: Versioned, who: Publisher)
    : map<(Crate, Version), Publisher>
  {
    (map c | c in versions :: (c, versions[c]) := who) + published
  }

  function Step(w: World, e: Event): World {
    match e
    case MainRelease(versions) =>
      if MainAllowed(w, versions) then w.(published := PublishAll(w.published, versions, Main)) else w
    case Cut(name, versions) =>
      if CutAllowed(w, name, versions)
      then w.(cuts := w.cuts[name := versions], heads := w.heads[name := versions]) else w
    case Record(name) =>
      if name in w.cuts then w.(recorded := w.recorded[name := w.cuts[name]]) else w
    case Patch(name, changed) =>
      if PatchAllowed(w, name)
      then var head := Bumped(w.heads[name], changed);
           w.(heads := w.heads[name := head], published := PublishAll(w.published, head, Branch(name)))
      else w
  }

  function Run(w: World, es: seq<Event>): World
    decreases es
  {
    if es == [] then w else Run(Step(w, es[0]), es[1..])
  }

  // ----- the hypotheses on a run -----

  /** No published version shares `v`'s major and minor with a higher patch number. */
  ghost predicate Free(published: map<(Crate, Version), Publisher>, c: Crate, v: Version) {
    forall u :: (c, u) in published && u.major == v.major && u.minor == v.minor ==> u.patch <= v.patch
  }

  /**
   Every cut is recorded on main before main releases or is cut again, and what
   is cut is the newest patch of its minor version and not at 0.0.z.
   */
  ghost predicate Disciplined(w: World, e: Event) {
    match e
    case MainRelease(_) => w.recorded == w.cuts
    case Cut(_, versions) =>
      w.recorded == w.cuts && forall c :: c in versions ==> Free(w.published, c, versions[c]) && !ZeroZero(versions[c])
    case Record(_) => true
    case Patch(_, _) => true
  }

  ghost predicate AllDisciplined(w: World, es: seq<Event>)
    decreases es
  {
    es == [] || (Disciplined(w, es[0]) && AllDisciplined(Step(w, es[0]), es[1..]))
  }

  // ----- what every reachable world keeps -----

  /** Release `n` was cut with crate `c`, and its manifest is not on main yet. */
  predicate Unrecorded(w: World, n: Name, c: Crate) {
    Owns(w.cuts, n, c) && n !in w.recorded
  }

  /** No new version of main's overtakes the head of a branch main does not know of yet. */
  ghost predicate MainSpares(w: World, versions: Versioned) {
    forall n, c :: Unrecorded(w, n, c) && n in w.heads && c in w.heads[n] && c in versions && (c, versions[c]) !in w.published
                   ==> !Overtakes(versions[c], w.heads[n][c])
  }

  predicate Overtakes(v: Version, head: Version) {
    v.major == head.major && v.minor == head.minor && v.patch > head.patch
  }

  /** The cut shares no line with a release main does not know of yet. */
  ghost predicate CutSpares(w: World, versions: Versioned) {
    forall n, c :: Unrecorded(w, n, c) && c in versions ==> Compat(w.cuts[n][c]) != Compat(versions[c])
  }

  /** What a step must respect, each part of it as weak as it can be (`SparingIsExact`). */
  ghost predicate Sparing(w: World, e: Event) {
    match e
    case MainRelease(versions) => MainAllowed(w, versions) ==> MainSpares(w, versions)
    case Cut(name, versions) =>
      CutAllowed(w, name, versions) ==>
        CutSpares(w, versions) && forall c :: c in versions ==> Free(w.published, c, versions[c]) && !ZeroZero(versions[c])
    case Record(_) => true
    case Patch(_, _) => true
  }

  /** No new version of main's is in the line of a branch main does not know of yet. */
  ghost predicate MainStaysOut(w: World, versions: Versioned) {
    forall n, c :: Unrecorded(w, n, c) && c in versions && (c, versions[c]) !in w.published
                   ==> Compat(versions[c]) != Compat(w.cuts[n][c])
  }

  /** What a step must respect so that owned lines also stay closed to everyone else (`ClearIsExact`). */
  ghost predicate Clear(w: World, e: Event) {
    Sparing(w, e) && (e.MainRelease? && MainAllowed(w, e.versions) ==> MainStaysOut(w, e.versions))
  }

  ghost predicate AllClear(w: World, es: seq<Event>)
    decreases es
  {
    es == [] || (Clear(w, es[0]) && AllClear(Step(w, es[0]), es[1..]))
  }

  ghost predicate AllSparing(w: World, es: seq<Event>)
    decreases es
  {
    es == [] || (Sparing(w, es[0]) && AllSparing(Step(w, es[0]), es[1..]))
  }

  /** The branch's version of a crate: in the line it was cut in, published, and newest of its minor. */
  ghost predicate GoodHead(published: map<(Crate, Version), Publisher>, c: Crate, cut: Version, head: Version) {
    && !ZeroZero(cut) && Compat(head) == Compat(cut) && (c, head) in published && Free(published, c, head)
  }

  /** Release `n` was cut with crate `c`. */
  predicate Owns(cuts: map<Name, Versioned>, n: Name, c: Crate) {
    n in cuts && c in cuts[n]
  }

  ghost predicate LinesDisjoint(cuts: map<Name, Versioned>) {
    forall n, m, c {:trigger Owns(cuts, n, c), Owns(cuts, m, c)} ::
      Owns(cuts, n, c) && Owns(cuts, m, c) && n != m ==> Compat(cuts[n][c]) != Compat(cuts[m][c])
  }

  ghost predicate SameCrates(cuts: map<Name, Versioned>, heads: map<Name, Versioned>) {
    heads.Keys == cuts.Keys && forall n :: n in cuts ==> heads[n].Keys == cuts[n].Keys
  }

  ghost predicate HeadsGood(w: World) {
    && SameCrates(w.cuts, w.heads)
    && forall n, c {:trigger Owns(w.cuts, n, c)} ::
         Owns(w.cuts, n, c) ==> GoodHead(w.published, c, w.cuts[n][c], w.heads[n][c])
  }

  ghost predicate Inv(w: World) {
    && (forall n :: n in w.recorded ==> n in w.cuts && w.recorded[n] == w.cuts[n])
    && LinesDisjoint(w.cuts)
    && HeadsGood(w)
  }

  predicate IsNew(w: World, after: World, c: Crate, v: Version) {
    (c, v) in after.published && (c, v) !in w.published
  }

  /** Anything new in a line some branch owns was published by that branch. */
  ghost predicate OnlyOwnersPublish(w: World, after: World) {
    && (forall k :: k in w.published ==> k in after.published && after.published[k] == w.published[k])
    && (forall n, c, v {:trigger Owns(w.cuts, n, c), IsNew(w, after, c, v)} ::
          Owns(w.cuts, n, c) && IsNew(w, after, c, v) && Compat(v) == Compat(w.cuts[n][c])
          ==> after.published[(c, v)] == Branch(n))
  }

  lemma PublishAllAdds(published: map<(Crate, Version), Publisher>, versions: Versioned, who: Publisher)
    ensures forall c, v :: (c, v) in PublishAll(published, versions, who) <==>
                           (c, v) in published || (c in versions && versions[c] == v)
    ensures forall k :: k in published ==> PublishAll(published, versions, who)[k] == published[k]
    ensures forall k :: k in PublishAll(published, versions, who) && k !in published ==> PublishAll(published, versions, who)[k] == who
  {
    forall c, v
      ensures (c, v) in PublishAll(published, versions, who) <==> (c, v) in published || (c in versions && versions[c] == v)
    {
      if c in versions && versions[c] == v {
        assert (c, versions[c]) in PublishAll(published, versions, who);
      }
    }
  }

  lemma LineNotZero(a: Version, b: Version)
    requires Compat(a) == Compat(b)
    ensures ZeroZero(a) <==> ZeroZero(b)
  {
    assert Compat(a)[0] == a.major && Compat(b)[0] == b.major;
  }

  /** A branch version stays good exactly when nothing new overtakes it. */
  lemma HeadKept(w: World, after: World, c: Crate, cut: Version, head: Version)
    requires GoodHead(w.published, c, cut, head) && (c, head) in after.published
    requires forall k :: k in w.published ==> k in after.published
    ensures GoodHead(after.published, c, cut, head) <==> forall v :: IsNew(w, after, c, v) ==> !Overtakes(v, head)
  {
    if forall v :: IsNew(w, after, c, v) ==> !Overtakes(v, head) {
      forall u | (c, u) in after.published && u.major == head.major && u.minor == head.minor
        ensures u.patch <= head.patch
      {
        assert (c, u) in w.published || IsNew(w, after, c, u);
      }
    }
  }

  /** What is not in the line of the cut does not overtake its branch. */
  lemma OtherLineSpares(cut: Version, head: Version, v: Version)
    requires Compat(head) == Compat(cut) && Compat(v) != Compat(cut) && !ZeroZero(cut)
    ensures !Overtakes(v, head)
  {
    LineNotZero(cut, head);
  }

  /** Main publishes nothing into a line that is recorded. */
  lemma MainAvoidsLines(w: World, versions: Versioned, n: Name, c: Crate, v: Version)
    requires Inv(w) && MainAllowed(w, versions) && Owns(w.cuts, n, c) && n in w.recorded
    requires IsNew(w, Step(w, MainRelease(versions)), c, v)
    ensures Compat(v) != Compat(w.cuts[n][c])
  {
    PublishAllAdds(w.published, versions, Main);
    assert !Closed(w.recorded, c, v);
  }

  lemma MainKeepsHead(w: World, versions: Versioned, n: Name, c: Crate)
    requires Inv(w) && MainAllowed(w, versions) && Owns(w.cuts, n, c)
    ensures var after := Step(w, MainRelease(versions));
            GoodHead(after.published, c, w.cuts[n][c], w.heads[n][c]) <==>
            (n !in w.recorded && c in versions && (c, versions[c]) !in w.published ==> !Overtakes(versions[c], w.heads[n][c]))
  {
    var after := Step(w, MainRelease(versions));
    var cut, head := w.cuts[n][c], w.heads[n][c];
    PublishAllAdds(w.published, versions, Main);
    HeadKept(w, after, c, cut, head);
    forall v | IsNew(w, after, c, v)
      ensures c in versions && v == versions[c] && (n in w.recorded ==> !Overtakes(v, head))
    {
      if n in w.recorded {
        MainAvoidsLines(w, versions, n, c, v);
        OtherLineSpares(cut, head, v);
      }
    }
    assert c in versions && (c, versions[c]) !in w.published ==> IsNew(w, after, c, versions[c]);
  }

  /**
   A release main is allowed keeps every branch patchable exactly when no new
   version has the major and minor of an unrecorded branch's head and a higher
   patch number.
   */
  lemma MainIsExact(w: World, versions: Versioned)
    requires Inv(w) && MainAllowed(w, versions)
    ensures HeadsGood(Step(w, MainRelease(versions))) <==> MainSpares(w, versions)
  {
    var after := Step(w, MainRelease(versions));
    forall n, c | Owns(w.cuts, n, c)
      ensures GoodHead(after.published, c, w.cuts[n][c], w.heads[n][c]) <==>
              (n !in w.recorded && c in versions && (c, versions[c]) !in w.published ==> !Overtakes(versions[c], w.heads[n][c]))
    {
      MainKeepsHead(w, versions, n, c);
    }
  }

  lemma CutIsApart(w: World, versions: Versioned, n: Name, c: Crate)
    requires Inv(w) && CutSpares(w, versions) && c in versions && Owns(w.cuts, n, c)
    requires !Closed(w.recorded, c, versions[c])
    ensures Compat(versions[c]) != Compat(w.cuts[n][c])
  {
    if n !in w.recorded { assert Unrecorded(w, n, c); }
  }

  /** A cut that is allowed keeps the lines disjoint exactly when it shares none with an unrecorded cut. */
  lemma CutIsExact(w: World, name: Name, versions: Versioned)
    requires Inv(w) && CutAllowed(w, name, versions)
    ensures LinesDisjoint(Step(w, Cut(name, versions)).cuts) <==> CutSpares(w, versions)
  {
    var cuts := w.cuts[name := versions];
    if CutSpares(w, versions) {
      forall n, m, c | Owns(cuts, n, c) && Owns(cuts, m, c) && n != m
        ensures Compat(cuts[n][c]) != Compat(cuts[m][c])
      {
        assert n != name ==> Owns(w.cuts, n, c);
        assert m != name ==> Owns(w.cuts, m, c);
        if n == name { CutIsApart(w, versions, m, c); }
        if m == name { CutIsApart(w, versions, n, c); }
      }
    } else {
      var n, c :| Unrecorded(w, n, c) && c in versions && Compat(w.cuts[n][c]) == Compat(versions[c]);
      assert Owns(cuts, n, c) && Owns(cuts, name, c);
    }
  }

  /** The heads after a cut are good exactly when what is cut is newest in its minor and not at 0.0.z. */
  lemma CutKeepsHeads(w: World, name: Name, versions: Versioned)
    requires Inv(w) && CutAllowed(w, name, versions)
    ensures HeadsGood(Step(w, Cut(name, versions))) <==>
            forall c :: c in versions ==> Free(w.published, c, versions[c]) && !ZeroZero(versions[c])
  {
    var after := Step(w, Cut(name, versions));
    CutKeepsCrates(w, name, versions);
    forall n, c | Owns(after.cuts, n, c)
      ensures GoodHead(after.published, c, after.cuts[n][c], after.heads[n][c]) <==>
              (n == name ==> Free(w.published, c, versions[c]) && !ZeroZero(versions[c]))
    {
      CutKeepsHead(w, name, versions, n, c);
    }
    assert forall c :: c in versions ==> Owns(after.cuts, name, c);
  }

  lemma CutKeepsCrates(w: World, name: Name, versions: Versioned)
    requires Inv(w) && CutAllowed(w, name, versions)
    ensures var after := Step(w, Cut(name, versions)); SameCrates(after.cuts, after.heads)
  {
  }

  lemma CutKeepsHead(w: World, name: Name, versions: Versioned, n: Name, c: Crate)
    requires Inv(w) && CutAllowed(w, name, versions) && Owns(Step(w, Cut(name, versions)).cuts, n, c)
    ensures var after := Step(w, Cut(name, versions));
            n in after.heads && c in after.heads[n] && (n == name ==> c in versions)
    ensures var after := Step(w, Cut(name, versions));
            GoodHead(after.published, c, after.cuts[n][c], after.heads[n][c]) <==>
            (n == name ==> Free(w.published, c, versions[c]) && !ZeroZero(versions[c]))
  {
    if n != name { assert Owns(w.cuts, n, c); }
  }

  /** A preparation keeps every branch version in its line. */
  lemma BumpedInLine(w: World, name: Name, changed: set<Crate>, c: Crate)
    requires Inv(w) && Owns(w.cuts, name, c)
    ensures Compat(Bumped(w.heads[name], changed)[c]) == Compat(w.cuts[name][c])
  {
    LineNotZero(w.cuts[name][c], w.heads[name][c]);
    NextPatchStays(w.heads[name][c]);
  }

  /** Nothing a preparation publishes is in another branch's line. */
  lemma PatchAvoidsOthers(w: World, name: Name, changed: set<Crate>, n: Name, c: Crate, v: Version)
    requires Inv(w) && PatchAllowed(w, name) && Owns(w.cuts, n, c)
    requires IsNew(w, Step(w, Patch(name, changed)), c, v)
    ensures v == Bumped(w.heads[name], changed)[c] && (n != name ==> Compat(v) != Compat(w.cuts[n][c]))
  {
    PublishAllAdds(w.published, Bumped(w.heads[name], changed), Branch(name));
    assert Owns(w.cuts, name, c);
    BumpedInLine(w, name, changed, c);
  }

  lemma PatchKeepsHead(w: World, name: Name, changed: set<Crate>, n: Name, c: Crate)
    requires Inv(w) && PatchAllowed(w, name) && Owns(w.cuts, n, c)
    ensures var after := Step(w, Patch(name, changed));
            GoodHead(after.published, c, w.cuts[n][c], after.heads[n][c])
  {
    var after := Step(w, Patch(name, changed));
    PublishAllAdds(w.published, Bumped(w.heads[name], changed), Branch(name));
    forall v | IsNew(w, after, c, v)
      ensures v == Bumped(w.heads[name], changed)[c] && (n != name ==> Compat(v) != Compat(w.cuts[n][c]))
    {
      PatchAvoidsOthers(w, name, changed, n, c, v);
    }
    if n != name {
      forall v | IsNew(w, after, c, v)
        ensures !Overtakes(v, w.heads[n][c])
      {
        OtherLineSpares(w.cuts[n][c], w.heads[n][c], v);
      }
      HeadKept(w, after, c, w.cuts[n][c], w.heads[n][c]);
    } else {
      BumpedInLine(w, name, changed, c);
      BumpedIsFree(w, after, c, w.heads[n][c], after.heads[n][c]);
    }
  }

  lemma BumpedIsFree(w: World, after: World, c: Crate, head: Version, bumped: Version)
    requires Free(w.published, c, head) && (bumped == head || bumped == NextPatch(head))
    requires forall v :: IsNew(w, after, c, v) ==> v == bumped
    ensures Free(after.published, c, bumped)
  {
    forall u | (c, u) in after.published && u.major == bumped.major && u.minor == bumped.minor
      ensures u.patch <= bumped.patch
    {
      assert (c, u) in w.published || IsNew(w, after, c, u);
    }
  }

  lemma PatchKeepsInv(w: World, name: Name, changed: set<Crate>)
    requires Inv(w) && PatchAllowed(w, name)
    ensures Inv(Step(w, Patch(name, changed)))
    ensures OnlyOwnersPublish(w, Step(w, Patch(name, changed)))
  {
    var after := Step(w, Patch(name, changed));
    PublishAllAdds(w.published, Bumped(w.heads[name], changed), Branch(name));
    forall n, c | Owns(w.cuts, n, c)
      ensures GoodHead(after.published, c, w.cuts[n][c], after.heads[n][c])
    {
      PatchKeepsHead(w, name, changed, n, c);
    }
    forall n, c, v | Owns(w.cuts, n, c) && IsNew(w, after, c, v) && Compat(v) == Compat(w.cuts[n][c])
      ensures after.published[(c, v)] == Branch(n)
    {
      PatchAvoidsOthers(w, name, changed, n, c, v);
    }
  }

  /** A step keeps the invariant exactly when it is sparing: no weaker demand on cuts and releases will do. */
  lemma SparingIsExact(w: World, e: Event)
    requires Inv(w)
    ensures Inv(Step(w, e)) <==> Sparing(w, e)
  {
    match e {
      case MainRelease(versions) => if MainAllowed(w, versions) { MainIsExact(w, versions); }
      case Cut(name, versions) =>
        if CutAllowed(w, name, versions) {
          CutIsExact(w, name, versions);
          CutKeepsHeads(w, name, versions);
        }
      case Record(name) =>
      case Patch(name, changed) => if PatchAllowed(w, name) { PatchKeepsInv(w, name, changed); }
    }
  }

  lemma NewInLine(w: World, versions: Versioned, n: Name, c: Crate, v: Version)
    requires Inv(w) && MainAllowed(w, versions) && Owns(w.cuts, n, c)
    requires IsNew(w, Step(w, MainRelease(versions)), c, v) && Compat(v) == Compat(w.cuts[n][c])
    ensures n !in w.recorded && c in versions && v == versions[c]
    ensures Step(w, MainRelease(versions)).published[(c, v)] == Main
  {
    PublishAllAdds(w.published, versions, Main);
    if n in w.recorded { MainAvoidsLines(w, versions, n, c, v); }
  }

  /** A release main is allowed publishes into no owned line exactly when it stays out of the unrecorded ones. */
  lemma MainOwnsNothing(w: World, versions: Versioned)
    requires Inv(w) && MainAllowed(w, versions)
    ensures OnlyOwnersPublish(w, Step(w, MainRelease(versions))) <==> MainStaysOut(w, versions)
  {
    var after := Step(w, MainRelease(versions));
    PublishAllAdds(w.published, versions, Main);
    forall n, c, v | Owns(w.cuts, n, c) && IsNew(w, after, c, v) && Compat(v) == Compat(w.cuts[n][c])
      ensures Unrecorded(w, n, c) && c in versions && v == versions[c] && after.published[(c, v)] == Main
    {
      NewInLine(w, versions, n, c, v);
    }
    forall n, c | Unrecorded(w, n, c) && c in versions && (c, versions[c]) !in w.published
      ensures IsNew(w, after, c, versions[c])
    {
    }
  }

  /** A step keeps the invariant and every owned line closed to others exactly when it is clear. */
  lemma ClearIsExact(w: World, e: Event)
    requires Inv(w)
    ensures Inv(Step(w, e)) && OnlyOwnersPublish(w, Step(w, e)) <==> Clear(w, e)
  {
    SparingIsExact(w, e);
    match e {
      case MainRelease(versions) => if MainAllowed(w, versions) { MainOwnsNothing(w, versions); }
      case Cut(_, _) =>
      case Record(_) =>
      case Patch(name, changed) => if PatchAllowed(w, name) { PatchKeepsInv(w, name, changed); }
    }
  }

  /** Recording every cut before main moves on is one way to be clear. */
  lemma DisciplinedIsClear(w: World, e: Event)
    requires Inv(w) && Disciplined(w, e)
    ensures Clear(w, e)
  {
  }

  /** One step of a disciplined run keeps the invariant and publishes only where it may. */
  lemma StepKeepsInv(w: World, e: Event)
    requires Inv(w) && Disciplined(w, e)
    ensures Inv(Step(w, e)) && OnlyOwnersPublish(w, Step(w, e))
  {
    DisciplinedIsClear(w, e);
    ClearIsExact(w, e);
  }

  /** So what is proved of sparing and of clear runs holds of disciplined ones. */
  lemma {:induction false} DisciplinedRuns(w: World, es: seq<Event>)
    requires Inv(w) && AllDisciplined(w, es)
    ensures AllSparing(w, es) && AllClear(w, es)
    decreases es
  {
    if es != [] {
      DisciplinedIsClear(w, es[0]);
      SparingIsExact(w, es[0]);
      DisciplinedRuns(Step(w, es[0]), es[1..]);
    }
  }

  lemma {:induction false} RunKeepsInv(w: World, es: seq<Event>)
    requires Inv(w) && AllSparing(w, es)
    ensures Inv(Run(w, es))
    decreases es
  {
    if es != [] {
      SparingIsExact(w, es[0]);
      RunKeepsInv(Step(w, es[0]), es[1..]);
    }
  }

  /** A repository with no release branch yet; main may have published anything. */
  function Initial(published: map<(Crate, Version), Publisher>): World {
    World(published, map[], map[], map[])
  }

  /**
   After any sparing run no two release branches own the same line of a crate,
   every branch can be prepared, and its next patch of any crate is inside its
   own line and not published by anyone.
   */
  lemma BranchesCanPatch(published: map<(Crate, Version), Publisher>, es: seq<Event>)
    requires AllSparing(Initial(published), es)
    ensures var w := Run(Initial(published), es);
            && LinesDisjoint(w.cuts) && w.heads.Keys == w.cuts.Keys
            && (forall n :: n in w.cuts ==> PatchAllowed(w, n))
            && forall n, c :: Owns(w.cuts, n, c) ==>
                 && c in w.heads[n]
                 && Compat(NextPatch(w.heads[n][c])) == Compat(w.cuts[n][c])
                 && (c, NextPatch(w.heads[n][c])) !in w.published
  {
    RunKeepsInv(Initial(published), es);
    var w := Run(Initial(published), es);
    forall n, c | n in w.cuts && c in w.heads[n]
      ensures (c, w.heads[n][c]) in w.published
    {
      assert Owns(w.cuts, n, c);
    }
    forall n, c | Owns(w.cuts, n, c)
      ensures c in w.heads[n]
      ensures Compat(NextPatch(w.heads[n][c])) == Compat(w.cuts[n][c])
      ensures (c, NextPatch(w.heads[n][c])) !in w.published
    {
      assert GoodHead(w.published, c, w.cuts[n][c], w.heads[n][c]);
      LineNotZero(w.cuts[n][c], w.heads[n][c]);
      NextPatchStays(w.heads[n][c]);
    }
  }

  /**
   Once a line is owned, whatever a clear run publishes into it comes
   from its owner, and nothing published is ever replaced.
   */
  lemma {:induction false} LinesStayClosed(w: World, es: seq<Event>)
    requires Inv(w) && AllClear(w, es)
    ensures OnlyOwnersPublish(w, Run(w, es))
    decreases es
  {
    if es != [] {
      var next := Step(w, es[0]);
      ClearIsExact(w, es[0]);
      LinesStayClosed(next, es[1..]);
      CutsKept(w, es[0]);
      ClosedTransitive(w, next, Run(w, es));
    }
  }

  lemma CutsKept(w: World, e: Event)
    ensures forall n :: n in w.cuts ==> n in Step(w, e).cuts && Step(w, e).cuts[n] == w.cuts[n]
  {
  }

  lemma ClosedTransitive(a: World, b: World, c: World)
    requires forall n :: n in a.cuts ==> n in b.cuts && b.cuts[n] == a.cuts[n]
    requires OnlyOwnersPublish(a, b) && OnlyOwnersPublish(b, c)
    ensures OnlyOwnersPublish(a, c)
  {
    forall n, x, v | Owns(a.cuts, n, x) && IsNew(a, c, x, v) && Compat(v) == Compat(a.cuts[n][x])
      ensures c.published[(x, v)] == Branch(n)
    {
      assert Owns(b.cuts, n, x);
      assert IsNew(a, b, x, v) || IsNew(b, c, x, v);
    }
  }

  // ----- the hypotheses are needed -----

  function Patches(name: Name, c: Crate, k: nat): seq<Event> {
    seq(k, _ => Patch(name, {c}))
  }

  lemma {:induction false} PatchesClimb(w: World, name: Name, c: Crate, k: nat)
    requires name in w.heads && c in w.heads[name] && PatchAllowed(w, name)
    ensures var r := Run(w, Patches(name, c, k));
            && name in r.heads && c in r.heads[name]
            && r.heads[name][c] == w.heads[name][c].(patch := w.heads[name][c].patch + k)
            && (forall x :: x in w.published ==> x in r.published)
    decreases k
  {
    if k > 0 {
      var next := Step(w, Patch(name, {c}));
      PublishAllAdds(w.published, Bumped(w.heads[name], {c}), Branch(name));
      assert Patches(name, c, k)[0] == Patch(name, {c});
      assert Patches(name, c, k)[1..] == Patches(name, c, k - 1);
      PatchesClimb(next, name, c, k - 1);
    }
  }

  lemma FreeCutNeverCollides(w: World, name: Name, c: Crate, k: nat)
    requires Inv(w) && Owns(w.cuts, name, c)
    ensures NextIsNew(Run(w, Patches(name, c, k)), name, c)
  {
    PatchesAreSparing(w, name, c, k);
    RunKeepsInv(w, Patches(name, c, k));
    PatchesKeepCuts(w, name, c, k);
    var r := Run(w, Patches(name, c, k));
    assert Owns(r.cuts, name, c);
  }

  lemma StaleCutCollides(w: World, name: Name, c: Crate, u: Version) returns (k: nat)
    requires PatchAllowed(w, name) && c in w.heads[name]
    requires var v := w.heads[name][c]; (c, u) in w.published && u.major == v.major && u.minor == v.minor && u.patch > v.patch
    ensures !NextIsNew(Run(w, Patches(name, c, k)), name, c)
  {
    k := u.patch - w.heads[name][c].patch - 1;
    var r := Climbed(w, name, c, k);
    NextIsTaken(r, name, c, u);
  }

  lemma Climbed(w: World, name: Name, c: Crate, k: nat) returns (r: World)
    requires name in w.heads && c in w.heads[name] && PatchAllowed(w, name)
    ensures r == Run(w, Patches(name, c, k)) && name in r.heads && c in r.heads[name]
    ensures r.heads[name][c] == w.heads[name][c].(patch := w.heads[name][c].patch + k)
    ensures forall x :: x in w.published ==> x in r.published
  {
    PatchesClimb(w, name, c, k);
    r := Run(w, Patches(name, c, k));
  }

  lemma NextIsTaken(r: World, name: Name, c: Crate, u: Version)
    requires name in r.heads && c in r.heads[name] && NextPatch(r.heads[name][c]) == u && (c, u) in r.published
    ensures !NextIsNew(r, name, c)
  {
  }

  /**
   A cut version that is not the newest patch of its minor collides: after some
   number of patches the branch's next version is one already published. So the
   branch can go on patching a crate for ever exactly when the cut was `Free`.
   */
  lemma CutMustBeNewest(w: World, name: Name, versions: Versioned, c: Crate)
    requires Inv(w) && CutAllowed(w, name, versions) && c in versions
    requires CutSpares(w, versions) && forall x :: x in versions ==> !ZeroZero(versions[x])
    requires forall x :: x in versions && x != c ==> Free(w.published, x, versions[x])
    ensures Free(w.published, c, versions[c]) <==>
            forall k :: NextIsNew(Run(Step(w, Cut(name, versions)), Patches(name, c, k)), name, c)
  {
    var cut := Step(w, Cut(name, versions));
    if Free(w.published, c, versions[c]) {
      SparingIsExact(w, Cut(name, versions));
      forall k: nat
        ensures NextIsNew(Run(cut, Patches(name, c, k)), name, c)
      {
        FreeCutNeverCollides(cut, name, c, k);
      }
    } else {
      var v := versions[c];
      var u :| (c, u) in w.published && u.major == v.major && u.minor == v.minor && u.patch > v.patch;
      var k := StaleCutCollides(cut, name, c, u);
    }
  }

  predicate NextIsNew(w: World, name: Name, c: Crate) {
    name in w.heads && c in w.heads[name] && (c, NextPatch(w.heads[name][c])) !in w.published
  }

  lemma {:induction false} PatchesAreSparing(w: World, name: Name, c: Crate, k: nat)
    ensures AllSparing(w, Patches(name, c, k))
    decreases k
  {
    if k > 0 {
      assert Patches(name, c, k)[1..] == Patches(name, c, k - 1);
      PatchesAreSparing(Step(w, Patch(name, {c})), name, c, k - 1);
    }
  }

  lemma {:induction false} PatchesKeepCuts(w: World, name: Name, c: Crate, k: nat)
    ensures Run(w, Patches(name, c, k)).cuts == w.cuts
    decreases k
  {
    if k > 0 {
      assert Patches(name, c, k)[1..] == Patches(name, c, k - 1);
      PatchesKeepCuts(Step(w, Patch(name, {c})), name, c, k - 1);
    }
  }

  /**
   A cut that is not recorded yet closes nothing: the same crates can be cut
   again under another name, and main can still release into their lines.
   */
  lemma UnrecordedCutClosesNothing(w: World, name: Name, other: Name, versions: Versioned, proposal: Versioned)
    requires CutAllowed(w, name, versions) && CutAllowed(w, other, versions) && name != other
    ensures CutAllowed(Step(w, Cut(name, versions)), other, versions)
    ensures var twice := Step(Step(w, Cut(name, versions)), Cut(other, versions));
            versions != map[] ==> !LinesDisjoint(twice.cuts)
    ensures MainAllowed(Step(w, Cut(name, versions)), proposal) <==> MainAllowed(w, proposal)
  {
    var twice := Step(Step(w, Cut(name, versions)), Cut(other, versions));
    if versions != map[] {
      var c :| c in versions;
      assert Owns(twice.cuts, name, c) && Owns(twice.cuts, other, c);
      assert twice.cuts[name][c] == twice.cuts[other][c];
    }
  }

  // ----- a record closes the lines -----

  /** Once its manifest is on main, main can publish nothing new into a line of the release, from whatever world. */
  lemma RecordClosesMain(w: World, name: Name, c: Crate, versions: Versioned)
    requires Owns(w.cuts, name, c) && c in versions && Compat(versions[c]) == Compat(w.cuts[name][c])
    requires (c, versions[c]) !in w.published
    ensures !MainAllowed(Step(w, Record(name)), versions)
    ensures Step(Step(w, Record(name)), MainRelease(versions)) == Step(w, Record(name))
  {
    RecordCloses(w, name, c, versions[c]);
  }

  lemma RecordCloses(w: World, name: Name, c: Crate, v: Version)
    requires Owns(w.cuts, name, c) && Compat(v) == Compat(w.cuts[name][c])
    ensures Closed(Step(w, Record(name)).recorded, c, v)
  {
    var recorded := Step(w, Record(name)).recorded;
    assert name in recorded && recorded[name] == w.cuts[name];
  }

  /** Nor can another release be cut in that line, or the name be used again. */
  lemma RecordClosesCuts(w: World, name: Name, c: Crate, other: Name, versions: Versioned)
    requires Owns(w.cuts, name, c)
    requires other == name || (c in versions && Compat(versions[c]) == Compat(w.cuts[name][c]))
    ensures !CutAllowed(Step(w, Record(name)), other, versions)
  {
    if other != name { RecordCloses(w, name, c, versions[c]); }
  }

  /** A name that a branch or a manifest on main has is never used again. */
  lemma UsedNameIsRefused(w: World, name: Name, versions: Versioned)
    requires name in w.cuts || name in w.recorded
    ensures !CutAllowed(w, name, versions) && Step(w, Cut(name, versions)) == w
  {
  }

  /** A record closes nothing else, and changes neither the branches nor what is published. */
  lemma RecordClosesOnlyItsLines(w: World, name: Name, c: Crate, v: Version)
    requires Owns(w.cuts, name, c) ==> Compat(w.cuts[name][c]) != Compat(v)
    requires name !in w.recorded
    ensures Closed(Step(w, Record(name)).recorded, c, v) <==> Closed(w.recorded, c, v)
    ensures Step(w, Record(name)).(recorded := w.recorded) == w
  {
    var after := Step(w, Record(name));
    if n :| n in w.recorded && c in w.recorded[n] && Compat(w.recorded[n][c]) == Compat(v) {
      assert n in after.recorded && after.recorded[n] == w.recorded[n];
    }
  }

  /** Cutting and recording keep main up to date with the cuts, so a run of releases, cuts and records in turn is disciplined. */
  lemma CutAndRecord(w: World, name: Name, versions: Versioned)
    requires w.recorded == w.cuts
    ensures var after := Step(Step(w, Cut(name, versions)), Record(name));
            after.recorded == after.cuts && (CutAllowed(w, name, versions) ==> name in after.cuts && after.cuts[name] == versions)
  {
  }

  // ----- what a preparation and a release publish -----

  /** A preparation gives the changed crates their next patch, and leaves every other version and branch as it was. */
  lemma PatchMovesTheChanged(w: World, name: Name, changed: set<Crate>, c: Crate)
    requires PatchAllowed(w, name) && c in w.heads[name]
    ensures var after := Step(w, Patch(name, changed));
            && name in after.heads && c in after.heads[name]
            && (c !in changed ==> after.heads[name][c] == w.heads[name][c])
            && (c in changed ==> after.heads[name][c] == w.heads[name][c].(patch := w.heads[name][c].patch + 1))
            && (c, after.heads[name][c]) in after.published
            && after.cuts == w.cuts && after.recorded == w.recorded
            && forall n :: n != name ==> (n in after.heads <==> n in w.heads) && (n in w.heads ==> after.heads[n] == w.heads[n])
  {
    PublishAllAdds(w.published, Bumped(w.heads[name], changed), Branch(name));
  }

  /** A release main is allowed publishes its versions, those there before keep their publisher. */
  lemma ReleasePublishes(w: World, versions: Versioned, c: Crate)
    requires MainAllowed(w, versions) && c in versions
    ensures var after := Step(w, MainRelease(versions));
            && (c, versions[c]) in after.published
            && after.published[(c, versions[c])] == (if (c, versions[c]) in w.published then w.published[(c, versions[c])] else Main)
            && after.(published := w.published) == w
  {
    PublishAllAdds(w.published, versions, Main);
    assert (c, versions[c]) in PublishAll(w.published, versions, Main);
  }

  /** A cut starts a branch at what it was cut with. */
  lemma CutStartsBranch(w: World, name: Name, versions: Versioned)
    requires CutAllowed(w, name, versions)
    ensures var after := Step(w, Cut(name, versions));
            && name in after.cuts && after.cuts[name] == versions && name in after.heads && after.heads[name] == versions
            && PatchAllowed(after, name) && after.published == w.published && after.recorded == w.recorded
  {
  }

  // ----- the scripts -----

  /** `owned_on_main`: the closed lines of each crate, from the manifests on main. */
  method OwnedOnMain(recorded: map<Name, Versioned>) returns (owned: map<Crate, seq<Owned>>)
    ensures forall c, o :: Listed(owned, c, o) <==> exists n :: n in recorded && Records(Manifest(n, recorded[n]), c, o)
  {
    owned := map[];
    var todo := recorded.Keys;
    while todo != {}
      invariant todo <= recorded.Keys
      invariant forall c, o :: Listed(owned, c, o) <==>
                               exists n :: n in recorded && n !in todo && Records(Manifest(n, recorded[n]), c, o)
    {
      var n :| n in todo;
      owned := AddManifest(owned, Manifest(n, recorded[n]));
      todo := todo - {n};
    }
  }

  method SharedLine(owned: map<Crate, seq<Owned>>, recorded: map<Name, Versioned>, c: Crate, v: Version) returns (shared: bool)
    requires forall x, o :: Listed(owned, x, o) <==> exists n :: n in recorded && Records(Manifest(n, recorded[n]), x, o)
    ensures shared <==> Closed(recorded, c, v)
  {
    var lines := if c in owned then owned[c] else [];
    shared := false;
    for k := 0 to |lines|
      invariant shared <==> exists i :: 0 <= i < k && lines[i].line == Compat(v)
    {
      if lines[k].line == Compat(v) { shared := true; }
    }
    if shared {
      var i :| 0 <= i < |lines| && lines[i].line == Compat(v);
      assert Listed(owned, c, lines[i]);
    }
    if n :| n in recorded && c in recorded[n] && Compat(recorded[n][c]) == Compat(v) {
      var o := Owned(Compat(v), n, recorded[n][c]);
      assert Records(Manifest(n, recorded[n]), c, o);
      assert Listed(owned, c, o);
    }
  }

  /** The crates whose version falls in a line a recorded manifest closes. */
  method SharedCrates(recorded: map<Name, Versioned>, versions: Versioned) returns (shared: set<Crate>)
    ensures shared == set c | c in versions && Closed(recorded, c, versions[c])
  {
    var owned := OwnedOnMain(recorded);
    shared := {};
    var todo := versions.Keys;
    while todo != {}
      invariant todo <= versions.Keys
      invariant shared == set c | c in versions && c !in todo && Closed(recorded, c, versions[c])
    {
      var c :| c in todo;
      var hit := SharedLine(owned, recorded, c, versions[c]);
      if hit { shared := shared + {c}; }
      todo := todo - {c};
    }
  }

  /** crates.io, the release branches and main's `releases/` directory. */
  class Repository {
    var published: map<(Crate, Version), Publisher>
    var cuts: map<Name, Versioned>
    var heads: map<Name, Versioned>
    var recorded: map<Name, Versioned>

    function State(): World
      reads this
    {
      World(published, cuts, heads, recorded)
    }

    /** A Release PR on main: the ownership guard, then the release job. */
    method ReleaseMain(versions: Versioned) returns (refused: bool)
      modifies this
      ensures refused <==> !MainAllowed(old(State()), versions)
      ensures State() == Step(old(State()), MainRelease(versions))
    {
      var shared := SharedCrates(recorded, versions);
      refused := exists c :: c in shared && (c, versions[c]) !in published;
      assert forall c :: c in shared <==> c in versions && Closed(recorded, c, versions[c]);
      if !refused { published := PublishAll(published, versions, Main); }
    }

    /** `cut-release.py`: its refusals in order, then the branch with its manifest. */
    method CutRelease(name: Name, versions: Versioned) returns (refused: bool)
      modifies this
      ensures refused <==> !CutAllowed(old(State()), name, versions)
      ensures State() == Step(old(State()), Cut(name, versions))
    {
      if name in cuts { return true; }
      if name in recorded { return true; }
      var missing := set c | c in versions && (c, versions[c]) !in published;
      if missing != {} {
        ghost var c :| c in missing;
        return true;
      }
      var shared := SharedCrates(recorded, versions);
      refused := shared != {};
      assert forall c :: c in versions ==> c !in missing;
      if refused {
        ghost var c :| c in shared;
      } else {
        assert forall c :: c !in shared;
      }
      if !refused {
        cuts := cuts[name := versions];
        heads := heads[name := versions];
      }
    }

    /** The merge of the pull request that adds a cut's manifest to main. */
    method MergeManifest(name: Name)
      modifies this
      ensures State() == Step(old(State()), Record(name))
    {
      if name in cuts { recorded := recorded[name := cuts[name]]; }
    }

    /** `prepare-release-branch.py`, and the release job its merge starts. */
    method PrepareBranch(name: Name, changed: set<Crate>) returns (refused: bool)
      modifies this
      ensures refused <==> !PatchAllowed(old(State()), name)
      ensures State() == Step(old(State()), Patch(name, changed))
    {
      if name !in heads { return true; }
      var untagged := set c | c in heads[name] && (c, heads[name][c]) !in published;
      if untagged != {} {
        ghost var c :| c in untagged;
        return true;
      }
      assert forall c :: c in heads[name] ==> c !in untagged;
      var head := heads[name];
      var todo := head.Keys;
      ghost var before := head;
      while todo != {}
        invariant todo <= before.Keys && head.Keys == before.Keys
        invariant forall c :: c in before ==> head[c] == if c in changed && c !in todo then NextPatch(before[c]) else before[c]
      {
        var c :| c in todo;
        if c in changed { head := head[c := NextPatch(head[c])]; }
        todo := todo - {c};
      }
      assert head == Bumped(before, changed);
      heads := heads[name := head];
      published := PublishAll(published, head, Branch(name));
      refused := false;
    }
  }
}
