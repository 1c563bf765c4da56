/**
 What rule 2 buys, over every history of releases: all live (not yanked)
 versions of a crate in one line ask for the same line of a tracked
 dependency `d`, so no resolve inside that line meets a second copy of `d`.
 */
module ReleaseHistory {
  import opened Options
  import opened Versions
  import opened ReleaseGuards
  import BumpFixer

  predicate Live(reg: Registry, c: Crate, v: Version) {
    c in reg && v in reg[c] && !reg[c][v].yanked
  }

  /** The line of `d` a dependency list asks for: that of its last normal or build entry. */
  function AsksFor(deps: seq<Dep>, d: Crate): Option<Line> {
    if deps == [] then None
    else
      var last := deps[|deps| - 1];
      if last.kind != Dev && last.name == d then ReqCompat(last.req)
      else AsksFor(deps[..|deps| - 1], d)
  }

  function Asks(reg: Registry, c: Crate, v: Version, d: Crate): Option<Line>
    requires c in reg && v in reg[c]
  {
    AsksFor(reg[c][v].deps, d)
  }

  /** Every line of every crate asks for one line of `d`. */
  ghost predicate Uniform(reg: Registry, d: Crate) {
    forall c, u, v :: Live(reg, c, u) && Live(reg, c, v) && Compat(u) == Compat(v) ==> Asks(reg, c, u, d) == Asks(reg, c, v, d)
  }

  // ----- releases and yanks -----

  function Publish(reg: Registry, c: Crate, v: Version, deps: seq<Dep>): Registry {
    reg[c := (if c in reg then reg[c] else map[])[v := Published(false, deps)]]
  }

  function Yank(reg: Registry, c: Crate, v: Version): Registry {
    if c in reg && v in reg[c] then reg[c := reg[c][v := reg[c][v].(yanked := true)]] else reg
  }

  /** The release of `c` at `v` is not yet published and rule 2 does not report it. */
  ghost predicate Accepted(reg: Registry, members: set<Crate>, c: Crate, v: Version, deps: seq<Dep>) {
    && (c in reg ==> v !in reg[c])
    && (c in reg ==> forall b :: IsBaseline(reg[c], v, b) && Compat(b) == Compat(v) ==> !HasMoved(deps, members, reg[c][b].deps))
  }

  /** `Accepted` is what the guard checks of a crate in a checkout. */
  lemma AcceptedIsRule2(ws: Workspace, reg: Registry, c: Crate)
    requires c in ws && ws[c].publishable
    ensures Accepted(reg, ws.Keys, c, ws[c].version, ws[c].deps) <==> Proposed(ws, reg, c) && !TooSmall(ws, reg, c)
  {
  }

  /** A checkout the fixer leaves with nothing named is one whose every proposed release is accepted. */
  lemma FixedTreeIsAccepted(cx: BumpFixer.Context, ws: Workspace, c: Crate)
    requires BumpFixer.Named(cx, ws) == {} && Proposed(ws, cx.reg, c)
    ensures Accepted(cx.reg, ws.Keys, c, ws[c].version, ws[c].deps)
  {
    assert c !in BumpFixer.Named(cx, ws);
    AcceptedIsRule2(ws, cx.reg, c);
  }

  /** Releases in one line all have a caret requirement on `d`, or none of them has. */
  ghost predicate SameDependencies(reg: Registry, c: Crate, v: Version, deps: seq<Dep>, d: Crate) {
    forall u :: Live(reg, c, u) && Compat(u) == Compat(v) ==> (Asks(reg, c, u, d).Some? <==> AsksFor(deps, d).Some?)
  }

  /** The line has a live version below `v`, or no live version at all. */
  ghost predicate Anchored(reg: Registry, c: Crate, v: Version) {
    || (exists u :: Live(reg, c, u) && Compat(u) == Compat(v) && Less(u, v))
    || (forall u :: Live(reg, c, u) ==> Compat(u) != Compat(v))
  }

  lemma {:induction false} BaseReqIsAsked(deps: seq<Dep>, members: set<Crate>, d: Crate)
    requires Tracked(d, members)
    ensures AsksFor(deps, d) == if d in BaseReqs(deps, members) then ReqCompat(BaseReqs(deps, members)[d]) else None
  {
    if deps != [] {
      BaseReqIsAsked(deps[..|deps| - 1], members, d);
    }
  }

  lemma {:induction false} AskedByAnEntry(deps: seq<Dep>, d: Crate) returns (i: nat)
    requires AsksFor(deps, d).Some?
    ensures i < |deps| && deps[i].kind != Dev && deps[i].name == d && ReqCompat(deps[i].req) == AsksFor(deps, d)
  {
    var n := |deps| - 1;
    if deps[n].kind != Dev && deps[n].name == d {
      i := n;
    } else {
      i := AskedByAnEntry(deps[..n], d);
    }
  }

  /** When nothing moved, two dependency lists that both name `d` ask for the same line of it. */
  lemma NotMovedAsksSame(deps: seq<Dep>, members: set<Crate>, published: seq<Dep>, d: Crate)
    requires Tracked(d, members) && !HasMoved(deps, members, published)
    requires AsksFor(deps, d).Some? && AsksFor(published, d).Some?
    ensures AsksFor(deps, d) == AsksFor(published, d)
  {
    BaseReqIsAsked(published, members, d);
    var i := AskedByAnEntry(deps, d);
    assert !Moves(deps[i], BaseReqs(published, members));
  }

  lemma {:induction false} NewestOlder(rel: map<Version, Published>, v: Version, u: Version) returns (b: Version)
    requires IsOlder(rel, v, u)
    ensures IsBaseline(rel, v, b) && AtMost(u, b)
    decreases |set w | w in rel && Less(u, w)|
  {
    if w :| IsOlder(rel, v, w) && Less(u, w) {
      var above, below := set x | x in rel && Less(w, x), set x | x in rel && Less(u, x);
      assert w in below && w !in above && above <= below - {w};
      CardinalityDrops(above, below, w);
      b := NewestOlder(rel, v, w);
    } else {
      b := u;
    }
  }

  lemma CardinalityDrops<T>(a: set<T>, b: set<T>, x: T)
    requires a <= b - {x} && x in b
    ensures |a| < |b|
  {
    assert b == a + {x} + (b - a - {x});
    assert |a + {x}| == |a| + 1;
  }

  /** One accepted release keeps every line uniform. */
  lemma PublishKeepsUniform(reg: Registry, members: set<Crate>, c: Crate, v: Version, deps: seq<Dep>, d: Crate)
    requires Uniform(reg, d) && Tracked(d, members)
    requires Accepted(reg, members, c, v, deps)
    requires SameDependencies(reg, c, v, deps, d) && Anchored(reg, c, v)
    ensures Uniform(Publish(reg, c, v, deps), d)
  {
    forall u | Live(reg, c, u) && Compat(u) == Compat(v)
      ensures AsksFor(deps, d) == Asks(reg, c, u, d)
    {
      AsksLikeTheLine(reg, members, c, v, deps, d, u);
    }
    PublishIsExact(reg, c, v, deps, d);
  }

  lemma AsksLikeTheLine(reg: Registry, members: set<Crate>, c: Crate, v: Version, deps: seq<Dep>, d: Crate, u: Version)
    requires Uniform(reg, d) && Tracked(d, members)
    requires Accepted(reg, members, c, v, deps)
    requires SameDependencies(reg, c, v, deps, d) && Anchored(reg, c, v)
    requires Live(reg, c, u) && Compat(u) == Compat(v)
    ensures AsksFor(deps, d) == Asks(reg, c, u, d)
  {
    var w :| Live(reg, c, w) && Compat(w) == Compat(v) && Less(w, v);
    var b := NewestOlder(reg[c], v, w);
    LineConvex(w, b, v);
    if AsksFor(deps, d).Some? {
      NotMovedAsksSame(deps, members, reg[c][b].deps, d);
    }
    assert Live(reg, c, b) && Asks(reg, c, b, d) == Asks(reg, c, u, d);
  }

  // ----- histories -----

  datatype Event =
    | Released(members: set<Crate>, crate: Crate, version: Version, deps: seq<Dep>)
    | Yanked(crate: Crate, version: Version)

  ghost predicate Allowed(reg: Registry, e: Event, d: Crate) {
    match e
    case Released(members, c, v, deps) =>
      && Tracked(d, members) && Accepted(reg, members, c, v, deps)
      && SameDependencies(reg, c, v, deps, d) && Anchored(reg, c, v)
    case Yanked(_, _) => true
  }

  function After(reg: Registry, e: Event): Registry {
    match e
    case Released(_, c, v, deps) => Publish(reg, c, v, deps)
    case Yanked(c, v) => Yank(reg, c, v)
  }

  ghost predicate AllAllowed(reg: Registry, es: seq<Event>, d: Crate)
    decreases es
  {
    es == [] || (Allowed(reg, es[0], d) && AllAllowed(After(reg, es[0]), es[1..], d))
  }

  function Replay(reg: Registry, es: seq<Event>): Registry
    decreases es
  {
    if es == [] then reg else Replay(After(reg, es[0]), es[1..])
  }

  lemma YankKeepsUniform(reg: Registry, c: Crate, v: Version, d: Crate)
    requires Uniform(reg, d)
    ensures Uniform(Yank(reg, c, v), d)
  {
    var after := Yank(reg, c, v);
    forall e, x, y | Live(after, e, x) && Live(after, e, y) && Compat(x) == Compat(y)
      ensures Asks(after, e, x, d) == Asks(after, e, y, d)
    {
      assert Live(reg, e, x) && Live(reg, e, y);
      assert Asks(reg, e, x, d) == Asks(after, e, x, d) && Asks(reg, e, y, d) == Asks(after, e, y, d);
    }
  }

  /** Every history of accepted releases and yanks keeps every line uniform. */
  lemma {:induction false} HistoryIsUniform(reg: Registry, es: seq<Event>, d: Crate)
    requires Uniform(reg, d) && AllAllowed(reg, es, d)
    ensures Uniform(Replay(reg, es), d)
    decreases es
  {
    if es != [] {
      match es[0] {
        case Released(members, c, v, deps) => PublishKeepsUniform(reg, members, c, v, deps, d);
        case Yanked(c, v) => YankKeepsUniform(reg, c, v, d);
      }
      HistoryIsUniform(After(reg, es[0]), es[1..], d);
    }
  }

  /**
   So a resolve cannot meet a second `d`: any two live versions of `c` that one
   caret requirement accepts ask for the same line of it.
   */
  lemma ResolveMeetsOneSibling(reg: Registry, es: seq<Event>, d: Crate, c: Crate, req: Parts, u: Version, v: Version)
    requires Uniform(reg, d) && AllAllowed(reg, es, d)
    requires Live(Replay(reg, es), c, u) && CaretOk(req, Components(u))
    requires Live(Replay(reg, es), c, v) && CaretOk(req, Components(v))
    ensures Asks(Replay(reg, es), c, u, d) == Asks(Replay(reg, es), c, v, d)
  {
    HistoryIsUniform(reg, es, d);
    CaretIsSameLine(req, Components(u));
    CaretIsSameLine(req, Components(v));
    assert Pad(Components(u)) == u && Pad(Components(v)) == v;
  }

  // ----- the conditions on a release are exact -----

  /**
   Rule 2 skips a dependency that only one of the two releases has. So an
   accepted, anchored release keeps the lines uniform exactly when it neither
   adds a requirement on `d` to its line nor drops one from it.
   */
  lemma DependencySetIsExact(reg: Registry, members: set<Crate>, c: Crate, v: Version, deps: seq<Dep>, d: Crate)
    requires Uniform(reg, d) && Tracked(d, members)
    requires Accepted(reg, members, c, v, deps) && Anchored(reg, c, v)
    ensures Uniform(Publish(reg, c, v, deps), d) <==> SameDependencies(reg, c, v, deps, d)
  {
    if SameDependencies(reg, c, v, deps, d) {
      PublishKeepsUniform(reg, members, c, v, deps, d);
    } else {
      PublishIsExact(reg, c, v, deps, d);
    }
  }

  /** The release asks for the line of `d` that every live version of its line asks for. */
  ghost predicate AsksWithItsLine(reg: Registry, c: Crate, v: Version, deps: seq<Dep>, d: Crate) {
    forall u :: Live(reg, c, u) && Compat(u) == Compat(v) ==> Asks(reg, c, u, d) == AsksFor(deps, d)
  }

  /**
   A release that is not anchored sits below every live version of its line.
   There rule 2 compares it with another line and accepts it whatever it asks
   for, so it keeps the lines uniform exactly when it happens to ask for what
   the versions above it ask for.
   */
  lemma UnanchoredReleaseBreaks(reg: Registry, members: set<Crate>, c: Crate, v: Version, deps: seq<Dep>, d: Crate)
    requires Uniform(reg, d) && (c in reg ==> v !in reg[c]) && !Anchored(reg, c, v)
    ensures Accepted(reg, members, c, v, deps)
    ensures Uniform(Publish(reg, c, v, deps), d) <==> AsksWithItsLine(reg, c, v, deps, d)
  {
    assert c in reg ==> forall b :: IsBaseline(reg[c], v, b) ==> Live(reg, c, b) && Less(b, v);
    PublishIsExact(reg, c, v, deps, d);
  }

  lemma PublishIsExact(reg: Registry, c: Crate, v: Version, deps: seq<Dep>, d: Crate)
    requires Uniform(reg, d) && (c in reg ==> v !in reg[c])
    ensures Uniform(Publish(reg, c, v, deps), d) <==> AsksWithItsLine(reg, c, v, deps, d)
  {
    var after := Publish(reg, c, v, deps);
    forall e, x | Live(reg, e, x)
      ensures Live(after, e, x) && Asks(after, e, x, d) == Asks(reg, e, x, d)
    {
    }
    assert Live(after, c, v) && Asks(after, c, v, d) == AsksFor(deps, d);
    if AsksWithItsLine(reg, c, v, deps, d) {
      forall e, x, y | Live(after, e, x) && Live(after, e, y) && Compat(x) == Compat(y)
        ensures Asks(after, e, x, d) == Asks(after, e, y, d)
      {
        assert (e, x) != (c, v) ==> Live(reg, e, x);
        assert (e, y) != (c, v) ==> Live(reg, e, y);
      }
    }
  }
}
