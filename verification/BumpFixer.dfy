/**
 `fix-release-bump-sizes.py`: raise every crate the guards name to its next
 breaking version, move the requirements on it, and ask the guards again.
 The registry and the release manifests stay as they are while it runs.
 */
module BumpFixer {
  import opened Options
  import opened Versions
  import opened ReleaseGuards

  const MAX_ROUNDS := 8

  /** What the guards read beside the checkout. */
  datatype Context = Context(reg: Registry, manifests: seq<Manifest>, own: Option<string>)

  ghost predicate IsNamed(cx: Context, ws: Workspace, c: Crate) {
    || TooSmall(ws, cx.reg, c)
    || (Releasing(ws, cx.reg) && Stale(ws, cx.reg, c))
    || InOwnedLine(ws, cx.reg, cx.manifests, cx.own, c)
  }

  ghost function Named(cx: Context, ws: Workspace): set<Crate> {
    set c | c in ws && IsNamed(cx, ws, c)
  }

  function MoveDep(d: Dep, ws: Workspace, raised: set<Crate>): Dep {
    if d.name in raised && d.name in ws && d.req != Any
    then d.(req := Caret(ReqOf(NextBreaking(ws[d.name].version))))
    else d
  }

  function RaisePackage(ws: Workspace, raised: set<Crate>, c: Crate): Package
    requires c in ws
  {
    var p := ws[c];
    Package(if c in raised then NextBreaking(p.version) else p.version,
            p.publishable,
            seq(|p.deps|, i requires 0 <= i < |p.deps| => MoveDep(p.deps[i], ws, raised)))
  }

  /** The checkout after `bump` has run on every crate of `raised`. */
  function RaiseAll(ws: Workspace, raised: set<Crate>): Workspace
  {
    map c | c in ws :: RaisePackage(ws, raised, c)
  }

  ghost function Round(cx: Context, ws: Workspace):  Workspace
  {
    RaiseAll(ws, Named(cx, ws))
  }

  /** The checkout after `k` rounds. */
  ghost function Rounds(cx: Context, ws: Workspace, k: nat):  Workspace
  {
    if k == 0 then ws else Round(cx, Rounds(cx, ws, k - 1))
  }

  /** The checkout after `k` rounds, the last of which raised something. */
  ghost predicate Ran(cx: Context, ws: Workspace, k: nat, now: Workspace) {
    now == Rounds(cx, ws, k) && (k > 0 ==> Named(cx, Rounds(cx, ws, k - 1)) != {})
  }

  lemma RanOn(cx: Context, ws: Workspace, k: nat, now: Workspace)
    requires Ran(cx, ws, k, now) && Named(cx, now) != {}
    ensures Ran(cx, ws, k + 1, Round(cx, now))
  {
  }

  /** How many rounds a run of the script has: it raises something in each, and stops when nothing is named or at the cap. */
  ghost predicate RanFor(cx: Context, ws: Workspace, rounds: nat) {
    && rounds <= MAX_ROUNDS
    && (rounds > 0 ==> Named(cx, Rounds(cx, ws, rounds - 1)) != {})
    && (rounds < MAX_ROUNDS ==> Named(cx, Rounds(cx, ws, rounds)) == {})
  }

  // ----- the script -----

  lemma RaiseOneMore(ws: Workspace, done: set<Crate>, n: Crate)
    requires n !in done
    ensures RaiseAll(RaiseAll(ws, done), {n}) == RaiseAll(ws, done + {n})
  {
    var a, b := RaiseAll(RaiseAll(ws, done), {n}), RaiseAll(ws, done + {n});
    forall c | c in ws
      ensures a[c] == b[c]
    {
      assert a[c].deps == b[c].deps;
    }
  }

  lemma RaiseNone(ws: Workspace)
    ensures RaiseAll(ws, {}) == ws
  {
    forall c | c in ws
      ensures RaiseAll(ws, {})[c] == ws[c]
    {
      assert RaiseAll(ws, {})[c].deps == ws[c].deps;
    }
  }

  /** A dependency list with every versioned requirement on `name` set to accept `version`. */
  function Moved(deps: seq<Dep>, name: Crate, version: Version): seq<Dep> {
    seq(|deps|, i requires 0 <= i < |deps| =>
      if deps[i].name == name && deps[i].req != Any then deps[i].(req := Caret(ReqOf(version))) else deps[i])
  }

  method MoveRequirements(deps: seq<Dep>, name: Crate, version: Version) returns (moved: seq<Dep>)
    ensures moved == Moved(deps, name, version)
  {
    moved := [];
    for i := 0 to |deps|
      invariant moved == Moved(deps, name, version)[..i]
    {
      if deps[i].name == name && deps[i].req != Any {
        moved := moved + [deps[i].(req := Caret(ReqOf(version)))];
      } else {
        moved := moved + [deps[i]];
      }
    }
  }

  method MoveEverywhere(ws: Workspace, name: Crate, version: Version) returns (after: Workspace)
    ensures after.Keys == ws.Keys
    ensures forall c :: c in ws ==> after[c] == ws[c].(deps := Moved(ws[c].deps, name, version))
  {
    after := ws;
    var todo := ws.Keys;
    while todo != {}
      invariant after.Keys == ws.Keys && todo <= ws.Keys
      invariant forall c :: c in ws ==>
                            after[c] == if c in todo then ws[c] else ws[c].(deps := Moved(ws[c].deps, name, version))
    {
      var c :| c in todo;
      todo := todo - {c};
      var moved := MoveRequirements(ws[c].deps, name, version);
      after := after[c := ws[c].(deps := moved)];
    }
  }

  lemma RaiseOne(ws: Workspace, name: Crate, after: Workspace)
    requires name in ws && after.Keys == ws.Keys
    requires forall c :: c in ws ==>
      after[c] == Package(if c == name then NextBreaking(ws[c].version) else ws[c].version,
                          ws[c].publishable, Moved(ws[c].deps, name, NextBreaking(ws[name].version)))
    ensures after == RaiseAll(ws, {name})
  {
    forall c | c in ws
      ensures after[c] == RaiseAll(ws, {name})[c]
    {
      assert Moved(ws[c].deps, name, NextBreaking(ws[name].version)) == RaiseAll(ws, {name})[c].deps;
    }
  }

  /** One run of both guards: the crates they name, and whether they both pass. */
  method RunGuards(cx: Context, ws: Workspace) returns (names: set<Crate>, pass: bool)
    ensures names == Named(cx, ws)
    ensures pass <==> names == {} && forall c :: !VersionedDev(ws, c)
  {
    var sizes := CheckBumpSizes(ws, cx.reg);
    var lines := CheckLineOwnership(ws, cx.reg, cx.manifests, cx.own);
    var problems := sizes + lines;
    names := set p: Problem | p in problems && p.Raise? :: p.crate;
    assert forall c :: c in names <==> Raise(c) in problems;
    pass := problems == {};
    if p :| p in problems {
      assert p == DropVersion(p.crate) || p == Raise(p.crate);
    }
  }

  class Checkout {
    var packages: Workspace

    constructor (ws: Workspace)
      ensures packages == ws
    {
      packages := ws;
    }

    /** `bump`: a new version for the crate, then every requirement on it moved. */
    method Bump(name: Crate)
      requires name in packages
      modifies this
      ensures packages == RaiseAll(old(packages), {name})
    {
      var version := NextBreaking(packages[name].version);
      packages := packages[name := packages[name].(version := version)];
      packages := MoveEverywhere(packages, name, version);
      RaiseOne(old(packages), name, packages);
    }

    method BumpEach(names: set<Crate>)
      requires names <= packages.Keys
      modifies this
      ensures packages == RaiseAll(old(packages), names)
    {
      ghost var before := packages;
      RaiseNone(before);
      var todo := names;
      assert names - todo == {};
      while todo != {}
        invariant todo <= names
        invariant packages == RaiseAll(before, names - todo)
      {
        var n :| n in todo;
        RaiseOneMore(before, names - todo, n);
        assert names - (todo - {n}) == (names - todo) + {n};
        todo := todo - {n};
        Bump(n);
      }
      assert names - todo == names;
    }

    /** One round: both guards, and the bumps they ask for. */
    method RunRound(cx: Context) returns (raised: bool, pass: bool)
      modifies this
      ensures raised <==> Named(cx, old(packages)) != {}
      ensures packages == if raised then Round(cx, old(packages)) else old(packages)
      ensures pass <==> !raised && forall c :: !VersionedDev(old(packages), c)
    {
      var names;
      names, pass := RunGuards(cx, packages);
      raised := names != {};
      if raised {
        BumpEach(names);
      }
    }

    /**
     `main` without `--raise`: at most `MAX_ROUNDS` rounds. Code 0 means both
     guards pass; `rounds` is how many rounds raised something.
     */
    method Fix(cx: Context) returns (code: nat, ghost rounds: nat)
      modifies this
      ensures RanFor(cx, old(packages), rounds) && packages == Rounds(cx, old(packages), rounds)
      ensures code == 0 <==> rounds < MAX_ROUNDS && forall c :: !VersionedDev(packages, c)
    {
      ghost var start := packages;
      rounds := 0;
      for rnd := 0 to MAX_ROUNDS
        invariant rounds == rnd && Ran(cx, start, rnd, packages)
      {
        ghost var before := packages;
        var raised, pass := RunRound(cx);
        if !raised {
          return if pass then 0 else 1, rnd;
        }
        RanOn(cx, start, rnd, before);
        rounds := rounds + 1;
      }
      code := 1;
    }
  }
}
