/**
 What the round counts rest on. The cap is one round short of what it could allow. In a stack of `n` crates,
 each depending on the one below, the guards name exactly one crate a round, so
 `n` rounds raise something. A stack of eight is clean after the eighth round,
 and the script still reports that it did not converge.
 */
module FixerCap {
  import opened Options
  import opened Versions
  import opened ReleaseGuards
  import opened BumpFixer
  import opened FixerReach
  import opened Distances

  const BASE := Version(0, 1, 0)
  const RAISED := Version(0, 2, 0)

  /** The crate at height `i`. */
  function Name(i: nat): Crate {
    seq(i + 1, _ => 'c')
  }

  function On(name: Crate, req: Parts): seq<Dep> {
    [Dep(name, Normal, Caret(req), false)]
  }

  function Below(i: nat): Crate {
    if i == 0 then "trust-tasks-rs" else Name(i - 1)
  }

  /** Height `i` after `r` rounds: the crates below height `r` have been raised. */
  function StackPackage(i: nat, r: nat): Package {
    Package(if i < r then RAISED else if i == 0 then Version(0, 1, 1) else BASE, true,
            On(Below(i), if i == 0 || i <= r then [0, 2] else [0, 1]))
  }

  function Height(c: Crate): nat {
    if |c| == 0 then 0 else |c| - 1
  }

  function Names(n: nat): set<Crate> {
    set i | 0 <= i < n :: Name(i)
  }

  function Stack(n: nat, r: nat): Workspace {
    map c | c in Names(n) :: StackPackage(Height(c), r)
  }

  /** Everything published at 0.1.0, on the class below it that 0.1 had. */
  function StackContext(n: nat): Context {
    Context(map c | c in Names(n) :: map[BASE := Published(false, On(Below(Height(c)), [0, 1]))], [], None)
  }

  lemma StackMember(n: nat, r: nat, i: nat)
    requires i < n
    ensures Name(i) in Stack(n, r) && Stack(n, r)[Name(i)] == StackPackage(i, r)
    ensures Name(i) in StackContext(n).reg
    ensures StackContext(n).reg[Name(i)] == map[BASE := Published(false, On(Below(i), [0, 1]))]
  {
    assert Name(i) in Names(n) && Height(Name(i)) == i;
  }

  lemma MovedIff(members: set<Crate>, below: Crate, req: Parts)
    requires Tracked(below, members)
    ensures HasMoved(On(below, req), members, On(below, [0, 1])) <==> Compat(Pad(req)) != [0, 1]
  {
    var base := BaseReqs(On(below, [0, 1]), members);
    assert BaseReqs(On(below, [0, 1])[..0], members) == map[];
    assert base == map[below := Caret([0, 1])];
    assert Compat(Pad([0, 1])) == [0, 1];
    if Compat(Pad(req)) != [0, 1] {
      assert Moves(On(below, req)[0], base);
    }
  }

  lemma BelowIsTracked(n: nat, r: nat, i: nat)
    requires i < n
    ensures Tracked(Below(i), Stack(n, r).Keys)
  {
    if i > 0 { StackMember(n, r, i - 1); }
  }

  /** A crate's requirement has moved from its published one exactly once the crate below is raised. */
  lemma StackMoved(n: nat, r: nat, i: nat)
    requires i < n
    ensures HasMoved(StackPackage(i, r).deps, Stack(n, r).Keys, On(Below(i), [0, 1])) <==> i <= r
  {
    BelowIsTracked(n, r, i);
    MovedIff(Stack(n, r).Keys, Below(i), StackPackage(i, r).deps[0].req.parts);
    assert Compat(Pad([0, 2])) == [0, 2] && Compat(Pad([0, 1])) == [0, 1];
  }

  lemma StackTooSmall(n: nat, r: nat, i: nat)
    requires i < n
    ensures TooSmall(Stack(n, r), StackContext(n).reg, Name(i)) <==> i == 0 && r == 0
  {
    var cx, ws, c := StackContext(n), Stack(n, r), Name(i);
    StackMember(n, r, i);
    StackMoved(n, r, i);
    if i == 0 && r == 0 {
      assert IsBaseline(cx.reg[c], ws[c].version, BASE);
    }
  }

  lemma StackStale(n: nat, r: nat, i: nat)
    requires i < n
    ensures Stale(Stack(n, r), StackContext(n).reg, Name(i)) <==> i == r && i > 0
  {
    StackMember(n, r, i);
    StackMoved(n, r, i);
  }

  lemma StackReleases(n: nat, r: nat)
    requires n > 0
    ensures Releasing(Stack(n, r), StackContext(n).reg)
  {
    StackMember(n, r, 0);
    assert Proposed(Stack(n, r), StackContext(n).reg, Name(0));
  }

  lemma StackNamed(n: nat, r: nat, i: nat)
    requires i < n && r <= n && n > 0
    ensures Name(i) in Named(StackContext(n), Stack(n, r)) <==> i == r
  {
    StackMember(n, r, i);
    StackReleases(n, r);
    StackTooSmall(n, r, i);
    StackStale(n, r, i);
    assert OwnedCuts([], None, Name(i)) == {};
  }

  lemma NameInjective(i: nat, j: nat)
    ensures Name(i) == Name(j) ==> i == j
  {
    assert |Name(i)| == i + 1 && |Name(j)| == j + 1;
  }

  lemma StackNamesOne(n: nat, r: nat)
    requires r <= n && n > 0
    ensures Named(StackContext(n), Stack(n, r)) == if r < n then {Name(r)} else {}
  {
    var named := Named(StackContext(n), Stack(n, r));
    forall c | c in Stack(n, r)
      ensures c in named <==> c == Name(r) && r < n
    {
      var i :| 0 <= i < n && c == Name(i);
      StackNamed(n, r, i);
      NameInjective(i, r);
    }
    if r < n { StackMember(n, r, r); }
  }

  lemma HeightRises(n: nat, r: nat, i: nat)
    requires r < n && i < n
    ensures RaisePackage(Stack(n, r), {Name(r)}, Name(i)) == StackPackage(i, r + 1)
  {
    StackMember(n, r, i);
    StackMember(n, r, r);
    NameInjective(i, r);
    if i > 0 { NameInjective(i - 1, r); }
    assert Below(0)[0] == 't' && Name(r)[0] == 'c';
    assert Below(i) == Name(r) <==> i == r + 1;
    var p := RaisePackage(Stack(n, r), {Name(r)}, Name(i));
    assert p.deps == [MoveDep(StackPackage(i, r).deps[0], Stack(n, r), {Name(r)})];
  }

  lemma StackRises(n: nat, r: nat)
    requires r < n
    ensures RaiseAll(Stack(n, r), {Name(r)}) == Stack(n, r + 1)
  {
    var a, b := RaiseAll(Stack(n, r), {Name(r)}), Stack(n, r + 1);
    assert a.Keys == b.Keys;
    forall c | c in b
      ensures a[c] == b[c]
    {
      var i :| 0 <= i < n && c == Name(i);
      HeightRises(n, r, i);
      StackMember(n, r + 1, i);
    }
  }

  lemma StackRound(n: nat, r: nat)
    requires r < n
    ensures Round(StackContext(n), Stack(n, r)) == Stack(n, r + 1)
  {
    StackNamesOne(n, r);
    StackRises(n, r);
  }

  /** Each tree is a round on from the one before. */
  ghost predicate AreRounds(cx: Context, trees: seq<Workspace>) {
    forall i, j :: 0 <= i < j < |trees| && j == i + 1 ==> Round(cx, trees[i]) == trees[j]
  }

  lemma {:induction false} RoundsFollow(cx: Context, trees: seq<Workspace>, k: nat)
    requires k < |trees| && AreRounds(cx, trees)
    ensures Rounds(cx, trees[0], k) == trees[k]
  {
    if k > 0 {
      RoundsFollow(cx, trees, k - 1);
      assert Round(cx, trees[k - 1]) == trees[k];
    }
  }

  lemma StackTrees(n: nat) returns (trees: seq<Workspace>)
    ensures |trees| == n + 1 && forall k :: 0 <= k <= n ==> trees[k] == Stack(n, k)
  {
    trees := seq(n + 1, k requires 0 <= k => Stack(n, k));
  }

  lemma TreesFollow(n: nat, trees: seq<Workspace>, i: nat, j: nat)
    requires i < n && j == i + 1 < |trees| && trees[i] == Stack(n, i) && trees[j] == Stack(n, j)
    ensures Round(StackContext(n), trees[i]) == trees[j]
  {
    StackRound(n, i);
  }

  lemma StackAfter(n: nat, r: nat)
    requires r <= n
    ensures Rounds(StackContext(n), Stack(n, 0), r) == Stack(n, r)
  {
    var trees := StackTrees(n);
    forall i, j | 0 <= i < j < |trees| && j == i + 1
      ensures Round(StackContext(n), trees[i]) == trees[j]
    {
      TreesFollow(n, trees, i, j);
    }
    assert trees[0] == Stack(n, 0);
    RoundsFollow(StackContext(n), trees, r);
  }

  /** The bound of `RoundsWithinChains` is met: a stack of `n` needs `n` rounds, no fewer and no more. */
  lemma StackNeedsItsHeight(n: nat, k: nat)
    requires n > 0 && k <= n
    ensures Named(StackContext(n), Rounds(StackContext(n), Stack(n, 0), k)) == {} <==> k == n
  {
    StackAfter(n, k);
    StackNamesOne(n, k);
  }

  /** What `Fix` establishes, on a stack of eight: the checkout is clean and the code is not 0. */
  lemma CleanButNotConverged(rounds: nat)
    requires var cx, ws := StackContext(MAX_ROUNDS), Stack(MAX_ROUNDS, 0);
             && rounds <= MAX_ROUNDS
             && (rounds < MAX_ROUNDS ==> Named(cx, Rounds(cx, ws, rounds)) == {})
    ensures rounds == MAX_ROUNDS
    ensures Named(StackContext(MAX_ROUNDS), Rounds(StackContext(MAX_ROUNDS), Stack(MAX_ROUNDS, 0), rounds)) == {}
  {
    StackNeedsItsHeight(MAX_ROUNDS, rounds);
  }

  // ----- claimed successors -----

  /** A new crate without dependencies, at 0.`minor`.0. */
  function Rung(minor: nat): Workspace {
    map["c" := Package(Version(0, minor, 0), true, [])]
  }

  /** Releases own its lines 0.1 to 0.`n`. */
  function LadderContext(n: nat): Context {
    Context(map[], seq(n, i requires 0 <= i => Manifest(Name(i), map["c" := Version(0, i + 1, 0)])), None)
  }

  lemma RungOwned(n: nat, minor: nat)
    requires minor > 0
    ensures (exists u :: u in OwnedCuts(LadderContext(n).manifests, None, "c") && Compat(u) == [0, minor]) <==> minor <= n
  {
    var ms := LadderContext(n).manifests;
    if minor <= n {
      assert ms[minor - 1].crates["c"] == Version(0, minor, 0);
      assert Version(0, minor, 0) in OwnedCuts(ms, None, "c");
    }
  }

  lemma RungNamed(n: nat, minor: nat)
    requires minor > 0
    ensures Named(LadderContext(n), Rung(minor)) == if minor <= n then {"c"} else {}
  {
    RungOwned(n, minor);
    var cx, ws := LadderContext(n), Rung(minor);
    assert Compat(ws["c"].version) == [0, minor];
    assert !Releasing(ws, cx.reg) && !TooSmall(ws, cx.reg, "c");
    assert IsNamed(cx, ws, "c") <==> minor <= n;
  }

  lemma RungRises(minor: nat)
    requires minor > 0
    ensures RaiseAll(Rung(minor), {"c"}) == Rung(minor + 1)
  {
    var w := RaiseAll(Rung(minor), {"c"});
    assert w["c"].deps == [];
    assert w["c"] == Rung(minor + 1)["c"];
  }

  lemma RungRound(n: nat, minor: nat)
    requires 0 < minor <= n
    ensures Round(LadderContext(n), Rung(minor)) == Rung(minor + 1)
  {
    RungNamed(n, minor);
    RungRises(minor);
  }

  lemma LadderTrees(n: nat) returns (trees: seq<Workspace>)
    ensures |trees| == n + 1 && forall k :: 0 <= k <= n ==> trees[k] == Rung(k + 1)
  {
    trees := seq(n + 1, k requires 0 <= k => Rung(k + 1));
  }

  /**
   With claimed successors the distances do not count the rounds: nothing drags
   anything here, and a crate whose next `n` lines are owned takes `n` rounds.
   */
  lemma ClaimedLinesCost(n: nat, k: nat)
    requires k <= n
    ensures Named(LadderContext(n), Rounds(LadderContext(n), Rung(1), k)) == {} <==> k == n
    ensures AllNear(Named(LadderContext(n), Rung(1)), DragEdges(LadderContext(n), Rung(1)), 0)
  {
    var trees := LadderTrees(n);
    forall i, j | 0 <= i < j < |trees| && j == i + 1
      ensures Round(LadderContext(n), trees[i]) == trees[j]
    {
      RungRound(n, i + 1);
    }
    assert trees[0] == Rung(1);
    RoundsFollow(LadderContext(n), trees, k);
    RungNamed(n, k + 1);
    NoEdgesNoPaths(Named(LadderContext(n), Rung(1)), DragEdges(LadderContext(n), Rung(1)));
  }

  lemma NoEdgesNoPaths(seeds: set<Crate>, edges: Edges<Crate>)
    requires edges == {}
    ensures AllNear(seeds, edges, 0)
  {
    forall s | IsPath(seeds, edges, s)
      ensures AtDistance(seeds, edges, s[|s| - 1], 0)
    {
      FirstEdge(seeds, edges, s);
    }
  }

  lemma FirstEdge(seeds: set<Crate>, edges: Edges<Crate>, s: seq<Crate>)
    requires IsPath(seeds, edges, s)
    ensures |s| > 1 ==> (s[0], s[1]) in edges
  {
  }
}
