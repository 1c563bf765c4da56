/**
 The two guards a release passes on main: `check-release-bump-sizes.py` (rules
 1 to 3) and `check-release-line-ownership.py`. The predicates say which crates
 they report; the methods are the scripts' loops, proved to report exactly those.
 */
module ReleaseGuards {
  import opened Options
  import opened Versions

  type Crate = string
  type Parts = p: seq<nat> | |p| <= 3

  datatype Kind = Normal | Build | Dev

  /** A requirement: `*` (no version given), a caret form, or any other form. */
  datatype Req = Any | Caret(parts: Parts) | Other

  datatype Dep = Dep(name: Crate, kind: Kind, req: Req, path: bool)

  datatype Package = Package(version: Version, publishable: bool, deps: seq<Dep>)

  /** The checkout: every workspace member's manifest. */
  type Workspace = map<Crate, Package>

  datatype Published = Published(yanked: bool, deps: seq<Dep>)

  /** crates.io. A crate absent from the map has never been published. */
  type Registry = map<Crate, map<Version, Published>>

  /** One `releases/<name>.toml`: what `release/<name>` was cut at. */
  datatype Manifest = Manifest(release: string, crates: map<Crate, Version>)

  const SHARED_EXTERNAL: set<Crate> := {"trust-tasks-rs"}

  // ----- which requirements moved -----

  predicate Tracked(name: Crate, members: set<Crate>) {
    name in members || name in SHARED_EXTERNAL
  }

  /** A dependency whose range is part of its dependents' API. */
  predicate Counts(d: Dep, members: set<Crate>) {
    d.kind != Dev && Tracked(d.name, members)
  }

  function ReqCompat(req: Req): Option<Line> {
    if req.Caret? then Some(Compat(Pad(req.parts))) else None
  }

  /** The requirement a dependency list makes of each tracked crate; a later entry wins. */
  function BaseReqs(deps: seq<Dep>, members: set<Crate>): map<Crate, Req> {
    if deps == [] then map[]
    else
      var d := deps[|deps| - 1];
      var rest := BaseReqs(deps[..|deps| - 1], members);
      if Counts(d, members) then rest[d.name := d.req] else rest
  }

  predicate Moves(d: Dep, base: map<Crate, Req>) {
    && d.name in base
    && ReqCompat(base[d.name]).Some? && ReqCompat(d.req).Some?
    && ReqCompat(base[d.name]) != ReqCompat(d.req)
  }

  predicate HasMoved(deps: seq<Dep>, members: set<Crate>, published: seq<Dep>) {
    exists i :: 0 <= i < |deps| && Counts(deps[i], members) && Moves(deps[i], BaseReqs(published, members))
  }

  method MovedReqs(deps: seq<Dep>, members: set<Crate>, published: seq<Dep>) returns (moved: seq<Dep>)
    ensures forall d :: d in moved <==> d in deps && Counts(d, members) && Moves(d, BaseReqs(published, members))
    ensures moved != [] <==> HasMoved(deps, members, published)
  {
    var base: map<Crate, Req> := map[];
    for i := 0 to |published|
      invariant base == BaseReqs(published[..i], members)
    {
      assert published[..i + 1][..i] == published[..i];
      if Counts(published[i], members) {
        base := base[published[i].name := published[i].req];
      }
    }
    assert published[..|published|] == published;
    moved := [];
    for i := 0 to |deps|
      invariant forall d :: d in moved <==>
                            d in deps[..i] && Counts(d, members) && Moves(d, BaseReqs(published, members))
    {
      if Counts(deps[i], members) && Moves(deps[i], base) {
        moved := moved + [deps[i]];
      }
    }
    assert deps[..|deps|] == deps;
    if moved != [] {
      var d := moved[0];
      assert d in moved;
    }
    if HasMoved(deps, members, published) {
      var i :| 0 <= i < |deps| && Counts(deps[i], members) && Moves(deps[i], BaseReqs(published, members));
      assert deps[i] in moved;
    }
  }

  // ----- what each rule reports -----

  predicate Proposed(ws: Workspace, reg: Registry, c: Crate) {
    c in ws && ws[c].publishable && !(c in reg && ws[c].version in reg[c])
  }

  /** Rule 1: a sibling that is only a dev-dependency carries a version. */
  predicate VersionedDev(ws: Workspace, c: Crate) {
    && c in ws && ws[c].publishable
    && exists i :: 0 <= i < |ws[c].deps| && ws[c].deps[i].kind == Dev && ws[c].deps[i].path
                   && ws[c].deps[i].name in ws && ws[c].deps[i].req != Any
                   && !Ordered(ws[c].deps, ws[c].deps[i].name)
  }

  predicate Ordered(deps: seq<Dep>, name: Crate) {
    exists j :: 0 <= j < |deps| && deps[j].kind != Dev && deps[j].name == name
  }

  predicate IsOlder(rel: map<Version, Published>, v: Version, u: Version) {
    u in rel && !rel[u].yanked && Less(u, v)
  }

  /** The newest version below `v` that is not yanked. */
  ghost predicate IsBaseline(rel: map<Version, Published>, v: Version, b: Version) {
    IsOlder(rel, v, b) && forall u :: IsOlder(rel, v, u) ==> AtMost(u, b)
  }

  /** Rule 2: a proposed version in its baseline's class moves a tracked requirement. */
  ghost predicate TooSmall(ws: Workspace, reg: Registry, c: Crate) {
    && Proposed(ws, reg, c) && c in reg
    && exists b :: IsBaseline(reg[c], ws[c].version, b) && Compat(b) == Compat(ws[c].version)
                   && HasMoved(ws[c].deps, ws.Keys, reg[c][b].deps)
  }

  /** Rule 3: an already published version whose manifest moved away from it. */
  predicate Stale(ws: Workspace, reg: Registry, c: Crate) {
    && c in ws && ws[c].publishable && c in reg && ws[c].version in reg[c]
    && HasMoved(ws[c].deps, ws.Keys, reg[c][ws[c].version].deps)
  }

  /** Some crate that is on crates.io proposes a version that is not. */
  predicate Releasing(ws: Workspace, reg: Registry) {
    exists c :: c in ws && c in reg && Proposed(ws, reg, c)
  }

  /** The versions at which other releases were cut with `c`: each owns its class. */
  function OwnedCuts(ms: seq<Manifest>, own: Option<string>, c: Crate): set<Version> {
    set i | 0 <= i < |ms| && Some(ms[i].release) != own && c in ms[i].crates :: ms[i].crates[c]
  }

  /** The ownership guard: a proposed version in a line another release owns. */
  predicate InOwnedLine(ws: Workspace, reg: Registry, ms: seq<Manifest>, own: Option<string>, c: Crate) {
    Proposed(ws, reg, c) && exists u :: u in OwnedCuts(ms, own, c) && Compat(u) == Compat(ws[c].version)
  }

  // ----- what rule 1 reports, entry by entry -----

  /** The workspace with one more entry in the dependency list of `c`. */
  function WithDep(ws: Workspace, c: Crate, d: Dep): Workspace
    requires c in ws
  {
    ws[c := ws[c].(deps := ws[c].deps + [d])]
  }

  /** An entry that rule 1 minds: a versioned path dev-dependency on a member that is nowhere an ordinary dependency. */
  lemma DevEntryReported(ws: Workspace, c: Crate, d: Dep)
    requires c in ws && ws[c].publishable
    requires d.kind == Dev && d.path && d.name in ws && d.req != Any
    requires forall e :: e in ws[c].deps && e.name == d.name ==> e.kind == Dev
    ensures VersionedDev(WithDep(ws, c, d), c)
  {
    var after := WithDep(ws, c, d)[c].deps;
    assert after[|after| - 1] == d;
    forall j | 0 <= j < |after| && after[j].name == d.name
      ensures after[j].kind == Dev
    {
      assert j < |ws[c].deps| ==> after[j] in ws[c].deps;
    }
  }

  /** Each of its parts is needed: an entry that is not one adds no report. */
  lemma OtherEntryNotReported(ws: Workspace, c: Crate, d: Dep)
    requires c in ws && !VersionedDev(ws, c)
    requires d.kind != Dev || !d.path || d.name !in ws || d.req == Any || exists e :: e in ws[c].deps && e.name == d.name && e.kind != Dev
    ensures !VersionedDev(WithDep(ws, c, d), c)
  {
    var before, after := ws[c].deps, WithDep(ws, c, d)[c].deps;
    forall name
      ensures Ordered(before, name) ==> Ordered(after, name)
    {
      if Ordered(before, name) {
        var j :| 0 <= j < |before| && before[j].kind != Dev && before[j].name == name;
        assert after[j] == before[j];
      }
    }
    if e :| e in before && e.name == d.name && e.kind != Dev {
      assert Ordered(before, d.name);
    }
    assert forall i :: 0 <= i < |before| ==> after[i] == before[i];
  }

  /** Dropping the versions of the dev entries, which is the fix the guard names, silences it. */
  lemma DroppedVersionsAreSilent(ws: Workspace, c: Crate)
    requires c in ws ==> forall i :: 0 <= i < |ws[c].deps| && ws[c].deps[i].kind == Dev ==> ws[c].deps[i].req == Any
    ensures !VersionedDev(ws, c)
  {
  }

  /** A member that is not published is not looked at. */
  lemma UnpublishedIsSilent(ws: Workspace, c: Crate)
    requires c in ws ==> !ws[c].publishable
    ensures !VersionedDev(ws, c)
  {
  }

  // ----- the guards as the scripts run them -----

  datatype Problem = DropVersion(crate: Crate) | Raise(crate: Crate)

  method FindBaseline(rel: map<Version, Published>, v: Version) returns (b: Option<Version>)
    ensures b.None? ==> forall u :: !IsOlder(rel, v, u)
    ensures b.Some? ==> IsBaseline(rel, v, b.value)
  {
    b := None;
    var todo := rel.Keys;
    while todo != {}
      invariant todo <= rel.Keys
      invariant b.None? ==> forall u :: u !in todo ==> !IsOlder(rel, v, u)
      invariant b.Some? ==> IsOlder(rel, v, b.value)
      invariant b.Some? ==> forall u :: u !in todo && IsOlder(rel, v, u) ==> AtMost(u, b.value)
    {
      var u :| u in todo;
      todo := todo - {u};
      if !rel[u].yanked && Less(u, v) && (b.None? || Less(b.value, u)) {
        b := Some(u);
      }
    }
  }

  method DevProblem(ws: Workspace, c: Crate) returns (bad: bool)
    requires c in ws && ws[c].publishable
    ensures bad <==> VersionedDev(ws, c)
  {
    bad := false;
    var deps := ws[c].deps;
    for i := 0 to |deps|
      invariant bad <==> exists k :: 0 <= k < i && deps[k].kind == Dev && deps[k].path
                                     && deps[k].name in ws && deps[k].req != Any
                                     && !Ordered(deps, deps[k].name)
    {
      if deps[i].kind == Dev && deps[i].path && deps[i].name in ws && deps[i].req != Any
         && !Ordered(deps, deps[i].name) {
        bad := true;
      }
    }
  }

  /** Rules 2 and 3 for one crate: `small` is rule 2, `stale` rule 3. */
  method CheckCrate(ws: Workspace, reg: Registry, c: Crate) returns (small: bool, stale: bool, releasing: bool)
    requires c in ws && ws[c].publishable
    ensures small <==> TooSmall(ws, reg, c)
    ensures stale <==> Stale(ws, reg, c)
    ensures releasing <==> c in reg && Proposed(ws, reg, c)
  {
    small, stale, releasing := false, false, false;
    if c !in reg { return; }
    var current := ws[c].version;
    if current in reg[c] {
      var moved := MovedReqs(ws[c].deps, ws.Keys, reg[c][current].deps);
      stale := moved != [];
      return;
    }
    releasing := true;
    var b := FindBaseline(reg[c], current);
    if b.None? { return; }
    BaselineUnique(reg[c], current, b.value);
    if Compat(b.value) == Compat(current) {
      var moved := MovedReqs(ws[c].deps, ws.Keys, reg[c][b.value].deps);
      small := moved != [];
    }
  }

  /** What one crate adds to the problems, and to those held back until this is a release. */
  method ReportCrate(ws: Workspace, reg: Registry, c: Crate)
    returns (problems: set<Problem>, stale: set<Problem>, releasing: bool)
    requires c in ws && ws[c].publishable
    ensures problems == (if VersionedDev(ws, c) then {DropVersion(c)} else {}) + (if TooSmall(ws, reg, c) then {Raise(c)} else {})
    ensures stale == if Stale(ws, reg, c) then {Raise(c)} else {}
    ensures releasing <==> c in reg && Proposed(ws, reg, c)
  {
    var dev := DevProblem(ws, c);
    var small, moved;
    small, moved, releasing := CheckCrate(ws, reg, c);
    problems := (if dev then {DropVersion(c)} else {}) + (if small then {Raise(c)} else {});
    stale := if moved then {Raise(c)} else {};
  }

  /** The problems of every crate but those in `todo`. */
  ghost predicate Reported(ws: Workspace, reg: Registry, todo: set<Crate>, problems: set<Problem>, stale: set<Problem>) {
    && (forall c :: DropVersion(c) in problems <==> c !in todo && VersionedDev(ws, c))
    && (forall c :: Raise(c) in problems <==> c !in todo && TooSmall(ws, reg, c))
    && (forall c :: Raise(c) in stale <==> c !in todo && Stale(ws, reg, c))
    && (forall p :: p in stale ==> p.Raise?)
  }

  lemma ReportMore(ws: Workspace, reg: Registry, todo: set<Crate>, problems: set<Problem>, stale: set<Problem>,
                   c: Crate, mine: set<Problem>, held: set<Problem>)
    requires Reported(ws, reg, todo, problems, stale) && c in todo
    requires mine == (if VersionedDev(ws, c) then {DropVersion(c)} else {}) + (if TooSmall(ws, reg, c) then {Raise(c)} else {})
    requires held == if Stale(ws, reg, c) then {Raise(c)} else {}
    ensures Reported(ws, reg, todo - {c}, problems + mine, stale + held)
  {
  }

  method CheckBumpSizes(ws: Workspace, reg: Registry) returns (problems: set<Problem>)
    ensures forall c :: DropVersion(c) in problems <==> VersionedDev(ws, c)
    ensures forall c :: Raise(c) in problems <==>
                        TooSmall(ws, reg, c) || (Releasing(ws, reg) && Stale(ws, reg, c))
  {
    problems := {};
    var stale: set<Problem> := {};
    var releasing := false;
    var todo := set c | c in ws && ws[c].publishable;
    while todo != {}
      invariant forall c :: c in todo ==> c in ws && ws[c].publishable
      invariant Reported(ws, reg, todo, problems, stale)
      invariant releasing <==> exists c :: c !in todo && c in ws && c in reg && Proposed(ws, reg, c)
    {
      var c :| c in todo;
      var mine, held, now := ReportCrate(ws, reg, c);
      ReportMore(ws, reg, todo, problems, stale, c, mine, held);
      problems := problems + mine;
      stale := stale + held;
      releasing := releasing || now;
      todo := todo - {c};
    }
    if releasing { problems := problems + stale; }
  }

  lemma BaselineUnique(rel: map<Version, Published>, v: Version, b: Version)
    requires IsBaseline(rel, v, b)
    ensures forall u :: IsBaseline(rel, v, u) ==> u == b
  {
  }

  datatype Owned = Owned(line: Line, release: string, cut: Version)

  /** The manifest gives `c` the entry `o`. */
  predicate Records(m: Manifest, c: Crate, o: Owned) {
    c in m.crates && o == Owned(Compat(m.crates[c]), m.release, m.crates[c])
  }

  predicate Listed(owned: map<Crate, seq<Owned>>, c: Crate, o: Owned) {
    c in owned && o in owned[c]
  }

  method OwnedLines(ms: seq<Manifest>) returns (owned: map<Crate, seq<Owned>>)
    ensures forall c, o :: Listed(owned, c, o) <==> exists i :: 0 <= i < |ms| && Records(ms[i], c, o)
  {
    owned := map[];
    for i := 0 to |ms|
      invariant forall c, o :: Listed(owned, c, o) <==> exists k :: 0 <= k < i && Records(ms[k], c, o)
    {
      owned := AddManifest(owned, ms[i]);
    }
  }

  method AddManifest(before: map<Crate, seq<Owned>>, m: Manifest) returns (owned: map<Crate, seq<Owned>>)
    ensures forall c, o :: Listed(owned, c, o) <==> Listed(before, c, o) || Records(m, c, o)
  {
    owned := before;
    var todo := m.crates.Keys;
    while todo != {}
      invariant todo <= m.crates.Keys
      invariant forall c, o :: Listed(owned, c, o) <==> Listed(before, c, o) || (c !in todo && Records(m, c, o))
    {
      var c :| c in todo;
      todo := todo - {c};
      var entry := Owned(Compat(m.crates[c]), m.release, m.crates[c]);
      var entries := (if c in owned then owned[c] else []) + [entry];
      assert forall o :: o in entries <==> Listed(owned, c, o) || o == entry;
      owned := owned[c := entries];
    }
  }

  method CheckLineOwnership(ws: Workspace, reg: Registry, ms: seq<Manifest>, own: Option<string>)
    returns (problems: set<Problem>)
    ensures forall c :: Raise(c) in problems <==> InOwnedLine(ws, reg, ms, own, c)
    ensures forall p :: p in problems ==> p.Raise?
  {
    var owned := OwnedLines(ms);
    problems := {};
    var todo := set c | c in ws && ws[c].publishable;
    while todo != {}
      invariant forall c :: c in todo ==> c in ws && ws[c].publishable
      invariant forall c :: Raise(c) in problems <==> c !in todo && InOwnedLine(ws, reg, ms, own, c)
      invariant forall p :: p in problems ==> p.Raise?
    {
      var c :| c in todo;
      todo := todo - {c};
      var lines := if c in owned then owned[c] else [];
      var hit := exists k :: 0 <= k < |lines| && lines[k].line == Compat(ws[c].version) && Some(lines[k].release) != own;
      assert forall o :: o in lines <==> Listed(owned, c, o);
      OwnedHit(ms, own, c, ws[c].version, lines, hit);
      if hit && !(c in reg && ws[c].version in reg[c]) {
        problems := problems + {Raise(c)};
      }
    }
  }

  lemma OwnedHit(ms: seq<Manifest>, own: Option<string>, c: Crate, v: Version, lines: seq<Owned>, hit: bool)
    requires forall o :: o in lines <==> exists i :: 0 <= i < |ms| && Records(ms[i], c, o)
    requires hit <==> exists k :: 0 <= k < |lines| && lines[k].line == Compat(v) && Some(lines[k].release) != own
    ensures hit <==> exists u :: u in OwnedCuts(ms, own, c) && Compat(u) == Compat(v)
  {
    if hit {
      var k :| 0 <= k < |lines| && lines[k].line == Compat(v) && Some(lines[k].release) != own;
      assert lines[k] in lines;
      assert lines[k].cut in OwnedCuts(ms, own, c);
    }
    if u :| u in OwnedCuts(ms, own, c) && Compat(u) == Compat(v) {
      var i :| 0 <= i < |ms| && Some(ms[i].release) != own && c in ms[i].crates && ms[i].crates[c] == u;
      assert Records(ms[i], c, Owned(Compat(u), ms[i].release, u));
      assert Owned(Compat(u), ms[i].release, u) in lines;
    }
  }
}
