/**
 `check-workspace-version-reqs.py`: every versioned path requirement on a
 sibling accepts the version the sibling has. And what the fixer does to it.
 */
module WorkspaceReqs {
  import opened Versions
  import opened ReleaseGuards
  import opened BumpFixer

  /** The requirement is none, or a caret form the sibling's version satisfies. */
  predicate Accepts(ws: Workspace, d: Dep) {
    d.path && d.name in ws && d.req != Any
    ==> d.req.Caret? && CaretOk(d.req.parts, Components(ws[d.name].version))
  }

  predicate Agrees(ws: Workspace) {
    forall c, i :: c in ws && 0 <= i < |ws[c].deps| ==> Accepts(ws, ws[c].deps[i])
  }

  method CheckWorkspace(ws: Workspace) returns (ok: bool)
    ensures ok <==> Agrees(ws)
  {
    ok := true;
    var todo := ws.Keys;
    while todo != {}
      invariant todo <= ws.Keys
      invariant ok <==> forall c, i :: c in ws && c !in todo && 0 <= i < |ws[c].deps| ==> Accepts(ws, ws[c].deps[i])
    {
      var p :| p in todo;
      ghost var before := ok;
      for i := 0 to |ws[p].deps|
        invariant ok <==> before && forall k :: 0 <= k < i ==> Accepts(ws, ws[p].deps[k])
      {
        var d := ws[p].deps[i];
        if d.name in ws && d.path && d.req != Any {
          if !d.req.Caret? || !CaretOk(d.req.parts, Components(ws[d.name].version)) {
            ok := false;
          }
        }
      }
      todo := todo - {p};
    }
  }

  /** One entry decides: a caret form that the sibling satisfies, or no version, or no path to a member. */
  lemma EntryDecides(ws: Workspace, c: Crate, d: Dep)
    requires c in ws && Agrees(ws)
    ensures Agrees(WithDep(ws, c, d)) <==>
            || !d.path || d.name !in ws || d.req == Any
            || (d.req.Caret? && var v := ws[d.name].version;
                AtMost(Pad(d.req.parts), v) && Compat(Pad(d.req.parts)) == Compat(v))
  {
    EntryAlone(ws, c, d);
    if d.req.Caret? && d.name in ws {
      CaretIsSameLine(d.req.parts, Components(ws[d.name].version));
      assert Pad(Components(ws[d.name].version)) == ws[d.name].version;
    }
  }

  lemma EntryAlone(ws: Workspace, c: Crate, d: Dep)
    requires c in ws && Agrees(ws)
    ensures Agrees(WithDep(ws, c, d)) <==> Accepts(ws, d)
  {
    var after := WithDep(ws, c, d);
    var n := |ws[c].deps|;
    assert after[c].deps[n] == d && after[c].version == ws[c].version;
    if Agrees(after) {
      assert Accepts(after, after[c].deps[n]);
    }
    if Accepts(ws, d) {
      forall p, i | p in after && 0 <= i < |after[p].deps|
        ensures Accepts(after, after[p].deps[i])
      {
        assert i < |ws[p].deps| ==> Accepts(ws, ws[p].deps[i]);
      }
    }
  }

  /** Some member requires `c` by path and version. */
  predicate Pinned(ws: Workspace, c: Crate) {
    exists p, i :: p in ws && 0 <= i < |ws[p].deps| && ws[p].deps[i].name == c && ws[p].deps[i].path && ws[p].deps[i].req != Any
  }

  lemma RaisedAccepts(ws: Workspace, raised: set<Crate>, d: Dep)
    requires Accepts(ws, d)
    ensures Accepts(RaiseAll(ws, raised), MoveDep(d, ws, raised)) <==>
            !(d.name in raised && d.name in ws && d.path && d.req != Any && ZeroZero(ws[d.name].version))
  {
    if d.name in ws {
      ReqAcceptsItsVersion(NextBreaking(ws[d.name].version));
    }
  }

  /**
   Raising crates keeps the workspace resolvable exactly when no raised crate
   that a sibling pins is at 0.0.z, where the `0.0` the fixer writes names a
   different line.
   */
  lemma RaiseKeepsAgreement(ws: Workspace, raised: set<Crate>)
    requires Agrees(ws)
    ensures Agrees(RaiseAll(ws, raised)) <==>
            forall c :: c in raised && c in ws && ZeroZero(ws[c].version) ==> !Pinned(ws, c)
  {
    var w := RaiseAll(ws, raised);
    forall p, i | p in ws && 0 <= i < |ws[p].deps|
      ensures var d := ws[p].deps[i];
              Accepts(w, w[p].deps[i]) <==>
              !(d.name in raised && d.name in ws && d.path && d.req != Any && ZeroZero(ws[d.name].version))
    {
      RaisedAccepts(ws, raised, ws[p].deps[i]);
    }
    if c :| c in raised && c in ws && ZeroZero(ws[c].version) && Pinned(ws, c) {
      var p, i :| p in ws && 0 <= i < |ws[p].deps| && ws[p].deps[i].name == c && ws[p].deps[i].path && ws[p].deps[i].req != Any;
      assert !Accepts(w, w[p].deps[i]);
    } else {
      forall p, i | p in w && 0 <= i < |w[p].deps|
        ensures Accepts(w, w[p].deps[i])
      {
        var d := ws[p].deps[i];
        assert d.path && d.req != Any ==> Pinned(ws, d.name);
      }
    }
  }

  /** Dependency by dependency, the two workspaces pin the same crates. */
  ghost predicate SamePins(a: Workspace, b: Workspace) {
    a.Keys == b.Keys && forall p :: p in a ==> SamePinsIn(a[p].deps, b[p].deps)
  }

  predicate SamePinsIn(a: seq<Dep>, b: seq<Dep>) {
    |a| == |b| && forall i :: 0 <= i < |a| ==> a[i].name == b[i].name && a[i].path == b[i].path && (a[i].req == Any <==> b[i].req == Any)
  }

  lemma PinsCarryOver(a: Workspace, b: Workspace, c: Crate)
    requires SamePins(a, b) && Pinned(a, c)
    ensures Pinned(b, c)
  {
    var p, i :| p in a && 0 <= i < |a[p].deps| && a[p].deps[i].name == c && a[p].deps[i].path && a[p].deps[i].req != Any;
    assert SamePinsIn(a[p].deps, b[p].deps);
    assert b[p].deps[i].name == c;
  }

  lemma RaiseKeepsPins(ws: Workspace, raised: set<Crate>, c: Crate)
    ensures Pinned(RaiseAll(ws, raised), c) <==> Pinned(ws, c)
    ensures c in ws ==> (ZeroZero(RaiseAll(ws, raised)[c].version) <==> ZeroZero(ws[c].version))
  {
    var w := RaiseAll(ws, raised);
    assert SamePins(ws, w) && SamePins(w, ws);
    if Pinned(ws, c) { PinsCarryOver(ws, w, c); }
    if Pinned(w, c) { PinsCarryOver(w, ws, c); }
  }

  lemma {:induction false} RoundsKeepPins(cx: Context, ws: Workspace, k: nat, c: Crate)
    ensures Rounds(cx, ws, k).Keys == ws.Keys && (Pinned(Rounds(cx, ws, k), c) <==> Pinned(ws, c))
    ensures c in ws ==> (ZeroZero(Rounds(cx, ws, k)[c].version) <==> ZeroZero(ws[c].version))
  {
    if k > 0 {
      RoundsKeepPins(cx, ws, k - 1, c);
      RaiseKeepsPins(Rounds(cx, ws, k - 1), Named(cx, Rounds(cx, ws, k - 1)), c);
    }
  }

  /**
   The fixer's tree stays resolvable from one round to the next exactly when no
   pinned crate at 0.0.z is raised; otherwise the `cargo update` after the round
   stops the script.
   */
  lemma RoundResolves(cx: Context, ws: Workspace, k: nat)
    requires Agrees(Rounds(cx, ws, k))
    ensures Agrees(Rounds(cx, ws, k + 1)) <==>
            forall c :: c in Named(cx, Rounds(cx, ws, k)) && c in ws && ZeroZero(ws[c].version) ==> !Pinned(ws, c)
  {
    var w := Rounds(cx, ws, k);
    RaiseKeepsAgreement(w, Named(cx, w));
    forall c
      ensures w.Keys == ws.Keys && (Pinned(w, c) <==> Pinned(ws, c))
      ensures c in ws ==> (ZeroZero(w[c].version) <==> ZeroZero(ws[c].version))
    {
      RoundsKeepPins(cx, ws, k, c);
    }
  }

  /** So a workspace that resolves and pins nothing at 0.0.z resolves after every round. */
  lemma {:induction false} RoundsResolve(cx: Context, ws: Workspace, k: nat)
    requires Agrees(ws) && forall c :: c in ws && ZeroZero(ws[c].version) ==> !Pinned(ws, c)
    ensures Agrees(Rounds(cx, ws, k))
  {
    if k > 0 {
      RoundsResolve(cx, ws, k - 1);
      RoundResolves(cx, ws, k - 1);
    }
  }
}
