/**
 The onboarding functions over a live session store, saved config and VTC, as
 they run: each write is recorded, so that the record is the sequence of worlds
 a crash could leave behind. Proved to pass through exactly the worlds of the
 commands in `Rotation`.
 */
module CommunityStore {
  import opened Options
  import opened Rotation

  class Cnm {
    var sessions: map<Key, Did>
    var accepted: map<Vtc, set<Did>>
    var config: Config
    ghost var trace: seq<World>

    ghost function State(): World
      reads this
    {
      World(sessions, accepted, config)
    }

    /** The record grew by exactly these worlds and ends where they end. */
    twostate predicate Passed(steps: seq<World>)
      reads this
    {
      trace == old(trace) + steps && State() == End(old(State()), steps)
    }

    method Store(k: Key, did: Did)
      modifies this
      ensures Passed([Put(old(State()), k, did)])
    {
      sessions := sessions[k := did];
      trace := trace + [State()];
    }

    method Logout(k: Key)
      modifies this
      ensures Passed([Drop(old(State()), k)])
    {
      sessions := sessions - {k};
      trace := trace + [State()];
    }

    /** `swap_key`: the VTC commits for a key it accepts unless it refuses; the answer can get lost. */
    method SwapKey(x: Vtc, from: Did, to: Did, reply: SwapReply) returns (ok: bool)
      modifies this
      ensures var w := old(State());
              if from in Accepts(w, x) && reply != Refused
              then Passed([Swapped(w, x, from, to)]) && ok == (reply == Accepted)
              else Passed([]) && !ok
    {
      var listed := if x in accepted then accepted[x] else {};
      if from !in listed || reply == Refused {
        return false;
      }
      accepted := accepted[x := listed - {from} + {to}];
      trace := trace + [State()];
      ok := reply == Accepted;
    }

    method RotateIdentity(s: Slug, x: Vtc, from: Did, to: Did, reply: SwapReply) returns (ok: bool)
      modifies this
      ensures Passed(RotateSteps(old(State()), s, x, from, to, reply))
      ensures ok <==> from in Accepts(old(State()), x) && reply == Accepted
    {
      Store(Side(s), to);
      ok := SwapKey(x, from, to, reply);
      if !ok {
        Logout(Side(s));
        return;
      }
      Store(Identity(s), to);
      Logout(Side(s));
    }

    method RecoverRotation(s: Slug, x: Vtc, reaches: bool) returns (adopted: Option<Did>)
      modifies this
      ensures Passed(RecoverSteps(old(State()), s, x, reaches))
      ensures adopted.Some? <==> Side(s) in old(sessions) && reaches && old(sessions[Side(s)]) in Accepts(old(State()), x)
      ensures adopted.Some? ==> adopted.value == old(sessions[Side(s)])
    {
      if Side(s) !in sessions {
        return None;
      }
      var waiting := sessions[Side(s)];
      var ok := reaches && x in accepted && waiting in accepted[x];
      if ok {
        Store(Identity(s), waiting);
      }
      Logout(Side(s));
      adopted := if ok then Some(waiting) else None;
    }

    method RotationBlocker(c: Config, s: Slug, did: Did, vta: Option<Did>) returns (blocked: bool)
      ensures blocked <==> Blocked(c, sessions, s, did, vta)
    {
      if vta.Some? {
        return true;
      }
      blocked := false;
      var todo := c.communities.Keys + c.pending.Keys;
      while todo != {}
        invariant todo <= c.communities.Keys + c.pending.Keys
        invariant blocked <==> exists o :: o in c.communities.Keys + c.pending.Keys && o !in todo && o != s
                                           && Identity(o) in sessions && sessions[Identity(o)] == did
      {
        var o :| o in todo;
        if o != s && Identity(o) in sessions && sessions[Identity(o)] == did {
          blocked := true;
        }
        todo := todo - {o};
      }
    }

    method RotateCommunity(s: Slug, arg: Option<Vtc>, net: Net, minted: Did) returns (rotated: bool)
      modifies this
      ensures Passed(RotateCommand(old(State()), s, arg, net, minted))
      ensures minted !in old(sessions).Values ==> (rotated <==> Identity(s) in sessions && sessions[Identity(s)] == minted)
    {
      if s !in config.communities {
        return false;
      }
      var c := config.communities[s];
      var known := if arg.Some? then arg else c.vtc;
      if known.None? {
        return false;
      }
      rotated := RotateAtVtc(s, known.value, c.vta, net, minted);
    }

    /** `rotate_community` once its VTC is known. */
    method RotateAtVtc(s: Slug, x: Vtc, vta: Option<Did>, net: Net, minted: Did) returns (rotated: bool)
      modifies this
      ensures Passed(RotateAt(old(State()), s, x, vta, net, minted))
      ensures minted !in old(sessions).Values ==> (rotated <==> Identity(s) in sessions && sessions[Identity(s)] == minted)
    {
      var adopted := RecoverRotation(s, x, net.recoverReaches);
      if Identity(s) !in sessions {
        return false;
      }
      var did := sessions[Identity(s)];
      var blocked := RotationBlocker(config, s, did, vta);
      if blocked {
        return false;
      }
      ghost var w := old(State());
      ghost var first := RecoverSteps(w, s, x, net.recoverReaches);
      ghost var second := RotateSteps(State(), s, x, did, minted, net.swap);
      rotated := RotateIdentity(s, x, did, minted, net.swap);
      JoinSteps(w, old(trace), first, second);
    }

    method BeginCommunity(s: Slug, source: Source, vtc: Option<Vtc>, vta: Option<Did>, overwrite: bool, minted: Did)
      returns (admin: Option<Did>)
      modifies this
      ensures Passed(AddCommand(old(State()), s, source, vtc, vta, overwrite, minted))
      ensures admin.None? <==> AddCommand(old(State()), s, source, vtc, vta, overwrite, minted) == []
      ensures admin.Some? ==> && Identity(s) in sessions && sessions[Identity(s)] == admin.value
                              && s in config.pending && config.pending[s] == Pending(admin.value, vtc, vta)
    {
      if s == "" || s in config.communities || (s in config.pending && !overwrite) {
        return None;
      }
      var did := minted;
      if source.Reuse? {
        if source.from == s || source.from !in config.communities || Identity(source.from) !in sessions {
          return None;
        }
        did := sessions[Identity(source.from)];
      }
      Store(Identity(s), did);
      SaveConfig(config.(pending := config.pending[s := Pending(did, vtc, vta)]));
      admin := Some(did);
    }

    method SaveConfig(c: Config)
      modifies this
      ensures Passed([old(State()).(config := c)])
    {
      config := c;
      trace := trace + [State()];
    }

    method ContinueCommunity(s: Slug, vtcArg: Option<Vtc>, vtaArg: Option<Did>, net: Net, minted: Did) returns (confirmed: bool)
      modifies this
      ensures Passed(ContinueCommand(old(State()), s, vtcArg, vtaArg, net, minted))
      ensures confirmed <==> s in old(config).pending && s !in config.pending && s in config.communities
      ensures !confirmed ==> config == old(config)
    {
      if s !in config.pending || Identity(s) !in sessions {
        return false;
      }
      var p := config.pending[s];
      var known := if vtcArg.Some? then vtcArg else p.vtc;
      if known.None? {
        return false;
      }
      var x := known.value;
      var vta := if vtaArg.Some? then vtaArg else p.vta;
      var adopted := RecoverRotation(s, x, net.recoverReaches);
      var did := sessions[Identity(s)];
      if !(net.confirmReaches && x in accepted && did in accepted[x]) {
        return false;
      }
      ghost var w, r := old(State()), State();
      ghost var first := RecoverSteps(w, s, x, net.recoverReaches);
      ghost var last := ConfirmedPart(r, s, x, vta, net.swap, minted);
      Finish(s, x, vta, did, net.swap, minted);
      JoinSteps(w, old(trace), first, last);
      confirmed := true;
    }

    /** `continue_community` once the VTC has accepted `did`: rotate unless blocked, then save the config. */
    method Finish(s: Slug, x: Vtc, vta: Option<Did>, did: Did, reply: SwapReply, minted: Did)
      requires Identity(s) in sessions && sessions[Identity(s)] == did
      modifies this
      ensures Passed(ConfirmedPart(old(State()), s, x, vta, reply, minted))
      ensures config == Confirmed(old(config), s, x, vta)
    {
      var saved := Confirmed(config, s, x, vta);
      ghost var r := State();
      var blocked := RotationBlocker(saved, s, did, vta);
      ghost var second := if blocked then [] else RotateSteps(r, s, x, did, minted, reply);
      if !blocked {
        var rotated := RotateIdentity(s, x, did, minted, reply);
      }
      JoinSteps(r, old(trace), second, [State().(config := saved)]);
      SaveConfig(saved);
    }

    method DeleteCommunity(s: Slug) returns (deleted: bool)
      modifies this
      ensures Passed(DeleteCommand(old(State()), s))
      ensures deleted <==> s in old(config).pending || s in old(config).communities
    {
      if s in config.pending {
        var c := config.(pending := config.pending - {s});
        Logout(Identity(s));
        SaveConfig(c);
        return true;
      }
      if s !in config.communities {
        return false;
      }
      var c := config.(communities := config.communities - {s});
      Logout(Identity(s));
      SaveConfig(c);
      deleted := true;
    }
  }

  lemma JoinSteps(w: World, before: seq<World>, first: seq<World>, second: seq<World>)
    ensures before + first + second == before + (first + second)
    ensures End(End(w, first), second) == End(w, first + second)
  {
  }
}
