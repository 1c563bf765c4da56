/**
 A community keeps a key its VTC accepts, through every run and every crash,
 from its grant on; and no command on another community can take it away,
 whatever the network answers there.
 */
module RotationSafety {
  import opened Options
  import opened Rotation

  // ----- a command on another community -----

  /** The slots and config entries of `c` are as they were, and wherever it was held it still is. */
  ghost predicate Untouched(w: World, after: World, c: Slug) {
    && SameSlot(w, after, Identity(c)) && SameSlot(w, after, Side(c)) && SameEntry(w, after, c)
    && forall x :: Keeps(w, c, x) ==> Keeps(after, c, x)
  }

  predicate SameSlot(w: World, after: World, k: Key) {
    (k in after.sessions <==> k in w.sessions) && (k in w.sessions ==> after.sessions[k] == w.sessions[k])
  }

  predicate SameEntry(w: World, after: World, c: Slug) {
    && (c in after.config.communities <==> c in w.config.communities)
    && (c in w.config.communities ==> after.config.communities[c] == w.config.communities[c])
    && (c in after.config.pending <==> c in w.config.pending)
  }

  lemma ThenUntouched(a: World, b: World, after: World, c: Slug)
    requires Untouched(a, b, c) && Untouched(b, after, c)
    ensures Untouched(a, after, c)
  {
  }

  /** Every world of a stretch of writes leaves `c` as it was before the stretch. */
  ghost predicate AllUntouched(w: World, steps: seq<World>, c: Slug) {
    forall i :: 0 <= i < |steps| ==> Untouched(w, steps[i], c)
  }

  lemma StretchesUntouched(w: World, first: seq<World>, second: seq<World>, c: Slug)
    requires AllUntouched(w, first, c) && AllUntouched(End(w, first), second, c)
    ensures AllUntouched(w, first + second, c)
  {
    forall i | 0 <= i < |second|
      ensures Untouched(w, second[i], c)
    {
      if first != [] { ThenUntouched(w, End(w, first), second[i], c); }
    }
  }

  /** A write of a new key, to a slot that is not `c`'s. */
  lemma FreshUntouched(w: World, k: Key, did: Did, c: Slug)
    requires k.slug != c && did !in w.sessions.Values
    ensures Untouched(w, Put(w, k, did), c)
  {
  }

  /** A copy of a stored key into another identity. */
  lemma CopyUntouched(w: World, s: Slug, k: Key, c: Slug)
    requires c != s && k in w.sessions && (k == Side(s) || k.Identity?)
    ensures Untouched(w, Put(w, Identity(s), w.sessions[k]), c)
  {
    assert k != Side(c);
  }

  lemma DropUntouched(w: World, k: Key, c: Slug)
    requires k.slug != c
    ensures Untouched(w, Drop(w, k), c)
  {
  }

  lemma ConfigUntouched(w: World, config: Config, c: Slug)
    requires SameEntry(w, w.(config := config), c)
    ensures Untouched(w, w.(config := config), c)
  {
  }

  /** Another community of the config holds the identity stored for `s`. */
  predicate Shared(w: World, s: Slug) {
    exists o :: o in w.config.communities.Keys + w.config.pending.Keys && o != s
                && Identity(o) in w.sessions && Identity(s) in w.sessions && w.sessions[Identity(o)] == w.sessions[Identity(s)]
  }

  lemma SwapUntouched(w: World, x: Vtc, s: Slug, to: Did, c: Slug)
    requires c != s && Identity(s) in w.sessions && !Shared(w, s)
    ensures Untouched(w, Swapped(w, x, w.sessions[Identity(s)], to), c)
  {
    var from := w.sessions[Identity(s)];
    var after := Swapped(w, x, from, to);
    forall y | Keeps(w, c, y)
      ensures Keeps(after, c, y)
    {
      assert c in w.config.communities.Keys + w.config.pending.Keys;
      assert Identity(c) in w.sessions ==> w.sessions[Identity(c)] != from;
      if !IdentityHeld(w, c, y) {
        assert w.sessions[Side(c)] != from;
      }
    }
  }

  /**
   What `Keeps` leaves out is exactly what another's swap can take: a known
   community `c` held at `x` is still held there after an unblocked swap of `s`
   unless only its side slot was accepted and holds the key swapped away.
   */
  lemma SwapTakesSharedSide(w: World, x: Vtc, s: Slug, to: Did, c: Slug)
    requires c != s && Known(w, c) && Held(w, c, x) && to !in w.sessions.Values
    requires Identity(s) in w.sessions && !Shared(w, s)
    ensures Held(Swapped(w, x, w.sessions[Identity(s)], to), c, x) <==>
            IdentityHeld(w, c, x) || w.sessions[Side(c)] != w.sessions[Identity(s)]
  {
    assert c in w.config.communities.Keys + w.config.pending.Keys;
    assert Identity(c) in w.sessions ==> w.sessions[Identity(c)] != w.sessions[Identity(s)];
  }

  lemma RotateUntouched(w: World, s: Slug, x: Vtc, to: Did, reply: SwapReply, c: Slug)
    requires c != s && Identity(s) in w.sessions && !Shared(w, s) && to !in w.sessions.Values
    ensures AllUntouched(w, RotateSteps(w, s, x, w.sessions[Identity(s)], to, reply), c)
  {
    var from := w.sessions[Identity(s)];
    var parked := Put(w, Side(s), to);
    FreshUntouched(w, Side(s), to, c);
    if from in Accepts(w, x) && reply != Refused {
      var moved := Swapped(parked, x, from, to);
      assert !Shared(parked, s);
      SwapUntouched(parked, x, s, to, c);
      ThenUntouched(w, parked, moved, c);
      if reply == Lost {
        DropUntouched(moved, Side(s), c);
        ThenUntouched(w, moved, Drop(moved, Side(s)), c);
      } else {
        PromoteUntouched(w, moved, s, c);
      }
    } else {
      DropUntouched(parked, Side(s), c);
      ThenUntouched(w, parked, Drop(parked, Side(s)), c);
    }
  }

  /** The identity is overwritten from the side slot and the slot cleared. */
  lemma PromoteUntouched(w: World, moved: World, s: Slug, c: Slug)
    requires Untouched(w, moved, c) && c != s && Side(s) in moved.sessions
    ensures var promoted := Put(moved, Identity(s), moved.sessions[Side(s)]);
            Untouched(w, promoted, c) && Untouched(w, Drop(promoted, Side(s)), c)
  {
    var promoted := Put(moved, Identity(s), moved.sessions[Side(s)]);
    CopyUntouched(moved, s, Side(s), c);
    ThenUntouched(w, moved, promoted, c);
    DropUntouched(promoted, Side(s), c);
    ThenUntouched(w, promoted, Drop(promoted, Side(s)), c);
  }

  lemma RecoverUntouched(w: World, s: Slug, x: Vtc, reaches: bool, c: Slug)
    requires c != s
    ensures AllUntouched(w, RecoverSteps(w, s, x, reaches), c)
  {
    if Side(s) in w.sessions {
      PromoteUntouched(w, w, s, c);
      DropUntouched(w, Side(s), c);
    }
  }

  /** Recovery clears the slot, leaves an identity where there was one, and stores no key that was not stored. */
  lemma RecoverClears(w: World, s: Slug, x: Vtc, reaches: bool)
    ensures var e := End(w, RecoverSteps(w, s, x, reaches));
            Side(s) !in e.sessions && (Identity(s) in w.sessions ==> Identity(s) in e.sessions)
            && e.config == w.config && e.accepted == w.accepted && e.sessions.Values <= w.sessions.Values
  {
    var e := End(w, RecoverSteps(w, s, x, reaches));
    forall did | did in e.sessions.Values
      ensures did in w.sessions.Values
    {
      var k :| k in e.sessions && e.sessions[k] == did;
      assert (k in w.sessions && w.sessions[k] == did) || did == w.sessions[Side(s)];
    }
  }

  lemma NotBlocked(w: World, config: Config, s: Slug, did: Did, vta: Option<Did>)
    requires !Blocked(config, w.sessions, s, did, vta) && Identity(s) in w.sessions && w.sessions[Identity(s)] == did
    requires w.config.communities.Keys + w.config.pending.Keys <= config.communities.Keys + config.pending.Keys
    ensures !Shared(w, s)
  {
  }

  /**
   Rotating one community touches no other: whatever the VTC answers, whichever
   VTC is named and wherever it crashes, every other community's stored keys are
   what they were, and it is held wherever it was. That covers communities on
   the same VTC and identities made with reuse.
   */
  lemma RotationTouchesNoOther(w: World, s: Slug, arg: Option<Vtc>, net: Net, minted: Did, c: Slug)
    requires c != s && minted !in w.sessions.Values
    ensures AllUntouched(w, RotateCommand(w, s, arg, net, minted), c)
  {
    if RotateCommand(w, s, arg, net, minted) != [] {
      var x := if arg.Some? then arg.value else w.config.communities[s].vtc.value;
      RotateAtTouchesNoOther(w, s, x, w.config.communities[s].vta, net, minted, c);
    }
  }

  lemma RotateAtTouchesNoOther(w: World, s: Slug, x: Vtc, vta: Option<Did>, net: Net, minted: Did, c: Slug)
    requires c != s && minted !in w.sessions.Values
    ensures AllUntouched(w, RotateAt(w, s, x, vta, net, minted), c)
  {
    var first := RecoverSteps(w, s, x, net.recoverReaches);
    var r := End(w, first);
    RecoverUntouched(w, s, x, net.recoverReaches, c);
    RecoverClears(w, s, x, net.recoverReaches);
    if Identity(s) in r.sessions && !Blocked(r.config, r.sessions, s, r.sessions[Identity(s)], vta) {
      NotBlocked(r, r.config, s, r.sessions[Identity(s)], vta);
      RotateUntouched(r, s, x, minted, net.swap, c);
      StretchesUntouched(w, first, RotateSteps(r, s, x, r.sessions[Identity(s)], minted, net.swap), c);
    }
  }

  /** The worlds `continue` passes through: the recovery, and once confirmed the rest. */
  lemma ContinueParts(w: World, s: Slug, vtc: Option<Vtc>, vta: Option<Did>, net: Net, minted: Did)
    returns (x: Vtc, first: seq<World>, last: seq<World>)
    requires ContinueCommand(w, s, vtc, vta, net, minted) != []
    ensures Identity(s) in w.sessions && Asked(w, Continue(s, vtc, vta, net, minted)) == Some(x)
    ensures first == RecoverSteps(w, s, x, net.recoverReaches) && Identity(s) in End(w, first).sessions
    ensures ContinueCommand(w, s, vtc, vta, net, minted) == first + last
    ensures var r := End(w, first);
            last == if net.confirmReaches && r.sessions[Identity(s)] in Accepts(r, x)
                    then ConfirmedPart(r, s, x, if vta.Some? then vta else w.config.pending[s].vta, net.swap, minted) else []
  {
    x := if vtc.Some? then vtc.value else w.config.pending[s].vtc.value;
    first := RecoverSteps(w, s, x, net.recoverReaches);
    RecoverClears(w, s, x, net.recoverReaches);
    var r := End(w, first);
    last := [];
    if net.confirmReaches && r.sessions[Identity(s)] in Accepts(r, x) {
      last := ConfirmedPart(r, s, x, if vta.Some? then vta else w.config.pending[s].vta, net.swap, minted);
    }
  }

  lemma ConfirmedUntouched(r: World, s: Slug, x: Vtc, vta: Option<Did>, reply: SwapReply, minted: Did, c: Slug)
    requires c != s && Identity(s) in r.sessions && minted !in r.sessions.Values
    ensures AllUntouched(r, ConfirmedPart(r, s, x, vta, reply, minted), c)
  {
    var did := r.sessions[Identity(s)];
    var config := Confirmed(r.config, s, x, vta);
    var second := if Blocked(config, r.sessions, s, did, vta) then [] else RotateSteps(r, s, x, did, minted, reply);
    if !Blocked(config, r.sessions, s, did, vta) {
      NotBlocked(r, config, s, did, vta);
      RotateUntouched(r, s, x, minted, reply, c);
    }
    var e := End(r, second);
    assert e.config == r.config;
    ConfigUntouched(e, config, c);
    StretchesUntouched(r, second, [e.(config := config)], c);
  }

  /** Confirming a community, which also rotates it, touches no other either. */
  lemma ContinueTouchesNoOther(w: World, s: Slug, vtc: Option<Vtc>, vta: Option<Did>, net: Net, minted: Did, c: Slug)
    requires c != s && minted !in w.sessions.Values
    ensures AllUntouched(w, ContinueCommand(w, s, vtc, vta, net, minted), c)
  {
    if ContinueCommand(w, s, vtc, vta, net, minted) != [] {
      var x, first, last := ContinueParts(w, s, vtc, vta, net, minted);
      RecoverUntouched(w, s, x, net.recoverReaches, c);
      RecoverClears(w, s, x, net.recoverReaches);
      if last != [] {
        ConfirmedUntouched(End(w, first), s, x, if vta.Some? then vta else w.config.pending[s].vta, net.swap, minted, c);
      }
      StretchesUntouched(w, first, last, c);
    }
  }

  lemma AddUntouched(w: World, s: Slug, source: Source, vtc: Option<Vtc>, vta: Option<Did>, overwrite: bool, minted: Did, c: Slug)
    requires c != s && minted !in w.sessions.Values
    ensures AllUntouched(w, AddCommand(w, s, source, vtc, vta, overwrite, minted), c)
  {
    var steps := AddCommand(w, s, source, vtc, vta, overwrite, minted);
    if steps != [] {
      if source.Fresh? { FreshUntouched(w, Identity(s), minted, c); } else { CopyUntouched(w, s, Identity(source.from), c); }
      ConfigUntouched(steps[0], steps[1].config, c);
      ThenUntouched(w, steps[0], steps[1], c);
    }
  }

  lemma DeleteUntouched(w: World, s: Slug, c: Slug)
    requires c != s
    ensures AllUntouched(w, DeleteCommand(w, s), c)
  {
    var steps := DeleteCommand(w, s);
    if steps != [] {
      DropUntouched(w, Identity(s), c);
      ConfigUntouched(steps[0], steps[1].config, c);
      ThenUntouched(w, steps[0], steps[1], c);
    }
  }

  /** No command that names another community, and no grant, takes anything from `c`, whatever the network does. */
  lemma OthersTouchNothing(w: World, cmd: Command, c: Slug)
    requires MintsFresh(w, cmd) && !NamesSlug(cmd, c)
    ensures AllUntouched(w, Steps(w, cmd), c)
  {
    match cmd {
      case Add(s, source, vtc, vta, overwrite, minted) => AddUntouched(w, s, source, vtc, vta, overwrite, minted, c);
      case Continue(s, vtc, vta, net, minted) => ContinueTouchesNoOther(w, s, vtc, vta, net, minted, c);
      case Rotate(s, vtc, net, minted) => RotationTouchesNoOther(w, s, vtc, net, minted, c);
      case Delete(s) => DeleteUntouched(w, s, c);
      case Grant(x, did) =>
    }
  }

  // ----- the community's own commands -----

  ghost predicate AllKeep(steps: seq<World>, s: Slug, x: Vtc) {
    forall i :: 0 <= i < |steps| ==> Keeps(steps[i], s, x)
  }

  /** The key `x` accepts is the identity, and no rotation is under way. */
  predicate Resting(w: World, s: Slug, x: Vtc) {
    Known(w, s) && Identity(s) in w.sessions && Side(s) !in w.sessions && w.sessions[Identity(s)] in Accepts(w, x)
  }

  /** At every write of a rotation `x` accepts the identity or the side slot, when an error reply means no commit. */
  lemma RotateKeepsOwn(w: World, s: Slug, x: Vtc, to: Did, reply: SwapReply)
    requires Resting(w, s, x) && to !in w.sessions.Values && reply != Lost
    ensures var steps := RotateSteps(w, s, x, w.sessions[Identity(s)], to, reply);
            AllKeep(steps, s, x) && Resting(End(w, steps), s, x) && End(w, steps).config == w.config
  {
  }

  /** So does recovery, at every write. */
  lemma RecoverKeepsOwn(w: World, s: Slug, x: Vtc)
    requires Keeps(w, s, x)
    ensures AllKeep(RecoverSteps(w, s, x, true), s, x)
  {
  }

  /**
   From any world in which `x` accepts one of the two keys, a crash of a rotation
   or of a recovery included, one completed recovery leaves it as the identity
   with the side slot empty, and a second one has nothing to do.
   */
  lemma RecoveryCompletes(w: World, s: Slug, x: Vtc)
    requires Held(w, s, x)
    ensures var e := End(w, RecoverSteps(w, s, x, true));
            && Identity(s) in e.sessions && e.sessions[Identity(s)] in Accepts(e, x)
            && Side(s) !in e.sessions && RecoverSteps(e, s, x, true) == []
  {
  }

  lemma RotateAtKeepsOwn(w: World, s: Slug, x: Vtc, vta: Option<Did>, net: Net, minted: Did)
    requires Keeps(w, s, x) && net.recoverReaches && net.swap != Lost && minted !in w.sessions.Values
    ensures AllKeep(RotateAt(w, s, x, vta, net, minted), s, x)
  {
    RecoverKeepsOwn(w, s, x);
    RecoverClears(w, s, x, true);
    RecoveryCompletes(w, s, x);
    RotateKeepsOwn(End(w, RecoverSteps(w, s, x, true)), s, x, minted, net.swap);
  }

  lemma RotateCommandKeepsOwn(w: World, s: Slug, arg: Option<Vtc>, net: Net, minted: Did, x: Vtc)
    requires Keeps(w, s, x) && Faithful(w, Rotate(s, arg, net, minted), s, x)
    ensures AllKeep(RotateCommand(w, s, arg, net, minted), s, x)
  {
    if RotateCommand(w, s, arg, net, minted) != [] {
      RotateAtKeepsOwn(w, s, x, w.config.communities[s].vta, net, minted);
    }
  }

  lemma ConfirmedKeepsOwn(r: World, s: Slug, x: Vtc, vta: Option<Did>, reply: SwapReply, minted: Did)
    requires Resting(r, s, x) && reply != Lost && minted !in r.sessions.Values
    ensures var last := ConfirmedPart(r, s, x, vta, reply, minted);
            AllKeep(last, s, x) && Resting(End(r, last), s, x)
  {
    RotateKeepsOwn(r, s, x, minted, reply);
  }

  /** The first rotation of all runs while the community is still pending; it keeps the granted key too. */
  lemma ContinueKeepsOwn(w: World, s: Slug, vtc: Option<Vtc>, vta: Option<Did>, net: Net, minted: Did, x: Vtc)
    requires Keeps(w, s, x) && Faithful(w, Continue(s, vtc, vta, net, minted), s, x)
    ensures AllKeep(ContinueCommand(w, s, vtc, vta, net, minted), s, x)
  {
    if ContinueCommand(w, s, vtc, vta, net, minted) != [] {
      var y, first, last := ContinueParts(w, s, vtc, vta, net, minted);
      RecoverKeepsOwn(w, s, x);
      RecoverClears(w, s, x, true);
      RecoveryCompletes(w, s, x);
      var r := End(w, first);
      if last != [] {
        ConfirmedKeepsOwn(r, s, x, if vta.Some? then vta else w.config.pending[s].vta, net.swap, minted);
      }
    }
  }

  /**
   Every world a command passes through keeps what `x` accepts of `s`: its own
   commands under answers that mean what the code takes them to mean, the
   commands of others under any.
   */
  lemma StepsKeepHeld(w: World, c: Command, s: Slug, x: Vtc)
    requires Keeps(w, s, x) && Faithful(w, c, s, x)
    ensures AllKeep(Steps(w, c), s, x)
  {
    if !NamesSlug(c, s) {
      OthersTouchNothing(w, c, s);
    } else {
      match c {
        case Continue(_, vtc, vta, net, minted) => ContinueKeepsOwn(w, s, vtc, vta, net, minted, x);
        case Rotate(_, vtc, net, minted) => RotateCommandKeepsOwn(w, s, vtc, net, minted, x);
        case _ =>
      }
    }
  }

  /**
   From its grant on, pending or confirmed, no run strands a community: after any
   commands, each cut short by a crash or not, `x` accepts the identity or the
   key in the side slot.
   */
  lemma {:induction false} NoRunStrands(w: World, rs: seq<Ran>, s: Slug, x: Vtc)
    requires Keeps(w, s, x) && AllFaithful(w, rs, s, x)
    ensures Keeps(Run(w, rs), s, x)
    decreases rs
  {
    if rs != [] {
      StepsKeepHeld(w, rs[0].command, s, x);
      NoRunStrands(After(w, rs[0]), rs[1..], s, x);
    }
  }

  /**
   In particular from the moment `x` grants the stored identity, whatever else
   the store holds by then.
   */
  lemma GrantedIsNeverStranded(w: World, s: Slug, x: Vtc, rs: seq<Ran>)
    requires Known(w, s) && Identity(s) in w.sessions
    requires AllFaithful(Run(w, [Ran(Grant(x, w.sessions[Identity(s)]), 1)]), rs, s, x)
    ensures var granted := Run(w, [Ran(Grant(x, w.sessions[Identity(s)]), 1)]);
            Keeps(granted, s, x) && Keeps(Run(granted, rs), s, x)
  {
    var grant := Ran(Grant(x, w.sessions[Identity(s)]), 1);
    var granted := After(w, grant);
    assert [grant][1..] == [] && Run(granted, []) == granted;
    NoRunStrands(granted, rs, s, x);
  }

  // ----- from the first command on -----

  ghost predicate AllSafe(steps: seq<World>, s: Slug) {
    forall i :: 0 <= i < |steps| ==> Safe(steps[i], s)
  }

  /** The config of `continue`'s worlds: as it was, until the last write confirms the community. */
  lemma PendingUntilLast(r: World, s: Slug, x: Vtc, vta: Option<Did>, reply: SwapReply, minted: Did)
    requires Identity(s) in r.sessions
    ensures var last := ConfirmedPart(r, s, x, vta, reply, minted);
            && (forall i :: 0 <= i < |last| - 1 ==> last[i].config == r.config)
            && last[|last| - 1].config == Confirmed(r.config, s, x, vta)
  {
  }

  lemma ConfirmedIsSafe(r: World, s: Slug, x: Vtc, vta: Option<Did>, reply: SwapReply, minted: Did)
    requires Resting(r, s, x) && s !in r.config.communities && reply != Lost && minted !in r.sessions.Values
    ensures AllSafe(ConfirmedPart(r, s, x, vta, reply, minted), s)
  {
    ConfirmedKeepsOwn(r, s, x, vta, reply, minted);
    PendingUntilLast(r, s, x, vta, reply, minted);
  }

  /** A confirmation needs nothing of the past: recovery cleared the slot, and the VTC has just accepted the key. */
  lemma ContinueKeepsSafe(w: World, s: Slug, vtc: Option<Vtc>, vta: Option<Did>, net: Net, minted: Did)
    requires Safe(w, s) && HonestTo(w, Continue(s, vtc, vta, net, minted), s)
    ensures AllSafe(ContinueCommand(w, s, vtc, vta, net, minted), s)
  {
    if ContinueCommand(w, s, vtc, vta, net, minted) != [] {
      var x, first, last := ContinueParts(w, s, vtc, vta, net, minted);
      RecoverClears(w, s, x, true);
      assert forall i :: 0 <= i < |first| ==> first[i].config == w.config;
      if last != [] {
        ConfirmedIsSafe(End(w, first), s, x, if vta.Some? then vta else w.config.pending[s].vta, net.swap, minted);
      }
    }
  }

  lemma StepsKeepSafe(w: World, c: Command, s: Slug)
    requires Safe(w, s) && HonestTo(w, c, s)
    ensures AllSafe(Steps(w, c), s)
  {
    if !NamesSlug(c, s) {
      OthersTouchNothing(w, c, s);
    } else {
      match c {
        case Continue(_, vtc, vta, net, minted) => ContinueKeepsSafe(w, s, vtc, vta, net, minted);
        case Rotate(_, vtc, net, minted) => RotateKeepsSafe(w, s, vtc, net, minted);
        case _ =>
      }
    }
  }

  lemma RotateKeepsConfig(w: World, s: Slug, x: Vtc, vta: Option<Did>, net: Net, minted: Did)
    ensures forall v :: v in RotateAt(w, s, x, vta, net, minted) ==> v.config == w.config
  {
  }

  /** A confirmed community without an identity gets one from the side slot only if the VTC accepts it. */
  lemma RotateAdopts(w: World, s: Slug, x: Vtc, vta: Option<Did>, net: Net, minted: Did)
    requires s in w.config.communities && Identity(s) !in w.sessions
    requires net.recoverReaches && net.swap != Lost && minted !in w.sessions.Values
    ensures forall v :: v in RotateAt(w, s, x, vta, net, minted) ==> Identity(s) !in v.sessions || Keeps(v, s, x)
  {
    var first := RecoverSteps(w, s, x, true);
    var r := End(w, first);
    RecoverAdopts(w, s, x);
    if Identity(s) in r.sessions {
      RecoverClears(w, s, x, true);
      RotateKeepsOwn(r, s, x, minted, net.swap);
    }
  }

  lemma RecoverAdopts(w: World, s: Slug, x: Vtc)
    requires Known(w, s) && Identity(s) !in w.sessions
    ensures forall v :: v in RecoverSteps(w, s, x, true) ==> Identity(s) !in v.sessions || Keeps(v, s, x)
    ensures var r := End(w, RecoverSteps(w, s, x, true)); Identity(s) in r.sessions ==> Resting(r, s, x)
  {
  }

  lemma RotateKeepsSafe(w: World, s: Slug, vtc: Option<Vtc>, net: Net, minted: Did)
    requires Safe(w, s) && HonestTo(w, Rotate(s, vtc, net, minted), s)
    ensures AllSafe(RotateCommand(w, s, vtc, net, minted), s)
  {
    if RotateCommand(w, s, vtc, net, minted) != [] {
      var c := w.config.communities[s];
      var x := if vtc.Some? then vtc.value else c.vtc.value;
      RotateKeepsConfig(w, s, x, c.vta, net, minted);
      if c.vtc.Some? {
        if InUse(w, s) { RotateAtKeepsOwn(w, s, x, c.vta, net, minted); } else { RotateAdopts(w, s, x, c.vta, net, minted); }
      }
    }
  }

  /**
   From any world, an empty one included: if the commands that name `s` are
   answered as the code takes them, then whatever the network answers to every
   other community's commands, `s` once confirmed is held at its VTC as long as
   its identity is stored.
   */
  lemma {:induction false} ConfirmedStaysSafe(w: World, rs: seq<Ran>, s: Slug)
    requires Safe(w, s) && AllHonestTo(w, rs, s)
    ensures Safe(Run(w, rs), s)
    decreases rs
  {
    if rs != [] {
      StepsKeepSafe(w, rs[0].command, s);
      ConfirmedStaysSafe(After(w, rs[0]), rs[1..], s);
    }
  }

  // ----- the hypotheses on the network are exact -----

  /** A completed rotation loses the accepted key exactly when the swap committed and its answer was an error. */
  lemma LostReplyStrands(w: World, s: Slug, x: Vtc, to: Did, reply: SwapReply)
    requires Identity(s) in w.sessions && w.sessions[Identity(s)] in Accepts(w, x) && to != w.sessions[Identity(s)]
    ensures Held(End(w, RotateSteps(w, s, x, w.sessions[Identity(s)], to, reply)), s, x) <==> reply != Lost
  {
  }

  /** A rotation that crashed after the swap: only the side slot holds what the VTC accepts. */
  predicate InFlight(w: World, s: Slug, x: Vtc) {
    && Side(s) in w.sessions && w.sessions[Side(s)] in Accepts(w, x)
    && (Identity(s) in w.sessions ==> w.sessions[Identity(s)] !in Accepts(w, x))
  }

  /**
   Recovering such a world keeps the key exactly when the VTC asked answers and
   accepts it. So a VTC that cannot be reached, or another VTC named with
   `--vtc-did`, makes recovery drop the only key the community's VTC accepts.
   */
  lemma RecoveryNeedsItsVtc(w: World, s: Slug, x: Vtc, asked: Vtc, reaches: bool)
    requires InFlight(w, s, x)
    ensures Held(End(w, RecoverSteps(w, s, asked, reaches)), s, x) <==> reaches && w.sessions[Side(s)] in Accepts(w, asked)
    ensures asked == x ==> (Held(End(w, RecoverSteps(w, s, asked, reaches)), s, x) <==> reaches)
  {
  }
}
