/**
 What the onboarding commands come to when nothing stands in their way, and what
 each refusal leaves alone: which communities rotate, which do not, whose key an
 added community gets and what a deletion leaves behind.
 */
module RotationOutcome {
  import opened Options
  import opened Rotation
  import opened RotationSafety

  /** The key of `s` is in no other community's identity slot. */
  ghost predicate HeldAlone(w: World, s: Slug) {
    Identity(s) in w.sessions && forall o :: o != s && Identity(o) in w.sessions ==> w.sessions[Identity(o)] != w.sessions[Identity(s)]
  }

  /** The identity of `s` is now `minted`, which `x` accepts in place of the key it had before. */
  predicate RolledOnto(w: World, e: World, s: Slug, x: Vtc, minted: Did) {
    && Identity(s) in e.sessions && e.sessions[Identity(s)] == minted && Side(s) !in e.sessions
    && Identity(s) in w.sessions && Accepts(e, x) == Accepts(w, x) - {w.sessions[Identity(s)]} + {minted}
  }

  /** No VTC's access list changed. */
  predicate NothingSwapped(w: World, steps: seq<World>) {
    forall v :: v in steps ==> v.accepted == w.accepted
  }

  // ----- rotation -----

  /** A key bound to a community VTA is not rotated, whoever holds it. */
  lemma BoundStays(w: World, s: Slug, arg: Option<Vtc>, net: Net, minted: Did)
    requires s in w.config.communities && w.config.communities[s].vta.Some?
    ensures NothingSwapped(w, RotateCommand(w, s, arg, net, minted))
    ensures Side(s) !in w.sessions ==> RotateCommand(w, s, arg, net, minted) == []
  {
  }

  /** Nor is one that another community of the config holds. */
  lemma SharedStays(w: World, s: Slug, arg: Option<Vtc>, net: Net, minted: Did, o: Slug)
    requires s in w.config.communities && Side(s) !in w.sessions && Identity(s) in w.sessions
    requires o != s && Known(w, o) && Identity(o) in w.sessions && w.sessions[Identity(o)] == w.sessions[Identity(s)]
    ensures RotateCommand(w, s, arg, net, minted) == []
  {
    assert o in w.config.communities.Keys + w.config.pending.Keys;
  }

  /** An unbound key held by no other community is: the VTC's entry moves onto the new one, which becomes the identity. */
  lemma UnboundRotates(w: World, s: Slug, arg: Option<Vtc>, net: Net, minted: Did, x: Vtc)
    requires s in w.config.communities && w.config.communities[s].vta.None? && HeldAlone(w, s)
    requires Asked(w, Rotate(s, arg, net, minted)) == Some(x) && Resting(w, s, x) && net.swap == Accepted
    ensures var e := End(w, RotateCommand(w, s, arg, net, minted));
            RolledOnto(w, e, s, x, minted) && e.config == w.config
  {
  }

  /** A refused swap leaves the identity and the access list as they were. */
  lemma RefusedSwapLeaves(w: World, s: Slug, arg: Option<Vtc>, net: Net, minted: Did)
    requires s in w.config.communities && Side(s) !in w.sessions && net.swap == Refused
    ensures End(w, RotateCommand(w, s, arg, net, minted)) == w
  {
    assert forall did :: Put(w, Side(s), did).sessions - {Side(s)} == w.sessions;
  }

  // ----- confirmation -----

  /** What confirming `s` at `x` makes of the config. */
  ghost predicate ConfirmedAt(w: World, e: World, s: Slug, x: Vtc, vta: Option<Did>) {
    && s !in e.config.pending && s in e.config.communities && e.config.communities[s] == Community(Some(x), vta)
    && forall o :: o != s ==> SameEntry(w, e, o)
  }

  /** A pending community whose identity `x` accepts is confirmed; unbound and held alone, it is rotated too. */
  lemma UnboundConfirms(w: World, s: Slug, vtc: Option<Vtc>, net: Net, minted: Did, x: Vtc)
    requires s in w.config.pending && w.config.pending[s].vta.None? && HeldAlone(w, s)
    requires Asked(w, Continue(s, vtc, None, net, minted)) == Some(x) && Resting(w, s, x) && net.confirmReaches && net.swap == Accepted
    ensures var e := End(w, ContinueCommand(w, s, vtc, None, net, minted));
            RolledOnto(w, e, s, x, minted) && ConfirmedAt(w, e, s, x, None)
  {
  }

  /** A bound one, by the pending entry or by this command, is confirmed with the key it has. */
  lemma BoundConfirms(w: World, s: Slug, vtc: Option<Vtc>, vta: Option<Did>, net: Net, minted: Did, x: Vtc)
    requires s in w.config.pending && (vta.Some? || w.config.pending[s].vta.Some?)
    requires Asked(w, Continue(s, vtc, vta, net, minted)) == Some(x) && Resting(w, s, x) && net.confirmReaches
    ensures var e := End(w, ContinueCommand(w, s, vtc, vta, net, minted));
            && e.accepted == w.accepted && e.sessions == w.sessions
            && ConfirmedAt(w, e, s, x, if vta.Some? then vta else w.config.pending[s].vta)
  {
  }

  /** An identity the VTC does not accept, or a VTC that does not answer, confirms nothing. */
  lemma NotGrantedStaysPending(w: World, s: Slug, vtc: Option<Vtc>, vta: Option<Did>, net: Net, minted: Did)
    requires Side(s) !in w.sessions
    requires var x := Asked(w, Continue(s, vtc, vta, net, minted));
             x.None? || !net.confirmReaches || !IdentityHeld(w, s, x.value)
    ensures ContinueCommand(w, s, vtc, vta, net, minted) == []
  {
  }

  // ----- adding -----

  predicate AddsPending(w: World, e: World, s: Slug, did: Did, vtc: Option<Vtc>, vta: Option<Did>) {
    && Identity(s) in e.sessions && e.sessions[Identity(s)] == did
    && s in e.config.pending && e.config.pending[s] == Pending(did, vtc, vta)
    && e.config.communities == w.config.communities && e.accepted == w.accepted
  }

  lemma FreshAdds(w: World, s: Slug, vtc: Option<Vtc>, vta: Option<Did>, overwrite: bool, minted: Did)
    requires s != "" && !Known(w, s)
    ensures AddsPending(w, End(w, AddCommand(w, s, Fresh, vtc, vta, overwrite, minted)), s, minted, vtc, vta)
  {
  }

  /** With `--reuse-identity` the added community gets the other's key, which the other keeps. */
  lemma ReuseAdds(w: World, s: Slug, from: Slug, vtc: Option<Vtc>, vta: Option<Did>, overwrite: bool, minted: Did)
    requires s != "" && !Known(w, s) && from in w.config.communities && Identity(from) in w.sessions
    ensures var e := End(w, AddCommand(w, s, Reuse(from), vtc, vta, overwrite, minted));
            && AddsPending(w, e, s, w.sessions[Identity(from)], vtc, vta)
            && Identity(from) in e.sessions && e.sessions[Identity(from)] == e.sessions[Identity(s)]
  {
  }

  /** A pending community is replaced only with `--overwrite`, a confirmed one never. */
  lemma KnownIsKept(w: World, s: Slug, source: Source, vtc: Option<Vtc>, vta: Option<Did>, overwrite: bool, minted: Did)
    requires Known(w, s)
    ensures s in w.config.communities || !overwrite ==> AddCommand(w, s, source, vtc, vta, overwrite, minted) == []
    ensures s !in w.config.communities && overwrite && source.Fresh? && s != "" ==>
            AddsPending(w, End(w, AddCommand(w, s, source, vtc, vta, overwrite, minted)), s, minted, vtc, vta)
  {
  }

  /** A reuse of an identity that is not there is refused: of a pending or unknown community, of one without a key, of its own. */
  lemma BadReuseRefused(w: World, s: Slug, from: Slug, vtc: Option<Vtc>, vta: Option<Did>, overwrite: bool, minted: Did)
    requires from == s || from !in w.config.communities || Identity(from) !in w.sessions
    ensures AddCommand(w, s, Reuse(from), vtc, vta, overwrite, minted) == []
  {
  }

  // ----- deleting -----

  /** A deleted community is unknown and has no identity; its side slot and everybody else's entries stay. */
  lemma DeleteForgets(w: World, s: Slug)
    requires Known(w, s) && !(s in w.config.pending && s in w.config.communities)
    ensures var e := End(w, DeleteCommand(w, s));
            && !Known(e, s) && e.sessions == w.sessions - {Identity(s)} && e.accepted == w.accepted
            && forall o :: o != s ==> SameEntry(w, e, o)
  {
  }
}
