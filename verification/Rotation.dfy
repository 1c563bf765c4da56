/**
 Community identities in `cnm`: minting, confirming, rotating at the VTC and
 recovering after a crash. A world is what survives a crash: the session store,
 the saved config and the VTCs' access lists. A command is the sequence of
 worlds its writes go through, so a crash is any prefix of it.
 */
module Rotation {
  import opened Options

  type Slug = string
  type Did = string
  type Vtc = string

  /** A slot of the session store: a community's identity, or its rotation's side slot. */
  datatype Key = Identity(slug: Slug) | Side(slug: Slug)

  datatype Community = Community(vtc: Option<Vtc>, vta: Option<Did>)
  datatype Pending = Pending(did: Did, vtc: Option<Vtc>, vta: Option<Did>)
  datatype Config = Config(communities: map<Slug, Community>, pending: map<Slug, Pending>)

  datatype World = World(sessions: map<Key, Did>, accepted: map<Vtc, set<Did>>, config: Config)

  /** What came of a swap request: an answer, or a commit whose answer was an error. */
  datatype SwapReply = Accepted | Refused | Lost

  /** The network during one command: whether the VTC answers, and the swap's reply. */
  datatype Net = Net(recoverReaches: bool, confirmReaches: bool, swap: SwapReply)

  function Accepts(w: World, x: Vtc): set<Did> {
    if x in w.accepted then w.accepted[x] else {}
  }

  // ----- single writes -----

  function Put(w: World, k: Key, did: Did): World {
    w.(sessions := w.sessions[k := did])
  }

  function Drop(w: World, k: Key): World {
    w.(sessions := w.sessions - {k})
  }

  /** The VTC moves the entry of `from` onto `to`. */
  function Swapped(w: World, x: Vtc, from: Did, to: Did): World {
    w.(accepted := w.accepted[x := Accepts(w, x) - {from} + {to}])
  }

  function End(w: World, steps: seq<World>): World {
    if steps == [] then w else steps[|steps| - 1]
  }

  // ----- the commands, as the worlds they pass through after the first -----

  /** `rotate_identity`: park, swap, promote, clear; a reply that is an error clears the slot. */
  function RotateSteps(w: World, s: Slug, x: Vtc, from: Did, to: Did, reply: SwapReply): seq<World> {
    var parked := Put(w, Side(s), to);
    if from in Accepts(w, x) && reply != Refused then
      var moved := Swapped(parked, x, from, to);
      if reply == Lost then [parked, moved, Drop(moved, Side(s))]
      else
        var promoted := Put(moved, Identity(s), to);
        [parked, moved, promoted, Drop(promoted, Side(s))]
    else [parked, Drop(parked, Side(s))]
  }

  /** `recover_rotation`: adopt the waiting key if the VTC accepts it, and clear the slot. */
  function RecoverSteps(w: World, s: Slug, x: Vtc, reaches: bool): seq<World> {
    if Side(s) !in w.sessions then []
    else
      var waiting := w.sessions[Side(s)];
      if reaches && waiting in Accepts(w, x) then
        var adopted := Put(w, Identity(s), waiting);
        [adopted, Drop(adopted, Side(s))]
      else [Drop(w, Side(s))]
  }

  /** `rotation_blocker`: bound to a community VTA, or held by another community too. */
  predicate Blocked(config: Config, sessions: map<Key, Did>, s: Slug, did: Did, vta: Option<Did>) {
    || vta.Some?
    || exists o :: o in config.communities.Keys + config.pending.Keys && o != s
                   && Identity(o) in sessions && sessions[Identity(o)] == did
  }

  /** `rotate_community`. */
  function RotateCommand(w: World, s: Slug, arg: Option<Vtc>, net: Net, minted: Did): seq<World> {
    if s !in w.config.communities then []
    else
      var c := w.config.communities[s];
      var known := if arg.Some? then arg else c.vtc;
      if known.None? then []
      else RotateAt(w, s, known.value, c.vta, net, minted)
  }

  /** `rotate_community` once its VTC is known: recover, then rotate unless blocked. */
  function RotateAt(w: World, s: Slug, x: Vtc, vta: Option<Did>, net: Net, minted: Did): seq<World> {
    var first := RecoverSteps(w, s, x, net.recoverReaches);
    var r := End(w, first);
    if Identity(s) !in r.sessions || Blocked(r.config, r.sessions, s, r.sessions[Identity(s)], vta) then first
    else first + RotateSteps(r, s, x, r.sessions[Identity(s)], minted, net.swap)
  }

  datatype Source = Fresh | Reuse(from: Slug)

  /** `begin_community`: the identity is stored, then the config is saved. */
  function AddCommand(w: World, s: Slug, source: Source, vtc: Option<Vtc>, vta: Option<Did>, overwrite: bool, minted: Did)
    : seq<World>
  {
    if s == "" || s in w.config.communities || (s in w.config.pending && !overwrite) then []
    else if source.Reuse? && (source.from == s || source.from !in w.config.communities || Identity(source.from) !in w.sessions)
    then []
    else
      var did := if source.Fresh? then minted else w.sessions[Identity(source.from)];
      var stored := Put(w, Identity(s), did);
      [stored, stored.(config := w.config.(pending := w.config.pending[s := Pending(did, vtc, vta)]))]
  }

  function Confirmed(config: Config, s: Slug, x: Vtc, vta: Option<Did>): Config {
    Config(config.communities[s := Community(Some(x), vta)], config.pending - {s})
  }

  /** `continue_community` once the VTC has accepted the identity. */
  function ConfirmedPart(r: World, s: Slug, x: Vtc, vta: Option<Did>, reply: SwapReply, minted: Did): seq<World>
    requires Identity(s) in r.sessions
  {
    var did := r.sessions[Identity(s)];
    var config := Confirmed(r.config, s, x, vta);
    var second := if Blocked(config, r.sessions, s, did, vta) then [] else RotateSteps(r, s, x, did, minted, reply);
    second + [End(r, second).(config := config)]
  }

  /** `continue_community`: recover, confirm, rotate unless blocked; the config is saved last. */
  function ContinueCommand(w: World, s: Slug, vtcArg: Option<Vtc>, vtaArg: Option<Did>, net: Net, minted: Did): seq<World> {
    if s !in w.config.pending || Identity(s) !in w.sessions then []
    else
      var p := w.config.pending[s];
      var known := if vtcArg.Some? then vtcArg else p.vtc;
      if known.None? then []
      else
        var x := known.value;
        var vta := if vtaArg.Some? then vtaArg else p.vta;
        var first := RecoverSteps(w, s, x, net.recoverReaches);
        var r := End(w, first);
        if net.confirmReaches && r.sessions[Identity(s)] in Accepts(r, x)
        then first + ConfirmedPart(r, s, x, vta, net.swap, minted) else first
  }

  /** The `Delete` arm: the key goes, then the config is saved. The side slot stays. */
  function DeleteCommand(w: World, s: Slug): seq<World> {
    var dropped := Drop(w, Identity(s));
    if s in w.config.pending then [dropped, dropped.(config := w.config.(pending := w.config.pending - {s}))]
    else if s in w.config.communities
    then [dropped, dropped.(config := w.config.(communities := w.config.communities - {s}))]
    else []
  }

  datatype Command =
    | Add(slug: Slug, source: Source, vtc: Option<Vtc>, vta: Option<Did>, overwrite: bool, minted: Did)
    | Continue(slug: Slug, vtc: Option<Vtc>, vta: Option<Did>, net: Net, minted: Did)
    | Rotate(slug: Slug, vtc: Option<Vtc>, net: Net, minted: Did)
    | Delete(slug: Slug)
    | Grant(at: Vtc, did: Did)  // an administrator, not cnm

  function Steps(w: World, c: Command): seq<World> {
    match c
    case Add(s, source, vtc, vta, overwrite, minted) => AddCommand(w, s, source, vtc, vta, overwrite, minted)
    case Continue(s, vtc, vta, net, minted) => ContinueCommand(w, s, vtc, vta, net, minted)
    case Rotate(s, vtc, net, minted) => RotateCommand(w, s, vtc, net, minted)
    case Delete(s) => DeleteCommand(w, s)
    case Grant(x, did) => [w.(accepted := w.accepted[x := Accepts(w, x) + {did}])]
  }

  /** A command that ran until a crash after `cut` of its writes, or to its end. */
  datatype Ran = Ran(command: Command, cut: nat)

  function After(w: World, r: Ran): World {
    var steps := Steps(w, r.command);
    if r.cut == 0 then w else if r.cut <= |steps| then steps[r.cut - 1] else End(w, steps)
  }

  function Run(w: World, rs: seq<Ran>): World
    decreases rs
  {
    if rs == [] then w else Run(After(w, rs[0]), rs[1..])
  }

  // ----- what a community must keep -----

  /** A key waiting in the side slot is held nowhere else. */
  ghost predicate SidePrivate(w: World, s: Slug) {
    Side(s) in w.sessions ==> forall k :: k in w.sessions && k != Side(s) ==> w.sessions[k] != w.sessions[Side(s)]
  }

  /** The saved config names the community, pending or confirmed. */
  predicate Known(w: World, s: Slug) {
    s in w.config.communities || s in w.config.pending
  }

  /** The identity stored for the community is accepted. */
  predicate IdentityHeld(w: World, s: Slug, x: Vtc) {
    Identity(s) in w.sessions && w.sessions[Identity(s)] in Accepts(w, x)
  }

  predicate SideHeld(w: World, s: Slug, x: Vtc) {
    Side(s) in w.sessions && w.sessions[Side(s)] in Accepts(w, x)
  }

  /** The VTC accepts the identity stored for the community, or the key in its side slot. */
  predicate Held(w: World, s: Slug, x: Vtc) {
    IdentityHeld(w, s, x) || SideHeld(w, s, x)
  }

  /**
   A community that `x` has granted, pending or confirmed, is held by `cnm` and
   no other community's rotation can take the key away: it is the identity, which
   the blocker looks at, or a side key nobody else holds.
   */
  ghost predicate Keeps(w: World, s: Slug, x: Vtc) {
    Known(w, s) && (IdentityHeld(w, s, x) || (SideHeld(w, s, x) && SidePrivate(w, s)))
  }

  // ----- which runs the promises are for -----

  /** A minted key is one nobody holds. */
  predicate MintsFresh(w: World, c: Command) {
    (c.Add? || c.Continue? || c.Rotate?) ==> c.minted !in w.sessions.Values
  }

  /** The VTC a `continue` or a `rotate` of `s` asks, when it gets that far. */
  function Asked(w: World, c: Command): Option<Vtc> {
    if c.Continue? && c.slug in w.config.pending then (if c.vtc.Some? then c.vtc else w.config.pending[c.slug].vtc)
    else if c.Rotate? && c.slug in w.config.communities
    then (if c.vtc.Some? then c.vtc else w.config.communities[c.slug].vtc)
    else None
  }

  predicate NamesSlug(c: Command, s: Slug) {
    !c.Grant? && c.slug == s
  }

  /**
   Errors mean what the code takes them to mean: an error to a swap is a swap
   that did not happen, an error to a recovery's confirmation is a refusal.
   */
  predicate Answered(c: Command) {
    (c.Continue? || c.Rotate?) ==> c.net.recoverReaches && c.net.swap != Lost
  }

  /**
   A command that may run while `s` is to stay held at `x`. One that names
   another community is answered in any way. One that names `s` asks `x` and is
   answered as the code takes it, or is refused; it is not a deletion.
   */
  ghost predicate Faithful(w: World, c: Command, s: Slug, x: Vtc) {
    && MintsFresh(w, c)
    && (NamesSlug(c, s) ==>
          && !c.Delete?
          && (c.Add? ==> Steps(w, c) == [])
          && Answered(c) && (Asked(w, c).Some? ==> Asked(w, c) == Some(x)))
  }

  ghost predicate AllFaithful(w: World, rs: seq<Ran>, s: Slug, x: Vtc)
    decreases rs
  {
    rs == [] || (Faithful(w, rs[0].command, s, x) && AllFaithful(After(w, rs[0]), rs[1..], s, x))
  }

  /** A confirmed community with a stored identity. */
  predicate InUse(w: World, s: Slug) {
    s in w.config.communities && Identity(s) in w.sessions
  }

  /** What every command is to keep of `s`, deletions and new starts included. */
  ghost predicate Safe(w: World, s: Slug) {
    && (s in w.config.pending ==> s !in w.config.communities)
    && (InUse(w, s) && w.config.communities[s].vtc.Some? ==> Keeps(w, s, w.config.communities[s].vtc.value))
  }

  /** A command that names `s` is answered as the code takes it, and a rotation asks the community's own VTC. */
  predicate HonestTo(w: World, c: Command, s: Slug) {
    && MintsFresh(w, c)
    && (NamesSlug(c, s) ==>
          Answered(c) && (c.Rotate? && s in w.config.communities && w.config.communities[s].vtc.Some?
                          ==> Asked(w, c) == w.config.communities[s].vtc))
  }

  ghost predicate AllHonestTo(w: World, rs: seq<Ran>, s: Slug)
    decreases rs
  {
    rs == [] || (HonestTo(w, rs[0].command, s) && AllHonestTo(After(w, rs[0]), rs[1..], s))
  }
}
