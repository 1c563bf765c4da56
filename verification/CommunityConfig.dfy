/**
 The saved config of `cnm`: confirmed communities, pending ones, and which one
 is the default, under every command that changes it.
 */
module CommunityConfig {
  import opened Options

  type Slug = string
  datatype Community = Community(name: string, contextId: Option<string>, vtaDid: Option<string>, vtcDid: Option<string>)
  datatype Pending = Pending(name: string, adminDid: string, vtcDid: Option<string>, vtaDid: Option<string>)

  datatype Config = Config(default: Option<Slug>, communities: map<Slug, Community>, pending: map<Slug, Pending>)

  const EMPTY := Config(None, map[], map[])

  // ----- the order of a BTreeMap's keys -----

  predicate AtMost(a: string, b: string) {
    if a == "" then true
    else if b == "" then false
    else a[0] < b[0] || (a[0] == b[0] && AtMost(a[1..], b[1..]))
  }

  ghost predicate IsFirst(keys: set<Slug>, k: Slug) {
    k in keys && forall o :: o in keys ==> AtMost(k, o)
  }

  lemma {:induction false} AtMostTotal(a: string, b: string)
    ensures AtMost(a, b) || AtMost(b, a)
  {
    if a != "" && b != "" && a[0] == b[0] { AtMostTotal(a[1..], b[1..]); }
  }

  lemma {:induction false} AtMostTransitive(a: string, b: string, c: string)
    requires AtMost(a, b) && AtMost(b, c)
    ensures AtMost(a, c)
  {
    if a != "" && b != "" && c != "" && a[0] == b[0] == c[0] { AtMostTransitive(a[1..], b[1..], c[1..]); }
  }

  /** `keys().next()`. */
  method FirstKey(keys: set<Slug>) returns (first: Option<Slug>)
    ensures first.None? <==> keys == {}
    ensures first.Some? ==> IsFirst(keys, first.value)
  {
    first := None;
    var todo := keys;
    while todo != {}
      invariant todo <= keys
      invariant first.None? ==> todo == keys
      invariant first.Some? ==> first.value in keys && forall o :: o in keys && o !in todo ==> AtMost(first.value, o)
    {
      var k :| k in todo;
      AtMostTotal(k, k);
      if first.None? {
        first := Some(k);
      } else {
        AtMostTotal(first.value, k);
        if !AtMost(first.value, k) {
          forall o | o in keys && o !in todo
            ensures AtMost(k, o)
          {
            AtMostTransitive(k, first.value, o);
          }
          first := Some(k);
        }
      }
      todo := todo - {k};
    }
  }

  // ----- commands -----

  datatype Command =
    | Begin(slug: Slug, pending: Pending, overwrite: bool)   // community add
    | Confirm(slug: Slug, vtcDid: Option<string>, vtaDid: Option<string>)  // community continue, once the VTC accepts
    | Import(slug: Slug, name: string, contextId: Option<string>, vtaDid: Option<string>)
    | Use(slug: Slug)
    | Delete(slug: Slug)

  /** One command's effect on the config; a refused one changes nothing. */
  ghost predicate Step(a: Config, c: Command, b: Config) {
    match c
    case Begin(s, p, overwrite) =>
      if s == "" || s in a.communities || (s in a.pending && !overwrite) then b == a
      else b == a.(pending := a.pending[s := p])
    case Confirm(s, vtc, vta) =>
      if s !in a.pending || (vtc.None? && a.pending[s].vtcDid.None?) then b == a
      else
        var p := a.pending[s];
        b == Config(
          if a.default.None? then Some(s) else a.default,
          a.communities[s := Community(p.name, None, if vta.Some? then vta else p.vtaDid, if vtc.Some? then vtc else p.vtcDid)],
          a.pending - {s})
    case Import(s, name, context, vta) =>
      var vtc := if s in a.communities then a.communities[s].vtcDid else None;
      var communities := a.communities[s := Community(name, context, vta, vtc)];
      b == Config(if a.default.None? || |communities| == 1 then Some(s) else a.default, communities, a.pending - {s})
    case Use(s) => b == if s in a.communities then a.(default := Some(s)) else a
    case Delete(s) =>
      if s in a.pending then b == a.(pending := a.pending - {s})
      else if s !in a.communities then b == a
      else
        && b.communities == a.communities - {s} && b.pending == a.pending
        && if a.default != Some(s) then b.default == a.default
           else if b.communities == map[] then b.default == None
           else b.default.Some? && IsFirst(b.communities.Keys, b.default.value)
  }

  class Store {
    var config: Config

    constructor ()
      ensures config == EMPTY
    {
      config := EMPTY;
    }

    method BeginCommunity(slug: Slug, pending: Pending, overwrite: bool) returns (refused: bool)
      modifies this
      ensures Step(old(config), Begin(slug, pending, overwrite), config)
      ensures refused <==> slug == "" || slug in old(config).communities || (slug in old(config).pending && !overwrite)
    {
      refused := slug == "" || slug in config.communities || (slug in config.pending && !overwrite);
      if !refused {
        config := config.(pending := config.pending[slug := pending]);
      }
    }

    method ConfirmCommunity(slug: Slug, vtcDid: Option<string>, vtaDid: Option<string>) returns (refused: bool)
      modifies this
      ensures Step(old(config), Confirm(slug, vtcDid, vtaDid), config)
      ensures refused <==> slug !in old(config).pending || (vtcDid.None? && old(config).pending[slug].vtcDid.None?)
    {
      if slug !in config.pending {
        return true;
      }
      var p := config.pending[slug];
      var vtc := if vtcDid.Some? then vtcDid else p.vtcDid;
      if vtc.None? {
        return true;
      }
      var vta := if vtaDid.Some? then vtaDid else p.vtaDid;
      config := config.(pending := config.pending - {slug});
      config := config.(communities := config.communities[slug := Community(p.name, None, vta, vtc)]);
      if config.default.None? {
        config := config.(default := Some(slug));
      }
      refused := false;
    }

    /** `insert_community`. */
    method InsertCommunity(slug: Slug, name: string, contextId: Option<string>, vtaDid: Option<string>)
      modifies this
      ensures Step(old(config), Import(slug, name, contextId, vtaDid), config)
    {
      var vtc := if slug in config.communities then config.communities[slug].vtcDid else None;
      config := config.(pending := config.pending - {slug});
      config := config.(communities := config.communities[slug := Community(name, contextId, vtaDid, vtc)]);
      if config.default.None? || |config.communities| == 1 {
        config := config.(default := Some(slug));
      }
    }

    method UseCommunity(name: Slug) returns (refused: bool)
      modifies this
      ensures Step(old(config), Use(name), config) && (refused <==> name !in old(config).communities)
    {
      refused := name !in config.communities;
      if !refused {
        config := config.(default := Some(name));
      }
    }

    method DeleteCommunity(name: Slug) returns (refused: bool)
      modifies this
      ensures Step(old(config), Delete(name), config)
      ensures refused <==> name !in old(config).pending && name !in old(config).communities
    {
      if name in config.pending {
        config := config.(pending := config.pending - {name});
        return false;
      }
      if name !in config.communities {
        return true;
      }
      var left := config.communities - {name};
      var default := config.default;
      if default == Some(name) {
        default := FirstKey(left.Keys);
      }
      config := Config(default, left, config.pending);
      refused := false;
    }
  }

  /** `resolve_community`: the community named on the command line, else the default. */
  function Resolve(config: Config, cli: Option<Slug>): (r: Option<Slug>)
    ensures r.Some? ==> r.value in config.communities
  {
    var slug := if cli.Some? then cli else config.default;
    if slug.Some? && slug.value in config.communities then slug else None
  }

  /** `use` makes the community the one commands go to when none is named; any other name changes nothing. */
  lemma UsedIsResolved(a: Config, slug: Slug, b: Config)
    requires Step(a, Use(slug), b)
    ensures slug in a.communities ==> Resolve(b, None) == Some(slug)
    ensures slug !in a.communities ==> b == a
    ensures b.communities == a.communities && b.pending == a.pending
  {
  }

  /** A confirmed community resolves by its name, with the VTC and VTA given last, and by default if it is the first. */
  lemma ConfirmedResolves(a: Config, slug: Slug, vtc: Option<string>, vta: Option<string>, b: Config)
    requires Consistent(a) && Step(a, Confirm(slug, vtc, vta), b) && slug in a.pending && (vtc.Some? || a.pending[slug].vtcDid.Some?)
    ensures Resolve(b, Some(slug)) == Some(slug) && slug !in b.pending
    ensures Resolve(b, None) == if a.communities == map[] then Some(slug) else Resolve(a, None)
    ensures b.communities[slug].vtcDid == (if vtc.Some? then vtc else a.pending[slug].vtcDid) && b.communities[slug].name == a.pending[slug].name
    ensures b.communities[slug].vtaDid == if vta.Some? then vta else a.pending[slug].vtaDid
    ensures b.communities - {slug} == a.communities - {slug} && b.pending == a.pending - {slug}
  {
  }

  /** An imported one resolves by its name, keeps the VTC it had, and becomes the default only if it is the only one. */
  lemma ImportedResolves(a: Config, slug: Slug, name: string, context: Option<string>, vta: Option<string>, b: Config)
    requires Consistent(a) && Step(a, Import(slug, name, context, vta), b)
    ensures Resolve(b, Some(slug)) == Some(slug) && slug !in b.pending
    ensures Resolve(b, None) == if a.communities == map[] then Some(slug) else Resolve(a, None)
    ensures b.communities[slug].name == name && b.communities[slug].contextId == context && b.communities[slug].vtaDid == vta
    ensures b.communities[slug].vtcDid == if slug in a.communities then a.communities[slug].vtcDid else None
    ensures b.communities - {slug} == a.communities - {slug} && b.pending == a.pending - {slug}
  {
    if a.communities != map[] && |b.communities| == 1 {
      OnlyKey(b.communities.Keys, slug);
      assert a.default == Some(slug) by {
        assert a.default.value in b.communities.Keys;
      }
    }
  }

  lemma OnlyKey(keys: set<Slug>, k: Slug)
    requires k in keys && |keys| == 1
    ensures forall o :: o in keys ==> o == k
  {
    assert |keys - {k}| == 0;
    forall o | o in keys
      ensures o == k
    {
      assert o != k ==> o in keys - {k};
    }
  }

  /** A begun one waits as it was given and resolves to nothing yet; the rest stays. */
  lemma BegunWaits(a: Config, slug: Slug, p: Pending, overwrite: bool, b: Config)
    requires Consistent(a) && Step(a, Begin(slug, p, overwrite), b) && slug != "" && slug !in a.communities
    ensures slug !in a.pending || overwrite ==> slug in b.pending && b.pending[slug] == p && Resolve(b, Some(slug)) == None
    ensures slug in a.pending && !overwrite ==> b == a
    ensures b.communities == a.communities && b.default == a.default && b.pending - {slug} == a.pending - {slug}
  {
  }

  /** A deleted one is gone, the rest stays; what the default was, it still is unless it was deleted. */
  lemma DeletedIsGone(a: Config, slug: Slug, b: Config)
    requires Consistent(a) && Step(a, Delete(slug), b)
    ensures slug !in b.pending && slug !in b.communities
    ensures b.communities == a.communities - {slug} && b.pending == a.pending - {slug}
    ensures a.default != Some(slug) ==> b.default == a.default
    ensures a.default == Some(slug) && b.communities != map[] ==>
            b.default.Some? && forall o :: o in b.communities ==> AtMost(b.default.value, o)
  {
    assert slug in a.communities ==> slug !in a.pending;
    assert slug !in a.communities ==> a.communities - {slug} == a.communities;
    assert slug !in a.pending ==> a.pending - {slug} == a.pending;
  }

  // ----- every run from an empty config -----

  predicate Consistent(c: Config) {
    && c.communities.Keys !! c.pending.Keys
    && (c.default.None? <==> c.communities == map[])
    && (c.default.Some? ==> c.default.value in c.communities)
  }

  lemma StepKeepsConsistent(a: Config, c: Command, b: Config)
    requires Consistent(a) && Step(a, c, b)
    ensures Consistent(b)
  {
    match c {
      case Begin(_, _, _) =>
      case Confirm(s, _, _) => if b != a { assert s in b.communities; }
      case Import(s, _, _, _) => assert s in b.communities;
      case Use(_) =>
      case Delete(s) => if a.default.Some? && a.default.value != s { assert a.default.value in b.communities; }
    }
  }

  /** A run: each config follows from the one before by the command between them. */
  ghost predicate IsRun(configs: seq<Config>, commands: seq<Command>) {
    && |configs| == |commands| + 1 && configs[0] == EMPTY
    && forall i, j :: 0 <= i < j < |configs| && j == i + 1 ==> Step(configs[i], commands[i], configs[j])
  }

  lemma {:induction false} RunIsConsistent(configs: seq<Config>, commands: seq<Command>, n: nat)
    requires IsRun(configs, commands) && n < |configs|
    ensures Consistent(configs[n])
  {
    if n > 0 {
      RunIsConsistent(configs, commands, n - 1);
      StepKeepsConsistent(configs[n - 1], commands[n - 1], configs[n]);
    }
  }

  /**
   In every config a run reaches: a pending slug resolves to nothing, naming no
   community resolves exactly when one is configured, and naming one resolves
   exactly when that one is.
   */
  lemma OnlyConfirmedResolve(configs: seq<Config>, commands: seq<Command>, n: nat, slug: Slug)
    requires IsRun(configs, commands) && n < |configs|
    ensures slug in configs[n].pending ==> Resolve(configs[n], Some(slug)) == None
    ensures Resolve(configs[n], None).Some? <==> configs[n].communities != map[]
    ensures Resolve(configs[n], Some(slug)) == Some(slug) <==> slug in configs[n].communities
  {
    RunIsConsistent(configs, commands, n);
  }
}
