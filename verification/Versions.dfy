/**
 The version arithmetic the release scripts share: version triples in their
 numeric order, caret compatibility classes ("lines"), the caret test, and the
 two ways a version is raised. Pre-release suffixes are dropped by every script
 before it compares, so a version is three naturals.
 */
module Versions {

  datatype Version = Version(major: nat, minor: nat, patch: nat)

  /** A compatibility class: the components up to the leftmost non-zero one. */
  type Line = seq<nat>

  predicate Less(a: Version, b: Version) {
    || a.major < b.major
    || (a.major == b.major && a.minor < b.minor)
    || (a.major == b.major && a.minor == b.minor && a.patch < b.patch)
  }

  predicate AtMost(a: Version, b: Version) {
    a == b || Less(a, b)
  }

  /** Components padded with zeros and cut to three. */
  function Pad(p: seq<nat>): Version {
    var q := p + [0, 0, 0];
    Version(q[0], q[1], q[2])
  }

  function Compat(v: Version): Line {
    if v.major != 0 then [v.major]
    else if v.minor != 0 then [0, v.minor]
    else [0, 0, v.patch]
  }

  /** The versions Cargo gives no compatible successor: 0.0.z. */
  predicate ZeroZero(v: Version) {
    v.major == 0 && v.minor == 0
  }

  function NextBreaking(v: Version): Version {
    if v.major > 0 then Version(v.major + 1, 0, 0)
    else if v.minor > 0 then Version(0, v.minor + 1, 0)
    else Version(0, 0, v.patch + 1)
  }

  /** The least version of `v`'s class. */
  function Floor(v: Version): Version {
    if v.major > 0 then Version(v.major, 0, 0)
    else if v.minor > 0 then Version(0, v.minor, 0)
    else v
  }

  function NextPatch(v: Version): Version {
    v.(patch := v.patch + 1)
  }

  /** The requirement text, as components, that the workspace pins a sibling with. */
  function ReqOf(v: Version): seq<nat> {
    if v.major > 0 then [v.major] else [v.major, v.minor]
  }

  // ----- the caret test, on component lists compared as Python compares lists -----

  predicate ListLess(a: seq<nat>, b: seq<nat>) {
    if b == [] then false
    else if a == [] then true
    else a[0] < b[0] || (a[0] == b[0] && ListLess(a[1..], b[1..]))
  }

  function PadList(p: seq<nat>): (q: seq<nat>)
    ensures |q| == if |p| < 3 then 3 else |p|
  {
    if |p| < 3 then p + [0, 0, 0][..3 - |p|] else p
  }

  /** Index of the leftmost non-zero component, or the last index. */
  function Pivot(r: seq<nat>): (i: nat)
    requires |r| == 3
    ensures i < 3
  {
    if r[0] != 0 then 0 else if r[1] != 0 then 1 else 2
  }

  predicate CaretOk(req: seq<nat>, version: seq<nat>)
    requires |req| <= 3 && |version| <= 3
  {
    var r, v := PadList(req), PadList(version);
    var i := Pivot(r);
    var upper := r[..i] + [r[i] + 1] + [0, 0, 0][..2 - i];
    !ListLess(v, r) && ListLess(v, upper)
  }

  function Components(v: Version): seq<nat> {
    [v.major, v.minor, v.patch]
  }

  // ----- what the pieces mean together -----

  lemma ListLessIsLess(a: seq<nat>, b: seq<nat>)
    requires |a| == 3 && |b| == 3
    ensures ListLess(a, b) <==> Less(Pad(a), Pad(b))
  {
    assert ListLess(a[1..][1..][1..], b[1..][1..][1..]) == false;
    assert ListLess(a[1..][1..], b[1..][1..]) <==> a[2] < b[2];
    assert ListLess(a[1..], b[1..]) <==> (a[1] < b[1] || (a[1] == b[1] && a[2] < b[2]));
  }

  lemma PadListIsPad(p: seq<nat>)
    requires |p| <= 3
    ensures PadList(p) == Components(Pad(p))
  {
  }

  /** The caret test accepts exactly the versions at or above the requirement in its class. */
  lemma CaretIsSameLine(req: seq<nat>, version: seq<nat>)
    requires |req| <= 3 && |version| <= 3
    ensures CaretOk(req, version) <==>
            AtMost(Pad(req), Pad(version)) && Compat(Pad(req)) == Compat(Pad(version))
  {
    var r, v := PadList(req), PadList(version);
    var i := Pivot(r);
    var upper := r[..i] + [r[i] + 1] + [0, 0, 0][..2 - i];
    PadListIsPad(req);
    PadListIsPad(version);
    ListLessIsLess(v, r);
    ListLessIsLess(v, upper);
    assert Pad(r) == Pad(req) && Pad(v) == Pad(version);
    assert i == 0 ==> upper == [r[0] + 1, 0, 0];
    assert i == 1 ==> upper == [r[0], r[1] + 1, 0];
    assert i == 2 ==> upper == [r[0], r[1], r[2] + 1];
  }

  /** A class is an interval of the version order. */
  lemma LineConvex(a: Version, b: Version, c: Version)
    requires AtMost(a, b) && AtMost(b, c) && Compat(a) == Compat(c)
    ensures Compat(b) == Compat(a)
  {
  }

  /** The next breaking version is the least one above `v` outside its class, and the floor of its own. */
  lemma NextBreakingIsLeast(v: Version)
    ensures Less(v, NextBreaking(v)) && Compat(NextBreaking(v)) != Compat(v)
    ensures forall w :: Less(v, w) && Compat(w) != Compat(v) ==> AtMost(NextBreaking(v), w)
    ensures forall w :: Compat(w) == Compat(NextBreaking(v)) ==> AtMost(NextBreaking(v), w)
  {
    forall w: Version | Less(v, w) && Compat(w) != Compat(v)
      ensures AtMost(NextBreaking(v), w)
    {
      assert Compat(v)[0] == v.major && Compat(w)[0] == w.major;
    }
    forall w: Version | Compat(w) == Compat(NextBreaking(v))
      ensures AtMost(NextBreaking(v), w)
    {
      assert Compat(w)[0] == w.major;
    }
  }

  lemma FloorIsLeast(v: Version)
    ensures Compat(Floor(v)) == Compat(v)
    ensures forall w :: Compat(w) == Compat(v) ==> AtMost(Floor(v), w) && Floor(w) == Floor(v)
  {
    forall w: Version | Compat(w) == Compat(v)
      ensures AtMost(Floor(v), w) && Floor(w) == Floor(v)
    {
      assert Compat(v)[0] == v.major && Compat(w)[0] == w.major;
      if v.major == 0 {
        assert Compat(v)[1] == v.minor && Compat(w)[1] == w.minor;
      }
    }
  }

  /** A patch is the immediate successor, and stays in the line unless the version is 0.0.z. */
  lemma NextPatchStays(v: Version)
    ensures Less(v, NextPatch(v))
    ensures forall w :: Less(v, w) && Compat(w) == Compat(v) ==> AtMost(NextPatch(v), w) || ZeroZero(v)
    ensures Compat(NextPatch(v)) == Compat(v) <==> !ZeroZero(v)
  {
  }

  /**
   The requirement form the workspace writes accepts the version it was made
   from, and has its class, unless the version is 0.0.z with z above 0: there the
   form drops the component that names the class.
   */
  lemma ReqAcceptsItsVersion(v: Version)
    ensures CaretOk(ReqOf(v), Components(v)) <==> !(ZeroZero(v) && v.patch > 0)
    ensures Compat(Pad(ReqOf(v))) == Compat(v) <==> !(ZeroZero(v) && v.patch > 0)
  {
    CaretIsSameLine(ReqOf(v), Components(v));
    assert Pad(Components(v)) == v;
  }

  /** It accepts the whole of that class, not only what is above the version. */
  lemma ReqAcceptsItsLine(v: Version, u: Version)
    requires !ZeroZero(v)
    ensures CaretOk(ReqOf(v), Components(u)) <==> Compat(u) == Compat(v)
  {
    CaretIsSameLine(ReqOf(v), Components(u));
    assert Pad(Components(u)) == u;
    ReqAcceptsItsVersion(v);
    assert Pad(ReqOf(v)) == Floor(v);
    if Compat(u) == Compat(v) { FloorIsLeast(v); }
  }
}
