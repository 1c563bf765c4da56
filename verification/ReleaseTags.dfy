/**
 The tags of a named release: VTI-Fig-RC-0, VTI-Fig-RC-1, …, VTI-Fig,
 VTI-Fig-R1, … A release branch's `RELEASE` file holds the current one, and
 `prepare-release-branch.py` reads it, moves it on and prints it again.
 */
module ReleaseTags {
  import opened Options

  datatype Stage = Candidate(n: nat) | General | Patch(n: nat)
  datatype Kind = Rc | Ga | Fix

  // ----- numbers in text -----

  predicate IsDigit(c: char) { '0' <= c <= '9' }

  predicate IsNumber(s: string) {
    s != "" && forall i :: 0 <= i < |s| ==> IsDigit(s[i])
  }

  function Digit(d: nat): char
    requires d < 10
  {
    ('0' as nat + d) as char
  }

  function Decimal(n: nat): string {
    if n < 10 then [Digit(n)] else Decimal(n / 10) + [Digit(n % 10)]
  }

  function ValueOf(s: string): nat
    requires IsNumber(s)
  {
    var last := s[|s| - 1] as nat - '0' as nat;
    if |s| == 1 then last else 10 * ValueOf(s[..|s| - 1]) + last
  }

  lemma {:induction false} ValueOfDecimal(n: nat)
    ensures IsNumber(Decimal(n)) && ValueOf(Decimal(n)) == n
  {
    if n >= 10 {
      ValueOfDecimal(n / 10);
      var s := Decimal(n);
      assert s[..|s| - 1] == Decimal(n / 10);
    }
  }

  // ----- printing and reading a tag -----

  predicate IsUpper(c: char) { 'A' <= c <= 'Z' }
  predicate IsLower(c: char) { 'a' <= c <= 'z' }

  lemma LettersAndDigits(c: char)
    ensures IsUpper(c) <==> c in "ABCDEFGHIJKLMNOPQRSTUVWXYZ"
    ensures IsLower(c) <==> c in "abcdefghijklmnopqrstuvwxyz"
    ensures IsDigit(c) <==> c in "0123456789"
  {
  }

  /** A release name as it is cut and capitalised: letters, the first upper case. */
  predicate IsName(s: string) {
    s != "" && IsUpper(s[0]) && forall i :: 1 <= i < |s| ==> IsLower(s[i])
  }

  function Suffix(st: Stage): string {
    match st
    case Candidate(n) => "-RC-" + Decimal(n)
    case General => ""
    case Patch(n) => "-R" + Decimal(n)
  }

  function Print(name: string, st: Stage): string {
    "VTI-" + (name + Suffix(st))
  }

  function LowerRun(s: string): (k: nat)
    ensures k <= |s|
  {
    if s != "" && IsLower(s[0]) then 1 + LowerRun(s[1..]) else 0
  }

  function ReadSuffix(s: string): Option<Stage> {
    if s == "" then Some(General)
    else if "-RC-" <= s && IsNumber(s[4..]) then Some(Candidate(ValueOf(s[4..])))
    else if "-R" <= s && IsNumber(s[2..]) then Some(Patch(ValueOf(s[2..])))
    else None
  }

  datatype Tag = Tag(name: string, stage: Stage)

  /** A match of `^VTI-([A-Z][a-z]+)(?:-RC-(\d+)|-R(\d+))?$`. */
  function Read(text: string): Option<Tag> {
    if "VTI-" <= text then ReadNamed(text[4..]) else None
  }

  function ReadNamed(rest: string): Option<Tag> {
    if rest == "" || !IsUpper(rest[0]) || LowerRun(rest[1..]) == 0 then None
    else
      var k := 1 + LowerRun(rest[1..]);
      match ReadSuffix(rest[k..])
      case None => None
      case Some(st) => Some(Tag(rest[..k], st))
  }

  /** `next_release`: the tag after this one, or a refusal. */
  function NextRelease(current: string, kind: Kind): Option<string> {
    match Read(current)
    case None => None
    case Some(Tag(name, st)) =>
      match kind
      case Rc => if st.Candidate? then Some(Print(name, Candidate(st.n + 1))) else None
      case Ga => if st.Candidate? then Some(Print(name, General)) else None
      case Fix =>
        match st
        case Candidate(_) => None
        case General => Some(Print(name, Patch(1)))
        case Patch(n) => Some(Print(name, Patch(n + 1)))
  }

  lemma {:induction false} LowerRunStops(w: string, s: string)
    requires (forall i :: 0 <= i < |w| ==> IsLower(w[i])) && (s == "" || !IsLower(s[0]))
    ensures LowerRun(w + s) == |w|
  {
    if w == "" {
      assert w + s == s;
    } else {
      assert (w + s)[1..] == w[1..] + s;
      LowerRunStops(w[1..], s);
    }
  }

  lemma SuffixReads(st: Stage)
    ensures ReadSuffix(Suffix(st)) == Some(st)
    ensures Suffix(st) == "" || !IsLower(Suffix(st)[0])
  {
    match st {
      case Candidate(n) =>
        ValueOfDecimal(n);
        assert Suffix(st)[4..] == Decimal(n);
      case General =>
      case Patch(n) =>
        ValueOfDecimal(n);
        assert Suffix(st)[2..] == Decimal(n);
        assert Suffix(st)[2] == Decimal(n)[0];
        assert !("-RC-" <= Suffix(st));
    }
  }

  /**
   A printed tag reads back as the name and stage it was printed from exactly
   when the name has at least two letters. The cut accepts a one-letter name, and
   then no later preparation can read the tag.
   */
  lemma TagRoundTrip(name: string, st: Stage)
    requires IsName(name)
    ensures Read(Print(name, st)) == (if |name| >= 2 then Some(Tag(name, st)) else None)
  {
    var rest := name + Suffix(st);
    SuffixReads(st);
    NameEnds(name, Suffix(st));
    ReadPrefixed(rest);
    if |name| >= 2 { ReadParts(rest, |name|, st); }
  }

  lemma ReadPrefixed(rest: string)
    ensures Read("VTI-" + rest) == ReadNamed(rest)
  {
    assert ("VTI-" + rest)[4..] == rest;
  }

  /** Where the name ends in a tag and the suffix starts. */
  lemma NameEnds(name: string, suffix: string)
    requires IsName(name) && (suffix == "" || !IsLower(suffix[0]))
    ensures var rest := name + suffix;
            rest[0] == name[0] && LowerRun(rest[1..]) == |name| - 1 && rest[..|name|] == name && rest[|name|..] == suffix
  {
    var rest := name + suffix;
    assert rest[1..] == name[1..] + suffix;
    LowerRunStops(name[1..], suffix);
  }

  lemma ReadParts(rest: string, k: nat, st: Stage)
    requires 2 <= k <= |rest| && IsUpper(rest[0]) && LowerRun(rest[1..]) == k - 1 && ReadSuffix(rest[k..]) == Some(st)
    ensures ReadNamed(rest) == Some(Tag(rest[..k], st))
  {
  }

  // ----- sequences of preparations -----

  predicate Before(a: Stage, b: Stage) {
    match a
    case Candidate(n) => !b.Candidate? || n < b.n
    case General => b.Patch? && b.n > 0
    case Patch(n) => b.Patch? && n < b.n
  }

  /** What a preparation does to the stage. */
  function Advance(st: Stage, kind: Kind): Option<Stage> {
    match kind
    case Rc => if st.Candidate? then Some(Candidate(st.n + 1)) else None
    case Ga => if st.Candidate? then Some(General) else None
    case Fix => if st.Candidate? then None else Some(Patch(if st.Patch? then st.n + 1 else 1))
  }

  /** The convention: candidates count up by one, the general release follows any of them, the patches are R1, R2, … */
  lemma TagsInOrder(name: string, n: nat)
    requires IsName(name) && |name| >= 2
    ensures NextRelease("VTI-" + (name + "-RC-" + Decimal(n)), Rc) == Some("VTI-" + (name + "-RC-" + Decimal(n + 1)))
    ensures NextRelease("VTI-" + (name + "-RC-" + Decimal(n)), Ga) == Some("VTI-" + name)
    ensures NextRelease("VTI-" + name, Fix) == Some("VTI-" + (name + "-R" + "1"))
    ensures NextRelease("VTI-" + (name + "-R" + Decimal(n)), Fix) == Some("VTI-" + (name + "-R" + Decimal(n + 1)))
  {
    PrintedParts(name, n);
    PrintedParts(name, n + 1);
    PrintedParts(name, 1);
    assert Decimal(1) == ['1'] == "1";
    NextReleaseIsAdvance(name, Candidate(n), Rc);
    NextReleaseIsAdvance(name, Candidate(n), Ga);
    NextReleaseIsAdvance(name, General, Fix);
    NextReleaseIsAdvance(name, Patch(n), Fix);
  }

  lemma PrintedParts(name: string, n: nat)
    ensures Print(name, Candidate(n)) == "VTI-" + (name + "-RC-" + Decimal(n))
    ensures Print(name, General) == "VTI-" + name
    ensures Print(name, Patch(n)) == "VTI-" + (name + "-R" + Decimal(n))
  {
    assert name + ("-RC-" + Decimal(n)) == name + "-RC-" + Decimal(n);
    assert name + ("-R" + Decimal(n)) == name + "-R" + Decimal(n);
    assert name + "" == name;
  }

  /** A candidate takes no patch; what is generally available takes nothing else. */
  lemma RefusedKinds(name: string, st: Stage, kind: Kind)
    requires IsName(name) && |name| >= 2
    ensures NextRelease(Print(name, st), kind).None? <==> (st.Candidate? <==> kind.Fix?)
  {
    NextReleaseIsAdvance(name, st, kind);
  }

  /** On tags it is the same: a refusal when the stage refuses, else the next stage printed. */
  lemma NextReleaseIsAdvance(name: string, st: Stage, kind: Kind)
    requires IsName(name) && |name| >= 2
    ensures NextRelease(Print(name, st), kind) ==
            match Advance(st, kind) case None => None case Some(next) => Some(Print(name, next))
  {
    TagRoundTrip(name, st);
  }

  /** Each tag is what a preparation made of the one before. */
  predicate Issues(tag: string, kind: Kind, next: string) {
    NextRelease(tag, kind) == Some(next)
  }

  ghost predicate Issued(tags: seq<string>, kinds: seq<Kind>) {
    |tags| == |kinds| + 1 && forall i, j :: 0 <= i < j < |tags| && j == i + 1 ==> Issues(tags[i], kinds[i], tags[j])
  }

  /** The stage a branch is at after `i` preparations that were not refused. */
  function StageAt(first: Stage, kinds: seq<Kind>, i: nat): Stage
    requires i <= |kinds|
  {
    if i == 0 then first
    else match Advance(StageAt(first, kinds, i - 1), kinds[i - 1]) case Some(st) => st case None => first
  }

  lemma AdvanceIsLater(st: Stage, kind: Kind)
    requires Advance(st, kind).Some?
    ensures Before(st, Advance(st, kind).value)
    ensures Advance(st, kind).value.Patch? ==> !st.Candidate?
  {
  }

  lemma BeforeTransitive(a: Stage, b: Stage, c: Stage)
    requires Before(a, b) && Before(b, c)
    ensures Before(a, c)
  {
  }

  /** The preparation after `i` of them is not refused. */
  predicate AcceptedAt(first: Stage, kinds: seq<Kind>, i: nat) {
    i < |kinds| && Advance(StageAt(first, kinds, i), kinds[i]).Some?
  }

  lemma IssuesAdvances(name: string, st: Stage, tag: string, kind: Kind, next: string)
    requires IsName(name) && |name| >= 2 && tag == Print(name, st) && Issues(tag, kind, next)
    ensures Advance(st, kind).Some? && next == Print(name, Advance(st, kind).value)
  {
    NextReleaseIsAdvance(name, st, kind);
  }

  lemma {:induction false} TagAt(name: string, first: Stage, tags: seq<string>, kinds: seq<Kind>, i: nat)
    requires IsName(name) && |name| >= 2 && Issued(tags, kinds) && tags[0] == Print(name, first) && i < |tags|
    ensures tags[i] == Print(name, StageAt(first, kinds, i))
    ensures i > 0 ==> AcceptedAt(first, kinds, i - 1)
  {
    if i > 0 {
      TagAt(name, first, tags, kinds, i - 1);
      NextTag(name, StageAt(first, kinds, i - 1), tags[i - 1], first, kinds, i - 1, tags[i]);
    }
  }

  lemma NextTag(name: string, st: Stage, tag: string, first: Stage, kinds: seq<Kind>, i: nat, next: string)
    requires IsName(name) && |name| >= 2 && i < |kinds| && st == StageAt(first, kinds, i)
    requires tag == Print(name, st) && Issues(tag, kinds[i], next)
    ensures next == Print(name, StageAt(first, kinds, i + 1)) && AcceptedAt(first, kinds, i)
  {
    IssuesAdvances(name, st, tag, kinds[i], next);
    StageNext(first, kinds, i, st);
  }

  lemma StageNext(first: Stage, kinds: seq<Kind>, i: nat, st: Stage)
    requires i < |kinds| && st == StageAt(first, kinds, i) && Advance(st, kinds[i]).Some?
    ensures StageAt(first, kinds, i + 1) == Advance(st, kinds[i]).value
  {
  }

  lemma {:induction false} StagesMoveForward(first: Stage, kinds: seq<Kind>, i: nat, j: nat)
    requires i < j <= |kinds| && forall k :: 0 <= k < |kinds| ==> AcceptedAt(first, kinds, k)
    ensures Before(StageAt(first, kinds, i), StageAt(first, kinds, j))
    ensures StageAt(first, kinds, j).Patch? && j == i + 1 ==> !StageAt(first, kinds, i).Candidate?
    decreases j
  {
    assert AcceptedAt(first, kinds, j - 1);
    AdvanceIsLater(StageAt(first, kinds, j - 1), kinds[j - 1]);
    if i < j - 1 {
      StagesMoveForward(first, kinds, i, j - 1);
      BeforeTransitive(StageAt(first, kinds, i), StageAt(first, kinds, j - 1), StageAt(first, kinds, j));
    }
  }

  /**
   Every sequence of preparations from a branch's first tag issues candidates,
   then the general release, then patches, strictly forward; no tag is issued
   twice and each reads back as the stage that printed it.
   */
  lemma TagsOnlyMoveForward(name: string, first: Stage, tags: seq<string>, kinds: seq<Kind>, i: nat, j: nat)
    requires IsName(name) && |name| >= 2 && Issued(tags, kinds) && tags[0] == Print(name, first) && i < j < |tags|
    ensures tags[i] != tags[j]
    ensures Read(tags[i]) == Some(Tag(name, StageAt(first, kinds, i))) && Read(tags[j]) == Some(Tag(name, StageAt(first, kinds, j)))
    ensures Before(StageAt(first, kinds, i), StageAt(first, kinds, j))
    ensures StageAt(first, kinds, j).Patch? && j == i + 1 ==> !StageAt(first, kinds, i).Candidate?
  {
    forall k | 0 <= k < |tags|
      ensures tags[k] == Print(name, StageAt(first, kinds, k)) && (k < |kinds| ==> AcceptedAt(first, kinds, k))
    {
      TagAt(name, first, tags, kinds, k);
      if k < |kinds| { TagAt(name, first, tags, kinds, k + 1); }
    }
    StagesMoveForward(first, kinds, i, j);
    TagRoundTrip(name, StageAt(first, kinds, i));
    TagRoundTrip(name, StageAt(first, kinds, j));
  }
}
