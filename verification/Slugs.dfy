/**
 `slugify`, and the session-store keys made from slugs. Lower-casing and
 "is alphanumeric" come from Unicode tables; here they are any functions with
 the few properties the argument needs.
 */
module Slugs {
  /** What `slugify` relies on: lower-casing yields settled characters and leaves settled text alone. */
  ghost predicate Casing(lower: string -> string, alnum: char -> bool, settled: char -> bool) {
    && (forall s :: AllSettled(lower(s), settled))
    && (forall s :: AllSettled(s, settled) ==> lower(s) == s)
    && settled('-') && !alnum('-')
  }

  ghost predicate AllSettled(s: string, settled: char -> bool) {
    forall i :: 0 <= i < |s| ==> settled(s[i])
  }

  function Dashed(s: string, alnum: char -> bool): string {
    seq(|s|, i requires 0 <= i < |s| => if alnum(s[i]) then s[i] else '-')
  }

  function TrimFront(s: string): string {
    if s != "" && s[0] == '-' then TrimFront(s[1..]) else s
  }

  function TrimBack(s: string): string {
    if s != "" && s[|s| - 1] == '-' then TrimBack(s[..|s| - 1]) else s
  }

  function SplitDash(s: string): (parts: seq<string>)
    ensures parts != []
  {
    if s == "" then [""]
    else
      var rest := SplitDash(s[1..]);
      if s[0] == '-' then [""] + rest else [[s[0]] + rest[0]] + rest[1..]
  }

  function NonEmpty(parts: seq<string>): seq<string> {
    if parts == [] then []
    else if parts[0] == "" then NonEmpty(parts[1..])
    else [parts[0]] + NonEmpty(parts[1..])
  }

  function JoinDash(parts: seq<string>): string {
    if parts == [] then ""
    else if |parts| == 1 then parts[0]
    else parts[0] + "-" + JoinDash(parts[1..])
  }

  function Slugify(name: string, lower: string -> string, alnum: char -> bool): string {
    JoinDash(NonEmpty(SplitDash(TrimBack(TrimFront(Dashed(lower(name), alnum))))))
  }

  // ----- the shape of a slug -----

  predicate IsWord(w: string, alnum: char -> bool) {
    w != "" && forall i :: 0 <= i < |w| ==> alnum(w[i])
  }

  predicate AllWords(parts: seq<string>, alnum: char -> bool) {
    forall i :: 0 <= i < |parts| ==> IsWord(parts[i], alnum)
  }

  /** Alphanumeric or a hyphen, everywhere. */
  predicate Tokens(s: string, alnum: char -> bool) {
    forall i :: 0 <= i < |s| ==> alnum(s[i]) || s[i] == '-'
  }

  lemma {:induction false} TrimTokens(s: string, alnum: char -> bool)
    requires Tokens(s, alnum)
    ensures Tokens(TrimFront(s), alnum) && Tokens(TrimBack(s), alnum)
    decreases |s|
  {
    if s != "" {
      if s[0] == '-' { TrimTokens(s[1..], alnum); }
      if s[|s| - 1] == '-' { TrimTokens(s[..|s| - 1], alnum); }
    }
  }

  lemma {:induction false} SplitTokens(s: string, alnum: char -> bool)
    requires Tokens(s, alnum) && !alnum('-')
    ensures forall i :: 0 <= i < |SplitDash(s)| ==> SplitDash(s)[i] == "" || IsWord(SplitDash(s)[i], alnum)
  {
    if s != "" { SplitTokens(s[1..], alnum); }
  }

  lemma {:induction false} NonEmptyWords(parts: seq<string>, alnum: char -> bool)
    requires forall i :: 0 <= i < |parts| ==> parts[i] == "" || IsWord(parts[i], alnum)
    ensures AllWords(NonEmpty(parts), alnum)
  {
    if parts != [] { NonEmptyWords(parts[1..], alnum); }
  }

  /** A slug is alphanumeric words joined by single hyphens. */
  lemma SlugIsWords(name: string, lower: string -> string, alnum: char -> bool) returns (words: seq<string>)
    requires !alnum('-')
    ensures Slugify(name, lower, alnum) == JoinDash(words) && AllWords(words, alnum)
  {
    var d := Dashed(lower(name), alnum);
    TrimTokens(d, alnum);
    TrimTokens(TrimFront(d), alnum);
    var t := TrimBack(TrimFront(d));
    SplitTokens(t, alnum);
    words := NonEmpty(SplitDash(t));
    NonEmptyWords(SplitDash(t), alnum);
  }

  /** No hyphen at either end, none doubled, and nothing that is neither a hyphen nor alphanumeric. */
  predicate Tidy(s: string, alnum: char -> bool) {
    && Tokens(s, alnum)
    && (s != "" ==> s[0] != '-' && s[|s| - 1] != '-')
    && forall i {:trigger s[i]} :: 0 <= i && i + 1 < |s| ==> !(s[i] == '-' && s[i + 1] == '-')
  }

  lemma {:induction false} JoinedIsTidy(words: seq<string>, alnum: char -> bool)
    requires AllWords(words, alnum) && !alnum('-')
    ensures Tidy(JoinDash(words), alnum)
  {
    if |words| == 1 {
      WordIsTidy(words[0], alnum);
    } else if |words| > 1 {
      JoinedIsTidy(words[1..], alnum);
      JoinedNonEmpty(words[1..], alnum);
      TidyJoins(words[0], JoinDash(words[1..]), alnum);
    }
  }

  lemma JoinedNonEmpty(words: seq<string>, alnum: char -> bool)
    requires words != [] && AllWords(words, alnum)
    ensures JoinDash(words) != ""
  {
    assert IsWord(words[0], alnum);
  }

  lemma WordIsTidy(w: string, alnum: char -> bool)
    requires IsWord(w, alnum) && !alnum('-')
    ensures Tidy(w, alnum)
  {
  }

  lemma TidyJoins(w: string, rest: string, alnum: char -> bool)
    requires IsWord(w, alnum) && !alnum('-') && Tidy(rest, alnum) && rest != ""
    ensures Tidy(w + "-" + rest, alnum)
  {
    var s := w + "-" + rest;
    forall i | 0 <= i < |s|
      ensures s[i] == if i < |w| then w[i] else if i == |w| then '-' else rest[i - |w| - 1]
    {
    }
    assert forall i :: 0 <= i < |w| ==> alnum(s[i]);
    assert s[|w| + 1] == rest[0] && s[|s| - 1] == rest[|rest| - 1];
  }

  // ----- the words are the alphanumeric runs of the name -----

  function Flush(run: string): seq<string> {
    if run == "" then [] else [run]
  }

  /** The maximal alphanumeric runs of a text, with `run` already read. */
  function Runs(s: string, run: string, alnum: char -> bool): seq<string>
    decreases s
  {
    if s == "" then Flush(run)
    else if alnum(s[0]) then Runs(s[1..], run + [s[0]], alnum)
    else Flush(run) + Runs(s[1..], "", alnum)
  }

  lemma {:induction false} SplitIsRuns(s: string, run: string, alnum: char -> bool)
    requires !alnum('-')
    ensures var parts := SplitDash(Dashed(s, alnum));
            NonEmpty([run + parts[0]] + parts[1..]) == Runs(s, run, alnum)
    decreases s
  {
    var parts := SplitDash(Dashed(s, alnum));
    if s == "" {
      assert parts == [""] && run + "" == run;
      OnePart(run, []);
    } else {
      var rest := SplitDash(Dashed(s[1..], alnum));
      assert Dashed(s, alnum)[1..] == Dashed(s[1..], alnum);
      if alnum(s[0]) {
        SplitIsRuns(s[1..], run + [s[0]], alnum);
        assert run + [s[0]] + rest[0] == run + ([s[0]] + rest[0]);
      } else {
        assert parts == [""] + rest && run + "" == run;
        SplitIsRuns(s[1..], "", alnum);
        assert "" + rest[0] == rest[0] && [rest[0]] + rest[1..] == rest;
        OnePart(run, rest);
      }
    }
  }

  lemma OnePart(first: string, rest: seq<string>)
    ensures NonEmpty([first] + rest) == Flush(first) + NonEmpty(rest)
  {
    assert ([first] + rest)[1..] == rest;
  }

  lemma {:induction false} TrimFrontKeepsWords(s: string)
    ensures NonEmpty(SplitDash(TrimFront(s))) == NonEmpty(SplitDash(s))
  {
    if s != "" && s[0] == '-' {
      TrimFrontKeepsWords(s[1..]);
      OnePart("", SplitDash(s[1..]));
    }
  }

  lemma {:induction false} SplitLastDash(t: string)
    ensures SplitDash(t + "-") == SplitDash(t) + [""]
    decreases t
  {
    if t == "" {
      assert "-"[1..] == "";
      assert t + "-" == "-" && SplitDash("-") == [""] + SplitDash("");
    } else {
      assert (t + "-")[1..] == t[1..] + "-";
      SplitLastDash(t[1..]);
    }
  }

  lemma {:induction false} NonEmptyLast(parts: seq<string>)
    ensures NonEmpty(parts + [""]) == NonEmpty(parts)
  {
    if parts == [] {
      OnePart("", []);
      assert parts + [""] == [""] + [];
    } else {
      assert (parts + [""])[1..] == parts[1..] + [""];
      NonEmptyLast(parts[1..]);
    }
  }

  lemma {:induction false} TrimBackKeepsWords(s: string)
    ensures NonEmpty(SplitDash(TrimBack(s))) == NonEmpty(SplitDash(s))
    decreases |s|
  {
    if s != "" && s[|s| - 1] == '-' {
      var t := s[..|s| - 1];
      assert s == t + "-";
      TrimBackKeepsWords(t);
      SplitLastDash(t);
      NonEmptyLast(SplitDash(t));
    }
  }

  /** A slug is the alphanumeric runs of the lower-cased name, in order, with single hyphens between. */
  lemma SlugIsRuns(name: string, lower: string -> string, alnum: char -> bool)
    requires !alnum('-')
    ensures Slugify(name, lower, alnum) == JoinDash(Runs(lower(name), "", alnum))
  {
    var d := Dashed(lower(name), alnum);
    TrimBackKeepsWords(TrimFront(d));
    TrimFrontKeepsWords(d);
    SplitIsRuns(lower(name), "", alnum);
    var parts := SplitDash(d);
    assert "" + parts[0] == parts[0] && [parts[0]] + parts[1..] == parts;
  }

  // ----- slugifying again changes nothing -----

  lemma {:induction false} SplitFront(w: string, s: string, alnum: char -> bool)
    requires IsWord(w, alnum) && !alnum('-')
    ensures SplitDash(w + s) == [w + SplitDash(s)[0]] + SplitDash(s)[1..]
    decreases |w|
  {
    var t := w[1..];
    assert (w + s)[1..] == t + s;
    if t == "" {
      assert t + s == s && w == [w[0]];
    } else {
      SplitFront(t, s, alnum);
      assert [w[0]] + (t + SplitDash(s)[0]) == w + SplitDash(s)[0];
    }
  }

  lemma {:induction false} SplitJoined(words: seq<string>, alnum: char -> bool)
    requires AllWords(words, alnum) && !alnum('-') && words != []
    ensures SplitDash(JoinDash(words)) == words
  {
    if |words| == 1 {
      SplitFront(words[0], "", alnum);
      assert words[0] + "" == words[0];
    } else {
      var rest := JoinDash(words[1..]);
      SplitJoined(words[1..], alnum);
      SplitFront(words[0], "-" + rest, alnum);
      assert ("-" + rest)[1..] == rest;
      assert words[0] + "-" + rest == words[0] + ("-" + rest) && words[0] + "" == words[0];
    }
  }

  lemma {:induction false} NonEmptyKeepsWords(words: seq<string>, alnum: char -> bool)
    requires AllWords(words, alnum)
    ensures NonEmpty(words) == words
  {
    if words != [] {
      assert IsWord(words[0], alnum);
      NonEmptyKeepsWords(words[1..], alnum);
    }
  }

  /** Every character of a slug comes from the lower-cased name, or is a hyphen. */
  lemma {:induction false} JoinSettled(words: seq<string>, settled: char -> bool)
    requires settled('-') && forall i :: 0 <= i < |words| ==> AllSettled(words[i], settled)
    ensures AllSettled(JoinDash(words), settled)
  {
    if |words| > 1 {
      JoinSettled(words[1..], settled);
    }
  }

  lemma {:induction false} SplitSettled(s: string, settled: char -> bool)
    requires AllSettled(s, settled)
    ensures forall i :: 0 <= i < |SplitDash(s)| ==> AllSettled(SplitDash(s)[i], settled)
  {
    if s != "" { SplitSettled(s[1..], settled); }
  }

  lemma {:induction false} NonEmptySettled(parts: seq<string>, settled: char -> bool)
    requires forall i :: 0 <= i < |parts| ==> AllSettled(parts[i], settled)
    ensures forall i :: 0 <= i < |NonEmpty(parts)| ==> AllSettled(NonEmpty(parts)[i], settled)
  {
    if parts != [] { NonEmptySettled(parts[1..], settled); }
  }

  lemma {:induction false} TrimSettled(s: string, settled: char -> bool)
    requires AllSettled(s, settled)
    ensures AllSettled(TrimFront(s), settled) && AllSettled(TrimBack(s), settled)
    decreases |s|
  {
    if s != "" {
      TrimSettled(s[1..], settled);
      TrimSettled(s[..|s| - 1], settled);
    }
  }

  lemma SlugIsSettled(name: string, lower: string -> string, alnum: char -> bool, settled: char -> bool)
    requires Casing(lower, alnum, settled)
    ensures AllSettled(Slugify(name, lower, alnum), settled)
  {
    var d := Dashed(lower(name), alnum);
    assert AllSettled(lower(name), settled);
    TrimSettled(d, settled);
    TrimSettled(TrimFront(d), settled);
    var t := TrimBack(TrimFront(d));
    SplitSettled(t, settled);
    NonEmptySettled(SplitDash(t), settled);
    JoinSettled(NonEmpty(SplitDash(t)), settled);
  }

  lemma TidyStays(s: string, alnum: char -> bool)
    requires Tidy(s, alnum)
    ensures Dashed(s, alnum) == s && TrimFront(s) == s && TrimBack(s) == s
  {
  }

  /** `slugify` is idempotent, and what it yields is tidy. */
  lemma SlugifyIdempotent(name: string, lower: string -> string, alnum: char -> bool, settled: char -> bool)
    requires Casing(lower, alnum, settled)
    ensures Tidy(Slugify(name, lower, alnum), alnum)
    ensures Slugify(Slugify(name, lower, alnum), lower, alnum) == Slugify(name, lower, alnum)
  {
    var slug := Slugify(name, lower, alnum);
    var words := SlugIsWords(name, lower, alnum);
    JoinedIsTidy(words, alnum);
    SlugIsSettled(name, lower, alnum, settled);
    TidyStays(slug, alnum);
    if words == [] {
      assert SplitDash("") == [""];
      assert NonEmpty([""]) == NonEmpty([""][1..]);
    } else {
      SplitJoined(words, alnum);
      NonEmptyKeepsWords(words, alnum);
    }
  }

  // ----- session-store keys -----

  const PREFIX := "community:"
  const SLOT := ".rotating"

  function IdentityKey(slug: string): string { PREFIX + slug }

  function SlotKey(slug: string): string { IdentityKey(slug) + SLOT }

  lemma PrefixCancels(p: string, a: string, b: string)
    ensures p + a == p + b <==> a == b
  {
    assert (p + a)[|p|..] == a && (p + b)[|p|..] == b;
  }

  lemma SuffixCancels(a: string, b: string, t: string)
    ensures a + t == b + t <==> a == b
  {
    assert (a + t)[..|a + t| - |t|] == a && (b + t)[..|b + t| - |t|] == b;
  }

  lemma Reassociate(p: string, b: string, t: string)
    ensures p + b + t == p + (b + t)
  {
  }

  /** Identities of different slugs never share a key; an identity and a slot do exactly when one slug names the other's slot. */
  lemma KeysCollide(a: string, b: string)
    ensures IdentityKey(a) == IdentityKey(b) <==> a == b
    ensures SlotKey(a) == SlotKey(b) <==> a == b
    ensures IdentityKey(a) == SlotKey(b) <==> a == b + SLOT
  {
    PrefixCancels(PREFIX, a, b);
    SuffixCancels(PREFIX + a, PREFIX + b, SLOT);
    PrefixCancels(PREFIX, a, b + SLOT);
    Reassociate(PREFIX, b, SLOT);
  }

  /** A slug made by `slugify` is never another's slot: it has no dot. */
  lemma SlugsNeverCollide(name: string, other: string, lower: string -> string, alnum: char -> bool)
    requires !alnum('-') && !alnum('.')
    ensures IdentityKey(Slugify(name, lower, alnum)) != SlotKey(other)
  {
    var words := SlugIsWords(name, lower, alnum);
    JoinedIsTidy(words, alnum);
    KeysCollide(Slugify(name, lower, alnum), other);
    assert (other + SLOT)[|other|] == '.';
  }
}
