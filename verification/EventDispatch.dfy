/**
 Two facts about the framing of an event stream: the condition under which the
 cutting of the stream does not matter is exact, and the events the blocks carry
 are those that reading its normalised text line by line gives.
 */
module EventDispatch {
  import opened Options
  import opened EventFraming

  // ----- the condition on the stream is exact -----

  function Crs(s: string): nat {
    if s == "" then 0 else (if s[0] == '\r' then 1 else 0) + Crs(s[1..])
  }

  lemma {:induction false} CrsConcat(a: string, b: string)
    ensures Crs(a + b) == Crs(a) + Crs(b)
  {
    if a == "" {
      Unit(b);
    } else {
      assert (a + b)[1..] == a[1..] + b;
      CrsConcat(a[1..], b);
    }
  }

  lemma {:induction false} CrsNormalize(s: string)
    ensures Crs(Normalize(s)) <= Crs(s)
    decreases |s|
  {
    if s == "" {
    } else if |s| >= 2 && s[0] == '\r' && s[1] == '\n' {
      CrsNormalize(s[2..]);
      CrsConcat("\n", Normalize(s[2..]));
      assert Crs(s) == 1 + Crs(s[1..]);
      assert s[1..][1..] == s[2..];
    } else {
      CrsNormalize(s[1..]);
      CrsConcat([s[0]], Normalize(s[1..]));
      assert Crs([s[0]]) == if s[0] == '\r' then 1 else 0;
    }
  }

  predicate EndsCrLf(s: string) {
    |s| >= 2 && s[|s| - 2] == '\r' && s[|s| - 1] == '\n'
  }

  /** Normalising a text that ends with CRLF removes a CR. */
  lemma CrsDrop(s: string)
    requires EndsCrLf(s)
    ensures Crs(Normalize(s)) < Crs(s)
  {
    var y := s[..|s| - 2];
    assert s == y + "\r\n";
    NormalizeConcat(y, "\r\n");
    assert Normalize("\r\n") == "\n" by { NormalizeCrLf(""); Unit("\r\n"); Unit("\n"); }
    CrsNormalize(y);
    CrsConcat(y, "\r\n");
    CrsConcat(Normalize(y), "\n");
    assert Crs("\r\n") == 1 + Crs("\r\n"[1..]);
  }

  lemma {:induction false} NoneMeansNoBlank(s: string, i: nat)
    requires FindBlank(s).None? && i + 1 < |s|
    ensures !(s[i] == '\n' && s[i + 1] == '\n')
    decreases |s|
  {
    if i > 0 { NoneMeansNoBlank(s[1..], i - 1); }
  }

  lemma {:induction false} RestHasNoBlank(t: string)
    ensures FindBlank(Split(t).rest).None?
    decreases |t|
  {
    if FindBlank(t).Some? {
      SplitUnfold(t, FindBlank(t).value);
      RestHasNoBlank(t[FindBlank(t).value + 2..]);
    }
  }

  /** All the CRs of a text that ends with a blank line are in its blocks. */
  lemma CrsInBlocks(t: string)
    requires EndsBlank(t)
    ensures Crs(Joined(Split(t).blocks)) == Crs(t)
  {
    var j, rest := Joined(Split(t).blocks), Split(t).rest;
    SplitCovers(t);
    RestHasNoBlank(t);
    RestIsShort(t, j, rest);
    CrsConcat(j, rest);
    NoCrs(rest);
  }

  lemma RestIsShort(t: string, j: string, rest: string)
    requires EndsBlank(t) && t == j + rest && FindBlank(rest).None?
    ensures rest == "" || rest == "\n"
  {
    if |rest| >= 2 {
      assert rest[|rest| - 2] == t[|t| - 2] && rest[|rest| - 1] == t[|t| - 1];
      NoneMeansNoBlank(rest, |rest| - 2);
    } else if |rest| == 1 {
      assert rest[0] == t[|t| - 1];
    }
  }

  lemma NoCrs(rest: string)
    requires rest == "" || rest == "\n"
    ensures Crs(rest) == 0
  {
    if rest == "\n" { assert rest[1..] == ""; }
  }

  lemma {:induction false} JoinedConcat(a: seq<string>, b: seq<string>)
    ensures Joined(a + b) == Joined(a) + Joined(b)
  {
    if a == [] {
      Unit(b);
      Unit(Joined(b));
    } else {
      assert (a + b)[1..] == a[1..] + b;
      JoinedConcat(a[1..], b);
      Assoc(a[0], Joined(a[1..]), Joined(b));
    }
  }

  lemma NormalizeNewline(y: string)
    ensures Normalize(y + "\n") != "" && Normalize(y + "\n")[|Normalize(y + "\n")| - 1] == '\n'
  {
    assert Normalize("\n") == "\n" by { NormalizeCons('\n', ""); Unit("\n"); }
    if y != "" && y[|y| - 1] == '\r' {
      var z := y[..|y| - 1];
      assert y + "\n" == z + "\r\n";
      NormalizeConcat(z, "\r\n");
      NormalizeCrLf("");
      Unit("\r\n");
    } else {
      NormalizeConcat(y, "\n");
    }
  }

  lemma NormalizeEndsBlank(x: string)
    requires EndsBlank(x)
    ensures EndsBlank(Normalize(x))
  {
    var y := x[..|x| - 1];
    var z := y[..|y| - 1];
    assert x == y + "\n" && y == z + "\n";
    NormalizeNewline(z);
    NormalizeConcat(y, "\n");
    assert Normalize("\n") == "\n" by { NormalizeCons('\n', ""); Unit("\n"); }
  }

  /** Text ending CR CRLF normalises to text still ending with a CRLF. */
  lemma DoubleCrLeaves(p: string)
    requires |p| >= 3 && p[|p| - 3] == '\r' && EndsCrLf(p)
    ensures EndsCrLf(Normalize(p))
  {
    var q := p[..|p| - 2];
    var p0 := q[..|q| - 1];
    assert p == q + "\r\n" && q == p0 + "\r";
    NormalizeConcat(q, "\r\n");
    NormalizeConcat(p0, "\r");
    assert Normalize("\r") == "\r" by { NormalizeCons('\r', ""); Unit("\r"); }
    assert Normalize("\r\n") == "\n" by { NormalizeCrLf(""); Unit("\r\n"); Unit("\n"); }
  }

  lemma RestKeepsCrLf(t: string)
    requires EndsCrLf(t)
    ensures EndsCrLf(Split(t).rest)
  {
    SplitCovers(t);
    SuffixKeepsCrLf(t, Joined(Split(t).blocks), Split(t).rest);
  }

  lemma SuffixKeepsCrLf(t: string, j: string, rest: string)
    requires t == j + rest && EndsCrLf(t) && (j == "" || EndsBlank(j))
    ensures EndsCrLf(rest)
  {
  }

  lemma FeedTwo(p: string, c: string)
    ensures var before := Split(Normalize(p));
            FeedAll([p, c]) == Framed(before.blocks + Feed(before.rest, c).blocks, Feed(before.rest, c).rest)
  {
    Unit(p);
    assert [p, c][..1] == [p] && [p][..0] == [];
    assert FeedAll([p][..0]) == Framed([], "");
    Unit(Split(Normalize(p)).blocks);
    assert FeedAll([p]) == Split(Normalize(p));
  }

  lemma RestEndsBlank(p: string, c: string, rest: string)
    requires EndsCrLf(p) && EndsCrLf(rest) && EndsBlank(p + c)
    ensures EndsBlank(rest + c)
  {
    assert c == "" ==> p + c == p;
    assert c != "";
    assert c[|c| - 1] == (p + c)[|p + c| - 1];
    assert |c| >= 2 ==> c[|c| - 2] == (p + c)[|p + c| - 2];
  }

  /** The CRs delivered when the stream is cut after `p`. */
  lemma CutDelivers(p: string, c: string, t: string, rest: string)
    requires t == Normalize(p) && rest == Split(t).rest && EndsBlank(rest + c)
    ensures Crs(Joined(FeedAll([p, c]).blocks)) == Crs(Joined(Split(t).blocks)) + Crs(Normalize(rest + c))
  {
    var u := Normalize(rest + c);
    NormalizeEndsBlank(rest + c);
    CrsInBlocks(u);
    FeedTwo(p, c);
    JoinedConcat(Split(t).blocks, Split(u).blocks);
    CrsConcat(Joined(Split(t).blocks), Joined(Split(u).blocks));
  }

  /** Cutting right after CR CRLF loses a CR that the uncut stream delivers. */
  lemma DoubleCrMatters(p: string, c: string)
    requires |p| >= 3 && p[|p| - 3] == '\r' && EndsCrLf(p) && EndsBlank(p + c)
    ensures Crs(Joined(FeedAll([p, c]).blocks)) < Crs(Joined(Split(Normalize(p + c)).blocks))
  {
    var t := Normalize(p);
    var rest := Split(t).rest;
    DoubleCrLeaves(p);
    RestKeepsCrLf(t);
    SplitCovers(t);
    CutCrs(p, c, t, Joined(Split(t).blocks), rest);
    RestEndsBlank(p, c, rest);
    CutDelivers(p, c, t, rest);
    NormalizeEndsBlank(p + c);
    CrsInBlocks(Normalize(p + c));
  }

  lemma CutCrs(p: string, c: string, t: string, j: string, rest: string)
    requires EndsCrLf(p) && t == Normalize(p) && t == j + rest && EndsCrLf(rest)
    ensures Crs(j) + Crs(Normalize(rest + c)) < Crs(Normalize(p + c))
  {
    NormalizeConcat(p, c);
    NormalizeConcat(rest, c);
    CrsConcat(t, Normalize(c));
    CrsConcat(Normalize(rest), Normalize(c));
    CrsConcat(j, rest);
    CrsDrop(rest);
  }

  /** The CRs of what was framed, blocks and buffer. */
  function FramedCrs(f: Framed): nat {
    Crs(Joined(f.blocks)) + Crs(f.rest)
  }

  lemma SplitKeepsCrs(t: string)
    ensures FramedCrs(Split(t)) == Crs(t)
  {
    SplitCovers(t);
    CrsConcat(Joined(Split(t).blocks), Split(t).rest);
  }

  /** Cutting right after CR CRLF loses a CR from the blocks and the buffer together, whatever follows. */
  lemma DoubleCrLoses(p: string, c: string)
    requires |p| >= 3 && p[|p| - 3] == '\r' && EndsCrLf(p)
    ensures FramedCrs(FeedAll([p, c])) < FramedCrs(Split(Normalize(p + c)))
  {
    var t := Normalize(p);
    var rest := Split(t).rest;
    DoubleCrLeaves(p);
    RestKeepsCrLf(t);
    SplitCovers(t);
    CutCrs(p, c, t, Joined(Split(t).blocks), rest);
    FeedTwo(p, c);
    CutKeepsCrs(Split(t).blocks, Normalize(rest + c));
    SplitKeepsCrs(Normalize(p + c));
  }

  lemma CutKeepsCrs(blocks: seq<string>, u: string)
    ensures FramedCrs(Framed(blocks + Split(u).blocks, Split(u).rest)) == Crs(Joined(blocks)) + Crs(u)
  {
    JoinedConcat(blocks, Split(u).blocks);
    CrsConcat(Joined(blocks), Joined(Split(u).blocks));
    SplitKeepsCrs(u);
  }

  /**
   Every way of cutting a stream gives the blocks and the buffer of the whole
   exactly when it has no CR directly before a CRLF. For a stream that ends with
   a blank line the blocks alone show it.
   */
  lemma ChunkingMattersExactly(s: string)
    ensures NoDoubleCr(s) <==> forall chunks :: Concat(chunks) == s ==> FeedAll(chunks) == Split(Normalize(s))
    ensures EndsBlank(s) ==>
            (NoDoubleCr(s) <==> forall chunks :: Concat(chunks) == s ==> FeedAll(chunks).blocks == Split(Normalize(s)).blocks)
  {
    if NoDoubleCr(s) {
      forall chunks | Concat(chunks) == s
        ensures FeedAll(chunks) == Split(Normalize(s))
      {
        ChunkingDoesNotMatter(chunks);
      }
    } else {
      var chunks := BadCut(s);
    }
  }

  /** A cutting of a stream with CR CRLF in it that shows. */
  lemma BadCut(s: string) returns (chunks: seq<string>)
    requires !NoDoubleCr(s)
    ensures Concat(chunks) == s && FeedAll(chunks) != Split(Normalize(s))
    ensures EndsBlank(s) ==> FeedAll(chunks).blocks != Split(Normalize(s)).blocks
  {
    var p, c := CutAfterDoubleCr(s);
    chunks := [p, c];
    ConcatTwo(p, c);
    DoubleCrLoses(p, c);
    if EndsBlank(s) { DoubleCrMatters(p, c); }
  }

  lemma CutAfterDoubleCr(s: string) returns (p: string, c: string)
    requires !NoDoubleCr(s)
    ensures s == p + c && |p| >= 3 && p[|p| - 3] == '\r' && EndsCrLf(p)
  {
    var i :| 0 <= i && i + 2 < |s| && s[i] == '\r' && s[i + 1] == '\r' && s[i + 2] == '\n';
    p, c := s[..i + 3], s[i + 3..];
  }

  lemma ConcatTwo(p: string, c: string)
    ensures Concat([p, c]) == p + c
  {
    assert [p, c][..1] == [p] && [p][..0] == [];
    assert Concat([p][..0]) == "";
    Unit(p);
    assert Concat([p]) == p;
  }

  // ----- what the blocks mean -----

  /** Unicode white space, which `trim_start` strips. */
  predicate IsSpace(c: char) {
    var n := c as int;
    || 9 <= n <= 13 || n == 0x20 || n == 0x85 || n == 0xA0 || n == 0x1680 || 0x2000 <= n <= 0x200A
    || n == 0x2028 || n == 0x2029 || n == 0x202F || n == 0x205F || n == 0x3000
  }

  lemma WhiteSpaceListed(c: char)
    ensures IsSpace(c) <==>
            c in "\t\n\U{000B}\U{000C}\r \U{0085}\U{00A0}\U{1680}\U{2000}\U{2001}\U{2002}\U{2003}\U{2004}\U{2005}\U{2006}\U{2007}\U{2008}\U{2009}\U{200A}\U{2028}\U{2029}\U{202F}\U{205F}\U{3000}"
  {
  }

  function TrimStart(s: string): string {
    if s != "" && IsSpace(s[0]) then TrimStart(s[1..]) else s
  }

  /** The value of a `data:` line; no other line contributes. */
  function DataOf(line: string): seq<string> {
    if "data:" <= line then [TrimStart(line[5..])] else []
  }

  function FindNewline(s: string): (at: nat)
    ensures at <= |s| && (at < |s| ==> s[at] == '\n') && forall k :: 0 <= k < at ==> s[k] != '\n'
  {
    if s == "" || s[0] == '\n' then 0 else 1 + FindNewline(s[1..])
  }

  /** `lines()` and its filter: the data lines of a block, in order. */
  function DataLines(s: string): seq<string>
    decreases |s|
  {
    if s == "" then []
    else
      var i := FindNewline(s);
      if i == |s| then DataOf(StripCr(s)) else DataOf(StripCr(s[..i])) + DataLines(s[i + 1..])
  }

  function StripCr(line: string): string {
    if line != "" && line[|line| - 1] == '\r' then line[..|line| - 1] else line
  }

  /** The events of a run of blocks; a block without data is a heartbeat. */
  function Events(blocks: seq<string>): seq<seq<string>> {
    if blocks == [] then []
    else Emit(DataLines(blocks[0])) + Events(blocks[1..])
  }

  function Emit(data: seq<string>): seq<seq<string>> {
    if data == [] then [] else [data]
  }

  /** A reader that takes one character at a time: lines, and an event at each blank line. */
  datatype Dispatcher = Dispatcher(events: seq<seq<string>>, data: seq<string>, line: string)

  function OnChar(d: Dispatcher, c: char): Dispatcher {
    if c != '\n' then d.(line := d.line + [c])
    else if d.line == "" then Dispatcher(d.events + Emit(d.data), [], "")
    else Dispatcher(d.events, d.data + DataOf(d.line), "")
  }

  function Dispatch(d: Dispatcher, s: string): Dispatcher
    decreases s
  {
    if s == "" then d else Dispatch(OnChar(d, s[0]), s[1..])
  }

  lemma {:induction false} DispatchConcat(d: Dispatcher, a: string, b: string)
    ensures Dispatch(d, a + b) == Dispatch(Dispatch(d, a), b)
    decreases a
  {
    if a == "" {
      Unit(b);
    } else {
      assert (a + b)[1..] == a[1..] + b;
      DispatchConcat(OnChar(d, a[0]), a[1..], b);
    }
  }

  lemma {:induction false} DispatchLine(d: Dispatcher, l: string)
    requires '\n' !in l
    ensures Dispatch(d, l) == d.(line := d.line + l)
    decreases l
  {
    if l == "" {
      Unit(d.line);
    } else {
      DispatchLine(OnChar(d, l[0]), l[1..]);
      Assoc(d.line, [l[0]], l[1..]);
      assert [l[0]] + l[1..] == l;
    }
  }

  /** A whole line, ended. */
  lemma DispatchLineEnd(events: seq<seq<string>>, data: seq<string>, l: string)
    requires '\n' !in l && l != ""
    ensures Dispatch(Dispatcher(events, data, ""), l + "\n") == Dispatcher(events, data + DataOf(l), "")
  {
    var d := Dispatcher(events, data, "");
    DispatchConcat(d, l, "\n");
    DispatchLine(d, l);
    Unit(l);
    var after := Dispatcher(events, data, l);
    assert "\n"[1..] == "";
    assert Dispatch(OnChar(after, '\n'), "") == OnChar(after, '\n');
  }

  /** What is left of a block after a whole line: its closing newline, or more lines and that. */
  predicate IsTail(s: string) {
    s == "\n" || (FindBlank(s) == Some(|s| - 2) && s[0] != '\n')
  }

  lemma TailShrinks(s: string) returns (l: string, t: string)
    requires IsTail(s) && s != "\n"
    ensures l != "" && '\n' !in l && s == l + "\n" + t && IsTail(t)
    ensures FindNewline(s) == |l| && |l| < |s| && l == s[..|l|] && t == s[|l| + 1..]
  {
    var i := FindNewline(s);
    FindBlankAfter(s, i);
    l, t := s[..i], s[i + 1..];
    CutAtNewline(s, i);
  }

  lemma CutAtNewline(s: string, i: nat)
    requires i < |s| && s[i] == '\n'
    ensures s == s[..i] + "\n" + s[i + 1..]
  {
    assert s == s[..i] + s[i..i + 1] + s[i + 1..];
  }

  lemma SuffixNoCrLf(s: string, k: nat)
    requires NoCrLf(s) && k <= |s|
    ensures NoCrLf(s[k..])
  {
    forall i | 0 <= i && i + 1 < |s[k..]|
      ensures !(s[k..][i] == '\r' && s[k..][i + 1] == '\n')
    {
      assert s[k..][i] == s[k + i];
    }
  }

  /** The first blank line is found past the first line too. */
  lemma {:induction false} FindBlankAfter(s: string, i: nat)
    requires FindBlank(s) == Some(|s| - 2) && s[0] != '\n' && i == FindNewline(s)
    ensures 0 < i < |s| && IsTail(s[i + 1..])
    decreases |s|
  {
    if s[1] == '\n' {
      assert FindNewline(s[1..]) == 0 && i == 1;
      if |s| > 3 {
        assert FindBlank(s[1..]) == Some(|s| - 3);
        assert s[1..][1..] == s[2..];
        assert FindBlank(s[2..]) == Some(|s| - 4);
      } else {
        assert s[2..] == "\n";
      }
    } else {
      assert FindBlank(s[1..]) == Some(|s| - 3);
      FindBlankAfter(s[1..], i - 1);
      assert s[1..][i..] == s[i + 1..];
    }
  }

  lemma LineKeepsCr(s: string, i: nat)
    requires NoCrLf(s) && i < |s| && s[i] == '\n'
    ensures StripCr(s[..i]) == s[..i]
  {
    if i > 0 {
      var c := s[i - 1];
      assert c != '\r';
    }
  }

  lemma DispatchClosing(events: seq<seq<string>>, data: seq<string>)
    ensures Dispatch(Dispatcher(events, data, ""), "\n") == Dispatcher(events + Emit(data), [], "")
    ensures DataLines("\n") == []
  {
    var d := Dispatcher(events, data, "");
    assert "\n"[1..] == "";
    assert Dispatch(OnChar(d, '\n'), "") == OnChar(d, '\n');
    assert FindNewline("\n") == 0 && "\n"[..0] == "";
    assert DataOf(StripCr("")) == [] && DataLines("") == [];
  }

  /** The data lines of a text with a first line that does not end in a CR. */
  lemma DataLinesCons(s: string, l: string)
    requires s != "" && FindNewline(s) == |l| < |s| && l == s[..|l|] && StripCr(l) == l
    ensures DataLines(s) == DataOf(l) + DataLines(s[|l| + 1..])
  {
  }

  lemma {:induction false} DispatchTail(events: seq<seq<string>>, data: seq<string>, s: string)
    requires IsTail(s) && NoCrLf(s)
    ensures Dispatch(Dispatcher(events, data, ""), s) == Dispatcher(events + Emit(data + DataLines(s)), [], "")
    decreases |s|
  {
    if s == "\n" {
      DispatchClosing(events, data);
      Unit(data);
    } else {
      var l, t := TailShrinks(s);
      SuffixNoCrLf(s, |l| + 1);
      DispatchTail(events, data + DataOf(l), t);
      DispatchLineThen(events, data, l, t);
      LineKeepsCr(s, |l|);
      DataLinesCons(s, l);
      Assoc(data, DataOf(l), DataLines(t));
    }
  }

  lemma DispatchLineThen(events: seq<seq<string>>, data: seq<string>, l: string, t: string)
    requires '\n' !in l && l != ""
    ensures Dispatch(Dispatcher(events, data, ""), l + "\n" + t) == Dispatch(Dispatcher(events, data + DataOf(l), ""), t)
  {
    DispatchConcat(Dispatcher(events, data, ""), l + "\n", t);
    DispatchLineEnd(events, data, l);
  }

  /** After a leading newline a block is a tail. */
  lemma LeadingNewline(b: string)
    requires FindBlank(b) == Some(|b| - 2) && b[0] == '\n'
    ensures IsTail(b[1..])
  {
    if b[1] == '\n' {
      assert b[1..] == "\n";
    } else {
      assert FindBlank(b[1..]) == Some(|b| - 3);
    }
  }

  lemma LeadingNewlineHasNoData(b: string)
    requires b != "" && b[0] == '\n'
    ensures DataLines(b) == DataLines(b[1..])
  {
    assert b[..0] == "" && DataOf("") == [];
    DataLinesCons(b, "");
    Unit(DataLines(b[1..]));
  }

  /** A block read character by character dispatches the one event its data lines make, if any. */
  lemma DispatchBlock(events: seq<seq<string>>, b: string)
    requires FindBlank(b) == Some(|b| - 2) && NoCrLf(b)
    ensures Dispatch(Dispatcher(events, [], ""), b) == Dispatcher(events + Emit(DataLines(b)), [], "")
  {
    if b[0] == '\n' {
      LeadingNewline(b);
      SuffixNoCrLf(b, 1);
      Unit(events);
      DispatchTail(events, [], b[1..]);
      Unit(DataLines(b[1..]));
      LeadingNewlineHasNoData(b);
    } else {
      DispatchTail(events, [], b);
      Unit(DataLines(b));
    }
  }

  lemma {:induction false} DispatchBlocks(events: seq<seq<string>>, t: string)
    requires NoCrLf(t)
    ensures Dispatch(Dispatcher(events, [], ""), Joined(Split(t).blocks)) == Dispatcher(events + Events(Split(t).blocks), [], "")
    decreases |t|
  {
    if FindBlank(t).Some? {
      var i := FindBlank(t).value;
      var b, r := t[..i + 2], t[i + 2..];
      SplitUnfold(t, i);
      JoinedUnfold(t, i);
      FindTrimmed(t, i);
      SuffixNoCrLf(t, i + 2);
      assert forall k :: 0 <= k < |b| ==> b[k] == t[k];
      DispatchConcat(Dispatcher(events, [], ""), b, Joined(Split(r).blocks));
      DispatchBlock(events, b);
      DispatchBlocks(events + Emit(DataLines(b)), r);
      EventsUnfold(events, b, Split(r).blocks, Split(t).blocks);
    } else {
      Unit(events);
    }
  }

  lemma EventsUnfold(events: seq<seq<string>>, b: string, more: seq<string>, all: seq<string>)
    requires all == [b] + more
    ensures events + Emit(DataLines(b)) + Events(more) == events + Events(all)
  {
    assert all[1..] == more;
    Assoc(events, Emit(DataLines(b)), Events(more));
  }

  /** What is left in the buffer dispatches nothing. */
  lemma {:induction false} DispatchRest(d: Dispatcher, s: string)
    requires FindBlank(s).None? && (d.line != "" || d.data == [])
    ensures Dispatch(d, s).events == d.events
    decreases |s|
  {
    if s != "" {
      var next := OnChar(d, s[0]);
      Unit(d.events);
      if |s| == 1 {
        assert s[1..] == "";
        assert Dispatch(next, "") == next;
      } else if s[0] == '\n' {
        assert s[1] != '\n';
        assert next.line == "";
        DispatchOpenLine(next, s[1..]);
      } else {
        DispatchRest(next, s[1..]);
      }
    }
  }

  lemma {:induction false} DispatchOpenLine(d: Dispatcher, s: string)
    requires FindBlank(s).None? && s != "" && s[0] != '\n'
    ensures Dispatch(d, s).events == d.events
    decreases |s|
  {
    var next := OnChar(d, s[0]);
    assert FindBlank(s[1..]).None?;
    DispatchRest(next, s[1..]);
  }

  /**
   However the stream is cut, the events the framing loop delivers are those a
   reader of the whole normalised stream dispatches character by character.
   */
  lemma FramingDispatchesTheEvents(chunks: seq<string>)
    requires NoDoubleCr(Concat(chunks))
    ensures Events(FeedAll(chunks).blocks) == Dispatch(Dispatcher([], [], ""), Normalize(Concat(chunks))).events
  {
    var t := Normalize(Concat(chunks));
    var start := Dispatcher([], [], "");
    ChunkingDoesNotMatter(chunks);
    NormalizeClears(Concat(chunks));
    SplitCovers(t);
    DispatchConcat(start, Joined(Split(t).blocks), Split(t).rest);
    DispatchBlocks([], t);
    RestHasNoBlank(t);
    DispatchRest(Dispatcher([] + Events(Split(t).blocks), [], ""), Split(t).rest);
    Unit(Events(Split(t).blocks));
  }
}
