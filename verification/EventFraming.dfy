/**
 The framing of a server-sent event stream in `cnm actions watch`: text arrives
 in chunks, is appended to a buffer, CRLF becomes LF in the buffer, and every
 block up to a blank line is taken off its front. What comes out does not depend
 on how the stream was cut.
 */
module EventFraming {
  import opened Options

  lemma Assoc<T>(a: seq<T>, b: seq<T>, c: seq<T>)
    ensures a + b + c == a + (b + c)
  {
  }

  lemma Unit<T>(a: seq<T>)
    ensures [] + a == a && a + [] == a
  {
  }

  // ----- the algorithm, on values -----

  /** `replace("\r\n", "\n")`: one pass from the left. */
  function Normalize(s: string): string {
    if s == "" then ""
    else if |s| >= 2 && s[0] == '\r' && s[1] == '\n' then "\n" + Normalize(s[2..])
    else [s[0]] + Normalize(s[1..])
  }

  /** `find("\n\n")`: where the first blank line starts. */
  function FindBlank(s: string): (at: Option<nat>)
    ensures at.Some? ==> at.value + 2 <= |s| && s[at.value] == '\n' && s[at.value + 1] == '\n'
  {
    if |s| < 2 then None
    else if s[0] == '\n' && s[1] == '\n' then Some(0)
    else match FindBlank(s[1..]) case None => None case Some(i) => Some(i + 1)
  }

  datatype Framed = Framed(blocks: seq<string>, rest: string)

  /** Every complete block off the front, and what is left. */
  function Split(s: string): Framed
    decreases |s|
  {
    match FindBlank(s)
    case None => Framed([], s)
    case Some(i) =>
      var f := Split(s[i + 2..]);
      Framed([s[..i + 2]] + f.blocks, f.rest)
  }

  /** One chunk: what it completes, and the buffer afterwards. */
  function Feed(buf: string, chunk: string): Framed {
    Split(Normalize(buf + chunk))
  }

  function FeedAll(chunks: seq<string>): Framed {
    if chunks == [] then Framed([], "")
    else
      var n := |chunks| - 1;
      var before := FeedAll(chunks[..n]);
      var f := Feed(before.rest, chunks[n]);
      Framed(before.blocks + f.blocks, f.rest)
  }

  function Concat(chunks: seq<string>): string {
    if chunks == [] then "" else Concat(chunks[..|chunks| - 1]) + chunks[|chunks| - 1]
  }

  // ----- the algorithm, as the stream loop runs it -----

  lemma NormalizeFrom(out: string, s: string, i: nat)
    requires i < |s|
    ensures out + Normalize(s[i..]) ==
            if i + 1 < |s| && s[i] == '\r' && s[i + 1] == '\n' then out + "\n" + Normalize(s[i + 2..])
            else out + [s[i]] + Normalize(s[i + 1..])
  {
    assert i + 2 <= |s| ==> s[i..][2..] == s[i + 2..];
    assert s[i..][1..] == s[i + 1..];
  }

  method ReplaceCrLf(s: string) returns (out: string)
    ensures out == Normalize(s)
  {
    out := "";
    var i := 0;
    while i < |s|
      invariant 0 <= i <= |s| && out + Normalize(s[i..]) == Normalize(s)
    {
      NormalizeFrom(out, s, i);
      if i + 1 < |s| && s[i] == '\r' && s[i + 1] == '\n' {
        out := out + "\n";
        i := i + 2;
      } else {
        out := out + [s[i]];
        i := i + 1;
      }
    }
  }

  lemma SplitUnfold(s: string, i: nat)
    requires FindBlank(s) == Some(i)
    ensures Split(s).rest == Split(s[i + 2..]).rest
    ensures Split(s).blocks == [s[..i + 2]] + Split(s[i + 2..]).blocks
  {
  }

  /** The inner loop: take every complete block off the front of the buffer. */
  method Drain(normalized: string) returns (blocks: seq<string>, buf: string)
    ensures Framed(blocks, buf) == Split(normalized)
  {
    blocks, buf := [], normalized;
    Unit(Split(buf).blocks);
    while FindBlank(buf).Some?
      invariant Framed(blocks + Split(buf).blocks, Split(buf).rest) == Split(normalized)
      decreases |buf|
    {
      var end := FindBlank(buf).value;
      DrainOne(blocks, buf, end);
      blocks, buf := blocks + [buf[..end + 2]], buf[end + 2..];
    }
    Unit(blocks);
  }

  /** The loop in `once` over the chunks a response delivers. */
  method Receive(chunks: seq<string>) returns (blocks: seq<string>, buf: string)
    ensures Framed(blocks, buf) == FeedAll(chunks)
  {
    blocks, buf := [], "";
    for i := 0 to |chunks|
      invariant Framed(blocks, buf) == FeedAll(chunks[..i])
    {
      assert chunks[..i + 1][..i] == chunks[..i];
      var normalized := ReplaceCrLf(buf + chunks[i]);
      var more;
      more, buf := Drain(normalized);
      blocks := blocks + more;
    }
    assert chunks[..|chunks|] == chunks;
  }

  lemma DrainOne(blocks: seq<string>, buf: string, i: nat)
    requires FindBlank(buf) == Some(i)
    ensures Framed(blocks + Split(buf).blocks, Split(buf).rest) ==
            Framed(blocks + [buf[..i + 2]] + Split(buf[i + 2..]).blocks, Split(buf[i + 2..]).rest)
  {
    SplitUnfold(buf, i);
    Assoc(blocks, [buf[..i + 2]], Split(buf[i + 2..]).blocks);
  }

  // ----- normalising -----

  /** Nowhere a CR directly before a CRLF. */
  predicate NoDoubleCr(s: string) {
    forall i :: 0 <= i && i + 2 < |s| ==> !(s[i] == '\r' && s[i + 1] == '\r' && s[i + 2] == '\n')
  }

  predicate NoCrLf(s: string) {
    forall i {:trigger s[i]} :: 0 <= i && i + 1 < |s| ==> !(s[i] == '\r' && s[i + 1] == '\n')
  }

  /** The boundary between two texts does not fall inside a CRLF. */
  predicate CleanCut(a: string, b: string) {
    a == "" || b == "" || a[|a| - 1] != '\r' || b[0] != '\n'
  }

  lemma NormalizeCons(first: char, y: string)
    requires first != '\r' || y == "" || y[0] != '\n'
    ensures Normalize([first] + y) == [first] + Normalize(y)
  {
    assert ([first] + y)[1..] == y;
  }

  lemma NormalizeCrLf(y: string)
    ensures Normalize("\r\n" + y) == "\n" + Normalize(y)
  {
    assert ("\r\n" + y)[2..] == y;
  }

  lemma {:induction false} NormalizeConcat(a: string, b: string)
    requires CleanCut(a, b)
    ensures Normalize(a + b) == Normalize(a) + Normalize(b)
    decreases |a|
  {
    if a == "" {
      Unit(b);
      Unit(Normalize(b));
    } else if |a| >= 2 && a[0] == '\r' && a[1] == '\n' {
      NormalizeConcat(a[2..], b);
      NormalizeConcatCrLf(a, a[2..], b);
    } else {
      NormalizeConcat(a[1..], b);
      NormalizeConcatCons(a, a[1..], b);
    }
  }

  lemma NormalizeConcatCrLf(a: string, t: string, b: string)
    requires a == "\r\n" + t && Normalize(t + b) == Normalize(t) + Normalize(b)
    ensures Normalize(a + b) == Normalize(a) + Normalize(b)
  {
    Assoc("\r\n", t, b);
    NormalizeCrLf(t);
    NormalizeCrLf(t + b);
    Assoc("\n", Normalize(t), Normalize(b));
  }

  lemma NormalizeConcatCons(a: string, t: string, b: string)
    requires a != "" && t == a[1..] && CleanCut(a, b) && (a[0] == '\r' && t != "" ==> t[0] != '\n')
    requires Normalize(t + b) == Normalize(t) + Normalize(b)
    ensures Normalize(a + b) == Normalize(a) + Normalize(b)
  {
    assert a == [a[0]] + t;
    Assoc([a[0]], t, b);
    NormalizeCons(a[0], t);
    NormalizeCons(a[0], t + b);
    Assoc([a[0]], Normalize(t), Normalize(b));
  }

  lemma {:induction false} NormalizedStays(s: string)
    requires NoCrLf(s)
    ensures Normalize(s) == s
    decreases |s|
  {
    if s != "" {
      assert forall i :: 0 <= i < |s| - 1 ==> s[1..][i] == s[i + 1];
      NormalizedStays(s[1..]);
    }
  }

  /** The first character after normalising, when the text is not empty. */
  lemma NormalizeFirst(s: string)
    requires s != ""
    ensures Normalize(s) != ""
    ensures Normalize(s)[0] == if |s| >= 2 && s[0] == '\r' && s[1] == '\n' then '\n' else s[0]
  {
  }

  lemma {:induction false} NormalizeClears(s: string)
    requires NoDoubleCr(s)
    ensures NoCrLf(Normalize(s))
    decreases |s|
  {
    if s != "" {
      var crlf := |s| >= 2 && s[0] == '\r' && s[1] == '\n';
      var tail := if crlf then s[2..] else s[1..];
      var first := if crlf then '\n' else s[0];
      assert NoDoubleCr(tail) by {
        assert forall i :: 0 <= i < |tail| ==> tail[i] == s[i + (if crlf then 2 else 1)];
      }
      NormalizeClears(tail);
      assert Normalize(s) == [first] + Normalize(tail);
      if tail != "" { NormalizeFirst(tail); }
    }
  }

  /** Normalising the front first changes nothing, as long as no CRLF can form anew. */
  lemma {:induction false} NormalizeTwice(p: string, c: string)
    requires NoDoubleCr(p)
    ensures Normalize(Normalize(p) + c) == Normalize(p + c)
    decreases |p|
  {
    if |p| >= 2 && p[0] == '\r' && p[1] == '\n' {
      var tail := p[2..];
      assert forall i :: 0 <= i < |tail| ==> tail[i] == p[i + 2];
      NormalizeTwice(tail, c);
      NormalizeTwiceCrLf(p, tail, c);
    } else if p != "" {
      var tail := p[1..];
      assert forall i :: 0 <= i < |tail| ==> tail[i] == p[i + 1];
      NormalizeTwice(tail, c);
      NormalizeTwiceCons(p, tail, c);
    }
  }

  lemma NormalizeTwiceCrLf(p: string, tail: string, c: string)
    requires p == "\r\n" + tail && Normalize(Normalize(tail) + c) == Normalize(tail + c)
    ensures Normalize(Normalize(p) + c) == Normalize(p + c)
  {
    var rest := Normalize(tail);
    NormalizeCrLf(tail);
    Assoc("\n", rest, c);
    NormalizeCons('\n', rest + c);
    Assoc("\r\n", tail, c);
    NormalizeCrLf(tail + c);
  }

  lemma NormalizeTwiceCons(p: string, tail: string, c: string)
    requires p != "" && tail == p[1..] && NoDoubleCr(p) && (p[0] == '\r' && tail != "" ==> tail[0] != '\n')
    requires Normalize(Normalize(tail) + c) == Normalize(tail + c)
    ensures Normalize(Normalize(p) + c) == Normalize(p + c)
  {
    var first, rest := p[0], Normalize(tail);
    assert p == [first] + tail;
    NormalizeCons(first, tail);
    Assoc([first], rest, c);
    Assoc([first], tail, c);
    if tail != "" {
      NormalizeFirst(tail);
      NormalizeBoth(first, rest + c, tail + c);
    }
  }

  lemma NormalizeBoth(first: char, a: string, b: string)
    requires Normalize(a) == Normalize(b) && a != "" && b != ""
    requires first == '\r' ==> a[0] != '\n' && b[0] != '\n'
    ensures Normalize([first] + a) == Normalize([first] + b)
  {
    NormalizeCons(first, a);
    NormalizeCons(first, b);
  }

  // ----- splitting -----

  lemma {:induction false} FindInFront(a: string, b: string)
    requires FindBlank(a).Some?
    ensures FindBlank(a + b) == FindBlank(a)
    decreases |a|
  {
    if !(a[0] == '\n' && a[1] == '\n') {
      assert (a + b)[1..] == a[1..] + b;
      FindInFront(a[1..], b);
    }
  }

  function Joined(blocks: seq<string>): string {
    if blocks == [] then "" else blocks[0] + Joined(blocks[1..])
  }

  lemma JoinedUnfold(s: string, i: nat)
    requires FindBlank(s) == Some(i)
    ensures Joined(Split(s).blocks) == s[..i + 2] + Joined(Split(s[i + 2..]).blocks)
  {
    SplitUnfold(s, i);
    assert Split(s).blocks[1..] == Split(s[i + 2..]).blocks;
  }

  predicate EndsBlank(s: string) {
    |s| >= 2 && s[|s| - 1] == '\n' && s[|s| - 2] == '\n'
  }

  /** The blocks and what is left are the whole text, and the blocks end with a blank line. */
  lemma {:induction false} SplitCovers(s: string)
    ensures s == Joined(Split(s).blocks) + Split(s).rest
    ensures Joined(Split(s).blocks) == "" || EndsBlank(Joined(Split(s).blocks))
    decreases |s|
  {
    if FindBlank(s).Some? {
      var i := FindBlank(s).value;
      SplitCovers(s[i + 2..]);
      JoinedUnfold(s, i);
      SplitUnfold(s, i);
      Assemble(s, i, Joined(Split(s[i + 2..]).blocks), Split(s).rest);
    }
  }

  lemma Assemble(s: string, i: nat, more: string, rest: string)
    requires i + 2 <= |s| && s[i] == '\n' && s[i + 1] == '\n' && s[i + 2..] == more + rest && (more == "" || EndsBlank(more))
    ensures s == s[..i + 2] + more + rest && EndsBlank(s[..i + 2] + more)
  {
    assert s == s[..i + 2] + s[i + 2..];
  }

  // ----- chunking does not matter -----

  /** Feeding a chunk to the buffer a prefix left gives what the longer prefix gives. */
  lemma FeedExtends(p: string, c: string)
    requires NoDoubleCr(p)
    ensures var before := Split(Normalize(p));
            Split(Normalize(p + c)) == Framed(before.blocks + Feed(before.rest, c).blocks, Feed(before.rest, c).rest)
  {
    var t := Normalize(p);
    NormalizeClears(p);
    NormalizeTwice(p, c);
    NormalizeAfterBlocks(t, c);
    SplitAfterBlocks(t, Normalize(Split(t).rest + c));
  }

  /** Normalising again leaves the blocks already complete as they are. */
  lemma NormalizeAfterBlocks(t: string, c: string)
    requires NoCrLf(t)
    ensures Normalize(t + c) == Joined(Split(t).blocks) + Normalize(Split(t).rest + c)
  {
    var j, rest := Joined(Split(t).blocks), Split(t).rest;
    SplitCovers(t);
    Assoc(j, rest, c);
    NormalizeConcat(j, rest + c);
    JoinedIsNormal(t, j, rest);
  }

  lemma JoinedIsNormal(t: string, j: string, rest: string)
    requires NoCrLf(t) && t == j + rest
    ensures Normalize(j) == j
  {
    assert forall i :: 0 <= i < |j| ==> t[i] == j[i];
    NormalizedStays(j);
  }

  /** Complete blocks in front come off first, whatever follows them. */
  lemma {:induction false} SplitAfterBlocks(t: string, u: string)
    ensures Split(Joined(Split(t).blocks) + u) == Framed(Split(t).blocks + Split(u).blocks, Split(u).rest)
    decreases |t|
  {
    if FindBlank(t).None? {
      Unit(u);
      Unit(Split(u).blocks);
    } else {
      var i := FindBlank(t).value;
      SplitAfterBlocks(t[i + 2..], u);
      BlocksOff(t, i, u);
    }
  }

  lemma BlocksOff(t: string, i: nat, u: string)
    requires FindBlank(t) == Some(i)
    requires var r := t[i + 2..];
             Split(Joined(Split(r).blocks) + u) == Framed(Split(r).blocks + Split(u).blocks, Split(u).rest)
    ensures Split(Joined(Split(t).blocks) + u) == Framed(Split(t).blocks + Split(u).blocks, Split(u).rest)
  {
    var more := Joined(Split(t[i + 2..]).blocks);
    JoinedUnfold(t, i);
    SplitUnfold(t, i);
    OneBlockOff(t, i, more + u);
    Assoc(t[..i + 2], more, u);
    Assoc([t[..i + 2]], Split(t[i + 2..]).blocks, Split(u).blocks);
  }

  lemma OneBlockOff(t: string, i: nat, v: string)
    requires FindBlank(t) == Some(i)
    ensures Split(t[..i + 2] + v) == Framed([t[..i + 2]] + Split(v).blocks, Split(v).rest)
  {
    var b := t[..i + 2];
    FindTrimmed(t, i);
    FindInFront(b, v);
    SplitUnfold(b + v, i);
    assert (b + v)[i + 2..] == v && (b + v)[..i + 2] == b;
  }

  lemma {:induction false} FindTrimmed(t: string, i: nat)
    requires FindBlank(t) == Some(i)
    ensures FindBlank(t[..i + 2]) == Some(i)
    decreases |t|
  {
    if i > 0 {
      FindTrimmed(t[1..], i - 1);
      assert t[1..][..i + 1] == t[..i + 2][1..];
    }
  }

  lemma {:induction false} PrefixNoDoubleCr(chunks: seq<string>)
    requires chunks != [] && NoDoubleCr(Concat(chunks))
    ensures NoDoubleCr(Concat(chunks[..|chunks| - 1]))
  {
    var p, s := Concat(chunks[..|chunks| - 1]), Concat(chunks);
    assert forall i :: 0 <= i < |p| ==> s[i] == p[i];
  }

  /** However a stream without CR CRLF is cut, the blocks and the buffer are those of the whole. */
  lemma {:induction false} ChunkingDoesNotMatter(chunks: seq<string>)
    requires NoDoubleCr(Concat(chunks))
    ensures FeedAll(chunks) == Split(Normalize(Concat(chunks)))
  {
    if chunks != [] {
      var n := |chunks| - 1;
      PrefixNoDoubleCr(chunks);
      ChunkingDoesNotMatter(chunks[..n]);
      FeedExtends(Concat(chunks[..n]), chunks[n]);
    }
  }
}
