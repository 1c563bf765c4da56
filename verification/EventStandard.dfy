/**
 The framing against the standard: what the parser of WHATWG HTML section 9.2.5
 and the interpretation of section 9.2.6 dispatch from the raw stream. An event
 is the list of its data lines. On streams that end their lines with LF or CRLF
 and start with no byte order mark, the code delivers what the standard
 dispatches exactly when each data line is one both read alike.
 */
module EventStandard {
  import opened Options
  import opened EventFraming
  import opened EventDispatch

  // ----- the standard's reader -----

  const BYTE_ORDER_MARK := '\U{FEFF}'

  function ColonAt(line: string): (at: nat)
    ensures at <= |line| && (at < |line| ==> line[at] == ':') && forall k :: 0 <= k < at ==> line[k] != ':'
  {
    if line == "" || line[0] == ':' then 0 else 1 + ColonAt(line[1..])
  }

  function DropSpace(value: string): string {
    if value != "" && value[0] == ' ' then value[1..] else value
  }

  /** Process a line: the field is what stands before the first colon, or the whole line. */
  function Field(line: string): seq<string> {
    var i := ColonAt(line);
    if line[..i] != "data" then []
    else if i == |line| then [""]
    else [DropSpace(line[i + 1..])]
  }

  /** `cr` is set right after a CR, which has ended a line and takes a following LF with it. */
  datatype Reader = Reader(events: seq<seq<string>>, data: seq<string>, line: string, cr: bool)

  function EndLine(r: Reader, cr: bool): Reader {
    if r.line == "" then Reader(r.events + Emit(r.data), [], "", cr)
    else Reader(r.events, r.data + Field(r.line), "", cr)
  }

  function OnRaw(r: Reader, c: char): Reader {
    if c == '\r' then EndLine(r, true)
    else if c == '\n' then (if r.cr then r.(cr := false) else EndLine(r, false))
    else r.(line := r.line + [c], cr := false)
  }

  function ReadRaw(r: Reader, s: string): Reader
    decreases s
  {
    if s == "" then r else ReadRaw(OnRaw(r, s[0]), s[1..])
  }

  function StandardEvents(s: string): seq<seq<string>> {
    ReadRaw(Reader([], [], "", false), if s != "" && s[0] == BYTE_ORDER_MARK then s[1..] else s).events
  }

  // ----- both readers, from the lines of the text -----

  /** The lines of a text with LF ends, in groups closed by a blank line. */
  datatype Lines = Lines(groups: seq<seq<string>>, open: seq<string>, line: string)

  function OnText(g: Lines, c: char): Lines {
    if c != '\n' then g.(line := g.line + [c])
    else if g.line == "" then Lines(g.groups + [g.open], [], "")
    else Lines(g.groups, g.open + [g.line], "")
  }

  function ReadText(g: Lines, s: string): Lines
    decreases s
  {
    if s == "" then g else ReadText(OnText(g, s[0]), s[1..])
  }

  /** What a list of lines gives when each gives `field` of it. */
  function Datas(field: string -> seq<string>, lines: seq<string>): seq<string> {
    if lines == [] then [] else Datas(field, lines[..|lines| - 1]) + field(lines[|lines| - 1])
  }

  function EventsOf(field: string -> seq<string>, groups: seq<seq<string>>): seq<seq<string>> {
    if groups == [] then [] else EventsOf(field, groups[..|groups| - 1]) + Emit(Datas(field, groups[|groups| - 1]))
  }

  lemma DatasMore(field: string -> seq<string>, lines: seq<string>, l: string)
    ensures Datas(field, lines + [l]) == Datas(field, lines) + field(l)
  {
    assert (lines + [l])[..|lines|] == lines;
  }

  lemma EventsMore(field: string -> seq<string>, groups: seq<seq<string>>, g: seq<string>)
    ensures EventsOf(field, groups + [g]) == EventsOf(field, groups) + Emit(Datas(field, g))
  {
    assert (groups + [g])[..|groups|] == groups;
  }

  function AsDispatcher(g: Lines): Dispatcher {
    Dispatcher(EventsOf(DataOf, g.groups), Datas(DataOf, g.open), g.line)
  }

  lemma {:induction false} DispatchByLines(g: Lines, s: string)
    ensures Dispatch(AsDispatcher(g), s) == AsDispatcher(ReadText(g, s))
    decreases s
  {
    if s != "" {
      DatasMore(DataOf, g.open, g.line);
      EventsMore(DataOf, g.groups, g.open);
      DispatchByLines(OnText(g, s[0]), s[1..]);
    }
  }

  function AsReader(g: Lines): Reader {
    Reader(EventsOf(Field, g.groups), Datas(Field, g.open), g.line, false)
  }

  /** Every CR is the first half of a CRLF. */
  predicate OnlyCrLf(s: string) {
    forall i {:trigger s[i]} :: 0 <= i < |s| && s[i] == '\r' ==> i + 1 < |s| && s[i + 1] == '\n'
  }

  lemma OnlyCrLfRest(s: string, k: nat)
    requires OnlyCrLf(s) && k <= |s|
    ensures OnlyCrLf(s[k..])
  {
    forall i | 0 <= i < |s[k..]| && s[k..][i] == '\r'
      ensures i + 1 < |s[k..]| && s[k..][i + 1] == '\n'
    {
      assert s[k + i] == '\r';
    }
  }

  lemma ReadOne(g: Lines, c: char)
    requires c != '\r'
    ensures OnRaw(AsReader(g), c) == AsReader(OnText(g, c))
  {
    DatasMore(Field, g.open, g.line);
    EventsMore(Field, g.groups, g.open);
  }

  lemma ReadCrLf(g: Lines)
    ensures OnRaw(OnRaw(AsReader(g), '\r'), '\n') == AsReader(OnText(g, '\n'))
  {
    DatasMore(Field, g.open, g.line);
    EventsMore(Field, g.groups, g.open);
  }

  lemma {:induction false} RawByLines(g: Lines, s: string)
    requires OnlyCrLf(s)
    ensures ReadRaw(AsReader(g), s) == AsReader(ReadText(g, Normalize(s)))
    decreases |s|
  {
    if s == "" {
    } else if s[0] == '\r' {
      assert s[1] == '\n';
      OnlyCrLfRest(s, 2);
      ReadCrLf(g);
      RawByLines(OnText(g, '\n'), s[2..]);
      assert s[1..][0] == '\n' && s[1..][1..] == s[2..];
      ReadTextCons(g, '\n', Normalize(s[2..]));
    } else {
      OnlyCrLfRest(s, 1);
      ReadOne(g, s[0]);
      RawByLines(OnText(g, s[0]), s[1..]);
      ReadTextCons(g, s[0], Normalize(s[1..]));
    }
  }

  lemma ReadTextCons(g: Lines, c: char, t: string)
    ensures ReadText(g, [c] + t) == ReadText(OnText(g, c), t)
  {
    assert ([c] + t)[1..] == t;
  }

  // ----- lines both read alike -----

  /** No bare `data`, and at most one white-space character, a space, after the colon of a data line. */
  predicate Plain(line: string) {
    && line != "data"
    && ("data:" <= line && |line| > 5 && IsSpace(line[5]) ==> line[5] == ' ' && (|line| > 6 ==> !IsSpace(line[6])))
  }

  lemma {:induction false} TrimShortens(s: string)
    ensures |TrimStart(s)| <= |s|
  {
    if s != "" && IsSpace(s[0]) { TrimShortens(s[1..]); }
  }

  lemma FieldOfData(line: string)
    ensures "data:" <= line ==> Field(line) == [DropSpace(line[5..])]
    ensures !("data:" <= line) ==> Field(line) == if line == "data" then [""] else []
  {
    var i := ColonAt(line);
    if "data:" <= line {
      assert forall k :: 0 <= k < 4 ==> line[k] == "data:"[k];
      assert line[4] == "data:"[4];
      assert i == 4 && line[..4] == "data";
    } else if line[..i] == "data" {
      assert i == 4 && forall k :: 0 <= k < 4 ==> line[k] == "data"[k];
    }
  }

  lemma ValueAlike(v: string)
    ensures TrimStart(v) == DropSpace(v) <==> (v != "" && IsSpace(v[0]) ==> v[0] == ' ' && (|v| > 1 ==> !IsSpace(v[1])))
  {
    if v != "" && IsSpace(v[0]) {
      TrimShortens(v[1..]);
      if |v| > 1 && IsSpace(v[1]) { TrimShortens(v[1..][1..]); }
    }
  }

  /** A line gives the same data under the code and the standard exactly when it is plain; it never gives more under the code. */
  lemma PlainIsExact(line: string)
    ensures DataOf(line) == Field(line) <==> Plain(line)
    ensures |DataOf(line)| <= |Field(line)|
  {
    FieldOfData(line);
    if "data:" <= line {
      var v := line[5..];
      ValueAlike(v);
      assert |v| > 0 ==> v[0] == line[5];
      assert |v| > 1 ==> v[1] == line[6];
    }
  }

  lemma SameParts<T>(a: seq<T>, b: seq<T>, c: seq<T>, d: seq<T>)
    requires |a| <= |c| && |b| <= |d|
    ensures a + b == c + d <==> a == c && b == d
  {
    if a + b == c + d {
      assert |a + b| == |c + d|;
      assert (a + b)[..|a|] == a && (c + d)[..|c|] == c;
      assert (a + b)[|a|..] == b && (c + d)[|c|..] == d;
    }
  }

  ghost predicate AllPlain(lines: seq<string>) {
    forall i :: 0 <= i < |lines| ==> Plain(lines[i])
  }

  lemma {:induction false} DatasAlike(lines: seq<string>)
    ensures |Datas(DataOf, lines)| <= |Datas(Field, lines)|
    ensures Datas(DataOf, lines) == Datas(Field, lines) <==> AllPlain(lines)
  {
    if lines != [] {
      var n := |lines| - 1;
      DatasAlike(lines[..n]);
      PlainIsExact(lines[n]);
      SameParts(Datas(DataOf, lines[..n]), DataOf(lines[n]), Datas(Field, lines[..n]), Field(lines[n]));
      AllPlainMore(lines);
    }
  }

  lemma AllPlainMore(lines: seq<string>)
    requires lines != []
    ensures var n := |lines| - 1; AllPlain(lines) <==> AllPlain(lines[..n]) && Plain(lines[n])
  {
  }

  ghost predicate GroupsPlain(groups: seq<seq<string>>) {
    forall i :: 0 <= i < |groups| ==> AllPlain(groups[i])
  }

  lemma EmitAlike(a: seq<string>, b: seq<string>)
    requires |a| <= |b|
    ensures |Emit(a)| <= |Emit(b)| && (Emit(a) == Emit(b) <==> a == b)
  {
    if a != [] { assert Emit(a)[0] == a && Emit(b)[0] == b; }
  }

  lemma {:induction false} EventsAlike(groups: seq<seq<string>>)
    ensures |EventsOf(DataOf, groups)| <= |EventsOf(Field, groups)|
    ensures EventsOf(DataOf, groups) == EventsOf(Field, groups) <==> GroupsPlain(groups)
  {
    if groups != [] {
      var n := |groups| - 1;
      var a, b := Datas(DataOf, groups[n]), Datas(Field, groups[n]);
      EventsAlike(groups[..n]);
      DatasAlike(groups[n]);
      EmitAlike(a, b);
      SameParts(EventsOf(DataOf, groups[..n]), Emit(a), EventsOf(Field, groups[..n]), Emit(b));
      GroupsPlainMore(groups);
    }
  }

  lemma GroupsPlainMore(groups: seq<seq<string>>)
    requires groups != []
    ensures var n := |groups| - 1; GroupsPlain(groups) <==> GroupsPlain(groups[..n]) && AllPlain(groups[n])
  {
  }

  // ----- the stream -----

  predicate StartsWithMark(s: string) {
    s != "" && s[0] == BYTE_ORDER_MARK
  }

  /** The lines of the stream's finished blocks. */
  function FinishedLines(s: string): seq<seq<string>> {
    ReadText(Lines([], [], ""), Normalize(s)).groups
  }

  lemma OnlyCrLfIsSingle(s: string)
    requires OnlyCrLf(s)
    ensures NoDoubleCr(s)
  {
    forall i | 0 <= i && i + 2 < |s|
      ensures !(s[i] == '\r' && s[i + 1] == '\r' && s[i + 2] == '\n')
    {
      if s[i] == '\r' { assert s[i + 1] == '\n'; }
    }
  }

  /**
   For a stream whose CRs are all followed by LF and that starts with no byte
   order mark, cut in any way: the code delivers what the standard dispatches
   exactly when every line of its finished blocks is plain.
   */
  lemma FramingIsStandard(chunks: seq<string>)
    requires OnlyCrLf(Concat(chunks)) && !StartsWithMark(Concat(chunks))
    ensures Events(FeedAll(chunks).blocks) == StandardEvents(Concat(chunks)) <==> GroupsPlain(FinishedLines(Concat(chunks)))
  {
    var s, start := Concat(chunks), Lines([], [], "");
    OnlyCrLfIsSingle(s);
    FramingDispatchesTheEvents(chunks);
    DispatchByLines(start, Normalize(s));
    RawByLines(start, s);
    EventsAlike(FinishedLines(s));
  }

  // ----- the two conditions on the stream are needed -----

  lemma {:induction false} ReadRun(r: Reader, l: string, t: string)
    requires '\r' !in l && '\n' !in l && !r.cr
    ensures ReadRaw(r, l + t) == ReadRaw(r.(line := r.line + l), t)
    decreases l
  {
    if l == "" {
      Unit(t);
      Unit(r.line);
    } else {
      assert (l + t)[0] == l[0] && (l + t)[1..] == l[1..] + t;
      ReadRun(r.(line := r.line + [l[0]]), l[1..], t);
      Assoc(r.line, [l[0]], l[1..]);
      assert [l[0]] + l[1..] == l;
    }
  }

  /** A line and a blank line after it, both ended by `c`. */
  lemma ReadBlank(c: char, l: string)
    requires c == '\r' || c == '\n'
    requires '\r' !in l && '\n' !in l && l != ""
    ensures ReadRaw(Reader([], [], "", false), l + [c, c]).events == Emit(Field(l))
  {
    var r := Reader([], [], l, false);
    ReadRun(Reader([], [], "", false), l, [c, c]);
    Unit(l);
    assert [c, c][1..] == [c] && [c][1..] == "";
    var ended := OnRaw(r, c);
    Unit(Field(l));
    assert ended.line == "" && ended.data == Field(l);
    assert ReadRaw(OnRaw(ended, c), "") == OnRaw(ended, c);
    Unit(Emit(Field(l)));
  }

  /** A field that both would read: a data line, nothing in it that ends a line, no mark before it. */
  predicate DataField(l: string) {
    l != "" && '\r' !in l && '\n' !in l && Field(l) != [] && !StartsWithMark(l)
  }

  /** A data line and a blank line ended by lone CRs: the standard dispatches the event, the code none. */
  lemma LoneCrMatters(l: string)
    requires DataField(l)
    ensures var s := l + "\r\r"; StandardEvents(s) == [Field(l)] && Events(FeedAll([s]).blocks) == []
  {
    var s := l + "\r\r";
    assert "\r\r" == ['\r', '\r'] && s[0] == l[0];
    ReadBlank('\r', l);
    SingleChunk(s);
    NormalizedStays(s);
    NoLfNoBlank(s);
  }

  lemma SingleChunk(s: string)
    ensures FeedAll([s]) == Split(Normalize(s))
  {
    Unit(s);
    assert [s][..0] == [] && FeedAll([]) == Framed([], "");
    Unit(Split(Normalize(s)).blocks);
  }

  lemma {:induction false} NoLfNoBlank(s: string)
    requires '\n' !in s
    ensures FindBlank(s).None?
    decreases |s|
  {
    if |s| >= 2 { NoLfNoBlank(s[1..]); }
  }

  /** A byte order mark before a data line hides it from the code and not from the standard. */
  lemma MarkMatters(l: string)
    requires DataField(l)
    ensures var s := [BYTE_ORDER_MARK] + l + "\n\n"; StandardEvents(s) == [Field(l)] && Events(FeedAll([s]).blocks) == []
  {
    var marked := [BYTE_ORDER_MARK] + l;
    var s := marked + "\n\n";
    assert "\n\n" == ['\n', '\n'] && s[0] == BYTE_ORDER_MARK && s[1..] == l + "\n\n";
    ReadBlank('\n', l);
    SingleChunk(s);
    NormalizedStays(s);
    assert marked[0] == BYTE_ORDER_MARK && DataOf(marked) == [];
    OneLineBlock(s, marked);
  }

  /** A line that carries no data and a blank line deliver nothing. */
  lemma OneLineBlock(s: string, l: string)
    requires s == l + "\n\n" && l != "" && '\n' !in l && l[|l| - 1] != '\r' && DataOf(l) == []
    ensures Events(Split(s).blocks) == []
  {
    OneBlock(s, l);
    OneLineData(s, l);
    EventsOfOne(s);
  }

  lemma OneBlock(s: string, l: string)
    requires s == l + "\n\n" && '\n' !in l
    ensures Split(s).blocks == [s]
  {
    BlankAfter(l);
    SplitUnfold(s, |l|);
    assert s[..|l| + 2] == s && s[|l| + 2..] == "";
    assert Split("") == Framed([], "");
  }

  lemma OneLineData(s: string, l: string)
    requires s == l + "\n\n" && l != "" && '\n' !in l && l[|l| - 1] != '\r'
    ensures DataLines(s) == DataOf(l)
  {
    NewlineAfter(l, "\n\n");
    assert s[..|l|] == l && s[|l| + 1..] == "\n";
    DataLinesCons(s, l);
    DispatchClosing([], []);
    Unit(DataOf(l));
  }

  lemma EventsOfOne(s: string)
    requires DataLines(s) == []
    ensures Events([s]) == []
  {
    assert [s][1..] == [];
  }

  lemma {:induction false} BlankAfter(l: string)
    requires '\n' !in l
    ensures FindBlank(l + "\n\n") == Some(|l|)
    decreases |l|
  {
    if l != "" {
      assert (l + "\n\n")[1..] == l[1..] + "\n\n";
      BlankAfter(l[1..]);
    }
  }

  lemma {:induction false} NewlineAfter(l: string, t: string)
    requires '\n' !in l && t != "" && t[0] == '\n'
    ensures FindNewline(l + t) == |l|
    decreases |l|
  {
    if l == "" {
      Unit(t);
    } else {
      assert (l + t)[1..] == l[1..] + t;
      NewlineAfter(l[1..], t);
    }
  }

  /** With the line `data:`, both streams are read differently. */
  lemma ConditionsAreNeeded()
    ensures var s := "data:" + "\r\r"; Events(FeedAll([s]).blocks) != StandardEvents(s)
    ensures var s := [BYTE_ORDER_MARK] + "data:" + "\n\n"; Events(FeedAll([s]).blocks) != StandardEvents(s)
  {
    FieldOfData("data:");
    LoneCrMatters("data:");
    MarkMatters("data:");
  }
}
