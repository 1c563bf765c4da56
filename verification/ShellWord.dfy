/**
 `shell_word` and the command lines built from it, and two shell readers: the
 POSIX family (POSIX.1-2017 Shell Command Language, sections 2.2.1 to 2.2.3,
 with what bash and zsh add) and fish. The readers model quoting and word
 splitting: they refuse a text when they meet an unquoted character their shell
 would interpret. What a whole word means in its place (an assignment or a
 reserved word first on the line, an option) is not theirs to say.
 */
module ShellWord {
  import opened Options

  // ----- the printer -----

  predicate AsciiAlphanumeric(c: char) {
    'a' <= c <= 'z' || 'A' <= c <= 'Z' || '0' <= c <= '9'
  }

  predicate PlainChar(c: char) {
    AsciiAlphanumeric(c) || c in {'.', '_', '-', '/', ':', '@', '%', '+', '=', ','}
  }

  predicate Plain(s: string) {
    s != "" && s[0] !in {'-', '=', '%'} && AllPlain(s)
  }

  predicate AllPlain(s: string) {
    forall i :: 0 <= i < |s| ==> PlainChar(s[i])
  }

  /** By code: the letters and digits of ASCII, and with them `%`, `+` to `/`, `:`, `=`, `@` and `_`. */
  predicate PlainCode(n: int) {
    0x61 <= n <= 0x7A || 0x41 <= n <= 0x5A || 0x30 <= n <= 0x39 || n == 0x25 || 0x2B <= n <= 0x2F || n == 0x3A || n == 0x3D || n == 0x40 || n == 0x5F
  }

  lemma PlainCharsByCode(c: char)
    ensures PlainChar(c) <==> PlainCode(c as int)
    ensures AsciiAlphanumeric(c) <==> 0x61 <= c as int <= 0x7A || 0x41 <= c as int <= 0x5A || 0x30 <= c as int <= 0x39
  {
  }

  /** A word is printed as it stands exactly when it has no other character and does not start with `-`, `=` or `%`. */
  lemma PrintedAsItStands(s: string)
    ensures Word(s) == s <==>
            s != "" && s[0] !in {'-', '=', '%'} && forall i :: 0 <= i < |s| ==> PlainCode(s[i] as int)
  {
    forall i | 0 <= i < |s|
      ensures PlainChar(s[i]) <==> PlainCode(s[i] as int)
    {
      PlainCharsByCode(s[i]);
    }
    if s != "" { QuotedIsLonger(s, ""); }
  }

  lemma {:induction false} QuotedIsLonger(s: string, run: string)
    requires s != "" || run != ""
    ensures |QuoteFrom(s, run)| > |s| + |run|
    decreases |s|
  {
    if s != "" {
      if s[0] in {'\'', '\\'} {
        if s[1..] != "" { QuotedIsLonger(s[1..], ""); }
      } else {
        QuotedIsLonger(s[1..], run + [s[0]]);
      }
    }
  }

  function Flush(run: string): string {
    if run == "" then "" else "'" + run + "'"
  }

  /** `'` or `\` as it is written between quotations. */
  function Doubled(c: char): string {
    if c == '\'' then "\"'\"" else "\"\\\\\""
  }

  /** The quoted form of what is left, with `run` waiting to be single-quoted. */
  function QuoteFrom(s: string, run: string): string {
    if s == "" then Flush(run)
    else if s[0] in {'\'', '\\'} then Flush(run) + Doubled(s[0]) + QuoteFrom(s[1..], "")
    else QuoteFrom(s[1..], run + [s[0]])
  }

  function Word(s: string): string {
    if Plain(s) then s else if s == "" then "''" else QuoteFrom(s, "")
  }

  method ShellWord(s: string) returns (out: string)
    ensures out == Word(s)
  {
    if Plain(s) { return s; }
    if s == "" { return "''"; }
    out := "";
    var run := "";
    for i := 0 to |s|
      invariant out + QuoteFrom(s[i..], run) == QuoteFrom(s, "")
    {
      QuoteUnfold(out, s, i, run);
      if s[i] == '\'' {
        out := out + Flush(run) + "\"'\"";
        run := "";
      } else if s[i] == '\\' {
        out := out + Flush(run) + "\"\\\\\"";
        run := "";
      } else {
        run := run + [s[i]];
      }
    }
    out := out + Flush(run);
  }

  lemma QuoteUnfold(out: string, s: string, i: nat, run: string)
    requires i < |s|
    ensures out + QuoteFrom(s[i..], run) ==
            if s[i] in {'\'', '\\'} then out + Flush(run) + Doubled(s[i]) + QuoteFrom(s[i + 1..], "")
            else out + QuoteFrom(s[i + 1..], run + [s[i]])
  {
    assert s[i..][1..] == s[i + 1..];
    var a, b, c := Flush(run), Doubled(s[i]), QuoteFrom(s[i + 1..], "");
    assert out + (a + b + c) == out + a + b + c;
  }

  // ----- the readers -----

  datatype Shell = Posix | Fish

  datatype Mode = Blank | Bare | Escape | Single | SingleEscape | Double | DoubleEscape

  datatype Reader = Reading(words: seq<string>, word: string, mode: Mode) | Refused

  /** Read in a word, outside quotes, for something other than itself. */
  predicate Interpreted(sh: Shell, c: char) {
    c in {'|', '&', ';', '<', '>', '(', ')', '$', '*', '?', '[', ']', '{', '}', '~', '\n', '\r'} || (sh == Posix && c in {'`', '!', '^'})
  }

  /** Read for something other than itself at the start of a word only. */
  predicate InterpretedFirst(c: char) {
    c in {'#', '=', '%'}
  }

  function Take(r: Reader, text: string, mode: Mode): Reader
    requires r.Reading?
  {
    Reading(r.words, r.word + text, mode)
  }

  function Step(sh: Shell, r: Reader, c: char): Reader {
    if r.Refused? || c == '\0' then Refused
    else match r.mode
      case Blank =>
        if c in {' ', '\t'} then r
        else if c == '\'' then Take(r, "", Single)
        else if c == '"' then Take(r, "", Double)
        else if c == '\\' then Take(r, "", Escape)
        else if Interpreted(sh, c) || InterpretedFirst(c) then Refused
        else Take(r, [c], Bare)
      case Bare =>
        if c in {' ', '\t'} then Reading(r.words + [r.word], "", Blank)
        else if c == '\'' then Take(r, "", Single)
        else if c == '"' then Take(r, "", Double)
        else if c == '\\' then Take(r, "", Escape)
        else if Interpreted(sh, c) then Refused
        else Take(r, [c], Bare)
      case Escape =>
        if c == '\n' then Take(r, "", Bare)
        else if sh == Fish && AsciiAlphanumeric(c) then Refused
        else Take(r, [c], Bare)
      case Single =>
        if c == '\'' then Take(r, "", Bare)
        else if sh == Fish && c == '\\' then Take(r, "", SingleEscape)
        else Take(r, [c], Single)
      case SingleEscape =>
        if c in {'\'', '\\'} then Take(r, [c], Single) else Take(r, ['\\', c], Single)
      case Double =>
        if c == '"' then Take(r, "", Bare)
        else if c == '\\' then Take(r, "", DoubleEscape)
        else if c == '$' || (sh == Posix && c in {'`', '!'}) then Refused
        else Take(r, [c], Double)
      case DoubleEscape =>
        if c == '\n' then Take(r, "", Double)
        else if c in {'"', '\\', '$'} || (sh == Posix && c == '`') then Take(r, [c], Double)
        else Take(r, ['\\', c], Double)
  }

  function Read(sh: Shell, r: Reader, text: string): Reader
    decreases text
  {
    if text == "" then r else Read(sh, Step(sh, r, text[0]), text[1..])
  }

  /** The words the shell reads a command line as, if it takes all of it literally. */
  function Words(sh: Shell, text: string): Option<seq<string>> {
    var r := Read(sh, Reading([], "", Blank), text);
    if r.Refused? then None
    else if r.mode == Blank then Some(r.words)
    else if r.mode == Bare then Some(r.words + [r.word])
    else None
  }

  // ----- what the readers make of short texts -----

  lemma ReadOne(sh: Shell, r: Reader, a: char)
    ensures Read(sh, r, [a]) == Step(sh, r, a)
  {
    assert [a][1..] == "" && Read(sh, Step(sh, r, a), "") == Step(sh, r, a);
  }

  lemma ReadMore(sh: Shell, r: Reader, a: char, rest: string)
    ensures Read(sh, r, [a] + rest) == Read(sh, Step(sh, r, a), rest)
  {
    assert ([a] + rest)[1..] == rest;
  }

  /** What a text of two, three or four characters is read as. */
  lemma ReadShort(sh: Shell, a: char, b: char, c: char, d: char)
    ensures var r := Step(sh, Step(sh, Reading([], "", Blank), a), b);
            && Read(sh, Reading([], "", Blank), [a, b]) == r
            && Read(sh, Reading([], "", Blank), [a, b, c]) == Step(sh, r, c)
            && Read(sh, Reading([], "", Blank), [a, b, c, d]) == Step(sh, Step(sh, r, c), d)
  {
    var start := Reading([], "", Blank);
    var r := Step(sh, Step(sh, start, a), b);
    assert [a, b] == [a] + [b] && [a, b, c] == [a] + ([b] + [c]) && [a, b, c, d] == [a] + ([b] + ([c] + [d]));
    ReadMore(sh, start, a, [b]);
    ReadMore(sh, start, a, [b] + [c]);
    ReadMore(sh, start, a, [b] + ([c] + [d]));
    ReadOne(sh, Step(sh, start, a), b);
    ReadMore(sh, Step(sh, start, a), b, [c]);
    ReadMore(sh, Step(sh, start, a), b, [c] + [d]);
    ReadOne(sh, r, c);
    ReadMore(sh, r, c, [d]);
    ReadOne(sh, Step(sh, r, c), d);
  }

  /** A text that ends in its first word. */
  lemma FirstWord(sh: Shell, text: string)
    ensures var r := Read(sh, Reading([], "", Blank), text);
            r.Reading? && r.mode == Bare && r.words == [] ==> Words(sh, text) == Some([r.word])
  {
    var r := Read(sh, Reading([], "", Blank), text);
    if r.Reading? { assert [] + [r.word] == [r.word]; }
  }

  /** Taking nothing adds nothing. */
  lemma TakeNothing(r: Reader, text: string, mode: Mode)
    requires r.Reading? && r.word == ""
    ensures Take(r, text, mode) == Reading(r.words, text, mode)
  {
    assert "" + text == text;
  }

  lemma TakeNoMore(r: Reader, mode: Mode)
    requires r.Reading?
    ensures Take(r, "", mode) == Reading(r.words, r.word, mode)
  {
    assert r.word + "" == r.word;
  }

  /** A character between double quotes. */
  lemma ReadInDouble(sh: Shell, c: char)
    ensures Words(sh, ['"', c, '"']) ==
            if c in {'\0', '$', '\\', '"'} || (sh == Posix && c in {'`', '!'}) then None else Some([[c]])
  {
    ReadShort(sh, '"', c, '"', ' ');
    FirstWord(sh, ['"', c, '"']);
    var open := Reading([], "", Double);
    TakeNothing(Reading([], "", Blank), "", Double);
    TakeNothing(open, [c], Double);
    TakeNoMore(Reading([], [c], Double), Bare);
  }

  /** A character after a backslash between double quotes: only a few lose the backslash. */
  lemma ReadEscapedInDouble(sh: Shell, c: char)
    ensures Words(sh, ['"', '\\', c, '"']) ==
            if c == '\0' then None
            else if c == '\n' then Some([""])
            else if c in {'"', '\\', '$'} || (sh == Posix && c == '`') then Some([[c]])
            else Some([['\\', c]])
  {
    ReadShort(sh, '"', '\\', c, '"');
    FirstWord(sh, ['"', '\\', c, '"']);
    TakeNothing(Reading([], "", Blank), "", Double);
    var open := Reading([], "", DoubleEscape);
    TakeNothing(Reading([], "", Double), "", DoubleEscape);
    TakeNothing(open, "", Double);
    TakeNothing(open, [c], Double);
    TakeNothing(open, ['\\', c], Double);
    TakeNoMore(Reading([], "", Double), Bare);
    TakeNoMore(Reading([], [c], Double), Bare);
    TakeNoMore(Reading([], ['\\', c], Double), Bare);
  }

  /** A character after a backslash between single quotes: literal in the POSIX family; fish has two escapes there. */
  lemma ReadEscapedInSingle(sh: Shell, c: char)
    ensures Words(sh, ['\'', '\\', c, '\'']) ==
            if c == '\0' then None
            else if c == '\'' then (if sh == Fish then Some([[c]]) else None)
            else if c == '\\' && sh == Fish then Some([[c]])
            else Some([['\\', c]])
  {
    ReadShort(sh, '\'', '\\', c, '\'');
    FirstWord(sh, ['\'', '\\', c, '\'']);
    TakeNothing(Reading([], "", Blank), "", Single);
    TakeNothing(Reading([], "", Single), "", SingleEscape);
    TakeNothing(Reading([], "", Single), ['\\'], Single);
    var open := Reading([], "", SingleEscape);
    TakeNothing(open, [c], Single);
    TakeNothing(open, ['\\', c], Single);
    assert ['\\'] + [c] == ['\\', c];
    TakeNoMore(Reading([], [c], Single), Bare);
    TakeNoMore(Reading([], ['\\', c], Single), Bare);
    TakeNoMore(Reading([], ['\\'], Single), Bare);
    TakeNoMore(Reading([], ['\\'], Bare), Single);
  }

  /** A character after a backslash outside quotes: itself, a line continued, or in fish perhaps a code. */
  lemma ReadEscaped(sh: Shell, c: char)
    ensures var n := c as int;
            Words(sh, ['\\', c]) ==
            if c == '\0' || (sh == Fish && (0x61 <= n <= 0x7A || 0x41 <= n <= 0x5A || 0x30 <= n <= 0x39)) then None
            else if c == '\n' then Some([""])
            else Some([[c]])
  {
    PlainCharsByCode(c);
    ReadShort(sh, '\\', c, ' ', ' ');
    FirstWord(sh, ['\\', c]);
    TakeNothing(Reading([], "", Blank), "", Escape);
    TakeNothing(Reading([], "", Escape), "", Bare);
    TakeNothing(Reading([], "", Escape), [c], Bare);
  }

  /** A character alone: white space, something the shell interprets, or itself. */
  lemma ReadBare(sh: Shell, c: char)
    ensures c in {' ', '\t'} ==> Words(sh, [c]) == Some([])
    ensures c in {'\0', '\'', '"', '\\', '|', '&', ';', '<', '>', '(', ')', '$', '*', '?', '[', ']', '{', '}', '~', '\n', '\r', '#', '=', '%'}
            ==> Words(sh, [c]) == None
    ensures c in {'`', '!', '^'} ==> Words(sh, [c]) == if sh == Posix then None else Some([[c]])
  {
    ReadOne(sh, Reading([], "", Blank), c);
    FirstWord(sh, [c]);
    TakeNothing(Reading([], "", Blank), [c], Bare);
  }

  // ----- reading in pieces -----

  lemma {:induction false} ReadConcat(sh: Shell, r: Reader, a: string, b: string)
    ensures Read(sh, r, a + b) == Read(sh, Read(sh, r, a), b)
    decreases a
  {
    if a == "" {
      assert a + b == b;
    } else {
      assert (a + b)[1..] == a[1..] + b;
      ReadConcat(sh, Step(sh, r, a[0]), a[1..], b);
    }
  }

  /** From mode `m`, the text stays in the current word, adds `out` to it and ends in mode `n`. */
  ghost predicate Adds(sh: Shell, m: Mode, text: string, n: Mode, out: string) {
    forall words, word {:trigger Read(sh, Reading(words, word, m), text)} ::
      Read(sh, Reading(words, word, m), text) == Reading(words, word + out, n)
  }

  lemma AddsThen(sh: Shell, m: Mode, a: string, k: Mode, out: string, b: string, n: Mode, more: string)
    requires Adds(sh, m, a, k, out) && Adds(sh, k, b, n, more)
    ensures Adds(sh, m, a + b, n, out + more)
  {
    forall words, word
      ensures Read(sh, Reading(words, word, m), a + b) == Reading(words, word + (out + more), n)
    {
      ReadConcat(sh, Reading(words, word, m), a, b);
      assert word + out + more == word + (out + more);
    }
  }

  lemma AddsNothing(sh: Shell, m: Mode)
    ensures Adds(sh, m, "", m, "")
  {
    forall words, word
      ensures Read(sh, Reading(words, word, m), "") == Reading(words, word + "", m)
    {
      assert word + "" == word;
    }
  }

  /** One character. */
  lemma AddsOne(sh: Shell, m: Mode, c: char, n: Mode, out: string)
    requires forall words, word :: Step(sh, Reading(words, word, m), c) == Reading(words, word + out, n)
    ensures Adds(sh, m, [c], n, out)
  {
    forall words, word
      ensures Read(sh, Reading(words, word, m), [c]) == Reading(words, word + out, n)
    {
      assert [c][1..] == "";
      assert Read(sh, Step(sh, Reading(words, word, m), c), "") == Step(sh, Reading(words, word, m), c);
    }
  }

  /** Nothing that ends a single quotation, or escapes in one, in either shell. */
  predicate SingleQuotable(run: string) {
    forall i :: 0 <= i < |run| ==> run[i] != '\'' && run[i] != '\\' && run[i] != '\0'
  }

  lemma {:induction false} AddsRun(sh: Shell, run: string)
    requires SingleQuotable(run)
    ensures Adds(sh, Single, run, Single, run)
  {
    if run == "" {
      AddsNothing(sh, Single);
    } else {
      AddsOne(sh, Single, run[0], Single, [run[0]]);
      AddsRun(sh, run[1..]);
      AddsThen(sh, Single, [run[0]], Single, [run[0]], run[1..], Single, run[1..]);
      assert [run[0]] + run[1..] == run;
    }
  }

  /** Between words, or in one, and outside quotes. */
  predicate Open(m: Mode) {
    m == Blank || m == Bare
  }

  /** A non-empty run in single quotes. */
  lemma AddsFlushed(sh: Shell, m: Mode, run: string)
    requires Open(m) && run != "" && SingleQuotable(run)
    ensures Adds(sh, m, Flush(run), Bare, run)
  {
    AddsOne(sh, m, '\'', Single, "");
    AddsRun(sh, run);
    AddsOne(sh, Single, '\'', Bare, "");
    Unit(run);
    AddsThen(sh, m, "'", Single, "", run, Single, run);
    AddsThen(sh, m, "'" + run, Single, run, "'", Bare, "");
  }

  lemma Unit(s: string)
    ensures "" + s == s && s + "" == s
  {
  }

  lemma HeadThenTail(run: string, s: string)
    requires s != ""
    ensures run + [s[0]] + s[1..] == run + s
  {
  }

  lemma AddsQuote(sh: Shell, m: Mode)
    requires Open(m)
    ensures Adds(sh, m, "\"", Double, "") && Adds(sh, Double, "\"", Bare, "")
  {
    AddsOne(sh, m, '"', Double, "");
    AddsOne(sh, Double, '"', Bare, "");
  }

  /** What double quotes surround is added, wherever it can be. */
  lemma AddsInDouble(sh: Shell, m: Mode, text: string, out: string)
    requires Open(m) && Adds(sh, Double, text, Double, out)
    ensures Adds(sh, m, "\"" + text + "\"", Bare, out)
  {
    AddsQuote(sh, m);
    Unit(out);
    AddsThen(sh, m, "\"", Double, "", text, Double, out);
    AddsThen(sh, m, "\"" + text, Double, out, "\"", Bare, "");
  }

  /** `'` and `\` as they are written: one character in double quotes. */
  lemma AddsDoubled(sh: Shell, m: Mode, c: char)
    requires Open(m) && c in {'\'', '\\'}
    ensures Adds(sh, m, Doubled(c), Bare, [c])
  {
    if c == '\'' {
      AddsOne(sh, Double, '\'', Double, "'");
      AddsInDouble(sh, m, "'", "'");
    } else {
      AddsOne(sh, Double, '\\', DoubleEscape, "");
      AddsOne(sh, DoubleEscape, '\\', Double, "\\");
      Unit("\\");
      AddsThen(sh, Double, "\\", DoubleEscape, "", "\\", Double, "\\");
      AddsInDouble(sh, m, "\\" + "\\", "\\");
    }
    DoubledParts();
  }

  lemma DoubledParts()
    ensures Doubled('\'') == "\"" + "'" + "\"" && Doubled('\\') == "\"" + ("\\" + "\\") + "\""
  {
  }

  lemma AddsMarked(sh: Shell, m: Mode, run: string, c: char)
    requires Open(m) && SingleQuotable(run) && c in {'\'', '\\'}
    ensures Adds(sh, m, Flush(run) + Doubled(c), Bare, run + [c])
  {
    if run == "" {
      AddsDoubled(sh, m, c);
      Unit(Doubled(c));
      Unit([c]);
    } else {
      AddsFlushed(sh, m, run);
      AddsDoubled(sh, Bare, c);
      AddsThen(sh, m, Flush(run), Bare, run, Doubled(c), Bare, [c]);
    }
  }

  /** The loop's invariant read by a shell: the waiting run and what is left come out as they are. */
  lemma {:induction false} AddsQuoted(sh: Shell, m: Mode, s: string, run: string)
    requires Open(m) && '\0' !in s && SingleQuotable(run) && (run != "" || s != "")
    ensures Adds(sh, m, QuoteFrom(s, run), Bare, run + s)
    decreases s, 1
  {
    if s == "" {
      AddsFlushed(sh, m, run);
      Unit(run);
    } else if s[0] in {'\'', '\\'} {
      AddsMarked(sh, m, run, s[0]);
      AddsRest(sh, s[1..]);
      AddsThen(sh, m, Flush(run) + Doubled(s[0]), Bare, run + [s[0]], QuoteFrom(s[1..], ""), Bare, s[1..]);
      HeadThenTail(run, s);
    } else {
      AddsQuoted(sh, m, s[1..], run + [s[0]]);
      HeadThenTail(run, s);
    }
  }

  lemma {:induction false} AddsRest(sh: Shell, s: string)
    requires '\0' !in s
    ensures Adds(sh, Bare, QuoteFrom(s, ""), Bare, s)
    decreases s, 2
  {
    if s == "" {
      AddsNothing(sh, Bare);
    } else {
      AddsQuoted(sh, Bare, s, "");
      Unit(s);
    }
  }

  /** Plain characters read as themselves inside a word, and at the start of one unless `=` or `%` leads. */
  lemma {:induction false} AddsPlain(sh: Shell, m: Mode, s: string)
    requires Open(m) && s != "" && AllPlain(s) && (m == Blank ==> s[0] !in {'=', '%'})
    ensures Adds(sh, m, s, Bare, s)
    decreases s
  {
    AddsOne(sh, m, s[0], Bare, [s[0]]);
    if s[1..] == "" {
      assert s == [s[0]];
    } else {
      AddsPlain(sh, Bare, s[1..]);
      AddsThen(sh, m, [s[0]], Bare, [s[0]], s[1..], Bare, s[1..]);
      assert [s[0]] + s[1..] == s;
    }
  }

  /** Wherever a word may continue or start, `shell_word(s)` is read as `s`, in both shells. */
  lemma AddsWord(sh: Shell, m: Mode, s: string)
    requires Open(m) && '\0' !in s
    ensures Adds(sh, m, Word(s), Bare, s)
  {
    if Plain(s) {
      AddsPlain(sh, m, s);
    } else if s == "" {
      AddsEmptyQuotes(sh, m);
    } else {
      AddsQuoted(sh, m, s, "");
      Unit(s);
    }
  }

  lemma AddsEmptyQuotes(sh: Shell, m: Mode)
    requires Open(m)
    ensures Adds(sh, m, "''", Bare, "")
  {
    AddsOne(sh, m, '\'', Single, "");
    AddsOne(sh, Single, '\'', Bare, "");
    AddsThen(sh, m, "'", Single, "", "'", Bare, "");
    Unit("");
    assert "'" + "'" == "''";
  }

  // ----- refusal: a NUL cannot be in a command line -----

  lemma {:induction false} NulIsRefused(sh: Shell, r: Reader, text: string)
    requires r.Refused? || '\0' in text
    ensures Read(sh, r, text) == Refused
    decreases text
  {
    if text != "" {
      NulIsRefused(sh, Step(sh, r, text[0]), text[1..]);
    }
  }

  lemma {:induction false} NulSurvives(s: string, run: string)
    requires '\0' in s || '\0' in run
    ensures '\0' in QuoteFrom(s, run)
    decreases s
  {
    if s == "" {
    } else if s[0] == '\'' || s[0] == '\\' {
      if '\0' in s[1..] { NulSurvives(s[1..], ""); }
    } else {
      NulSurvives(s[1..], run + [s[0]]);
    }
  }

  /** A shell reads the printed word back as exactly the value: for every value a command line can carry. */
  lemma WordRoundTrip(sh: Shell, s: string)
    ensures Words(sh, Word(s)) == Some([s]) <==> '\0' !in s
  {
    var start := Reading([], "", Blank);
    if '\0' in s {
      assert !Plain(s);
      NulSurvives(s, "");
      NulIsRefused(sh, start, Word(s));
    } else {
      AddsWord(sh, Blank, s);
      assert Read(sh, start, Word(s)) == Reading([], "" + s, Bare);
      Unit(s);
      assert start.words + [s] == [s];
    }
  }

  // ----- command lines -----

  /** One argument: text written as it stands, then possibly a value through `shell_word`. */
  datatype Arg = Text(text: string) | Value(prefix: string, value: string)

  function Printed(a: Arg): string {
    if a.Text? then a.text else a.prefix + Word(a.value)
  }

  function Meant(a: Arg): string {
    if a.Text? then a.text else a.prefix + a.value
  }

  /** The fixed part is plain, and does not start a word with `=` or `%`. */
  predicate SafeArg(a: Arg) {
    var fixed := if a.Text? then a.text else a.prefix;
    && AllPlain(fixed)
    && (fixed != "" ==> fixed[0] !in {'=', '%'})
    && (a.Text? ==> fixed != "")
    && (a.Value? ==> '\0' !in a.value)
  }

  function CommandLine(args: seq<Arg>): string {
    if args == [] then ""
    else if |args| == 1 then Printed(args[0])
    else Printed(args[0]) + " " + CommandLine(args[1..])
  }

  function Meanings(args: seq<Arg>): seq<string> {
    seq(|args|, i requires 0 <= i < |args| => Meant(args[i]))
  }

  lemma AddsArg(sh: Shell, a: Arg)
    requires SafeArg(a)
    ensures Adds(sh, Blank, Printed(a), Bare, Meant(a))
  {
    if a.Text? {
      AddsPlain(sh, Blank, a.text);
    } else if a.prefix == "" {
      AddsWord(sh, Blank, a.value);
      assert a.prefix + Word(a.value) == Word(a.value) && a.prefix + a.value == a.value;
    } else {
      AddsPlain(sh, Blank, a.prefix);
      AddsWord(sh, Bare, a.value);
      AddsThen(sh, Blank, a.prefix, Bare, a.prefix, Word(a.value), Bare, a.value);
    }
  }

  /** After a first argument and a space, the rest is read with that argument as one more word. */
  lemma ReadArgThenSpace(sh: Shell, words: seq<string>, a: Arg, rest: string)
    requires SafeArg(a)
    ensures Read(sh, Reading(words, "", Blank), Printed(a) + " " + rest) == Read(sh, Reading(words + [Meant(a)], "", Blank), rest)
  {
    var start := Reading(words, "", Blank);
    AddsArg(sh, a);
    assert Read(sh, start, Printed(a)) == Reading(words, "" + Meant(a), Bare);
    assert "" + Meant(a) == Meant(a);
    ReadConcat(sh, start, Printed(a), " ");
    ReadSpace(sh, words, Meant(a));
    ReadConcat(sh, start, Printed(a) + " ", rest);
  }

  lemma ReadSpace(sh: Shell, words: seq<string>, word: string)
    ensures Read(sh, Reading(words, word, Bare), " ") == Reading(words + [word], "", Blank)
  {
    assert " "[1..] == "";
    assert Read(sh, Step(sh, Reading(words, word, Bare), ' '), "") == Reading(words + [word], "", Blank);
  }

  lemma MeaningsShift(words: seq<string>, args: seq<Arg>)
    requires |args| > 1
    ensures words + [Meant(args[0])] + Meanings(args[1..][..|args| - 2]) == words + Meanings(args[..|args| - 1])
  {
  }

  lemma {:induction false} ReadCommand(sh: Shell, words: seq<string>, args: seq<Arg>)
    requires args != [] && forall i :: 0 <= i < |args| ==> SafeArg(args[i])
    ensures Read(sh, Reading(words, "", Blank), CommandLine(args)) ==
            Reading(words + Meanings(args[..|args| - 1]), Meant(args[|args| - 1]), Bare)
    decreases args
  {
    var n := |args| - 1;
    if n == 0 {
      AddsArg(sh, args[0]);
      assert Read(sh, Reading(words, "", Blank), Printed(args[0])) == Reading(words, "" + Meant(args[0]), Bare);
      assert "" + Meant(args[0]) == Meant(args[0]);
      assert words + Meanings(args[..0]) == words;
    } else {
      ReadArgThenSpace(sh, words, args[0], CommandLine(args[1..]));
      ReadCommand(sh, words + [Meant(args[0])], args[1..]);
      MeaningsShift(words, args);
    }
  }

  lemma MeaningsSplit(args: seq<Arg>)
    requires args != []
    ensures [] + Meanings(args[..|args| - 1]) + [Meant(args[|args| - 1])] == Meanings(args)
  {
  }

  /** A printed command line is read back as the list of words it was made from. */
  lemma CommandRoundTrip(sh: Shell, args: seq<Arg>)
    requires forall i :: 0 <= i < |args| ==> SafeArg(args[i])
    ensures Words(sh, CommandLine(args)) == Some(Meanings(args))
  {
    if args == [] {
      assert Meanings(args) == [];
    } else {
      ReadCommand(sh, [], args);
      MeaningsSplit(args);
    }
  }

  /** `ratify_command`: the binary, two fixed words and four `--flag=` values. */
  function RatifyArgs(bin: string, subject: string, right: string, resource: string, at: string): seq<Arg> {
    [Value("", bin), Text("git"), Text("ratify"), Value("--subject=", subject), Value("--right=", right),
     Value("--resource=", resource), Value("--break-glass-at=", at)]
  }

  lemma FlagsArePlain()
    ensures AllPlain("git") && AllPlain("ratify") && AllPlain("") && AllPlain("--subject=") && AllPlain("--right=")
    ensures AllPlain("--resource=") && AllPlain("--break-glass-at=")
  {
  }

  lemma RatifyArgsAreSafe(bin: string, subject: string, right: string, resource: string, at: string)
    requires '\0' !in bin && '\0' !in subject && '\0' !in right && '\0' !in resource && '\0' !in at
    ensures forall i :: 0 <= i < 7 ==> SafeArg(RatifyArgs(bin, subject, right, resource, at)[i])
  {
    FlagsArePlain();
  }

  /** The ratify command pastes as seven words carrying the record's four values unchanged. */
  lemma RatifyPastes(sh: Shell, bin: string, subject: string, right: string, resource: string, at: string)
    requires '\0' !in bin && '\0' !in subject && '\0' !in right && '\0' !in resource && '\0' !in at
    ensures Words(sh, CommandLine(RatifyArgs(bin, subject, right, resource, at))) ==
            Some([bin, "git", "ratify", "--subject=" + subject, "--right=" + right,
                  "--resource=" + resource, "--break-glass-at=" + at])
  {
    RatifyArgsAreSafe(bin, subject, right, resource, at);
    CommandRoundTrip(sh, RatifyArgs(bin, subject, right, resource, at));
    RatifyMeans(bin, subject, right, resource, at);
  }

  lemma RatifyMeans(bin: string, subject: string, right: string, resource: string, at: string)
    ensures Meanings(RatifyArgs(bin, subject, right, resource, at)) ==
            [bin, "git", "ratify", "--subject=" + subject, "--right=" + right,
             "--resource=" + resource, "--break-glass-at=" + at]
  {
    assert "" + bin == bin;
  }
}
