/**
 `base64url`, the unpadded encoding of section 5 of RFC 4648, with a decoder
 that accepts exactly its output; and the step-up answer code, whose parts are
 such texts joined by dots.
 */
module Base64Url {
  import opened Options

  type Byte = b: nat | b < 256
  type Sextet = d: nat | d < 64

  /** `A` to `Z`, `a` to `z`, `0` to `9`, `-` and `_`, in that order. */
  function Letter(d: Sextet): char {
    if d < 26 then ('A' as nat + d as nat) as char
    else if d < 52 then ('a' as nat + (d as nat - 26)) as char
    else if d < 62 then ('0' as nat + (d as nat - 52)) as char
    else if d == 62 then '-' else '_'
  }

  predicate InAlphabet(c: char) {
    'A' <= c <= 'Z' || 'a' <= c <= 'z' || '0' <= c <= '9' || c == '-' || c == '_'
  }

  /** The value of a letter, by the table of RFC 4648 section 5. */
  function LetterValue(c: char): Sextet
    requires InAlphabet(c)
  {
    if 'A' <= c <= 'Z' then c as nat - 'A' as nat
    else if 'a' <= c <= 'z' then c as nat - 'a' as nat + 26
    else if '0' <= c <= '9' then c as nat - '0' as nat + 52
    else if c == '-' then 62 else 63
  }

  lemma LetterIsItsValue(d: Sextet)
    ensures InAlphabet(Letter(d)) && LetterValue(Letter(d)) == d
  {
  }

  lemma ValueIsItsLetter(c: char)
    requires InAlphabet(c)
    ensures Letter(LetterValue(c)) == c
  {
  }

  // ----- encoding -----

  function Pack(b0: nat, b1: nat, b2: nat): nat {
    b0 * 65536 + b1 * 256 + b2
  }

  /** Three bytes as one number; the missing ones of a last chunk count as 0. */
  function Group(chunk: seq<Byte>): nat
    requires 1 <= |chunk| <= 3
  {
    Pack(chunk[0], if |chunk| > 1 then chunk[1] else 0, if |chunk| > 2 then chunk[2] else 0)
  }

  /** Shift right by `6 * k` bits. */
  function Shift6(n: nat, k: nat): nat {
    if k == 0 then n else Shift6(n / 64, k - 1)
  }

  /** Sextet `i` of a 24-bit number: shift right by 18 - 6i and mask with 63. */
  function SextetAt(n: nat, i: nat): Sextet
    requires i < 4
  {
    Shift6(n, 3 - i) % 64
  }

  function EncodeChunk(chunk: seq<Byte>): string
    requires 1 <= |chunk| <= 3
  {
    seq(|chunk| + 1, i requires 0 <= i < 4 => Letter(SextetAt(Group(chunk), i)))
  }

  function Encode(bytes: seq<Byte>): string {
    if bytes == [] then ""
    else if |bytes| <= 3 then EncodeChunk(bytes)
    else EncodeChunk(bytes[..3]) + Encode(bytes[3..])
  }

  method Base64Url(bytes: seq<Byte>) returns (out: string)
    ensures out == Encode(bytes)
  {
    out := "";
    var at := 0;
    while at < |bytes|
      invariant 0 <= at <= |bytes| && out + Encode(bytes[at..]) == Encode(bytes)
    {
      var size := if |bytes| - at < 3 then |bytes| - at else 3;
      var chunk := bytes[at..at + size];
      var n := Group(chunk);
      var text := EncodeGroup(n, chunk);
      EncodeFrom(out, bytes, at, size);
      out := out + text;
      at := at + size;
    }
  }

  /** The inner loop: one letter more than the chunk has bytes. */
  method EncodeGroup(n: nat, chunk: seq<Byte>) returns (text: string)
    requires 1 <= |chunk| <= 3 && n == Group(chunk)
    ensures text == EncodeChunk(chunk)
  {
    text := "";
    for i := 0 to |chunk| + 1
      invariant |text| == i && forall k :: 0 <= k < i ==> text[k] == Letter(SextetAt(n, k))
    {
      text := text + [Letter(SextetAt(n, i))];
    }
  }

  lemma EncodeFrom(out: string, bytes: seq<Byte>, at: nat, size: nat)
    requires at < |bytes| && size == if |bytes| - at < 3 then |bytes| - at else 3
    ensures out + Encode(bytes[at..]) == out + EncodeChunk(bytes[at..at + size]) + Encode(bytes[at + size..])
  {
    var rest := bytes[at..];
    assert rest[..size] == bytes[at..at + size] && rest[size..] == bytes[at + size..];
    if |rest| <= 3 {
      assert rest[..size] == rest && rest[size..] == [];
    }
  }

  // ----- decoding -----

  function Bytes(n: nat, size: nat): seq<Byte>
    requires 1 <= size <= 3
  {
    [n / 256 / 256 % 256, n / 256 % 256, n % 256][..size]
  }

  function Join(s0: nat, s1: nat, s2: nat, s3: nat): nat {
    s0 * 262144 + s1 * 4096 + s2 * 64 + s3
  }

  /** The 24-bit number of 2 to 4 letters, missing ones counting as 0. */
  function Number(s: string): nat
    requires 2 <= |s| <= 4 && AllInAlphabet(s)
  {
    Join(LetterValue(s[0]), LetterValue(s[1]),
         if |s| > 2 then LetterValue(s[2]) else 0, if |s| > 3 then LetterValue(s[3]) else 0)
  }

  predicate AllInAlphabet(s: string) {
    forall i :: 0 <= i < |s| ==> InAlphabet(s[i])
  }

  /** Up to four letters; the unused low bits of a short group must be zero. */
  function DecodeChunk(s: string): Option<seq<Byte>> {
    if |s| < 2 || |s| > 4 || !AllInAlphabet(s) then None
    else
      var n := Number(s);
      if (|s| <= 3 && n % 256 != 0) || (|s| == 2 && n / 256 % 256 != 0) then None
      else Some(Bytes(n, |s| - 1))
  }

  function Decode(s: string): Option<seq<Byte>> {
    if s == "" then Some([])
    else if |s| <= 4 then DecodeChunk(s)
    else
      match DecodeChunk(s[..4])
      case None => None
      case Some(front) =>
        match Decode(s[4..])
        case None => None
        case Some(back) => Some(front + back)
  }

  // ----- the two are inverse -----

  lemma Div64(q: nat, r: nat)
    requires r < 64
    ensures (64 * q + r) / 64 == q && (64 * q + r) % 64 == r
  {
  }

  lemma Div256(q: nat, r: nat)
    requires r < 256
    ensures (256 * q + r) / 256 == q && (256 * q + r) % 256 == r
  {
  }

  lemma Sextets(n: nat)
    ensures SextetAt(n, 3) == n % 64 && SextetAt(n, 2) == n / 64 % 64
    ensures SextetAt(n, 1) == n / 64 / 64 % 64 && SextetAt(n, 0) == n / 64 / 64 / 64 % 64
  {
    assert Shift6(n, 1) == Shift6(n / 64, 0);
    assert Shift6(n, 2) == Shift6(n / 64, 1) == Shift6(n / 64 / 64, 0);
    assert Shift6(n, 3) == Shift6(n / 64, 2) == Shift6(n / 64 / 64, 1) == Shift6(n / 64 / 64 / 64, 0);
  }

  lemma SextetsRebuild(n: nat)
    requires n < 16777216
    ensures n == Join(SextetAt(n, 0), SextetAt(n, 1), SextetAt(n, 2), SextetAt(n, 3))
  {
    Sextets(n);
    var q1 := n / 64;
    var q2 := q1 / 64;
    var q3 := q2 / 64;
    assert n == 64 * q1 + n % 64 && q1 == 64 * q2 + q1 % 64 && q2 == 64 * q3 + q2 % 64;
    assert q3 < 64;
  }

  lemma BytesRebuild(b0: Byte, b1: Byte, b2: Byte)
    ensures var n := Pack(b0, b1, b2);
            n < 16777216 && n / 256 / 256 % 256 == b0 && n / 256 % 256 == b1 && n % 256 == b2
  {
    var x: nat, y: nat, z: nat := b0, b1, b2;
    assert Pack(x, y, z) == 256 * (256 * x + y) + z;
    Div256(256 * x + y, z);
    Div256(x, y);
  }

  /** A short chunk leaves the letters it does not print at zero. */
  lemma ShortChunk(b0: Byte, b1: Byte)
    ensures var n := Pack(b0, b1, 0); n % 256 == 0 && n % 64 == 0
    ensures var n := Pack(b0, 0, 0); n % 256 == 0 && n / 256 % 256 == 0 && n % 64 == 0 && n / 64 % 64 == 0
  {
    var x: nat, y: nat := b0, b1;
    assert Pack(x, y, 0) == 64 * (1024 * x + 4 * y) + 0;
    Div64(1024 * x + 4 * y, 0);
    assert Pack(x, y, 0) == 256 * (256 * x + y) + 0;
    Div256(256 * x + y, 0);
    assert Pack(x, 0, 0) == 256 * (256 * x) + 0 && 256 * x == 256 * x + 0;
    Div256(256 * x, 0);
    Div256(x, 0);
    assert Pack(x, 0, 0) == 64 * (1024 * x) + 0 && 1024 * x == 64 * (16 * x) + 0;
    Div64(1024 * x, 0);
    Div64(16 * x, 0);
  }

  lemma EncodedLetter(chunk: seq<Byte>, i: nat)
    requires 1 <= |chunk| <= 3 && i <= |chunk|
    ensures InAlphabet(EncodeChunk(chunk)[i]) && LetterValue(EncodeChunk(chunk)[i]) == SextetAt(Group(chunk), i)
  {
    LetterIsItsValue(SextetAt(Group(chunk), i));
  }

  /** Reading a chunk's letters gives its number back. */
  lemma EncodedNumber(chunk: seq<Byte>)
    requires 1 <= |chunk| <= 3
    ensures AllInAlphabet(EncodeChunk(chunk)) && Number(EncodeChunk(chunk)) == Group(chunk)
  {
    var n := Group(chunk);
    forall i | 0 <= i <= |chunk|
      ensures InAlphabet(EncodeChunk(chunk)[i]) && LetterValue(EncodeChunk(chunk)[i]) == SextetAt(n, i)
    {
      EncodedLetter(chunk, i);
    }
    BytesRebuild(chunk[0], if |chunk| > 1 then chunk[1] else 0, if |chunk| > 2 then chunk[2] else 0);
    ShortChunk(chunk[0], if |chunk| > 1 then chunk[1] else 0);
    Sextets(n);
    SextetsRebuild(n);
  }

  lemma ChunkDecodes(chunk: seq<Byte>)
    requires 1 <= |chunk| <= 3
    ensures DecodeChunk(EncodeChunk(chunk)) == Some(chunk)
  {
    EncodedNumber(chunk);
    BytesOfGroup(chunk);
    GroupLow(chunk);
    assert |EncodeChunk(chunk)| == |chunk| + 1;
  }

  lemma BytesOfGroup(chunk: seq<Byte>)
    requires 1 <= |chunk| <= 3
    ensures Bytes(Group(chunk), |chunk|) == chunk
  {
    BytesRebuild(chunk[0], if |chunk| > 1 then chunk[1] else 0, if |chunk| > 2 then chunk[2] else 0);
  }

  lemma GroupLow(chunk: seq<Byte>)
    requires 1 <= |chunk| <= 3
    ensures |chunk| <= 2 ==> Group(chunk) % 256 == 0
    ensures |chunk| == 1 ==> Group(chunk) / 256 % 256 == 0
  {
    ShortChunk(chunk[0], if |chunk| > 1 then chunk[1] else 0);
  }

  /** Every byte sequence is read back from its encoding. */
  lemma {:induction false} DecodeEncode(bytes: seq<Byte>)
    ensures Decode(Encode(bytes)) == Some(bytes)
    decreases |bytes|
  {
    if bytes == [] {
    } else if |bytes| <= 3 {
      ChunkDecodes(bytes);
    } else {
      var front, back := EncodeChunk(bytes[..3]), Encode(bytes[3..]);
      ChunkDecodes(bytes[..3]);
      DecodeEncode(bytes[3..]);
      assert (front + back)[..4] == front && (front + back)[4..] == back;
      assert back != "";
      assert bytes[..3] + bytes[3..] == bytes;
    }
  }

  lemma FourSextets(a: Sextet, b: Sextet, c: Sextet, d: Sextet)
    ensures var n := Join(a, b, c, d);
            n < 16777216 && SextetAt(n, 0) == a && SextetAt(n, 1) == b && SextetAt(n, 2) == c && SextetAt(n, 3) == d
  {
    var w: nat, x: nat, y: nat, z: nat := a, b, c, d;
    var q3 := 64 * w + x;
    var q2 := 64 * q3 + y;
    assert Join(w, x, y, z) == 64 * q2 + z;
    Div64(q2, z);
    Div64(q3, y);
    Div64(w, x);
    Sextets(Join(w, x, y, z));
  }

  lemma GroupOfBytes(n: nat, size: nat)
    requires n < 16777216 && 1 <= size <= 3
    requires (size <= 2 ==> n % 256 == 0) && (size == 1 ==> n / 256 % 256 == 0)
    ensures Group(Bytes(n, size)) == n
  {
    TopByte(n);
    var q1 := n / 256;
    assert n == Pack(q1 / 256, q1 % 256, n % 256) by {
      assert n == 256 * q1 + n % 256;
      assert q1 == 256 * (q1 / 256) + q1 % 256;
    }
  }

  lemma TopByte(n: nat)
    requires n < 16777216
    ensures n / 256 / 256 % 256 == n / 256 / 256
  {
    var q := n / 256 / 256;
    assert q < 256;
    Div256(0, q);
  }

  lemma LetterOfNumber(s: string, i: nat)
    requires 2 <= |s| <= 4 && AllInAlphabet(s) && i < |s|
    ensures Number(s) < 16777216 && Letter(SextetAt(Number(s), i)) == s[i]
  {
    FourSextets(LetterValue(s[0]), LetterValue(s[1]),
                if |s| > 2 then LetterValue(s[2]) else 0, if |s| > 3 then LetterValue(s[3]) else 0);
    ValueIsItsLetter(s[i]);
  }

  lemma ChunkEncodes(s: string)
    requires DecodeChunk(s).Some?
    ensures |DecodeChunk(s).value| == |s| - 1 && EncodeChunk(DecodeChunk(s).value) == s
  {
    var n := Number(s);
    LetterOfNumber(s, 0);
    GroupOfBytes(n, |s| - 1);
    forall i | 0 <= i < |s|
      ensures Letter(SextetAt(n, i)) == s[i]
    {
      LetterOfNumber(s, i);
    }
  }

  /** Nothing but an encoding is accepted: a text that decodes is the encoding of what it decodes to. */
  lemma {:induction false} EncodeDecode(s: string)
    requires Decode(s).Some?
    ensures Encode(Decode(s).value) == s
    decreases |s|
  {
    if s == "" {
    } else if |s| <= 4 {
      ChunkEncodes(s);
    } else {
      var front, back := DecodeChunk(s[..4]).value, Decode(s[4..]).value;
      ChunkEncodes(s[..4]);
      EncodeDecode(s[4..]);
      assert |front| == 3 && back != [];
      assert (front + back)[..3] == front && (front + back)[3..] == back;
      assert s[..4] + s[4..] == s;
    }
  }

  /** The encoding has four letters for three bytes, rounded up, all in the alphabet. */
  lemma {:induction false} EncodeShape(bytes: seq<Byte>)
    ensures |Encode(bytes)| == (4 * |bytes| + 2) / 3
    ensures AllInAlphabet(Encode(bytes))
    decreases |bytes|
  {
    if bytes == [] {
    } else if |bytes| <= 3 {
      EncodedNumber(bytes);
    } else {
      EncodedNumber(bytes[..3]);
      EncodeShape(bytes[3..]);
    }
  }

  // ----- the answer code -----

  datatype Assertion = Assertion(id: string, authenticatorData: string, clientData: string, signature: string,
                                 userHandle: Option<string>)

  const PREFIX := "sua1."

  /** `split('.')`: always at least one part. */
  function SplitDots(s: string): (parts: seq<string>)
    ensures parts != []
  {
    if s == "" then [""]
    else
      var rest := SplitDots(s[1..]);
      if s[0] == '.' then [""] + rest else [[s[0]] + rest[0]] + rest[1..]
  }

  function JoinDots(parts: seq<string>): string
    requires parts != []
  {
    if |parts| == 1 then parts[0] else parts[0] + "." + JoinDots(parts[1..])
  }

  predicate IsPart(s: string) {
    s != "" && AllInAlphabet(s)
  }

  /** `assertion_from_answer_code`. */
  function ReadAnswer(code: string): Option<Assertion> {
    if !(PREFIX <= code) then None
    else
      var parts := SplitDots(code[|PREFIX|..]);
      if |parts| < 4 || |parts| > 5 || (exists i :: 0 <= i < |parts| && !IsPart(parts[i])) then None
      else Some(Assertion(parts[0], parts[1], parts[2], parts[3], if |parts| == 5 then Some(parts[4]) else None))
  }

  function Parts(a: Assertion): seq<string> {
    [a.id, a.authenticatorData, a.clientData, a.signature] + (if a.userHandle.Some? then [a.userHandle.value] else [])
  }

  function AnswerCode(a: Assertion): string {
    PREFIX + JoinDots(Parts(a))
  }

  predicate ValidAssertion(a: Assertion) {
    forall i :: 0 <= i < |Parts(a)| ==> IsPart(Parts(a)[i])
  }

  lemma {:induction false} SplitFront(p: string, s: string)
    requires '.' !in p
    ensures SplitDots(p + s) == [p + SplitDots(s)[0]] + SplitDots(s)[1..]
    decreases p
  {
    if p == "" {
      assert p + s == s;
      assert p + SplitDots(s)[0] == SplitDots(s)[0];
    } else {
      assert (p + s)[1..] == p[1..] + s;
      SplitFront(p[1..], s);
      assert [p[0]] + (p[1..] + SplitDots(s)[0]) == p + SplitDots(s)[0];
    }
  }

  lemma {:induction false} SplitJoin(parts: seq<string>)
    requires parts != [] && forall i :: 0 <= i < |parts| ==> '.' !in parts[i]
    ensures SplitDots(JoinDots(parts)) == parts
    decreases |parts|
  {
    if |parts| == 1 {
      SplitFront(parts[0], "");
      assert parts[0] + "" == parts[0];
    } else {
      var rest := JoinDots(parts[1..]);
      SplitJoin(parts[1..]);
      SplitFront(parts[0], "." + rest);
      assert ("." + rest)[1..] == rest;
      assert parts[0] + "." + rest == parts[0] + ("." + rest);
      assert parts[0] + "" == parts[0];
    }
  }

  lemma {:induction false} JoinSplit(s: string)
    ensures JoinDots(SplitDots(s)) == s
    decreases s
  {
    if s != "" {
      var rest := SplitDots(s[1..]);
      JoinSplit(s[1..]);
      if s[0] == '.' {
        assert ([""] + rest)[1..] == rest;
        assert "" + "." + s[1..] == s;
      } else {
        var parts := [[s[0]] + rest[0]] + rest[1..];
        assert parts[1..] == rest[1..];
        if |rest| > 1 {
          assert [s[0]] + rest[0] + "." + JoinDots(rest[1..]) == [s[0]] + (rest[0] + "." + JoinDots(rest[1..]));
        }
      }
    }
  }

  /** An answer code made from valid parts is read back as those parts, and no other text is accepted. */
  lemma AnswerCodeRoundTrip(a: Assertion, code: string)
    ensures ReadAnswer(code) == Some(a) <==> ValidAssertion(a) && code == AnswerCode(a)
  {
    var body := JoinDots(Parts(a));
    if ValidAssertion(a) && code == AnswerCode(a) {
      assert code[|PREFIX|..] == body;
      assert forall i :: 0 <= i < |Parts(a)| ==> '.' !in Parts(a)[i];
      SplitJoin(Parts(a));
    }
    if ReadAnswer(code) == Some(a) {
      JoinSplit(code[|PREFIX|..]);
      assert SplitDots(code[|PREFIX|..]) == Parts(a);
      assert code == PREFIX + code[|PREFIX|..];
    }
  }

  /** What the page shows, non-empty byte strings encoded and joined, is always accepted. */
  lemma EncodedPartsAreAccepted(rawId: seq<Byte>, authenticatorData: seq<Byte>, clientData: seq<Byte>,
                                signature: seq<Byte>, userHandle: Option<seq<Byte>>)
    requires rawId != [] && authenticatorData != [] && clientData != [] && signature != []
    requires userHandle.Some? ==> userHandle.value != []
    ensures var a := Assertion(Encode(rawId), Encode(authenticatorData), Encode(clientData), Encode(signature),
                               if userHandle.Some? then Some(Encode(userHandle.value)) else None);
            ReadAnswer(AnswerCode(a)) == Some(a)
  {
    EncodedIsPart(rawId);
    EncodedIsPart(authenticatorData);
    EncodedIsPart(clientData);
    EncodedIsPart(signature);
    if userHandle.Some? { EncodedIsPart(userHandle.value); }
    var a := Assertion(Encode(rawId), Encode(authenticatorData), Encode(clientData), Encode(signature),
                       if userHandle.Some? then Some(Encode(userHandle.value)) else None);
    ValidParts(a);
    AnswerCodeRoundTrip(a, AnswerCode(a));
  }

  lemma ValidParts(a: Assertion)
    requires IsPart(a.id) && IsPart(a.authenticatorData) && IsPart(a.clientData) && IsPart(a.signature)
    requires a.userHandle.Some? ==> IsPart(a.userHandle.value)
    ensures ValidAssertion(a)
  {
  }

  lemma EncodedIsPart(bytes: seq<Byte>)
    requires bytes != []
    ensures IsPart(Encode(bytes))
  {
    EncodeShape(bytes);
  }
}
