/**
 String literals and quoted names as text: how the unparser escapes them (src/classad/sink.cpp),
 how the lexer finds their end (src/classad/lexer.cpp) and how escapes are decoded
 (src/classad/util.cpp). Characters are bytes; byte 0 ends the program's strings.
 */
module Strings {
  import opened Options

  type Byte = c: char | c as int < 256

  type Text = seq<Byte>

  const NUL: Byte := 0 as char
  const ALERT: Byte := 7 as char
  const BACKSPACE: Byte := 8 as char
  const VERTICAL_TAB: Byte := 11 as char
  const FORM_FEED: Byte := 12 as char

  predicate NulFree(s: Text)
  {
    forall i :: 0 <= i < |s| ==> s[i] != NUL
  }

  /** Double quotes delimit string literals, single quotes delimit attribute names. */
  predicate Delimiter(c: Byte)
  {
    c == '"' || c == '\''
  }

  // ---------- writing ----------

  predicate IsPrint(c: Byte)
  {
    ' ' <= c <= '~'
  }

  predicate IsOctal(c: Byte)
  {
    '0' <= c <= '7'
  }

  function OctalDigit(n: int): (c: Byte)
    requires 0 <= n < 8
    ensures IsOctal(c) && OctalValue(c) == n
  {
    ('0' as int + n) as char
  }

  function OctalValue(c: Byte): (n: int)
    requires IsOctal(c)
    ensures 0 <= n < 8
  {
    c as int - '0' as int
  }

  /** What the unparser writes for one character inside quotes. */
  function Escaped(delim: Byte, c: Byte): (e: Text)
  {
    if c == delim then ['\\', if delim == '"' then '"' else '\'']
    else if c == ALERT then ['\\', 'a']
    else if c == BACKSPACE then ['\\', 'b']
    else if c == FORM_FEED then ['\\', 'f']
    else if c == '\n' then ['\\', 'n']
    else if c == '\r' then ['\\', 'r']
    else if c == '\t' then ['\\', 't']
    else if c == VERTICAL_TAB then ['\\', 'v']
    else if c == '\\' then ['\\', '\\']
    else if c == '\'' || c == '"' || IsPrint(c) then [c]
    else ['\\', OctalDigit(c as int / 64), OctalDigit(c as int / 8 % 8), OctalDigit(c as int % 8)]
  }

  /** What is written between the quotes for a string. */
  function Body(delim: Byte, s: Text): Text
  {
    if s == [] then [] else Escaped(delim, s[0]) + Body(delim, s[1..])
  }

  // ---------- finding the end ----------

  datatype Scanned = Unterminated | Terminated(body: Text, after: Text)

  function Behind(front: Text, r: Scanned): Scanned
  {
    if r.Unterminated? then r else Terminated(front + r.body, r.after)
  }

  /** The characters up to the closing quote and those after it; `odd` says that an odd number
      of backslashes comes just before. */
  function Scan(delim: Byte, odd: bool, input: Text): (r: Scanned)
    ensures r.Terminated? ==> |r.after| < |input|
    decreases |input|
  {
    if input == [] then Unterminated
    else if input[0] == delim && !odd then Terminated([], input[1..])
    else Behind([input[0]], Scan(delim, !odd && input[0] == '\\', input[1..]))
  }

  predicate IsSpace(c: char)
  {
    c == ' ' || c == '\t' || c == '\n' || c == VERTICAL_TAB || c == FORM_FEED || c == '\r'
  }

  function SkipSpaces(s: Text): (r: Text)
    ensures |r| <= |s|
  {
    if s != [] && IsSpace(s[0]) then SkipSpaces(s[1..]) else s
  }

  /** Whether another quoted part follows, which the lexer joins to this one. */
  predicate Continues(delim: Byte, after: Text)
  {
    var next := SkipSpaces(after);
    next != [] && next[0] == delim
  }

  /** All adjoining quoted parts, from after the first opening quote. */
  function Collect(delim: Byte, input: Text): Scanned
    decreases |input|
  {
    match Scan(delim, false, input)
    case Unterminated => Unterminated
    case Terminated(body, after) =>
      var next := SkipSpaces(after);
      if Continues(delim, after) then Behind(body, Collect(delim, next[1..])) else Terminated(body, next)
  }

  // ---------- decoding ----------

  /** The character that an escape stands for and how many characters follow its backslash. */
  function Decoded(t: Text): (r: (Byte, nat))
    requires t != []
    ensures 1 <= r.1 <= |t|
  {
    var c := t[0];
    if c == 'a' then (ALERT, 1)
    else if c == 'b' then (BACKSPACE, 1)
    else if c == 'f' then (FORM_FEED, 1)
    else if c == 'n' then ('\n', 1)
    else if c == 'r' then ('\r', 1)
    else if c == 't' then ('\t', 1)
    else if c == 'v' then (VERTICAL_TAB, 1)
    else if !IsOctal(c) then (c, 1)
    else if |t| >= 3 && c <= '3' && IsOctal(t[1]) && IsOctal(t[2]) then
      ((OctalValue(c) * 64 + OctalValue(t[1]) * 8 + OctalValue(t[2])) as char, 3)
    else if |t| >= 2 && IsOctal(t[1]) then ((OctalValue(c) * 8 + OctalValue(t[1])) as char, 2)
    else (OctalValue(c) as char, 1)
  }

  function Prepend(front: Text, r: Option<Text>): Option<Text>
  {
    if r.None? then None else Some(front + r.value)
  }

  /** The string that an escaped text stands for; None if it holds an escape for byte 0. A
      backslash at the very end is dropped. */
  function Unescape(t: Text): Option<Text>
    decreases |t|
  {
    if t == [] then Some([])
    else if t[0] != '\\' then Prepend([t[0]], Unescape(t[1..]))
    else if |t| == 1 then Some([])
    else
      var (c, length) := Decoded(t[1..]);
      if c == NUL then None else Prepend([c], Unescape(t[1 + length..]))
  }

  /** The outcome of tokenizing from after an opening quote: the value and what is left, or a
      token error. */
  datatype Literal = BadLiteral | StringLiteral(value: Text, rest: Text)

  function ReadLiteral(delim: Byte, input: Text): Literal
  {
    match Collect(delim, input)
    case Unterminated => BadLiteral
    case Terminated(body, rest) =>
      match Unescape(body)
      case None => BadLiteral
      case Some(value) => StringLiteral(value, rest)
  }

  // ---------- what is escaped ----------

  /** The characters from space to tilde are written as they are, but for the delimiter and the
      backslash. */
  lemma PlainCharacter(delim: Byte, c: Byte)
    requires Delimiter(delim)
    ensures Escaped(delim, c) == [c] <==> 32 <= c as int <= 126 && c != delim && c != '\\'
  {
  }

  /** The others take a letter, or all three octal digits. */
  lemma EscapedCharacter(delim: Byte, c: Byte)
    requires Delimiter(delim)
    ensures c == delim || c == '\\' ==> Escaped(delim, c) == ['\\', c]
    ensures 7 <= c as int <= 13 ==> Escaped(delim, c) == ['\\', LETTERS[c as int - 7]]
    ensures c as int < 7 || 13 < c as int < 32 || c as int > 126 ==>
      Escaped(delim, c) == ['\\', DigitChar(c as int / 64), DigitChar(c as int / 8 % 8), DigitChar(c as int % 8)]
  {
  }

  // ---------- what the escapes stand for ----------

  /** A character that ends an octal escape of fewer than three digits. */
  predicate NoDigit(rest: Text)
  {
    rest == [] || rest[0] < '0' || rest[0] > '7'
  }

  function DigitChar(d: nat): Byte
    requires d < 8
  {
    "01234567"[d]
  }

  lemma DigitCharValue(d: nat)
    requires d < 8
    ensures IsOctal(DigitChar(d)) && OctalValue(DigitChar(d)) == d
  {
  }

  lemma OneDigit(a: nat, rest: Text)
    requires a < 8 && NoDigit(rest)
    ensures Unescape(['\\', DigitChar(a)] + rest) == if a == 0 then None else Prepend([a as char], Unescape(rest))
  {
    DigitCharValue(a);
    var t := ['\\', DigitChar(a)] + rest;
    assert t[1..] == [DigitChar(a)] + rest && t[2..] == rest;
  }

  lemma TwoDigits(a: nat, b: nat, rest: Text)
    requires a < 8 && b < 8 && (NoDigit(rest) || a > 3)
    ensures Unescape(['\\', DigitChar(a), DigitChar(b)] + rest) ==
      if a == b == 0 then None else Prepend([(a * 8 + b) as char], Unescape(rest))
  {
    DigitCharValue(a);
    DigitCharValue(b);
    var t := ['\\', DigitChar(a), DigitChar(b)] + rest;
    assert t[1..] == [DigitChar(a), DigitChar(b)] + rest && t[3..] == rest;
  }

  lemma ThreeDigits(a: nat, b: nat, c: nat, rest: Text)
    requires a < 4 && b < 8 && c < 8
    ensures Unescape(['\\', DigitChar(a), DigitChar(b), DigitChar(c)] + rest) ==
      if a == b == c == 0 then None else Prepend([(a * 64 + b * 8 + c) as char], Unescape(rest))
  {
    DigitCharValue(a);
    DigitCharValue(b);
    DigitCharValue(c);
    var t := ['\\', DigitChar(a), DigitChar(b), DigitChar(c)] + rest;
    assert t[1..] == [DigitChar(a), DigitChar(b), DigitChar(c)] + rest && t[4..] == rest;
  }

  /** The letters that stand for control characters; any other character but a digit stands for
      itself. */
  const LETTERS: string := "abtnvfr"

  lemma LetterEscape(i: nat, rest: Text)
    requires i < |LETTERS|
    ensures Unescape(['\\', LETTERS[i]] + rest) == Prepend([(7 + i) as char], Unescape(rest))
  {
    var t := ['\\', LETTERS[i]] + rest;
    assert t[1..] == [LETTERS[i]] + rest && t[2..] == rest;
  }

  lemma OtherEscape(c: Byte, rest: Text)
    requires c !in LETTERS && (c < '0' || c > '7') && c != NUL
    ensures Unescape(['\\', c] + rest) == Prepend([c], Unescape(rest))
  {
    var t := ['\\', c] + rest;
    assert t[1..] == [c] + rest && t[2..] == rest;
  }

  // ---------- reading what was written ----------

  lemma ScanStep(delim: Byte, odd: bool, c: Byte, u: Text)
    requires c != delim || odd
    ensures Scan(delim, odd, [c] + u) == Behind([c], Scan(delim, !odd && c == '\\', u))
  {
    assert ([c] + u)[1..] == u;
  }

  lemma BehindBehind(a: Text, b: Text, r: Scanned)
    ensures Behind(a, Behind(b, r)) == Behind(a + b, r)
  {
    if r.Terminated? {
      assert a + (b + r.body) == a + b + r.body;
    }
  }

  /** What an escape looks like to the scan. */
  ghost predicate Shaped(delim: Byte, e: Text)
  {
    || (|e| == 1 && e[0] != delim && e[0] != '\\')
    || (|e| == 2 && e[0] == '\\' && e[0] != delim)
    || (|e| == 4 && e[0] == '\\' && e[0] != delim && IsOctal(e[1]) && IsOctal(e[2]) && IsOctal(e[3]) && !IsOctal(delim))
  }

  lemma EscapedShaped(delim: Byte, c: Byte)
    requires Delimiter(delim)
    ensures Shaped(delim, Escaped(delim, c))
  {
  }

  /** The closing quote is not found inside an escape, and the scan is even after it. */
  lemma ScanShaped(delim: Byte, e: Text, u: Text)
    requires Shaped(delim, e)
    ensures Scan(delim, false, e + u) == Behind(e, Scan(delim, false, u))
  {
    if |e| == 1 {
      assert e == [e[0]];
      ScanStep(delim, false, e[0], u);
    } else if |e| == 2 {
      ScanTwo(delim, e[0], e[1], u);
      assert e == [e[0]] + [e[1]];
      Appended([e[0]], [e[1]], u);
    } else {
      ScanFour(delim, e[0], e[1], e[2], e[3], u);
      FourCharacters(e, u);
    }
  }

  lemma FourCharacters(e: Text, u: Text)
    requires |e| == 4
    ensures e == [e[0]] + ([e[1]] + ([e[2]] + [e[3]]))
    ensures e + u == [e[0]] + ([e[1]] + ([e[2]] + ([e[3]] + u)))
  {
  }

  lemma ScanTwo(delim: Byte, a: Byte, b: Byte, u: Text)
    requires a == '\\' && a != delim
    ensures Scan(delim, false, [a] + ([b] + u)) == Behind([a] + [b], Scan(delim, false, u))
  {
    ScanStep(delim, false, a, [b] + u);
    ScanStep(delim, true, b, u);
    BehindBehind([a], [b], Scan(delim, false, u));
  }

  lemma ScanFour(delim: Byte, a: Byte, b: Byte, c: Byte, d: Byte, u: Text)
    requires a == '\\' && delim !in [a, b, c, d] && '\\' !in [b, c, d]
    ensures Scan(delim, false, [a] + ([b] + ([c] + ([d] + u)))) ==
      Behind([a] + ([b] + ([c] + [d])), Scan(delim, false, u))
  {
    var r := Scan(delim, false, u);
    ScanStep(delim, false, a, [b] + ([c] + ([d] + u)));
    ScanStep(delim, true, b, [c] + ([d] + u));
    ScanStep(delim, false, c, [d] + u);
    ScanStep(delim, false, d, u);
    BehindBehind([c], [d], r);
    BehindBehind([b], [c] + [d], r);
    BehindBehind([a], [b] + ([c] + [d]), r);
  }

  lemma Appended(a: Text, b: Text, c: Text)
    ensures a + b + c == a + (b + c)
  {
  }

  /** Scanning a printed string stops at its closing quote. */
  lemma {:induction false} ScanOfBody(delim: Byte, s: Text, after: Text)
    requires Delimiter(delim)
    ensures Scan(delim, false, Body(delim, s) + [delim] + after) == Terminated(Body(delim, s), after)
  {
    if s == [] {
      assert Body(delim, s) + [delim] + after == [delim] + after && ([delim] + after)[1..] == after;
    } else {
      var e, b := Escaped(delim, s[0]), Body(delim, s[1..]);
      ScanOfBody(delim, s[1..], after);
      EscapedShaped(delim, s[0]);
      ScanShaped(delim, e, b + [delim] + after);
      Appended(e, b, [delim]);
      Appended(e, b + [delim], after);
    }
  }

  lemma UnescapeEscaped(delim: Byte, c: Byte, u: Text)
    requires Delimiter(delim)
    ensures Unescape(Escaped(delim, c) + u) == if c == NUL then None else Prepend([c], Unescape(u))
  {
    var e := Escaped(delim, c);
    var t := e + u;
    if |e| == 1 {
      assert t[1..] == u;
    } else {
      assert t[1..] == e[1..] + u && t[1..][0] == e[1];
      assert t[|e|..] == u;
      if |e| == 4 {
        OctalEscape(c, u);
      }
    }
  }

  lemma OctalEscape(c: Byte, u: Text)
    ensures
      var d := [OctalDigit(c as int / 64), OctalDigit(c as int / 8 % 8), OctalDigit(c as int % 8)];
      Decoded(d + u) == (c, 3)
  {
    var n := c as int;
    assert n == n / 64 * 64 + n / 8 % 8 * 8 + n % 8;
    assert n / 64 < 4;
  }

  /** Decoding a printed string gives it back, in front of whatever follows, unless it holds
      byte 0. */
  lemma {:induction false} UnescapeOfBody(delim: Byte, s: Text, u: Text)
    requires Delimiter(delim)
    ensures Unescape(Body(delim, s) + u) == if NulFree(s) then Prepend(s, Unescape(u)) else None
  {
    if s == [] {
      assert Body(delim, s) + u == u;
      assert Unescape(u).Some? ==> [] + Unescape(u).value == Unescape(u).value;
    } else {
      var e, b := Escaped(delim, s[0]), Body(delim, s[1..]);
      UnescapeEscaped(delim, s[0], b + u);
      UnescapeOfBody(delim, s[1..], u);
      assert e + b + u == e + (b + u);
      FirstCharacter(s, Unescape(u));
    }
  }

  lemma FirstCharacter(s: Text, r: Option<Text>)
    requires s != []
    ensures NulFree(s) <==> s[0] != NUL && NulFree(s[1..])
    ensures Prepend([s[0]], Prepend(s[1..], r)) == Prepend(s, r)
  {
    assert s == [s[0]] + s[1..];
    if r.Some? {
      assert [s[0]] + (s[1..] + r.value) == s + r.value;
    }
  }

  /** For every string of bytes: tokenizing its printed form gives it back and stops at the
      printed closing quote, up to spaces, if and only if the string holds no byte 0; with one
      it is a token error. That is so when no other quote follows. When one does, the value is
      put in front of what is read from there. */
  lemma ReadPrinted(delim: Byte, s: Text, after: Text)
    requires Delimiter(delim)
    ensures
      var r := ReadLiteral(delim, Body(delim, s) + [delim] + after);
      if !NulFree(s) then r.BadLiteral?
      else if !Continues(delim, after) then r == StringLiteral(s, SkipSpaces(after))
      else
        var more := ReadLiteral(delim, SkipSpaces(after)[1..]);
        r == if more.BadLiteral? then BadLiteral else StringLiteral(s + more.value, more.rest)
  {
    var body := Body(delim, s);
    ScanOfBody(delim, s, after);
    UnescapeOfBody(delim, s, []);
    assert body + [] == body && s + [] == s;
    if Continues(delim, after) {
      var more := Collect(delim, SkipSpaces(after)[1..]);
      if more.Terminated? {
        UnescapeOfBody(delim, s, more.body);
      }
    }
  }

  // ---------- the unparser, the lexer and the decoder ----------

  class ClassAdUnParser {
    var buffer: Text
    var delimiter: Byte

    constructor (delimiter: Byte)
      ensures buffer == [] && this.delimiter == delimiter
    {
      buffer := [];
      this.delimiter := delimiter;
    }

    /** ClassAdUnParser::Unparse of a string value; the quotes are always double quotes. */
    method UnparseString(s: Text)
      modifies this`buffer
      ensures buffer == old(buffer) + ['"'] + Body(delimiter, s) + ['"']
    {
      buffer := buffer + ['"'];
      for i := 0 to |s|
        invariant buffer + Body(delimiter, s[i..]) == old(buffer) + ['"'] + Body(delimiter, s)
      {
        var c := s[i];
        ghost var before := buffer;
        if c == delimiter {
          buffer := buffer + (if delimiter == '"' then ['\\', '"'] else ['\\', '\'']);
        } else if c == ALERT {
          buffer := buffer + ['\\', 'a'];
        } else if c == BACKSPACE {
          buffer := buffer + ['\\', 'b'];
        } else if c == FORM_FEED {
          buffer := buffer + ['\\', 'f'];
        } else if c == '\n' {
          buffer := buffer + ['\\', 'n'];
        } else if c == '\r' {
          buffer := buffer + ['\\', 'r'];
        } else if c == '\t' {
          buffer := buffer + ['\\', 't'];
        } else if c == VERTICAL_TAB {
          buffer := buffer + ['\\', 'v'];
        } else if c == '\\' {
          buffer := buffer + ['\\', '\\'];
        } else if c != '\'' && c != '"' && !IsPrint(c) {
          var n := c as int;
          buffer := buffer + ['\\', OctalDigit(n / 64), OctalDigit(n / 8 % 8), OctalDigit(n % 8)];
        } else {
          buffer := buffer + [c];
        }
        assert buffer == before + Escaped(delimiter, c);
        assert s[i..][1..] == s[i + 1..];
        Appended(before, Escaped(delimiter, c), Body(delimiter, s[i + 1..]));
      }
      assert s[|s|..] == [];
      buffer := buffer + ['"'];
    }
  }

  /** The part of a buffer before its first byte 0, as C strings are read. */
  function CString(s: Text): Text
  {
    if s == [] || s[0] == NUL then [] else [s[0]] + CString(s[1..])
  }

  lemma CStringUpTo(s: Text, n: nat)
    requires n < |s| && NulFree(s[..n]) && s[n] == NUL
    ensures CString(s) == s[..n]
  {
    if n > 0 {
      assert s[1..][..n - 1] == s[1..n] == s[..n][1..];
      assert s[..n] == [s[0]] + s[1..n];
      CStringUpTo(s[1..], n - 1);
    }
  }

  ghost predicate EndsWithNul(text: Text)
  {
    text != [] && text[|text| - 1] == NUL && NulFree(text[..|text| - 1])
  }

  /** The escape whose first character after the backslash is at `source`: the character meant,
      whether it is given in octal, and the last position used. */
  method DecodeEscape(text: Text, source: nat) returns (c: Byte, octal: bool, last: nat)
    requires EndsWithNul(text) && source < |text|
    ensures source < |text| - 1 ==> (c, last + 1 - source) == Decoded(text[source..|text| - 1])
    ensures source < |text| - 1 ==> last < |text| - 1 && (c == NUL ==> octal)
    ensures source == |text| - 1 ==> c == NUL && !octal && last == source
    ensures source <= last
  {
    var length := |text|;
    ghost var t := text[source..length - 1];
    assert source < length - 1 ==> t[0] == text[source] && text[source] == text[..length - 1][source];
    assert source + 1 < length - 1 ==> t[1] == text[source + 1];
    assert source + 2 < length - 1 ==> t[2] == text[source + 2];
    c, octal, last := text[source], false, source;
    if c == 'a' {
      c := ALERT;
    } else if c == 'b' {
      c := BACKSPACE;
    } else if c == 'f' {
      c := FORM_FEED;
    } else if c == 'n' {
      c := '\n';
    } else if c == 'r' {
      c := '\r';
    } else if c == 't' {
      c := '\t';
    } else if c == 'v' {
      c := VERTICAL_TAB;
    } else if IsOctal(c) {
      octal := true;
      if source <= length - 3 && c <= '3' && IsOctal(text[source + 1]) && IsOctal(text[source + 2]) {
        c := (OctalValue(c) * 64 + OctalValue(text[source + 1]) * 8 + OctalValue(text[source + 2])) as char;
        last := source + 2;
      } else if source <= length - 2 && IsOctal(text[source + 1]) {
        c := (OctalValue(c) * 8 + OctalValue(text[source + 1])) as char;
        last := source + 1;
      } else {
        c := OctalValue(c) as char;
      }
    }
  }

  lemma Moved(done: Text, c: Byte, r: Option<Text>)
    ensures Prepend(done, Prepend([c], r)) == Prepend(done + [c], r)
  {
    if r.Some? {
      assert done + ([c] + r.value) == done + [c] + r.value;
    }
  }

  /** Decoding `body` has given `done` and is at `source`, which is past the end after a
      backslash there. */
  ghost predicate Reached(body: Text, source: nat, done: Text)
  {
    && source <= |body| + 1
    && Unescape(body) == if source <= |body| then Prepend(done, Unescape(body[source..])) else Some(done)
  }

  lemma ReachedStart(body: Text)
    ensures Reached(body, 0, [])
  {
    assert body[0..] == body && (Unescape(body).Some? ==> [] + Unescape(body).value == Unescape(body).value);
  }

  lemma ReachedEnd(body: Text, source: nat, done: Text)
    requires Reached(body, source, done) && source >= |body|
    ensures Unescape(body) == Some(done)
  {
    assert source == |body| ==> body[source..] == [] && done + [] == done;
  }

  lemma PlainStep(body: Text, source: nat, done: Text)
    requires Reached(body, source, done) && source < |body| && body[source] != '\\'
    ensures Reached(body, source + 1, done + [body[source]])
  {
    assert body[source..][1..] == body[source + 1..];
    Moved(done, body[source], Unescape(body[source + 1..]));
  }

  lemma EscapeStep(body: Text, source: nat, done: Text, c: Byte, length: nat)
    requires Reached(body, source, done) && source + 1 < |body| && body[source] == '\\'
    requires Decoded(body[source + 1..]) == (c, length)
    ensures c == NUL ==> Unescape(body).None?
    ensures c != NUL ==> source + 1 + length <= |body| && Reached(body, source + 1 + length, done + [c])
  {
    assert body[source..][1..] == body[source + 1..];
    assert body[source..][1 + length..] == body[source + 1 + length..];
    Moved(done, c, Unescape(body[source + 1 + length..]));
  }

  lemma LastBackslash(body: Text, source: nat, done: Text)
    requires Reached(body, source, done) && source + 1 == |body| && body[source] == '\\'
    ensures Reached(body, source + 2, done)
  {
    assert |body[source..]| == 1 && done + [] == done;
  }

  /** One turn of the decoder's loop: the character to copy, or that the text is not valid. */
  method NextCharacter(text: Text, source: nat, ghost done: Text)
    returns (invalid: bool, c: Byte, next: nat, ghost more: Text)
    requires EndsWithNul(text) && source < |text| - 1
    requires Reached(text[..|text| - 1], source, done) && NulFree(done)
    ensures invalid ==> Unescape(text[..|text| - 1]).None?
    ensures !invalid ==> source < next <= |text| && Reached(text[..|text| - 1], next, more) && NulFree(more)
    ensures !invalid ==> done + [c] == more + (if next == |text| then [NUL] else [])
  {
    ghost var body := text[..|text| - 1];
    invalid, c, next, more := false, text[source], source + 1, done;
    assert body[source] == c;
    if c != '\\' {
      PlainStep(body, source, done);
      more := done + [c];
    } else {
      var octal, last;
      c, octal, last := DecodeEscape(text, source + 1);
      if source + 1 < |text| - 1 {
        assert text[source + 1..|text| - 1] == body[source + 1..];
        EscapeStep(body, source, done, c, last - source);
        more := done + [c];
      } else {
        LastBackslash(body, source, done);
      }
      invalid, next := octal && c == NUL, last + 1;
    }
  }

  /** convert_escapes, on a text that ends in byte 0 as the lexer leaves it. */
  method ConvertEscapes(text: Text) returns (valid: bool, result: Text)
    requires EndsWithNul(text)
    ensures Unescape(text[..|text| - 1]) == if valid then Some(result) else None
  {
    var length := |text|;
    ghost var done: Text := [];
    var copy := new Byte[length + 1](_ => NUL);
    var source, dest := 0, 0;
    ReachedStart(text[..length - 1]);
    while source < length - 1
      invariant dest <= source <= length && Reached(text[..length - 1], source, done) && NulFree(done)
      invariant copy[..dest] == done + if source == length then [NUL] else []
    {
      var invalid, c;
      invalid, c, source, done := NextCharacter(text, source, done);
      if invalid {
        return false, [];
      }
      copy[dest] := c;
      dest := dest + 1;
    }
    ReachedEnd(text[..length - 1], source, done);
    copy[dest] := NUL;
    assert copy[..][..|done|] == done == copy[..dest][..|done|];
    CStringUpTo(copy[..], |done|);
    valid, result := true, CString(copy[..]);
  }

  datatype TokenType = StringValue | Identifier | TokenError

  const EOF: int := -1

  /** The lexer: its source with the read position, the character looked at, and the buffer in
      which a token is gathered. */
  class Lexer {
    const source: Text
    var offset: nat
    var ch: int
    var lexBuffer: Text
    var lexBufferCount: int
    var accumulating: bool

    ghost predicate Valid()
      reads this
    {
      && offset <= |source| && NulFree(source)
      && (ch == EOF || 0 < ch < 256)
      && (ch == EOF ==> offset == |source|)
    }

    /** The characters still to be looked at. */
    ghost function Pending(): Text
      reads this
      requires Valid()
    {
      (if ch == EOF then [] else [ch as char]) + source[offset..]
    }

    constructor (source: Text)
      requires NulFree(source)
      ensures Valid() && Pending() == source && lexBuffer == [] && lexBufferCount == 0 && !accumulating
    {
      this.source := source;
      ch, offset := EOF, |source|;
      lexBuffer, lexBufferCount, accumulating := [], 0, false;
      if source != [] {
        ch, offset := source[0] as int, 1;
      }
    }

    method ReadCharacter() returns (c: int)
      requires Valid()
      modifies this`offset
      ensures Valid()
      ensures if old(offset) == |source| then c == EOF && offset == |source|
              else c == source[old(offset)] as int && offset == old(offset) + 1
    {
      if offset == |source| {
        return EOF;
      }
      c := source[offset] as int;
      offset := offset + 1;
    }

    method UnreadCharacter()
      modifies this`offset
      ensures offset == if old(offset) > 0 then old(offset) - 1 else 0
    {
      if offset > 0 {
        offset := offset - 1;
      }
    }

    method Mark()
      requires Valid()
      modifies this`lexBuffer, this`lexBufferCount, this`accumulating
      ensures Gathered([])
    {
      lexBuffer := [if ch == EOF then 255 as char else ch as char];
      lexBufferCount := 0;
      accumulating := true;
    }

    /** While a token is gathered the buffer holds it and the character looked at. */
    ghost predicate Gathered(token: Text)
      reads this
    {
      && accumulating && lexBufferCount == |token|
      && (0 < ch < 256 ==> lexBuffer == token + [ch as char])
    }

    method Wind()
      requires Valid()
      modifies this`offset, this`ch, this`lexBuffer, this`lexBufferCount
      ensures Valid()
      ensures old(ch) == EOF ==> ch == EOF && Pending() == old(Pending())
      ensures old(ch) != EOF ==> Pending() == old(Pending())[1..] && lexBufferCount == old(lexBufferCount) + 1
      ensures lexBuffer == old(lexBuffer) + (if ch != EOF && accumulating then [ch as char] else [])
    {
      if ch == EOF {
        return;
      }
      ch := ReadCharacter();
      lexBufferCount := lexBufferCount + 1;
      if ch != EOF && accumulating {
        lexBuffer := lexBuffer + [ch as char];
      }
    }

    /** The inner loop of TokenizeString: up to the closing quote. */
    method ConsumeBody(delim: Byte, ghost token: Text) returns (ghost body: Text)
      requires Valid() && delim != NUL && Gathered(token)
      modifies this`offset, this`ch, this`lexBuffer, this`lexBufferCount
      ensures Valid()
      ensures
        var r := Scan(delim, false, old(Pending()));
        NulFree(body) &&
        if r.Unterminated? then ch == EOF
        else ch == delim as int && Gathered(token + body) && body == r.body && source[offset..] == r.after
    {
      var oddBackWhacks, oldCh := false, 0;
      body := [];
      ghost var r := Scan(delim, false, Pending());
      while ch > 0 && (ch != delim as int || (ch == delim as int && oldCh == '\\' as int && oddBackWhacks))
        invariant Valid() && (oddBackWhacks ==> oldCh == '\\' as int)
        invariant NulFree(body) && Gathered(token + body)
        invariant r == Behind(body, Scan(delim, oddBackWhacks, Pending()))
        decreases |Pending()|
      {
        ghost var before, c: Byte, odd := Pending(), ch as char, oddBackWhacks;
        ScanStep(delim, odd, c, before[1..]);
        assert before == [c] + before[1..];
        oddBackWhacks := !oddBackWhacks && ch == '\\' as int;
        oldCh := ch;
        Wind();
        BehindBehind(body, [c], Scan(delim, oddBackWhacks, Pending()));
        assert token + body + [c] == token + (body + [c]);
        body := body + [c];
      }
      if ch != EOF {
        assert Pending()[1..] == source[offset..] && body + [] == body;
      }
    }

    /** Looks past spaces for another quote: reads over it, or leaves the position at the next
        character. */
    method AnotherQuote(delim: Byte) returns (again: bool)
      requires Valid() && ch != EOF && Delimiter(delim)
      modifies this`offset
      ensures Valid()
      ensures
        var next := SkipSpaces(source[old(offset)..]);
        again == Continues(delim, source[old(offset)..]) &&
        source[offset..] == if again then next[1..] else next
    {
      ghost var after := source[offset..];
      var tempch := ' ' as int;
      while tempch != EOF && IsSpace(tempch as char)
        invariant Valid() && EOF <= tempch < 256
        invariant tempch == EOF ==> offset == |source| && SkipSpaces(after) == []
        invariant tempch != EOF && !IsSpace(tempch as char) ==>
          offset > 0 && source[offset - 1] as int == tempch && SkipSpaces(after) == source[offset - 1..]
        invariant tempch != EOF && IsSpace(tempch as char) ==> SkipSpaces(after) == SkipSpaces(source[offset..])
        decreases |source| - offset + (if tempch == EOF then 0 else 1)
      {
        assert offset < |source| ==> source[offset..][1..] == source[offset + 1..];
        tempch := ReadCharacter();
      }
      again := tempch == delim as int;
      if !again && tempch != EOF {
        UnreadCharacter();
      }
    }

    /** One turn of the loop of TokenizeString: a quoted part up to its closing quote, and the
        look at what follows. */
    method ConsumePart(delim: Byte, ghost token: Text) returns (again: bool, ghost more: Text)
      requires Valid() && Delimiter(delim) && Gathered(token) && NulFree(token)
      modifies this`offset, this`ch, this`lexBuffer, this`lexBufferCount
      ensures Valid() && NulFree(more)
      ensures
        var r := Scan(delim, false, old(Pending()));
        if r.Unterminated? then ch == EOF && !again
        else
          && more == token + r.body && Gathered(more)
          && again == Continues(delim, r.after)
          && if again then Pending() == SkipSpaces(r.after)[1..]
             else ch == delim as int && source[offset..] == SkipSpaces(r.after)
    {
      more := ConsumeBody(delim, token);
      again := false;
      if ch == delim as int {
        again := AnotherQuote(delim);
        more := token + more;
        if again {
          ghost var next := source[offset..];
          assert lexBuffer[..lexBufferCount] == more;
          lexBuffer := lexBuffer[..lexBufferCount];
          lexBufferCount := lexBufferCount - 1;
          Wind();
          assert Pending() == next;
        }
      }
    }

    /** The end of TokenizeString: cuts the token, skips the closing quote and decodes. */
    method FinishString(delim: Byte, ghost token: Text) returns (tokenType: TokenType, value: Text)
      requires Valid() && Gathered(token) && NulFree(token) && ch == delim as int && delim != NUL
      modifies this
      ensures Valid() && Pending() == old(source[offset..])
      ensures Unescape(token) == if tokenType == TokenError then None else Some(value)
      ensures tokenType != TokenError ==> tokenType == if delim == '"' then StringValue else Identifier
    {
      lexBuffer := lexBuffer[lexBufferCount := NUL];
      accumulating := false;
      assert lexBuffer == token + [NUL];
      Wind();
      assert lexBuffer == token + [NUL] && lexBuffer[..|token|] == token;
      var validStr;
      validStr, value := ConvertEscapes(lexBuffer);
      lexBuffer := value;
      tokenType := if !validStr then TokenError else if delim == '"' then StringValue else Identifier;
    }

    /** From an opening quote: the token's type and value, as `ReadLiteral` says. */
    method TokenizeString(delim: Byte) returns (tokenType: TokenType, value: Text)
      requires Valid() && Delimiter(delim) && ch == delim as int
      modifies this
      ensures Valid()
      ensures
        match ReadLiteral(delim, old(Pending())[1..])
        case BadLiteral => tokenType == TokenError
        case StringLiteral(v, rest) =>
          tokenType == (if delim == '"' then StringValue else Identifier) && value == v && Pending() == rest
    {
      Wind();
      Mark();
      ghost var r, token: Text := Collect(delim, Pending()), [];
      assert r == Behind(token, r);
      var stringComplete := false;
      while !stringComplete
        invariant Valid() && NulFree(token) && Gathered(token)
        invariant !stringComplete ==> r == Behind(token, Collect(delim, Pending()))
        invariant stringComplete ==> ch == delim as int && r == Terminated(token, source[offset..])
        decreases !stringComplete, |Pending()|
      {
        ghost var input, before := Pending(), token;
        var again;
        again, token := ConsumePart(delim, token);
        CollectStep(delim, input, before);
        if !again && ch != delim as int {
          return TokenError, [];
        }
        stringComplete := !again;
      }
      tokenType, value := FinishString(delim, token);
    }
  }

  lemma CollectStep(delim: Byte, input: Text, front: Text)
    ensures
      var r := Scan(delim, false, input);
      if r.Unterminated? then Collect(delim, input).Unterminated?
      else
        var next := SkipSpaces(r.after);
        Behind(front, Collect(delim, input)) ==
          if Continues(delim, r.after) then Behind(front + r.body, Collect(delim, next[1..]))
          else Terminated(front + r.body, next)
  {
    var r := Scan(delim, false, input);
    if r.Terminated? && Continues(delim, r.after) {
      BehindBehind(front, r.body, Collect(delim, SkipSpaces(r.after)[1..]));
    }
  }
}
