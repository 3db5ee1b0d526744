/**
 The log file as text (src/classad/collection.cpp, ReadLogEntry, WriteLogEntry and ReadLogFile):
 one record a line. Reading stops without an error at the first line that is not an ad, and what
 is logged next is written from there. An ad may be followed by anything on its line, since the
 parser stops at its closing bracket.

 `Codec` stands for the unparser and the parser.
 */
module LogText {
  import opened Options
  import opened AdStore
  import opened AdLog

  datatype Codec<!R> = Codec(unparse: R -> string, parse: string -> Option<R>)

  /** A record is printed on a line and read back whatever follows it there; a part of it is not
      an ad. */
  ghost predicate Kept<R>(c: Codec<R>, r: R)
  {
    && c.unparse(r) != "" && '\n' !in c.unparse(r)
    && (forall s: string :: c.parse(c.unparse(r) + s) == Some(r))
    && (forall n :: 0 <= n < |c.unparse(r)| ==> c.parse(c.unparse(r)[..n]) == None)
  }

  /** A line that begins with a part of one record and ends with another is not read as the other. */
  ghost predicate Apart<R>(c: Codec<R>, r: R, other: R)
  {
    forall n :: 0 < n < |c.unparse(r)| ==> c.parse(c.unparse(r)[..n] + c.unparse(other)) != Some(other)
  }

  ghost predicate AllKept<R>(c: Codec<R>, rs: seq<R>)
  {
    c.parse("") == None && (rs != [] ==> Kept(c, rs[0]) && AllKept(c, rs[1..]))
  }

  // ---------- writing and reading ----------

  function Line<R>(c: Codec<R>, r: R): string
  {
    c.unparse(r) + "\n"
  }

  function Text<R>(c: Codec<R>, rs: seq<R>): string
  {
    if rs == [] then "" else Line(c, rs[0]) + Text(c, rs[1..])
  }

  function LineEnd(s: string): (n: nat)
    ensures n <= |s| && '\n' !in s[..n]
    ensures n < |s| ==> s[n] == '\n'
  {
    if s == "" || s[0] == '\n' then 0 else 1 + LineEnd(s[1..])
  }

  function AfterLine(s: string): string
  {
    if LineEnd(s) < |s| then s[LineEnd(s) + 1..] else ""
  }

  /** The records read from a text, up to the first line that is not one. */
  function ReadLog<R>(c: Codec<R>, s: string): seq<R>
    decreases |s|
  {
    if s == "" then []
    else
      match c.parse(s[..LineEnd(s)])
      case None => []
      case Some(r) => [r] + ReadLog(c, AfterLine(s))
  }

  /** What is left behind the line at which reading stops. */
  function Unread<R>(c: Codec<R>, s: string): (rest: string)
    ensures |rest| <= |s| && rest == s[|s| - |rest|..]
    decreases |s|
  {
    if s == "" then ""
    else if c.parse(s[..LineEnd(s)]).None? then AfterLine(s)
    else Unread(c, AfterLine(s))
  }

  lemma LineOf(a: string, s: string)
    requires '\n' !in a
    ensures LineEnd(a + "\n" + s) == |a| && AfterLine(a + "\n" + s) == s
    ensures (a + "\n" + s)[..|a|] == a
    ensures LineEnd(a) == |a| && AfterLine(a) == ""
  {
    var all := a + "\n" + s;
    assert all[..|a|] == a && all[|a|] == '\n';
    assert forall i :: 0 <= i < |a| ==> all[i] == a[i] && a[i] in a;
    forall m | |a| < m <= |all| ensures '\n' in all[..m] {
      assert all[..m][|a|] == '\n';
    }
  }

  lemma LineRead<R>(c: Codec<R>, r: R, s: string)
    requires Kept(c, r)
    ensures ReadLog(c, Line(c, r) + s) == [r] + ReadLog(c, s)
    ensures Unread(c, Line(c, r) + s) == Unread(c, s)
  {
    LineOf(c.unparse(r), s);
    assert c.unparse(r) + "" == c.unparse(r);
  }

  lemma {:induction false} KeptParts<R>(c: Codec<R>, rs: seq<R>, k: nat)
    requires AllKept(c, rs) && k <= |rs|
    ensures AllKept(c, rs[..k]) && AllKept(c, rs[k..])
    ensures k < |rs| ==> Kept(c, rs[k])
  {
    if k > 0 {
      KeptParts(c, rs[1..], k - 1);
      assert rs[..k][1..] == rs[1..][..k - 1] && rs[k..] == rs[1..][k - 1..];
    } else {
      assert rs[0..] == rs;
    }
  }

  lemma FirstRead<R>(c: Codec<R>, rs: seq<R>, s: string)
    requires rs != [] && Kept(c, rs[0])
    ensures
      var rest := Text(c, rs[1..]) + s;
      && ReadLog(c, Text(c, rs) + s) == [rs[0]] + ReadLog(c, rest)
      && Unread(c, Text(c, rs) + s) == Unread(c, rest)
  {
    var rest := Text(c, rs[1..]) + s;
    assert Text(c, rs) + s == Line(c, rs[0]) + rest;
    LineRead(c, rs[0], rest);
  }

  /** Whole lines in front of anything are read. */
  lemma {:induction false} TextRead<R>(c: Codec<R>, rs: seq<R>, s: string)
    requires AllKept(c, rs)
    ensures ReadLog(c, Text(c, rs) + s) == rs + ReadLog(c, s)
    ensures Unread(c, Text(c, rs) + s) == Unread(c, s)
  {
    if rs == [] {
      assert Text(c, rs) + s == s;
    } else {
      FirstRead(c, rs, s);
      TextRead(c, rs[1..], s);
      Consed(rs, ReadLog(c, s));
    }
  }

  lemma Consed<R>(rs: seq<R>, later: seq<R>)
    requires rs != []
    ensures [rs[0]] + (rs[1..] + later) == rs + later
  {
  }

  /** One line at the end, without a newline. */
  lemma LastRead<R>(c: Codec<R>, a: string)
    requires a != "" && '\n' !in a
    ensures ReadLog(c, a) == if c.parse(a).Some? then [c.parse(a).value] else []
    ensures Unread(c, a) == ""
  {
    LineOf(a, "");
    assert a[..|a|] == a;
  }

  // ---------- a log that was cut anywhere ----------

  /** How many whole lines there are in the first n characters. */
  function Whole<R>(c: Codec<R>, rs: seq<R>, n: nat): (k: nat)
    ensures k <= |rs|
  {
    if rs == [] || n < |Line(c, rs[0])| then 0 else 1 + Whole(c, rs[1..], n - |Line(c, rs[0])|)
  }

  /** What follows them. */
  function Torn<R>(c: Codec<R>, rs: seq<R>, n: nat): (t: string)
    requires n <= |Text(c, rs)|
    ensures var k := Whole(c, rs, n);
      t == "" || (k < |rs| && 0 < |t| <= |c.unparse(rs[k])| && t == c.unparse(rs[k])[..|t|])
  {
    if rs == [] then ""
    else if n < |Line(c, rs[0])| then c.unparse(rs[0])[..n]
    else Torn(c, rs[1..], n - |Line(c, rs[0])|)
  }

  lemma CutFirst(line: string, rest: string, n: nat)
    requires n <= |line + rest|
    ensures (line + rest)[..n] == if n <= |line| then line[..n] else line + rest[..n - |line|]
  {
  }

  lemma TextFirst<R>(c: Codec<R>, rs: seq<R>, k: nat)
    requires k < |rs|
    ensures Text(c, rs[..k + 1]) == Line(c, rs[0]) + Text(c, rs[1..][..k])
  {
    assert rs[..k + 1][0] == rs[0] && rs[..k + 1][1..] == rs[1..][..k];
  }

  lemma {:induction false} CutText<R>(c: Codec<R>, rs: seq<R>, n: nat)
    requires n <= |Text(c, rs)|
    ensures Text(c, rs)[..n] == Text(c, rs[..Whole(c, rs, n)]) + Torn(c, rs, n)
  {
    if rs != [] {
      var line, rest := Line(c, rs[0]), Text(c, rs[1..]);
      CutFirst(line, rest, n);
      if n < |line| {
        CutFirst(c.unparse(rs[0]), "\n", n);
      } else {
        var m := n - |line|;
        CutText(c, rs[1..], m);
        TextFirst(c, rs, Whole(c, rs[1..], m));
        Regrouped(line, Text(c, rs[1..][..Whole(c, rs[1..], m)]), Torn(c, rs[1..], m));
        assert n == |line| ==> line[..n] == line + rest[..0];
      }
    }
  }

  /** The records that can be read: the last of them may lack its newline. */
  function Readable<R>(c: Codec<R>, rs: seq<R>, n: nat): (k: nat)
    requires n <= |Text(c, rs)|
    ensures k <= |rs|
  {
    var k := Whole(c, rs, n);
    if k < |rs| && Torn(c, rs, n) == c.unparse(rs[k]) then k + 1 else k
  }

  lemma ReadableIff<R>(c: Codec<R>, rs: seq<R>, n: nat)
    requires AllKept(c, rs) && n <= |Text(c, rs)|
    ensures Torn(c, rs, n) == "" ==> Readable(c, rs, n) == Whole(c, rs, n)
    ensures forall s :: c.parse(Torn(c, rs, n) + s) == None ==> Readable(c, rs, n) == Whole(c, rs, n)
  {
    KeptParts(c, rs, Whole(c, rs, n));
  }

  /** The log cut anywhere reads as the records that are complete, without an error, to the end
      of the file. */
  lemma CutRead<R>(c: Codec<R>, rs: seq<R>, n: nat)
    requires AllKept(c, rs) && n <= |Text(c, rs)|
    ensures ReadLog(c, Text(c, rs)[..n]) == rs[..Readable(c, rs, n)]
    ensures Unread(c, Text(c, rs)[..n]) == ""
  {
    var k, t := Whole(c, rs, n), Torn(c, rs, n);
    CutText(c, rs, n);
    KeptParts(c, rs, k);
    TextRead(c, rs[..k], t);
    if t == "" {
      ReadableIff(c, rs, n);
      assert rs[..k] + [] == rs[..k];
    } else {
      TornRead(c, rs[k], t);
      Snoc(rs, k, []);
      assert rs[..k] + [] == rs[..k] && rs[..k + 1] + [] == rs[..k + 1];
    }
  }

  lemma TornRead<R>(c: Codec<R>, r: R, t: string)
    requires Kept(c, r) && 0 < |t| <= |c.unparse(r)| && t == c.unparse(r)[..|t|]
    ensures ReadLog(c, t) == if t == c.unparse(r) then [r] else []
    ensures Unread(c, t) == "" && '\n' !in t
  {
    assert c.unparse(r) + "" == c.unparse(r);
    assert forall x :: x in t ==> x in c.unparse(r);
    LastRead(c, t);
  }

  // ---------- what is logged after the restart ----------

  lemma {:induction false} TornIff<R>(c: Codec<R>, rs: seq<R>, n: nat)
    requires AllKept(c, rs) && n <= |Text(c, rs)|
    ensures Torn(c, rs, n) == "" <==> n == 0 || Text(c, rs)[n - 1] == '\n'
  {
    if rs != [] {
      var line := Line(c, rs[0]);
      if 0 < n < |line| {
        assert Text(c, rs)[n - 1] == c.unparse(rs[0])[n - 1];
        assert c.unparse(rs[0])[n - 1] in c.unparse(rs[0]);
      } else if n >= |line| {
        TornIff(c, rs[1..], n - |line|);
      }
    }
  }

  /** What is read from a torn record and what follows it. */
  function Glued<R>(c: Codec<R>, t: string, es: seq<R>): seq<R>
    requires es != []
  {
    match c.parse(t + c.unparse(es[0]))
    case None => []
    case Some(q) => [q] + es[1..]
  }

  /** The first record joins the torn one on its line. */
  lemma GluedRead<R>(c: Codec<R>, t: string, es: seq<R>)
    requires '\n' !in t && es != [] && AllKept(c, es)
    ensures ReadLog(c, t + Text(c, es)) == Glued(c, t, es)
  {
    var a, rest := t + c.unparse(es[0]), Text(c, es[1..]);
    assert t + Text(c, es) == a + "\n" + rest;
    LineOf(a, rest);
    AllRead(c, es[1..]);
  }

  lemma AllRead<R>(c: Codec<R>, es: seq<R>)
    requires AllKept(c, es)
    ensures ReadLog(c, Text(c, es)) == es
  {
    TextRead(c, es, "");
    assert Text(c, es) + "" == Text(c, es) && es + [] == es;
  }

  lemma WholeRead<R>(c: Codec<R>, rs: seq<R>, n: nat, s: string)
    requires AllKept(c, rs) && n <= |Text(c, rs)|
    ensures ReadLog(c, Text(c, rs)[..n] + s) == rs[..Whole(c, rs, n)] + ReadLog(c, Torn(c, rs, n) + s)
  {
    var k, t := Whole(c, rs, n), Torn(c, rs, n);
    CutText(c, rs, n);
    KeptParts(c, rs, k);
    Regrouped(Text(c, rs[..k]), t, s);
    TextRead(c, rs[..k], t + s);
  }

  lemma Regrouped(a: string, b: string, s: string)
    ensures (a + b) + s == a + (b + s)
  {
  }

  /** What is read at the next restart: all of it, if the cut left no part of a line. Otherwise
      the first record that was logged after the cut joins that part, and the line is read as
      whatever it says; if it is not an ad, nothing that was logged after the cut is read. */
  lemma AppendedRead<R>(c: Codec<R>, rs: seq<R>, n: nat, es: seq<R>)
    requires AllKept(c, rs) && AllKept(c, es) && es != [] && n <= |Text(c, rs)|
    ensures
      var k, t := Whole(c, rs, n), Torn(c, rs, n);
      ReadLog(c, Text(c, rs)[..n] + Text(c, es)) == rs[..k] + (if t == "" then es else Glued(c, t, es))
  {
    var k, t := Whole(c, rs, n), Torn(c, rs, n);
    WholeRead(c, rs, n, Text(c, es));
    if t == "" {
      assert t + Text(c, es) == Text(c, es);
      AllRead(c, es);
    } else {
      KeptParts(c, rs, k);
      TornRead(c, rs[k], t);
      GluedRead(c, t, es);
    }
  }

  /** The record that lacks only its newline is kept, and the next one is lost. */
  lemma NewlineLost<R>(c: Codec<R>, rs: seq<R>, n: nat, es: seq<R>)
    requires AllKept(c, rs) && AllKept(c, es) && es != [] && n <= |Text(c, rs)|
    requires Readable(c, rs, n) > Whole(c, rs, n)
    ensures ReadLog(c, Text(c, rs)[..n] + Text(c, es)) == rs[..Readable(c, rs, n)] + es[1..]
  {
    var k := Whole(c, rs, n);
    AppendedRead(c, rs, n, es);
    FullGlued(c, rs, k, es);
    Snoc(rs, k, es[1..]);
    KeptParts(c, rs, k);
  }

  lemma FullGlued<R>(c: Codec<R>, rs: seq<R>, k: nat, es: seq<R>)
    requires AllKept(c, rs) && k < |rs| && es != []
    ensures Glued(c, c.unparse(rs[k]), es) == [rs[k]] + es[1..]
  {
    KeptParts(c, rs, k);
  }

  lemma Snoc<R>(rs: seq<R>, k: nat, later: seq<R>)
    requires k < |rs|
    ensures rs[..k] + ([rs[k]] + later) == rs[..k + 1] + later
  {
  }

  /** What is logged after a restart is read again, behind what the restart has read, if and only
      if nothing was logged or the file that it found was empty or ended with a newline. */
  lemma AppendedSurvivesIff<R>(c: Codec<R>, rs: seq<R>, n: nat, es: seq<R>)
    requires AllKept(c, rs) && AllKept(c, es) && n <= |Text(c, rs)|
    requires forall i :: 0 <= i < |rs| && es != [] ==> Apart(c, rs[i], es[0])
    ensures ReadLog(c, Text(c, rs)[..n] + Text(c, es)) == ReadLog(c, Text(c, rs)[..n]) + es
       <==> es == [] || n == 0 || Text(c, rs)[n - 1] == '\n'
  {
    CutRead(c, rs, n);
    if es == [] {
      assert Text(c, rs)[..n] + "" == Text(c, rs)[..n];
    } else {
      TornIff(c, rs, n);
      if Torn(c, rs, n) == "" {
        AppendedRead(c, rs, n, es);
        ReadableIff(c, rs, n);
      } else {
        LostBehindTorn(c, rs, n, es);
      }
    }
  }

  lemma LostBehindTorn<R>(c: Codec<R>, rs: seq<R>, n: nat, es: seq<R>)
    requires AllKept(c, rs) && AllKept(c, es) && es != [] && n <= |Text(c, rs)| && Torn(c, rs, n) != ""
    requires forall i :: 0 <= i < |rs| ==> Apart(c, rs[i], es[0])
    ensures ReadLog(c, Text(c, rs)[..n] + Text(c, es)) != rs[..Readable(c, rs, n)] + es
  {
    var k, t := Whole(c, rs, n), Torn(c, rs, n);
    if t == c.unparse(rs[k]) {
      NewlineLost(c, rs, n, es);
    } else {
      AppendedRead(c, rs, n, es);
      assert Apart(c, rs[k], es[0]);
      OtherGlued(c, t, rs[..k], es);
    }
  }

  lemma OtherGlued<R>(c: Codec<R>, t: string, before: seq<R>, es: seq<R>)
    requires es != [] && c.parse(t + c.unparse(es[0])) != Some(es[0])
    ensures before + Glued(c, t, es) != before + es
  {
    var glued := Glued(c, t, es);
    assert (before + es)[|before|..] == es && (before + glued)[|before|..] == glued;
    assert glued != [] ==> glued[0] != es[0];
  }

  /** Two records, "[t]" and "[f]": the first is torn behind its letter, and of the two that are
      logged after the restart none is read. */
  function Letters(): Codec<bool>
  {
    Codec((b: bool) => if b then "[t]" else "[f]",
          (s: string) => if |s| >= 3 && s[0] == '[' && s[2] == ']' then Some(s[1] == 't') else None)
  }

  lemma LetterKept(b: bool)
    ensures Kept(Letters(), b)
  {
  }

  lemma LettersKept(bs: seq<bool>)
    ensures AllKept(Letters(), bs)
  {
    if bs != [] {
      LetterKept(bs[0]);
      LettersKept(bs[1..]);
    }
  }

  lemma TornRecordExample()
    ensures ReadLog(Letters(), Text(Letters(), [true])[..2] + Text(Letters(), [false, true])) == []
  {
    var c := Letters();
    LettersKept([true]);
    LettersKept([false, true]);
    assert c.unparse(true) == "[t]";
    assert Torn(c, [true], 2) == "[t";
    assert ("[t" + "[f]")[2] == '[';
    AppendedRead(c, [true], 2, [false, true]);
  }

  // ---------- crashes ----------

  /** A crash that keeps any number of bytes of what was logged since a start: recovery gives the
      table after exactly the events that are complete in the readable records. */
  lemma CrashRecovers<A(!new)>(c: Codec<Record<A>>, file: seq<Record<A>>, r: Recovery<A>, es: seq<Event<A>>, n: nat,
                               sem: Semantics<A>)
    requires Recover(EmptyRecovery(), file, sem) == Some(r) && Sound(r.store)
    requires AllKept(c, file) && AllKept(c, LogOf(Live(r.store, es, sem)))
    requires n <= |Text(c, LogOf(Live(r.store, es, sem)))|
    requires AllDisciplined(r.store, es, sem) && AllClean(r.store, r.xactions.Keys, es, sem)
    ensures
      var log := LogOf(Live(r.store, es, sem));
      Yields(Recover(EmptyRecovery(), ReadLog(c, Text(c, file) + Text(c, log)[..n]), sem),
             Live(r.store, es[..Complete(r.store, es, Readable(c, log, n), sem)], sem))
  {
    var log := LogOf(Live(r.store, es, sem));
    TextRead(c, file, Text(c, log)[..n]);
    CutRead(c, log, n);
    RecoveredCollectionRecovers(file, r, es, Readable(c, log, n), sem);
  }

  /** If the torn record and the next one are not an ad together, the restart after that recovers
      what the first did: all that was logged in between is gone. */
  lemma RestartForgets<A(!new)>(c: Codec<Record<A>>, rs: seq<Record<A>>, n: nat, es: seq<Record<A>>, sem: Semantics<A>)
    requires AllKept(c, rs) && AllKept(c, es) && es != [] && n <= |Text(c, rs)| && Torn(c, rs, n) != ""
    requires c.parse(Torn(c, rs, n) + c.unparse(es[0])) == None
    ensures Recover(EmptyRecovery(), ReadLog(c, Text(c, rs)[..n] + Text(c, es)), sem) ==
            Recover(EmptyRecovery(), ReadLog(c, Text(c, rs)[..n]), sem)
  {
    AppendedRead(c, rs, n, es);
    CutRead(c, rs, n);
    ReadableIff(c, rs, n);
    assert Glued(c, Torn(c, rs, n), es) == [];
    assert rs[..Whole(c, rs, n)] + [] == rs[..Whole(c, rs, n)];
  }

  // ---------- the file ----------

  function Behind(s: string, n: nat): string
  {
    if n < |s| then s[n..] else ""
  }

  /** A text whose first line is known. */
  lemma LineIs(s: string, line: string)
    requires '\n' !in line
    requires s == line || (|line| < |s| && s[..|line|] == line && s[|line|] == '\n')
    ensures s[..LineEnd(s)] == line
    ensures AfterLine(s) == if s == line then "" else s[|line| + 1..]
  {
    if s == line {
      LineOf(line, "");
    } else {
      var rest := s[|line| + 1..];
      Rejoined(s, |line|);
      LineOf(line, rest);
    }
  }

  lemma Rejoined(s: string, n: nat)
    requires n < |s| && s[n] == '\n'
    ensures s == s[..n] + "\n" + s[n + 1..]
  {
  }

  lemma ReadOn<R>(c: Codec<R>, s: string)
    requires c.parse("") == None
    ensures
      match c.parse(s[..LineEnd(s)])
      case None => ReadLog(c, s) == [] && Unread(c, s) == AfterLine(s)
      case Some(r) => ReadLog(c, s) == [r] + ReadLog(c, AfterLine(s)) && Unread(c, s) == Unread(c, AfterLine(s))
  {
  }

  class LogFile<!R> {
    const codec: Codec<R>
    var text: string
    var position: nat

    constructor (codec: Codec<R>, text: string)
      ensures this.codec == codec && this.text == text && position == 0
    {
      this.codec := codec;
      this.text := text;
      position := 0;
    }

    ghost predicate Valid()
      reads this
    {
      position <= |text| && codec.parse("") == None
    }

    /** Characters up to a newline or the end of the file, parsed. */
    method ReadLogEntry() returns (rec: Option<R>)
      requires Valid()
      modifies this`position
      ensures Valid()
      ensures var rest := old(text[position..]);
        rec == codec.parse(rest[..LineEnd(rest)]) && text[position..] == AfterLine(rest)
      ensures rec.Some? ==> position > old(position)
    {
      ghost var start, rest := position, text[position..];
      var line := "";
      var ended := false;
      while position < |text| && !ended
        invariant start <= position <= |text|
        invariant !ended ==> line == text[start..position] && '\n' !in line
        invariant ended ==> position > start && line == text[start..position - 1] && '\n' !in line && text[position - 1] == '\n'
        decreases |text| - position
      {
        if text[position] == '\n' {
          ended := true;
        } else {
          line := line + [text[position]];
        }
        position := position + 1;
      }
      LineIs(rest, line);
      rec := codec.parse(line);
    }

    /** Records are read up to the first line that is not one, which is no error. */
    method ReadLogFile() returns (records: seq<R>)
      requires Valid() && position == 0
      modifies this`position
      ensures Valid() && records == ReadLog(codec, text) && text[position..] == Unread(codec, text)
    {
      records := [];
      var done := false;
      assert text[0..] == text;
      while !done
        invariant Valid()
        invariant !done ==> ReadLog(codec, text) == records + ReadLog(codec, text[position..])
        invariant !done ==> Unread(codec, text) == Unread(codec, text[position..])
        invariant done ==> records == ReadLog(codec, text) && text[position..] == Unread(codec, text)
        decreases !done, |text| - position
      {
        ghost var rest := text[position..];
        var rec := ReadLogEntry();
        ReadOn(codec, rest);
        if rec.None? {
          done := true;
        } else {
          ghost var later := ReadLog(codec, text[position..]);
          assert records + ([rec.value] + later) == records + [rec.value] + later;
          records := records + [rec.value];
        }
      }
    }

    /** A record at the present position; the end of the file, if all was read. */
    method WriteLogEntry(rec: R)
      requires Valid()
      modifies this`text, this`position
      ensures Valid() && position == old(position) + |Line(codec, rec)|
      ensures text == old(text[..position]) + Line(codec, rec) + Behind(old(text), position)
      ensures old(position) == |old(text)| ==> text == old(text) + Line(codec, rec) && position == |text|
    {
      var line := codec.unparse(rec) + "\n";
      var end := position + |line|;
      text := text[..position] + line + Behind(text, end);
      position := end;
    }
  }
}
