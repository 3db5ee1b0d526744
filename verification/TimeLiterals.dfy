/**
 Relative-time literals through the printer and the parser together: the printer writes such a
 literal as a call of relTime on its text, and the parser turns that call into a literal.
 */
module TimeLiterals {
  import opened Options
  import opened Syntax
  import Parser
  import RelTimes

  /** The relative times of a format are written and read as `RelTimes` says; `g` writes seconds
      with a fraction. */
  ghost predicate UsesRelTimes(f: TimeFormat, g: real -> string)
  {
    && (forall r: real :: f.text(RelativeTime(r)) == RelTimes.RelTimeText(g, r))
    && (forall s: string :: f.relative(s) == RelTimes.ReadRelTime(s))
  }

  lemma GivenBackIfRead(f: TimeFormat, r: real, rest: seq<Token>)
    requires Parser.Ends(0, rest)
    ensures
      var t := Literal(TimeConstant(RelativeTime(r)));
      Parser.Parsed(f, Printed(f, t) + rest) == Parser.Success(t, rest) <==> f.relative(f.text(RelativeTime(r))) == Some(r)
  {
    var t := Literal(TimeConstant(RelativeTime(r)));
    Parser.ParseOfPrinted(f, t, rest);
    assert LowerCase(REL_TIME[0]) != LowerCase(ABS_TIME[0]);
  }

  /** A relative-time literal is given back exactly when its text is read as its number of
      seconds. */
  lemma LiteralGivenBackIff(f: TimeFormat, g: real -> string, r: real, rest: seq<Token>)
    requires UsesRelTimes(f, g) && Parser.Ends(0, rest)
    ensures
      var t := Literal(TimeConstant(RelativeTime(r)));
      Parser.Parsed(f, Printed(f, t) + rest) == Parser.Success(t, rest) <==>
        RelTimes.ReadRelTime(RelTimes.RelTimeText(g, r)) == Some(r)
  {
    GivenBackIfRead(f, r, rest);
  }

  /** The literal of every whole number of seconds is given back. */
  lemma IntegerLiteralGivenBack(f: TimeFormat, g: real -> string, n: int, rest: seq<Token>)
    requires UsesRelTimes(f, g) && Parser.Ends(0, rest)
    ensures
      var t := Literal(TimeConstant(RelativeTime(n as real)));
      Parser.Parsed(f, Printed(f, t) + rest) == Parser.Success(t, rest)
  {
    RelTimes.IntegerReadBack(g, n);
    LiteralGivenBackIff(f, g, n as real, rest);
  }
}
