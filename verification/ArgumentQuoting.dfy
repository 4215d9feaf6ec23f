/** Quoting an argument list into one Windows command line, against the rules by which the
    command line is taken apart again. */
module ArgumentQuoting {
  const QUOTE: char := '"'
  const SLASH: char := '\\'
  const SPACE: char := ' '

  function Slashes(n: nat): (s: string)
    ensures |s| == n
  {
    seq(n, _ => SLASH)
  }

  // ----- taking a command line apart

  /** The arguments in `s`. `n` backslashes have been read and not used, `quoted` tells
      whether a quote is open, `started` whether an argument has begun with `cur`. Before a
      quote, pairs of backslashes stand for one, and an odd one makes the quote literal. */
  function Parse(s: string, n: nat, quoted: bool, started: bool, cur: string): seq<string> {
    if s == [] then
      if started then [cur + Slashes(n)] else []
    else if s[0] == SLASH then Parse(s[1..], n + 1, quoted, true, cur)
    else if s[0] == QUOTE then
      if n % 2 == 1 then Parse(s[1..], 0, quoted, true, cur + Slashes(n / 2) + [QUOTE])
      else Parse(s[1..], 0, !quoted, true, cur + Slashes(n / 2))
    else if s[0] == SPACE && !quoted then
      (if started then [cur + Slashes(n)] else []) + Parse(s[1..], 0, false, false, [])
    else Parse(s[1..], 0, quoted, true, cur + Slashes(n) + [s[0]])
  }

  function Arguments(line: string): seq<string> {
    Parse(line, 0, false, false, [])
  }

  // ----- what the program builds

  /** The rest of a quoted argument when `n` backslashes have just been put out. */
  function Body(arg: string, n: nat): string {
    if arg == [] then Slashes(n) + [QUOTE]
    else if arg[0] == SLASH then [SLASH] + Body(arg[1..], n + 1)
    else if arg[0] == QUOTE then Slashes(n + 1) + [QUOTE] + Body(arg[1..], 0)
    else [arg[0]] + Body(arg[1..], 0)
  }

  /** The line for the arguments from `i` on. */
  function Line(args: seq<string>, i: nat): string
    decreases |args| - i
  {
    if i >= |args| then []
    else (if i > 0 then [SPACE] else []) + [QUOTE] + Body(args[i], 0) + Line(args, i + 1)
  }

  method ArgsToWide(args: seq<string>) returns (wide: string)
    ensures wide == Line(args, 0)
    ensures Arguments(wide) == args
    ensures |wide| == TotalLength(args) + if args == [] then 0 else |args| - 1
  {
    hide Line, Body, Parse;
    wide := [];
    var i := 0;
    assert wide + Line(args, 0) == Line(args, 0);
    while i < |args|
      invariant 0 <= i <= |args|
      invariant wide + Line(args, i) == Line(args, 0)
    {
      ghost var before := wide;
      if i > 0 {
        wide := wide + [SPACE];
      }
      wide := QuoteOnto(wide + [QUOTE], args[i]);
      LineUnfolds(args, i);
      assert wide + Line(args, i + 1) == before + Line(args, i);
      i := i + 1;
    }
    LineEnds(args);
    LineParses(args, 0);
    LineLength(args, 0);
    assert args[0..] == args;
  }

  /** The loop over the characters of one argument, and its closing quote. */
  method QuoteOnto(start: string, arg: string) returns (wide: string)
    ensures wide == start + Body(arg, 0)
  {
    wide := start;
    var backslashes := 0;
    var k := 0;
    assert arg[0..] == arg;
    while k < |arg|
      invariant 0 <= k <= |arg|
      invariant wide + Body(arg[k..], backslashes) == start + Body(arg, 0)
    {
      assert arg[k..][0] == arg[k] && arg[k..][1..] == arg[k + 1..];
      if arg[k] == SLASH {
        backslashes := backslashes + 1;
      } else {
        if arg[k] == QUOTE {
          wide := wide + Slashes(backslashes + 1);
        }
        backslashes := 0;
      }
      wide := wide + [arg[k]];
      k := k + 1;
    }
    wide := wide + Slashes(backslashes);
    wide := wide + [QUOTE];
  }

  lemma LineUnfolds(args: seq<string>, i: nat)
    requires i < |args|
    ensures Line(args, i) == (if i > 0 then [SPACE] else []) + [QUOTE] + Body(args[i], 0) + Line(args, i + 1)
  {
  }

  lemma LineEnds(args: seq<string>)
    ensures Line(args, |args|) == []
  {
  }

  // ----- the round trip

  /** `Parse` on a line given by its first character and the rest. */
  lemma ParseCons(c: char, s: string, n: nat, quoted: bool, started: bool, cur: string)
    ensures Parse([c] + s, n, quoted, started, cur) ==
            if c == SLASH then Parse(s, n + 1, quoted, true, cur)
            else if c == QUOTE then
              if n % 2 == 1 then Parse(s, 0, quoted, true, cur + Slashes(n / 2) + [QUOTE])
              else Parse(s, 0, !quoted, true, cur + Slashes(n / 2))
            else if c == SPACE && !quoted then
              (if started then [cur + Slashes(n)] else []) + Parse(s, 0, false, false, [])
            else Parse(s, 0, quoted, true, cur + Slashes(n) + [c])
  {
    assert ([c] + s)[1..] == s;
  }

  lemma {:induction false} ParseSlashes(m: nat, rest: string, n: nat, quoted: bool, cur: string)
    ensures Parse(Slashes(m) + rest, n, quoted, true, cur) == Parse(rest, n + m, quoted, true, cur)
  {
    hide Parse;
    if m > 0 {
      assert Slashes(m) + rest == [SLASH] + (Slashes(m - 1) + rest);
      ParseCons(SLASH, Slashes(m - 1) + rest, n, quoted, true, cur);
      ParseSlashes(m - 1, rest, n + 1, quoted, cur);
    } else {
      assert Slashes(0) + rest == rest;
    }
  }

  /** `m` more backslashes and a quote, behind `n` backslashes within quotes: an even number
      closes, an odd number leaves a quote. */
  lemma ParseUpToQuote(m: nat, n: nat, rest: string, cur: string)
    requires m == n || m == n + 1
    ensures Parse(Slashes(m) + [QUOTE] + rest, n, true, true, cur) ==
            if m == n then Parse(rest, 0, false, true, cur + Slashes(n))
            else Parse(rest, 0, true, true, cur + Slashes(n) + [QUOTE])
  {
    hide Parse;
    assert Slashes(m) + [QUOTE] + rest == Slashes(m) + ([QUOTE] + rest);
    ParseSlashes(m, [QUOTE] + rest, n, true, cur);
    ParseCons(QUOTE, rest, n + m, true, true, cur);
  }

  /** Reading what one character of an argument was printed as. */
  lemma ParseCharacter(arg: string, n: nat, rest: string, cur: string)
    requires arg != []
    ensures Parse(Body(arg, n) + rest, n, true, true, cur) ==
            if arg[0] == SLASH then Parse(Body(arg[1..], n + 1) + rest, n + 1, true, true, cur)
            else Parse(Body(arg[1..], 0) + rest, 0, true, true, cur + Slashes(n) + [arg[0]])
  {
    hide Parse;
    var tail := Body(arg[1..], if arg[0] == SLASH then n + 1 else 0) + rest;
    if arg[0] == QUOTE {
      assert Body(arg, n) + rest == Slashes(n + 1) + [QUOTE] + tail;
      ParseUpToQuote(n + 1, n, tail, cur);
    } else {
      assert Body(arg, n) + rest == [arg[0]] + tail;
      ParseCons(arg[0], tail, n, true, true, cur);
    }
  }

  /** Reading a quoted body up to its closing quote adds exactly the argument. */
  lemma {:induction false} ParseBody(arg: string, n: nat, rest: string, cur: string)
    ensures Parse(Body(arg, n) + rest, n, true, true, cur) == Parse(rest, 0, false, true, cur + Slashes(n) + arg)
    decreases |arg|
  {
    hide Parse;
    if arg == [] {
      ParseUpToQuote(n, n, rest, cur);
      assert cur + Slashes(n) + arg == cur + Slashes(n);
    } else {
      hide Body;
      ParseCharacter(arg, n, rest, cur);
      if arg[0] == SLASH {
        ParseBody(arg[1..], n + 1, rest, cur);
        assert cur + Slashes(n + 1) + arg[1..] == cur + Slashes(n) + arg;
      } else {
        var read := cur + Slashes(n) + [arg[0]];
        ParseBody(arg[1..], 0, rest, read);
        assert read + Slashes(0) + arg[1..] == cur + Slashes(n) + arg;
      }
    }
  }

  lemma {:induction false} LineParses(args: seq<string>, i: nat)
    requires i <= |args|
    ensures i == 0 ==> Arguments(Line(args, 0)) == args
    ensures forall cur :: i > 0 ==> Parse(Line(args, i), 0, false, true, cur) == [cur] + args[i..]
    decreases |args| - i
  {
    if i < |args| {
      LineParses(args, i + 1);
    }
    forall cur: string
      ensures i > 0 ==> Parse(Line(args, i), 0, false, true, cur) == [cur] + args[i..]
    {
      if i > 0 {
        LineParsesFrom(args, i, cur);
      }
    }
    if i == 0 && args != [] {
      var rest := Line(args, 1);
      assert Line(args, 0) == [QUOTE] + (Body(args[0], 0) + rest);
      ParseBody(args[0], 0, rest, []);
      assert Slashes(0) + args[0] == args[0];
      assert [] + Slashes(0) == [];
      assert [args[0]] + args[1..] == args;
    }
  }

  lemma LineParsesFrom(args: seq<string>, i: nat, cur: string)
    requires 0 < i <= |args|
    requires i < |args| ==> forall c :: Parse(Line(args, i + 1), 0, false, true, c) == [c] + args[i + 1..]
    ensures Parse(Line(args, i), 0, false, true, cur) == [cur] + args[i..]
  {
    assert cur + Slashes(0) == cur;
    if i < |args| {
      var rest := Line(args, i + 1);
      var body := Body(args[i], 0) + rest;
      assert Line(args, i) == [SPACE] + ([QUOTE] + body);
      assert ([QUOTE] + body)[1..] == body;
      ParseBody(args[i], 0, rest, []);
      assert [] + Slashes(0) + args[i] == args[i];
      assert [] + Slashes(0) == [];
      assert [args[i]] + args[i + 1..] == args[i..];
    }
  }

  // ----- nothing is put out that is not needed

  /** Nothing but backslashes stands in front of the next quote or the end. */
  predicate BeforeQuote(arg: string) {
    arg == [] || arg[0] == QUOTE || (arg[0] == SLASH && BeforeQuote(arg[1..]))
  }

  /** The characters that need a backslash: quotes, and backslashes that run up to a quote or
      to the end. */
  function Escapes(arg: string): nat {
    if arg == [] then 0
    else (if arg[0] == QUOTE || (arg[0] == SLASH && BeforeQuote(arg)) then 1 else 0) + Escapes(arg[1..])
  }

  /** The arguments with their two quotes and the backslashes they need. */
  function TotalLength(args: seq<string>): nat {
    if args == [] then 0 else |args[0]| + 2 + Escapes(args[0]) + TotalLength(args[1..])
  }

  lemma {:induction false} BodyLength(arg: string, n: nat)
    ensures |Body(arg, n)| == |arg| + 1 + Escapes(arg) + if BeforeQuote(arg) then n else 0
    decreases |arg|
  {
    if arg != [] {
      BodyLength(arg[1..], if arg[0] == SLASH then n + 1 else 0);
    }
  }

  lemma {:induction false} LineLength(args: seq<string>, i: nat)
    requires i <= |args|
    ensures |Line(args, i)| == TotalLength(args[i..]) + |args| - i - if i == 0 && args != [] then 1 else 0
    decreases |args| - i
  {
    hide Body, Escapes;
    if i < |args| {
      BodyLength(args[i], 0);
      LineLength(args, i + 1);
      assert args[i..][1..] == args[i + 1..];
    }
  }
}
