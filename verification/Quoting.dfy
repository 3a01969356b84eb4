/** Windows command lines: quoting arguments, and the parsing rules that take them apart again. */
module Quoting {

  const QUOTE: char := '\"'
  const BACKSLASH: char := '\\'

  predicate Blank(c: char) { c == ' ' || c == '\t' }

  function Backslashes(n: nat): (s: string)
    ensures |s| == n && forall i :: 0 <= i < n ==> s[i] == BACKSLASH
  {
    seq(n, i => BACKSLASH)
  }

  // ----- the parser: Microsoft's rules for C and C++ command-line arguments -----

  /** The number of backslashes at the front. */
  function Leading(s: string): (n: nat)
    ensures n <= |s| && (forall i :: 0 <= i < n ==> s[i] == BACKSLASH) && (n < |s| ==> s[n] != BACKSLASH)
  {
    if s == "" || s[0] != BACKSLASH then 0 else 1 + Leading(s[1..])
  }

  /** One argument and what follows it. Backslashes are literal unless a quote follows; an even number
      before a quote halves and the quote is a delimiter (or, doubled inside quotes, a literal quote); an
      odd number halves and the quote is literal. A blank outside quotes ends the argument. */
  function ParseArgument(s: string, quoted: bool): (r: (string, string))
    ensures |r.1| <= |s|
    ensures s != "" && !Blank(s[0]) ==> |r.1| < |s|
    decreases |s|
  {
    var n := Leading(s);
    if n < |s| && s[n] == QUOTE then
      if n % 2 == 1 then
        var (a, rest) := ParseArgument(s[n + 1..], quoted);
        (Backslashes(n / 2) + [QUOTE] + a, rest)
      else if quoted && n + 1 < |s| && s[n + 1] == QUOTE then
        var (a, rest) := ParseArgument(s[n + 2..], quoted);
        (Backslashes(n / 2) + [QUOTE] + a, rest)
      else
        var (a, rest) := ParseArgument(s[n + 1..], !quoted);
        (Backslashes(n / 2) + a, rest)
    else if n > 0 then
      var (a, rest) := ParseArgument(s[n..], quoted);
      (Backslashes(n) + a, rest)
    else if s == "" || (!quoted && Blank(s[0])) then ("", s)
    else
      var (a, rest) := ParseArgument(s[1..], quoted);
      ([s[0]] + a, rest)
  }

  function SkipBlanks(s: string): (r: string)
    ensures |r| <= |s| && (r != "" ==> !Blank(r[0]))
  {
    if s != "" && Blank(s[0]) then SkipBlanks(s[1..]) else s
  }

  function ParseArguments(s: string): (r: seq<string>)
    decreases |s|
  {
    var t := SkipBlanks(s);
    if t == "" then []
    else
      var (a, rest) := ParseArgument(t, false);
      [a] + ParseArguments(rest)
  }

  /** The program name is special: quotes only protect blanks, and there are no escapes. */
  function ParseProgram(s: string, quoted: bool): (r: (string, string))
    ensures QUOTE !in r.0
    decreases |s|
  {
    if s == "" || (!quoted && Blank(s[0])) then ("", s)
    else if s[0] == QUOTE then ParseProgram(s[1..], !quoted)
    else
      var (a, rest) := ParseProgram(s[1..], quoted);
      ([s[0]] + a, rest)
  }

  /** The command line as the new process sees it: everything before the first NUL. */
  function CString(buffer: string): (s: string) {
    if buffer == "" || buffer[0] == '\0' then "" else [buffer[0]] + CString(buffer[1..])
  }

  function ParseCommandLine(buffer: string): (r: seq<string>) {
    var (program, rest) := ParseProgram(CString(buffer), false);
    [program] + ParseArguments(rest)
  }

  // ----- the quoter -----

  predicate NeedsQuotes(s: string) {
    s == "" || exists i :: 0 <= i < |s| && (Blank(s[i]) || s[i] == QUOTE)
  }

  /** The text between the quotes, with `n` backslashes not yet written. */
  function Escape(s: string, n: nat): (r: string)
    decreases |s|
  {
    if s == "" then Backslashes(2 * n)
    else if s[0] == BACKSLASH then Escape(s[1..], n + 1)
    else if s[0] == QUOTE then Backslashes(2 * n + 1) + [QUOTE] + Escape(s[1..], 0)
    else Backslashes(n) + [s[0]] + Escape(s[1..], 0)
  }

  function Quoted(s: string): (r: string) {
    if NeedsQuotes(s) then [QUOTE] + Escape(s, 0) + [QUOTE] else s
  }

  /** `quote_windows_argument`. */
  method QuoteArgument(argument: string) returns (result: string)
    ensures result == Quoted(argument)
  {
    var i := 0;
    while i < |argument| && !Blank(argument[i]) && argument[i] != QUOTE
      invariant 0 <= i <= |argument|
      invariant forall k :: 0 <= k < i ==> !Blank(argument[k]) && argument[k] != QUOTE
    {
      i := i + 1;
    }
    if argument != "" && i == |argument| {
      return argument;
    }
    result := EscapeArgument(argument);
    result := result + [QUOTE];
  }

  /** The escaping loop, with the opening quote in front. */
  method EscapeArgument(argument: string) returns (result: string)
    ensures result == [QUOTE] + Escape(argument, 0)
  {
    hide Escape, Backslashes;
    result := [QUOTE];
    var backslashes := 0;
    var i := 0;
    assert argument[0..] == argument;
    while i < |argument|
      invariant 0 <= i <= |argument|
      invariant result + Escape(argument[i..], backslashes) == [QUOTE] + Escape(argument, 0)
    {
      var character := argument[i];
      assert argument[i..][0] == character && argument[i..][1..] == argument[i + 1..];
      EscapeUnfolds(argument[i..], backslashes);
      if character == BACKSLASH {
        backslashes := backslashes + 1;
      } else if character == QUOTE {
        result := result + Backslashes(backslashes * 2 + 1) + [QUOTE];
        backslashes := 0;
      } else {
        result := result + Backslashes(backslashes) + [character];
        backslashes := 0;
      }
      i := i + 1;
    }
    EscapeUnfolds(argument[i..], backslashes);
    result := result + Backslashes(backslashes * 2);
  }

  function Joined(arguments: seq<string>): (r: string) {
    if arguments == [] then ""
    else Joined(arguments[..|arguments| - 1]) + [' '] + Quoted(arguments[|arguments| - 1])
  }

  function CommandBuffer(program: string, arguments: seq<string>): (r: string) {
    Quoted(program) + Joined(arguments) + ['\0']
  }

  /** The command line built for the worker process. */
  method BuildCommandBuffer(program: string, arguments: seq<string>) returns (buffer: string)
    ensures buffer == CommandBuffer(program, arguments)
  {
    buffer := QuoteArgument(program);
    assert buffer + "" == buffer;
    var i := 0;
    while i < |arguments|
      invariant 0 <= i <= |arguments|
      invariant buffer == Quoted(program) + Joined(arguments[..i])
    {
      var next := QuoteArgument(arguments[i]);
      assert arguments[..i + 1][..i] == arguments[..i];
      buffer := buffer + [' '] + next;
      i := i + 1;
    }
    assert arguments[..i] == arguments;
    buffer := buffer + ['\0'];
  }

  // ----- one argument -----

  predicate AtEnd(rest: string) { rest == "" || Blank(rest[0]) }

  lemma {:induction false} LeadingIs(n: nat, t: string)
    requires t != "" ==> t[0] != BACKSLASH
    ensures Leading(Backslashes(n) + t) == n
  {
    var s := Backslashes(n) + t;
    assert forall i :: 0 <= i < n ==> s[i] == BACKSLASH;
    assert t != "" ==> s[n] == t[0];
    var k := Leading(s);
    assert k >= n;
  }

  lemma ParseEnd(rest: string)
    requires AtEnd(rest)
    ensures ParseArgument(rest, false) == ("", rest)
  {
  }

  /** The closing quote, after doubled backslashes, ends the argument. */
  lemma {:induction false} ParseClosing(n: nat, rest: string)
    requires AtEnd(rest)
    ensures ParseArgument(Backslashes(2 * n) + [QUOTE] + rest, true) == (Backslashes(n), rest)
  {
    hide Leading, ParseArgument;
    var k := 2 * n;
    var s := Backslashes(k) + ([QUOTE] + rest);
    LeadingIs(k, [QUOTE] + rest);
    assert s[k] == QUOTE && s[k + 1..] == rest && k / 2 == n && k % 2 == 0;
    ParseEnd(rest);
    assert Backslashes(n) + "" == Backslashes(n);
    EvenQuote(s);
    assert s == Backslashes(k) + [QUOTE] + rest;
  }

  lemma {:induction false} EvenQuote(s: string)
    requires Leading(s) < |s| && s[Leading(s)] == QUOTE && Leading(s) % 2 == 0
    requires Leading(s) + 1 < |s| ==> s[Leading(s) + 1] != QUOTE
    ensures var n := Leading(s);
            && ParseArgument(s, true).0 == Backslashes(n / 2) + ParseArgument(s[n + 1..], false).0
            && ParseArgument(s, true).1 == ParseArgument(s[n + 1..], false).1
  {
    hide Leading, Backslashes;
  }

  lemma {:induction false} ParseLiteralQuote(n: nat, t: string, a: string, rest: string)
    requires ParseArgument(t, true) == (a, rest)
    ensures ParseArgument(Backslashes(2 * n + 1) + [QUOTE] + t, true) == (Backslashes(n) + [QUOTE] + a, rest)
  {
    hide Leading, ParseArgument;
    var k := 2 * n + 1;
    var s := Backslashes(k) + ([QUOTE] + t);
    LeadingIs(k, [QUOTE] + t);
    assert s[k] == QUOTE && s[k + 1..] == t && k / 2 == n && k % 2 == 1;
    OddQuote(s);
    assert s == Backslashes(k) + [QUOTE] + t;
  }

  lemma {:induction false} OddQuote(s: string)
    requires Leading(s) < |s| && s[Leading(s)] == QUOTE && Leading(s) % 2 == 1
    ensures var n := Leading(s);
            && ParseArgument(s, true).0 == Backslashes(n / 2) + [QUOTE] + ParseArgument(s[n + 1..], true).0
            && ParseArgument(s, true).1 == ParseArgument(s[n + 1..], true).1
  {
    hide Leading, Backslashes;
  }

  /** Backslashes that no quote follows are literal. */
  lemma {:induction false} ParseBackslashes(n: nat, t: string)
    requires t != "" && t[0] != BACKSLASH && t[0] != QUOTE
    ensures ParseArgument(Backslashes(n) + t, true)
         == (Backslashes(n) + ParseArgument(t, true).0, ParseArgument(t, true).1)
  {
    var s := Backslashes(n) + t;
    LeadingIs(n, t);
    assert s[n..] == t && s[n] == t[0];
    if n == 0 {
      assert s == t;
      assert Backslashes(0) + ParseArgument(t, true).0 == ParseArgument(t, true).0;
    }
  }

  lemma {:induction false} ParseCharacter(c: char, t: string, a: string, rest: string)
    requires c != QUOTE && c != BACKSLASH && ParseArgument(t, true) == (a, rest)
    ensures ParseArgument([c] + t, true) == ([c] + a, rest)
  {
    var s := [c] + t;
    assert s[0] == c && s[1..] == t && Leading(s) == 0;
  }

  lemma {:induction false} EscapeUnfolds(s: string, n: nat)
    ensures s == "" ==> Escape(s, n) == Backslashes(2 * n)
    ensures s != "" && s[0] == BACKSLASH ==> Escape(s, n) == Escape(s[1..], n + 1)
    ensures s != "" && s[0] == QUOTE ==> Escape(s, n) == Backslashes(2 * n + 1) + [QUOTE] + Escape(s[1..], 0)
    ensures s != "" && s[0] != BACKSLASH && s[0] != QUOTE ==>
              Escape(s, n) == Backslashes(n) + [s[0]] + Escape(s[1..], 0)
  {
  }

  /** An escaped quote in front of text that is read back. */
  lemma {:induction false} ParseEscapedQuote(s: string, n: nat, rest: string)
    requires s != "" && s[0] == QUOTE
    requires ParseArgument(Escape(s[1..], 0) + [QUOTE] + rest, true) == (s[1..], rest)
    ensures ParseArgument(Escape(s, n) + [QUOTE] + rest, true) == (Backslashes(n) + s, rest)
  {
    hide ParseArgument, Escape, Leading, Backslashes;
    EscapeUnfolds(s, n);
    var t := Escape(s[1..], 0) + [QUOTE] + rest;
    ParseLiteralQuote(n, t, s[1..], rest);
    assert Escape(s, n) + [QUOTE] + rest == Backslashes(2 * n + 1) + [QUOTE] + t;
    assert Backslashes(n) + [QUOTE] + s[1..] == Backslashes(n) + s;
  }

  /** An ordinary character in front of text that is read back. */
  lemma {:induction false} ParseEscapedCharacter(s: string, n: nat, rest: string)
    requires s != "" && s[0] != QUOTE && s[0] != BACKSLASH
    requires ParseArgument(Escape(s[1..], 0) + [QUOTE] + rest, true) == (s[1..], rest)
    ensures ParseArgument(Escape(s, n) + [QUOTE] + rest, true) == (Backslashes(n) + s, rest)
  {
    hide ParseArgument, Escape, Leading, Backslashes;
    EscapeUnfolds(s, n);
    var t := Escape(s[1..], 0) + [QUOTE] + rest;
    ParseCharacter(s[0], t, s[1..], rest);
    ParseBackslashes(n, [s[0]] + t);
    assert Escape(s, n) + [QUOTE] + rest == Backslashes(n) + ([s[0]] + t);
    assert [s[0]] + s[1..] == s;
  }

  /** What was escaped is read back, up to the closing quote. */
  lemma {:induction false} ParseEscaped(s: string, n: nat, rest: string)
    requires AtEnd(rest)
    ensures ParseArgument(Escape(s, n) + [QUOTE] + rest, true) == (Backslashes(n) + s, rest)
    decreases |s|
  {
    hide ParseArgument, Escape, Leading;
    if s == "" {
      EscapeUnfolds(s, n);
      ParseClosing(n, rest);
      assert Backslashes(n) + "" == Backslashes(n);
    } else if s[0] == BACKSLASH {
      EscapeUnfolds(s, n);
      ParseEscaped(s[1..], n + 1, rest);
      assert Backslashes(n + 1) + s[1..] == Backslashes(n) + s;
    } else {
      ParseEscaped(s[1..], 0, rest);
      assert Backslashes(0) + s[1..] == s[1..];
      if s[0] == QUOTE {
        ParseEscapedQuote(s, n, rest);
      } else {
        ParseEscapedCharacter(s, n, rest);
      }
    }
  }

  /** Outside quotes a run of `k` characters that neither end nor quote anything is copied. */
  lemma {:induction false} ParsePlainStep(s: string)
    requires s != "" && !Blank(s[0]) && (Leading(s) < |s| ==> s[Leading(s)] != QUOTE)
    ensures var k := if Leading(s) == 0 then 1 else Leading(s);
            ParseArgument(s, false) == (s[..k] + ParseArgument(s[k..], false).0, ParseArgument(s[k..], false).1)
  {
    assert Backslashes(Leading(s)) == s[..Leading(s)];
    assert [s[0]] == s[..1];
  }

  /** An argument without blanks and quotes is read back as it is. */
  lemma {:induction false} ParsePlain(s: string, rest: string)
    requires AtEnd(rest) && forall i :: 0 <= i < |s| ==> !Blank(s[i]) && s[i] != QUOTE
    ensures ParseArgument(s + rest, false) == (s, rest)
    decreases |s|
  {
    hide ParseArgument;
    var all := s + rest;
    if s == "" {
      assert all == rest;
      ParseEnd(rest);
    } else {
      var n := Leading(all);
      assert rest != "" ==> all[|s|] == rest[0];
      assert n <= |s|;
      ParsePlainStep(all);
      var k := if n == 0 then 1 else n;
      assert all[k..] == s[k..] + rest && all[..k] == s[..k];
      ParsePlain(s[k..], rest);
      assert s == s[..k] + s[k..];
    }
  }

  lemma {:induction false} ParseOpening(t: string, a: string, rest: string)
    requires ParseArgument(t, true) == (a, rest)
    ensures ParseArgument([QUOTE] + t, false) == (a, rest)
  {
    LeadingIs(0, [QUOTE] + t);
    assert Backslashes(0) + ([QUOTE] + t) == [QUOTE] + t;
    assert ([QUOTE] + t)[1..] == t;
    assert Backslashes(0) + a == a;
  }

  /** Quoting is undone by parsing, for every argument. */
  lemma QuotingRoundTrips(s: string, rest: string)
    requires AtEnd(rest)
    ensures ParseArgument(Quoted(s) + rest, false) == (s, rest)
  {
    hide ParseArgument, Escape;
    if NeedsQuotes(s) {
      ParseEscaped(s, 0, rest);
      var t := Escape(s, 0) + [QUOTE] + rest;
      assert Backslashes(0) + s == s;
      ParseOpening(t, s, rest);
      assert Quoted(s) + rest == [QUOTE] + t;
    } else {
      ParsePlain(s, rest);
    }
  }

  // ----- argument lists -----

  lemma {:induction false} JoinedFront(a: string, arguments: seq<string>)
    ensures Joined([a] + arguments) == [' '] + Quoted(a) + Joined(arguments)
    decreases |arguments|
  {
    hide Quoted;
    if arguments == [] {
      assert [a] + arguments == [a] && [a][..0] == [];
      assert Joined([]) == "";
    } else {
      var n := |arguments| - 1;
      assert ([a] + arguments)[..n + 1] == [a] + arguments[..n];
      JoinedFront(a, arguments[..n]);
    }
  }

  lemma QuotedStart(a: string)
    ensures Quoted(a) != "" && !Blank(Quoted(a)[0])
  {
  }

  lemma {:induction false} ParseJoined(arguments: seq<string>)
    ensures ParseArguments(Joined(arguments)) == arguments
    ensures AtEnd(Joined(arguments))
  {
    hide Quoted, ParseArgument, Joined;
    if arguments == [] {
      NothingJoined();
    } else {
      var a, others := arguments[0], arguments[1..];
      assert arguments == [a] + others;
      ParseJoined(others);
      JoinedFront(a, others);
      var s, t := Joined(arguments), Quoted(a) + Joined(others);
      assert s == [' '] + t && s[1..] == t;
      QuotedStart(a);
      assert SkipBlanks(t) == t;
      assert SkipBlanks(s) == t;
      QuotingRoundTrips(a, Joined(others));
    }
  }

  lemma NothingJoined()
    ensures Joined([]) == ""
  {
  }

  // ----- the program name -----

  /** The paths whose quoting survives the program-name rule. */
  predicate PlainProgram(s: string) {
    && QUOTE !in s
    && ((exists i :: 0 <= i < |s| && Blank(s[i])) ==> s[|s| - 1] != BACKSLASH)
  }

  /** Inside quotes everything but a quote is literal. */
  lemma {:induction false} ParseProgramInside(s: string, rest: string)
    requires QUOTE !in s && AtEnd(rest)
    ensures ParseProgram(s + [QUOTE] + rest, true) == (s, rest)
  {
    if s == "" {
      assert s + [QUOTE] + rest == [QUOTE] + rest;
      assert ([QUOTE] + rest)[1..] == rest;
    } else {
      ParseProgramInside(s[1..], rest);
      assert (s + [QUOTE] + rest)[1..] == s[1..] + [QUOTE] + rest;
      assert [s[0]] + s[1..] == s;
    }
  }

  lemma {:induction false} ParseProgramPlain(s: string, rest: string)
    requires AtEnd(rest) && forall i :: 0 <= i < |s| ==> !Blank(s[i]) && s[i] != QUOTE
    ensures ParseProgram(s + rest, false) == (s, rest)
  {
    if s == "" {
      assert s + rest == rest;
    } else {
      ParseProgramPlain(s[1..], rest);
      assert (s + rest)[1..] == s[1..] + rest;
      assert [s[0]] + s[1..] == s;
    }
  }

  /** The backslashes at the end. */
  function Trailing(s: string): (n: nat)
    ensures n <= |s|
    ensures n > 0 <==> s != "" && s[|s| - 1] == BACKSLASH
  {
    if s == "" || s[|s| - 1] != BACKSLASH then 0 else 1 + Trailing(s[..|s| - 1])
  }

  /** Without quotes in it, an escaped string only doubles its trailing backslashes. */
  lemma {:induction false} EscapeWithoutQuotes(s: string, n: nat)
    requires QUOTE !in s
    ensures Escape(s, n) == Backslashes(n) + s + Backslashes(Trailing(Backslashes(n) + s))
    decreases |s|
  {
    var whole := Backslashes(n) + s;
    if s == "" {
      assert whole == Backslashes(n);
      TrailingAll(n);
      assert Backslashes(2 * n) == Backslashes(n) + Backslashes(n);
    } else if s[0] == BACKSLASH {
      EscapeWithoutQuotes(s[1..], n + 1);
      assert Backslashes(n + 1) + s[1..] == whole;
    } else {
      EscapeWithoutQuotes(s[1..], 0);
      assert Backslashes(0) + s[1..] == s[1..];
      assert whole == (Backslashes(n) + [s[0]]) + s[1..];
      TrailingSuffix(Backslashes(n) + [s[0]], s[1..]);
      assert Backslashes(n) + [s[0]] + (s[1..] + Backslashes(Trailing(s[1..])))
          == whole + Backslashes(Trailing(s[1..]));
    }
  }

  lemma {:induction false} TrailingAll(n: nat)
    ensures Trailing(Backslashes(n)) == n
  {
    if n > 0 {
      TrailingAll(n - 1);
      assert Backslashes(n)[..n - 1] == Backslashes(n - 1);
    }
  }

  lemma {:induction false} TrailingSuffix(front: string, s: string)
    requires front != "" && front[|front| - 1] != BACKSLASH
    ensures Trailing(front + s) == Trailing(s)
    decreases |s|
  {
    if s == "" {
      assert front + s == front;
    } else {
      TrailingSuffix(front, s[..|s| - 1]);
      assert (front + s)[..|front + s| - 1] == front + s[..|s| - 1];
    }
  }

  lemma {:induction false} ParseProgramOpening(t: string)
    ensures ParseProgram([QUOTE] + t, false) == ParseProgram(t, true)
  {
    assert ([QUOTE] + t)[1..] == t;
  }

  lemma {:induction false} QuotedWithoutQuotes(s: string)
    requires QUOTE !in s && NeedsQuotes(s)
    ensures Quoted(s) == [QUOTE] + (s + Backslashes(Trailing(s))) + [QUOTE]
  {
    hide Escape, Trailing, Backslashes, NeedsQuotes;
    EscapeWithoutQuotes(s, 0);
    assert Backslashes(0) + s == s;
  }

  lemma ProgramQuoted(inside: string, rest: string)
    requires QUOTE !in inside && AtEnd(rest)
    ensures ParseProgram([QUOTE] + inside + [QUOTE] + rest, false) == (inside, rest)
  {
    hide ParseProgram;
    ParseProgramInside(inside, rest);
    ParseProgramOpening(inside + [QUOTE] + rest);
    assert [QUOTE] + inside + [QUOTE] + rest == [QUOTE] + (inside + [QUOTE] + rest);
  }

  /** What the program-name rule makes of a quoted path without quotes in it. */
  lemma {:induction false} ProgramIsRead(s: string, rest: string)
    requires QUOTE !in s && AtEnd(rest)
    ensures ParseProgram(Quoted(s) + rest, false)
         == (if NeedsQuotes(s) then s + Backslashes(Trailing(s)) else s, rest)
  {
    hide ParseProgram, Trailing, Escape;
    if NeedsQuotes(s) {
      hide Quoted;
      QuotedWithoutQuotes(s);
      ProgramQuoted(s + Backslashes(Trailing(s)), rest);
    } else {
      ParseProgramPlain(s, rest);
    }
  }

  // ----- the whole command line -----

  predicate NulFree(s: string) { '\0' !in s }

  lemma {:induction false} CStringStops(s: string)
    requires NulFree(s)
    ensures CString(s + ['\0']) == s
  {
    if s != "" {
      CStringStops(s[1..]);
      assert (s + ['\0'])[1..] == s[1..] + ['\0'];
    }
  }

  lemma {:induction false} EscapeNulFree(s: string, n: nat)
    requires NulFree(s)
    ensures NulFree(Escape(s, n))
    decreases |s|
  {
    if s != "" {
      EscapeNulFree(s[1..], if s[0] == BACKSLASH then n + 1 else 0);
    }
  }

  lemma {:induction false} JoinedNulFree(arguments: seq<string>)
    requires forall i :: 0 <= i < |arguments| ==> NulFree(arguments[i])
    ensures NulFree(Joined(arguments))
  {
    if arguments != [] {
      var n := |arguments| - 1;
      JoinedNulFree(arguments[..n]);
      EscapeNulFree(arguments[n], 0);
    }
  }

  /** The worker sees exactly the configured arguments, whatever they contain; it also sees the
      configured program name exactly when that name has no quote in it and, if it needs quoting,
      does not end in a backslash. */
  lemma CommandLineRoundTrips(program: string, arguments: seq<string>)
    requires NulFree(program) && forall i :: 0 <= i < |arguments| ==> NulFree(arguments[i])
    ensures ParseCommandLine(CommandBuffer(program, arguments)) == [program] + arguments <==> PlainProgram(program)
    ensures QUOTE !in program ==> ParseCommandLine(CommandBuffer(program, arguments))[1..] == arguments
  {
    hide Quoted, ParseArgument, Joined, Escape, ParseProgram, ParseArguments;
    var line := Quoted(program) + Joined(arguments);
    QuotedNulFree(program);
    JoinedNulFree(arguments);
    CStringStops(line);
    ParseJoined(arguments);
    var (name, rest) := ParseProgram(line, false);
    assert ParseCommandLine(CommandBuffer(program, arguments)) == [name] + ParseArguments(rest);
    assert ([name] + ParseArguments(rest))[0] == name && ([program] + arguments)[0] == program;
    if QUOTE in program {
      assert name != program;
    } else {
      ProgramIsRead(program, Joined(arguments));
      assert NeedsQuotes(program) && Trailing(program) > 0 ==> |name| > |program|;
      assert NeedsQuotes(program) && Trailing(program) == 0 ==> name == program;
    }
  }

  lemma QuotedNulFree(s: string)
    requires NulFree(s)
    ensures NulFree(Quoted(s))
  {
    EscapeNulFree(s, 0);
  }

  /** A directory path with a blank in it is misread: its last backslash arrives doubled. */
  lemma QuotedDirectoryIsMisread()
    ensures ParseCommandLine(CommandBuffer("C:\\a b\\", []))[0] == "C:\\a b\\\\"
  {
    hide Quoted, ParseArguments, ParseProgram;
    var program := "C:\\a b\\";
    NothingJoined();
    QuotedNulFree(program);
    CStringStops(Quoted(program));
    assert Quoted(program) + "" == Quoted(program);
    ProgramIsRead(program, "");
    assert Blank(program[4]);
    assert program[..6] == "C:\\a b";
    assert Trailing(program[..6]) == 0;
    assert Trailing(program) == 1;
    assert program + Backslashes(1) == "C:\\a b\\\\";
  }

  // ----- the documented rules, one by one -----

  /** "Arguments are delimited by white space, which is either a space or a tab", unless quoted. */
  lemma {:induction false} RuleWhiteSpace(t: string, quoted: bool)
    ensures ParseArgument([' '] + t, false) == ("", [' '] + t) && ParseArgument(['\t'] + t, false) == ("", ['\t'] + t)
    ensures ParseArgument([' '] + t, true) == ([' '] + ParseArgument(t, true).0, ParseArgument(t, true).1)
    ensures ParseArgument(['\t'] + t, true) == (['\t'] + ParseArgument(t, true).0, ParseArgument(t, true).1)
    ensures SkipBlanks([' '] + t) == SkipBlanks(t) && SkipBlanks(['\t'] + t) == SkipBlanks(t)
  {
    assert ([' '] + t)[1..] == t && (['\t'] + t)[1..] == t;
    assert Leading([' '] + t) == 0 && Leading(['\t'] + t) == 0;
  }

  /** Any other character stands for itself. */
  lemma {:induction false} RuleCharacter(c: char, t: string, quoted: bool)
    requires c != ' ' && c != '\t' && c != '\"' && c != '\\'
    ensures ParseArgument([c] + t, quoted) == ([c] + ParseArgument(t, quoted).0, ParseArgument(t, quoted).1)
  {
    assert ([c] + t)[1..] == t && Leading([c] + t) == 0;
  }

  /** Backslashes are literal unless they immediately precede a quotation mark. */
  lemma {:induction false} RuleBackslashes(n: nat, t: string, quoted: bool)
    requires t == "" || (t[0] != '\\' && t[0] != '\"')
    ensures ParseArgument(Backslashes(n) + t, quoted)
         == (Backslashes(n) + ParseArgument(t, quoted).0, ParseArgument(t, quoted).1)
  {
    var s := Backslashes(n) + t;
    LeadingIs(n, t);
    assert s[n..] == t && (t != "" ==> s[n] == t[0]);
    if n == 0 {
      assert s == t;
      assert Backslashes(0) + ParseArgument(t, quoted).0 == ParseArgument(t, quoted).0;
    }
  }

  /** An odd number of backslashes before a quotation mark: half of them, and a literal mark. */
  lemma {:induction false} RuleOdd(n: nat, t: string, quoted: bool)
    ensures ParseArgument(Backslashes(2 * n + 1) + (['\"'] + t), quoted)
         == (Backslashes(n) + ['\"'] + ParseArgument(t, quoted).0, ParseArgument(t, quoted).1)
  {
    hide Leading;
    var k, s := 2 * n + 1, Backslashes(2 * n + 1) + (['\"'] + t);
    LeadingIs(k, ['\"'] + t);
    assert s[k] == QUOTE && s[k + 1..] == t && k / 2 == n && k % 2 == 1;
  }

  /** An even number of backslashes before a quotation mark: half of them, and the mark is a delimiter,
      except that two marks in a row inside quotes are one literal mark. */
  lemma {:induction false} RuleEven(n: nat, t: string, quoted: bool)
    ensures !(quoted && t != "" && t[0] == '\"') ==>
              ParseArgument(Backslashes(2 * n) + (['\"'] + t), quoted)
              == (Backslashes(n) + ParseArgument(t, !quoted).0, ParseArgument(t, !quoted).1)
    ensures quoted && t != "" && t[0] == '\"' ==>
              ParseArgument(Backslashes(2 * n) + (['\"'] + t), quoted)
              == (Backslashes(n) + ['\"'] + ParseArgument(t[1..], true).0, ParseArgument(t[1..], true).1)
  {
    hide Leading;
    var k, s := 2 * n, Backslashes(2 * n) + (['\"'] + t);
    LeadingIs(k, ['\"'] + t);
    assert s[k] == QUOTE && s[k + 1..] == t && k / 2 == n && k % 2 == 0;
    assert t != "" ==> s[k + 1] == t[0] && s[k + 2..] == t[1..];
  }

  /** In the program name a quotation mark switches quoting and is dropped, a blank ends the name outside
      quotes, and every other character, backslashes included, stands for itself. */
  lemma {:induction false} RuleProgram(c: char, t: string, quoted: bool)
    ensures ParseProgram(['\"'] + t, quoted) == ParseProgram(t, !quoted)
    ensures !quoted && (c == ' ' || c == '\t') ==> ParseProgram([c] + t, quoted) == ("", [c] + t)
    ensures c != '\"' && (quoted || (c != ' ' && c != '\t')) ==>
              ParseProgram([c] + t, quoted) == ([c] + ParseProgram(t, quoted).0, ParseProgram(t, quoted).1)
  {
    assert (['\"'] + t)[1..] == t && ([c] + t)[1..] == t;
  }
}
