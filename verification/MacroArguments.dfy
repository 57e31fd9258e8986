/** Parenthesised macro arguments: splitting at the commas no bracket or string encloses. */
module MacroArguments {
  import opened Options

  /** Open parentheses, braces and brackets, and whether a string is open. */
  datatype Nesting = Nesting(parens: nat, braces: nat, brackets: nat, inString: bool)

  const OUTSIDE := Nesting(0, 0, 0, false)

  datatype Action = Keep(nesting: Nesting) | Split | Stop

  function Pred(n: nat): nat { if n == 0 then 0 else n - 1 }

  /** What one character does; a quote right after a backslash is an ordinary character. */
  function Classify(n: Nesting, ch: char, escaped: bool): Action {
    if ch == '"' && !escaped then Keep(n.(inString := !n.inString))
    else if n.inString then Keep(n)
    else if ch == '(' then Keep(n.(parens := n.parens + 1))
    else if ch == ')' && n.parens > 0 then Keep(n.(parens := n.parens - 1))
    else if ch == ')' && n == OUTSIDE then Stop
    else if ch == '{' then Keep(n.(braces := n.braces + 1))
    else if ch == '}' then Keep(n.(braces := Pred(n.braces)))
    else if ch == '[' then Keep(n.(brackets := n.brackets + 1))
    else if ch == ']' then Keep(n.(brackets := Pred(n.brackets)))
    else if ch == ',' && n == OUTSIDE then Split
    else Keep(n)
  }

  predicate IsSpace(c: char) { c in {' ', '\t', '\n', '\r', '\U{000B}', '\U{000C}'} }

  /** Space is the blank and the control characters from tab to carriage return. */
  lemma SpaceCharacters(c: char)
    ensures IsSpace(c) <==> c as int == 32 || 9 <= c as int <= 13
  {
  }

  function StripLeft(s: string): string {
    if s != "" && IsSpace(s[0]) then StripLeft(s[1..]) else s
  }

  function StripRight(s: string): string {
    if s != "" && IsSpace(s[|s| - 1]) then StripRight(s[..|s| - 1]) else s
  }

  function Strip(s: string): string { StripRight(StripLeft(s)) }

  predicate AllSpace(s: string) { forall i :: 0 <= i < |s| ==> IsSpace(s[i]) }

  lemma {:induction false} LeftSpace(s: string) returns (left: string)
    ensures s == left + StripLeft(s) && AllSpace(left)
    ensures StripLeft(s) == "" || !IsSpace(StripLeft(s)[0])
  {
    if s != "" && IsSpace(s[0]) {
      left := LeftSpace(s[1..]);
      left := [s[0]] + left;
    } else {
      left := "";
    }
  }

  lemma {:induction false} RightSpace(s: string) returns (right: string)
    ensures s == StripRight(s) + right && AllSpace(right)
    ensures StripRight(s) == "" || !IsSpace(StripRight(s)[|StripRight(s)| - 1])
  {
    if s != "" && IsSpace(s[|s| - 1]) {
      right := RightSpace(s[..|s| - 1]);
      right := right + [s[|s| - 1]];
    } else {
      right := "";
    }
  }

  /** Stripping removes the surrounding spaces, all of them, and nothing else. */
  lemma StripExactly(s: string) returns (left: string, right: string)
    ensures s == left + Strip(s) + right && AllSpace(left) && AllSpace(right)
    ensures Strip(s) == "" || (!IsSpace(Strip(s)[0]) && !IsSpace(Strip(s)[|Strip(s)| - 1]))
  {
    left := LeftSpace(s);
    right := RightSpace(StripLeft(s));
  }

  /** The arguments and the index just past the closing parenthesis, or the end of an unclosed text. */
  datatype Parsed = Parsed(args: seq<string>, end: nat)

  function ParseFrom(text: string, i: nat, n: Nesting, current: string, args: seq<string>): Parsed
    requires 0 < i <= |text|
    decreases |text| - i
  {
    if i == |text| then Parsed(args + [Strip(current)], i) else
    match Classify(n, text[i], text[i - 1] == '\\')
    case Stop => Parsed(args + [Strip(current)], i + 1)
    case Split => ParseFrom(text, i + 1, n, "", args + [Strip(current)])
    case Keep(n') => ParseFrom(text, i + 1, n', current + [text[i]], args)
  }

  function ParseArgs(text: string, start: nat): Parsed
    requires start < |text|
  {
    ParseFrom(text, start + 1, OUTSIDE, "", [])
  }

  /** None when the text does not start with a parenthesis there. */
  method ParseMacroArgs(text: string, start: nat) returns (r: Option<Parsed>)
    requires start < |text|
    ensures r == if text[start] == '(' then Some(ParseArgs(text, start)) else None
  {
    if text[start] != '(' { return None; }
    var depth, braceDepth, bracketDepth, inString := 0, 0, 0, false;
    var args: seq<string>, current: string := [], "";
    var i := start + 1;
    while i < |text|
      invariant start < i <= |text| && depth >= 0 && braceDepth >= 0 && bracketDepth >= 0
      invariant ParseFrom(text, i, Nesting(depth, braceDepth, bracketDepth, inString), current, args)
             == ParseArgs(text, start)
    {
      var ch := text[i];
      if ch == '"' && text[i - 1] != '\\' {
        inString := !inString;
        current := current + [ch];
      } else if inString {
        current := current + [ch];
      } else if ch == '(' {
        depth := depth + 1;
        current := current + [ch];
      } else if ch == ')' && depth > 0 {
        depth := depth - 1;
        current := current + [ch];
      } else if ch == ')' && depth == 0 && braceDepth == 0 && bracketDepth == 0 {
        args := args + [Strip(current)];
        return Some(Parsed(args, i + 1));
      } else if ch == '{' {
        braceDepth := braceDepth + 1;
        current := current + [ch];
      } else if ch == '}' {
        braceDepth := if braceDepth - 1 < 0 then 0 else braceDepth - 1;
        current := current + [ch];
      } else if ch == '[' {
        bracketDepth := bracketDepth + 1;
        current := current + [ch];
      } else if ch == ']' {
        bracketDepth := if bracketDepth - 1 < 0 then 0 else bracketDepth - 1;
        current := current + [ch];
      } else if ch == ',' && depth == 0 && braceDepth == 0 && bracketDepth == 0 {
        args := args + [Strip(current)];
        current := "";
      } else {
        current := current + [ch];
      }
      i := i + 1;
    }
    args := args + [Strip(current)];
    r := Some(Parsed(args, i));
  }

  // ---------------------------------------------------------------- arguments that stand alone

  /** A quote that no backslash stands right before. */
  predicate Quotes(s: string, i: nat)
    requires i < |s|
  {
    s[i] == '"' && (i == 0 || s[i - 1] != '\\')
  }

  /** How many such quotes there are among the first n characters. */
  function QuoteCount(s: string, n: nat): nat
    requires n <= |s|
  {
    if n == 0 then 0 else QuoteCount(s, n - 1) + if Quotes(s, n - 1) then 1 else 0
  }

  predicate InString(s: string, n: nat)
    requires n <= |s|
  {
    QuoteCount(s, n) % 2 == 1
  }

  /** A character outside strings. */
  predicate Stands(s: string, i: nat, c: char)
    requires i < |s|
  {
    s[i] == c && !InString(s, i)
  }

  /** How many more brackets of a kind are opened than closed among the first n characters, strings aside. */
  function Opened(s: string, n: nat, open: char, close: char): int
    requires n <= |s|
  {
    if n == 0 then 0
    else
      Opened(s, n - 1, open, close)
      + (if Stands(s, n - 1, open) then 1 else if Stands(s, n - 1, close) then -1 else 0)
  }

  /** Some bracket of a kind is open: from some place on more were opened than closed. (A closing bracket with nothing
      to close is an ordinary character.) */
  ghost predicate Unclosed(s: string, n: nat, open: char, close: char)
    requires n <= |s|
  {
    exists j :: 0 <= j <= n && Opened(s, j, open, close) < Opened(s, n, open, close)
  }

  ghost predicate AnyUnclosed(s: string, n: nat)
    requires n <= |s|
  {
    Unclosed(s, n, '(', ')') || Unclosed(s, n, '{', '}') || Unclosed(s, n, '[', ']')
  }

  /** Where no count ever goes negative, brackets are open exactly where it is positive. */
  lemma CountedIsUnclosed(s: string, n: nat, open: char, close: char)
    requires n <= |s| && forall j :: 0 <= j <= n ==> Opened(s, j, open, close) >= 0
    ensures Unclosed(s, n, open, close) <==> Opened(s, n, open, close) > 0
  {
    if Opened(s, n, open, close) > 0 { assert Opened(s, 0, open, close) == 0; }
  }

  /** Every string and bracket is closed, commas and closing parentheses stand only where a bracket is open, and there
      is no surrounding space. */
  ghost predicate StandsAlone(s: string) {
    && !InString(s, |s|) && !AnyUnclosed(s, |s|)
    && (forall i :: 0 <= i < |s| && (Stands(s, i, ',') || Stands(s, i, ')')) ==> AnyUnclosed(s, i))
    && (s != "" ==> !IsSpace(s[0]) && !IsSpace(s[|s| - 1]))
  }

  /** A scan's counter of one kind: the largest number opened and not closed from any place on. */
  ghost predicate Counts(s: string, n: nat, open: char, close: char, depth: nat)
    requires n <= |s|
  {
    && (forall j :: 0 <= j <= n ==> Opened(s, n, open, close) - Opened(s, j, open, close) <= depth)
    && exists j :: 0 <= j <= n && Opened(s, n, open, close) - Opened(s, j, open, close) == depth
  }

  lemma CountsDecide(s: string, n: nat, open: char, close: char, depth: nat)
    requires n <= |s| && Counts(s, n, open, close, depth)
    ensures Unclosed(s, n, open, close) <==> depth > 0
  {
  }

  lemma CountsStep(s: string, n: nat, open: char, close: char, depth: nat)
    requires n < |s| && Counts(s, n, open, close, depth) && open != close
    ensures Counts(s, n + 1, open, close,
                   if Stands(s, n, open) then depth + 1 else if Stands(s, n, close) then Pred(depth) else depth)
  {
    var before, after := Opened(s, n, open, close), Opened(s, n + 1, open, close);
    var j :| 0 <= j <= n && before - Opened(s, j, open, close) == depth;
    if Stands(s, n, close) && depth == 0 {
      assert after - Opened(s, n + 1, open, close) == 0;
    } else {
      assert 0 <= j <= n + 1;
    }
  }

  /** The nesting counts all three kinds and knows whether a string is open. */
  ghost predicate Tracks(s: string, n: nat, nesting: Nesting)
    requires n <= |s|
  {
    && Counts(s, n, '(', ')', nesting.parens) && Counts(s, n, '{', '}', nesting.braces)
    && Counts(s, n, '[', ']', nesting.brackets) && nesting.inString == InString(s, n)
  }

  lemma TracksFromOutside(s: string)
    ensures Tracks(s, 0, OUTSIDE)
  {
    assert forall open, close :: Opened(s, 0, open, close) == 0;
  }

  lemma TracksDecide(s: string, n: nat, nesting: Nesting)
    requires n <= |s| && Tracks(s, n, nesting)
    ensures nesting == OUTSIDE <==> !AnyUnclosed(s, n) && !InString(s, n)
  {
    CountsDecide(s, n, '(', ')', nesting.parens);
    CountsDecide(s, n, '{', '}', nesting.braces);
    CountsDecide(s, n, '[', ']', nesting.brackets);
  }

  /** The scan goes on over a character unless it is a comma or closing parenthesis where nothing is open, and goes on
      tracking. */
  lemma ScanStep(s: string, n: nat, nesting: Nesting)
    requires n < |s| && Tracks(s, n, nesting)
    ensures var act := Classify(nesting, s[n], n > 0 && s[n - 1] == '\\');
            && (act == Split <==> Stands(s, n, ',') && !AnyUnclosed(s, n))
            && (act == Stop <==> Stands(s, n, ')') && !AnyUnclosed(s, n))
            && (act.Keep? ==> Tracks(s, n + 1, act.nesting))
  {
    TracksDecide(s, n, nesting);
    CountsStep(s, n, '(', ')', nesting.parens);
    CountsStep(s, n, '{', '}', nesting.braces);
    CountsStep(s, n, '[', ']', nesting.brackets);
    assert InString(s, n + 1) == (InString(s, n) != Quotes(s, n));
  }

  // ---------------------------------------------------------------- printing and parsing back

  function Joined(args: seq<string>): string {
    if args == [] then "" else if |args| == 1 then args[0] else args[0] + "," + Joined(args[1..])
  }

  function Print(args: seq<string>): string { "(" + Joined(args) + ")" }

  /** The nesting after a text none of whose characters splits or closes; None if one does. */
  function Through(s: string, n: Nesting, escaped: bool): Option<Nesting> {
    if s == "" then Some(n) else
    match Classify(n, s[0], escaped)
    case Keep(n') => Through(s[1..], n', s[0] == '\\')
    case _ => None
  }

  /** No comma or closing parenthesis outside brackets and strings, everything opened is closed, and no
      surrounding space. */
  predicate SelfContained(arg: string) {
    Through(arg, OUTSIDE, false) == Some(OUTSIDE) && Strip(arg) == arg
  }

  /** Scanning from position n of an argument on. */
  lemma {:induction false} ThroughTracks(s: string, n: nat, nesting: Nesting)
    requires n <= |s| && Tracks(s, n, nesting)
    ensures Through(s[n..], nesting, n > 0 && s[n - 1] == '\\') == Some(OUTSIDE)
       <==> && !InString(s, |s|) && !AnyUnclosed(s, |s|)
            && forall i :: n <= i < |s| && (Stands(s, i, ',') || Stands(s, i, ')')) ==> AnyUnclosed(s, i)
    decreases |s| - n
  {
    if n == |s| {
      assert s[n..] == "";
      TracksDecide(s, n, nesting);
    } else {
      ScanStep(s, n, nesting);
      assert s[n..][0] == s[n] && s[n..][1..] == s[n + 1..];
      var act := Classify(nesting, s[n], n > 0 && s[n - 1] == '\\');
      if act.Keep? { ThroughTracks(s, n + 1, act.nesting); }
    }
  }

  lemma StripsNothingExactly(s: string)
    ensures Strip(s) == s <==> s == "" || (!IsSpace(s[0]) && !IsSpace(s[|s| - 1]))
  {
    var left, right := StripExactly(s);
  }

  /** What the scan leaves whole is what stands alone. */
  lemma SelfContainedExactly(s: string)
    ensures SelfContained(s) <==> StandsAlone(s)
  {
    TracksFromOutside(s);
    ThroughTracks(s, 0, OUTSIDE);
    assert s[0..] == s;
    StripsNothingExactly(s);
  }

  lemma {:induction false} ParseThrough(text: string, i: nat, s: string, n: Nesting, current: string, args: seq<string>)
    requires 0 < i && i + |s| <= |text| && text[i..i + |s|] == s
    requires Through(s, n, text[i - 1] == '\\').Some?
    ensures ParseFrom(text, i, n, current, args)
         == ParseFrom(text, i + |s|, Through(s, n, text[i - 1] == '\\').value, current + s, args)
    decreases |s|
  {
    if s == "" {
      assert current + s == current;
    } else {
      assert text[i] == s[0];
      assert text[i + 1..i + 1 + |s[1..]|] == s[1..];
      var n' := Classify(n, s[0], text[i - 1] == '\\').nesting;
      ParseThrough(text, i + 1, s[1..], n', current + [s[0]], args);
      assert current + [s[0]] + s[1..] == current + s;
    }
  }

  lemma {:induction false} ParseJoined(text: string, i: nat, todo: seq<string>, done: seq<string>)
    requires 0 < i && i + |Joined(todo)| < |text| && text[i - 1] != '\\' && todo != []
    requires text[i..i + |Joined(todo)|] == Joined(todo) && text[i + |Joined(todo)|] == ')'
    requires forall a :: a in todo ==> SelfContained(a)
    ensures ParseFrom(text, i, OUTSIDE, "", done) == Parsed(done + todo, i + |Joined(todo)| + 1)
    decreases |todo|
  {
    var a, j := todo[0], i + |todo[0]|;
    assert SelfContained(a);
    JoinedStartsWith(text, i, todo);
    ArgumentStands(text, i, a, done);
    ArgumentEnds(text, j, a, done);
    if |todo| == 1 {
      assert done + [Strip(a)] == done + todo;
    } else {
      ParseJoined(text, j + 1, todo[1..], done + [a]);
      assert done + [a] + todo[1..] == done + todo;
    }
  }

  lemma ArgumentStands(text: string, i: nat, a: string, done: seq<string>)
    requires 0 < i && i + |a| <= |text| && text[i..i + |a|] == a && text[i - 1] != '\\' && SelfContained(a)
    ensures ParseFrom(text, i, OUTSIDE, "", done) == ParseFrom(text, i + |a|, OUTSIDE, a, done)
  {
    ParseThrough(text, i, a, OUTSIDE, "", done);
    assert "" + a == a;
  }

  lemma ArgumentEnds(text: string, j: nat, a: string, done: seq<string>)
    requires 0 < j < |text|
    ensures text[j] == ')' ==> ParseFrom(text, j, OUTSIDE, a, done) == Parsed(done + [Strip(a)], j + 1)
    ensures text[j] == ',' ==>
              ParseFrom(text, j, OUTSIDE, a, done) == ParseFrom(text, j + 1, OUTSIDE, "", done + [Strip(a)])
  {
  }

  lemma JoinedStartsWith(text: string, i: nat, todo: seq<string>)
    requires todo != [] && i + |Joined(todo)| <= |text| && text[i..i + |Joined(todo)|] == Joined(todo)
    ensures |todo[0]| <= |Joined(todo)| && text[i..i + |todo[0]|] == todo[0]
    ensures |todo| > 1 ==>
              && |Joined(todo)| == |todo[0]| + 1 + |Joined(todo[1..])|
              && text[i + |todo[0]|] == ','
              && text[i + |todo[0]| + 1..i + |Joined(todo)|] == Joined(todo[1..])
  {
    var a, joined := todo[0], Joined(todo);
    assert joined[..|a|] == a;
    assert text[i..i + |a|] == text[i..i + |joined|][..|a|];
    if |todo| > 1 {
      assert joined[|a|] == ',' && joined[|a| + 1..] == Joined(todo[1..]);
      assert text[i + |a|] == text[i..i + |joined|][|a|];
      assert text[i + |a| + 1..i + |joined|] == text[i..i + |joined|][|a| + 1..];
    }
  }

  lemma PrintParses(args: seq<string>, suffix: string)
    requires args != [] && forall a :: a in args ==> StandsAlone(a)
    ensures ParseArgs(Print(args) + suffix, 0) == Parsed(args, |Print(args)|)
  {
    forall a | a in args ensures SelfContained(a) { SelfContainedExactly(a); }
    var text := Print(args) + suffix;
    assert text[1..1 + |Joined(args)|] == Joined(args);
    ParseJoined(text, 1, args, []);
    assert [] + args == args;
  }

  // ---------------------------------------------------------------- whatever is parsed is self-contained

  lemma {:induction false} ThroughAppend(s: string, c: char, n: Nesting, escaped: bool)
    ensures Through(s + [c], n, escaped)
         == if Through(s, n, escaped).None? then None
            else match Classify(Through(s, n, escaped).value, c, if s == "" then escaped else s[|s| - 1] == '\\')
                 case Keep(n') => Some(n')
                 case _ => None
  {
    if s == "" {
      assert s + [c] == [c] && [c][1..] == "";
    } else {
      assert (s + [c])[0] == s[0] && (s + [c])[1..] == s[1..] + [c];
      var act := Classify(n, s[0], escaped);
      if act.Keep? { ThroughAppend(s[1..], c, act.nesting, s[0] == '\\'); }
    }
  }

  lemma {:induction false} ThroughStripLeft(s: string)
    ensures Through(StripLeft(s), OUTSIDE, false) == Through(s, OUTSIDE, false)
  {
    if s != "" && IsSpace(s[0]) { ThroughStripLeft(s[1..]); }
  }

  lemma {:induction false} ThroughStripRight(s: string)
    requires Through(s, OUTSIDE, false) == Some(OUTSIDE)
    ensures Through(StripRight(s), OUTSIDE, false) == Some(OUTSIDE)
  {
    if s != "" && IsSpace(s[|s| - 1]) {
      var t := s[..|s| - 1];
      assert s == t + [s[|s| - 1]];
      ThroughAppend(t, s[|s| - 1], OUTSIDE, false);
      ThroughStripRight(t);
    }
  }

  lemma StripTwice(s: string)
    ensures Strip(Strip(s)) == Strip(s)
  {
    var left, right := StripExactly(s);
  }

  /** The scan comes to the closing parenthesis. */
  predicate Closes(text: string, i: nat, n: Nesting)
    requires 0 < i <= |text|
    decreases |text| - i
  {
    i < |text| &&
    match Classify(n, text[i], text[i - 1] == '\\')
    case Stop => true
    case Split => Closes(text, i + 1, n)
    case Keep(n') => Closes(text, i + 1, n')
  }

  lemma {:induction false} UnclosedReadsAll(text: string, i: nat, n: Nesting, current: string, args: seq<string>)
    requires 0 < i <= |text| && !Closes(text, i, n)
    ensures ParseFrom(text, i, n, current, args).end == |text|
    decreases |text| - i
  {
    if i < |text| {
      var act := Classify(n, text[i], text[i - 1] == '\\');
      if act.Keep? {
        UnclosedReadsAll(text, i + 1, act.nesting, current + [text[i]], args);
      } else {
        UnclosedReadsAll(text, i + 1, n, "", args + [Strip(current)]);
      }
    }
  }

  lemma {:induction false} ClosedResultIsSelfContained(text: string, i: nat, n: Nesting, current: string,
                                                       args: seq<string>)
    requires 0 < i <= |text| && Through(current, OUTSIDE, false) == Some(n)
    requires if current == "" then text[i - 1] != '\\' else text[i - 1] == current[|current| - 1]
    requires forall a :: a in args ==> SelfContained(a)
    requires Closes(text, i, n)
    ensures ParseFrom(text, i, n, current, args).args != []
    ensures forall a :: a in ParseFrom(text, i, n, current, args).args ==> SelfContained(a)
    decreases |text| - i
  {
    var act := Classify(n, text[i], text[i - 1] == '\\');
    if act.Keep? {
      ThroughAppend(current, text[i], OUTSIDE, false);
      ClosedResultIsSelfContained(text, i + 1, act.nesting, current + [text[i]], args);
    } else {
      ThroughStripLeft(current);
      ThroughStripRight(StripLeft(current));
      StripTwice(current);
      assert SelfContained(Strip(current));
      if act.Split? {
        ClosedResultIsSelfContained(text, i + 1, n, "", args + [Strip(current)]);
      }
    }
  }

  /** Exactly: parsing undoes printing, whatever follows, if and only if there is an argument and every one is
      self-contained. */
  lemma ParsingUndoesPrinting(args: seq<string>)
    ensures (forall suffix: string :: ParseArgs(Print(args) + suffix, 0) == Parsed(args, |Print(args)|))
       <==> args != [] && forall a :: a in args ==> StandsAlone(a)
  {
    if args != [] && forall a :: a in args ==> StandsAlone(a) {
      forall suffix: string
        ensures ParseArgs(Print(args) + suffix, 0) == Parsed(args, |Print(args)|)
      {
        PrintParses(args, suffix);
      }
    } else if forall suffix: string :: ParseArgs(Print(args) + suffix, 0) == Parsed(args, |Print(args)|) {
      var text := Print(args) + ";";
      assert ParseArgs(text, 0) == Parsed(args, |Print(args)|);
      if !Closes(text, 1, OUTSIDE) { UnclosedReadsAll(text, 1, OUTSIDE, "", []); }
      ClosedResultIsSelfContained(text, 1, OUTSIDE, "", []);
      forall a | a in args ensures StandsAlone(a) { SelfContainedExactly(a); }
    }
  }

  /** Whatever a text whose parenthesis closes parses to stands alone. */
  lemma ClosedTextGivesWholeArguments(text: string)
    requires text != "" && text[0] == '(' && Closes(text, 1, OUTSIDE)
    ensures ParseArgs(text, 0).args != [] && forall a :: a in ParseArgs(text, 0).args ==> StandsAlone(a)
  {
    ClosedResultIsSelfContained(text, 1, OUTSIDE, "", []);
    forall a | a in ParseArgs(text, 0).args ensures StandsAlone(a) { SelfContainedExactly(a); }
  }

  /** A closing parenthesis stands where nothing is open. */
  ghost predicate ClosesAt(s: string, k: nat)
    requires k < |s|
  {
    Stands(s, k, ')') && !AnyUnclosed(s, k)
  }

  ghost predicate FirstClose(s: string, from: nat, k: int) {
    from <= k < |s| && ClosesAt(s, k) && forall j :: from <= j < k ==> !ClosesAt(s, j)
  }

  ghost predicate NeverCloses(s: string, from: nat) { forall k :: from <= k < |s| ==> !ClosesAt(s, k) }

  ghost predicate EndsRight(text: string, i: nat, closes: bool, end: nat)
    requires 0 < i <= |text|
  {
    if closes then FirstClose(text[1..], i - 1, end - 2) else NeverCloses(text[1..], i - 1) && end == |text|
  }

  lemma EndsRightFromBefore(text: string, i: nat, closes: bool, end: nat)
    requires 0 < i < |text| && !ClosesAt(text[1..], i - 1) && EndsRight(text, i + 1, closes, end)
    ensures EndsRight(text, i, closes, end)
  {
  }

  /** One character further inside the parentheses. */
  lemma ScanInside(text: string, i: nat, nesting: Nesting)
    requires 0 < i < |text| && text[0] == '(' && Tracks(text[1..], i - 1, nesting)
    ensures var act := Classify(nesting, text[i], text[i - 1] == '\\');
            && (act == Stop <==> ClosesAt(text[1..], i - 1))
            && (act.Keep? ==> Tracks(text[1..], i, act.nesting))
            && (act == Split ==> Tracks(text[1..], i, nesting))
  {
    var inside := text[1..];
    ScanStep(inside, i - 1, nesting);
    assert inside[i - 1] == text[i] && (i > 1 ==> inside[i - 2] == text[i - 1]);
    if Stands(inside, i - 1, ',') { SplitTracks(inside, i - 1, nesting); }
  }

  /** The parenthesis closes where the first closing one stands with nothing open inside, and the scan ends right past
      it; without one it takes in the whole text. */
  lemma {:induction false} ClosesExactly(text: string, i: nat, nesting: Nesting, current: string, args: seq<string>)
    requires 0 < i <= |text| && text[0] == '(' && Tracks(text[1..], i - 1, nesting)
    ensures EndsRight(text, i, Closes(text, i, nesting), ParseFrom(text, i, nesting, current, args).end)
    decreases |text| - i
  {
    if i < |text| {
      ScanInside(text, i, nesting);
      var act, end := Classify(nesting, text[i], text[i - 1] == '\\'), ParseFrom(text, i, nesting, current, args).end;
      if act.Keep? {
        ClosesExactly(text, i + 1, act.nesting, current + [text[i]], args);
        EndsRightFromBefore(text, i, Closes(text, i, nesting), end);
      } else if act.Split? {
        ClosesExactly(text, i + 1, nesting, "", args + [Strip(current)]);
        EndsRightFromBefore(text, i, Closes(text, i, nesting), end);
      }
    }
  }

  /** A comma changes no count. */
  lemma SplitTracks(s: string, n: nat, nesting: Nesting)
    requires n < |s| && Tracks(s, n, nesting) && Stands(s, n, ',')
    ensures Tracks(s, n + 1, nesting)
  {
    CountsStep(s, n, '(', ')', nesting.parens);
    CountsStep(s, n, '{', '}', nesting.braces);
    CountsStep(s, n, '[', ']', nesting.brackets);
  }

  /** A text that never closes gives its arguments all the same, the last one up to its end. */
  lemma UnclosedParses(args: seq<string>)
    requires args != [] && forall a :: a in args ==> StandsAlone(a)
    ensures ParseArgs("(" + Joined(args), 0) == Parsed(args, 1 + |Joined(args)|)
  {
    var text := "(" + Joined(args);
    forall a | a in args ensures SelfContained(a) { SelfContainedExactly(a); }
    assert text[1..1 + |Joined(args)|] == Joined(args);
    ParseToEnd(text, 1, args, []);
    assert [] + args == args;
  }

  lemma {:induction false} ParseToEnd(text: string, i: nat, todo: seq<string>, done: seq<string>)
    requires 0 < i && i + |Joined(todo)| == |text| && text[i - 1] != '\\' && todo != []
    requires text[i..i + |Joined(todo)|] == Joined(todo)
    requires forall a :: a in todo ==> SelfContained(a)
    ensures ParseFrom(text, i, OUTSIDE, "", done) == Parsed(done + todo, |text|)
    decreases |todo|
  {
    var a, j := todo[0], i + |todo[0]|;
    assert SelfContained(a);
    JoinedStartsWith(text, i, todo);
    ArgumentStands(text, i, a, done);
    if |todo| == 1 {
      assert done + [Strip(a)] == done + todo;
    } else {
      ArgumentEnds(text, j, a, done);
      ParseToEnd(text, j + 1, todo[1..], done + [a]);
      assert done + [a] + todo[1..] == done + todo;
    }
  }
}
