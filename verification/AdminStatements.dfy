/** The two admin SQL scanners, written as the service runs them, and the laws that tie them together. */
module AdminStatements {
  import opened Text
  import opened AdminLexer

  datatype SplitError = EmptyStatement

  type SplitResult = Result<seq<string>, SplitError>

  /** The scanners keep their state in four flags and an open delimiter; at most one is ever set. */
  function ModeOf(single: bool, double: bool, line: bool, block: bool, dollar: Option<string>): Mode {
    if dollar.Some? then DollarQuote(dollar.value)
    else if line then LineComment
    else if block then BlockComment
    else if single then SingleQuote
    else if double then DoubleQuote
    else Normal
  }

  predicate AtMostOne(single: bool, double: bool, line: bool, block: bool, dollar: Option<string>) {
    && (dollar.Some? ==> !single && !double && !line && !block && IsDelimiter(dollar.value))
    && (single ==> !double && !line && !block)
    && (double ==> !line && !block)
    && (line ==> !block)
  }

  predicate CharAt(s: string, i: nat, c: char) { i < |s| && s[i] == c }

  /** The output so far together with what the rest of the text will add. */
  ghost function StripFrom(output: string, s: string, i: nat, m: Mode): string
    requires i <= |s| && ValidMode(m)
  {
    output + Kept(s, i, m)
  }

  ghost predicate Traced(trace: seq<Mark>, s: string, i: nat, m: Mode)
    requires i <= |s| && ValidMode(m)
  {
    trace + Trace(s, i, m) == Trace(s, 0, Normal)
  }

  /** One loop iteration is one lexer step. */
  lemma StripAdvance(output: string, s: string, i: nat, m: Mode)
    requires i < |s| && ValidMode(m)
    ensures var t := Step(s, i, m);
            StripFrom(output, s, i, m) == StripFrom(output + t.kept, s, i + t.length, t.mode)
  {
    hide Step;
  }

  lemma TraceAdvance(trace: seq<Mark>, s: string, i: nat, m: Mode)
    requires i < |s| && ValidMode(m) && Traced(trace, s, i, m)
    ensures var t := Step(s, i, m); Traced(trace + [Mark(i, m)], s, i + t.length, t.mode)
  {
    hide Step;
  }

  lemma AtTheStart(s: string)
    ensures StripFrom("", s, 0, Normal) == Strip(s) && Traced([], s, 0, Normal)
  {
  }

  lemma AtTheEnd(output: string, trace: seq<Mark>, s: string, m: Mode)
    requires ValidMode(m)
    ensures StripFrom(output, s, |s|, m) == output && Segments(s, |s|, m) == [""]
    ensures Traced(trace, s, |s|, m) ==> trace + [Mark(|s|, m)] == Trace(s, 0, Normal)
    ensures s == "" ==> Trace(s, 0, m) == [Mark(0, m)]
  {
  }

  lemma StepInDollarQuote(s: string, i: nat, d: string)
    requires i < |s| && IsDelimiter(d)
    ensures d <= s[i..] ==> Step(s, i, DollarQuote(d)) == Token(|d|, Normal, "") && s[i..i + |d|] == d
    ensures !(d <= s[i..]) ==> Step(s, i, DollarQuote(d)) == Token(1, DollarQuote(d), "")
  {
  }

  lemma StepInComment(s: string, i: nat)
    requires i < |s|
    ensures Step(s, i, LineComment) == if s[i] == '\n' then Token(1, Normal, "\n") else Token(1, LineComment, "")
    ensures Step(s, i, BlockComment) ==
            if s[i] == '*' && CharAt(s, i + 1, '/') then Token(2, Normal, "") else Token(1, BlockComment, "")
  {
  }

  lemma StepInQuote(s: string, i: nat)
    requires i < |s|
    ensures Step(s, i, SingleQuote) ==
            if s[i] != '\'' then Token(1, SingleQuote, "")
            else if CharAt(s, i + 1, '\'') then Token(2, SingleQuote, "")
            else Token(1, Normal, "")
    ensures Step(s, i, DoubleQuote) ==
            if s[i] != '"' then Token(1, DoubleQuote, "")
            else if CharAt(s, i + 1, '"') then Token(2, DoubleQuote, "")
            else Token(1, Normal, "")
  {
  }

  lemma StepInNormal(s: string, i: nat)
    requires i < |s|
    ensures Step(s, i, Normal) ==
            if s[i] == '-' && CharAt(s, i + 1, '-') then Token(2, LineComment, "")
            else if s[i] == '/' && CharAt(s, i + 1, '*') then Token(2, BlockComment, "")
            else if s[i] == '\'' then Token(1, SingleQuote, "")
            else if s[i] == '"' then Token(1, DoubleQuote, "")
            else
              match DollarDelimiter(s, i)
              case Some(d) => Token(|d|, DollarQuote(d), "")
              case None => Token(1, Normal, [s[i]])
  {
  }

  method StripSqlCommentsAndLiterals(value: string) returns (output: string, ghost trace: seq<Mark>)
    ensures output == Strip(value)
    ensures trace == Trace(value, 0, Normal)
  {
    hide Step, Kept, Trace, StripFrom, Traced;
    output, trace := "", [];
    AtTheStart(value);
    var inSingleQuote, inDoubleQuote, inLineComment, inBlockComment := false, false, false, false;
    var activeDollarQuoteDelimiter: Option<string> := None;
    var index := 0;
    while index < |value|
      invariant index <= |value|
      invariant AtMostOne(inSingleQuote, inDoubleQuote, inLineComment, inBlockComment, activeDollarQuoteDelimiter)
      invariant var m := ModeOf(inSingleQuote, inDoubleQuote, inLineComment, inBlockComment, activeDollarQuoteDelimiter);
                && StripFrom(output, value, index, m) == Strip(value)
                && Traced(trace, value, index, m)
    {
      ghost var m := ModeOf(inSingleQuote, inDoubleQuote, inLineComment, inBlockComment, activeDollarQuoteDelimiter);
      ghost var start, before := index, output;
      StepInNormal(value, index);
      var character := value[index];
      if activeDollarQuoteDelimiter.Some? {
        StepInDollarQuote(value, index, activeDollarQuoteDelimiter.value);
        var closing := activeDollarQuoteDelimiter.value;
        if closing <= value[index..] {
          activeDollarQuoteDelimiter := None;
          index := index + |closing| - 1;
        }
      } else if inLineComment {
        StepInComment(value, index);
        if character == '\n' {
          inLineComment := false;
          output := output + "\n";
        }
      } else if inBlockComment {
        StepInComment(value, index);
        if character == '*' && CharAt(value, index + 1, '/') {
          inBlockComment := false;
          index := index + 1;
        }
      } else if inSingleQuote {
        StepInQuote(value, index);
        if character == '\'' && CharAt(value, index + 1, '\'') {
          index := index + 1;
        } else if character == '\'' {
          inSingleQuote := false;
        }
      } else if inDoubleQuote {
        StepInQuote(value, index);
        if character == '"' && CharAt(value, index + 1, '"') {
          index := index + 1;
        } else if character == '"' {
          inDoubleQuote := false;
        }
      } else if character == '-' && CharAt(value, index + 1, '-') {
        inLineComment := true;
        index := index + 1;
      } else if character == '/' && CharAt(value, index + 1, '*') {
        inBlockComment := true;
        index := index + 1;
      } else if character == '\'' {
        inSingleQuote := true;
      } else if character == '"' {
        inDoubleQuote := true;
      } else {
        var dollarQuoteDelimiter := GetDollarQuoteDelimiter(value, index);
        if dollarQuoteDelimiter.Some? {
          activeDollarQuoteDelimiter := dollarQuoteDelimiter;
          index := index + |dollarQuoteDelimiter.value| - 1;
        } else {
          output := output + [character];
        }
      }
      index := index + 1;
      assert output == before + Step(value, start, m).kept;
      StripAdvance(before, value, start, m);
      TraceAdvance(trace, value, start, m);
      trace := trace + [Mark(start, m)];
    }
    ghost var last := ModeOf(inSingleQuote, inDoubleQuote, inLineComment, inBlockComment, activeDollarQuoteDelimiter);
    AtTheEnd(output, trace, value, last);
    trace := trace + [Mark(index, last)];
  }

  /** The statements that raw segments stand for: blank ones are refused, except a blank last one, which is dropped. */
  function Collect(raw: seq<string>): (r: SplitResult)
    requires |raw| > 0
  {
    var first := Trim(raw[0]);
    if |raw| == 1 then Ok(if first == "" then [] else [first])
    else if first == "" then Err(EmptyStatement)
    else
      match Collect(raw[1..])
      case Ok(rest) => Ok([first] + rest)
      case Err(e) => Err(e)
  }

  function Split(sql: string): SplitResult {
    Collect(RawStatements(Trim(sql)))
  }

  /** What remains to be collected when `current` is the text read since the last separator. */
  function Resume(statements: seq<string>, current: string, raw: seq<string>): SplitResult
    requires |raw| > 0
  {
    match Collect([current + raw[0]] + raw[1..])
    case Ok(rest) => Ok(statements + rest)
    case Err(e) => Err(e)
  }

  lemma ResumeText(statements: seq<string>, current: string, text: string, raw: seq<string>)
    requires |raw| > 0
    ensures Resume(statements, current, Prepend(text, raw)) == Resume(statements, current + text, raw)
  {
    hide Collect;
    var all := Prepend(text, raw);
    assert all[1..] == raw[1..];
    assert current + (text + raw[0]) == (current + text) + raw[0];
  }

  lemma ResumeSeparator(statements: seq<string>, current: string, raw: seq<string>)
    requires |raw| > 0
    ensures Resume(statements, current, [""] + raw) ==
            if Trim(current) == "" then Err(EmptyStatement)
            else Resume(statements + [Trim(current)], "", raw)
  {
    var all := [current + ""] + ([""] + raw)[1..];
    assert current + "" == current;
    assert all[1..] == raw;
    assert "" + raw[0] == raw[0];
    assert [raw[0]] + raw[1..] == raw;
    if Collect(raw).Ok? {
      var rest := Collect(raw).value;
      assert statements + ([Trim(current)] + rest) == (statements + [Trim(current)]) + rest;
    }
  }

  ghost function WithNext(before: string, s: string, i: nat, n: nat): string
    requires i + n <= |s|
  {
    before + s[i..i + n]
  }

  lemma NextCharacters(before: string, s: string, i: nat)
    requires i < |s|
    ensures before + [s[i]] == WithNext(before, s, i, 1)
    ensures i + 1 < |s| ==> before + [s[i]] + [s[i + 1]] == WithNext(before, s, i, 2)
  {
    assert s[i..i + 1] == [s[i]];
    if i + 1 < |s| {
      assert s[i..i + 2] == [s[i]] + [s[i + 1]];
    }
  }

  lemma NextWord(before: string, s: string, i: nat, word: string)
    requires i <= |s| && word <= s[i..]
    ensures before + word == WithNext(before, s, i, |word|)
  {
    assert s[i..i + |word|] == word;
  }

  lemma Advance(s: string, statements: seq<string>, before: string, i: nat, m: Mode)
    requires i < |s| && ValidMode(m) && !(m.Normal? && s[i] == ';')
    ensures var t := Step(s, i, m);
            Resume(statements, WithNext(before, s, i, t.length), Segments(s, i + t.length, t.mode)) ==
            Resume(statements, before, Segments(s, i, m))
  {
    hide Step, Segments, Resume;
    var t := Step(s, i, m);
    StepSegments(s, i, m);
    ResumeText(statements, before, s[i..i + t.length], Segments(s, i + t.length, t.mode));
  }

  lemma CollectLast(text: string)
    ensures Collect([text]) == Ok(if Trim(text) == "" then [] else [Trim(text)])
    ensures Trim("") == ""
  {
  }

  lemma ResumeFromStart(raw: seq<string>)
    requires |raw| > 0
    ensures Resume([], "", raw) == Collect(raw)
  {
    hide Collect;
    assert "" + raw[0] == raw[0];
    assert [raw[0]] + raw[1..] == raw;
    match Collect(raw)
    case Ok(rest) => assert [] + rest == rest;
    case Err(_) =>
  }

  lemma ResumeAtEnd(statements: seq<string>, current: string)
    ensures Resume(statements, current, [""]) ==
            Ok(if Trim(current) == "" then statements else statements + [Trim(current)])
  {
    assert current + "" == current;
    assert [current + ""] + [""][1..] == [current];
    assert statements + [] == statements;
  }

  method SplitAdminQueryStatements(sql: string) returns (r: SplitResult, ghost trace: seq<Mark>)
    ensures r == Split(sql)
    ensures r.Ok? ==> trace == Trace(Trim(sql), 0, Normal)
  {
    hide Step, Kept, Trace, Traced, Segments, Trim, Collect, Resume, WithNext;
    var trimmedSql := Trim(sql);
    trace := [];
    AtTheEnd("", [Mark(0, Normal)], "", Normal);
    AtTheStart(trimmedSql);
    ResumeFromStart(RawStatements(trimmedSql));
    CollectLast(trimmedSql);
    if trimmedSql == "" {
      trace := [Mark(0, Normal)];
      return Ok([]), trace;
    }
    var statements: seq<string>, current := [], "";
    var inSingleQuote, inDoubleQuote, inLineComment, inBlockComment := false, false, false, false;
    var activeDollarQuoteDelimiter: Option<string> := None;
    var index := 0;
    while index < |trimmedSql|
      invariant index <= |trimmedSql|
      invariant AtMostOne(inSingleQuote, inDoubleQuote, inLineComment, inBlockComment, activeDollarQuoteDelimiter)
      invariant var m := ModeOf(inSingleQuote, inDoubleQuote, inLineComment, inBlockComment, activeDollarQuoteDelimiter);
                && Resume(statements, current, Segments(trimmedSql, index, m)) == Split(sql)
                && Traced(trace, trimmedSql, index, m)
    {
      ghost var m := ModeOf(inSingleQuote, inDoubleQuote, inLineComment, inBlockComment, activeDollarQuoteDelimiter);
      ghost var start, before := index, current;
      StepInNormal(trimmedSql, index);
      NextCharacters(current, trimmedSql, index);
      var character := trimmedSql[index];
      if activeDollarQuoteDelimiter.Some? {
        StepInDollarQuote(trimmedSql, index, activeDollarQuoteDelimiter.value);
        if activeDollarQuoteDelimiter.value <= trimmedSql[index..] {
          NextWord(current, trimmedSql, index, activeDollarQuoteDelimiter.value);
          current := current + activeDollarQuoteDelimiter.value;
          index := index + |activeDollarQuoteDelimiter.value| - 1;
          activeDollarQuoteDelimiter := None;
        } else {
          current := current + [character];
        }
      } else if inLineComment {
        StepInComment(trimmedSql, index);
        current := current + [character];
        if character == '\n' {
          inLineComment := false;
        }
      } else if inBlockComment {
        StepInComment(trimmedSql, index);
        current := current + [character];
        if character == '*' && CharAt(trimmedSql, index + 1, '/') {
          current := current + [trimmedSql[index + 1]];
          inBlockComment := false;
          index := index + 1;
        }
      } else if inSingleQuote {
        StepInQuote(trimmedSql, index);
        current := current + [character];
        if character == '\'' && CharAt(trimmedSql, index + 1, '\'') {
          current := current + [trimmedSql[index + 1]];
          index := index + 1;
        } else if character == '\'' {
          inSingleQuote := false;
        }
      } else if inDoubleQuote {
        StepInQuote(trimmedSql, index);
        current := current + [character];
        if character == '"' && CharAt(trimmedSql, index + 1, '"') {
          current := current + [trimmedSql[index + 1]];
          index := index + 1;
        } else if character == '"' {
          inDoubleQuote := false;
        }
      } else if character == '-' && CharAt(trimmedSql, index + 1, '-') {
        current := current + [character] + [trimmedSql[index + 1]];
        inLineComment := true;
        index := index + 1;
      } else if character == '/' && CharAt(trimmedSql, index + 1, '*') {
        current := current + [character] + [trimmedSql[index + 1]];
        inBlockComment := true;
        index := index + 1;
      } else if character == '\'' {
        current := current + [character];
        inSingleQuote := true;
      } else if character == '"' {
        current := current + [character];
        inDoubleQuote := true;
      } else {
        var dollarQuoteDelimiter := GetDollarQuoteDelimiter(trimmedSql, index);
        if dollarQuoteDelimiter.Some? {
          NextWord(current, trimmedSql, index, dollarQuoteDelimiter.value);
          current := current + dollarQuoteDelimiter.value;
          activeDollarQuoteDelimiter := dollarQuoteDelimiter;
          index := index + |dollarQuoteDelimiter.value| - 1;
        } else if character == ';' {
          var statement := Trim(current);
          SeparatorSegments(trimmedSql, start);
          ResumeSeparator(statements, current, Segments(trimmedSql, start + 1, Normal));
          if statement == "" {
            return Err(EmptyStatement), trace;
          }
          statements := statements + [statement];
          current := "";
        } else {
          current := current + [character];
        }
      }
      index := index + 1;
      if !(m.Normal? && character == ';') {
        assert current == WithNext(before, trimmedSql, start, Step(trimmedSql, start, m).length);
        Advance(trimmedSql, statements, before, start, m);
      }
      TraceAdvance(trace, trimmedSql, start, m);
      trace := trace + [Mark(start, m)];
    }
    ghost var last := ModeOf(inSingleQuote, inDoubleQuote, inLineComment, inBlockComment, activeDollarQuoteDelimiter);
    AtTheEnd(current, trace, trimmedSql, last);
    trace := trace + [Mark(index, last)];
    var finalStatement := Trim(current);
    ResumeAtEnd(statements, current);
    if finalStatement != "" {
      statements := statements + [finalStatement];
    }
    return Ok(statements), trace;
  }
}
