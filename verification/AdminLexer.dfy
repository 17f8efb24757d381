/** The lexical states of the admin reporting SQL scanners and the steps both scanners take. */
module AdminLexer {
  import opened Text

  datatype Mode =
    | Normal
    | SingleQuote
    | DoubleQuote
    | LineComment
    | BlockComment
    | DollarQuote(delimiter: string)

  /** One scanner step: characters consumed, the state it leaves, and what the comment stripper keeps. */
  datatype Token = Token(length: nat, mode: Mode, kept: string)

  /** A scanner position and the state it is in there. */
  datatype Mark = Mark(index: nat, mode: Mode)

  predicate IsDigit(c: char) { '0' <= c <= '9' }

  predicate IsIdentifierStart(c: char) {
    c == '_' || 'A' <= c <= 'Z' || 'a' <= c <= 'z' || c as int >= 128
  }

  predicate IsIdentifier(c: char) { IsDigit(c) || IsIdentifierStart(c) }

  /** `$$` or `$tag$` with an identifier tag. */
  predicate IsDelimiter(d: string) {
    && |d| >= 2 && d[0] == '$' && d[|d| - 1] == '$'
    && (|d| > 2 ==> IsIdentifierStart(d[1]))
    && forall k | 1 <= k < |d| - 1 :: IsIdentifier(d[k])
  }

  predicate ValidMode(m: Mode) {
    m.DollarQuote? ==> IsDelimiter(m.delimiter)
  }

  /** A dollar sign glued to an identifier or to another dollar sign opens nothing. */
  predicate MayOpenAt(s: string, i: nat)
    requires i <= |s|
  {
    i == 0 || !(s[i - 1] == '$' || IsIdentifier(s[i - 1]))
  }

  function ScanTag(s: string, start: nat, end: nat): (d: Option<string>)
    requires start < end <= |s| && s[start] == '$'
    requires end > start + 1 ==> IsIdentifierStart(s[start + 1])
    requires forall k | start < k < end :: IsIdentifier(s[k])
    ensures d.Some? ==> IsDelimiter(d.value) && d.value <= s[start..]
    decreases |s| - end
  {
    if end == |s| then None
    else if s[end] == '$' then Some(s[start..end + 1])
    else if end == start + 1 && !IsIdentifierStart(s[end]) then None
    else if !IsIdentifier(s[end]) then None
    else ScanTag(s, start, end + 1)
  }

  function DollarDelimiter(s: string, i: nat): (d: Option<string>)
    requires i < |s|
    ensures d.Some? ==> IsDelimiter(d.value) && d.value <= s[i..]
  {
    if s[i] != '$' || !MayOpenAt(s, i) then None else ScanTag(s, i, i + 1)
  }

  lemma {:induction false} ScanFindsTheDelimiter(s: string, start: nat, end: nat, d: string)
    requires start < end <= |s| && s[start] == '$'
    requires end > start + 1 ==> IsIdentifierStart(s[start + 1])
    requires forall k | start < k < end :: IsIdentifier(s[k])
    requires IsDelimiter(d) && d <= s[start..]
    ensures ScanTag(s, start, end) == Some(d)
    decreases |s| - end
  {
    assert forall k | 0 <= k < |d| :: s[start + k] == d[k];
    if end - start < |d| - 1 {
      assert s[end] == d[end - start];
      ScanFindsTheDelimiter(s, start, end + 1, d);
    } else {
      assert s[start + |d| - 1] == '$';
      assert end == start + |d| - 1;
      assert s[start..end + 1] == d;
    }
  }

  /** The scan recognises a delimiter exactly when one is written there and the character before allows it. */
  lemma DelimiterFoundExactly(s: string, i: nat, d: string)
    requires i < |s|
    ensures DollarDelimiter(s, i) == Some(d) <==> MayOpenAt(s, i) && IsDelimiter(d) && d <= s[i..]
  {
    if MayOpenAt(s, i) && IsDelimiter(d) && d <= s[i..] {
      ScanFindsTheDelimiter(s, i, i + 1, d);
    }
  }

  /** Which characters a dollar quote is made of, by their codes: a tag starts with an underscore, an ASCII letter or
      any character beyond ASCII; digits may follow; and directly behind any of these, behind a digit or behind a dollar
      sign nothing opens. */
  lemma DollarQuoteCharacters(c: char)
    ensures var letter := c as int == 95 || 65 <= c as int <= 90 || 97 <= c as int <= 122 || c as int >= 128;
            var digit := 48 <= c as int <= 57;
            && (DollarDelimiter("$" + [c] + "$", 0) == Some("$" + [c] + "$") <==> letter)
            && (DollarDelimiter("$a" + [c] + "$", 0) == Some("$a" + [c] + "$") <==> letter || digit)
            && (DollarDelimiter([c] + "$$", 1) == Some("$$") <==> !letter && !digit && c as int != 36)
            && DollarDelimiter("$$", 0) == Some("$$")
  {
    DelimiterFoundExactly("$" + [c] + "$", 0, "$" + [c] + "$");
    var tagged := "$a" + [c] + "$";
    DelimiterFoundExactly(tagged, 0, tagged);
    assert tagged[1] == 'a' && tagged[2] == c && tagged[3] == '$' && tagged[0] == '$' && |tagged| == 4;
    DelimiterFoundExactly([c] + "$$", 1, "$$");
    assert ([c] + "$$")[1..] == "$$";
    DelimiterFoundExactly("$$", 0, "$$");
  }

  method GetDollarQuoteDelimiter(value: string, startIndex: nat) returns (d: Option<string>)
    requires startIndex < |value|
    ensures d == DollarDelimiter(value, startIndex)
  {
    if value[startIndex] != '$' {
      return None;
    }
    if startIndex > 0 && (value[startIndex - 1] == '$' || IsIdentifier(value[startIndex - 1])) {
      return None;
    }
    var endIndex := startIndex + 1;
    while endIndex < |value| && value[endIndex] != '$'
      invariant startIndex < endIndex <= |value|
      invariant endIndex > startIndex + 1 ==> IsIdentifierStart(value[startIndex + 1])
      invariant forall k | startIndex < k < endIndex :: IsIdentifier(value[k])
      invariant DollarDelimiter(value, startIndex) == ScanTag(value, startIndex, endIndex)
    {
      if endIndex == startIndex + 1 {
        if !IsIdentifierStart(value[endIndex]) {
          return None;
        }
      } else if !IsIdentifier(value[endIndex]) {
        return None;
      }
      endIndex := endIndex + 1;
    }
    if endIndex >= |value| {
      return None;
    }
    return Some(value[startIndex..endIndex + 1]);
  }

  function Step(s: string, i: nat, m: Mode): (t: Token)
    requires i < |s| && ValidMode(m)
    ensures 1 <= t.length <= |s| - i && ValidMode(t.mode)
  {
    match m
    case DollarQuote(d) => if d <= s[i..] then Token(|d|, Normal, "") else Token(1, m, "")
    case LineComment => if s[i] == '\n' then Token(1, Normal, "\n") else Token(1, m, "")
    case BlockComment => if "*/" <= s[i..] then Token(2, Normal, "") else Token(1, m, "")
    case SingleQuote =>
      if "''" <= s[i..] then Token(2, m, "")
      else if s[i] == '\'' then Token(1, Normal, "")
      else Token(1, m, "")
    case DoubleQuote =>
      if "\"\"" <= s[i..] then Token(2, m, "")
      else if s[i] == '"' then Token(1, Normal, "")
      else Token(1, m, "")
    case Normal =>
      if "--" <= s[i..] then Token(2, LineComment, "")
      else if "/*" <= s[i..] then Token(2, BlockComment, "")
      else if s[i] == '\'' then Token(1, SingleQuote, "")
      else if s[i] == '"' then Token(1, DoubleQuote, "")
      else
        match DollarDelimiter(s, i)
        case Some(d) => Token(|d|, DollarQuote(d), "")
        case None => Token(1, Normal, [s[i]])
  }

  /** The state at every index where a step begins. */
  function Trace(s: string, i: nat, m: Mode): seq<Mark>
    requires i <= |s| && ValidMode(m)
    decreases |s| - i
  {
    if i == |s| then [Mark(i, m)]
    else var t := Step(s, i, m); [Mark(i, m)] + Trace(s, i + t.length, t.mode)
  }

  function EndMode(s: string, i: nat, m: Mode): (e: Mode)
    requires i <= |s| && ValidMode(m)
    ensures ValidMode(e)
    decreases |s| - i
  {
    if i == |s| then m else var t := Step(s, i, m); EndMode(s, i + t.length, t.mode)
  }

  /** What is left of `s[i..]` when comments and literals are removed. */
  function Kept(s: string, i: nat, m: Mode): string
    requires i <= |s| && ValidMode(m)
    decreases |s| - i
  {
    if i == |s| then "" else var t := Step(s, i, m); t.kept + Kept(s, i + t.length, t.mode)
  }

  /** The raw text between statement separators: semicolons outside every quote and comment. */
  function Segments(s: string, i: nat, m: Mode): (segments: seq<string>)
    requires i <= |s| && ValidMode(m)
    ensures |segments| > 0
    decreases |s| - i
  {
    if i == |s| then [""]
    else if m.Normal? && s[i] == ';' then [""] + Segments(s, i + 1, Normal)
    else
      var t := Step(s, i, m);
      Prepend(s[i..i + t.length], Segments(s, i + t.length, t.mode))
  }

  lemma SemicolonStep(s: string, i: nat)
    requires i < |s| && s[i] == ';'
    ensures Step(s, i, Normal) == Token(1, Normal, ";")
  {
  }

  lemma SegmentsAtEnd(s: string, m: Mode)
    requires ValidMode(m)
    ensures Segments(s, |s|, m) == [""]
  {
  }

  lemma SeparatorSegments(s: string, i: nat)
    requires i < |s| && s[i] == ';'
    ensures Step(s, i, Normal) == Token(1, Normal, ";")
    ensures Segments(s, i, Normal) == [""] + Segments(s, i + 1, Normal)
  {
    SemicolonStep(s, i);
    hide Step;
  }

  /** Prefix the first of some segments. */
  function Prepend(head: string, segments: seq<string>): (r: seq<string>)
    requires |segments| > 0
    ensures |r| == |segments|
  {
    [head + segments[0]] + segments[1..]
  }

  lemma StepSegments(s: string, i: nat, m: Mode)
    requires i < |s| && ValidMode(m) && !(m.Normal? && s[i] == ';')
    ensures var t := Step(s, i, m);
            Segments(s, i, m) == Prepend(s[i..i + t.length], Segments(s, i + t.length, t.mode))
  {
    hide Step;
  }

  function Strip(s: string): string { Kept(s, 0, Normal) }

  function RawStatements(s: string): (segments: seq<string>)
    ensures |segments| > 0
  {
    Segments(s, 0, Normal)
  }

  /** Characters that are never part of a longer token and never block a dollar quote. */
  predicate Neutral(c: char) { c == ';' || IsAsciiSpace(c) }

  /** A place where text may be cut without disturbing any token. Blanks of any kind may be cut off, except from
      before a dollar quote, which a blank beyond ASCII keeps from opening. */
  predicate CleanCut(x: string, y: string) {
    || x == "" || y == "" || Neutral(x[|x| - 1]) || Neutral(y[0])
    || AllSpace(y) || (AllSpace(x) && DollarDelimiter(y, 0).None?)
  }

  lemma {:induction false} NoTagWithoutDollar(s: string, start: nat, end: nat)
    requires start < end <= |s| && s[start] == '$'
    requires end > start + 1 ==> IsIdentifierStart(s[start + 1])
    requires forall k | start < k < end :: IsIdentifier(s[k])
    requires forall k | end <= k < |s| :: s[k] != '$'
    ensures ScanTag(s, start, end) == None
    decreases |s| - end
  {
    if end < |s| && IsIdentifier(s[end]) && (end == start + 1 ==> IsIdentifierStart(s[end])) {
      NoTagWithoutDollar(s, start, end + 1);
    }
  }

  lemma {:induction false} TagScanStaysLeft(x: string, y: string, start: nat, end: nat)
    requires start < end <= |x| && x[start] == '$' && CleanCut(x, y)
    requires end > start + 1 ==> IsIdentifierStart(x[start + 1])
    requires forall k | start < k < end :: IsIdentifier(x[k])
    ensures ScanTag(x + y, start, end) == ScanTag(x, start, end)
    decreases |x| - end
  {
    var s := x + y;
    assert forall k | 0 <= k < |x| :: s[k] == x[k];
    if end < |x| {
      if x[end] == '$' {
        assert s[start..end + 1] == x[start..end + 1];
      } else if IsIdentifier(x[end]) && (end == start + 1 ==> IsIdentifierStart(x[end])) {
        TagScanStaysLeft(x, y, start, end + 1);
      }
    } else if AllSpace(y) {
      assert forall k | end <= k < |s| :: s[k] == y[k - end];
      NoTagWithoutDollar(s, start, end);
    } else {
      assert s[end] == y[0];
      assert !AllSpace(x);
    }
  }

  lemma {:induction false} TagScanShifts(x: string, y: string, start: nat, end: nat)
    requires start < end <= |y| && y[start] == '$'
    requires end > start + 1 ==> IsIdentifierStart(y[start + 1])
    requires forall k | start < k < end :: IsIdentifier(y[k])
    ensures ScanTag.requires(x + y, |x| + start, |x| + end)
    ensures ScanTag(x + y, |x| + start, |x| + end) == ScanTag(y, start, end)
    decreases |y| - end
  {
    hide IsIdentifier, IsIdentifierStart;
    var s := x + y;
    assert s[|x| + start] == y[start];
    if end > start + 1 {
      assert s[|x| + start + 1] == y[start + 1];
    }
    forall k | |x| + start < k < |x| + end ensures IsIdentifier(s[k]) {
      assert s[k] == y[k - |x|];
    }
    if end < |y| {
      assert s[|x| + end] == y[end];
      if y[end] == '$' {
        assert s[|x| + start..|x| + end + 1] == y[start..end + 1];
      } else if IsIdentifier(y[end]) && (end == start + 1 ==> IsIdentifierStart(y[end])) {
        TagScanShifts(x, y, start, end + 1);
      }
    }
  }

  lemma WordAcrossTheCut(x: string, y: string, i: nat, word: string)
    requires i < |x| && word <= (x + y)[i..] && |word| > |x| - i
    ensures y != "" && x[|x| - 1] in word && y[0] in word
    ensures word[0] in x && word[|word| - 1] in y
  {
    var s, k := x + y, |x| - i;
    assert s[|x| - 1] == word[k - 1];
    assert s[|x|] == word[k];
    assert s[i] == word[0];
    assert s[i + |word| - 1] == word[|word| - 1] == y[|word| - 1 - k];
  }

  /** A word without neutral characters, read before a clean cut, ends before it. */
  lemma WordStaysLeft(x: string, y: string, i: nat, word: string)
    requires i < |x| && CleanCut(x, y)
    requires word != "" && !IsSpace(word[0]) && !IsSpace(word[|word| - 1])
    requires forall c | c in word :: !Neutral(c)
    ensures word <= (x + y)[i..] <==> word <= x[i..]
  {
    assert (x + y)[i..] == x[i..] + y;
    if word <= (x + y)[i..] && |word| > |x| - i {
      WordAcrossTheCut(x, y, i, word);
    }
  }

  lemma OnlySeparatorsAreKept(s: string, i: nat, m: Mode)
    requires i < |s| && ValidMode(m) && !(m.Normal? && s[i] == ';')
    ensures ';' !in Step(s, i, m).kept
  {
  }

  lemma SpaceStep(s: string, i: nat, m: Mode)
    requires i < |s| && ValidMode(m) && IsSpace(s[i])
    ensures var t := Step(s, i, m);
            && t.length == 1
            && (t.mode == m || (m.LineComment? && t.mode == Normal))
            && (t.kept == "" || t.kept == [s[i]])
            && (m.Normal? ==> t.kept == [s[i]])
  {
    assert s[i..][0] == s[i];
  }

  lemma StepStaysLeft(x: string, y: string, i: nat, m: Mode)
    requires i < |x| && ValidMode(m) && CleanCut(x, y)
    ensures Step(x + y, i, m) == Step(x, i, m)
  {
    var s := x + y;
    assert s[i] == x[i];
    match m
    case DollarQuote(d) => WordStaysLeft(x, y, i, d);
    case LineComment =>
    case BlockComment => WordStaysLeft(x, y, i, "*/");
    case SingleQuote => WordStaysLeft(x, y, i, "''");
    case DoubleQuote => WordStaysLeft(x, y, i, "\"\"");
    case Normal =>
      WordStaysLeft(x, y, i, "--");
      WordStaysLeft(x, y, i, "/*");
      if x[i] == '$' && MayOpenAt(x, i) {
        TagScanStaysLeft(x, y, i, i + 1);
      }
  }

  lemma DollarShifts(x: string, y: string, i: nat)
    requires i < |y| && CleanCut(x, y)
    ensures DollarDelimiter(x + y, |x| + i) == DollarDelimiter(y, i)
  {
    var s := x + y;
    assert s[|x| + i] == y[i];
    if y[i] == '$' {
      if i > 0 {
        assert s[|x| + i - 1] == y[i - 1];
      } else if x != "" {
        assert s[|x| - 1] == x[|x| - 1];
      }
      TagScanShifts(x, y, i, i + 1);
    }
  }

  lemma StepShifts(x: string, y: string, i: nat, m: Mode)
    requires i < |y| && ValidMode(m) && CleanCut(x, y)
    ensures Step(x + y, |x| + i, m) == Step(y, i, m)
  {
    hide CleanCut, DollarDelimiter;
    var s := x + y;
    assert s[|x| + i] == y[i];
    assert s[|x| + i..] == y[i..];
    DollarShifts(x, y, i);
  }

  /** Lexing the right-hand text inside the whole is lexing it alone from the state reached at the cut. */
  lemma {:induction false} RightPart(x: string, y: string, i: nat, m: Mode)
    requires i <= |y| && ValidMode(m) && CleanCut(x, y)
    ensures EndMode(x + y, |x| + i, m) == EndMode(y, i, m)
    ensures Kept(x + y, |x| + i, m) == Kept(y, i, m)
    decreases |y| - i
  {
    hide Step;
    if i < |y| {
      StepShifts(x, y, i, m);
      var t := Step(y, i, m);
      RightPart(x, y, i + t.length, t.mode);
    }
  }

  lemma {:induction false} RightSegments(x: string, y: string, i: nat, m: Mode)
    requires i <= |y| && ValidMode(m) && CleanCut(x, y)
    ensures Segments(x + y, |x| + i, m) == Segments(y, i, m)
    decreases |y| - i
  {
    hide Step, Segments, Prepend, CleanCut;
    var s := x + y;
    if i == |y| {
      SegmentsAtEnd(s, m);
      SegmentsAtEnd(y, m);
    } else {
      assert s[|x| + i] == y[i];
      if m.Normal? && y[i] == ';' {
        SeparatorSegments(s, |x| + i);
        SeparatorSegments(y, i);
        RightSegments(x, y, i + 1, Normal);
      } else {
        StepShifts(x, y, i, m);
        var t := Step(y, i, m);
        StepSegments(s, |x| + i, m);
        StepSegments(y, i, m);
        assert s[|x| + i..|x| + i + t.length] == y[i..i + t.length];
        RightSegments(x, y, i + t.length, t.mode);
      }
    }
  }

  /** Glue two lists of segments where no separator stands between them. */
  function Glue(a: seq<string>, b: seq<string>): seq<string>
    requires |a| > 0 && |b| > 0
  {
    a[..|a| - 1] + [a[|a| - 1] + b[0]] + b[1..]
  }

  lemma GlueEmpty(b: seq<string>)
    requires |b| > 0
    ensures Glue([""], b) == b
  {
    assert "" + b[0] == b[0];
    assert b == [b[0]] + b[1..];
  }

  lemma GlueSeparator(a: seq<string>, b: seq<string>)
    requires |a| > 0 && |b| > 0
    ensures Glue([""] + a, b) == [""] + Glue(a, b)
  {
    assert ([""] + a)[..|a|] == [""] + a[..|a| - 1];
  }

  lemma GluePrepend(head: string, a: seq<string>, b: seq<string>)
    requires |a| > 0 && |b| > 0
    ensures Glue(Prepend(head, a), b) == Prepend(head, Glue(a, b))
  {
    var all := Prepend(head, a);
    if |a| == 1 {
      assert (head + a[0]) + b[0] == head + (a[0] + b[0]);
    } else {
      assert all[..|a| - 1] == [head + a[0]] + a[1..|a| - 1];
      assert Glue(a, b)[1..] == a[1..|a| - 1] + [a[|a| - 1] + b[0]] + b[1..];
    }
  }

  /** The composition law: cutting text at a clean place cuts everything the scanners compute. */
  lemma {:induction false} CutLaw(x: string, y: string, i: nat, m: Mode)
    requires i <= |x| && ValidMode(m) && CleanCut(x, y)
    ensures EndMode(x + y, i, m) == EndMode(y, 0, EndMode(x, i, m))
    ensures Kept(x + y, i, m) == Kept(x, i, m) + Kept(y, 0, EndMode(x, i, m))
    decreases |x| - i
  {
    hide Step;
    if i == |x| {
      RightPart(x, y, 0, m);
    } else {
      StepStaysLeft(x, y, i, m);
      var t := Step(x, i, m);
      CutLaw(x, y, i + t.length, t.mode);
    }
  }

  lemma {:induction false} CutLawForSegments(x: string, y: string, i: nat, m: Mode)
    requires i <= |x| && ValidMode(m) && CleanCut(x, y)
    ensures Segments(x + y, i, m) == Glue(Segments(x, i, m), Segments(y, 0, EndMode(x, i, m)))
    decreases |x| - i
  {
    hide Step, Glue, Segments, Prepend, CleanCut;
    var s := x + y;
    var b := Segments(y, 0, EndMode(x, i, m));
    if i == |x| {
      RightSegments(x, y, 0, m);
      SegmentsAtEnd(x, m);
      GlueEmpty(b);
    } else {
      assert s[i] == x[i];
      if m.Normal? && x[i] == ';' {
        SeparatorSegments(s, i);
        SeparatorSegments(x, i);
        CutLawForSegments(x, y, i + 1, Normal);
        GlueSeparator(Segments(x, i + 1, Normal), b);
      } else {
        StepStaysLeft(x, y, i, m);
        var t := Step(x, i, m);
        StepSegments(s, i, m);
        StepSegments(x, i, m);
        assert s[i..i + t.length] == x[i..i + t.length];
        CutLawForSegments(x, y, i + t.length, t.mode);
        GluePrepend(x[i..i + t.length], Segments(x, i + t.length, t.mode), b);
      }
    }
  }

  lemma JoinPrepend(head: string, parts: seq<string>)
    requires |parts| > 0
    ensures Join(Prepend(head, parts), ";") == head + Join(parts, ";")
  {
    hide Join;
    if |parts| == 1 {
      assert Prepend(head, parts) == [head + parts[0]];
      assert parts == [parts[0]];
      JoinOne(head + parts[0], ";");
      JoinOne(parts[0], ";");
    } else {
      assert parts == [parts[0]] + parts[1..];
      JoinCons(parts[0], parts[1..], ";");
      JoinCons(head + parts[0], parts[1..], ";");
      Associative(head, parts[0], ";", Join(parts[1..], ";"));
    }
  }

  lemma Associative(a: string, b: string, c: string, d: string)
    ensures (a + b) + c + d == a + (b + c + d)
  {
  }

  lemma JoinSeparator(parts: seq<string>)
    requires |parts| > 0
    ensures Join([""] + parts, ";") == ";" + Join(parts, ";")
  {
    JoinCons("", parts, ";");
    assert "" + ";" == ";";
  }

  /** Losslessness: the raw segments with their separators are the text itself. */
  lemma {:induction false} SegmentsRebuild(s: string, i: nat, m: Mode)
    requires i <= |s| && ValidMode(m)
    ensures Join(Segments(s, i, m), ";") == s[i..]
    decreases |s| - i
  {
    hide Step, Segments, Prepend, Join;
    if i == |s| {
      SegmentsAtEnd(s, m);
      JoinOne("", ";");
    } else if m.Normal? && s[i] == ';' {
      SeparatorSegments(s, i);
      SegmentsRebuild(s, i + 1, Normal);
      JoinSeparator(Segments(s, i + 1, Normal));
      assert s[i..] == ";" + s[i + 1..];
    } else {
      var t := Step(s, i, m);
      StepSegments(s, i, m);
      SegmentsRebuild(s, i + t.length, t.mode);
      JoinPrepend(s[i..i + t.length], Segments(s, i + t.length, t.mode));
      assert s[i..] == s[i..i + t.length] + s[i + t.length..];
    }
  }

  lemma RawStatementsRebuild(s: string)
    ensures Join(RawStatements(s), ";") == s
  {
    SegmentsRebuild(s, 0, Normal);
  }

  /** If the glued list starts with all of the left text, the left text holds no separator. */
  lemma GlueStartsWhole(a: seq<string>, b: seq<string>)
    requires |a| > 0 && |b| > 0 && Join(a, ";") == Glue(a, b)[0]
    ensures |a| == 1 && b[0] == ""
    ensures Glue(a, b) == a + b[1..]
  {
    hide Join;
    if |a| > 1 {
      assert a == [a[0]] + a[1..];
      JoinCons(a[0], a[1..], ";");
    } else {
      assert a == [a[0]];
      JoinOne(a[0], ";");
      assert |a[0] + b[0]| == |a[0]|;
    }
  }

  lemma SeparatorThen(rest: string, m: Mode)
    requires ValidMode(m) && Segments(";" + rest, 0, m)[0] == ""
    ensures m.Normal? && Segments(";" + rest, 0, m) == [""] + RawStatements(rest)
  {
    hide Step, Segments;
    var s := ";" + rest;
    if m.Normal? {
      SeparatorSegments(s, 0);
      RightSegments(";", rest, 0, Normal);
    } else {
      StepSegments(s, 0, m);
    }
  }

  /** The first raw statement, cut off at its separator, is a whole statement by itself. */
  lemma FirstRawStatement(s: string) returns (rest: string)
    ensures var g := RawStatements(s)[0];
            && RawStatements(g) == [g]
            && (|RawStatements(s)| == 1 ==> s == g)
            && (|RawStatements(s)| > 1 ==>
                  && s == g + ";" + rest
                  && EndMode(g, 0, Normal) == Normal
                  && RawStatements(rest) == RawStatements(s)[1..])
  {
    hide Step, Join, Segments, Glue;
    var all := RawStatements(s);
    var g := all[0];
    RawStatementsRebuild(s);
    rest := "";
    assert all == [g] + all[1..];
    if |all| == 1 {
      assert all == [g];
      JoinOne(g, ";");
    } else {
      rest := Join(all[1..], ";");
      var tail := ";" + rest;
      JoinCons(g, all[1..], ";");
      assert s == g + tail;
      RawStatementsRebuild(g);
      CutLawForSegments(g, tail, 0, Normal);
      var mine, theirs := RawStatements(g), Segments(tail, 0, EndMode(g, 0, Normal));
      GlueStartsWhole(mine, theirs);
      SeparatorThen(rest, EndMode(g, 0, Normal));
      assert mine == [g];
    }
  }

  /** Text without a separator keeps no semicolon when stripped. */
  lemma {:induction false} OneSegmentKeepsNoSemicolon(s: string, i: nat, m: Mode)
    requires i <= |s| && ValidMode(m) && |Segments(s, i, m)| == 1
    ensures ';' !in Kept(s, i, m)
    decreases |s| - i
  {
    hide Step;
    if i < |s| {
      var t := Step(s, i, m);
      OnlySeparatorsAreKept(s, i, m);
      OneSegmentKeepsNoSemicolon(s, i + t.length, t.mode);
    }
  }

  /** White space moves no scanner out of a literal; it can only end a line comment. */
  lemma {:induction false} SpaceIsInert(s: string, i: nat, m: Mode)
    requires i <= |s| && ValidMode(m)
    requires AllSpace(s)
    ensures AllSpace(Kept(s, i, m))
    ensures EndMode(s, i, m) == m || (m.LineComment? && EndMode(s, i, m) == Normal)
    ensures m.Normal? ==> Kept(s, i, m) == s[i..]
    ensures |Segments(s, i, m)| == 1
    decreases |s| - i
  {
    hide Step;
    if i < |s| {
      SpaceStep(s, i, m);
      SpaceIsInert(s, i + 1, Step(s, i, m).mode);
      assert s[i..] == [s[i]] + s[i + 1..];
    }
  }

  /** A trace moved right. */
  function Shifted(trace: seq<Mark>, distance: nat): (r: seq<Mark>)
    ensures |r| == |trace| && forall k | 0 <= k < |trace| :: r[k] == Mark(trace[k].index + distance, trace[k].mode)
  {
    seq(|trace|, k requires 0 <= k < |trace| => Mark(trace[k].index + distance, trace[k].mode))
  }

  lemma TraceStep(s: string, i: nat, m: Mode)
    requires i < |s| && ValidMode(m)
    ensures var t := Step(s, i, m); Trace(s, i, m) == [Mark(i, m)] + Trace(s, i + t.length, t.mode)
  {
  }

  lemma {:induction false} TraceShifts(x: string, y: string, i: nat, m: Mode)
    requires i <= |y| && ValidMode(m) && CleanCut(x, y)
    ensures Trace(x + y, |x| + i, m) == Shifted(Trace(y, i, m), |x|)
    decreases |y| - i
  {
    hide Step, CleanCut;
    if i < |y| {
      StepShifts(x, y, i, m);
      var t := Step(y, i, m);
      TraceShifts(x, y, i + t.length, t.mode);
      TraceStep(y, i, m);
      TraceStep(x + y, |x| + i, m);
    }
  }

  lemma {:induction false} TraceStaysLeft(x: string, y: string, i: nat, m: Mode)
    requires i <= |x| && ValidMode(m) && CleanCut(x, y)
    ensures Trace(x, i, m) <= Trace(x + y, i, m)
    ensures Mark(|x|, EndMode(x, i, m)) in Trace(x + y, i, m)
    decreases |x| - i
  {
    hide Step, CleanCut;
    if i < |x| {
      StepStaysLeft(x, y, i, m);
      var t := Step(x, i, m);
      TraceStaysLeft(x, y, i + t.length, t.mode);
      TraceStep(x, i, m);
      TraceStep(x + y, i, m);
    } else if y != "" {
      TraceStep(x + y, i, m);
    }
  }
}
