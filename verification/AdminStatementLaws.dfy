/** What splitting and stripping promise each other, for every SQL batch. */
module AdminStatementLaws {
  import opened Text
  import opened AdminLexer
  import opened AdminStatements

  /** A list of raw segments as the splitter produces them: each is one statement by itself,
      and every segment but the last ends outside quotes and comments. */
  ghost predicate Closed(raw: seq<string>) {
    && (forall k | 0 <= k < |raw| :: RawStatements(raw[k]) == [raw[k]])
    && (forall k | 0 <= k < |raw| - 1 :: EndMode(raw[k], 0, Normal) == Normal)
  }

  function Trimmed(raw: seq<string>): (r: seq<string>)
    ensures |r| == |raw| && forall k | 0 <= k < |raw| :: r[k] == Trim(raw[k])
  {
    seq(|raw|, k requires 0 <= k < |raw| => Trim(raw[k]))
  }

  function Stripped(raw: seq<string>): (r: seq<string>)
    ensures |r| == |raw| && forall k | 0 <= k < |raw| :: r[k] == Strip(raw[k])
  {
    seq(|raw|, k requires 0 <= k < |raw| => Strip(raw[k]))
  }

  lemma {:induction false} RawStatementsAreClosed(s: string)
    ensures Closed(RawStatements(s))
    decreases |RawStatements(s)|
  {
    var all := RawStatements(s);
    var rest := FirstRawStatement(s);
    if |all| > 1 {
      RawStatementsAreClosed(rest);
      assert forall k | 1 <= k < |all| :: all[k] == RawStatements(rest)[k - 1];
    }
  }

  /** The i-th separator-delimited piece of the stripped text is the i-th raw segment, stripped alone. */
  lemma {:induction false} StrippedPieces(s: string)
    ensures SplitOn(Strip(s), ';') == Stripped(RawStatements(s))
    decreases |RawStatements(s)|
  {
    hide SplitOn, Strip, RawStatements, EndMode;
    var all := RawStatements(s);
    var rest := FirstRawStatement(s);
    var g := all[0];
    StripHasNoSemicolon(g);
    SplitOnHead(Strip(g), ';', Strip(rest));
    if |all| == 1 {
      assert Stripped(all) == [Strip(g)];
    } else {
      StrippedPieces(rest);
      StripAtSeparator(g, rest);
      assert Stripped(all) == [Strip(g)] + Stripped(all[1..]);
    }
  }

  lemma StripHasNoSemicolon(g: string)
    requires RawStatements(g) == [g]
    ensures ';' !in Strip(g)
  {
    OneSegmentKeepsNoSemicolon(g, 0, Normal);
  }

  lemma StripAtSeparator(g: string, rest: string)
    requires EndMode(g, 0, Normal) == Normal
    ensures Strip(g + ";" + rest) == Strip(g) + [';'] + Strip(rest)
  {
    hide *;
    CutAroundSeparator(g, rest);
    CutLaw(g, ";" + rest, 0, Normal);
    CutLaw(";", rest, 0, Normal);
    LoneSemicolon();
    StripIsKept(g + ";" + rest);
    StripIsKept(g);
    StripIsKept(rest);
    assert g + ";" + rest == g + (";" + rest);
    assert Strip(g) + (";" + Strip(rest)) == Strip(g) + [';'] + Strip(rest);
  }

  lemma CutAroundSeparator(g: string, rest: string)
    ensures CleanCut(g, ";" + rest) && CleanCut(";", rest)
  {
    assert (";" + rest)[0] == ';';
  }

  lemma LoneSemicolon()
    ensures Kept(";", 0, Normal) == ";" && EndMode(";", 0, Normal) == Normal
  {
    SemicolonStep(";", 0);
  }

  lemma StripIsKept(s: string)
    ensures Strip(s) == Kept(s, 0, Normal)
  {
  }

  lemma OnlyAsciiInside(left: string, x: string, right: string)
    requires OnlyAsciiSpace(left + x + right)
    ensures OnlyAsciiSpace(left) && OnlyAsciiSpace(x) && OnlyAsciiSpace(right)
  {
    var s := left + x + right;
    assert forall k | 0 <= k < |left| :: left[k] == s[k];
    assert forall k | 0 <= k < |x| :: x[k] == s[|left| + k];
    assert forall k | 0 <= k < |right| :: right[k] == s[|left| + |x| + k];
  }

  /** A margin may be taken off before a text unless its last blank is beyond ASCII and the text then opens
      a dollar quote: such a blank counts as an identifier character, and an identifier keeps the quote shut. */
  predicate MayTakeOff(left: string, x: string) {
    left == "" || x == "" || IsAsciiSpace(left[|left| - 1]) || DollarDelimiter(x, 0).None?
  }

  /** Trimming the text takes off a margin that may be taken off. */
  predicate TrimsCleanly(s: string) { MayTakeOff(s[..MarginLength(s)], Trim(s)) }

  /** Trimming the k-th raw segment of a batch takes off a margin that may be taken off. */
  predicate SegmentTrimsCleanly(sql: string, k: nat) {
    k < |RawStatements(Trim(sql))| && TrimsCleanly(RawStatements(Trim(sql))[k])
  }

  lemma MarginsOf(s: string) returns (left: string, right: string)
    ensures s == left + Trim(s) + right && AllSpace(left) && AllSpace(right)
    ensures TrimsCleanly(s) <==> MayTakeOff(left, Trim(s))
  {
    left, right := TrimMargins(s);
    assert s[..MarginLength(s)] == left;
  }

  lemma MarginCutsCleanly(left: string, x: string, right: string)
    requires AllSpace(left) && AllSpace(right) && MayTakeOff(left, x)
    ensures CleanCut(left, x) && CleanCut(left + x, right) && CleanCut(x, right)
  {
  }

  /** Blank margins change neither what the scanners keep nor how many statements they see. */
  lemma MarginsAreInert(left: string, x: string, right: string)
    requires AllSpace(left) && AllSpace(right) && MayTakeOff(left, x)
    ensures EndMode(left + x, 0, Normal) == EndMode(x, 0, Normal)
    ensures var e := EndMode(x, 0, Normal);
            var e' := EndMode(left + x + right, 0, Normal);
            e' == e || (e.LineComment? && e'.Normal?)
    ensures Trim(Strip(left + x + right)) == Trim(Strip(x))
    ensures |RawStatements(left + x + right)| == |RawStatements(x)|
    ensures Trimmed(RawStatements(left + x + right)) == Trimmed(RawStatements(x))
  {
    hide CleanCut, MayTakeOff, Trim;
    MarginCutsCleanly(left, x, right);
    SpaceIsInert(left, 0, Normal);
    var e := EndMode(x, 0, Normal);
    SpaceIsInert(right, 0, e);
    CutLaw(left, x, 0, Normal);
    CutLaw(left + x, right, 0, Normal);
    TrimIgnoresMargins(left, Strip(x), Kept(right, 0, e));
    MarginsOnSegments(left, x, right);
  }

  lemma MarginsOnSegments(left: string, x: string, right: string)
    requires AllSpace(left) && AllSpace(right) && MayTakeOff(left, x)
    ensures RawStatements(left + x + right) == Glue(Glue([left], RawStatements(x)), [right])
    ensures |RawStatements(left + x + right)| == |RawStatements(x)|
    ensures Trimmed(RawStatements(left + x + right)) == Trimmed(RawStatements(x))
  {
    hide CleanCut, MayTakeOff, Trim;
    MarginCutsCleanly(left, x, right);
    SpaceIsInert(left, 0, Normal);
    SpaceIsInert(right, 0, EndMode(left + x, 0, Normal));
    OneSegmentIsAll(left, Normal);
    OneSegmentIsAll(right, EndMode(left + x, 0, Normal));
    CutLawForSegments(left, x, 0, Normal);
    CutLawForSegments(left + x, right, 0, Normal);
    TrimmedGlue(left, RawStatements(x), right);
  }

  lemma OneSegmentIsAll(s: string, m: Mode)
    requires ValidMode(m) && |Segments(s, 0, m)| == 1
    ensures Segments(s, 0, m) == [s]
  {
    SegmentsRebuild(s, 0, m);
    JoinOne(Segments(s, 0, m)[0], ";");
    assert Segments(s, 0, m) == [Segments(s, 0, m)[0]];
  }

  lemma TrimmedGlue(left: string, raw: seq<string>, right: string)
    requires AllSpace(left) && AllSpace(right) && |raw| > 0
    ensures var glued := Glue(Glue([left], raw), [right]);
            |glued| == |raw| && Trimmed(glued) == Trimmed(raw)
  {
    var glued := Glue(Glue([left], raw), [right]);
    var n := |raw| - 1;
    forall k | 0 <= k <= n ensures Trim(glued[k]) == Trim(raw[k]) {
      if n == 0 {
        assert glued[0] == left + raw[0] + right;
        TrimIgnoresMargins(left, raw[0], right);
      } else if k == 0 {
        assert glued[0] == left + raw[0] + "";
        TrimIgnoresMargins(left, raw[0], "");
      } else if k == n {
        assert glued[n] == "" + raw[n] + right;
        TrimIgnoresMargins("", raw[n], right);
      }
    }
  }

  lemma CollectFirst(first: string, rest: seq<string>)
    requires |rest| > 0
    ensures Collect([first] + rest) ==
            if Trim(first) == "" then Err(EmptyStatement)
            else match Collect(rest) case Ok(r) => Ok([Trim(first)] + r) case Err(e) => Err(e)
  {
    assert ([first] + rest)[1..] == rest;
  }

  ghost predicate BlankBeforeTheLast(raw: seq<string>) {
    exists k :: 0 <= k < |raw| - 1 && Trim(raw[k]) == ""
  }

  lemma BlankFirst(first: string, rest: seq<string>)
    requires |rest| > 0
    ensures BlankBeforeTheLast([first] + rest) <==> Trim(first) == "" || BlankBeforeTheLast(rest)
  {
    hide Trim;
    var raw := [first] + rest;
    if Trim(first) == "" {
      assert Trim(raw[0]) == "";
    }
    if BlankBeforeTheLast(rest) {
      var k :| 0 <= k < |rest| - 1 && Trim(rest[k]) == "";
      assert Trim(raw[k + 1]) == "";
    }
    if BlankBeforeTheLast(raw) {
      var k :| 0 <= k < |raw| - 1 && Trim(raw[k]) == "";
      assert k > 0 ==> Trim(rest[k - 1]) == "";
    }
  }

  function Statements(raw: seq<string>): seq<string>
    requires |raw| > 0
  {
    if Trim(raw[|raw| - 1]) == "" then Trimmed(raw)[..|raw| - 1] else Trimmed(raw)
  }

  /** Collecting depends on the raw segments only through their trimmed text. */
  lemma {:induction false} CollectMeaning(raw: seq<string>)
    requires |raw| > 0
    ensures Collect(raw) == if BlankBeforeTheLast(raw) then Err(EmptyStatement) else Ok(Statements(raw))
  {
    hide Trim, Collect, BlankBeforeTheLast, Statements;
    if |raw| == 1 {
      assert raw == [raw[0]];
      CollectLast(raw[0]);
      NothingBeforeTheLast(raw);
    } else {
      var first, rest := raw[0], raw[1..];
      assert raw == [first] + rest;
      CollectMeaning(rest);
      CollectFirst(first, rest);
      BlankFirst(first, rest);
      StatementsFirst(first, rest);
    }
  }

  lemma StatementsFirst(first: string, rest: seq<string>)
    requires |rest| > 0
    ensures Statements([first] + rest) == [Trim(first)] + Statements(rest)
  {
    hide Trim;
    var raw := [first] + rest;
    assert raw[|raw| - 1] == rest[|rest| - 1];
    assert Trimmed(raw) == [Trim(first)] + Trimmed(rest);
    assert ([Trim(first)] + Trimmed(rest))[..|rest|] == [Trim(first)] + Trimmed(rest)[..|rest| - 1];
  }

  lemma NothingBeforeTheLast(raw: seq<string>)
    requires |raw| == 1
    ensures !BlankBeforeTheLast(raw)
    ensures Statements(raw) == if Trim(raw[0]) == "" then [] else [Trim(raw[0])]
  {
    hide Trim;
    assert Trimmed(raw) == [Trim(raw[0])];
  }

  /** Splitting loses nothing: the raw segments rejoined with ';' are the trimmed batch, the batch is refused
      exactly when some segment before the last is blank, and otherwise the statements are the trimmed
      segments, without a blank last one. */
  lemma SplitIsLossless(sql: string)
    ensures var raw := RawStatements(Trim(sql));
            && Join(raw, ";") == Trim(sql)
            && Split(sql) == if BlankBeforeTheLast(raw) then Err(EmptyStatement) else Ok(Statements(raw))
  {
    RawStatementsRebuild(Trim(sql));
    CollectMeaning(RawStatements(Trim(sql)));
  }

  /** Splitting commutes with stripping: every statement whose segment trims cleanly is, stripped on its own and up to
      margins, the ';'-piece at its place in the batch stripped at once; only a blank last piece has no statement. */
  lemma SplitCommutesWithStrip(sql: string)
    requires Split(sql).Ok?
    ensures var raw, statements, pieces := RawStatements(Trim(sql)), Split(sql).value, SplitOn(Strip(Trim(sql)), ';');
            && |pieces| - 1 <= |statements| <= |pieces| == |raw|
            && (|statements| < |pieces| ==> Trim(pieces[|statements|]) == "")
            && (forall k | 0 <= k < |statements| && SegmentTrimsCleanly(sql, k) ::
                  Trim(Strip(statements[k])) == Trim(pieces[k]))
  {
    hide Trim, Strip, SplitOn, RawStatements, Collect, Join, TrimsCleanly;
    var raw := RawStatements(Trim(sql));
    SplitIsLossless(sql);
    StrippedPieces(Trim(sql));
    forall k | 0 <= k < |raw| && (TrimsCleanly(raw[k]) || Trim(raw[k]) == "")
      ensures Trim(Strip(Trim(raw[k]))) == Trim(Strip(raw[k]))
    {
      BlankTrimsCleanly(raw[k]);
      StripIgnoresMargins(raw[k]);
    }
    StripNothing();
  }

  lemma BlankTrimsCleanly(s: string)
    ensures Trim(s) == "" ==> TrimsCleanly(s)
  {
  }

  /** Stripping the batch before or after trimming it gives the same pieces, up to margins. */
  lemma StripBeforeOrAfterTrim(sql: string)
    requires TrimsCleanly(sql)
    ensures Trimmed(SplitOn(Strip(sql), ';')) == Trimmed(SplitOn(Strip(Trim(sql)), ';'))
  {
    hide Trim, Strip, SplitOn, RawStatements, TrimsCleanly, MayTakeOff;
    var left, right := MarginsOf(sql);
    var whole, raw := RawStatements(sql), RawStatements(Trim(sql));
    MarginsOnSegments(left, Trim(sql), right);
    StrippedPieces(sql);
    StrippedPieces(Trim(sql));
    FirstSegmentMayLoseMargin(left, Trim(sql));
    forall k | 0 <= k < |raw| ensures Trim(Strip(whole[k])) == Trim(Strip(raw[k])) {
      var before, after := if k == 0 then left else "", if k == |raw| - 1 then right else "";
      GlueAt(left, raw, right, k);
      NothingMayBeTakenOff(raw[k]);
      MarginsAreInert(before, raw[k], after);
    }
  }

  lemma NothingMayBeTakenOff(x: string)
    ensures MayTakeOff("", x)
  {
  }

  lemma GlueAt(left: string, raw: seq<string>, right: string, k: nat)
    requires k < |raw|
    ensures Glue(Glue([left], raw), [right])[k] ==
            (if k == 0 then left else "") + raw[k] + if k == |raw| - 1 then right else ""
  {
  }

  lemma FirstSegmentMayLoseMargin(left: string, x: string)
    requires MayTakeOff(left, x)
    ensures MayTakeOff(left, RawStatements(x)[0])
  {
    hide RawStatements, DollarDelimiter, Join;
    var g := RawStatements(x)[0];
    RawStatementsRebuild(x);
    JoinBegins(RawStatements(x));
    if g != "" && DollarDelimiter(g, 0).Some? {
      DelimiterFoundExactly(g, 0, DollarDelimiter(g, 0).value);
      DelimiterFoundExactly(x, 0, DollarDelimiter(g, 0).value);
    }
  }

  lemma JoinBegins(parts: seq<string>)
    requires |parts| > 0
    ensures parts[0] <= Join(parts, ";")
  {
  }

  lemma StripIgnoresMargins(g: string)
    requires TrimsCleanly(g)
    ensures Trim(Strip(Trim(g))) == Trim(Strip(g))
  {
    var l, r := MarginsOf(g);
    MarginsAreInert(l, Trim(g), r);
  }

  lemma StripNothing()
    ensures Trim(Strip("")) == ""
  {
  }

  /** Each part of a joined text consists of characters of the text. */
  lemma {:induction false} JoinHolds(parts: seq<string>, k: nat)
    requires k < |parts| && OnlyAsciiSpace(Join(parts, ";"))
    ensures OnlyAsciiSpace(parts[k])
  {
    if |parts| > 1 {
      var tail := Join(parts[1..], ";");
      OnlyAsciiInside(parts[0], ";", tail);
      if k > 0 {
        JoinHolds(parts[1..], k - 1);
      }
    }
  }

  /** A trimmed segment is still one statement; cut from its newline it ends outside quotes and comments. */
  lemma TrimKeepsClosed(g: string)
    requires TrimsCleanly(g) && RawStatements(g) == [g]
    ensures RawStatements(Trim(g)) == [Trim(g)]
    ensures EndMode(g, 0, Normal) == Normal ==>
              && RawStatements(Trim(g) + "\n") == [Trim(g) + "\n"]
              && EndMode(Trim(g) + "\n", 0, Normal) == Normal
  {
    var left, right := MarginsOf(g);
    var t := Trim(g);
    MarginsAreInert(left, t, right);
    OneSegmentIsAll(t, Normal);
    if EndMode(g, 0, Normal) == Normal {
      var e := EndMode(t, 0, Normal);
      CutLaw(t, "\n", 0, Normal);
      CutLawForSegments(t, "\n", 0, Normal);
      SpaceIsInert("\n", 0, e);
      OneSegmentIsAll("\n", e);
      NewlineEndsLineComment();
    }
  }

  lemma NewlineEndsLineComment()
    ensures EndMode("\n", 0, LineComment) == Normal && EndMode("\n", 0, Normal) == Normal
  {
    assert Step("\n", 0, LineComment) == Token(1, Normal, "\n");
    SpaceIsInert("\n", 0, Normal);
  }

  /** Where all white space is ASCII every segment trims cleanly. */
  lemma AsciiSegmentsTrimCleanly(sql: string, k: nat)
    requires OnlyAsciiSpace(sql) && k < |RawStatements(Trim(sql))|
    ensures TrimsCleanly(sql) && SegmentTrimsCleanly(sql, k)
  {
    var left, right := TrimMargins(sql);
    OnlyAsciiInside(left, Trim(sql), right);
    var raw := RawStatements(Trim(sql));
    RawStatementsRebuild(Trim(sql));
    JoinHolds(raw, k);
    AsciiTrimsCleanly(sql);
    AsciiTrimsCleanly(raw[k]);
  }

  lemma AsciiTrimsCleanly(s: string)
    requires OnlyAsciiSpace(s)
    ensures TrimsCleanly(s)
  {
    var left, right := MarginsOf(s);
    OnlyAsciiInside(left, Trim(s), right);
  }

  /** Splitting a returned statement again yields just that statement, if its segment trims cleanly. */
  lemma StatementsAreFixed(sql: string, k: nat)
    requires Split(sql).Ok? && k < |Split(sql).value| && SegmentTrimsCleanly(sql, k)
    ensures Split(Split(sql).value[k]) == Ok([Split(sql).value[k]])
  {
    hide Trim, RawStatements, Collect, Join, BlankBeforeTheLast, TrimsCleanly;
    SplitIsLossless(sql);
    RawStatementsAreClosed(Trim(sql));
    var raw := RawStatements(Trim(sql));
    var statement := Split(sql).value[k];
    assert statement == Trim(raw[k]);
    SplitHasNoBlank(raw, k);
    TrimKeepsClosed(raw[k]);
    TrimTwice(raw[k]);
    CollectLast(statement);
  }

  lemma SplitHasNoBlank(raw: seq<string>, k: nat)
    requires |raw| > 0 && !BlankBeforeTheLast(raw) && k < |Statements(raw)|
    ensures Statements(raw)[k] == Trim(raw[k]) != ""
  {
    hide Trim;
  }

  lemma AppendStatement(g: string, rest: string)
    requires RawStatements(g) == [g] && EndMode(g, 0, Normal) == Normal
    ensures RawStatements(g + ";" + rest) == [g] + RawStatements(rest)
  {
    hide *;
    CutAroundSeparator(g, rest);
    SeparatorFirst(rest);
    RightSegments(";", rest, 0, Normal);
    CutLawForSegments(g, ";" + rest, 0, Normal);
    assert g + ";" + rest == g + (";" + rest);
    RawStatementsAre(g + ";" + rest);
    RawStatementsAre(g);
    RawStatementsAre(rest);
    GlueEnd(g, RawStatements(rest));
  }

  lemma SeparatorFirst(rest: string)
    ensures Segments(";" + rest, 0, Normal) == [""] + Segments(";" + rest, 1, Normal)
  {
    SeparatorSegments(";" + rest, 0);
  }

  lemma RawStatementsAre(s: string)
    ensures RawStatements(s) == Segments(s, 0, Normal)
  {
  }

  lemma GlueEnd(g: string, rest: seq<string>)
    ensures Glue([g], [""] + rest) == [g] + rest
  {
    assert g + "" == g;
  }

  /** One joined statement: its newline closes a line comment, so its semicolon separates. */
  lemma JoinedHead(g: string, rest: string)
    requires RawStatements(g) == [g] && EndMode(g, 0, Normal) == Normal && TrimsCleanly(g) && Trim(g) != ""
    ensures Collect(RawStatements(Trim(g) + "\n;" + rest)) ==
            match Collect(RawStatements(rest)) case Ok(r) => Ok([Trim(g)] + r) case Err(e) => Err(e)
  {
    hide *;
    var t := Trim(g);
    TrimKeepsClosed(g);
    AppendStatement(t + "\n", rest);
    assert t + "\n;" + rest == (t + "\n") + ";" + rest;
    TrimMarginsOf(t);
    TrimTwice(g);
    CollectFirst(t + "\n", RawStatements(rest));
  }

  lemma TrimMarginsOf(t: string)
    ensures Trim(t + "\n") == Trim(t)
  {
    assert t + "\n" == "" + t + "\n";
    TrimIgnoresMargins("", t, "\n");
  }

  lemma TrimTwice(s: string)
    ensures Solid(Trim(s)) && Trim(Trim(s)) == Trim(s)
  {
    var _, _ := TrimMargins(s);
    SolidTrimsToItself(Trim(s));
  }

  lemma {:induction false} JoinedSplits(raw: seq<string>)
    requires |raw| > 0 && Closed(raw)
    requires forall k | 0 <= k < |raw| :: TrimsCleanly(raw[k]) && Trim(raw[k]) != ""
    ensures Join(Trimmed(raw), "\n;") != "" && Solid(Join(Trimmed(raw), "\n;"))
    ensures Collect(RawStatements(Join(Trimmed(raw), "\n;"))) == Ok(Trimmed(raw))
    decreases |raw|
  {
    hide Trim, RawStatements, Collect, Join, TrimsCleanly, EndMode;
    var t := Trim(raw[0]);
    TrimTwice(raw[0]);
    if |raw| == 1 {
      TrimKeepsClosed(raw[0]);
      assert Trimmed(raw) == [t];
      JoinOne(t, "\n;");
      CollectLast(t);
    } else {
      var tail := raw[1..];
      assert forall k | 0 <= k < |tail| :: tail[k] == raw[k + 1];
      JoinedSplits(tail);
      var rest := Join(Trimmed(tail), "\n;");
      JoinedHead(raw[0], rest);
      assert Trimmed(raw) == [t] + Trimmed(tail);
      JoinCons(t, Trimmed(tail), "\n;");
    }
  }

  /** Joining the statements with newline and semicolon, then splitting, gives back the same list, if their
      segments trim cleanly. */
  lemma SplitUndoesJoin(sql: string)
    requires Split(sql).Ok?
    requires forall k | 0 <= k < |Split(sql).value| :: SegmentTrimsCleanly(sql, k)
    ensures Split(Join(Split(sql).value, "\n;")) == Split(sql)
  {
    hide Trim, RawStatements, Collect, Join, TrimsCleanly, EndMode, BlankBeforeTheLast;
    SplitIsLossless(sql);
    RawStatementsAreClosed(Trim(sql));
    var raw := RawStatements(Trim(sql));
    var used := raw[..|Split(sql).value|];
    assert Split(sql).value == Trimmed(used);
    if used == [] {
      SplitNothing();
    } else {
      forall k | 0 <= k < |used| ensures Trim(used[k]) != "" && TrimsCleanly(used[k]) {
        SplitHasNoBlank(raw, k);
        assert SegmentTrimsCleanly(sql, k) && used[k] == raw[k];
      }
      JoinedSplits(used);
      SolidTrimsToItself(Join(Trimmed(used), "\n;"));
    }
  }

  lemma SplitNothing()
    ensures Join([], "\n;") == "" && Split("") == Ok([])
  {
    CollectLast("");
  }

  /** The marks behind a mark of a trace are marks of the trace. */
  lemma {:induction false} TraceContinues(s: string, i: nat, m: Mode, j: nat, n: Mode, mark: Mark)
    requires i <= |s| && j <= |s| && ValidMode(m) && ValidMode(n)
    requires Mark(j, n) in Trace(s, i, m) && mark in Trace(s, j, n)
    ensures mark in Trace(s, i, m)
    decreases |s| - i
  {
    hide Step;
    if Mark(j, n) != Mark(i, m) && i < |s| {
      TraceStep(s, i, m);
      var t := Step(s, i, m);
      TraceContinues(s, i + t.length, t.mode, j, n, mark);
    }
  }

  /** Outside quotes and comments blanks are passed one by one. */
  lemma {:induction false} BlanksArePassed(s: string, i: nat, j: nat)
    requires i <= j <= |s| && AllSpace(s[i..j])
    ensures Mark(j, Normal) in Trace(s, i, Normal)
    decreases j - i
  {
    hide Step;
    if i < j {
      assert s[i] == s[i..j][0] && s[i + 1..j] == s[i..j][1..];
      SpaceStep(s, i, Normal);
      TraceStep(s, i, Normal);
      BlanksArePassed(s, i + 1, j);
    } else if i < |s| {
      TraceStep(s, i, Normal);
    }
  }

  /** Where the k-th segment stands in its batch. */
  lemma {:induction false} SegmentInPlace(s: string, k: nat) returns (before: string, after: string)
    requires k < |RawStatements(s)|
    ensures s == before + (RawStatements(s)[k] + after)
    ensures before == "" || before[|before| - 1] == ';'
    ensures after == "" || after[0] == ';'
    ensures EndMode(before, 0, Normal) == Normal
    decreases k
  {
    hide RawStatements, EndMode;
    var g := RawStatements(s)[0];
    var rest := FirstRawStatement(s);
    if k == 0 {
      before, after := "", if |RawStatements(s)| == 1 then "" else ";" + rest;
      EmptyEndsNormal();
      assert s == g + after;
    } else {
      var tail;
      tail, after := SegmentInPlace(rest, k - 1);
      before := g + (";" + tail);
      assert RawStatements(s)[k] == RawStatements(rest)[k - 1];
      assert g + ";" + (tail + (RawStatements(s)[k] + after)) == before + (RawStatements(s)[k] + after);
      CutLaw(g, ";" + tail, 0, Normal);
      CutLaw(";", tail, 0, Normal);
      SemicolonEndsNormal();
    }
  }

  lemma EmptyEndsNormal()
    ensures EndMode("", 0, Normal) == Normal
  {
  }

  lemma SemicolonEndsNormal()
    ensures EndMode(";", 0, Normal) == Normal
  {
    SemicolonStep(";", 0);
  }

  /** A statement lexed alone takes exactly the steps the scanners take over it in the batch if and only if its
      segment trims cleanly; `at` is where it starts, outside every quote and comment. */
  lemma StatementTakesTheBatchsSteps(sql: string, k: nat) returns (at: nat)
    requires Split(sql).Ok? && k < |Split(sql).value|
    ensures var batch, statement := Trim(sql), Split(sql).value[k];
            && at + |statement| <= |batch| && batch[at..at + |statement|] == statement
            && Mark(at, Normal) in Trace(batch, 0, Normal)
            && (Shifted(Trace(statement, 0, Normal), at) <= Trace(batch, at, Normal) <==>
                SegmentTrimsCleanly(sql, k))
  {
    hide Trim, RawStatements, Collect, Join, BlankBeforeTheLast, TrimsCleanly, Trace, Step, CleanCut, AllSpace, EndMode;
    SplitIsLossless(sql);
    var batch, raw := Trim(sql), RawStatements(Trim(sql));
    SplitHasNoBlank(raw, k);
    var before, after := SegmentInPlace(batch, k);
    var g, t := raw[k], Split(sql).value[k];
    var left, right := MarginsOf(g);
    at := |before + left|;
    assert batch == (before + left) + (t + (right + after));
    assert batch[at..at + |t|] == t;
    SegmentStart(before, left, t + (right + after));
    StepsInPlace(before, left, t, right, after);
    assert before + (left + t + right + after) == batch;
  }

  lemma SegmentStart(before: string, left: string, rest: string)
    requires AllSpace(left) && (before == "" || before[|before| - 1] == ';') && EndMode(before, 0, Normal) == Normal
    ensures Mark(|before + left|, Normal) in Trace(before + left + rest, 0, Normal)
  {
    hide Trace, EndMode, Step, AllSpace;
    var s := before + left + rest;
    assert s == before + (left + rest);
    TraceStaysLeft(before, left + rest, 0, Normal);
    assert s[|before|..|before + left|] == left;
    BlanksArePassed(s, |before|, |before + left|);
    TraceContinues(s, 0, Normal, |before|, Normal, Mark(|before + left|, Normal));
  }

  lemma StepsInPlace(before: string, left: string, t: string, right: string, after: string)
    requires (before == "" || before[|before| - 1] == ';') && (after == "" || after[0] == ';')
    requires AllSpace(left) && AllSpace(right) && t != ""
    ensures var s := before + (left + t + right + after);
            Shifted(Trace(t, 0, Normal), |before + left|) <= Trace(s, |before + left|, Normal) <==> MayTakeOff(left, t)
  {
    hide Trace, Step, AllSpace, CleanCut, DollarDelimiter;
    if MayTakeOff(left, t) {
      SameSteps(before, left, t, right, after);
    } else {
      OtherSteps(before, left, t, right + after);
      assert left + t + (right + after) == left + t + right + after;
    }
  }

  lemma SameSteps(before: string, left: string, t: string, right: string, after: string)
    requires (before == "" || before[|before| - 1] == ';') && (after == "" || after[0] == ';')
    requires AllSpace(left) && AllSpace(right) && t != "" && MayTakeOff(left, t)
    ensures var s := before + (left + t + right + after);
            Shifted(Trace(t, 0, Normal), |before + left|) <= Trace(s, |before + left|, Normal)
  {
    hide Trace, Step, AllSpace, CleanCut, MayTakeOff;
    MarginCutsCleanly(left, t, right);
    TraceStaysLeft(t, right, 0, Normal);
    MayTakeOffLonger(left, t, right);
    TraceShifts(left, t + right, 0, Normal);
    assert left + (t + right) == left + t + right;
    CutAtSeparators(before, left + t + right, after);
    TraceStaysLeft(left + t + right, after, |left|, Normal);
    TraceShifts(before, left + t + right + after, |left|, Normal);
    var alone := Trace(t, 0, Normal);
    ShiftedPrefix(alone, Trace(t + right, 0, Normal), |left|);
    ShiftedPrefix(Shifted(alone, |left|), Trace(left + t + right + after, |left|, Normal), |before|);
    assert Shifted(Shifted(alone, |left|), |before|) == Shifted(alone, |before + left|);
  }

  lemma OtherSteps(before: string, left: string, t: string, rest: string)
    requires AllSpace(left) && t != "" && !MayTakeOff(left, t)
    ensures var s := before + (left + t + rest);
            !(Shifted(Trace(t, 0, Normal), |before + left|) <= Trace(s, |before + left|, Normal))
  {
    var s, at := before + (left + t + rest), |before + left|;
    assert s[at - 1] == left[|left| - 1];
    assert s[at] == t[0];
    hide Trace, Step, DollarDelimiter;
    LastBlank(left);
    FirstStepsDiffer(s, at, t);
    TraceStep(t, 0, Normal);
    TraceStep(s, at, Normal);
    SecondMark(t, Step(t, 0, Normal).length, Step(t, 0, Normal).mode);
    SecondMark(s, at + Step(s, at, Normal).length, Step(s, at, Normal).mode);
    assert Shifted(Trace(t, 0, Normal), at)[1].mode.DollarQuote?;
    assert Trace(s, at, Normal)[1].mode.Normal?;
  }

  lemma LastBlank(s: string)
    requires AllSpace(s) && s != ""
    ensures IsSpace(s[|s| - 1])
  {
  }

  lemma SecondMark(s: string, i: nat, m: Mode)
    requires i <= |s| && ValidMode(m)
    ensures |Trace(s, i, m)| > 0 && Trace(s, i, m)[0] == Mark(i, m)
  {
  }

  lemma ShiftedPrefix(a: seq<Mark>, b: seq<Mark>, distance: nat)
    requires a <= b
    ensures Shifted(a, distance) <= Shifted(b, distance)
  {
  }

  lemma MayTakeOffLonger(left: string, t: string, right: string)
    requires AllSpace(left) && AllSpace(right) && MayTakeOff(left, t) && t != ""
    ensures CleanCut(left, t + right)
  {
    if t[0] == '$' {
      TagScanStaysLeft(t, right, 0, 1);
    }
    assert (t + right)[0] == t[0];
  }

  lemma CutAtSeparators(before: string, g: string, after: string)
    requires (before == "" || before[|before| - 1] == ';') && (after == "" || after[0] == ';')
    ensures CleanCut(before, g + after) && CleanCut(g, after)
  {
  }

  /** Behind a blank beyond ASCII a dollar sign is a character like any other; at the start it opens a quote. */
  lemma FirstStepsDiffer(s: string, at: nat, t: string)
    requires 0 < at < |s| && t != "" && s[at] == t[0] && DollarDelimiter(t, 0).Some?
    requires IsSpace(s[at - 1]) && !IsAsciiSpace(s[at - 1])
    ensures Step(t, 0, Normal).mode.DollarQuote? && Step(s, at, Normal) == Token(1, Normal, "$")
  {
    StepInNormal(t, 0);
    StepInNormal(s, at);
  }

  /** A segment that does not trim cleanly can break commutation: a no-break space is trimmed away like a blank, yet
      before a dollar sign it counts as an identifier character, so the same `$$` is plain text in the batch and
      opens a quote in the statement. */
  lemma NoBreakSpaceBreaksCommutation()
    ensures var sql := "x;\U{00A0}$$";
            && Split(sql) == Ok(["x", "$$"])
            && Trim(Strip("$$")) == ""
            && SplitOn(Strip(Trim(sql)), ';') == ["x", "\U{00A0}$$"]
            && Trim("\U{00A0}$$") == "$$"
  {
    hide *;
    BatchStatements();
    BatchTrims();
    TailTrims();
    BatchPieces();
    DollarsAlone();
    CollectLast("");
  }

  lemma BatchStatements()
    ensures Split("x;\U{00A0}$$") == Ok(["x", "$$"])
  {
    hide Trim, RawStatements, Collect;
    BatchTrims();
    BatchSegments();
    TailTrims();
    CollectLast("\U{00A0}$$");
    CollectFirst("x", ["\U{00A0}$$"]);
    assert ["x"] + ["$$"] == ["x", "$$"];
  }

  lemma BatchPieces()
    ensures SplitOn(Strip("x;\U{00A0}$$"), ';') == ["x", "\U{00A0}$$"]
  {
    hide Strip, SplitOn, RawStatements;
    StrippedPieces("x;\U{00A0}$$");
    BatchSegments();
    LetterAlone();
    NoBreakSpaceHidesTheQuote();
    assert RawStatements("x;\U{00A0}$$") == ["x", "\U{00A0}$$"];
  }

  lemma TailTrims()
    ensures Trim("\U{00A0}$$") == "$$"
  {
    assert "\U{00A0}$$" == "\U{00A0}" + "$$" + "";
    TrimIsTheSolidMiddle("\U{00A0}", "$$", "");
  }

  lemma BatchTrims()
    ensures Trim("x;\U{00A0}$$") == "x;\U{00A0}$$" && Trim("x") == "x"
  {
    SolidTrimsToItself("x;\U{00A0}$$");
    SolidTrimsToItself("x");
  }

  lemma BatchSegments()
    ensures RawStatements("x;\U{00A0}$$") == ["x"] + ["\U{00A0}$$"]
  {
    hide *;
    LetterAlone();
    NoBreakSpaceHidesTheQuote();
    AppendStatement("x", "\U{00A0}$$");
    assert "x;\U{00A0}$$" == "x" + ";" + "\U{00A0}$$";
  }

  lemma LetterAlone()
    ensures RawStatements("x") == ["x"] && EndMode("x", 0, Normal) == Normal && Strip("x") == "x"
  {
    assert Step("x", 0, Normal) == Token(1, Normal, "x");
    AtTheEnd("", [], "x", Normal);
    assert "x"[0..1] + "" == "x";
  }

  lemma NoBreakSpaceHidesTheQuote()
    ensures var tail := "\U{00A0}$$"; Strip(tail) == tail && RawStatements(tail) == [tail]
  {
    var s := "\U{00A0}$$";
    assert !MayOpenAt(s, 1) && !MayOpenAt(s, 2);
    PlainStep(s, 0);
    PlainStep(s, 1);
    PlainStep(s, 2);
    hide Step;
    assert Kept(s, 3, Normal) == "" && Segments(s, 3, Normal) == [""];
    assert Kept(s, 2, Normal) == "$" && Segments(s, 2, Normal)[0] == "$";
    assert Kept(s, 1, Normal) == "$$" && Segments(s, 1, Normal)[0] == "$$";
  }

  lemma PlainStep(s: string, i: nat)
    requires i < |s| && s[i] !in {'-', '/', '\'', '"', ';'} && (s[i] == '$' ==> !MayOpenAt(s, i))
    ensures Step(s, i, Normal) == Token(1, Normal, [s[i]])
  {
    StepInNormal(s, i);
  }

  lemma DollarsAlone()
    ensures Strip("$$") == ""
  {
    DelimiterFoundExactly("$$", 0, "$$");
    StepInNormal("$$", 0);
  }

  const QUOTED_SEPARATOR := "$$'$$;'"

  /** It can break the other two laws as well: the separator stands in a string in the batch; in the statement on its
      own the dollar quote opens first and ends before it. */
  lemma NoBreakSpaceSplitsAStatement()
    ensures var sql := "x;\U{00A0}" + QUOTED_SEPARATOR;
            && Split(sql) == Ok(["x", QUOTED_SEPARATOR])
            && Split(QUOTED_SEPARATOR) == Ok(["$$'$$", "'"])
            && Split(Join(["x", QUOTED_SEPARATOR], "\n;")) == Ok(["x", "$$'$$", "'"])
  {
    hide Trim, Strip, Split, SplitOn, Collect, RawStatements, Join, Step, EndMode, TrimsCleanly;
    QuotedAsOne();
    QuotedAlone();
    QuotedBatch();
    QuotedJoin();
  }

  /** A step that is no separator does not end the segment. */
  lemma StepJoinsSegment(s: string, i: nat, m: Mode)
    requires i < |s| && ValidMode(m) && !(m.Normal? && s[i] == ';')
    requires var t := Step(s, i, m); Segments(s, i + t.length, t.mode) == [s[i + t.length..]]
    ensures Segments(s, i, m) == [s[i..]]
  {
    hide Step, Segments;
    StepSegments(s, i, m);
    var n := Step(s, i, m).length;
    assert s[i..] == s[i..i + n] + s[i + n..];
  }

  lemma NoSegmentLeft(s: string, m: Mode)
    requires ValidMode(m)
    ensures Segments(s, |s|, m) == [s[|s|..]]
  {
    hide Segments;
    SegmentsAtEnd(s, m);
    assert s[|s|..] == "";
  }

  lemma QuotedSteps()
    ensures var s := "\U{00A0}" + QUOTED_SEPARATOR;
            && |s| == 8
            && Step(s, 0, Normal) == Token(1, Normal, [s[0]]) && Step(s, 1, Normal) == Token(1, Normal, [s[1]])
            && Step(s, 2, Normal) == Token(1, Normal, [s[2]]) && Step(s, 3, Normal) == Token(1, SingleQuote, "")
            && (forall i | 4 <= i < 7 :: Step(s, i, SingleQuote) == Token(1, SingleQuote, ""))
            && Step(s, 7, SingleQuote) == Token(1, Normal, "")
  {
    var s := "\U{00A0}" + QUOTED_SEPARATOR;
    hide Step;
    PlainStep(s, 0);
    PlainStep(s, 1);
    PlainStep(s, 2);
    StepInNormal(s, 3);
    StepInQuote(s, 4);
    StepInQuote(s, 5);
    StepInQuote(s, 6);
    StepInQuote(s, 7);
  }

  /** Behind the no-break space all of it is one segment. */
  lemma QuotedAsOne()
    ensures RawStatements("\U{00A0}" + QUOTED_SEPARATOR) == ["\U{00A0}" + QUOTED_SEPARATOR]
  {
    hide Step, Segments;
    var s := "\U{00A0}" + QUOTED_SEPARATOR;
    QuotedSteps();
    NoSegmentLeft(s, Normal);
    StepJoinsSegment(s, 7, SingleQuote);
    StepJoinsSegment(s, 6, SingleQuote);
    StepJoinsSegment(s, 5, SingleQuote);
    StepJoinsSegment(s, 4, SingleQuote);
    StepJoinsSegment(s, 3, Normal);
    StepJoinsSegment(s, 2, Normal);
    StepJoinsSegment(s, 1, Normal);
    StepJoinsSegment(s, 0, Normal);
    assert s[0..] == s;
  }

  /** On its own the dollar quote ends before the separator. */
  lemma QuotedAlone()
    ensures RawStatements(QUOTED_SEPARATOR) == ["$$'$$", "'"]
    ensures Split(QUOTED_SEPARATOR) == Ok(["$$'$$", "'"])
  {
    hide Trim, Strip, Split, SplitOn, Collect, RawStatements, Join, Step, EndMode, TrimsCleanly;
    DollarQuoteIsOne();
    LoneQuote();
    AppendStatement("$$'$$", "'");
    assert QUOTED_SEPARATOR == "$$'$$" + ";" + "'";
    assert ["$$'$$"] + ["'"] == ["$$'$$", "'"];
    SolidTexts();
    CollectFirst("$$'$$", ["'"]);
    CollectLast("'");
    SplitUnfolds(QUOTED_SEPARATOR);
  }

  lemma SplitUnfolds(sql: string)
    ensures Split(sql) == Collect(RawStatements(Trim(sql)))
  {
  }

  lemma SolidTexts()
    ensures Trim(QUOTED_SEPARATOR) == QUOTED_SEPARATOR && Trim("$$'$$") == "$$'$$" && Trim("'") == "'" && Trim("x") == "x"
    ensures Trim("x;\U{00A0}" + QUOTED_SEPARATOR) == "x;\U{00A0}" + QUOTED_SEPARATOR
    ensures Trim("\U{00A0}" + QUOTED_SEPARATOR) == QUOTED_SEPARATOR
    ensures Trim("x\n;" + QUOTED_SEPARATOR) == "x\n;" + QUOTED_SEPARATOR && Trim("x\n") == "x"
  {
    SolidTrimsToItself(QUOTED_SEPARATOR);
    SolidTrimsToItself("$$'$$");
    SolidTrimsToItself("'");
    SolidTrimsToItself("x");
    SolidTrimsToItself("x;\U{00A0}" + QUOTED_SEPARATOR);
    SolidTrimsToItself("x\n;" + QUOTED_SEPARATOR);
    TrimIsTheSolidMiddle("\U{00A0}", QUOTED_SEPARATOR, "");
    assert "\U{00A0}" + QUOTED_SEPARATOR + "" == "\U{00A0}" + QUOTED_SEPARATOR;
    TrimIsTheSolidMiddle("", "x", "\n");
    assert "" + "x" + "\n" == "x\n";
  }

  lemma DollarQuoteSteps()
    ensures var s := "$$'$$";
            && Step(s, 0, Normal) == Token(2, DollarQuote("$$"), "")
            && Step(s, 2, DollarQuote("$$")) == Token(1, DollarQuote("$$"), "")
            && Step(s, 3, DollarQuote("$$")) == Token(2, Normal, "")
  {
    hide Step, DollarDelimiter;
    var s := "$$'$$";
    DelimiterFoundExactly(s, 0, "$$");
    StepInNormal(s, 0);
    StepInDollarQuote(s, 2, "$$");
    StepInDollarQuote(s, 3, "$$");
  }

  lemma DollarQuoteIsOne()
    ensures RawStatements("$$'$$") == ["$$'$$"] && EndMode("$$'$$", 0, Normal) == Normal
  {
    hide Step, Segments, EndMode;
    var s := "$$'$$";
    DollarQuoteSteps();
    NoSegmentLeft(s, Normal);
    StepJoinsSegment(s, 3, DollarQuote("$$"));
    StepJoinsSegment(s, 2, DollarQuote("$$"));
    StepJoinsSegment(s, 0, Normal);
    assert s[0..] == s;
    EndModeSteps(s, 0, Normal);
    EndModeSteps(s, 2, DollarQuote("$$"));
    EndModeSteps(s, 3, DollarQuote("$$"));
    EndModeSteps(s, 5, Normal);
  }

  lemma EndModeSteps(s: string, i: nat, m: Mode)
    requires i <= |s| && ValidMode(m)
    ensures EndMode(s, i, m) == if i == |s| then m else EndMode(s, i + Step(s, i, m).length, Step(s, i, m).mode)
  {
  }

  lemma LoneQuote()
    ensures RawStatements("'") == ["'"]
  {
    var s := "'";
    StepInNormal(s, 0);
    NoSegmentLeft(s, SingleQuote);
    hide Step, Segments;
    StepJoinsSegment(s, 0, Normal);
    assert s[0..] == s;
  }

  lemma QuotedBatch()
    ensures Split("x;\U{00A0}" + QUOTED_SEPARATOR) == Ok(["x", QUOTED_SEPARATOR])
  {
    hide Trim, Strip, Split, SplitOn, Collect, RawStatements, Join, Step, EndMode, TrimsCleanly;
    var g := "\U{00A0}" + QUOTED_SEPARATOR;
    QuotedAsOne();
    LetterAlone();
    AppendStatement("x", g);
    assert "x" + ";" + g == "x;\U{00A0}" + QUOTED_SEPARATOR;
    SolidTexts();
    CollectLast(g);
    CollectFirst("x", [g]);
    SplitUnfolds("x;\U{00A0}" + QUOTED_SEPARATOR);
    assert ["x"] + [QUOTED_SEPARATOR] == ["x", QUOTED_SEPARATOR];
    assert QUOTED_SEPARATOR != "";
  }

  lemma QuotedJoin()
    ensures Split(Join(["x", QUOTED_SEPARATOR], "\n;")) == Ok(["x", "$$'$$", "'"])
  {
    hide Trim, Strip, Split, SplitOn, Collect, RawStatements, Join, Step, EndMode, TrimsCleanly;
    QuotedAlone();
    LetterAlone();
    AsciiTrimsCleanly("x");
    SolidTexts();
    JoinedHead("x", QUOTED_SEPARATOR);
    JoinCons("x", [QUOTED_SEPARATOR], "\n;");
    JoinOne(QUOTED_SEPARATOR, "\n;");
    assert ["x"] + [QUOTED_SEPARATOR] == ["x", QUOTED_SEPARATOR];
    assert "x" + "\n;" + QUOTED_SEPARATOR == "x\n;" + QUOTED_SEPARATOR;
    SplitUnfolds(QUOTED_SEPARATOR);
    SplitUnfolds("x\n;" + QUOTED_SEPARATOR);
    assert ["x"] + ["$$'$$", "'"] == ["x", "$$'$$", "'"];
  }

  const COMMENT_IN_QUOTE := "$$--$$$$"

  lemma KeptSteps(s: string, i: nat, m: Mode)
    requires i < |s| && ValidMode(m)
    ensures var t := Step(s, i, m); Kept(s, i, m) == t.kept + Kept(s, i + t.length, t.mode)
  {
  }

  lemma {:induction false} LineCommentKeepsNothing(s: string, i: nat)
    requires i <= |s| && '\n' !in s
    ensures Kept(s, i, LineComment) == ""
    decreases |s| - i
  {
    if i < |s| {
      StepInComment(s, i);
      LineCommentKeepsNothing(s, i + 1);
    }
  }

  /** Behind the no-break space the dollar signs are plain and the comment takes the rest. */
  lemma CommentInTheSegment()
    ensures Strip("\U{00A0}" + COMMENT_IN_QUOTE) == "\U{00A0}$$"
  {
    hide Step, Kept;
    var s := "\U{00A0}" + COMMENT_IN_QUOTE;
    PlainStep(s, 0);
    PlainStep(s, 1);
    PlainStep(s, 2);
    StepInNormal(s, 3);
    KeptSteps(s, 0, Normal);
    KeptSteps(s, 1, Normal);
    KeptSteps(s, 2, Normal);
    KeptSteps(s, 3, Normal);
    LineCommentKeepsNothing(s, 5);
    StripIsKept(s);
  }

  lemma CommentInTheQuoteSteps()
    ensures var s, q := COMMENT_IN_QUOTE, DollarQuote("$$");
            && Step(s, 0, Normal) == Token(2, q, "")
            && Step(s, 2, q) == Token(1, q, "") && Step(s, 3, q) == Token(1, q, "") && Step(s, 4, q) == Token(2, Normal, "")
            && Step(s, 6, Normal) == Token(1, Normal, "$") && Step(s, 7, Normal) == Token(1, Normal, "$")
  {
    hide Step, DollarDelimiter;
    var s := COMMENT_IN_QUOTE;
    DelimiterFoundExactly(s, 0, "$$");
    StepInNormal(s, 0);
    StepInDollarQuote(s, 2, "$$");
    StepInDollarQuote(s, 3, "$$");
    StepInDollarQuote(s, 4, "$$");
    PlainStep(s, 6);
    PlainStep(s, 7);
  }

  /** In the statement the comment is quoted away, and two dollar signs behind the quote remain. */
  lemma CommentInTheStatement()
    ensures Strip(COMMENT_IN_QUOTE) == "$$"
  {
    hide Step, Kept;
    var s, q := COMMENT_IN_QUOTE, DollarQuote("$$");
    CommentInTheQuoteSteps();
    KeptSteps(s, 0, Normal);
    KeptSteps(s, 2, q);
    KeptSteps(s, 3, q);
    KeptSteps(s, 4, q);
    KeptSteps(s, 6, Normal);
    KeptSteps(s, 7, Normal);
    KeptAtEnd(s);
    StripIsKept(s);
  }

  lemma KeptAtEnd(s: string)
    ensures Kept(s, |s|, Normal) == ""
  {
  }

  /** Not trimming cleanly does not always break commutation: this statement is lexed differently alone and in its
      segment, and yet the same text is left of both. */
  lemma UncleanSegmentMayCommute()
    ensures var g := "\U{00A0}" + COMMENT_IN_QUOTE;
            && !TrimsCleanly(g) && Trim(g) == COMMENT_IN_QUOTE
            && Trim(Strip(Trim(g))) == Trim(Strip(g)) == "$$"
  {
    hide Trim, Strip, DollarDelimiter;
    var g := "\U{00A0}" + COMMENT_IN_QUOTE;
    TrimIsTheSolidMiddle("\U{00A0}", COMMENT_IN_QUOTE, "");
    assert g + "" == g;
    TrimIsTheSolidMiddle("\U{00A0}", "$$", "");
    assert "\U{00A0}" + "$$" + "" == "\U{00A0}$$";
    SolidTrimsToItself("$$");
    CommentInTheSegment();
    CommentInTheStatement();
    DelimiterFoundExactly(COMMENT_IN_QUOTE, 0, "$$");
    assert MarginLength(g) == 1;
    assert g[..1] == "\U{00A0}";
  }
}
