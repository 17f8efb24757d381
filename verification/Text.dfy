/** Strings as the JavaScript runtime treats them: white space, trimming, joining, splitting.
    The predicate IsSpace lists exactly the code points `String.prototype.trim` removes. */
module Text {

  datatype Option<+T> = None | Some(value: T)

  datatype Result<+T, +E> = Ok(value: T) | Err(error: E)

  predicate IsAsciiSpace(c: char) {
    '\U{0009}' <= c <= '\U{000D}' || c == ' '
  }

  predicate IsSpace(c: char) {
    || IsAsciiSpace(c)
    || c == '\U{00A0}' || c == '\U{1680}' || '\U{2000}' <= c <= '\U{200A}'
    || c == '\U{2028}' || c == '\U{2029}' || c == '\U{202F}' || c == '\U{205F}'
    || c == '\U{3000}' || c == '\U{FEFF}'
  }

  predicate AllSpace(s: string) {
    forall i | 0 <= i < |s| :: IsSpace(s[i])
  }

  /** No white space beyond ASCII. */
  predicate OnlyAsciiSpace(s: string) {
    forall i | 0 <= i < |s| :: IsSpace(s[i]) ==> IsAsciiSpace(s[i])
  }

  predicate Solid(s: string) {
    s != "" ==> !IsSpace(s[0]) && !IsSpace(s[|s| - 1])
  }

  function TrimStart(s: string): string {
    if s != "" && IsSpace(s[0]) then TrimStart(s[1..]) else s
  }

  function TrimEnd(s: string): string {
    if s != "" && IsSpace(s[|s| - 1]) then TrimEnd(s[..|s| - 1]) else s
  }

  function Trim(s: string): string {
    TrimEnd(TrimStart(s))
  }

  /** How many characters trimming takes off at the start. */
  function MarginLength(s: string): (n: nat)
    ensures n <= |s|
  {
    if s != "" && IsSpace(s[0]) then 1 + MarginLength(s[1..]) else 0
  }

  /** The blank margins that trimming takes off. */
  lemma {:induction false} TrimStartMargin(s: string) returns (left: string)
    ensures s == left + TrimStart(s) && AllSpace(left) && |left| == MarginLength(s)
    ensures TrimStart(s) != "" ==> !IsSpace(TrimStart(s)[0])
  {
    if s != "" && IsSpace(s[0]) {
      var rest := TrimStartMargin(s[1..]);
      left := [s[0]] + rest;
      assert s == [s[0]] + s[1..];
    } else {
      left := "";
    }
  }

  lemma {:induction false} TrimEndMargin(s: string) returns (right: string)
    ensures s == TrimEnd(s) + right && AllSpace(right)
    ensures TrimEnd(s) != "" ==> TrimEnd(s)[0] == s[0] && !IsSpace(TrimEnd(s)[|TrimEnd(s)| - 1])
  {
    if s != "" && IsSpace(s[|s| - 1]) {
      var rest := TrimEndMargin(s[..|s| - 1]);
      right := rest + [s[|s| - 1]];
      assert s == s[..|s| - 1] + [s[|s| - 1]];
    } else {
      right := "";
    }
  }

  lemma TrimMargins(s: string) returns (left: string, right: string)
    ensures s == left + Trim(s) + right && AllSpace(left) && AllSpace(right) && Solid(Trim(s))
    ensures |left| == MarginLength(s)
  {
    left := TrimStartMargin(s);
    right := TrimEndMargin(TrimStart(s));
  }

  /** Trimming is determined by its outcome: margins of white space around a solid middle leave that middle. */
  lemma {:induction false} TrimIsTheSolidMiddle(left: string, x: string, right: string)
    requires AllSpace(left) && AllSpace(right) && Solid(x)
    ensures Trim(left + x + right) == x
    decreases |left| + |right|
  {
    var s := left + x + right;
    if x == "" {
      BlankTrimsAway(s);
    } else if left != "" {
      assert s[1..] == left[1..] + x + right;
      TrimIsTheSolidMiddle(left[1..], x, right);
    } else if right != "" {
      assert TrimStart(s) == s;
      assert s[..|s| - 1] == left + x + right[..|right| - 1];
      TrimIsTheSolidMiddle(left, x, right[..|right| - 1]);
      assert TrimStart(s[..|s| - 1]) == s[..|s| - 1];
    } else {
      assert s == x;
    }
  }

  lemma {:induction false} BlankTrimsAway(s: string)
    requires AllSpace(s)
    ensures Trim(s) == ""
  {
    if s != "" {
      BlankTrimsAway(s[1..]);
    }
  }

  lemma TrimIgnoresMargins(left: string, x: string, right: string)
    requires AllSpace(left) && AllSpace(right)
    ensures Trim(left + x + right) == Trim(x)
  {
    var l, r := TrimMargins(x);
    assert left + x + right == (left + l) + Trim(x) + (r + right);
    TrimIsTheSolidMiddle(left + l, Trim(x), r + right);
  }

  lemma SolidTrimsToItself(x: string)
    requires Solid(x)
    ensures Trim(x) == x
  {
    TrimIsTheSolidMiddle("", x, "");
    assert "" + x + "" == x;
  }

  /** The characters trimming takes off, by their codes. */
  lemma TrimmedCharacters(c: char)
    ensures var code := c as int;
            Trim([c]) == "" <==>
            || 9 <= code <= 13 || code == 32 || code == 160 || code == 5760 || 8192 <= code <= 8202
            || code == 8232 || code == 8233 || code == 8239 || code == 8287 || code == 12288 || code == 65279
  {
    if IsSpace(c) {
      BlankTrimsAway([c]);
    } else {
      SolidTrimsToItself([c]);
    }
  }

  function Join(parts: seq<string>, separator: string): string {
    if parts == [] then ""
    else if |parts| == 1 then parts[0] else parts[0] + separator + Join(parts[1..], separator)
  }

  lemma JoinOne(part: string, separator: string)
    ensures Join([part], separator) == part
  {
  }

  lemma JoinCons(head: string, tail: seq<string>, separator: string)
    requires |tail| > 0
    ensures Join([head] + tail, separator) == head + separator + Join(tail, separator)
  {
    assert ([head] + tail)[1..] == tail;
  }

  /** The pieces of `s` between occurrences of `c`. */
  function SplitOn(s: string, c: char): (pieces: seq<string>)
    ensures |pieces| > 0
  {
    if s == "" then [""]
    else if s[0] == c then [""] + SplitOn(s[1..], c)
    else
      var rest := SplitOn(s[1..], c);
      [[s[0]] + rest[0]] + rest[1..]
  }

  lemma {:induction false} SplitOnHead(x: string, c: char, rest: string)
    requires c !in x
    ensures SplitOn(x + [c] + rest, c) == [x] + SplitOn(rest, c)
    ensures SplitOn(x, c) == [x]
  {
    if x == "" {
      assert x + [c] + rest == [c] + rest;
    } else {
      SplitOnHead(x[1..], c, rest);
      assert (x + [c] + rest)[1..] == x[1..] + [c] + rest;
      assert x == [x[0]] + x[1..];
    }
  }
}
