/** Strict base64 attachments: only canonical encodings are accepted. */
module Base64 {
  import opened Text
  import opened Bytes

  /** `[A-Za-z0-9+/]` */
  predicate IsSymbol(c: char) {
    'A' <= c <= 'Z' || 'a' <= c <= 'z' || '0' <= c <= '9' || c == '+' || c == '/'
  }

  function SymbolOf(n: nat): (c: char)
    requires n < 64
    ensures IsSymbol(c)
  {
    if n < 26 then 'A' + n as char
    else if n < 52 then 'a' + (n - 26) as char
    else if n < 62 then '0' + (n - 52) as char
    else if n == 62 then '+' else '/'
  }

  function ValueOf(c: char): (n: nat)
    requires IsSymbol(c)
    ensures n < 64 && SymbolOf(n) == c
  {
    if 'A' <= c <= 'Z' then (c - 'A') as int
    else if 'a' <= c <= 'z' then (c - 'a') as int + 26
    else if '0' <= c <= '9' then (c - '0') as int + 52
    else if c == '+' then 62 else 63
  }

  /** The alphabet of RFC 4648, section 4, in order. */
  lemma Alphabet(n: nat)
    requires n < 64
    ensures n < 26 ==> SymbolOf(n) == "ABCDEFGHIJKLMNOPQRSTUVWXYZ"[n]
    ensures 26 <= n < 52 ==> SymbolOf(n) == "abcdefghijklmnopqrstuvwxyz"[n - 26]
    ensures 52 <= n < 62 ==> SymbolOf(n) == "0123456789"[n - 52]
    ensures SymbolOf(62) == '+' && SymbolOf(63) == '/'
  {
  }

  lemma ValueOfSymbol(n: nat)
    requires n < 64
    ensures ValueOf(SymbolOf(n)) == n
  {
  }

  /** The pattern `^(?:S{4})*(?:S{2}==|S{3}=)?$` over symbols S. */
  predicate MatchesPattern(s: string) {
    || s == ""
    || (|s| >= 4 && IsSymbol(s[0]) && IsSymbol(s[1]) && IsSymbol(s[2]) && IsSymbol(s[3]) && MatchesPattern(s[4..]))
    || (|s| == 4 && IsSymbol(s[0]) && IsSymbol(s[1]) && (s[2] == '=' || IsSymbol(s[2])) && s[3] == '=')
  }

  /** RFC 4648 section 4. */
  function Encode(b: seq<byte>): string {
    if b == [] then ""
    else if |b| == 1 then [SymbolOf(b[0] as int / 4), SymbolOf(b[0] as int % 4 * 16), '=', '=']
    else if |b| == 2 then
      [SymbolOf(b[0] as int / 4), SymbolOf(b[0] as int % 4 * 16 + b[1] as int / 16), SymbolOf(b[1] as int % 16 * 4), '=']
    else
      [SymbolOf(b[0] as int / 4), SymbolOf(b[0] as int % 4 * 16 + b[1] as int / 16),
       SymbolOf(b[1] as int % 16 * 4 + b[2] as int / 64), SymbolOf(b[2] as int % 64)] + Encode(b[3..])
  }

  /** Decoding text that matches the pattern; leftover bits before the padding are dropped, whatever they are. */
  function Decode(s: string): seq<byte>
    requires MatchesPattern(s)
  {
    if s == "" then []
    else
      var v0, v1 := ValueOf(s[0]), ValueOf(s[1]);
      if s[2] == '=' then [(v0 * 4 + v1 / 16) as byte]
      else
        var v2 := ValueOf(s[2]);
        if s[3] == '=' then [(v0 * 4 + v1 / 16) as byte, (v1 % 16 * 16 + v2 / 4) as byte]
        else
          var v3 := ValueOf(s[3]);
          [(v0 * 4 + v1 / 16) as byte, (v1 % 16 * 16 + v2 / 4) as byte, (v2 % 4 * 64 + v3) as byte] + Decode(s[4..])
  }

  lemma TwoSymbols(a: nat, b: nat)
    requires a < 256 && b < 16
    ensures var v0, v1 := ValueOf(SymbolOf(a / 4)), ValueOf(SymbolOf(a % 4 * 16 + b));
            v0 * 4 + v1 / 16 == a && v1 % 16 == b
  {
    ValueOfSymbol(a / 4);
    ValueOfSymbol(a % 4 * 16 + b);
  }

  lemma ThirdSymbol(high: nat, low: nat)
    requires high < 16 && low < 4
    ensures var v2 := ValueOf(SymbolOf(high * 4 + low)); v2 / 4 == high && v2 % 4 == low
  {
    ValueOfSymbol(high * 4 + low);
  }

  /** Encoding is decoded by Decode and always matches the pattern. */
  lemma {:induction false} EncodeDecodes(b: seq<byte>)
    ensures MatchesPattern(Encode(b)) && Decode(Encode(b)) == b
  {
    hide SymbolOf, ValueOf, IsSymbol;
    SymbolsAreNotPadding();
    if b != [] {
      var x := b[0] as int;
      if |b| == 1 {
        TwoSymbols(x, 0);
      } else {
        var y := b[1] as int;
        TwoSymbols(x, y / 16);
        if |b| == 2 {
          ThirdSymbol(y % 16, 0);
        } else {
          var z := b[2] as int;
          ThirdSymbol(y % 16, z / 64);
          ValueOfSymbol(z % 64);
          EncodeDecodes(b[3..]);
          assert Encode(b)[4..] == Encode(b[3..]);
          assert b == [b[0], b[1], b[2]] + b[3..];
        }
      }
    }
  }

  lemma SymbolsAreNotPadding()
    ensures !IsSymbol('=')
  {
  }

  predicate IsAscii(s: string) { forall k | 0 <= k < |s| :: s[k] as int < 128 }

  function AsciiLower(s: string): (r: string)
    ensures |r| == |s|
  {
    seq(|s|, k requires 0 <= k < |s| => if 'A' <= s[k] <= 'Z' then s[k] + 32 as char else s[k])
  }

  /** All the check needs to know about Unicode lower-casing. */
  ghost predicate LowersAscii(lower: string -> string) {
    forall s | IsAscii(s) :: lower(s) == AsciiLower(s)
  }

  predicate Includes(s: string, part: string) {
    exists k | 0 <= k <= |s| :: part <= s[k..]
  }

  predicate IsDataUrlBase64Payload(lower: string -> string, s: string) {
    "data:" <= lower(s) || Includes(lower(s), ";base64,")
  }

  lemma {:induction false} PatternCharacters(s: string, k: nat)
    requires MatchesPattern(s) && k < |s|
    ensures IsSymbol(s[k]) || s[k] == '='
  {
    if k >= 4 {
      PatternCharacters(s[4..], k - 4);
    }
  }

  lemma DataUrlHasPunctuation(low: string)
    requires "data:" <= low || Includes(low, ";base64,")
    ensures ':' in low || ';' in low
  {
    if "data:" <= low {
      assert low[4] == "data:"[4];
    } else {
      var k :| 0 <= k <= |low| && ";base64," <= low[k..];
      assert low[k] == low[k..][0] == ";base64,"[0];
    }
  }

  /** The data-URL check never rejects what the pattern accepts. */
  lemma DataUrlNeverMatchesPattern(lower: string -> string, s: string)
    requires LowersAscii(lower) && MatchesPattern(s)
    ensures !IsDataUrlBase64Payload(lower, s)
  {
    forall k | 0 <= k < |s| ensures IsSymbol(s[k]) || s[k] == '=' {
      PatternCharacters(s, k);
    }
    assert IsAscii(s);
    assert forall k | 0 <= k < |s| :: lower(s)[k] != ':' && lower(s)[k] != ';';
    if IsDataUrlBase64Payload(lower, s) {
      DataUrlHasPunctuation(lower(s));
    }
  }

  lemma NothingEncodesToNothing()
    ensures Encode([]) == ""
  {
  }

  datatype Attachment = Attachment(base64Data: string, decodedData: seq<byte>)

  method DecodeStrictStandardBase64(lower: string -> string, base64Data: string) returns (r: Option<Attachment>)
    requires LowersAscii(lower)
    ensures r.Some? <==> exists b :: b != [] && Trim(base64Data) == Encode(b)
    ensures forall b | b != [] && Trim(base64Data) == Encode(b) :: r == Some(Attachment(Encode(b), b))
  {
    hide Trim, Encode, Decode, MatchesPattern, IsDataUrlBase64Payload, LowersAscii;
    var trimmed := Trim(base64Data);
    EncodeDecodes([]);
    NothingEncodesToNothing();
    forall b | trimmed == Encode(b)
      ensures MatchesPattern(trimmed) && Decode(trimmed) == b && !IsDataUrlBase64Payload(lower, trimmed)
    {
      EncodeDecodes(b);
      DataUrlNeverMatchesPattern(lower, trimmed);
    }
    if trimmed == "" || IsDataUrlBase64Payload(lower, trimmed) || !MatchesPattern(trimmed) {
      return None;
    }
    var decodedData := Decode(trimmed);
    if |decodedData| == 0 || Encode(decodedData) != trimmed {
      return None;
    }
    assert decodedData != [] && Trim(base64Data) == Encode(decodedData);
    return Some(Attachment(trimmed, decodedData));
  }

  /** Padding bits make the difference: of the texts that decode to one byte only one is accepted. */
  lemma PaddingBitsMustBeZero(a: char, b: char)
    requires IsSymbol(a) && IsSymbol(b)
    ensures var s := [a, b, '=', '=']; MatchesPattern(s) && (Encode(Decode(s)) == s <==> ValueOf(b) % 16 == 0)
  {
    var s := [a, b, '=', '='];
    assert ValueOf(a) * 4 + ValueOf(b) / 16 < 256;
    var x := Decode(s)[0] as int;
    assert x / 4 == ValueOf(a) && x % 4 == ValueOf(b) / 16;
    assert Encode(Decode(s)) == [SymbolOf(x / 4), SymbolOf(x % 4 * 16), '=', '='];
    ValueOfSymbol(x % 4 * 16);
  }
}
