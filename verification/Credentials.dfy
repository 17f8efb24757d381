/** Agent API keys and OAuth access tokens: minting, human-tolerant parsing and the bearer dispatcher. */
module Credentials {
  import opened Text
  import opened Bytes

  const CROCKFORD_ALPHABET := "0123456789ABCDEFGHJKMNPQRSTVWXYZ"

  predicate IsCrockford(c: char) {
    '0' <= c <= '9' || ('A' <= c <= 'Z' && c != 'I' && c != 'L' && c != 'O' && c != 'U')
  }

  predicate AllCrockford(s: string) { forall k | 0 <= k < |s| :: IsCrockford(s[k]) }

  lemma AlphabetIsCrockford(k: nat)
    requires k < 32
    ensures |CROCKFORD_ALPHABET| == 32 && IsCrockford(CROCKFORD_ALPHABET[k])
  {
  }

  /** A symbol is valid exactly when it is a digit or one of the capital letters but I, L, O and U. */
  lemma CrockfordSymbols(c: char)
    ensures IsCrockford(c) <==>
            || c in "0123456789" || c in "ABCDEFGH" || c == 'J' || c == 'K' || c == 'M' || c == 'N' || c in "PQRST" || c in "VWXYZ"
  {
    InRange("0123456789", '0', c);
    InRange("ABCDEFGH", 'A', c);
    InRange("PQRST", 'P', c);
    InRange("VWXYZ", 'V', c);
  }

  /** The alphabet in order: the digits, then these letters. */
  lemma CrockfordOrder(k: nat)
    requires k < 32
    ensures |CROCKFORD_ALPHABET| == 32
    ensures CROCKFORD_ALPHABET[k] as int ==
            if k < 10 then 48 + k
            else if k < 18 then 65 + k - 10
            else if k < 20 then 74 + k - 18
            else if k < 22 then 77 + k - 20
            else if k < 27 then 80 + k - 22
            else 86 + k - 27
  {
  }

  /** A text of consecutive characters holds exactly those from its first to its last. */
  lemma InRange(text: string, first: char, c: char)
    requires 0 < |text| <= 64 && first as int < 128
    requires forall k | 0 <= k < |text| :: text[k] as int == first as int + k
    ensures c in text <==> first as int <= c as int < first as int + |text|
  {
    if first as int <= c as int < first as int + |text| {
      assert text[c as int - first as int] == c;
    }
  }

  /** Draws random bytes until the token is full; `random` is the stream the generator returns. */
  method CreateCrockfordToken(length: nat, random: seq<byte>) returns (token: string)
    requires |random| >= length
    ensures |token| == length && AllCrockford(token)
    ensures |CROCKFORD_ALPHABET| == 32 && forall k | 0 <= k < length :: token[k] == CROCKFORD_ALPHABET[random[k] as int % 32]
  {
    AlphabetIsCrockford(0);
    token := "";
    while |token| < length
      invariant |token| <= length
      invariant forall k | 0 <= k < |token| :: token[k] == CROCKFORD_ALPHABET[random[k] as int % 32] && IsCrockford(token[k])
    {
      var start := |token|;
      var bytes := random[start..length];
      for n := 0 to |bytes|
        invariant |token| == start + n
        invariant forall k | 0 <= k < |token| :: token[k] == CROCKFORD_ALPHABET[random[k] as int % 32] && IsCrockford(token[k])
      {
        AlphabetIsCrockford(bytes[n] as int % 32);
        token := token + [CROCKFORD_ALPHABET[bytes[n] as int % 32]];
      }
    }
  }

  /** `[\s-]` */
  predicate IsRemoved(c: char) { IsSpace(c) || c == '-' }

  function AsciiUpper(c: char): char { if 'a' <= c <= 'z' then c - 32 as char else c }

  type Upper = char -> string

  /** What toUpperCase guarantees: ASCII as usual, and upper-case text that is stable and free of separators. */
  ghost predicate UnicodeUpper(up: Upper) {
    && (forall c: char | c as int < 128 :: up(c) == [AsciiUpper(c)])
    && (forall c, k | !IsRemoved(c) && 0 <= k < |up(c)| :: up(up(c)[k]) == [up(c)[k]] && !IsRemoved(up(c)[k]))
  }

  /** `value.replace(/[\s-]/g, "").toUpperCase()` */
  function Normalize(up: Upper, s: string): string {
    if s == "" then ""
    else (if IsRemoved(s[0]) then "" else up(s[0])) + Normalize(up, s[1..])
  }

  /** Characters normalisation leaves alone. */
  ghost predicate Stable(up: Upper, s: string) {
    forall k | 0 <= k < |s| :: up(s[k]) == [s[k]] && !IsRemoved(s[k])
  }

  /** What normalisation does to one ASCII character, by its code: blanks and hyphens go, small letters become capital. */
  lemma NormalizedCharacters(up: Upper, c: char)
    requires UnicodeUpper(up) && c as int < 128
    ensures var code := c as int;
            Normalize(up, [c]) ==
            if 9 <= code <= 13 || code == 32 || code == 45 then ""
            else if 97 <= code <= 122 then [(code - 32) as char] else [c]
  {
    assert [c][1..] == "";
    assert Normalize(up, "") == "";
  }

  lemma {:induction false} NormalizeIsStable(up: Upper, s: string)
    requires UnicodeUpper(up)
    ensures Stable(up, Normalize(up, s))
  {
    if s != "" {
      NormalizeIsStable(up, s[1..]);
    }
  }

  lemma {:induction false} StableIsFixed(up: Upper, s: string)
    requires Stable(up, s)
    ensures Normalize(up, s) == s
  {
    if s != "" {
      StableIsFixed(up, s[1..]);
      assert s == [s[0]] + s[1..];
    }
  }

  datatype TokenError = InvalidToken

  function NormalizeCrockfordToken(up: Upper, value: string): Result<string, TokenError> {
    var normalized := Normalize(up, value);
    if normalized == "" || !AllCrockford(normalized) then Err(InvalidToken) else Ok(normalized)
  }

  datatype Key = Key(keyId: string, secret: string)

  const KEY_ID_LENGTH := 8
  const SECRET_LENGTH := 26

  function IndexOfChar(s: string, c: char): (r: Option<nat>)
    ensures r.None? ==> c !in s
    ensures r.Some? ==> r.value < |s| && s[r.value] == c && c !in s[..r.value]
  {
    if s == "" then None
    else if s[0] == c then Some(0)
    else
      match IndexOfChar(s[1..], c)
      case None => None
      case Some(k) => assert s[..k + 1] == [s[0]] + s[1..][..k]; Some(k + 1)
  }

  function ParseAgentApiKey(up: Upper, value: string): Option<Key> {
    var trimmed := Normalize(up, value);
    if !("FCA_" <= trimmed) then None
    else
      var remaining := trimmed[4..];
      match IndexOfChar(remaining, '_')
      case None => None
      case Some(separator) =>
        if separator == 0 || separator == |remaining| - 1 then None
        else
          var keyId := NormalizeCrockfordToken(up, remaining[..separator]);
          var secret := NormalizeCrockfordToken(up, remaining[separator + 1..]);
          if keyId.Err? || secret.Err? || |keyId.value| != KEY_ID_LENGTH || |secret.value| != SECRET_LENGTH then None
          else Some(Key(keyId.value, secret.value))
  }

  predicate WellFormed(k: Key) {
    |k.keyId| == KEY_ID_LENGTH && |k.secret| == SECRET_LENGTH && AllCrockford(k.keyId) && AllCrockford(k.secret)
  }

  lemma {:induction false} SeparatorIsUnique(a: string, b: string)
    requires '_' !in a
    ensures IndexOfChar(a + "_" + b, '_') == Some(|a|)
  {
    var s := a + "_" + b;
    if a == "" {
      assert s[0] == '_';
    } else {
      SeparatorIsUnique(a[1..], b);
      assert s[1..] == a[1..] + "_" + b;
    }
  }

  lemma StablePart(up: Upper, s: string, i: nat, j: nat)
    requires Stable(up, s) && i <= j <= |s|
    ensures Normalize(up, s[i..j]) == s[i..j]
  {
    StableIsFixed(up, s[i..j]);
  }

  lemma KeyPieces(n: string, i: nat)
    requires "FCA_" <= n && 4 + i < |n| && n[4 + i] == '_'
    ensures n[4..][..i] == n[4..4 + i] && n[4..][i + 1..] == n[5 + i..|n|]
    ensures n == "FCA_" + n[4..][..i] + "_" + n[4..][i + 1..]
  {
    assert n == n[..4] + n[4..4 + i] + [n[4 + i]] + n[5 + i..|n|];
  }

  lemma ParsedKeyIsWritten(up: Upper, value: string, k: Key)
    requires UnicodeUpper(up) && ParseAgentApiKey(up, value) == Some(k)
    ensures WellFormed(k) && Normalize(up, value) == "FCA_" + k.keyId + "_" + k.secret
  {
    hide UnicodeUpper, Normalize, AllCrockford, Stable;
    var n := Normalize(up, value);
    NormalizeIsStable(up, value);
    var i := IndexOfChar(n[4..], '_').value;
    KeyPieces(n, i);
    StablePart(up, n, 4, 4 + i);
    StablePart(up, n, 5 + i, |n|);
  }

  lemma WrittenPieces(n: string, keyId: string, secret: string)
    requires n == "FCA_" + keyId + "_" + secret
    ensures "FCA_" <= n && n[4..] == keyId + "_" + secret
    ensures |n| == 5 + |keyId| + |secret|
    ensures var remaining, k := n[4..], |keyId|;
            remaining[..k] == n[4..4 + k] == keyId && remaining[k + 1..] == n[5 + k..|n|] == secret
  {
    var remaining, k := n[4..], |keyId|;
    assert remaining == keyId + "_" + secret;
    assert remaining[..k] == keyId && remaining[k + 1..] == secret;
    assert n[4..4 + k] == remaining[..k] && n[5 + k..|n|] == remaining[k + 1..];
  }

  lemma WrittenKeyIsParsed(up: Upper, value: string, k: Key)
    requires UnicodeUpper(up) && WellFormed(k) && Normalize(up, value) == "FCA_" + k.keyId + "_" + k.secret
    ensures ParseAgentApiKey(up, value) == Some(k)
  {
    hide UnicodeUpper, Normalize, Stable, IsCrockford, IndexOfChar, AllCrockford;
    var n := Normalize(up, value);
    NormalizeIsStable(up, value);
    UnderscoreIsNotCrockford(k.keyId);
    SeparatorIsUnique(k.keyId, k.secret);
    WrittenPieces(n, k.keyId, k.secret);
    StablePart(up, n, 4, 12);
    StablePart(up, n, 13, |n|);
  }

  /** Accepted exactly when the normal form is FCA_, eight Crockford symbols, _, twenty-six Crockford symbols;
      and then these symbols are what is returned. */
  lemma ParseExactly(up: Upper, value: string, k: Key)
    requires UnicodeUpper(up)
    ensures ParseAgentApiKey(up, value) == Some(k) <==>
            && |k.keyId| == 8 && |k.secret| == 26 && AllCrockford(k.keyId) && AllCrockford(k.secret)
            && Normalize(up, value) == "FCA_" + k.keyId + "_" + k.secret
  {
    hide ParseAgentApiKey, Normalize, AllCrockford;
    if ParseAgentApiKey(up, value) == Some(k) {
      ParsedKeyIsWritten(up, value, k);
    }
    if WellFormed(k) && Normalize(up, value) == "FCA_" + k.keyId + "_" + k.secret {
      WrittenKeyIsParsed(up, value, k);
    }
  }

  lemma UnderscoreIsNotCrockford(s: string)
    requires AllCrockford(s)
    ensures '_' !in s
  {
  }

  /** `s` is `text` in any ASCII letter case with any white space and hyphens put in between. */
  ghost predicate Disguises(s: string, text: string)
    decreases |s|
  {
    if s == "" then text == ""
    else if IsRemoved(s[0]) && Disguises(s[1..], text) then true
    else text != "" && !IsRemoved(s[0]) && s[0] as int < 128 && AsciiUpper(s[0]) == AsciiUpper(text[0])
         && Disguises(s[1..], text[1..])
  }

  function UpperText(text: string): (r: string)
    ensures |r| == |text| && forall k | 0 <= k < |text| :: r[k] == AsciiUpper(text[k])
  {
    seq(|text|, k requires 0 <= k < |text| => AsciiUpper(text[k]))
  }

  lemma {:induction false} DisguiseIsUndone(up: Upper, s: string, text: string)
    requires UnicodeUpper(up) && Disguises(s, text)
    ensures Normalize(up, s) == UpperText(text)
    decreases |s|
  {
    if s == "" {
      assert UpperText(text) == "";
    } else if IsRemoved(s[0]) && Disguises(s[1..], text) {
      DisguiseIsUndone(up, s[1..], text);
    } else {
      DisguiseIsUndone(up, s[1..], text[1..]);
      assert UpperText(text) == [AsciiUpper(text[0])] + UpperText(text[1..]);
    }
  }

  lemma CrockfordIsUpper(s: string)
    requires AllCrockford(s)
    ensures UpperText(s) == s
  {
  }

  /** An issued key parses to its id and secret in every disguise. */
  lemma IssuedKeyParses(up: Upper, s: string, k: Key)
    requires UnicodeUpper(up) && WellFormed(k) && Disguises(s, "fca_" + k.keyId + "_" + k.secret)
    ensures ParseAgentApiKey(up, s) == Some(k)
  {
    DisguiseIsUndone(up, s, "fca_" + k.keyId + "_" + k.secret);
    CrockfordIsUpper(k.keyId);
    CrockfordIsUpper(k.secret);
    UpperConcat("fca_" + k.keyId + "_", k.secret);
    UpperConcat("fca_" + k.keyId, "_");
    UpperConcat("fca_", k.keyId);
    assert UpperText("fca_") == "FCA_" && UpperText("_") == "_";
    ParseExactly(up, s, k);
  }

  lemma UpperConcat(a: string, b: string)
    ensures UpperText(a + b) == UpperText(a) + UpperText(b)
  {
  }

  /** Where a bearer credential ends up; an access token carries the secret whose digest is looked up. */
  datatype Route = Rejected | AgentKey(key: Option<Key>) | AccessToken(secret: string)

  function RouteMcpBearerToken(up: Upper, token: string): Route {
    var trimmed := Trim(token);
    if trimmed == "" then Rejected
    else if "FCA_" <= Normalize(up, trimmed) then AgentKey(ParseAgentApiKey(up, trimmed))
    else
      var normalized := Normalize(up, Trim(trimmed));
      if !("FCO_" <= normalized) then Rejected
      else
        match NormalizeCrockfordToken(up, normalized[4..])
        case Err(_) => Rejected
        case Ok(secret) => AccessToken(secret)
  }

  lemma {:induction false} NormalizeConcat(up: Upper, a: string, b: string)
    ensures Normalize(up, a + b) == Normalize(up, a) + Normalize(up, b)
  {
    if a == "" {
      assert a + b == b;
    } else {
      NormalizeConcat(up, a[1..], b);
      assert (a + b)[1..] == a[1..] + b;
      var head := if IsRemoved(a[0]) then "" else up(a[0]);
      assert head + (Normalize(up, a[1..]) + Normalize(up, b)) == (head + Normalize(up, a[1..])) + Normalize(up, b);
    }
  }

  lemma {:induction false} NormalizeSpace(up: Upper, s: string)
    requires AllSpace(s)
    ensures Normalize(up, s) == ""
  {
    if s != "" {
      NormalizeSpace(up, s[1..]);
    }
  }

  lemma TrimIsInert(up: Upper, s: string)
    ensures Normalize(up, Trim(s)) == Normalize(up, s)
  {
    var left, right := TrimMargins(s);
    NormalizeConcat(up, left + Trim(s), right);
    NormalizeConcat(up, left, Trim(s));
    NormalizeSpace(up, left);
    NormalizeSpace(up, right);
  }

  /** The dispatcher decides by the normal form alone: FCA_ goes to the key parser, FCO_ with a Crockford
      secret to the token lookup, everything else is rejected; no text takes both branches. */
  lemma RouteExactly(up: Upper, token: string)
    requires UnicodeUpper(up)
    ensures var n, route := Normalize(up, token), RouteMcpBearerToken(up, token);
            && (route.AgentKey? <==> "FCA_" <= n)
            && (route.AccessToken? <==> "FCO_" <= n && n != "FCO_" && AllCrockford(n[4..]))
            && (route.AgentKey? ==> route.key == ParseAgentApiKey(up, token))
            && (route.AccessToken? ==> n == "FCO_" + route.secret)
  {
    var n := Normalize(up, token);
    TrimIsInert(up, token);
    TrimIsInert(up, Trim(token));
    NormalizeIsStable(up, token);
    hide UnicodeUpper, Normalize, IsCrockford, Trim;
    NormalizeNothing(up);
    if "FCO_" <= n {
      assert n[2] == 'O';
      StableIsFixed(up, n[4..]);
      assert n == "FCO_" + n[4..];
    }
  }

  lemma NormalizeNothing(up: Upper)
    ensures Normalize(up, "") == ""
  {
  }

  /** An issued key in any disguise reaches the key parser with its own id and secret. */
  lemma IssuedKeyIsRoutedToItsParser(up: Upper, s: string, k: Key)
    requires UnicodeUpper(up) && WellFormed(k) && Disguises(s, "fca_" + k.keyId + "_" + k.secret)
    ensures RouteMcpBearerToken(up, s) == AgentKey(Some(k))
  {
    IssuedKeyParses(up, s, k);
    ParseExactly(up, s, k);
    RouteExactly(up, s);
  }

  /** An issued access token in any disguise reaches the token lookup with its own secret. */
  lemma IssuedTokenIsRoutedToItsLookup(up: Upper, s: string, secret: string)
    requires UnicodeUpper(up) && AllCrockford(secret) && secret != "" && Disguises(s, "fco_" + secret)
    ensures RouteMcpBearerToken(up, s) == AccessToken(secret)
  {
    DisguiseIsUndone(up, s, "fco_" + secret);
    CrockfordIsUpper(secret);
    assert UpperText("fco_" + secret) == "FCO_" + UpperText(secret);
    RouteExactly(up, s);
    var n := Normalize(up, s);
    assert n[2] == 'O' && n[4..] == secret;
  }
}
