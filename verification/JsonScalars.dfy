/** Numbers, booleans and request ids inside a command. */
module JsonScalars {
  import opened Common
  import opened JsonText

  /* ---- Decimal numbers ---- */

  predicate IsDigit(c: char) {
    '0' <= c <= '9'
  }

  function DigitOf(c: char): (d: nat)
    requires IsDigit(c)
    ensures d < 10
  {
    c as int - '0' as int
  }

  ghost predicate AllDigits(s: string) {
    forall i :: 0 <= i < |s| ==> IsDigit(s[i])
  }

  // The number a run of digits denotes.
  function NatOf(s: string): nat
    requires AllDigits(s)
  {
    if s == [] then 0 else NatOf(s[..|s| - 1]) * 10 + DigitOf(s[|s| - 1])
  }

  // How many digits the text starts with.
  function DigitRun(s: string): (n: nat)
    ensures n <= |s| && AllDigits(s[..n]) && (n < |s| ==> !IsDigit(s[n]))
  {
    if s == [] || !IsDigit(s[0]) then 0
    else
      var n := DigitRun(s[1..]);
      assert s[..n + 1] == [s[0]] + s[1..][..n];
      n + 1
  }

  // `parse_uint_value`: the whole digit run, if it denotes a 32-bit value and a delimiter follows it.
  function ParseUint(value: Option<string>): Option<uint32> {
    if value.None? then None
    else
      var s, n := value.value, DigitRun(value.value);
      if n == 0 || NatOf(s[..n]) > UINT32_MAX || !Delimited(s[n..]) then None else Some(NatOf(s[..n]))
  }

  // The firmware's loop tests for overflow with a division before each step; that rejects exactly
  // the digit runs whose value exceeds 32 bits.
  method ParseUintValue(json: string, value: Option<nat>) returns (ok: bool, parsed: uint32)
    requires value.Some? ==> value.value <= |json|
    ensures var text := if value.Some? then Some(json[value.value..]) else None;
            ParseUint(text) == if ok then Some(parsed) else None
  {
    parsed := 0;
    if value.None? || value.value >= |json| || !IsDigit(json[value.value]) {
      return false, 0;
    }
    ghost var s := json[value.value..];
    ghost var n := DigitRun(s);
    var p := value.value;
    ghost var k := 0;
    while p < |json| && IsDigit(json[p])
      invariant k <= n && p == value.value + k <= |json| && parsed == NatOf(s[..k])
    {
      var digit := DigitOf(json[p]);
      assert s[..k + 1][..k] == s[..k] && s[k] == json[p];
      if parsed > (UINT32_MAX - digit) / 10 {
        PrefixIsSmaller(s[..n], k + 1);
        assert s[..n][..k + 1] == s[..k + 1];
        return false, 0;
      }
      parsed := parsed * 10 + digit;
      p, k := p + 1, k + 1;
    }
    assert k == n && s[n..] == json[p..];
    ok := p == |json| || json[p] == ',' || json[p] == '}' || json[p] == ']' || IsSpace(json[p]);
  }

  lemma {:induction false} PrefixIsSmaller(s: string, k: nat)
    requires AllDigits(s) && k <= |s|
    ensures AllDigits(s[..k]) && NatOf(s[..k]) <= NatOf(s)
  {
    if k < |s| {
      var t := s[..|s| - 1];
      PrefixIsSmaller(t, k);
      assert t[..k] == s[..k];
    } else {
      assert s[..k] == s;
    }
  }

  // A value is read as `n` exactly when it starts with digits that denote `n` and end at the end of the
  // text, a comma, a closing bracket or white space; larger numbers are refused.
  lemma {:induction false} ParseUintExactly(s: string, n: uint32)
    ensures ParseUint(Some(s)) == Some(n) <==>
              exists k :: 0 < k <= |s| && AllDigits(s[..k]) && NatOf(s[..k]) == n && (k == |s| || s[k] in ",}] \t\r\n")
  {
    var k := DigitRun(s);
    if ParseUint(Some(s)) == Some(n) {
      assert s[k..] == [] || s[k..][0] == s[k];
      assert 0 < k <= |s| && AllDigits(s[..k]) && NatOf(s[..k]) == n && (k == |s| || s[k] in ",}] \t\r\n");
    }
    if j :| 0 < j <= |s| && AllDigits(s[..j]) && NatOf(s[..j]) == n && (j == |s| || s[j] in ",}] \t\r\n") {
      DigitRunOf(s[..j], s[j..]);
      assert s[..j] + s[j..] == s;
    }
  }

  // The decimal form of a number, as the host prints it.
  function Dec(n: nat): (s: string)
    ensures s != [] && AllDigits(s)
  {
    var last := [(n % 10 + '0' as int) as char];
    if n < 10 then last else Dec(n / 10) + last
  }

  lemma {:induction false} NatOfDec(n: nat)
    ensures NatOf(Dec(n)) == n
  {
    var s := Dec(n);
    if n < 10 {
      assert s[..0] == [];
    } else {
      NatOfDec(n / 10);
      assert s[..|s| - 1] == Dec(n / 10);
    }
  }

  lemma {:induction false} DecLength(n: nat, digits: nat, bound: nat)
    requires n < bound && bound == Power10(digits) && digits > 0
    ensures |Dec(n)| <= digits
  {
    if n >= 10 {
      DecLength(n / 10, digits - 1, Power10(digits - 1));
    }
  }

  function Power10(k: nat): (p: nat)
    ensures p > 0
  {
    if k == 0 then 1 else 10 * Power10(k - 1)
  }

  lemma DecLength32(n: uint32)
    ensures |Dec(n)| <= 10
  {
    assert Power10(10) == 10 * Power10(9) == 100 * Power10(8) == 1000 * Power10(7);
    assert Power10(7) == 10 * Power10(6) == 100 * Power10(5) == 1000 * Power10(4);
    assert Power10(4) == 10 * Power10(3) == 100 * Power10(2) == 1000 * Power10(1);
    DecLength(n, 10, Power10(10));
  }

  lemma {:induction false} DigitRunOf(digits: string, rest: string)
    requires AllDigits(digits) && (rest == [] || !IsDigit(rest[0]))
    ensures DigitRun(digits + rest) == |digits|
  {
    if digits != [] {
      DigitRunOf(digits[1..], rest);
      assert (digits + rest)[1..] == digits[1..] + rest;
    } else {
      assert digits + rest == rest;
    }
  }

  // Every 32-bit number survives the trip through its decimal form, whatever delimiter follows.
  lemma {:induction false} ParseUintDec(n: uint32, rest: string)
    requires Delimited(rest)
    ensures ParseUint(Some(Dec(n) + rest)) == Some(n)
  {
    DigitRunOf(Dec(n), rest);
    NatOfDec(n);
    assert (Dec(n) + rest)[..|Dec(n)|] == Dec(n) && (Dec(n) + rest)[|Dec(n)|..] == rest;
  }

  /* ---- Booleans ---- */

  function ParseBool(value: Option<string>): Option<bool> {
    if value.None? then None
    else if "true" <= value.value && Delimited(value.value[4..]) then Some(true)
    else if "false" <= value.value && Delimited(value.value[5..]) then Some(false)
    else None
  }

  // A value is read as a boolean exactly when it is that literal up to the end of the text, a comma, a
  // closing bracket or white space.
  lemma {:induction false} ParseBoolExactly(s: string, b: bool)
    ensures ParseBool(Some(s)) == Some(b) <==>
              var literal := if b then "true" else "false";
              literal <= s && (s == literal || s[|literal|] in ",}] \t\r\n")
  {
    assert "true"[0] == 't' && "false"[0] == 'f';
    if "true" <= s {
      assert s[4..] == [] || s[4..][0] == s[4];
    } else if "false" <= s {
      assert s[5..] == [] || s[5..][0] == s[5];
    }
  }

  /* ---- Request ids ---- */

  // Just past the quote that closes the string token starting at index 0, searching from `i`.
  function QuoteEnd(s: string, i: nat): (r: Option<nat>)
    ensures r.Some? ==> i < r.value <= |s|
    decreases |s| - i
  {
    if i >= |s| then None
    else if s[i] == '\\' && i + 1 < |s| then QuoteEnd(s, i + 2)
    else if s[i] == '"' then Some(i + 1)
    else QuoteEnd(s, i + 1)
  }

  predicate EndsToken(c: char) {
    c == ',' || c == '}' || IsSpace(c)
  }

  function TokenEnd(s: string): (n: nat)
    ensures n <= |s|
  {
    if s == [] || EndsToken(s[0]) then 0 else 1 + TokenEnd(s[1..])
  }

  // The text of an id: a quoted string, a number or null, as long as it fits in `room` characters.
  function IdToken(s: string, room: nat): Option<string> {
    if s != [] && s[0] == '"' then
      match QuoteEnd(s, 1)
      case Some(n) => if n <= room then Some(s[..n]) else None
      case None => None
    else
      var n := TokenEnd(s);
      if n == 0 || n > room then None
      else if s[..n] == "null" || s[0] == '-' || IsDigit(s[0]) then Some(s[..n])
      else None
  }

  method ReadStringId(s: string, idToken: array<char>) returns (ok: bool, len: nat)
    requires s != [] && s[0] == '"' && idToken.Length > 0
    modifies idToken
    ensures ok <==> IdToken(s, idToken.Length - 1).Some?
    ensures ok ==> len < idToken.Length && idToken[len] == '\0'
                   && IdToken(s, idToken.Length - 1) == Some(idToken[..len])
  {
    len := 0;
    while len < |s|
      invariant len <= |s| && len < idToken.Length && idToken[..len] == s[..len]
      invariant len > 0 ==> QuoteEnd(s, 1) == QuoteEnd(s, len)
    {
      var c := s[len];
      if len >= idToken.Length - 1 {
        return false, 0;
      }
      idToken[len] := c;
      len := len + 1;
      if c == '\\' && len < |s| {
        assert QuoteEnd(s, 1) == QuoteEnd(s, len + 1);
        if len >= idToken.Length - 1 {
          return false, 0;
        }
        idToken[len] := s[len];
        len := len + 1;
      } else if c == '"' && len > 1 {
        assert QuoteEnd(s, len - 1) == Some(len);
        idToken[len] := '\0';
        assert idToken[..len] == s[..len];
        return true, len;
      }
    }
    ok := false;
  }

  method ReadPlainId(s: string, idToken: array<char>) returns (ok: bool, len: nat)
    requires (s == [] || s[0] != '"') && idToken.Length > 0
    modifies idToken
    ensures ok <==> IdToken(s, idToken.Length - 1).Some?
    ensures ok ==> len < idToken.Length && idToken[len] == '\0'
                   && IdToken(s, idToken.Length - 1) == Some(idToken[..len])
    // A number or null, up to the end of the text, a comma, a closing brace or white space.
    ensures ok ==> 0 < len <= |s| && idToken[..len] == s[..len] && (len == |s| || s[len] in ",} \t\r\n")
                   && (forall i :: 0 <= i < len ==> s[i] !in ",} \t\r\n")
                   && (s[..len] == "null" || s[0] == '-' || '0' <= s[0] <= '9')
  {
    len := 0;
    while len < |s| && !EndsToken(s[len])
      invariant len <= |s| && len < idToken.Length && idToken[..len] == s[..len]
      invariant TokenEnd(s) == len + TokenEnd(s[len..])
      invariant forall i :: 0 <= i < len ==> s[i] !in ",} \t\r\n"
    {
      assert s[len..][1..] == s[len + 1..];
      if len >= idToken.Length - 1 {
        return false, 0;
      }
      idToken[len] := s[len];
      len := len + 1;
    }
    if len == 0 {
      return false, 0;
    }
    idToken[len] := '\0';
    ok := idToken[..len] == "null" || idToken[0] == '-' || IsDigit(idToken[0]);
  }

  lemma {:induction false} TokenEndOf(token: string, rest: string)
    requires AllDigits(token) && (rest == [] || EndsToken(rest[0]))
    ensures TokenEnd(token + rest) == |token|
  {
    if token != [] {
      TokenEndOf(token[1..], rest);
      assert (token + rest)[1..] == token[1..] + rest;
    } else {
      assert token + rest == rest;
    }
  }

  // A numeric id is echoed digit for digit.
  lemma {:induction false} IdTokenDec(n: nat, rest: string, room: nat)
    requires |Dec(n)| <= room && (rest == [] || EndsToken(rest[0]))
    ensures IdToken(Dec(n) + rest, room) == Some(Dec(n))
  {
    TokenEndOf(Dec(n), rest);
    assert (Dec(n) + rest)[..|Dec(n)|] == Dec(n);
    assert (Dec(n) + rest)[0] == Dec(n)[0];
  }
}
