/**
 The firmware's flat JSON readers. A C pointer into a command is an index into its text; the
 specifications speak of the text from that index on.
 */
module JsonText {
  import opened Common

  // The text a pointer at index `i` of `s` points to.
  function At(s: string, i: nat): string
    requires i <= |s|
  {
    s[i..]
  }

  predicate IsSpace(c: char) {
    c == ' ' || c == '\t' || c == '\r' || c == '\n'
  }

  function SkipSpace(s: string): string {
    if s != [] && IsSpace(s[0]) then SkipSpace(s[1..]) else s
  }

  method SkipWs(s: string, from: nat) returns (at: nat)
    requires from <= |s|
    ensures from <= at <= |s| && At(s, at) == SkipSpace(At(s, from))
    ensures (forall i :: from <= i < at ==> s[i] in " \t\r\n") && (at < |s| ==> s[at] !in " \t\r\n")
  {
    at := from;
    while at < |s| && IsSpace(s[at])
      invariant from <= at <= |s| && SkipSpace(s[from..]) == SkipSpace(s[at..])
      invariant forall i :: from <= i < at ==> s[i] in " \t\r\n"
    {
      assert s[at..][1..] == s[at + 1..];
      at := at + 1;
    }
  }

  // The end of the text counts as the terminating NUL.
  predicate Delimited(s: string) {
    s == [] || s[0] == ',' || s[0] == '}' || s[0] == ']' || IsSpace(s[0])
  }

  /* ---- find_key_value ---- */

  const PATTERN_BUFFER := 40

  // The value after the first occurrence of `pattern` that a colon follows.
  function Search(s: string, pattern: string): Option<string>
    requires pattern != []
  {
    if |s| < |pattern| then None
    else if pattern <= s then
      var rest := SkipSpace(s[|pattern|..]);
      if rest != [] && rest[0] == ':' then Some(SkipSpace(rest[1..])) else Search(s[|pattern|..], pattern)
    else Search(s[1..], pattern)
  }

  function FindKey(json: string, key: string): Option<string> {
    var pattern := "\"" + key + "\"";
    if |pattern| >= PATTERN_BUFFER then None else Search(json, pattern)
  }

  // `strstr`: the first occurrence of `pattern` at or after `from`.
  method StrStr(s: string, from: nat, pattern: string) returns (at: Option<nat>)
    requires from <= |s| && pattern != []
    ensures at.Some? ==> from <= at.value && at.value + |pattern| <= |s| && pattern <= At(s, at.value)
    ensures Search(At(s, from), pattern) == if at.Some? then Search(At(s, at.value), pattern) else None
  {
    var i := from;
    while i + |pattern| <= |s|
      invariant from <= i <= |s| && Search(At(s, from), pattern) == Search(At(s, i), pattern)
    {
      if s[i..i + |pattern|] == pattern {
        return Some(i);
      }
      assert s[i..][..|pattern|] == s[i..i + |pattern|];
      assert s[i..][1..] == s[i + 1..];
      i := i + 1;
    }
    at := None;
  }

  method FindKeyValue(json: string, from: nat, key: string) returns (at: Option<nat>)
    requires from <= |json|
    ensures at.Some? ==> from <= at.value <= |json| && FindKey(At(json, from), key) == Some(At(json, at.value))
    ensures at.None? ==> FindKey(At(json, from), key) == None
  {
    var pattern := "\"" + key + "\"";
    if |pattern| >= PATTERN_BUFFER {
      return None;
    }
    at := FindPattern(json, from, pattern);
  }

  method FindPattern(json: string, from: nat, pattern: string) returns (at: Option<nat>)
    requires from <= |json| && pattern != []
    ensures at.Some? ==> from <= at.value <= |json| && Search(At(json, from), pattern) == Some(At(json, at.value))
    ensures at.None? ==> Search(At(json, from), pattern) == None
  {
    hide Search, SkipSpace, At;
    var p := from;
    while true
      invariant from <= p <= |json| && Search(At(json, from), pattern) == Search(At(json, p), pattern)
      decreases |json| - p
    {
      var hit := StrStr(json, p, pattern);
      if hit.None? {
        return None;
      }
      var value := SkipWs(json, hit.value + |pattern|);
      SearchHit(json, hit.value, value, pattern);
      if value < |json| && json[value] == ':' {
        var i := SkipWs(json, value + 1);
        return Some(i);
      }
      p := hit.value + |pattern|;
    }
  }

  lemma SearchHit(json: string, at: nat, value: nat, pattern: string)
    requires pattern != [] && at + |pattern| <= |json| && pattern <= At(json, at) && value <= |json|
    requires At(json, value) == SkipSpace(At(json, at + |pattern|))
    ensures Search(At(json, at), pattern)
            == if value < |json| && json[value] == ':' then Some(SkipSpace(At(json, value + 1)))
               else Search(At(json, at + |pattern|), pattern)
  {
    assert json[at..][|pattern|..] == json[at + |pattern|..];
    if value < |json| {
      assert json[value..][1..] == json[value + 1..];
    }
  }

  /* ---- parse_string_value ---- */

  // The characters up to the closing quote, each backslash dropped and the next one kept as it is.
  function Unquote(s: string, room: nat): (r: Option<string>)
    ensures r.Some? ==> |r.value| <= room
  {
    if s == [] then None
    else if s[0] == '"' then Some([])
    else
      var skip := if s[0] == '\\' then 1 else 0;
      if |s| <= skip || room == 0 then None
      else match Unquote(s[skip + 1..], room - 1)
        case None => None
        case Some(rest) => Some([s[skip]] + rest)
  }

  // `parse_string_value` into a buffer of `size` characters, terminator included.
  function ParseString(value: Option<string>, size: nat): Option<string> {
    if value.None? || size == 0 || value.value == [] || value.value[0] != '"' then None
    else Unquote(value.value[1..], size - 1)
  }

  function Cons(prefix: string, r: Option<string>): Option<string> {
    if r.Some? then Some(prefix + r.value) else None
  }

  lemma UnquoteStep(done: string, s: string, p: nat, room: nat)
    requires p < |s|
    ensures var q := if s[p] == '\\' then p + 1 else p;
            Cons(done, Unquote(At(s, p), room))
            == if s[p] == '"' then Some(done)
               else if |s| <= q || room == 0 then None
               else Cons(done + [s[q]], Unquote(At(s, q + 1), room - 1))
  {
    var q := if s[p] == '\\' then p + 1 else p;
    if s[p] == '"' {
      assert done + [] == done;
    } else if |s| > q && room > 0 {
      assert s[p..][q + 1 - p..] == s[q + 1..] && s[p..][q - p] == s[q];
      var rest := Unquote(s[q + 1..], room - 1);
      if rest.Some? {
        assert done + ([s[q]] + rest.value) == done + [s[q]] + rest.value;
      }
    }
  }

  lemma ConsNothing(r: Option<string>)
    ensures Cons([], r) == r
  {
    if r.Some? {
      assert [] + r.value == r.value;
    }
  }

  method ParseStringValue(json: string, value: Option<nat>, out: array<char>) returns (ok: bool, len: nat)
    requires value.Some? ==> value.value <= |json|
    modifies out
    ensures var text := if value.Some? then Some(At(json, value.value)) else None;
            && (ok <==> ParseString(text, out.Length).Some?)
            && (ok ==> len < out.Length && out[len] == '\0' && ParseString(text, out.Length) == Some(out[..len]))
  {
    len := 0;
    if value.None? || value.value >= |json| || json[value.value] != '"' || out.Length == 0 {
      return false, 0;
    }
    var p := value.value + 1;
    assert At(json, value.value)[1..] == At(json, p);
    ok, len := UnquoteInto(json, p, out);
  }

  method UnquoteInto(json: string, from: nat, out: array<char>) returns (ok: bool, len: nat)
    requires from <= |json| && out.Length > 0
    modifies out
    ensures ok <==> Unquote(At(json, from), out.Length - 1).Some?
    ensures ok ==> len < out.Length && out[len] == '\0' && Unquote(At(json, from), out.Length - 1) == Some(out[..len])
  {
    hide Unquote, At;
    len := 0;
    var p := from;
    ghost var done: string := [];
    ConsNothing(Unquote(At(json, from), out.Length - 1));
    while p < |json|
      invariant p <= |json| && len < out.Length && done == out[..len]
      invariant Unquote(At(json, from), out.Length - 1) == Cons(done, Unquote(At(json, p), out.Length - 1 - len))
    {
      UnquoteStep(done, json, p, out.Length - 1 - len);
      if json[p] == '"' {
        out[len] := '\0';
        assert done == out[..len];
        return true, len;
      }
      if json[p] == '\\' {
        p := p + 1;
        if p >= |json| {
          return false, 0;
        }
      }
      if len >= out.Length - 1 {
        return false, 0;
      }
      out[len] := json[p];
      done := done + [json[p]];
      len := len + 1;
      p := p + 1;
    }
    UnquoteEmpty(json, out.Length - 1 - len);
    ok := false;
  }

  lemma UnquoteEmpty(s: string, room: nat)
    ensures Unquote(At(s, |s|), room) == None
  {
  }
}
