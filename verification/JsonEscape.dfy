/** Bounded JSON escaping of event texts (RFC 8259 section 7). */
module JsonEscape {
  import opened Common
  import opened Sha256Hex
  import opened JsonScalars
  import opened JsonText

  // The two-character escapes: the letter after the backslash.
  function ShortEscape(c: char): Option<char> {
    if c == '"' || c == '\\' then Some(c)
    else if c as int == 8 then Some('b')
    else if c as int == 12 then Some('f')
    else if c == '\n' then Some('n')
    else if c == '\r' then Some('r')
    else if c == '\t' then Some('t')
    else None
  }

  function EscapeChar(c: char): (r: string)
    ensures 1 <= |r| <= 6
  {
    if ShortEscape(c).Some? then ['\\', ShortEscape(c).value]
    else if c as int < 0x20 then "\\u00" + [HexChar(c as int / 16), HexChar(c as int % 16)]
    else [c]
  }

  function Escape(s: string): string {
    if s == [] then [] else EscapeChar(s[0]) + Escape(s[1..])
  }

  // How many characters of `s` fit, escaped, into `room` characters.
  function Fit(s: string, room: nat): (k: nat)
    ensures k <= |s|
  {
    if s == [] || |EscapeChar(s[0])| > room then 0 else 1 + Fit(s[1..], room - |EscapeChar(s[0])|)
  }

  // `meb_diag_json_escape`. The result is always terminated inside the buffer and never ends in the
  // middle of an escape.
  method JsonEscape(src: Option<string>, dst: array<char>) returns (out: nat)
    modifies dst
    ensures dst.Length == 0 ==> out == 0
    ensures dst.Length > 0 ==>
              var s := if src.Some? then CString(src.value) else "";
              && out < dst.Length && dst[out] == '\0'
              && dst[..out] == Escape(s[..Fit(s, dst.Length - 1)])
  {
    out := 0;
    if dst.Length == 0 {
      return;
    }
    var s := if src.Some? then CString(src.value) else "";
    out := EscapeInto(s, dst);
    dst[out] := '\0';
  }

  method EscapeInto(s: string, dst: array<char>) returns (out: nat)
    requires dst.Length > 0
    modifies dst
    ensures out < dst.Length && dst[..out] == Escape(s[..Fit(s, dst.Length - 1)])
  {
    hide ShortEscape, EscapeChar, Fit, Escape;
    out := 0;
    var i := 0;
    ghost var done: string := [];
    EscapeStart(s, dst.Length - 1);
    while i < |s| && out < dst.Length - 1
      invariant 0 <= i <= |s| && out < dst.Length && done == dst[..out] == Escape(s[..i])
      invariant Fit(s, dst.Length - 1) == i + Fit(s[i..], dst.Length - 1 - out)
    {
      EscapeNext(s, i, dst.Length - 1 - out);
      var piece := EscapeChar(s[i]);
      if out + |piece| >= dst.Length {
        return;
      }
      forall k | 0 <= k < |piece| {
        dst[out + k] := piece[k];
      }
      assert dst[..out + |piece|] == done + piece;
      done := done + piece;
      out := out + |piece|;
      i := i + 1;
    }
    FitFull(s[i..], dst.Length - 1 - out);
  }

  lemma EscapeStart(s: string, room: nat)
    ensures Escape(s[..0]) == [] && s[0..] == s
  {
  }

  lemma EscapeNext(s: string, i: nat, room: nat)
    requires i < |s|
    ensures Escape(s[..i + 1]) == Escape(s[..i]) + EscapeChar(s[i])
    ensures Fit(s[i..], room) == if |EscapeChar(s[i])| > room then 0 else 1 + Fit(s[i + 1..], room - |EscapeChar(s[i])|)
  {
    hide EscapeChar;
    EscapeSnoc(s[..i], s[i]);
    assert s[..i] + [s[i]] == s[..i + 1];
    assert s[i..][1..] == s[i + 1..];
  }

  lemma FitFull(s: string, room: nat)
    requires s == [] || room == 0
    ensures Fit(s, room) == 0
  {
  }

  lemma {:induction false} EscapeSnoc(s: string, c: char)
    ensures Escape(s + [c]) == Escape(s) + EscapeChar(c)
  {
    hide EscapeChar;
    if s == [] {
      assert s + [c] == [c] && [c][1..] == [];
      assert EscapeChar(c) + [] == EscapeChar(c);
    } else {
      EscapeSnoc(s[1..], c);
      assert (s + [c])[1..] == s[1..] + [c];
      assert EscapeChar(s[0]) + (Escape(s[1..]) + EscapeChar(c)) == EscapeChar(s[0]) + Escape(s[1..]) + EscapeChar(c);
    }
  }

  // The prefix is the longest whose escape fits.
  lemma {:induction false} FitIsLongest(s: string, room: nat, k: nat)
    requires k <= |s|
    ensures |Escape(s[..k])| <= room <==> k <= Fit(s, room)
  {
    hide EscapeChar;
    if k > 0 {
      assert s[..k][1..] == s[1..][..k - 1];
      if |EscapeChar(s[0])| <= room {
        FitIsLongest(s[1..], room - |EscapeChar(s[0])|, k - 1);
      }
    }
  }

  /* ---- Reading it back: a standard JSON reader ---- */

  // The character a two-character escape stands for.
  function ShortMeaning(c: char): Option<char> {
    if c == '"' || c == '\\' || c == '/' then Some(c)
    else if c == 'b' then Some(8 as char)
    else if c == 'f' then Some(12 as char)
    else if c == 'n' then Some('\n')
    else if c == 'r' then Some('\r')
    else if c == 't' then Some('\t')
    else None
  }

  // A string's text as RFC 8259 reads it; four-digit escapes below U+0100 are all the device writes.
  function Unescape(t: string): Option<string> {
    if t == [] then Some([])
    else if t[0] == '"' || t[0] as int < 0x20 then None
    else if t[0] != '\\' then Then(t[0], Unescape(t[1..]))
    else if |t| >= 2 && ShortMeaning(t[1]).Some? then Then(ShortMeaning(t[1]).value, Unescape(t[2..]))
    else if |t| >= 6 && t[1] == 'u' && t[2] == '0' && t[3] == '0' && HexDigit(t[4]) >= 0 && HexDigit(t[5]) >= 0 then
      Then((HexDigit(t[4]) * 16 + HexDigit(t[5])) as char, Unescape(t[6..]))
    else None
  }

  function Then(c: char, r: Option<string>): Option<string> {
    if r.Some? then Some([c] + r.value) else None
  }

  lemma {:induction false} UnescapeEscape(s: string)
    ensures Unescape(Escape(s)) == Some(s)
  {
    if s != [] {
      UnescapeEscape(s[1..]);
      UnescapeOne(s[0], Escape(s[1..]));
      assert s == [s[0]] + s[1..];
    }
  }

  lemma UnescapeOne(c: char, rest: string)
    ensures Unescape(EscapeChar(c) + rest) == Then(c, Unescape(rest))
  {
    var t := EscapeChar(c) + rest;
    if ShortEscape(c).Some? {
      assert t[2..] == rest;
      assert ShortMeaning(t[1]) == Some(c);
    } else if c as int < 0x20 {
      assert t[6..] == rest;
      assert t[1] == 'u' && ShortMeaning('u') == None;
      HexCharExactly(t[4], c as int / 16);
      HexCharExactly(t[5], c as int % 16);
    } else {
      assert t[1..] == rest;
    }
  }

  /* ---- Reading it back: the firmware's own reader ---- */

  ghost predicate NoControl(s: string) {
    forall i :: 0 <= i < |s| ==> s[i] as int >= 0x20
  }

  // The firmware's string reader inverts the escaper exactly on texts without control characters that
  // fit its buffer, whatever follows them.
  lemma {:induction false} FirmwareReadsBackExactly(s: string, rest: string, size: nat)
    ensures ParseString(Some("\"" + Escape(s) + "\"" + rest), size) == Some(s) <==> NoControl(s) && |s| < size
  {
    var t := Escape(s) + "\"" + rest;
    assert ("\"" + Escape(s) + "\"" + rest)[1..] == t;
    if NoControl(s) && |s| < size {
      UnquoteEscape(s, rest, size - 1);
    }
    EscapeReadsPlain(s, rest);
  }

  lemma {:induction false} UnquoteEscape(s: string, rest: string, room: nat)
    requires NoControl(s) && |s| <= room
    ensures Unquote(Escape(s) + "\"" + rest, room) == Some(s)
  {
    var t := Escape(s) + "\"" + rest;
    if s != [] {
      UnquoteEscape(s[1..], rest, room - 1);
      var more := Escape(s[1..]) + "\"" + rest;
      assert t == EscapeChar(s[0]) + more;
      assert t[|EscapeChar(s[0])|..] == more;
      assert s[0] as int >= 0x20;
      assert EscapeChar(s[0]) == if s[0] == '"' || s[0] == '\\' then ['\\', s[0]] else [s[0]];
      assert s == [s[0]] + s[1..];
    }
  }

  // No control character is ever read from this text.
  ghost predicate ReadsPlain(t: string) {
    forall room: nat :: Unquote(t, room).Some? ==> NoControl(Unquote(t, room).value)
  }

  // Not from an escaped text either: reading stops at the closing quote, whatever comes after it.
  lemma {:induction false} EscapeReadsPlain(s: string, rest: string)
    ensures ReadsPlain(Escape(s) + "\"" + rest)
  {
    if s != [] {
      EscapeReadsPlain(s[1..], rest);
      hide ReadsPlain;
      var more := Escape(s[1..]) + "\"" + rest;
      assert Escape(s) + "\"" + rest == EscapeChar(s[0]) + more;
      EscapeCharReadsPlain(s[0], more);
    }
  }

  lemma EscapeCharReadsPlain(c: char, more: string)
    requires ReadsPlain(more)
    ensures ReadsPlain(EscapeChar(c) + more)
  {
    hide ReadsPlain;
    if ShortEscape(c).Some? {
      EscapedReadsPlain(ShortEscape(c).value, more);
    } else if c as int < 0x20 {
      var high, low := HexChar(c as int / 16), HexChar(c as int % 16);
      PlainCharReadsPlain(low, more);
      PlainCharReadsPlain(high, [low] + more);
      PlainCharReadsPlain('0', [high] + ([low] + more));
      PlainCharReadsPlain('0', ['0'] + ([high] + ([low] + more)));
      EscapedReadsPlain('u', ['0'] + (['0'] + ([high] + ([low] + more))));
      assert EscapeChar(c) + more == ['\\', 'u'] + (['0'] + (['0'] + ([high] + ([low] + more))));
    } else {
      PlainCharReadsPlain(c, more);
    }
  }

  lemma PlainCharReadsPlain(c: char, more: string)
    requires c as int >= 0x20 && c != '"' && c != '\\' && ReadsPlain(more)
    ensures ReadsPlain([c] + more)
  {
    assert ([c] + more)[1..] == more;
  }

  lemma EscapedReadsPlain(c: char, more: string)
    requires c as int >= 0x20 && ReadsPlain(more)
    ensures ReadsPlain(['\\', c] + more)
  {
    assert (['\\', c] + more)[2..] == more;
  }

  /* ---- Escaped texts as request ids ---- */

  // A string id with its standard escapes is echoed as it was sent, as long as it fits.
  lemma {:induction false} StringIdIsEchoed(s: string, rest: string, room: nat)
    ensures var token := "\"" + Escape(s) + "\"";
            IdToken(token + rest, room) == if |token| <= room then Some(token) else None
  {
    hide Escape, QuoteEnd;
    var token := "\"" + Escape(s) + "\"";
    var text := token + rest;
    assert text[1..] == Escape(s) + "\"" + rest;
    QuoteEndOfEscape(text, 1, s, rest);
    assert text[0] == '"' && text[..|token|] == token;
  }

  lemma {:induction false} QuoteEndOfEscape(text: string, i: nat, s: string, rest: string)
    requires i <= |text| && text[i..] == Escape(s) + "\"" + rest
    ensures QuoteEnd(text, i) == Some(i + |Escape(s)| + 1)
    decreases |s|
  {
    hide EscapeChar;
    if s == [] {
      assert text[i..][0] == '"';
    } else {
      var piece, more := EscapeChar(s[0]), Escape(s[1..]) + "\"" + rest;
      assert |Escape(s)| == |piece| + |Escape(s[1..])|;
      assert text[i..] == piece + more;
      hide Escape, QuoteEnd;
      assert text[i + |piece|..] == text[i..][|piece|..] == more;
      EscapeCharIsPassed(text, i, s[0], more);
      QuoteEndOfEscape(text, i + |piece|, s[1..], rest);
    }
  }

  lemma EscapeCharIsPassed(text: string, i: nat, c: char, more: string)
    requires i <= |text| && text[i..] == EscapeChar(c) + more
    ensures QuoteEnd(text, i) == QuoteEnd(text, i + |EscapeChar(c)|)
  {
    forall k | 0 <= k < |EscapeChar(c)| ensures i + k < |text| && text[i + k] == EscapeChar(c)[k] {
      assert text[i..][k] == (EscapeChar(c) + more)[k];
    }
    var piece := EscapeChar(c);
    if ShortEscape(c).Some? {
      assert |piece| == 2 && text[i] == piece[0] == '\\' && i + 1 < |text|;
    } else if c as int < 0x20 {
      assert |piece| == 6 && text[i] == piece[0] && text[i + 1] == piece[1] && text[i + 2] == piece[2];
      assert text[i + 3] == piece[3] && text[i + 4] == piece[4] && text[i + 5] == piece[5];
      assert piece[4] == HexChar(c as int / 16) && piece[5] == HexChar(c as int % 16);
      assert QuoteEnd(text, i) == QuoteEnd(text, i + 2);
      PlainCharIsPassed(text, i + 2);
      PlainCharIsPassed(text, i + 3);
      PlainCharIsPassed(text, i + 4);
      PlainCharIsPassed(text, i + 5);
    } else {
      assert |piece| == 1 && text[i] == piece[0];
    }
  }

  lemma PlainCharIsPassed(text: string, i: nat)
    requires i < |text| && text[i] != '"' && text[i] != '\\'
    ensures QuoteEnd(text, i) == QuoteEnd(text, i + 1)
  {
  }
}
