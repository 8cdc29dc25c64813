/**
 Percent coding: `uri_escape` with the quote escaped on top of it, as
 `RestClient::_cmd_2_path` does, and `curl_easy_unescape` read as a C string, as
 `Rest::translate_rest_to_cli` does.  Section 2.1 of RFC 3986.
 */
module Url {
  import opened Text
  import opened Digits
  import opened Replace
  import opened Processor

  /** What `uri_escape` leaves alone. */
  predicate Unreserved(c: char)
  {
    'A' <= c <= 'Z' || 'a' <= c <= 'z' || '0' <= c <= '9' || c in "-._~!*'()"
  }

  predicate IsByte(c: char)
  {
    c as int < 256
  }

  predicate Bytes(s: string)
  {
    forall i :: 0 <= i < |s| ==> IsByte(s[i])
  }

  function HexChar(n: nat): char
    requires n < 16
  {
    if n < 10 then ('0' as int + n) as char else ('A' as int + n - 10) as char
  }

  function Percent(c: char): string
    requires IsByte(c)
  {
    ['%', HexChar(c as int / 16), HexChar(c as int % 16)]
  }

  function UriEscape(s: string): string
    requires Bytes(s)
  {
    if s == "" then "" else (if Unreserved(s[0]) then [s[0]] else Percent(s[0])) + UriEscape(s[1..])
  }

  /** One token of a path: escaped, and the quote too. */
  function EscapeToken(s: string): string
    requires Bytes(s)
  {
    ReplaceAll(UriEscape(s), "'", "%27")
  }

  function Unescape(s: string): string
  {
    if s == "" then ""
    else if s[0] == '%' && |s| >= 3 && Hex(s[1]).Some? && Hex(s[2]).Some? then
      [(Hex(s[1]).value * 16 + Hex(s[2]).value) as char] + Unescape(s[3..])
    else [s[0]] + Unescape(s[1..])
  }

  /** `string(curl_easy_unescape(...))`. */
  function Decode(s: string): string
  {
    CString(Unescape(s))
  }

  lemma HexRoundTrip(n: nat)
    requires n < 16
    ensures Hex(HexChar(n)) == Some(n)
  {
  }

  lemma PercentDecodes(c: char, rest: string)
    requires IsByte(c)
    ensures Unescape(Percent(c) + rest) == [c] + Unescape(rest)
  {
    var s := Percent(c) + rest;
    HexRoundTrip(c as int / 16);
    HexRoundTrip(c as int % 16);
    assert s[3..] == rest;
    assert c as int == c as int / 16 * 16 + c as int % 16;
  }

  /** One character of an escaped token. */
  function EscapeChar(c: char): string
    requires IsByte(c)
  {
    if Unreserved(c) && c != '\'' then [c] else Percent(c)
  }

  lemma QuotePercent(c: char)
    requires IsByte(c)
    ensures MapChar(if Unreserved(c) then [c] else Percent(c), '\'', "%27") == EscapeChar(c)
  {
    if Unreserved(c) {
      assert [c][1..] == "";
      assert Percent('\'') == "%27";
    } else {
      var p := Percent(c);
      assert p[1] != '\'' && p[2] != '\'';
      assert p[1..] == [p[1], p[2]] && p[1..][1..] == [p[2]] && [p[2]][1..] == "";
      assert MapChar([p[2]], '\'', "%27") == [p[2]];
      assert MapChar(p[1..], '\'', "%27") == [p[1]] + [p[2]];
    }
  }

  /** An escaped token is the escaped characters one after the other. */
  lemma {:induction false} EscapeTokenCons(s: string)
    requires Bytes(s) && s != ""
    ensures EscapeToken(s) == EscapeChar(s[0]) + EscapeToken(s[1..])
  {
    var head, tail := if Unreserved(s[0]) then [s[0]] else Percent(s[0]), UriEscape(s[1..]);
    ReplaceOne(head + tail, '\'', "%27");
    ReplaceOne(tail, '\'', "%27");
    MapCharConcat(head, tail, '\'', "%27");
    QuotePercent(s[0]);
  }

  lemma {:induction false} UnescapeToken(s: string)
    requires Bytes(s)
    ensures Unescape(EscapeToken(s)) == s
    decreases |s|
  {
    if s != "" {
      EscapeTokenCons(s);
      UnescapeToken(s[1..]);
      var e, rest := EscapeChar(s[0]), EscapeToken(s[1..]);
      if |e| == 1 {
        assert (e + rest)[1..] == rest;
      } else {
        PercentDecodes(s[0], rest);
      }
      assert s == [s[0]] + s[1..];
    }
  }

  /** Decoding undoes escaping on every token without NUL. */
  lemma DecodeToken(s: string)
    requires Bytes(s) && NUL !in s
    ensures Decode(EscapeToken(s)) == s
  {
    UnescapeToken(s);
  }

  /** What an escaped token is made of. */
  predicate UrlChar(c: char)
  {
    (Unreserved(c) && c != '\'') || c == '%'
  }

  lemma {:induction false} EscapedChars(s: string)
    requires Bytes(s)
    ensures forall c :: c in EscapeToken(s) ==> UrlChar(c)
    ensures s != "" ==> EscapeToken(s) != ""
    decreases |s|
  {
    if s != "" {
      EscapeTokenCons(s);
      EscapedChars(s[1..]);
    }
  }

  /** A token needs no escaping exactly when all its characters are unreserved and not the quote. */
  lemma {:induction false} NeedsNoEscape(s: string)
    requires Bytes(s)
    ensures EscapeToken(s) == s <==> forall c :: c in s ==> Unreserved(c) && c != '\''
    decreases |s|
  {
    if s != "" {
      var e, rest := EscapeChar(s[0]), EscapeToken(s[1..]);
      EscapeTokenCons(s);
      EscapedLonger(s[1..]);
      NeedsNoEscape(s[1..]);
      assert forall c :: c in s <==> c == s[0] || c in s[1..];
      if |e| == 1 {
        assert e == [s[0]] && (e + rest)[1..] == rest && s == e + s[1..];
      } else {
        assert |e + rest| > |s|;
      }
    }
  }

  lemma {:induction false} EscapedLonger(s: string)
    requires Bytes(s)
    ensures |EscapeToken(s)| >= |s|
    decreases |s|
  {
    if s != "" {
      EscapeTokenCons(s);
      EscapedLonger(s[1..]);
    }
  }

  /** The two digits behind a percent sign are the byte in hexadecimal, the high digit first. */
  lemma PercentIs(c: char)
    requires IsByte(c)
    ensures var p := Percent(c);
            && |p| == 3 && p[0] == '%' && IsHex(p[1]) && IsHex(p[2])
            && HexDigit(p[1]) * 16 + HexDigit(p[2]) == c as int
  {
  }

  /** What section 2.2 of RFC 3986 reserves, but for the marks that the escaping leaves alone, and the percent sign. */
  predicate Reserved(c: char)
  {
    c in ":/?#[]@$&+,;=%"
  }

  predicate Letter(c: char)
  {
    'A' <= c <= 'Z' || 'a' <= c <= 'z' || '0' <= c <= '9' || c in "-._~!*()"
  }

  /** Letters, digits and eight marks go as they are; what is reserved, blanks and quotes do not. */
  lemma EscapedWhich(s: string)
    requires Bytes(s)
    ensures (forall c :: c in s ==> Letter(c)) ==> EscapeToken(s) == s
    ensures (exists c :: c in s && (Reserved(c) || c == ' ' || c == '\'' || c == '"')) ==> EscapeToken(s) != s
  {
    NeedsNoEscape(s);
  }

  /** Text without a percent sign is decoded to itself, and a sign that no two digits follow stays. */
  lemma {:induction false} UnescapePlain(s: string)
    requires '%' !in s
    ensures Unescape(s) == s
    decreases |s|
  {
    if s != "" {
      UnescapePlain(s[1..]);
      assert s == [s[0]] + s[1..];
    }
  }

  lemma PercentKept(c: char, d: char, rest: string)
    requires Hex(c).None? || Hex(d).None?
    ensures Unescape(['%', c, d] + rest) == "%" + Unescape([c, d] + rest)
  {
    assert (['%', c, d] + rest)[1..] == [c, d] + rest;
  }

  /** Digits of either case. */
  lemma LowerCase(c: char, d: char, rest: string)
    requires Hex(c).Some? && Hex(d).Some?
    ensures Unescape(['%', c, d] + rest) == [(Hex(c).value * 16 + Hex(d).value) as char] + Unescape(rest)
    ensures Hex('a') == Hex('A') == Some(10) && Hex('f') == Hex('F') == Some(15)
    ensures Hex('9') == Some(9) && Hex('g') == None
  {
    assert (['%', c, d] + rest)[3..] == rest;
  }
}
