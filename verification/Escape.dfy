/**
 The escaping of command output for JSON in `ConfMode::process`: five `mass_replace`
 passes in one place, two in another, against decoding by section 7 of RFC 8259.
 */
module Escape {
  import opened Text
  import opened Digits
  import opened Replace

  function Esc(c: char): string
  {
    if c == '\\' then "\\\\"
    else if c == '"' then "\\\""
    else if c == '\r' then "\\r"
    else if c == '\n' then "\\n"
    else if c == '\t' then "\\t"
    else [c]
  }

  /** One look at each character. */
  function EscapeAll(s: string): string
  {
    if s == "" then "" else Esc(s[0]) + EscapeAll(s[1..])
  }

  predicate Control(c: char)
  {
    c as int < 0x20
  }

  // ------------------------------------------------------------------ decoding

  function Hex4(s: string): Option<char>
    requires |s| == 4
  {
    var a, b, c, d := Hex(s[0]), Hex(s[1]), Hex(s[2]), Hex(s[3]);
    if a.None? || b.None? || c.None? || d.None? then None
    else
      var n := ((a.value * 16 + b.value) * 16 + c.value) * 16 + d.value;
      if 0 <= n < 0xD800 then Some(n as char) else None
  }

  /** The character that a two-character escape stands for. */
  function Short(c: char): Option<char>
  {
    match c
    case '"' => Some('"')
    case '\\' => Some('\\')
    case '/' => Some('/')
    case 'b' => Some(8 as char)
    case 'f' => Some(12 as char)
    case 'n' => Some('\n')
    case 'r' => Some('\r')
    case 't' => Some('\t')
    case _ => None
  }

  function Cons(c: char, r: Option<string>): Option<string>
  {
    if r.Some? then Some([c] + r.value) else None
  }

  /** The contents of a JSON string, between its quotes; surrogate escapes are left aside. */
  function Unescape(s: string): Option<string>
    decreases |s|
  {
    if s == "" then Some("")
    else if Control(s[0]) || s[0] == '"' then None
    else if s[0] != '\\' then Cons(s[0], Unescape(s[1..]))
    else if |s| < 2 then None
    else if Short(s[1]).Some? then Cons(Short(s[1]).value, Unescape(s[2..]))
    else if s[1] == 'u' && |s| >= 6 && Hex4(s[2..6]).Some? then Cons(Hex4(s[2..6]).value, Unescape(s[6..]))
    else None
  }

  // ------------------------------------------------------------------ five passes

  function Passes(s: string): string
  {
    var a := MapChar(s, '\\', "\\\\");
    var b := MapChar(a, '"', "\\\"");
    var c := MapChar(b, '\r', "\\r");
    var d := MapChar(c, '\n', "\\n");
    MapChar(d, '\t', "\\t")
  }

  lemma PassesConcat(s: string, t: string)
    ensures Passes(s + t) == Passes(s) + Passes(t)
  {
    MapCharConcat(s, t, '\\', "\\\\");
    var a, a' := MapChar(s, '\\', "\\\\"), MapChar(t, '\\', "\\\\");
    MapCharConcat(a, a', '"', "\\\"");
    var b, b' := MapChar(a, '"', "\\\""), MapChar(a', '"', "\\\"");
    MapCharConcat(b, b', '\r', "\\r");
    var c, c' := MapChar(b, '\r', "\\r"), MapChar(b', '\r', "\\r");
    MapCharConcat(c, c', '\n', "\\n");
    MapCharConcat(MapChar(c, '\n', "\\n"), MapChar(c', '\n', "\\n"), '\t', "\\t");
  }

  lemma MapOne(x: char, c: char, to: string)
    ensures MapChar([x], c, to) == if x == c then to else [x]
  {
    assert [x][1..] == "";
  }

  lemma MapTwo(x: char, y: char, c: char, to: string)
    requires x != c && y != c
    ensures MapChar([x, y], c, to) == [x, y]
  {
    assert [x, y][1..] == [y];
    MapOne(y, c, to);
  }

  lemma PassesOne(x: char)
    ensures Passes([x]) == Esc(x)
  {
    MapOne(x, '\\', "\\\\");
    MapOne(x, '"', "\\\"");
    MapOne(x, '\r', "\\r");
    MapOne(x, '\n', "\\n");
    MapOne(x, '\t', "\\t");
    if Esc(x) != [x] {
      var y := Esc(x)[1];
      assert Esc(x) == ['\\', y];
      if x == '\\' { MapTwo('\\', y, '"', "\\\""); }
      if x in "\\\"" { MapTwo('\\', y, '\r', "\\r"); }
      if x in "\\\"\r" { MapTwo('\\', y, '\n', "\\n"); }
      if x in "\\\"\r\n" { MapTwo('\\', y, '\t', "\\t"); }
    }
  }

  /** The five passes, in their order, are one escape per character. */
  lemma {:induction false} PassesAreOne(s: string)
    ensures Passes(s) == EscapeAll(s)
    decreases |s|
  {
    if s != "" {
      assert s == [s[0]] + s[1..];
      PassesConcat([s[0]], s[1..]);
      PassesOne(s[0]);
      PassesAreOne(s[1..]);
    }
  }

  /** The escaping code after `show`, `load`, `merge` and `save file`. */
  method EscapeOutput(stdout: string) returns (r: string)
    ensures r == EscapeAll(stdout)
  {
    ReplaceOne(stdout, '\\', "\\\\");
    r := MassReplace(stdout, "\\", "\\\\");
    ReplaceOne(r, '"', "\\\"");
    r := MassReplace(r, "\"", "\\\"");
    ReplaceOne(r, '\r', "\\r");
    r := MassReplace(r, "\r", "\\r");
    ReplaceOne(r, '\n', "\\n");
    r := MassReplace(r, "\n", "\\n");
    ReplaceOne(r, '\t', "\\t");
    r := MassReplace(r, "\t", "\\t");
    PassesAreOne(stdout);
  }

  /** A control character that the five passes leave as it is. */
  predicate Raw(c: char)
  {
    Control(c) && c !in "\r\n\t"
  }

  /** What one escaped character is decoded to. */
  lemma UnescapeOne(c: char, rest: string)
    ensures Unescape(Esc(c) + rest) == if Raw(c) then None else Cons(c, Unescape(rest))
  {
    var e := Esc(c);
    if |e| == 2 {
      assert (e + rest)[2..] == rest && Short(e[1]) == Some(c);
    } else {
      assert (e + rest)[1..] == rest;
    }
  }

  lemma ConsSame(c: char, r: Option<string>, s: string)
    ensures Cons(c, r) == Some([c] + s) <==> r == Some(s)
  {
    if r.Some? { assert ([c] + r.value)[1..] == r.value && ([c] + s)[1..] == s; }
  }

  /** Decoding gives back the output exactly when it holds no other control character. */
  lemma {:induction false} EscapeExactly(s: string)
    ensures Unescape(EscapeAll(s)) == Some(s) <==> forall i :: 0 <= i < |s| ==> !Raw(s[i])
    decreases |s|
  {
    if s != "" {
      UnescapeOne(s[0], EscapeAll(s[1..]));
      EscapeExactly(s[1..]);
      ConsSame(s[0], Unescape(EscapeAll(s[1..])), s[1..]);
      assert s == [s[0]] + s[1..];
    }
  }

  // ------------------------------------------------------------------ two passes

  function Esc2(c: char): string
  {
    if c == '"' then "\\\"" else if c == '\n' then "\\n" else [c]
  }

  function EscapeTwo(s: string): string
  {
    if s == "" then "" else Esc2(s[0]) + EscapeTwo(s[1..])
  }

  lemma {:induction false} TwoPassesAreOne(s: string)
    ensures MapChar(MapChar(s, '"', "\\\""), '\n', "\\n") == EscapeTwo(s)
    decreases |s|
  {
    if s != "" {
      var head := if s[0] == '"' then "\\\"" else [s[0]];
      MapCharConcat(head, MapChar(s[1..], '"', "\\\""), '\n', "\\n");
      if s[0] == '"' { MapTwo('\\', '"', '\n', "\\n"); } else { MapOne(s[0], '\n', "\\n"); }
      TwoPassesAreOne(s[1..]);
    }
  }

  /** The escaping code after `commit` and `save`, and of a failed `set`. */
  method EscapeMessage(stdout: string) returns (r: string)
    ensures r == EscapeTwo(stdout)
  {
    ReplaceOne(stdout, '"', "\\\"");
    r := MassReplace(stdout, "\"", "\\\"");
    ReplaceOne(r, '\n', "\\n");
    r := MassReplace(r, "\n", "\\n");
    TwoPassesAreOne(stdout);
  }

  lemma TwoHeads(s: string)
    requires |s| > 1
    ensures EscapeTwo(s) == Esc2(s[0]) + Esc2(s[1]) + EscapeTwo(s[2..])
  {
    assert s[1..][1..] == s[2..];
    assert EscapeTwo(s[1..]) == Esc2(s[1]) + EscapeTwo(s[2..]);
  }

  /** A stretch of escaped text without backslashes is the original text. */
  lemma {:induction false} PlainPrefix(s: string, n: nat)
    requires n <= |EscapeTwo(s)| && '\\' !in EscapeTwo(s)[..n]
    ensures n <= |s| && EscapeTwo(s)[..n] == s[..n] && EscapeTwo(s)[n..] == EscapeTwo(s[n..])
    decreases n
  {
    var t := EscapeTwo(s);
    if n > 0 {
      var rest := EscapeTwo(s[1..]);
      assert t[0] == t[..n][0];
      assert t == [s[0]] + rest;
      assert t[..n] == [s[0]] + rest[..n - 1] && t[n..] == rest[n - 1..];
      PlainPrefix(s[1..], n - 1);
      assert s[..n] == [s[0]] + s[1..][..n - 1] && s[1..][n - 1..] == s[n..];
    }
  }

  lemma {:induction false} TwoUnicode(s: string)
    requires |s| > 1 && s[0] == '\\' && s[1] == 'u'
    ensures var t := EscapeTwo(s);
            |t| >= 6 && Hex4(t[2..6]).Some? ==> |s| >= 6 && t[6..] == EscapeTwo(s[6..])
  {
    var t, rest := EscapeTwo(s), EscapeTwo(s[2..]);
    TwoHeads(s);
    assert t == ['\\', 'u'] + rest;
    if |t| >= 6 && Hex4(t[2..6]).Some? {
      assert t[2..6] == rest[..4];
      PlainPrefix(s[2..], 4);
      assert s[2..][4..] == s[6..] && t[6..] == rest[4..];
    }
  }

  /** How a message that begins with a raw backslash is decoded. */
  lemma {:induction false} TwoBackslash(s: string) returns (c: char)
    requires |s| > 1 && s[0] == '\\'
    ensures var u := Unescape(EscapeTwo(s));
            if s[1] == '"' then u == None
            else if s[1] == '\n' then u == Cons('\\', Cons('n', Unescape(EscapeTwo(s[2..]))))
            else if Short(s[1]).Some? then u == Cons(Short(s[1]).value, Unescape(EscapeTwo(s[2..])))
            else u == None || (|s| >= 6 && u == Cons(c, Unescape(EscapeTwo(s[6..]))))
  {
    c := '?';
    var t, rest := EscapeTwo(s), EscapeTwo(s[2..]);
    TwoHeads(s);
    if s[1] == '"' {
      assert t[2..][0] == '"';
    } else if s[1] == '\n' {
      assert t[2..] == ['n'] + rest && (['n'] + rest)[1..] == rest;
    } else {
      assert t[1] == s[1] && t[2..] == rest;
      if s[1] == 'u' && |t| >= 6 && Hex4(t[2..6]).Some? {
        TwoUnicode(s);
        c := Hex4(t[2..6]).value;
      }
    }
  }

  /** A decoded message never gets longer: a raw backslash swallows what follows. */
  lemma {:induction false} TwoShrinks(s: string)
    ensures Unescape(EscapeTwo(s)).Some? ==> |Unescape(EscapeTwo(s)).value| <= |s|
    decreases |s|
  {
    if s != "" {
      if s[0] != '\\' {
        TwoShrinks(s[1..]);
        assert EscapeTwo(s)[|Esc2(s[0])|..] == EscapeTwo(s[1..]);
      } else if |s| > 1 {
        var c := TwoBackslash(s);
        TwoShrinks(s[2..]);
        if |s| >= 6 { TwoShrinks(s[6..]); }
      }
    }
  }

  /** What the two passes cannot carry: a backslash, or a control character other than newline. */
  predicate Lossy(c: char)
  {
    c == '\\' || (Control(c) && c != '\n')
  }

  lemma {:induction false} BackslashLost(s: string)
    requires s != "" && s[0] == '\\'
    ensures Unescape(EscapeTwo(s)) != Some(s)
  {
    if |s| > 1 {
      var c := TwoBackslash(s);
      TwoShrinks(s[2..]);
      if |s| >= 6 { TwoShrinks(s[6..]); }
    }
  }

  /**
   Decoding gives back a message escaped by the two passes exactly when it holds no
   backslash and no control character other than newline.
   */
  lemma {:induction false} TwoExactly(s: string)
    ensures Unescape(EscapeTwo(s)) == Some(s) <==> forall i :: 0 <= i < |s| ==> !Lossy(s[i])
    decreases |s|
  {
    if s != "" {
      var e, rest := Esc2(s[0]), EscapeTwo(s[1..]);
      assert s == [s[0]] + s[1..];
      assert (e + rest)[|e|..] == rest;
      if s[0] == '\\' {
        BackslashLost(s);
      } else {
        TwoExactly(s[1..]);
        if !Lossy(s[0]) {
          assert Unescape(e + rest) == Cons(s[0], Unescape(rest));
          assert Unescape(rest).Some? ==> ([s[0]] + Unescape(rest).value)[1..] == Unescape(rest).value;
        }
      }
    }
  }

  /** The short escapes of section 7 of RFC 8259, and one by its number. */
  lemma ShortEscapes()
    ensures Unescape("\\\"") == Some("\"") && Unescape("\\\\") == Some("\\") && Unescape("\\/") == Some("/")
    ensures Unescape("\\n") == Some("\n") && Unescape("\\r") == Some("\r") && Unescape("\\t") == Some("\t")
    ensures Unescape("\\b") == Some([8 as char]) && Unescape("\\f") == Some([12 as char])
  {
    assert Unescape("") == Some("");
    forall c | Short(c).Some? ensures Unescape(['\\', c]) == Some([Short(c).value]) {
      var s := ['\\', c];
      assert s[2..] == "";
      assert Unescape(s) == Cons(Short(c).value, Some(""));
      assert [Short(c).value] + "" == [Short(c).value];
    }
  }

  lemma ByNumber(a: char, b: char, c: char, d: char)
    requires Hex4([a, b, c, d]).Some?
    ensures Unescape(['\\', 'u', a, b, c, d]) == Some([Hex4([a, b, c, d]).value])
    ensures Hex4("0041") == Some('A') && Hex4("000a") == Some('\n')
  {
    var s := ['\\', 'u', a, b, c, d];
    assert s[2..6] == [a, b, c, d] && s[6..] == "" && Unescape("") == Some("");
    assert Short('u') == None;
    assert Unescape(s) == Cons(Hex4([a, b, c, d]).value, Some(""));
    assert [Hex4([a, b, c, d]).value] + "" == [Hex4([a, b, c, d]).value];
  }
}
