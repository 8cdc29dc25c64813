/**
 String primitives of the C++ and Perl sources: `find`, `substr` with unsigned
 counts, replacement, splitting and joining.
 */
module Text {

  datatype Option<+T> = None | Some(value: T)

  function OrEmpty(s: Option<string>): string
  {
    if s.Some? then s.value else ""
  }

  /** Field `i`, or the empty string if there are not so many. */
  function Field(fields: seq<string>, i: nat): string
  {
    if i < |fields| then fields[i] else ""
  }

  /** Perl's `\s`. */
  predicate Blank(c: char)
  {
    c == ' ' || 9 <= c as int <= 13
  }

  /** `s/\s+$//`. */
  function StripRight(v: string): (r: string)
    ensures r <= v && (r == "" || !Blank(r[|r| - 1]))
    ensures forall i :: |r| <= i < |v| ==> Blank(v[i])
  {
    if v != "" && Blank(v[|v| - 1]) then StripRight(v[..|v| - 1]) else v
  }

  /** A text that stripping leaves as it is, and that is not empty. */
  predicate Trim(v: string)
  {
    v != "" && !Blank(v[|v| - 1])
  }

  predicate Blanks(b: string)
  {
    forall i :: 0 <= i < |b| ==> Blank(b[i])
  }

  /** Space, tab, line feed, vertical tab, form feed and carriage return. */
  lemma BlankIs(c: char)
    ensures Blank(c) <==> c == ' ' || c == '\t' || c == '\n' || c == 11 as char || c == 12 as char || c == '\r'
  {
  }

  /** Stripping takes all the blanks at the end and nothing else. */
  lemma {:induction false} StripExactly(w: string, b: string)
    requires Blanks(b) && (w == "" || Trim(w))
    ensures StripRight(w + b) == w
    decreases |b|
  {
    var v, n := w + b, |b|;
    if n == 0 {
      assert v == w;
    } else {
      assert v[|v| - 1] == b[n - 1] && v[..|v| - 1] == w + b[..n - 1];
      StripExactly(w, b[..n - 1]);
    }
  }

  /** `pat` occurs in `s` at index `i`. */
  predicate At(s: string, pat: string, i: int)
  {
    0 <= i && i + |pat| <= |s| && s[i..i + |pat|] == pat
  }

  /** `std::string::find(pat, from)`: the least occurrence at or after `from`. */
  function Find(s: string, pat: string, from: nat): (r: Option<nat>)
    ensures r.Some? ==> from <= r.value && At(s, pat, r.value)
    decreases if from <= |s| then |s| - from + 1 else 0
  {
    if from + |pat| > |s| then None
    else if At(s, pat, from) then Some(from)
    else Find(s, pat, from + 1)
  }

  /** `Find` passes over no occurrence. */
  lemma {:induction false} FindLeast(s: string, pat: string, from: nat, k: nat)
    requires from <= k && (Find(s, pat, from).Some? ==> k < Find(s, pat, from).value)
    ensures !At(s, pat, k)
    decreases k - from
  {
    if from < k && from + |pat| <= |s| { FindLeast(s, pat, from + 1, k); }
  }

  lemma {:induction false} FindIs(s: string, pat: string, from: nat, i: nat)
    requires from <= i && At(s, pat, i) && forall k :: from <= k < i ==> !At(s, pat, k)
    ensures Find(s, pat, from) == Some(i)
    decreases i - from
  {
    if from < i { FindIs(s, pat, from + 1, i); }
  }

  lemma FindNowhere(s: string, pat: string, from: nat)
    requires forall k :: from <= k ==> !At(s, pat, k)
    ensures Find(s, pat, from) == None
  {
  }

  lemma AtShift(x: string, rest: string, pat: string, k: nat)
    requires |x| <= k
    ensures At(x + rest, pat, k) <==> At(rest, pat, k - |x|)
  {
    if k + |pat| <= |x + rest| { assert (x + rest)[k..k + |pat|] == rest[k - |x|..k - |x| + |pat|]; }
  }

  /** Searching past a stretch in which the pattern does not begin. */
  lemma FindAfter(x: string, rest: string, pat: string)
    requires forall k :: 0 <= k < |x| ==> !At(x + rest, pat, k)
    ensures Find(x + rest, pat, 0) == match Find(rest, pat, 0) case None => None case Some(i) => Some(|x| + i)
  {
    var f := Find(rest, pat, 0);
    forall k: nat | f.Some? ==> k < |x| + f.value ensures !At(x + rest, pat, k) {
      if |x| <= k {
        AtShift(x, rest, pat, k);
        FindLeast(rest, pat, 0, k - |x|);
      }
    }
    if f.Some? {
      AtShift(x, rest, pat, |x| + f.value);
      FindIs(x + rest, pat, 0, |x| + f.value);
    } else {
      FindNowhere(x + rest, pat, 0);
    }
  }

  /** `find` of one character. */
  function FindChar(s: string, c: char, from: nat): (r: Option<nat>)
    ensures r.Some? ==> from <= r.value < |s| && s[r.value] == c
    decreases if from <= |s| then |s| - from else 0
  {
    if from >= |s| then None else if s[from] == c then Some(from) else FindChar(s, c, from + 1)
  }

  function Shift(n: nat, f: Option<nat>): Option<nat>
  {
    if f.Some? then Some(n + f.value) else None
  }

  lemma {:induction false} FindCharFrom(s: string, c: char, from: nat, more: nat)
    requires from + more <= |s|
    ensures FindChar(s, c, from + more) == Shift(from, FindChar(s[from..], c, more))
    decreases |s| - from - more
  {
    if from + more < |s| { FindCharFrom(s, c, from, more + 1); }
  }

  /** The first occurrence right after a stretch without the character. */
  lemma {:induction false} FindCharAt(s: string, c: char, from: nat, i: nat)
    requires from <= i < |s| && s[i] == c && forall k :: from <= k < i ==> s[k] != c
    ensures FindChar(s, c, from) == Some(i)
    decreases i - from
  {
    if from < i { FindCharAt(s, c, from + 1, i); }
  }

  lemma {:induction false} FindCharSome(s: string, c: char, from: nat, i: nat)
    requires from <= i < |s| && s[i] == c
    ensures FindChar(s, c, from).Some?
    decreases i - from
  {
    if s[from] != c { FindCharSome(s, c, from + 1, i); }
  }

  lemma {:induction false} FindCharNone(s: string, c: char, from: nat)
    requires forall k :: from <= k < |s| ==> s[k] != c
    ensures FindChar(s, c, from) == None
    decreases if from <= |s| then |s| - from else 0
  {
    if from < |s| { FindCharNone(s, c, from + 1); }
  }

  /** `rfind` of one character. */
  function FindLast(s: string, c: char): (r: Option<nat>)
    ensures r.Some? ==> r.value < |s| && s[r.value] == c && c !in s[r.value + 1..]
    ensures r.None? ==> c !in s
  {
    if s == "" then None
    else if s[|s| - 1] == c then Some(|s| - 1)
    else
      var r := FindLast(s[..|s| - 1], c);
      assert s == s[..|s| - 1] + [s[|s| - 1]];
      r
  }

  lemma {:induction false} FindLastOn(s: string, c: char, k: nat)
    requires k < |s| && s[k] == c
    ensures FindLast(s, c).Some? && FindLast(s, c).value >= k
    decreases |s|
  {
    if s[|s| - 1] != c { FindLastOn(s[..|s| - 1], c, k); }
  }

  /** `substr(pos, count)` where a negative `count` stands for a wrapped, hence huge, unsigned count. */
  function Substr(s: string, pos: nat, count: int): string
    requires pos <= |s|
  {
    if count < 0 || pos + count > |s| then s[pos..] else s[pos..pos + count]
  }

  /** Left-to-right, non-overlapping replacement. */
  function ReplaceAll(s: string, victim: string, replacement: string): string
    requires victim != ""
    decreases |s|
  {
    if s == "" then ""
    else if victim <= s then replacement + ReplaceAll(s[|victim|..], victim, replacement)
    else [s[0]] + ReplaceAll(s[1..], victim, replacement)
  }

  /** The fields of `s` between consecutive occurrences of `sep`, empty ones included. */
  function Split(s: string, sep: string): (r: seq<string>)
    requires sep != ""
    ensures r != []
    decreases |s|
  {
    match Find(s, sep, 0)
    case None => [s]
    case Some(i) => [s[..i]] + Split(s[i + |sep|..], sep)
  }

  function NonEmpty(parts: seq<string>): (r: seq<string>)
    ensures forall p :: p in r <==> p in parts && p != ""
  {
    if parts == [] then []
    else (if parts[0] == "" then [] else [parts[0]]) + NonEmpty(parts[1..])
  }

  function Join(parts: seq<string>, sep: string): string
  {
    if parts == [] then ""
    else if |parts| == 1 then parts[0]
    else parts[0] + sep + Join(parts[1..], sep)
  }

  /** However four strings are put together. */
  lemma Regroup(a: string, b: string, c: string, d: string)
    ensures a + (b + (c + d)) == a + b + c + d && a + (b + c + d) == a + b + c + d && a + b + (c + d) == a + b + c + d
  {
  }

  /** The first character of the separator does not come back inside it. */
  predicate HeadUnique(sep: string)
  {
    sep != "" && forall k :: 0 < k < |sep| ==> sep[k] != sep[0]
  }

  predicate Free(s: string, sep: string)
  {
    forall i :: 0 <= i < |s| ==> !At(s, sep, i)
  }

  /** No occurrence of the separator can straddle the boundary of a field. */
  lemma NoStraddle(p: string, sep: string, rest: string, i: int)
    requires HeadUnique(sep) && Free(p, sep) && 0 <= i < |p|
    ensures !At(p + sep + rest, sep, i)
  {
    var s := p + sep + rest;
    if i + |sep| <= |p| {
      assert s[i..i + |sep|] == p[i..i + |sep|];
      assert !At(p, sep, i);
    } else {
      assert s[i..i + |sep|][|p| - i] == s[|p|] == sep[0];
      assert sep[|p| - i] != sep[0];
    }
  }

  lemma FindField(p: string, sep: string, rest: string)
    requires HeadUnique(sep) && Free(p, sep)
    ensures Find(p + sep + rest, sep, 0) == Some(|p|)
  {
    var s := p + sep + rest;
    assert At(s, sep, |p|) by { assert s[|p|..|p| + |sep|] == sep; }
    forall i | 0 <= i < |p| ensures !At(s, sep, i) { NoStraddle(p, sep, rest, i); }
    FindIs(s, sep, 0, |p|);
  }

  lemma FindNone(p: string, sep: string)
    requires sep != "" && Free(p, sep)
    ensures Find(p, sep, 0) == None
  {
    FindNowhere(p, sep, 0);
  }

  /** Splitting undoes joining. */
  lemma {:induction false} SplitJoin(parts: seq<string>, sep: string)
    requires HeadUnique(sep) && parts != []
    requires forall p :: p in parts ==> Free(p, sep)
    ensures Split(Join(parts, sep), sep) == parts
  {
    if |parts| == 1 {
      FindNone(parts[0], sep);
    } else {
      var rest := Join(parts[1..], sep);
      var s := parts[0] + sep + rest;
      FindField(parts[0], sep, rest);
      assert s[..|parts[0]|] == parts[0];
      assert s[|parts[0]| + |sep|..] == rest;
      SplitJoin(parts[1..], sep);
    }
  }

  lemma {:induction false} NonEmptyId(parts: seq<string>)
    requires "" !in parts
    ensures NonEmpty(parts) == parts
  {
    if parts != [] { NonEmptyId(parts[1..]); }
  }

  lemma {:induction false} NonEmptyConcat(a: seq<string>, b: seq<string>)
    ensures NonEmpty(a + b) == NonEmpty(a) + NonEmpty(b)
  {
    if a == [] {
      assert a + b == b;
    } else {
      assert (a + b)[1..] == a[1..] + b;
      NonEmptyConcat(a[1..], b);
    }
  }
}
