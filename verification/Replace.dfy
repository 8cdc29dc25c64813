/**
 `Rest::mass_replace`: the in-place loop is left-to-right, non-overlapping
 replacement, even when the replacement contains the victim.
 */
module Replace {
  import opened Text

  lemma AtIsPrefix(s: string, pat: string, p: nat)
    requires p <= |s|
    ensures At(s, pat, p) <==> pat <= s[p..]
  {
    if p + |pat| <= |s| { assert s[p..][..|pat|] == s[p..p + |pat|]; }
  }

  /** Everything up to the next occurrence is kept, the occurrence is replaced. */
  lemma {:induction false} ReplaceStep(s: string, p: nat, j: nat, victim: string, replacement: string)
    requires victim != "" && p <= |s| && Find(s, victim, p) == Some(j)
    ensures ReplaceAll(s[p..], victim, replacement) ==
            s[p..j] + replacement + ReplaceAll(s[j + |victim|..], victim, replacement)
    decreases j - p
  {
    AtIsPrefix(s, victim, p);
    var rest := ReplaceAll(s[j + |victim|..], victim, replacement);
    if p == j {
      assert s[p..][|victim|..] == s[j + |victim|..];
      assert s[p..j] + replacement + rest == replacement + rest;
    } else {
      SliceHead(s, p, j, replacement, rest);
      ReplaceStep(s, p + 1, j, victim, replacement);
    }
  }

  lemma SliceHead(s: string, p: nat, j: nat, mid: string, rest: string)
    requires p < j <= |s|
    ensures s[p..][0] == s[p] && s[p..][1..] == s[p + 1..]
    ensures s[p..j] + mid + rest == [s[p]] + (s[p + 1..j] + mid + rest)
  {
    assert s[p..j] == [s[p]] + s[p + 1..j];
  }

  lemma {:induction false} ReplaceRest(s: string, p: nat, victim: string, replacement: string)
    requires victim != "" && p <= |s| && Find(s, victim, p) == None
    ensures ReplaceAll(s[p..], victim, replacement) == s[p..]
    decreases |s| - p
  {
    if p < |s| {
      AtIsPrefix(s, victim, p);
      assert s[p..][0] == s[p] && s[p..][1..] == s[p + 1..];
      if p + |victim| <= |s| { assert Find(s, victim, p + 1) == None; }
      ReplaceRest(s, p + 1, victim, replacement);
      assert s[p..] == [s[p]] + s[p + 1..];
    }
  }

  /** One turn of the loop: the text before the cursor is final, the rest is still the original. */
  lemma {:induction false} MassStep(goal: string, s: string, p: nat, j: nat, victim: string, replacement: string)
    requires victim != "" && p <= |s| && Find(s, victim, p) == Some(j)
    requires goal == s[..p] + ReplaceAll(s[p..], victim, replacement)
    ensures var a := s[..j] + replacement + s[j + |victim|..];
            goal == a[..j + |replacement|] + ReplaceAll(a[j + |replacement|..], victim, replacement)
  {
    var rest := ReplaceAll(s[j + |victim|..], victim, replacement);
    ReplaceStep(s, p, j, victim, replacement);
    Splice(s, p, j, j + |victim|, replacement, rest);
  }

  lemma Splice(s: string, p: nat, j: nat, k: nat, mid: string, rest: string)
    requires p <= j <= k <= |s|
    ensures var a := s[..j] + mid + s[k..];
            s[..p] + (s[p..j] + mid + rest) == a[..j + |mid|] + rest && a[j + |mid|..] == s[k..]
  {
    var a := s[..j] + mid + s[k..];
    assert a[..j + |mid|] == s[..j] + mid;
    assert s[..p] + s[p..j] == s[..j];
  }

  method MassReplace(source: string, victim: string, replacement: string) returns (answer: string)
    requires victim != ""
    ensures answer == ReplaceAll(source, victim, replacement)
  {
    ghost var goal := ReplaceAll(source, victim, replacement);
    var jump := |replacement|;
    answer := source;
    var j, offset := 0, 0;
    assert source == source[0..];
    while true
      invariant 0 <= j + offset <= |answer|
      invariant goal == answer[..j + offset] + ReplaceAll(answer[j + offset..], victim, replacement)
      decreases |answer| - (j + offset)
    {
      ghost var p := j + offset;
      var next := Find(answer, victim, j + offset);
      if next.None? {
        ReplaceRest(answer, p, victim, replacement);
        assert answer[..p] + answer[p..] == answer;
        break;
      }
      j := next.value;
      offset := jump;
      MassStep(goal, answer, p, j, victim, replacement);
      answer := answer[..j] + replacement + answer[j + |victim|..];
    }
  }

  /** Replacing one character is a character-by-character map. */
  function MapChar(s: string, c: char, to: string): string
  {
    if s == "" then "" else (if s[0] == c then to else [s[0]]) + MapChar(s[1..], c, to)
  }

  lemma {:induction false} MapCharConcat(a: string, b: string, c: char, to: string)
    ensures MapChar(a + b, c, to) == MapChar(a, c, to) + MapChar(b, c, to)
    decreases |a|
  {
    if a == "" {
      assert a + b == b;
    } else {
      assert (a + b)[1..] == a[1..] + b;
      MapCharConcat(a[1..], b, c, to);
    }
  }

  lemma {:induction false} ReplaceOne(s: string, c: char, to: string)
    ensures ReplaceAll(s, [c], to) == MapChar(s, c, to)
    decreases |s|
  {
    if s != "" { ReplaceOne(s[1..], c, to); }
  }
}
