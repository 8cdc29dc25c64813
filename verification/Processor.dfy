/**
 The two ends of a data file: `ChunkerProcessor::reader`, which fills it from a pipe,
 and the read loop of `MultiResponseCommand::get_chunk`, which takes a part out of it.
 */
module Processor {
  import opened Text
  import Delivery

  const NUL := '\0'

  /** `string(buf)`: a C string stops at the first NUL. */
  function CString(s: string): (r: string)
    ensures r <= s && NUL !in r && (r == s || s[|r|] == NUL)
  {
    if s == "" || s[0] == NUL then "" else [s[0]] + CString(s[1..])
  }

  function Concat(parts: seq<string>): string
  {
    if parts == [] then "" else Concat(parts[..|parts| - 1]) + parts[|parts| - 1]
  }

  function CStrings(parts: seq<string>): (r: seq<string>)
    ensures |r| == |parts| && forall i :: 0 <= i < |r| ==> r[i] == CString(parts[i])
  {
    if parts == [] then [] else CStrings(parts[..|parts| - 1]) + [CString(parts[|parts| - 1])]
  }

  lemma ConcatSnoc(parts: seq<string>, k: nat)
    requires k < |parts|
    ensures Concat(parts[..k + 1]) == Concat(parts[..k]) + parts[k]
  {
    assert parts[..k + 1][..k] == parts[..k];
  }

  /** The token file and its `_end` companion. */
  class TokenFile {
    var content: string
    var marker: bool

    constructor ()
      ensures content == "" && !marker
    {
      content, marker := "", false;
    }

    /** Appends everything it is given and hands back an empty carry. */
    method ProcessChunk(str: string) returns (carry: string)
      modifies this`content
      ensures content == old(content) + str && carry == ""
    {
      content := content + str;
      carry := "";
    }

    /** Appends the carry up to its last newline, which drops the rest, then creates the marker. */
    method ProcessChunkEnd(str: string)
      modifies this
      ensures marker
      ensures content == old(content) + if '\n' in str then str[..FindLast(str, '\n').value] else str
    {
      var pos := FindLast(str, '\n');
      var chunk := str;
      if pos.Some? { chunk := str[..pos.value]; }
      content := content + chunk;
      marker := true;
    }

    /**
     `reader`: the file ends as the concatenation of what the pipe gave, read as C
     strings; nothing is left for the lossy split at the end, and the marker is absent
     while output is still being appended.
     */
    method Reader(gets: seq<string>)
      requires !marker
      modifies this
      ensures content == old(content) + Concat(CStrings(gets))
      ensures (forall i :: 0 <= i < |gets| ==> NUL !in gets[i]) ==> content == old(content) + Concat(gets)
      ensures marker
    {
      ghost var parts := CStrings(gets);
      var tmp := "";
      var k := 0;
      while k < |gets|
        invariant 0 <= k <= |gets| && tmp == "" && !marker
        invariant content == old(content) + Concat(parts[..k])
      {
        tmp := tmp + CString(gets[k]);
        tmp := ProcessChunk(tmp);
        ConcatSnoc(parts, k);
        k := k + 1;
      }
      assert parts[..k] == parts;
      ProcessChunkEnd(tmp);
      NulFree(gets);
    }
  }

  lemma NulFree(parts: seq<string>)
    ensures (forall i :: 0 <= i < |parts| ==> NUL !in parts[i]) ==> CStrings(parts) == parts
  {
    if forall i :: 0 <= i < |parts| ==> NUL !in parts[i] {
      forall i | 0 <= i < |parts| ensures CString(parts[i]) == parts[i] {
        assert NUL !in parts[i];
      }
    }
  }

  /** `process_chunk_end` keeps its whole argument exactly when that holds no newline. */
  lemma EndSplitExactly(str: string)
    ensures (if '\n' in str then str[..FindLast(str, '\n').value] else str) == str <==> '\n' !in str
  {
  }

  /** The read loop of `get_chunk`: at most `limit` bytes from `pos`, up to the end of the file. */
  method ReadChunk(file: string, pos: nat, limit: nat) returns (resp: string)
    ensures resp == CString(Delivery.Slice(file, pos, limit))
    ensures NUL !in file ==> resp == Delivery.Slice(file, pos, limit)
  {
    resp := "";
    var left, ct, at := limit, 0, if pos <= |file| then pos else |file|;
    ghost var all := Delivery.Slice(file, pos, limit);
    var eof := false;
    while left > 0 && !eof && ct <= 5
      invariant 0 <= left <= limit && at <= |file| && ct <= 6
      invariant !eof && left == limit ==> resp == "" && at == Delivery.Min(pos, |file|) && ct == 0
      invariant eof || left < limit ==> resp == CString(all)
      invariant left < limit && !eof ==> left == 0
      decreases 6 - ct, !eof
    {
      // fread: short only at the end of the file
      var read := if left <= |file| - at then left else |file| - at;
      eof := read < left;
      if read > 0 {
        resp := resp + CString(file[at..at + read]);
        assert file[at..at + read] == all;
      }
      left, at, ct := left - read, at + read, ct + 1;
    }
  }
}
