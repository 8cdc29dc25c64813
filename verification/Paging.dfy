/**
 The paging state that `ChunkerManager` keeps for one background process, and what a
 `<next>` message does to it.  Offsets are C++ `unsigned long`s, the file size is cast
 to a 32-bit `unsigned` in one place only, and -1 is printed for the greatest offset.
 */
module Paging {
  import opened Text

  const WORD := 0x1_0000_0000_0000_0000
  const HALF := 0x1_0000_0000
  const MINUS_ONE := WORD - 1

  datatype Status = Running | Dead

  datatype Cursor = Cursor(offset: nat, status: Status)

  /** What the two `lstat`s of one `<next>` see: the size of the data file, if any, and the end marker. */
  datatype Stat = Stat(size: Option<nat>, marker: bool)

  /** The offset that is answered: a dead process answers -1. */
  function Answered(c: Cursor): nat
  {
    if c.status == Dead then MINUS_ONE else c.offset
  }

  /** `%ld` of an unsigned long. */
  function Signed(n: nat): int
  {
    if n >= WORD / 2 then n - WORD else n
  }

  function Answer(c: Cursor): int
  {
    Signed(Answered(c))
  }

  /** The cursor after a `<next>` by the owner. */
  function Advance(c: Cursor, chunk: nat, s: Stat): Cursor
  {
    var o := Answered(c);
    if s.size.None? then Cursor(o, c.status)
    else if s.size.value % HALF > (o + chunk) % WORD then Cursor((o + chunk) % WORD, c.status)
    else Cursor(s.size.value % WORD, if s.marker then Dead else c.status)
  }

  // ------------------------------------------------------------------ absorption

  function AdvanceAll(c: Cursor, chunk: nat, stats: seq<Stat>): Cursor
    decreases |stats|
  {
    if stats == [] then c else AdvanceAll(Advance(c, chunk, stats[0]), chunk, stats[1..])
  }

  /** A dead process stays dead and keeps answering -1, whatever the files do meanwhile. */
  lemma {:induction false} DeadForever(c: Cursor, chunk: nat, stats: seq<Stat>)
    requires c.status == Dead
    ensures AdvanceAll(c, chunk, stats).status == Dead && Answer(AdvanceAll(c, chunk, stats)) == -1
    decreases |stats|
  {
    if stats != [] { DeadForever(Advance(c, chunk, stats[0]), chunk, stats[1..]); }
  }

  /** The stored offset of a dead process does wrap: it becomes chunk - 1, or the file size. */
  lemma DeadOffset(c: Cursor, chunk: nat, s: Stat)
    requires c.status == Dead && 0 < chunk < HALF && s.size.Some? && s.size.value < HALF
    ensures Advance(c, chunk, s).offset == if s.size.value > chunk - 1 then chunk - 1 else s.size.value
  {
    assert (MINUS_ONE + chunk) % WORD == chunk - 1;
  }

  // ------------------------------------------------------------------ number of polls

  function CeilDiv(a: nat, b: nat): nat
    requires b > 0
  {
    (a + b - 1) / b
  }

  /** The polls needed to come to the end of a finished file of `size` bytes. */
  function PollsLeft(size: nat, offset: nat, chunk: nat): nat
    requires chunk > 0 && offset <= size
  {
    if size == offset then 1 else CeilDiv(size - offset, chunk)
  }

  lemma AtLeastOne(b: nat, k: nat)
    requires k >= 1
    ensures b * k >= b
  {
  }

  lemma DivUnique(y: int, b: nat, q: int, r: int)
    requires b > 0 && y == b * q + r && 0 <= r < b
    ensures y / b == q
  {
    var p, s := y / b, y % b;
    assert b * (p - q) == r - s && b * (q - p) == s - r;
    if p > q { AtLeastOne(b, p - q); }
    if p < q { AtLeastOne(b, q - p); }
  }

  lemma CeilStep(a: nat, b: nat)
    requires a > b > 0
    ensures CeilDiv(a, b) == CeilDiv(a - b, b) + 1
  {
    var q, r := (a - 1) / b, (a - 1) % b;
    assert a + b - 1 == b * (q + 1) + r;
    DivUnique(a + b - 1, b, q + 1, r);
  }

  lemma CeilOne(a: nat, b: nat)
    requires 0 < a <= b
    ensures CeilDiv(a, b) == 1
  {
    DivUnique(a + b - 1, b, 1, a - 1);
  }

  lemma PollsStep(size: nat, offset: nat, chunk: nat)
    requires chunk > 0 && offset <= size
    ensures if size > offset + chunk then PollsLeft(size, offset, chunk) == PollsLeft(size, offset + chunk, chunk) + 1
            else PollsLeft(size, offset, chunk) == 1
  {
    if size > offset + chunk {
      CeilStep(size - offset, chunk);
    } else if size > offset {
      CeilOne(size - offset, chunk);
    }
  }

  /** One poll of a running process below 2^32 bytes, without the modular arithmetic. */
  lemma AdvanceRunning(c: Cursor, chunk: nat, s: Stat)
    requires c.status == Running && c.offset < HALF && chunk < HALF && s.size.Some? && s.size.value < HALF
    ensures Advance(c, chunk, s) ==
            if s.size.value > c.offset + chunk then Cursor(c.offset + chunk, Running)
            else Cursor(s.size.value, if s.marker then Dead else Running)
  {
  }

  function Finished(size: nat): Stat
  {
    Stat(Some(size), true)
  }

  /**
   Once the marker is there and the file has its final size, the n-th further poll
   answers -1 exactly when n exceeds max(1, ceil((size - offset) / chunk)).
   */
  lemma {:induction false} PollBound(c: Cursor, chunk: nat, size: nat, n: nat)
    requires c.status == Running && c.offset <= size < HALF && 0 < chunk < HALF && n > 0
    ensures Answer(AdvanceAll(c, chunk, seq(n - 1, i => Finished(size)))) == -1 <==>
            n > PollsLeft(size, c.offset, chunk)
    decreases n
  {
    var s := Finished(size);
    var stats := seq(n - 1, i => Finished(size));
    PollsStep(size, c.offset, chunk);
    if n > 1 {
      var rest := seq(n - 2, i => Finished(size));
      assert stats[0] == s && stats[1..] == rest;
      AdvanceRunning(c, chunk, s);
      var c' := Advance(c, chunk, s);
      if size > c.offset + chunk {
        PollBound(c', chunk, size, n - 1);
      } else {
        DeadForever(c', chunk, rest);
      }
    }
  }

  /**
   The size is cut to 32 bits in the comparison only: once it has passed 2^32, the cursor
   may jump to the end of the file over everything in between.
   */
  lemma SizeIsCut(c: Cursor, chunk: nat, size: nat, marker: bool)
    requires c.status == Running && c.offset + chunk < WORD && 0x1_0000_0000 <= size < 0x2_0000_0000
    ensures Advance(c, chunk, Stat(Some(size), marker)) ==
            if size - 0x1_0000_0000 > c.offset + chunk then Cursor(c.offset + chunk, Running)
            else Cursor(size, if marker then Dead else Running)
  {
  }
}
