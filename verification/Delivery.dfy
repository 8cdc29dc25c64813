/**
 The paging protocol between a writer that appends output and finally drops an end
 marker, the manager that hands out offsets, and a client that reads the data file
 itself.  The three take steps in any order; the client has one poll outstanding.
 */
module Delivery {
  import opened Text
  import opened Paging

  /** A body that reached the client, with the position it was read from. */
  datatype Body = Body(pos: nat, text: string)

  datatype Client = Idle | Promised(answer: int)

  /**
   `written` is everything the writer produced, `created` and `marker` tell which files
   are there, `closed` that the writer is done, `ended` that END was answered.
   */
  datatype World = World(
    written: string, created: bool, marker: bool, closed: bool,
    cursor: Cursor, client: Client, log: seq<Body>, ended: bool)

  const START := World("", false, false, false, Cursor(0, Running), Idle, [], false)

  datatype Step = Append(text: string) | Close | Poll | Read

  function Min(a: int, b: int): int
  {
    if a <= b then a else b
  }

  /** The bytes that one client read gets, `limit` at most. */
  function Slice(s: string, pos: nat, limit: nat): string
  {
    if pos <= |s| then s[pos..Min(pos + limit, |s|)] else ""
  }

  predicate Enabled(w: World, step: Step)
  {
    match step
    case Append(text) => !w.closed && text != "" && |w.written| + |text| < HALF
    case Close => !w.closed
    case Poll => w.client.Idle?
    case Read => w.client.Promised?
  }

  function Seen(w: World): Stat
  {
    Stat(if w.created then Some(|w.written|) else None, w.marker)
  }

  /** `chunk` is the manager's step, `limit` the client's read size. */
  function Next(w: World, step: Step, chunk: nat, limit: nat): World
    requires Enabled(w, step)
  {
    match step
    case Append(text) => w.(written := w.written + text, created := true)
    case Close => w.(closed := true, created := true, marker := true)
    case Poll => w.(client := Promised(Answer(w.cursor)), cursor := Advance(w.cursor, chunk, Seen(w)))
    case Read =>
      if w.created && w.client.answer >= 0 then
        w.(client := Idle, log := w.log + [Body(w.client.answer, Slice(w.written, w.client.answer, limit))])
      else if w.marker then w.(client := Idle, ended := true, created := false, marker := false)
      else w.(client := Idle)
  }

  /** A run: every step is enabled where it is taken. */
  ghost predicate Runs(w: World, steps: seq<Step>, chunk: nat, limit: nat)
    decreases |steps|
  {
    steps == [] || (Enabled(w, steps[0]) && Runs(Next(w, steps[0], chunk, limit), steps[1..], chunk, limit))
  }

  function After(w: World, steps: seq<Step>, chunk: nat, limit: nat): World
    requires Runs(w, steps, chunk, limit)
    decreases |steps|
  {
    if steps == [] then w else After(Next(w, steps[0], chunk, limit), steps[1..], chunk, limit)
  }

  // ------------------------------------------------------------------ at least once

  predicate Delivered(log: seq<Body>, i: nat)
  {
    exists k :: 0 <= k < |log| && log[k].pos <= i < log[k].pos + |log[k].text|
  }

  ghost predicate DeliveredTo(log: seq<Body>, n: nat)
  {
    forall i: nat :: i < n ==> Delivered(log, i)
  }

  /** Every body is what the writer wrote at that position. */
  predicate True(written: string, log: seq<Body>)
  {
    forall k :: 0 <= k < |log| ==>
      log[k].pos + |log[k].text| <= |written| &&
      log[k].text == written[log[k].pos..log[k].pos + |log[k].text|]
  }

  ghost predicate Inv(w: World, chunk: nat, limit: nat)
  {
    && |w.written| < HALF && True(w.written, w.log)
    && (w.marker ==> w.closed && w.created)
    && (w.closed && !w.ended ==> w.marker)
    && (w.ended ==> w.closed && w.cursor.status == Dead && DeliveredTo(w.log, |w.written|))
    && (!w.created && !w.ended ==> w.written == "")
    && (w.cursor.status == Running ==>
          && w.cursor.offset <= |w.written|
          && (w.client.Idle? ==> DeliveredTo(w.log, w.cursor.offset))
          && (w.client.Promised? ==>
                0 <= w.client.answer <= w.cursor.offset <= w.client.answer + chunk &&
                DeliveredTo(w.log, w.client.answer)))
    && (w.cursor.status == Dead ==>
          && w.closed
          && (w.client.Idle? ==> DeliveredTo(w.log, |w.written|))
          && (w.client.Promised? ==>
                || (w.client.answer == -1 && DeliveredTo(w.log, |w.written|))
                || (0 <= w.client.answer <= |w.written| <= w.client.answer + chunk && !w.ended &&
                    DeliveredTo(w.log, w.client.answer))))
  }

  lemma DeliveredMore(log: seq<Body>, b: Body, n: nat, m: nat)
    requires DeliveredTo(log, n) && b.pos <= n && (m <= b.pos + |b.text| || m <= n)
    ensures DeliveredTo(log + [b], m)
  {
    var l := log + [b];
    forall i: nat | i < m ensures Delivered(l, i) {
      if i < n {
        assert Delivered(log, i);
        var k :| 0 <= k < |log| && log[k].pos <= i < log[k].pos + |log[k].text|;
        assert l[k] == log[k];
      } else {
        assert l[|log|] == b;
      }
    }
  }

  lemma TrueAppend(written: string, text: string, log: seq<Body>)
    requires True(written, log)
    ensures True(written + text, log)
  {
    forall k | 0 <= k < |log|
      ensures log[k].text == (written + text)[log[k].pos..log[k].pos + |log[k].text|]
    {
    }
  }

  lemma InvPoll(w: World, chunk: nat, limit: nat)
    requires Inv(w, chunk, limit) && Enabled(w, Poll) && 0 < chunk <= limit && chunk < HALF
    ensures Inv(Next(w, Poll, chunk, limit), chunk, limit)
  {
    var s := Seen(w);
    if w.cursor.status == Running && w.created { AdvanceRunning(w.cursor, chunk, s); }
  }

  lemma InvRead(w: World, chunk: nat, limit: nat)
    requires Inv(w, chunk, limit) && Enabled(w, Read) && 0 < chunk <= limit && chunk < HALF
    ensures Inv(Next(w, Read, chunk, limit), chunk, limit)
  {
    if w.created && w.client.answer >= 0 {
      var b := Body(w.client.answer, Slice(w.written, w.client.answer, limit));
      if w.cursor.status == Running {
        DeliveredMore(w.log, b, w.client.answer, w.cursor.offset);
      } else {
        DeliveredMore(w.log, b, w.client.answer, |w.written|);
      }
      forall k | 0 <= k <= |w.log|
        ensures var e := (w.log + [b])[k];
                e.pos + |e.text| <= |w.written| && e.text == w.written[e.pos..e.pos + |e.text|]
      {
      }
    }
  }

  /** Every step of every party keeps the invariant. */
  lemma InvStep(w: World, step: Step, chunk: nat, limit: nat)
    requires Inv(w, chunk, limit) && Enabled(w, step) && 0 < chunk <= limit && chunk < HALF
    ensures Inv(Next(w, step, chunk, limit), chunk, limit)
  {
    match step
    case Append(text) => TrueAppend(w.written, text, w.log);
    case Close =>
    case Poll => InvPoll(w, chunk, limit);
    case Read => InvRead(w, chunk, limit);
  }

  lemma {:induction false} InvRun(w: World, steps: seq<Step>, chunk: nat, limit: nat)
    requires Inv(w, chunk, limit) && Runs(w, steps, chunk, limit) && 0 < chunk <= limit && chunk < HALF
    ensures Inv(After(w, steps, chunk, limit), chunk, limit)
    decreases |steps|
  {
    if steps != [] {
      InvStep(w, steps[0], chunk, limit);
      InvRun(Next(w, steps[0], chunk, limit), steps[1..], chunk, limit);
    }
  }

  /**
   In every interleaving: bodies are never wrong, a running offset never exceeds the
   file, every byte below it is delivered or promised, and END is answered only after
   every byte was delivered.
   */
  lemma AtLeastOnce(steps: seq<Step>, chunk: nat, limit: nat)
    requires Runs(START, steps, chunk, limit) && 0 < chunk <= limit && chunk < HALF
    ensures var w := After(START, steps, chunk, limit);
            && True(w.written, w.log)
            && (w.cursor.status == Running ==> w.cursor.offset <= |w.written|)
            && (w.cursor.status == Running ==> forall i: nat :: i < w.cursor.offset ==>
                  Delivered(w.log, i) || (w.client.Promised? && 0 <= w.client.answer <= i < w.client.answer + limit))
            && (w.ended ==> w.closed && forall i: nat :: i < |w.written| ==> Delivered(w.log, i))
  {
    InvRun(START, steps, chunk, limit);
    var w := After(START, steps, chunk, limit);
    if w.cursor.status == Running {
      var n := if w.client.Idle? then w.cursor.offset else w.client.answer;
      assert DeliveredTo(w.log, n);
    }
  }

  ghost predicate NoLoss(w: World)
  {
    w.ended ==> DeliveredTo(w.log, |w.written|)
  }

  /** A file one byte longer than the client reads at once, taken by the manager as one chunk. */
  function LosingRun(limit: nat): seq<Step>
  {
    [Append(seq(limit + 1, i => 'x')), Close, Poll, Read, Poll, Read]
  }

  lemma Loses(chunk: nat, limit: nat)
    requires limit < chunk < HALF - 1
    ensures Runs(START, LosingRun(limit), chunk, limit) && !NoLoss(After(START, LosingRun(limit), chunk, limit))
  {
    var text := seq(limit + 1, i => 'x');
    var steps := LosingRun(limit);
    var w1 := World(text, true, false, false, Cursor(0, Running), Idle, [], false);
    var w2 := w1.(closed := true, marker := true);
    assert "" + text == text && Next(START, Append(text), chunk, limit) == w1 && Next(w1, Close, chunk, limit) == w2;
    AdvanceRunning(w2.cursor, chunk, Seen(w2));
    var w3 := w2.(client := Promised(0), cursor := Cursor(limit + 1, Dead));
    assert Next(w2, Poll, chunk, limit) == w3;
    var w4 := w3.(client := Idle, log := [Body(0, text[..limit])]);
    assert Slice(text, 0, limit) == text[..limit];
    assert Next(w3, Read, chunk, limit) == w4;
    var w5 := Next(w4, Poll, chunk, limit);
    assert w5.client == Promised(-1);
    var w6 := Next(w5, Read, chunk, limit);
    assert w6.ended && w6.log == w4.log && w6.written == text;
    assert Runs(w4, [Poll, Read], chunk, limit) && After(w4, [Poll, Read], chunk, limit) == w6 by {
      assert [Poll, Read][1..] == [Read];
      assert Runs(w5, [Read], chunk, limit) && After(w5, [Read], chunk, limit) == w6 by { assert [Read][1..] == []; }
    }
    assert steps[1..][1..] == [Poll, Read, Poll, Read];
    assert [Poll, Read, Poll, Read][1..][1..] == [Poll, Read];
    assert Runs(w2, [Poll, Read, Poll, Read], chunk, limit) && After(w2, [Poll, Read, Poll, Read], chunk, limit) == w6;
    assert Runs(w1, steps[1..], chunk, limit) && After(w1, steps[1..], chunk, limit) == w6;
    assert !Delivered(w6.log, limit);
  }

  /** No run ever loses a byte if and only if the manager's chunk does not exceed the client's read size. */
  lemma LossExactly(chunk: nat, limit: nat)
    requires 0 < chunk < HALF - 1
    ensures (forall steps :: Runs(START, steps, chunk, limit) ==> NoLoss(After(START, steps, chunk, limit))) <==>
            chunk <= limit
  {
    if chunk <= limit {
      forall steps | Runs(START, steps, chunk, limit) ensures NoLoss(After(START, steps, chunk, limit)) {
        AtLeastOnce(steps, chunk, limit);
      }
    } else {
      Loses(chunk, limit);
    }
  }

  // ------------------------------------------------------------------ exactly once

  function Bodies(log: seq<Body>): string
  {
    if log == [] then "" else Bodies(log[..|log| - 1]) + log[|log| - 1].text
  }

  ghost predicate Once(w: World, chunk: nat)
  {
    && |w.written| < HALF
    && (w.closed <==> w.marker || w.ended) && !(w.marker && w.ended)
    && (w.created <==> (w.written != "" || w.closed) && !w.ended)
    && (w.cursor.status == Dead ==> w.closed)
    && (w.ended ==> w.cursor.status == Dead)
    && match w.client
       case Idle =>
         if w.cursor.status == Dead then Bodies(w.log) == w.written
         else w.cursor.offset <= |w.written| && Bodies(w.log) == w.written[..w.cursor.offset]
       case Promised(a) =>
         if a == -1 then w.cursor.status == Dead && Bodies(w.log) == w.written
         else
           && 0 <= a <= |w.written| && !w.ended && Bodies(w.log) == w.written[..a]
           && (w.cursor.status == Running ==> w.cursor.offset == Min(a + chunk, |w.written|))
           && (w.cursor.status == Dead ==> |w.written| <= a + chunk)
  }

  lemma OncePoll(w: World, chunk: nat)
    requires Once(w, chunk) && w.client.Idle? && 0 < chunk < HALF
    ensures Once(Next(w, Poll, chunk, chunk), chunk)
  {
    if w.cursor.status == Running {
      if w.created { AdvanceRunning(w.cursor, chunk, Seen(w)); }
      assert Answer(w.cursor) == w.cursor.offset;
    } else {
      DeadForever(w.cursor, chunk, [Seen(w)]);
      assert Answer(w.cursor) == -1;
    }
  }

  lemma OnceRead(w: World, chunk: nat)
    requires Once(w, chunk) && w.client.Promised? && 0 < chunk < HALF
    ensures Once(Next(w, Read, chunk, chunk), chunk)
  {
    var a := w.client.answer;
    if w.created && a >= 0 {
      var b := Body(a, Slice(w.written, a, chunk));
      var end := Min(a + chunk, |w.written|);
      assert (w.log + [b])[..|w.log|] == w.log;
      assert Bodies(w.log + [b]) == w.written[..a] + w.written[a..end];
      assert w.written[..a] + w.written[a..end] == w.written[..end];
    }
  }

  /** An answered position from which more of the file can still be read than the manager went on by. */
  predicate Open(w: World, chunk: nat)
  {
    w.client.Promised? && w.client.answer >= 0 && w.client.answer + chunk > |w.written|
  }

  lemma OnceStep(w: World, step: Step, chunk: nat)
    requires Once(w, chunk) && Enabled(w, step) && 0 < chunk < HALF && !(step.Append? && Open(w, chunk))
    ensures Once(Next(w, step, chunk, chunk), chunk)
  {
    match step
    case Append(text) => OnceAppend(w, text, chunk);
    case Close =>
    case Poll => OncePoll(w, chunk);
    case Read => OnceRead(w, chunk);
  }

  lemma OnceAppend(w: World, text: string, chunk: nat)
    requires Once(w, chunk) && Enabled(w, Append(text)) && 0 < chunk < HALF && !Open(w, chunk)
    ensures Once(Next(w, Append(text), chunk, chunk), chunk)
  {
    var n := if w.client.Promised? then w.client.answer else w.cursor.offset;
    assert 0 <= n <= |w.written| && (w.written + text)[..n] == w.written[..n];
  }

  /** The file has grown in a way that the outstanding read will show. */
  ghost predicate Ahead(w: World, chunk: nat)
  {
    && w.client.Promised? && w.created && !w.ended && w.cursor.status == Running
    && 0 <= w.client.answer <= |w.written| < HALF && Bodies(w.log) == w.written[..w.client.answer]
    && w.cursor.offset < Min(w.client.answer + chunk, |w.written|)
  }

  lemma OnceGrows(w: World, text: string, chunk: nat)
    requires Once(w, chunk) && Enabled(w, Append(text)) && 0 < chunk < HALF && Open(w, chunk)
    ensures Ahead(Next(w, Append(text), chunk, chunk), chunk)
  {
    var n := w.client.answer;
    assert (w.written + text)[..n] == w.written[..n];
  }

  lemma AheadStays(w: World, step: Step, chunk: nat)
    requires Ahead(w, chunk) && Enabled(w, step) && !step.Read?
    ensures Ahead(Next(w, step, chunk, chunk), chunk)
  {
    if step.Append? { assert (w.written + step.text)[..w.client.answer] == w.written[..w.client.answer]; }
  }

  /** The bodies put together are the file up to the offset, and the whole file when END has come. */
  ghost predicate Exact(w: World)
  {
    && (w.client.Idle? && w.cursor.status == Running ==>
          w.cursor.offset <= |w.written| && Bodies(w.log) == w.written[..w.cursor.offset])
    && (w.ended ==> w.closed && Bodies(w.log) == w.written)
  }

  lemma AheadShows(w: World, chunk: nat)
    requires Ahead(w, chunk)
    ensures !Exact(Next(w, Read, chunk, chunk))
  {
    var a := w.client.answer;
    var b := Body(a, Slice(w.written, a, chunk));
    assert (w.log + [b])[..|w.log|] == w.log;
    assert |Bodies(w.log + [b])| == Min(a + chunk, |w.written|);
  }

  // ------------------------------------------------------------------ exactly once, over runs

  lemma {:induction false} RunsPrefix(w: World, steps: seq<Step>, n: nat, chunk: nat, limit: nat)
    requires Runs(w, steps, chunk, limit) && n <= |steps|
    ensures Runs(w, steps[..n], chunk, limit)
    ensures n < |steps| ==> Enabled(After(w, steps[..n], chunk, limit), steps[n])
    ensures n < |steps| ==> Runs(w, steps[..n + 1], chunk, limit)
    ensures n < |steps| ==>
            After(w, steps[..n + 1], chunk, limit) == Next(After(w, steps[..n], chunk, limit), steps[n], chunk, limit)
    decreases n
  {
    if n == 0 {
      if steps != [] { assert steps[..1][1..] == []; }
    } else {
      RunsPrefix(Next(w, steps[0], chunk, limit), steps[1..], n - 1, chunk, limit);
      assert steps[..n][1..] == steps[1..][..n - 1];
      if n < |steps| { assert steps[..n + 1][1..] == steps[1..][..n] && steps[1..][n - 1] == steps[n]; }
    }
  }

  /** The world after `n` steps of a run with equal chunk sizes. */
  ghost function Reached(steps: seq<Step>, n: nat, chunk: nat): World
    requires Runs(START, steps, chunk, chunk) && n <= |steps|
  {
    RunsPrefix(START, steps, n, chunk, chunk);
    After(START, steps[..n], chunk, chunk)
  }

  /** Step `i` appends while more can be read from the answered position than the manager went on by. */
  ghost predicate Grows(steps: seq<Step>, i: nat, chunk: nat)
    requires Runs(START, steps, chunk, chunk) && i < |steps|
  {
    steps[i].Append? && Open(Reached(steps, i, chunk), chunk)
  }

  /** Such growth since the last read. */
  ghost predicate Grown(steps: seq<Step>, n: nat, chunk: nat)
    requires Runs(START, steps, chunk, chunk) && n <= |steps|
  {
    exists i :: 0 <= i < n && Grows(steps, i, chunk) && forall k :: i < k < n ==> !steps[k].Read?
  }

  lemma GrownStep(steps: seq<Step>, n: nat, chunk: nat)
    requires Runs(START, steps, chunk, chunk) && n < |steps|
    ensures Grown(steps, n + 1, chunk) <==> Grows(steps, n, chunk) || (Grown(steps, n, chunk) && !steps[n].Read?)
  {
    if Grown(steps, n, chunk) && !steps[n].Read? {
      var i :| 0 <= i < n && Grows(steps, i, chunk) && forall k :: i < k < n ==> !steps[k].Read?;
      assert forall k :: i < k < n + 1 ==> !steps[k].Read?;
    }
    if Grown(steps, n + 1, chunk) && !Grows(steps, n, chunk) {
      var i :| 0 <= i < n + 1 && Grows(steps, i, chunk) && forall k :: i < k < n + 1 ==> !steps[k].Read?;
      assert i != n && forall k :: i < k < n ==> !steps[k].Read?;
    }
  }

  ghost predicate Tracked(w: World, grown: bool, chunk: nat)
  {
    if grown then Ahead(w, chunk) else Once(w, chunk)
  }

  lemma TrackedStep(steps: seq<Step>, n: nat, chunk: nat)
    requires Runs(START, steps, chunk, chunk) && n < |steps| && 0 < chunk < HALF
    requires Tracked(Reached(steps, n, chunk), Grown(steps, n, chunk), chunk)
    ensures steps[n].Read? && Grown(steps, n, chunk) ==> !Exact(Reached(steps, n + 1, chunk))
    ensures !(steps[n].Read? && Grown(steps, n, chunk)) ==>
            Tracked(Reached(steps, n + 1, chunk), Grown(steps, n + 1, chunk), chunk)
  {
    var w, step := Reached(steps, n, chunk), steps[n];
    RunsPrefix(START, steps, n, chunk, chunk);
    GrownStep(steps, n, chunk);
    if Grown(steps, n, chunk) {
      if step.Read? { AheadShows(w, chunk); } else { AheadStays(w, step, chunk); }
    } else if Grows(steps, n, chunk) {
      OnceGrows(w, step.text, chunk);
    } else {
      OnceStep(w, step, chunk);
    }
  }

  /** Step `j` reads what has grown in that way. */
  ghost predicate Shows(steps: seq<Step>, j: nat, chunk: nat)
    requires Runs(START, steps, chunk, chunk) && j < |steps|
  {
    steps[j].Read? && Grown(steps, j, chunk)
  }

  lemma {:induction false} TrackedUpTo(steps: seq<Step>, n: nat, chunk: nat)
    requires Runs(START, steps, chunk, chunk) && n <= |steps| && 0 < chunk < HALF
    requires forall j :: 0 <= j < n ==> !Shows(steps, j, chunk)
    ensures Tracked(Reached(steps, n, chunk), Grown(steps, n, chunk), chunk)
    decreases n
  {
    if n > 0 {
      TrackedUpTo(steps, n - 1, chunk);
      assert !Shows(steps, n - 1, chunk);
      TrackedStep(steps, n - 1, chunk);
    }
  }

  lemma {:induction false} FirstShown(steps: seq<Step>, j: nat, chunk: nat) returns (i: nat)
    requires Runs(START, steps, chunk, chunk) && j < |steps| && Shows(steps, j, chunk)
    ensures i <= j && Shows(steps, i, chunk) && forall k :: 0 <= k < i ==> !Shows(steps, k, chunk)
    decreases j
  {
    if k :| 0 <= k < j && Shows(steps, k, chunk) { i := FirstShown(steps, k, chunk); } else { i := j; }
  }

  ghost predicate AlwaysExact(steps: seq<Step>, chunk: nat)
    requires Runs(START, steps, chunk, chunk)
  {
    forall n :: 0 <= n <= |steps| ==> Exact(Reached(steps, n, chunk))
  }

  /**
   With equal chunk sizes the bodies are at all times the file up to the offset, and the
   whole file when END has come, if and only if no read follows an append that was made
   after its poll while less than a chunk was left to read.
   */
  lemma ExactlyOnce(steps: seq<Step>, chunk: nat)
    requires Runs(START, steps, chunk, chunk) && 0 < chunk < HALF
    ensures AlwaysExact(steps, chunk) <==> forall j :: 0 <= j < |steps| ==> !Shows(steps, j, chunk)
  {
    if j :| 0 <= j < |steps| && Shows(steps, j, chunk) {
      var i := FirstShown(steps, j, chunk);
      TrackedUpTo(steps, i, chunk);
      TrackedStep(steps, i, chunk);
      assert !Exact(Reached(steps, i + 1, chunk));
    } else {
      forall n | 0 <= n <= |steps| ensures Exact(Reached(steps, n, chunk)) { TrackedUpTo(steps, n, chunk); }
    }
  }

  // ------------------------------------------------------------------ the end comes

  /** `n` polls, each with its read. */
  function Pairs(n: nat): seq<Step>
  {
    if n == 0 then [] else [Poll, Read] + Pairs(n - 1)
  }

  function Pair(w: World, chunk: nat, limit: nat): World
    requires w.client.Idle?
  {
    Next(Next(w, Poll, chunk, limit), Read, chunk, limit)
  }

  lemma PairsFirst(w: World, n: nat, chunk: nat, limit: nat)
    requires w.client.Idle? && n > 0 && Runs(Pair(w, chunk, limit), Pairs(n - 1), chunk, limit)
    ensures Runs(w, Pairs(n), chunk, limit)
    ensures After(w, Pairs(n), chunk, limit) == After(Pair(w, chunk, limit), Pairs(n - 1), chunk, limit)
  {
    var steps := Pairs(n);
    assert steps[0] == Poll && steps[1..][0] == Read && steps[1..][1..] == Pairs(n - 1);
  }

  /** The polls that a finished file still needs before the one that answers END. */
  function Left(w: World, chunk: nat): nat
    requires chunk > 0 && (w.cursor.status == Running ==> w.cursor.offset <= |w.written|)
  {
    if w.cursor.status == Dead then 0 else PollsLeft(|w.written|, w.cursor.offset, chunk)
  }

  /** The writer is done, the client is waiting for nothing, and END has not been answered. */
  ghost predicate Draining(w: World, chunk: nat, limit: nat)
  {
    Inv(w, chunk, limit) && w.closed && w.client.Idle? && !w.ended
  }

  lemma PairStep(w: World, chunk: nat, limit: nat)
    requires Draining(w, chunk, limit) && 0 < chunk <= limit && chunk < HALF
    ensures var w' := Pair(w, chunk, limit);
            && Inv(w', chunk, limit) && w'.closed && w'.client.Idle? && w'.written == w.written
            && (w'.ended <==> Left(w, chunk) == 0)
            && (!w'.ended ==> Left(w', chunk) == Left(w, chunk) - 1)
  {
    InvPoll(w, chunk, limit);
    InvRead(Next(w, Poll, chunk, limit), chunk, limit);
    if w.cursor.status == Running {
      AdvanceRunning(w.cursor, chunk, Seen(w));
      PollsStep(|w.written|, w.cursor.offset, chunk);
    }
  }

  lemma PairEnded(w: World, chunk: nat, limit: nat)
    requires Inv(w, chunk, limit) && w.ended && w.client.Idle? && 0 < chunk <= limit && chunk < HALF
    ensures var w' := Pair(w, chunk, limit);
            Inv(w', chunk, limit) && w'.ended && w'.client.Idle? && w'.written == w.written
  {
    InvPoll(w, chunk, limit);
    InvRead(Next(w, Poll, chunk, limit), chunk, limit);
  }

  lemma {:induction false} EndedStays(w: World, n: nat, chunk: nat, limit: nat)
    requires Inv(w, chunk, limit) && w.ended && w.client.Idle? && 0 < chunk <= limit && chunk < HALF
    ensures Runs(w, Pairs(n), chunk, limit)
    ensures var w' := After(w, Pairs(n), chunk, limit); w'.ended && Inv(w', chunk, limit) && w'.written == w.written
    decreases n
  {
    if n > 0 {
      PairEnded(w, chunk, limit);
      EndedStays(Pair(w, chunk, limit), n - 1, chunk, limit);
      PairsFirst(w, n, chunk, limit);
    }
  }

  lemma {:induction false} Drains(w: World, n: nat, chunk: nat, limit: nat)
    requires Draining(w, chunk, limit) && 0 < chunk <= limit && chunk < HALF
    ensures Runs(w, Pairs(n), chunk, limit)
    ensures var w' := After(w, Pairs(n), chunk, limit);
            (w'.ended <==> n > Left(w, chunk)) && Inv(w', chunk, limit) && w'.written == w.written
    decreases n
  {
    if n > 0 {
      var w1 := Pair(w, chunk, limit);
      PairStep(w, chunk, limit);
      if w1.ended { EndedStays(w1, n - 1, chunk, limit); } else { Drains(w1, n - 1, chunk, limit); }
      PairsFirst(w, n, chunk, limit);
    }
  }

  /**
   From every world that a run can reach with the writer done and no poll outstanding, `n`
   further polls bring END exactly when `n` exceeds what is left, and every byte with it.
   */
  lemma EndComes(steps: seq<Step>, n: nat, chunk: nat, limit: nat)
    requires Runs(START, steps, chunk, limit) && 0 < chunk <= limit && chunk < HALF
    requires var w := After(START, steps, chunk, limit); w.closed && w.client.Idle? && !w.ended
    ensures var w := After(START, steps, chunk, limit);
            && (w.cursor.status == Running ==> w.cursor.offset <= |w.written|)
            && Runs(w, Pairs(n), chunk, limit)
            && var w' := After(w, Pairs(n), chunk, limit);
               && w'.written == w.written
               && (w'.ended <==> n > Left(w, chunk))
               && (w'.ended ==> forall i: nat :: i < |w'.written| ==> Delivered(w'.log, i))
  {
    InvRun(START, steps, chunk, limit);
    var w := After(START, steps, chunk, limit);
    Drains(w, n, chunk, limit);
    var w' := After(w, Pairs(n), chunk, limit);
    if w'.ended { assert DeliveredTo(w'.log, |w'.written|); }
  }
}
