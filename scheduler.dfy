/** The batch driver: it turns (start, count, freq) into a list of
    "%Y-%m-%dT%H:%M:%S" strings, cuts the list into groups of at most four
    by stepping an offset over range(0, len + 1, 4), and for each group
    submits one repackaging task per date and then waits for all of them
    before moving on to the next group.

    Instants are whole seconds since 0001-01-01T00:00:00. Which tasks raise
    (an exception in the task or the 600 s timeout of res.get) is a
    parameter; the worker pool itself is not modelled, only the order in
    which the driver submits and awaits. */
module Scheduler {
  import opened Strings
  import opened Calendar

  // ---------------------------------------------------------------------
  // Date generation
  // ---------------------------------------------------------------------

  /** sd + timedelta(seconds=i * freq): the i-th instant of the run. */
  function Instant(start: int, freq: int, i: nat): int
  {
    start + i * freq
  }

  /** The largest whole number of seconds a nanosecond pandas Timedelta can
      hold: Timedelta.max is 106751 days 23:47:16.854775807 and Timedelta.min
      is its negation. Adding a timedelta to a Timestamp converts it to such
      a Timedelta first, which raises beyond this bound. */
  const MaxOffset: int := 9223372036

  /** Whether timedelta(seconds=offset) converts to a Timedelta. */
  predicate OffsetFits(offset: int)
  {
    -MaxOffset <= offset <= MaxOffset
  }

  /** Whether sd + timedelta(seconds=i * freq) yields a Timestamp instead of
      raising: the step converts to a Timedelta and the sum is in range. */
  predicate Reachable(start: int, freq: int, i: nat)
  {
    OffsetFits(i * freq) && InRange(Instant(start, freq, i))
  }

  /** A step whose sum would be in range still raises when it exceeds the
      Timedelta bound: 9300000000 s from the earliest Timestamp lands in 1971,
      yet the second date cannot be computed. */
  lemma StepBeyondTimedelta()
    ensures InRange(Instant(MinInstant, 9300000000, 1)) && !Reachable(MinInstant, 9300000000, 1)
  {
  }

  /** cd.strftime("%Y-%m-%dT%H:%M:%S") of the instant t. */
  function DateString(t: int): string
    requires InRange(t)
  {
    InRangeIsRepresentable(t);
    IsoFormat(FromSeconds(t))
  }

  /** Reading a generated date back (as repackage_grib's strptime does)
      gives the instant it was made from. */
  lemma DateStringParses(t: int)
    requires InRange(t)
    ensures 0 <= t < MaxDays * 86400 && ParseIso(DateString(t)) == Some(FromSeconds(t))
  {
    InRangeIsRepresentable(t);
    FromSecondsFacts(t);
    IsoRoundTrip(FromSeconds(t));
  }

  /** dates holds, in order, the strings of the first |dates| instants, all
      of them representable. */
  predicate Formatted(dates: seq<string>, start: int, freq: int)
  {
    forall k :: 0 <= k < |dates| ==>
      InRange(Instant(start, freq, k)) && dates[k] == DateString(Instant(start, freq, k))
  }

  /** sd + timedelta(seconds=i * freq): the i-th instant, or None where the
      addition raises. */
  method Advance(start: int, freq: int, i: nat) returns (cd: Option<int>)
    ensures cd.Some? <==> Reachable(start, freq, i)
    ensures cd.Some? ==> cd.value == Instant(start, freq, i)
  {
    var offset := i * freq;
    if !OffsetFits(offset) || !InRange(start + offset) {
      return None;
    }
    return Some(start + offset);
  }

  /** The instants before i and i itself are reachable: those before i + 1 are. */
  lemma ReachableExtend(start: int, freq: int, i: nat)
    requires forall k :: 0 <= k < i ==> Reachable(start, freq, k)
    requires Reachable(start, freq, i)
    ensures forall k :: 0 <= k < i + 1 ==> Reachable(start, freq, k)
  {
  }

  /** One pass of the date-list loop body: format the next instant and
      append it. */
  method AppendDate(dates: seq<string>, start: int, freq: int) returns (extended: seq<string>)
    requires Formatted(dates, start, freq) && InRange(Instant(start, freq, |dates|))
    ensures |extended| == |dates| + 1 && Formatted(extended, start, freq)
    ensures extended[..|dates|] == dates
  {
    var cdString := DateString(Instant(start, freq, |dates|));
    extended := dates + [cdString];
  }

  /** The date-list loop. The result is the list of date strings, or the
      index of the first date whose addition raises (the step exceeds a
      Timedelta, or the sum a Timestamp), which ends the program. */
  method GenerateDates(start: int, count: int, freq: int) returns (result: Result<seq<string>, nat>)
    requires InRange(start)
    ensures result.Ok? ==> forall i :: 0 <= i < count ==> Reachable(start, freq, i)
    ensures (forall i :: 0 <= i < count ==> Reachable(start, freq, i)) ==> result.Ok?
    ensures result.Ok? ==> |result.value| == (if count < 0 then 0 else count) && Formatted(result.value, start, freq)
    ensures result.Err? ==>
      && result.error < count
      && !Reachable(start, freq, result.error)
      && forall i :: 0 <= i < result.error ==> Reachable(start, freq, i)
  {
    var n: nat := if count < 0 then 0 else count;
    var allDates: seq<string> := [];
    var i := 0;
    while i < n
      invariant 0 <= i <= n && |allDates| == i
      invariant forall k :: 0 <= k < i ==> Reachable(start, freq, k)
      invariant Formatted(allDates, start, freq)
    {
      var cd := Advance(start, freq, i);
      if cd.None? {
        assert !(forall k :: 0 <= k < count ==> Reachable(start, freq, k));
        result := Err(i);
        return;
      }
      ReachableExtend(start, freq, i);
      allDates := AppendDate(allDates, start, freq);
      i := i + 1;
    }
    return Ok(allDates);
  }

  /** With a non-zero step, no two generated dates are equal. */
  lemma DatesDistinct(start: int, freq: int, i: nat, j: nat)
    requires InRange(Instant(start, freq, i)) && InRange(Instant(start, freq, j))
    requires freq != 0 && i != j
    ensures DateString(Instant(start, freq, i)) != DateString(Instant(start, freq, j))
  {
    var t1, t2 := Instant(start, freq, i), Instant(start, freq, j);
    assert t1 - t2 == (i - j) * freq;
    NonZeroProduct(i - j, freq);
    InRangeIsRepresentable(t1);
    InRangeIsRepresentable(t2);
    IsoInjective(t1, t2);
  }

  lemma NonZeroProduct(a: int, b: int)
    requires a != 0 && b != 0
    ensures a * b != 0
  {
  }

  /** With a positive step, later dates sort after earlier ones as strings. */
  lemma DatesIncrease(start: int, freq: int, i: nat, j: nat)
    requires InRange(Instant(start, freq, i)) && InRange(Instant(start, freq, j))
    requires freq > 0 && i < j
    ensures LexLess(DateString(Instant(start, freq, i)), DateString(Instant(start, freq, j)))
  {
    var t1, t2 := Instant(start, freq, i), Instant(start, freq, j);
    assert t2 - t1 == (j - i) * freq;
    PositiveProduct(j - i, freq);
    DateOrder(t1, t2);
  }

  /** A later instant formats to a string that sorts later. */
  lemma DateOrder(t1: int, t2: int)
    requires InRange(t1) && InRange(t2) && t1 < t2
    ensures LexLess(DateString(t1), DateString(t2))
  {
    InRangeIsRepresentable(t1);
    InRangeIsRepresentable(t2);
    FromSecondsFacts(t1);
    FromSecondsFacts(t2);
    IsoOrder(FromSeconds(t1), FromSeconds(t2));
  }

  lemma PositiveProduct(a: int, b: int)
    requires a > 0 && b > 0
    ensures a * b > 0
  {
  }

  /** Two generated dates give the same output file ("ec_grib_" and the
      compact stamp) exactly when they fall in the same minute. */
  lemma OutputsCollide(t1: int, t2: int)
    requires InRange(t1) && InRange(t2)
    ensures ParseIso(DateString(t1)).Some? && ParseIso(DateString(t2)).Some?
    ensures CompactFormat(ParseIso(DateString(t1)).value) == CompactFormat(ParseIso(DateString(t2)).value)
      <==> t1 / 60 == t2 / 60
  {
    DateStringParses(t1);
    DateStringParses(t2);
    CompactSameMinute(t1, t2);
  }

  /** A 30-second step from a whole minute sends the first two tasks to the
      same output file. */
  lemma SubMinuteStepCollides(start: int)
    requires InRange(start) && InRange(start + 30) && start % 60 == 0
    ensures ParseIso(DateString(Instant(start, 30, 0))).Some? && ParseIso(DateString(Instant(start, 30, 1))).Some?
    ensures CompactFormat(ParseIso(DateString(Instant(start, 30, 0))).value)
         == CompactFormat(ParseIso(DateString(Instant(start, 30, 1))).value)
  {
    var t0, t1 := Instant(start, 30, 0), Instant(start, 30, 1);
    assert t0 == start && t1 == start + 30;
    SameMinuteAfterHalf(start);
    OutputsCollide(t0, t1);
  }

  lemma SameMinuteAfterHalf(t: int)
    requires t % 60 == 0
    ensures (t + 30) / 60 == t / 60
  {
    DivUnique(t + 30, 60, t / 60, 30);
  }

  // ---------------------------------------------------------------------
  // Chunking
  // ---------------------------------------------------------------------

  /** The groups the offset loop produces: offsets 0, 4, 8, ... up to and
      including the length, each taking the (at most four) entries that
      exist from its offset on. */
  function Partition<T>(s: seq<T>): (chunks: seq<seq<T>>)
    ensures |chunks| >= 1
    decreases |s|
  {
    if |s| < 4 then [s] else [s[..4]] + Partition(s[4..])
  }

  /** The groups concatenated in order. */
  function Flatten<T>(chunks: seq<seq<T>>): seq<T>
  {
    if chunks == [] then [] else chunks[0] + Flatten(chunks[1..])
  }

  function Min(a: int, b: int): int
  {
    if a < b then a else b
  }

  /** The groups give back the whole list, in order: every date is in
      exactly one group. */
  lemma {:induction false} PartitionFlatten<T>(s: seq<T>)
    ensures Flatten(Partition(s)) == s
    decreases |s|
  {
    if |s| >= 4 {
      PartitionFlatten(s[4..]);
      assert Partition(s)[1..] == Partition(s[4..]);
      assert s[..4] + s[4..] == s;
    }
  }

  /** There are len/4 + 1 groups. */
  lemma {:induction false} PartitionCount<T>(s: seq<T>)
    ensures |Partition(s)| == |s| / 4 + 1
    decreases |s|
  {
    if |s| >= 4 {
      PartitionCount(s[4..]);
    }
  }

  /** The k-th group is the slice from 4k to min(4k + 4, len), which is what
      the inner loop collects for offset 4k. */
  lemma {:induction false} PartitionAt<T>(s: seq<T>, k: nat)
    requires k <= |s| / 4
    ensures k < |Partition(s)| && Partition(s)[k] == s[4 * k..Min(4 * k + 4, |s|)]
    decreases k
  {
    PartitionCount(s);
    if k > 0 {
      var rest := s[4..];
      PartitionAt(rest, k - 1);
      assert Partition(s)[k] == Partition(rest)[k - 1];
      assert rest[4 * (k - 1)..Min(4 * (k - 1) + 4, |rest|)] == s[4 * k..Min(4 * k + 4, |s|)];
    }
  }

  /** Every group has at most four dates, and the groups are exactly the
      slices at offsets 0, 4, 8, ... up to and including the length. */
  lemma PartitionShape<T>(s: seq<T>)
    ensures |Partition(s)| == |s| / 4 + 1
    ensures forall k :: 0 <= k < |Partition(s)| ==>
      4 * k <= |s| && Partition(s)[k] == s[4 * k..Min(4 * k + 4, |s|)] && |Partition(s)[k]| <= 4
  {
    PartitionCount(s);
    forall k | 0 <= k < |Partition(s)|
      ensures 4 * k <= |s| && Partition(s)[k] == s[4 * k..Min(4 * k + 4, |s|)] && |Partition(s)[k]| <= 4
    {
      PartitionAt(s, k);
    }
  }

  /** The last group is empty exactly when the length is a multiple of four,
      the empty list included. */
  lemma LastChunkEmpty<T>(s: seq<T>)
    ensures Partition(s)[|Partition(s)| - 1] == [] <==> |s| % 4 == 0
  {
    PartitionShape(s);
    var k := |Partition(s)| - 1;
    assert 4 * k == |s| - |s| % 4;
  }

  /** Five dates make groups of four and one; four dates make a group of four
      and an empty one. */
  lemma ChunkExamples(five: seq<string>, four: seq<string>)
    requires |five| == 5 && |four| == 4
    ensures |Partition(five)| == 2 && |Partition(five)[0]| == 4 && |Partition(five)[1]| == 1
    ensures |Partition(four)| == 2 && |Partition(four)[0]| == 4 && Partition(four)[1] == []
  {
    PartitionShape(five);
    PartitionShape(four);
  }

  /** The inner loop for one offset: try all_dates[i] for the four indices
      from the offset on, skipping the ones past the end. */
  method Subset(dates: seq<string>, offset: nat) returns (subset: seq<string>)
    ensures subset == dates[Min(offset, |dates|)..Min(offset + 4, |dates|)]
  {
    subset := [];
    var i := offset;
    while i < offset + 4
      invariant offset <= i <= offset + 4
      invariant subset == dates[Min(offset, |dates|)..Min(i, |dates|)]
    {
      if i < |dates| {
        subset := subset + [dates[i]];
      }
      i := i + 1;
    }
  }

  // ---------------------------------------------------------------------
  // Submitting and awaiting
  // ---------------------------------------------------------------------

  /** apply_async of the task for date index i, and res.get of it. */
  datatype Event = Submit(index: nat, date: string) | Await(index: nat, date: string)

  /** How the batch ends: every task returned, or res.get raised for the
      task with this index and the program stopped. */
  datatype Outcome = Completed | Aborted(index: nat)

  datatype Run = Run(trace: seq<Event>, outcome: Outcome)

  /** Submitting every date of a group, first index `base`. */
  function Submits(chunk: seq<string>, base: nat): (es: seq<Event>)
    ensures |es| == |chunk| && forall j :: 0 <= j < |chunk| ==> es[j] == Submit(base + j, chunk[j])
  {
    seq(|chunk|, j requires 0 <= j < |chunk| => Submit(base + j, chunk[j]))
  }

  /** Awaiting every date of a group, in submission order. */
  function Awaits(chunk: seq<string>, base: nat): (es: seq<Event>)
    ensures |es| == |chunk| && forall j :: 0 <= j < |chunk| ==> es[j] == Await(base + j, chunk[j])
  {
    seq(|chunk|, j requires 0 <= j < |chunk| => Await(base + j, chunk[j]))
  }

  /** Awaiting a group's tasks in order until one raises. */
  function AwaitChunk(chunk: seq<string>, base: nat, raises: set<nat>): Run
    decreases |chunk|
  {
    if chunk == [] then Run([], Completed)
    else if base in raises then Run([Await(base, chunk[0])], Aborted(base))
    else
      var rest := AwaitChunk(chunk[1..], base + 1, raises);
      Run([Await(base, chunk[0])] + rest.trace, rest.outcome)
  }

  /** The group the inner loop collects for an offset within the list. */
  function Chunk(dates: seq<string>, offset: nat): seq<string>
    requires offset <= |dates|
  {
    dates[offset..Min(offset + 4, |dates|)]
  }

  /** The driver's events from a group offset on: the group's submits, then
      its awaits, then the next offset, until a task raises. */
  function RunFrom(dates: seq<string>, offset: nat, raises: set<nat>): Run
    decreases |dates| + 4 - offset
  {
    if offset > |dates| then Run([], Completed)
    else
      var chunk := Chunk(dates, offset);
      var awaited := AwaitChunk(chunk, offset, raises);
      if awaited.outcome.Aborted? then Run(Submits(chunk, offset) + awaited.trace, awaited.outcome)
      else
        var rest := RunFrom(dates, offset + 4, raises);
        Run(Submits(chunk, offset) + awaited.trace + rest.trace, rest.outcome)
  }

  /** The events from a group offset on when no task raises. */
  function FullTrace(dates: seq<string>, offset: nat): seq<Event>
    decreases |dates| + 4 - offset
  {
    if offset > |dates| then []
    else Submits(Chunk(dates, offset), offset) + Awaits(Chunk(dates, offset), offset) + FullTrace(dates, offset + 4)
  }

  /** events followed by the run r. */
  function Prepend(events: seq<Event>, r: Run): Run
  {
    Run(events + r.trace, r.outcome)
  }

  /** The submitting comprehension: apply_async for each date of a group. */
  method SubmitChunk(subset: seq<string>, offset: nat) returns (events: seq<Event>)
    ensures events == Submits(subset, offset)
  {
    events := [];
    var j := 0;
    while j < |subset|
      invariant 0 <= j <= |subset|
      invariant events == Submits(subset[..j], offset)
    {
      events := events + [Submit(offset + j, subset[j])];
      assert Submits(subset[..j + 1], offset) == Submits(subset[..j], offset) + [Submit(offset + j, subset[j])];
      j := j + 1;
    }
    assert subset[..j] == subset;
  }

  /** The awaiting comprehension: res.get for each task of a group, in
      submission order, until one raises. */
  method AwaitSubset(subset: seq<string>, offset: nat, raises: set<nat>) returns (awaited: Run)
    ensures awaited == AwaitChunk(subset, offset, raises)
  {
    var events: seq<Event> := [];
    var j := 0;
    while j < |subset|
      invariant 0 <= j <= |subset|
      invariant events == Awaits(subset[..j], offset)
      invariant forall n :: offset <= n < offset + j ==> n !in raises
    {
      events := events + [Await(offset + j, subset[j])];
      assert Awaits(subset[..j + 1], offset) == Awaits(subset[..j], offset) + [Await(offset + j, subset[j])];
      if offset + j in raises {
        AwaitChunkStops(subset, offset, raises, j);
        return Run(events, Aborted(offset + j));
      }
      j := j + 1;
    }
    assert subset[..j] == subset;
    AwaitChunkCompletes(subset, offset, raises);
    return Run(events, Completed);
  }

  /** The offset loop: per group, submit every task, then await them all;
      the first task that raises ends the batch. */
  method RunBatch(dates: seq<string>, raises: set<nat>) returns (trace: seq<Event>, outcome: Outcome)
    ensures Run(trace, outcome) == RunFrom(dates, 0, raises)
  {
    trace := [];
    var offset := 0;
    while offset <= |dates|
      invariant Prepend(trace, RunFrom(dates, offset, raises)) == RunFrom(dates, 0, raises)
      decreases |dates| + 4 - offset
    {
      var subset := Subset(dates, offset);
      var submitted := SubmitChunk(subset, offset);
      var awaited := AwaitSubset(subset, offset, raises);
      RunAdvance(dates, offset, raises, trace, submitted, awaited);
      if awaited.outcome.Aborted? {
        return trace + submitted + awaited.trace, awaited.outcome;
      }
      trace := trace + submitted + awaited.trace;
      offset := offset + 4;
    }
    RunEnd(dates, offset, raises, trace);
    outcome := Completed;
  }

  /** One pass of the offset loop, in terms of what remains of the run. */
  lemma RunAdvance(dates: seq<string>, offset: nat, raises: set<nat>, trace: seq<Event>, submitted: seq<Event>, awaited: Run)
    requires offset <= |dates|
    requires submitted == Submits(dates[Min(offset, |dates|)..Min(offset + 4, |dates|)], offset)
    requires awaited == AwaitChunk(dates[Min(offset, |dates|)..Min(offset + 4, |dates|)], offset, raises)
    ensures awaited.outcome.Aborted? ==>
      Prepend(trace, RunFrom(dates, offset, raises)) == Run(trace + submitted + awaited.trace, awaited.outcome)
    ensures !awaited.outcome.Aborted? ==>
      Prepend(trace, RunFrom(dates, offset, raises)) == Prepend(trace + submitted + awaited.trace, RunFrom(dates, offset + 4, raises))
  {
    if !awaited.outcome.Aborted? {
      var rest := RunFrom(dates, offset + 4, raises);
      assert trace + (submitted + awaited.trace + rest.trace) == trace + submitted + awaited.trace + rest.trace;
    }
  }

  /** Past the last offset nothing remains to run. */
  lemma RunEnd(dates: seq<string>, offset: nat, raises: set<nat>, trace: seq<Event>)
    requires offset > |dates|
    ensures Prepend(trace, RunFrom(dates, offset, raises)) == Run(trace, Completed)
  {
    assert trace + [] == trace;
  }

  /** A group none of whose tasks raises is awaited in full. */
  lemma {:induction false} AwaitChunkCompletes(chunk: seq<string>, base: nat, raises: set<nat>)
    requires forall n :: base <= n < base + |chunk| ==> n !in raises
    ensures AwaitChunk(chunk, base, raises) == Run(Awaits(chunk, base), Completed)
    decreases |chunk|
  {
    if chunk != [] {
      AwaitChunkCompletes(chunk[1..], base + 1, raises);
      assert Awaits(chunk, base) == [Await(base, chunk[0])] + Awaits(chunk[1..], base + 1);
    }
  }

  /** Awaiting stops right after the first task that raises. */
  lemma {:induction false} AwaitChunkStops(chunk: seq<string>, base: nat, raises: set<nat>, j: nat)
    requires j < |chunk| && base + j in raises
    requires forall n :: base <= n < base + j ==> n !in raises
    ensures AwaitChunk(chunk, base, raises) == Run(Awaits(chunk[..j + 1], base), Aborted(base + j))
    decreases j
  {
    if j > 0 {
      AwaitChunkStops(chunk[1..], base + 1, raises, j - 1);
      assert chunk[1..][..j] == chunk[1..j + 1];
      assert Awaits(chunk[..j + 1], base) == [Await(base, chunk[0])] + Awaits(chunk[1..][..j], base + 1);
    } else {
      assert Awaits(chunk[..1], base) == [Await(base, chunk[0])];
    }
  }

  /** The group the offset loop handles at offset 4k is the k-th group of
      the partition. */
  lemma ChunkIsPartition(dates: seq<string>, k: nat)
    requires k <= |dates| / 4
    ensures 4 * k <= |dates| && k < |Partition(dates)| && Chunk(dates, 4 * k) == Partition(dates)[k]
  {
    PartitionAt(dates, k);
  }

  /** Awaiting a group completes exactly when none of its tasks raises;
      otherwise it stops at the first that does. What it awaits is a prefix
      of the whole group, all of it when it completes. */
  lemma {:induction false} AwaitChunkFacts(chunk: seq<string>, base: nat, raises: set<nat>)
    ensures var r := AwaitChunk(chunk, base, raises);
      && (r.outcome.Completed? <==> forall n :: base <= n < base + |chunk| ==> n !in raises)
      && (r.outcome.Aborted? ==>
           && base <= r.outcome.index < base + |chunk| && r.outcome.index in raises
           && forall n :: base <= n < r.outcome.index ==> n !in raises)
      && |r.trace| <= |chunk| && r.trace == Awaits(chunk, base)[..|r.trace|]
      && (r.outcome.Completed? ==> r.trace == Awaits(chunk, base))
      && (r.outcome.Aborted? ==> |r.trace| == r.outcome.index - base + 1)
    decreases |chunk|
  {
    if chunk != [] {
      AwaitChunkFacts(chunk[1..], base + 1, raises);
      var rest := AwaitChunk(chunk[1..], base + 1, raises);
      assert Awaits(chunk, base) == [Await(base, chunk[0])] + Awaits(chunk[1..], base + 1);
      if base !in raises {
        assert [Await(base, chunk[0])] + rest.trace == Awaits(chunk, base)[..1 + |rest.trace|];
      }
    }
  }

  /** The batch completes exactly when no task from the offset on raises;
      otherwise it ends at the first task that raises. */
  lemma {:induction false} RunOutcome(dates: seq<string>, offset: nat, raises: set<nat>)
    ensures var r := RunFrom(dates, offset, raises);
      && (r.outcome.Completed? <==> forall n :: offset <= n < |dates| ==> n !in raises)
      && (r.outcome.Aborted? ==>
           && offset <= r.outcome.index < |dates| && r.outcome.index in raises
           && forall n :: offset <= n < r.outcome.index ==> n !in raises)
    decreases |dates| + 4 - offset
  {
    if offset <= |dates| {
      var chunk := Chunk(dates, offset);
      AwaitChunkFacts(chunk, offset, raises);
      RunOutcome(dates, offset + 4, raises);
    }
  }

  /** The events of any run are a prefix of the events of the run in which
      nothing raises, and all of them when the run completes. */
  lemma {:induction false} RunTrace(dates: seq<string>, offset: nat, raises: set<nat>)
    ensures var r := RunFrom(dates, offset, raises);
      && |r.trace| <= |FullTrace(dates, offset)|
      && r.trace == FullTrace(dates, offset)[..|r.trace|]
      && (r.outcome.Completed? ==> r.trace == FullTrace(dates, offset))
    decreases |dates| + 4 - offset
  {
    if offset <= |dates| {
      var chunk := Chunk(dates, offset);
      var awaited := AwaitChunk(chunk, offset, raises);
      var block := Submits(chunk, offset) + Awaits(chunk, offset);
      AwaitChunkFacts(chunk, offset, raises);
      RunTrace(dates, offset + 4, raises);
      var full := FullTrace(dates, offset);
      assert full == block + FullTrace(dates, offset + 4);
      if awaited.outcome.Aborted? {
        PrefixOfConcat(Submits(chunk, offset), Awaits(chunk, offset), awaited.trace);
        PrefixOfConcat(block, FullTrace(dates, offset + 4), []);
        PrefixOfPrefix(Submits(chunk, offset) + awaited.trace, block, full);
      } else {
        var rest := RunFrom(dates, offset + 4, raises);
        assert Submits(chunk, offset) + awaited.trace == block;
        PrefixOfConcat(block, FullTrace(dates, offset + 4), rest.trace);
        assert Submits(chunk, offset) + awaited.trace + rest.trace == block + rest.trace;
      }
    }
  }

  /** a + b's prefixes that extend a are a followed by a prefix of b. */
  lemma PrefixOfConcat<T>(a: seq<T>, b: seq<T>, c: seq<T>)
    requires |c| <= |b| && c == b[..|c|]
    ensures a + c == (a + b)[..|a + c|]
  {
  }

  lemma PrefixOfPrefix<T>(a: seq<T>, b: seq<T>, c: seq<T>)
    requires |a| <= |b| && a == b[..|a|] && |b| <= |c| && b == c[..|b|]
    ensures a == c[..|a|]
  {
  }

  /** With nothing raising, every date from the offset on is submitted once
      and awaited once. */
  lemma {:induction false} FullTraceLength(dates: seq<string>, offset: nat)
    requires offset <= |dates|
    ensures |FullTrace(dates, offset)| == 2 * (|dates| - offset)
    decreases |dates| + 4 - offset
  {
    if offset + 4 <= |dates| {
      FullTraceLength(dates, offset + 4);
    }
  }

  /** Every event from an offset on is for a date at or after it, and
      carries that date. */
  lemma {:induction false} FullTraceIndices(dates: seq<string>, offset: nat)
    ensures forall p :: 0 <= p < |FullTrace(dates, offset)| ==>
      var e := FullTrace(dates, offset)[p];
      offset <= e.index < |dates| && e.date == dates[e.index]
    decreases |dates| + 4 - offset
  {
    if offset <= |dates| {
      var chunk := Chunk(dates, offset);
      var block := Submits(chunk, offset) + Awaits(chunk, offset);
      var rest := FullTrace(dates, offset + 4);
      FullTraceIndices(dates, offset + 4);
      assert FullTrace(dates, offset) == block + rest;
    }
  }

  /** The submit events (submits true) or the await events (submits false)
      of a trace, in trace order. */
  function OfKind(t: seq<Event>, submits: bool): seq<Event>
  {
    if t == [] then [] else (if t[0].Submit? == submits then [t[0]] else []) + OfKind(t[1..], submits)
  }

  lemma {:induction false} OfKindConcat(a: seq<Event>, b: seq<Event>, submits: bool)
    ensures OfKind(a + b, submits) == OfKind(a, submits) + OfKind(b, submits)
    decreases |a|
  {
    if a == [] {
      assert a + b == b;
    } else {
      var head := if a[0].Submit? == submits then [a[0]] else [];
      var ab := a + b;
      assert ab[0] == a[0] && ab[1..] == a[1..] + b;
      OfKindConcat(a[1..], b, submits);
      assert OfKind(ab, submits) == head + (OfKind(a[1..], submits) + OfKind(b, submits));
      assert OfKind(a, submits) == head + OfKind(a[1..], submits);
    }
  }

  /** Selecting submits from a group's submits keeps them all, and from its
      awaits keeps none; and the other way round for awaits. */
  lemma {:induction false} OfKindBlocks(chunk: seq<string>, base: nat)
    ensures OfKind(Submits(chunk, base), true) == Submits(chunk, base) && OfKind(Submits(chunk, base), false) == []
    ensures OfKind(Awaits(chunk, base), false) == Awaits(chunk, base) && OfKind(Awaits(chunk, base), true) == []
    decreases |chunk|
  {
    if chunk != [] {
      OfKindBlocks(chunk[1..], base + 1);
      assert Submits(chunk, base)[1..] == Submits(chunk[1..], base + 1);
      assert Awaits(chunk, base)[1..] == Awaits(chunk[1..], base + 1);
    }
  }

  /** A group's submits and awaits followed by more events: the group
      contributes its submits to the one selection and its awaits to the
      other. */
  lemma BlockKinds(chunk: seq<string>, base: nat, rest: seq<Event>)
    ensures OfKind(Submits(chunk, base) + Awaits(chunk, base) + rest, true) == Submits(chunk, base) + OfKind(rest, true)
    ensures OfKind(Submits(chunk, base) + Awaits(chunk, base) + rest, false) == Awaits(chunk, base) + OfKind(rest, false)
  {
    var s, a := Submits(chunk, base), Awaits(chunk, base);
    OfKindBlocks(chunk, base);
    OfKindConcat(s, a, true);
    OfKindConcat(s, a, false);
    assert OfKind(s + a, true) == s by { assert s + [] == s; }
    assert OfKind(s + a, false) == a by { assert [] + a == a; }
    OfKindConcat(s + a, rest, true);
    OfKindConcat(s + a, rest, false);
  }

  /** Events for consecutive dates split at any point. */
  lemma EventsConcat(a: seq<string>, b: seq<string>, base: nat)
    ensures Submits(a + b, base) == Submits(a, base) + Submits(b, base + |a|)
    ensures Awaits(a + b, base) == Awaits(a, base) + Awaits(b, base + |a|)
  {
  }

  /** With nothing raising, the submits are exactly one per date from the
      offset on, in date order, and so are the awaits: every date is
      submitted once and awaited once. */
  lemma {:induction false} FullTraceKinds(dates: seq<string>, offset: nat)
    requires offset <= |dates|
    ensures OfKind(FullTrace(dates, offset), true) == Submits(dates[offset..], offset)
    ensures OfKind(FullTrace(dates, offset), false) == Awaits(dates[offset..], offset)
    decreases |dates| - offset
  {
    var chunk := Chunk(dates, offset);
    var rest := FullTrace(dates, offset + 4);
    assert FullTrace(dates, offset) == Submits(chunk, offset) + Awaits(chunk, offset) + rest;
    BlockKinds(chunk, offset, rest);
    if offset + 4 <= |dates| {
      FullTraceKinds(dates, offset + 4);
      assert dates[offset..] == chunk + dates[offset + 4..];
      EventsConcat(chunk, dates[offset + 4..], offset);
    } else {
      assert rest == [] && chunk == dates[offset..];
    }
  }

  /** Groups are handled strictly one after another: no task is submitted
      at or before the awaiting of a task from an earlier group, i.e. every
      task of group k (indices 4k to 4k + 3) is awaited before any task of
      group k + 1 is submitted. */
  predicate InGroupOrder(t: seq<Event>)
  {
    forall p, q :: 0 <= q <= p < |t| && t[q].Submit? && t[p].Await? ==> t[q].index / 4 <= t[p].index / 4
  }

  /** With nothing raising, the events keep the groups in order. */
  lemma {:induction false} FullTraceBarrier(dates: seq<string>, offset: nat)
    requires offset % 4 == 0
    ensures InGroupOrder(FullTrace(dates, offset))
    decreases |dates| + 4 - offset
  {
    if offset <= |dates| {
      var chunk := Chunk(dates, offset);
      var block := Submits(chunk, offset) + Awaits(chunk, offset);
      var rest := FullTrace(dates, offset + 4);
      var t := FullTrace(dates, offset);
      assert t == block + rest;
      BlockIndices(chunk, offset);
      FullTraceBarrier(dates, offset + 4);
      FullTraceIndices(dates, offset + 4);
      forall p, q | 0 <= q <= p < |t| && t[q].Submit? && t[p].Await?
        ensures t[q].index / 4 <= t[p].index / 4
      {
        if p < |block| {
          assert t[q] == block[q] && t[p] == block[p];
          SameGroup(offset, block[q].index);
          SameGroup(offset, block[p].index);
        } else if q < |block| {
          assert t[q] == block[q] && t[p] == rest[p - |block|];
          SameGroup(offset, block[q].index);
          LaterGroup(offset, rest[p - |block|].index);
        } else {
          assert t[q] == rest[q - |block|] && t[p] == rest[p - |block|];
        }
      }
    }
  }

  /** A group's events are for the dates of that group. */
  lemma BlockIndices(chunk: seq<string>, offset: nat)
    ensures var block := Submits(chunk, offset) + Awaits(chunk, offset);
      forall x :: 0 <= x < |block| ==> offset <= block[x].index < offset + |chunk|
  {
    var block := Submits(chunk, offset) + Awaits(chunk, offset);
    forall x | 0 <= x < |block|
      ensures offset <= block[x].index < offset + |chunk|
    {
      if x < |chunk| {
        assert block[x] == Submits(chunk, offset)[x];
      } else {
        assert block[x] == Awaits(chunk, offset)[x - |chunk|];
      }
    }
  }

  lemma SameGroup(offset: nat, i: nat)
    requires offset % 4 == 0 && offset <= i < offset + 4
    ensures i / 4 == offset / 4
  {
    DivUnique(i, 4, offset / 4, i - offset);
  }

  lemma LaterGroup(offset: nat, i: nat)
    requires offset % 4 == 0 && offset + 4 <= i
    ensures offset / 4 < i / 4
  {
  }

  /** Every run, raising or not, keeps the groups in order. */
  lemma RunBarrier(dates: seq<string>, raises: set<nat>)
    ensures InGroupOrder(RunFrom(dates, 0, raises).trace)
  {
    RunTrace(dates, 0, raises);
    FullTraceBarrier(dates, 0);
    var t := RunFrom(dates, 0, raises).trace;
    var full := FullTrace(dates, 0);
    assert forall p :: 0 <= p < |t| ==> t[p] == full[p];
  }

  /** A run that stops at task i has submitted every task of i's group and
      every group before it, awaited everything before i and i itself, and
      submitted nothing of a later group: the tasks after i in its group are
      submitted but never awaited. */
  lemma {:induction false} RunAbortLength(dates: seq<string>, offset: nat, raises: set<nat>)
    requires offset % 4 == 0
    ensures var r := RunFrom(dates, offset, raises);
      r.outcome.Aborted? ==>
        var i := r.outcome.index;
        var g := 4 * (i / 4);
        && offset <= g <= i < |dates|
        && |r.trace| == 2 * (g - offset) + |Chunk(dates, g)| + (i - g) + 1
    decreases |dates| + 4 - offset
  {
    if offset <= |dates| {
      var chunk := Chunk(dates, offset);
      var awaited := AwaitChunk(chunk, offset, raises);
      AwaitChunkFacts(chunk, offset, raises);
      if awaited.outcome.Aborted? {
        SameGroup(offset, awaited.outcome.index);
      } else {
        var rest := RunFrom(dates, offset + 4, raises);
        RunAbortLength(dates, offset + 4, raises);
        RunOutcome(dates, offset + 4, raises);
        if rest.outcome.Aborted? {
          assert |chunk| == 4;
          assert |Awaits(chunk, offset)| == 4;
        }
      }
    }
  }
}
