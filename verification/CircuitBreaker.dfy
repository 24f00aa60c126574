/** lib/circuit_breaker.py: consecutive blocks turn into an approve. */
module CircuitBreaker {
  import opened HookOutput
  import opened Options

  /** A marker file: a count, or text that is not a number. */
  datatype Marker = Count(n: int) | Unreadable

  datatype Markers = Markers(current: Option<Marker>, legacy: Option<Marker>)

  const NO_MARKERS := Markers(None, None)

  /** The first readable marker, the current one before the legacy one. */
  function BlockCount(m: Markers): int {
    if m.current.Some? && m.current.value.Count? then m.current.value.n
    else if m.legacy.Some? && m.legacy.value.Count? then m.legacy.value.n
    else 0
  }

  predicate ActiveBlock(active: bool, output: Output) {
    active && output.decision == Some(Block)
  }

  /** The approve that replaces a block. */
  function Tripped(output: Output, message: string): Output {
    Output(Some(Approve), None, Some((if output.context.Some? then output.context.value else "") + message))
  }

  function Step(m: Markers, output: Output, active: bool, limit: int, message: string): (Markers, Output) {
    if !ActiveBlock(active, output) then (NO_MARKERS, output)
    else if BlockCount(m) + 1 >= limit then (NO_MARKERS, Tripped(output, message))
    else (Markers(Some(Count(BlockCount(m) + 1)), None), output)
  }

  /** The state directory of one worktree. */
  class Breaker {
    var current: Option<Marker>
    var legacy: Option<Marker>

    /** The current marker when it is a number, else the legacy one when it is, else zero. */
    method ReadBlockCount() returns (n: int)
      ensures n == BlockCount(Markers(current, legacy))
      ensures current.Some? && current.value.Count? ==> n == current.value.n
      ensures !(current.Some? && current.value.Count?) && legacy.Some? && legacy.value.Count? ==> n == legacy.value.n
      ensures !(current.Some? && current.value.Count?) && !(legacy.Some? && legacy.value.Count?) ==> n == 0
    {
      if current.Some? {
        match current.value
        case Count(c) => return c;
        case Unreadable =>
      }
      if legacy.Some? {
        match legacy.value
        case Count(c) => return c;
        case Unreadable =>
      }
      return 0;
    }

    /** An answer passes through unchanged unless it is a block that continues a block and reaches
        the limit: then it becomes an approve, without a reason, with the message appended. */
    method Apply(output0: Output, active: bool, limit: int, message: string) returns (output: Output)
      modifies this
      ensures !(active && output0.decision == Some(Block)) ==> output == output0 && current.None? && legacy.None?
      ensures active && output0.decision == Some(Block) ==>
        var count := BlockCount(old(Markers(current, legacy))) + 1;
        if count < limit then output == output0 && current == Some(Count(count)) && legacy.None?
        else
          && output.decision == Some(Approve) && output.reason == None
          && (output0.context.Some? ==> output.context == Some(output0.context.value + message))
          && (output0.context.None? ==> output.context == Some(message))
          && current.None? && legacy.None?
      ensures (Markers(current, legacy), output) == Step(old(Markers(current, legacy)), output0, active, limit, message)
    {
      output := output0;
      assert "" + message == message;
      if active && output.decision == Some(Block) {
        var blockCount := ReadBlockCount();
        blockCount := blockCount + 1;
        if blockCount >= limit {
          output := output.(decision := Some(Approve));
          if output.context.None? { output := output.(context := Some("")); }
          output := output.(context := Some(output.context.value + message));
          output := output.(reason := None);
          current := None;
          legacy := None;
        } else {
          current := Some(Count(blockCount));
          legacy := None;
        }
      } else {
        current := None;
        legacy := None;
      }
    }
  }

  // ---- runs ------------------------------------------------------------------------------

  /** One Stop call: what the checks decided, and whether Claude is continuing from a block. */
  datatype Call = Call(output: Output, active: bool, message: string)

  function Run(start: Markers, calls: seq<Call>, limit: int): Markers {
    if calls == [] then start else
      var c := calls[|calls| - 1];
      Step(Run(start, calls[..|calls| - 1], limit), c.output, c.active, limit, c.message).0
  }

  function Emitted(start: Markers, calls: seq<Call>, limit: int, i: nat): Output
    requires i < |calls|
  {
    Step(Run(start, calls[..i], limit), calls[i].output, calls[i].active, limit, calls[i].message).1
  }

  /** Call `i` ended in a block while a previous block was being continued. */
  predicate EmitsActiveBlock(start: Markers, calls: seq<Call>, limit: int, i: nat)
    requires i < |calls|
  {
    ActiveBlock(calls[i].active, Emitted(start, calls, limit, i))
  }

  /** How many calls up to now did so without interruption. */
  function Streak(start: Markers, calls: seq<Call>, limit: int): nat {
    if calls == [] || !EmitsActiveBlock(start, calls, limit, |calls| - 1) then 0
    else 1 + Streak(start, calls[..|calls| - 1], limit)
  }

  lemma EmittedPrefix(start: Markers, calls: seq<Call>, limit: int, n: nat, i: nat)
    requires i < n <= |calls|
    ensures Emitted(start, calls[..n], limit, i) == Emitted(start, calls, limit, i)
  {
    assert calls[..n][..i] == calls[..i];
  }

  /** Starting without markers, the count is always the current streak of active blocks, and it
      stays below the limit. */
  lemma {:induction false} MarkerIsStreak(calls: seq<Call>, limit: int)
    requires limit >= 1
    ensures BlockCount(Run(NO_MARKERS, calls, limit)) == Streak(NO_MARKERS, calls, limit)
    ensures Streak(NO_MARKERS, calls, limit) < limit
  {
    if calls == [] {
    } else {
      MarkerIsStreak(calls[..|calls| - 1], limit);
    }
  }

  /** Whatever the markers say at first, from call `i` on: while every call is an active block the
      count climbs by one a call, and stays below the limit. */
  lemma {:induction false} CountClimbs(start: Markers, calls: seq<Call>, limit: int, i: nat)
    requires i <= |calls| && forall j :: i <= j < |calls| ==> EmitsActiveBlock(start, calls, limit, j)
    ensures BlockCount(Run(start, calls, limit)) == BlockCount(Run(start, calls[..i], limit)) + (|calls| - i)
    ensures i < |calls| ==> BlockCount(Run(start, calls, limit)) < limit
  {
    if i == |calls| {
      assert calls[..i] == calls;
    } else {
      var last := |calls| - 1;
      assert EmitsActiveBlock(start, calls, limit, last);
      forall j | i <= j < last ensures EmitsActiveBlock(start, calls[..last], limit, j) {
        EmittedPrefix(start, calls, limit, last, j);
        assert EmitsActiveBlock(start, calls, limit, j);
      }
      CountClimbs(start, calls[..last], limit, i);
      assert calls[..last][..i] == calls[..i];
    }
  }

  lemma {:induction false} NeverNegativeAfter(start: Markers, calls: seq<Call>, limit: int)
    requires BlockCount(start) >= 0
    ensures BlockCount(Run(start, calls, limit)) >= 0
  {
    if calls == [] {
    } else {
      NeverNegativeAfter(start, calls[..|calls| - 1], limit);
    }
  }

  /** Some call among the `limit` ones from `i` on is not an active block. */
  ghost predicate GetsThrough(start: Markers, calls: seq<Call>, limit: nat, i: nat)
    requires i + limit <= |calls|
  {
    exists j :: i <= j < i + limit && !EmitsActiveBlock(start, calls, limit, j)
  }

  /** Progress, from any stored count that is not negative: among any `limit` consecutive calls,
      some one is not an active block. */
  lemma NeverBlocksForever(start: Markers, calls: seq<Call>, limit: nat, i: nat)
    requires BlockCount(start) >= 0 && limit >= 1 && i + limit <= |calls|
    ensures GetsThrough(start, calls, limit, i)
  {
    if forall j :: i <= j < i + limit ==> EmitsActiveBlock(start, calls, limit, j) {
      var upto := calls[..i + limit];
      forall j | i <= j < |upto| ensures EmitsActiveBlock(start, upto, limit, j) {
        EmittedPrefix(start, calls, limit, i + limit, j);
        assert EmitsActiveBlock(start, calls, limit, j);
      }
      CountClimbs(start, upto, limit, i);
      NeverNegativeAfter(start, upto[..i], limit);
    }
  }

  /** `n` Stop calls in a row that continue from a block and block again. */
  function Blocking(n: nat): seq<Call> {
    seq(n, _ => Call(Output(Some(Block), None, None), true, ""))
  }

  lemma {:induction false} NegativeCountBlocks(start: Markers, limit: nat, n: nat)
    requires BlockCount(start) < 0 && n <= limit
    ensures BlockCount(Run(start, Blocking(n), limit)) == BlockCount(start) + n
    ensures forall j :: 0 <= j < n ==> EmitsActiveBlock(start, Blocking(n), limit, j)
  {
    if n == 0 {
    } else {
      NegativeCountBlocks(start, limit, n - 1);
      assert Blocking(n)[..n - 1] == Blocking(n - 1);
      forall j | 0 <= j < n ensures EmitsActiveBlock(start, Blocking(n), limit, j) {
        if j < n - 1 {
          EmittedPrefix(start, Blocking(n), limit, n - 1, j);
          assert EmitsActiveBlock(start, Blocking(n - 1), limit, j);
        }
      }
    }
  }

  ghost predicate Progresses(start: Markers, limit: nat) {
    forall calls, i: nat {:trigger GetsThrough(start, calls, limit, i)} ::
      i + limit <= |calls| ==> GetsThrough(start, calls, limit, i)
  }

  /** A negative stored count is the only start from which a session can block too long. */
  lemma ProgressesIffNotNegative(start: Markers, limit: nat)
    requires limit >= 1
    ensures Progresses(start, limit) <==> BlockCount(start) >= 0
  {
    hide EmitsActiveBlock, BlockCount;
    if BlockCount(start) >= 0 {
      forall calls: seq<Call>, i: nat {:trigger GetsThrough(start, calls, limit, i)} | i + limit <= |calls|
        ensures GetsThrough(start, calls, limit, i)
      {
        NeverBlocksForever(start, calls, limit, i);
      }
    } else {
      NegativeCountBlocks(start, limit, limit);
      assert !GetsThrough(start, Blocking(limit), limit, 0);
    }
  }

  /** How many calls up to now, without interruption, continued from a block with a block of the
      checks, whatever was answered. */
  function Trailing(calls: seq<Call>): nat {
    if calls == [] then 0
    else
      var c := calls[|calls| - 1];
      if c.active && c.output.decision == Some(Block) then 1 + Trailing(calls[..|calls| - 1]) else 0
  }

  /** The stored count is their number, modulo the limit. */
  lemma {:induction false} CountIsTrailing(calls: seq<Call>, limit: nat)
    requires limit >= 1
    ensures BlockCount(Run(NO_MARKERS, calls, limit)) == Phase(Trailing(calls), limit)
  {
    hide BlockCount, Phase;
    NoCount(limit);
    if calls == [] {
    } else {
      var n := |calls| - 1;
      CountIsTrailing(calls[..n], limit);
      if ActiveBlock(calls[n].active, calls[n].output) {
        NextCount(Run(NO_MARKERS, calls[..n], limit), calls[n].output, limit, calls[n].message);
        PhaseNext(Trailing(calls[..n]), limit);
      }
    }
  }

  /** Whole sessions, without the markers: call `i` is answered with what the checks decided,
      unless it ends a run of a multiple of `limit` blocks; then it is approved, with the message. */
  lemma SessionAnswers(calls: seq<Call>, limit: nat, i: nat)
    requires limit >= 1 && i < |calls|
    ensures var asked, answer := calls[i].output, Emitted(NO_MARKERS, calls, limit, i);
      var run := Trailing(calls[..i + 1]);
      if run > 0 && run % limit == 0 then
        && answer.decision == Some(Approve) && answer.reason == None
        && (asked.context.Some? ==> answer.context == Some(asked.context.value + calls[i].message))
        && (asked.context.None? ==> answer.context == Some(calls[i].message))
      else answer == asked
  {
    assert calls[..i + 1][..i] == calls[..i] && "" + calls[i].message == calls[i].message;
    CountIsTrailing(calls[..i], limit);
    PhaseNext(Trailing(calls[..i]), limit);
  }

  ghost predicate Stuck(calls: seq<Call>) {
    forall i :: 0 <= i < |calls| ==> ActiveBlock(calls[i].active, calls[i].output)
  }

  /** Where `n` consecutive blocks leave the count. */
  function Phase(n: nat, limit: nat): nat
    requires limit >= 1
  {
    n % limit
  }

  lemma NoCount(limit: nat)
    requires limit >= 1
    ensures BlockCount(NO_MARKERS) == 0 == Phase(0, limit)
  {
  }

  lemma NextCount(m: Markers, output: Output, limit: int, message: string)
    requires output.decision == Some(Block)
    ensures BlockCount(Step(m, output, true, limit, message).0)
      == if BlockCount(m) + 1 >= limit then 0 else BlockCount(m) + 1
  {
  }

  lemma {:induction false} StuckCount(calls: seq<Call>, limit: nat)
    requires Stuck(calls) && limit >= 1
    ensures BlockCount(Run(NO_MARKERS, calls, limit)) == Phase(|calls|, limit)
  {
    hide BlockCount, Step, Phase;
    if calls == [] {
      NoCount(limit);
    } else {
      var n := |calls| - 1;
      StuckCount(calls[..n], limit);
      assert ActiveBlock(calls[n].active, calls[n].output);
      NextCount(Run(NO_MARKERS, calls[..n], limit), calls[n].output, limit, calls[n].message);
      PhaseNext(n, limit);
    }
  }

  lemma {:induction false} TimesMonotone(a: nat, b: nat, m: nat)
    requires a <= b
    ensures a * m <= b * m
  {
  }

  lemma QuotientUnique(q: nat, r: nat, p: nat, s: nat, m: nat)
    requires r < m && s < m && q * m + r == p * m + s
    ensures r == s
  {
    assert (q + 1) * m == q * m + m && (p + 1) * m == p * m + m;
    if q < p {
      TimesMonotone(q + 1, p, m);
    } else if p < q {
      TimesMonotone(p + 1, q, m);
    }
  }

  lemma PhaseNext(n: nat, m: nat)
    requires m >= 1
    ensures Phase(n + 1, m) == if Phase(n, m) + 1 >= m then 0 else Phase(n, m) + 1
  {
    var q, r := n / m, n % m;
    assert n == q * m + r;
    assert n + 1 == ((n + 1) / m) * m + (n + 1) % m;
    if r + 1 == m {
      assert (q + 1) * m == q * m + m;
      QuotientUnique(q + 1, 0, (n + 1) / m, (n + 1) % m, m);
    } else {
      QuotientUnique(q, r + 1, (n + 1) / m, (n + 1) % m, m);
    }
  }

  /** A session stuck on the same findings gets through on exactly every `limit`-th call. */
  lemma StuckSessionsAlternate(calls: seq<Call>, limit: nat, i: nat)
    requires Stuck(calls) && limit >= 1 && i < |calls|
    ensures Emitted(NO_MARKERS, calls, limit, i).decision == Some(if (i + 1) % limit == 0 then Approve else Block)
  {
    StuckCount(calls[..i], limit);
    PhaseNext(i, limit);
    assert ActiveBlock(calls[i].active, calls[i].output);
  }
}
