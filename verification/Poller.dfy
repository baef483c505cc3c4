/** The block poller: a cursor moves over the heights of a growing chain until a poll succeeds. */
module Poller {
  import opened Collections

  datatype Result<T> = Ok(value: T) | Err(error: string)

  const UINT64: nat := 0x1_0000_0000_0000_0000
  const NOT_FOUND := "not found"

  /** What the poller is given. reports(j) answers the j-th call of CurrentHeight; poll is
      PollFunc, a closure that turns what it has captured and a height into what it captures
      next and its answer. */
  datatype Env<T, !S> = Env(reports: nat -> Result<nat>, poll: (S, nat) -> (S, Result<T>), max: nat)

  datatype State<T, S> =
    | Polling(cursor: nat, captured: S)
    | Found(height: nat, value: T, captured: S)
    | Failed(error: string, captured: S)

  /** One turn of the loop, in which CurrentHeight is called for the j-th time. */
  function Step<T, S>(env: Env<T, S>, st: State<T, S>, j: nat): State<T, S>
  {
    if !st.Polling? then st
    else
      match env.reports(j)
      case Err(e) => Failed(e, st.captured)
      case Ok(height) =>
        if st.cursor > height then st
        else
          var (captured, answer) := env.poll(st.captured, st.cursor);
          match answer
          case Ok(v) => Found(st.cursor, v, captured)
          case Err(e) =>
            var next := (st.cursor + 1) % UINT64;
            if next <= env.max then Polling(next, captured) else Failed(e, captured)
  }

  /** The state after n turns. */
  function After<T, S>(env: Env<T, S>, s: S, start: nat, n: nat): State<T, S>
  {
    if n == 0 then Polling(start, s) else Step(env, After(env, s, start, n - 1), n - 1)
  }

  ghost predicate Stops<T(!new), S(!new)>(env: Env<T, S>, s: S, start: nat)
  {
    exists n: nat :: !After(env, s, start, n).Polling?
  }

  // What a run has done, said without its turns.

  /** What the closure has captured once it was called for from, from + 1, ..., to - 1, each once. */
  function Captured<T, S>(env: Env<T, S>, s: S, from: nat, to: nat): S
  {
    if to <= from then s else env.poll(Captured(env, s, from, to - 1), to - 1).0
  }

  /** The answer at a height, when all heights from start up to it are polled in order. */
  function Answer<T, S>(env: Env<T, S>, s: S, start: nat, h: nat): Result<T>
  {
    env.poll(Captured(env, s, start, h), h).1
  }

  ghost predicate AllFail<T, S>(env: Env<T, S>, s: S, start: nat, end: nat)
  {
    forall h :: start <= h < end ==> Answer(env, s, start, h).Err?
  }

  /** At turns js, one after the other, the cursor stood at start, start + 1, ..., end - 1, and the
      chain then reported that it has that height. */
  ghost predicate PolledAt<T, S>(env: Env<T, S>, s: S, start: nat, end: nat, n: nat, js: seq<nat>)
  {
    && start + |js| == end
    && (forall k, l :: 0 <= k < l < |js| ==> js[k] < js[l])
    && (forall k :: 0 <= k < |js| ==> js[k] < n && PollsAt(env, After(env, s, start, js[k]), js[k], start + k))
  }

  ghost predicate PollsAt<T, S>(env: Env<T, S>, st: State<T, S>, j: nat, h: nat)
  {
    st.Polling? && st.cursor == h && env.reports(j).Ok? && env.reports(j).value >= h
  }

  /** Exactly the heights start, ..., end - 1 were polled within n turns, in order, once, and each
      when the chain had just reported that it has it. */
  ghost predicate Polled<T, S>(env: Env<T, S>, s: S, start: nat, end: nat, n: nat, captured: S)
  {
    captured == Captured(env, s, start, end) && exists js: seq<nat> :: PolledAt(env, s, start, end, n, js)
  }

  ghost predicate Searched<T, S>(env: Env<T, S>, s: S, start: nat, n: nat, st: State<T, S>)
  {
    match st
    case Polling(c, captured) =>
      start <= c <= env.max && Polled(env, s, start, c, n, captured) && AllFail(env, s, start, c)
    case Found(h, v, captured) =>
      && start <= h <= env.max && Polled(env, s, start, h + 1, n, captured)
      && AllFail(env, s, start, h) && Answer(env, s, start, h) == Ok(v)
    case Failed(e, captured) =>
      exists end :: start <= end <= env.max + 1
        && Polled(env, s, start, end, n, captured) && AllFail(env, s, start, end)
        && ((exists j :: 0 <= j < n && env.reports(j) == Err(e))
            || (end == env.max + 1 && Answer(env, s, start, env.max) == Err(e)))
  }

  /** The cursor, a uint64, goes from the largest one back to zero. */
  ghost predicate Wraps<T, S>(env: Env<T, S>, st: State<T, S>, j: nat)
  {
    st.Polling? && st.cursor == UINT64 - 1 && Step(env, st, j).Polling? && Step(env, st, j).cursor == 0
  }

  ghost predicate Wrapped<T, S>(env: Env<T, S>, s: S, start: nat, n: nat)
  {
    exists m :: 0 <= m < n && Wraps(env, After(env, s, start, m), m)
  }

  /** Every run, after any number of turns, as long as the cursor has not wrapped. */
  lemma {:induction false} SearchedAfter<T, S>(env: Env<T, S>, s: S, start: nat, n: nat)
    requires start <= env.max < UINT64 && !Wrapped(env, s, start, n)
    ensures Searched(env, s, start, n, After(env, s, start, n))
  {
    hide Searched, Wraps, Step;
    if n == 0 {
      NothingSearched(env, s, start);
    } else {
      SearchedAfter(env, s, start, n - 1);
      if After(env, s, start, n - 1).Polling? {
        TurnSearches(env, s, start, n - 1);
      } else {
        LongerSearched(env, s, start, n - 1, After(env, s, start, n - 1));
        StaysStopped(env, s, start, n - 1, n);
      }
    }
  }

  lemma NothingSearched<T, S>(env: Env<T, S>, s: S, start: nat)
    requires start <= env.max
    ensures Searched(env, s, start, 0, Polling(start, s))
  {
    assert PolledAt(env, s, start, start, 0, []);
  }

  lemma LongerPolled<T, S>(env: Env<T, S>, s: S, start: nat, end: nat, n: nat, captured: S)
    requires Polled(env, s, start, end, n, captured)
    ensures Polled(env, s, start, end, n + 1, captured)
  {
    hide Captured, PollsAt;
    var js: seq<nat> :| PolledAt(env, s, start, end, n, js);
    assert PolledAt(env, s, start, end, n + 1, js);
  }

  lemma LongerSearched<T, S>(env: Env<T, S>, s: S, start: nat, n: nat, st: State<T, S>)
    requires Searched(env, s, start, n, st)
    ensures Searched(env, s, start, n + 1, st)
  {
    hide AllFail, Polled, Answer;
    match st
    case Polling(c, captured) => LongerPolled(env, s, start, c, n, captured);
    case Found(h, v, captured) => LongerPolled(env, s, start, h + 1, n, captured);
    case Failed(e, captured) =>
      var end :| start <= end <= env.max + 1
        && Polled(env, s, start, end, n, captured) && AllFail(env, s, start, end)
        && ((exists j :: 0 <= j < n && env.reports(j) == Err(e))
            || (end == env.max + 1 && Answer(env, s, start, env.max) == Err(e)));
      LongerPolled(env, s, start, end, n, captured);
  }

  lemma OneMorePolled<T, S>(env: Env<T, S>, s: S, start: nat, j: nat, st: State<T, S>)
    requires st == After(env, s, start, j) && st.Polling? && PollsAt(env, st, j, st.cursor) && start <= st.cursor
    requires Polled(env, s, start, st.cursor, j, st.captured)
    ensures Polled(env, s, start, st.cursor + 1, j + 1, env.poll(st.captured, st.cursor).0)
  {
    hide PollsAt;
    var js: seq<nat> :| PolledAt(env, s, start, st.cursor, j, js);
    assert PolledAt(env, s, start, st.cursor + 1, j + 1, js + [j]);
  }

  lemma TurnSearches<T, S>(env: Env<T, S>, s: S, start: nat, j: nat)
    requires start <= env.max < UINT64 && After(env, s, start, j).Polling?
    requires Searched(env, s, start, j, After(env, s, start, j)) && !Wraps(env, After(env, s, start, j), j)
    ensures Searched(env, s, start, j + 1, After(env, s, start, j + 1))
  {
    hide AllFail, Polled;
    var st := After(env, s, start, j);
    assert After(env, s, start, j + 1) == Step(env, st, j);
    LongerPolled(env, s, start, st.cursor, j, st.captured);
    assert Answer(env, s, start, st.cursor) == env.poll(st.captured, st.cursor).1 by { Same(env, s, start, j, st); }
    match env.reports(j) {
      case Err(e) =>
      case Ok(height) =>
        if st.cursor <= height {
          OneMorePolled(env, s, start, j, st);
          if Answer(env, s, start, st.cursor).Err? { OneMoreFails(env, s, start, st.cursor); }
        }
    }
  }

  lemma Same<T, S>(env: Env<T, S>, s: S, start: nat, n: nat, st: State<T, S>)
    requires st.Polling? && Searched(env, s, start, n, st)
    ensures Answer(env, s, start, st.cursor) == env.poll(st.captured, st.cursor).1
  {
  }

  lemma OneMoreFails<T, S>(env: Env<T, S>, s: S, start: nat, h: nat)
    requires AllFail(env, s, start, h) && Answer(env, s, start, h).Err?
    ensures AllFail(env, s, start, h + 1)
  {
  }

  lemma {:induction false} StaysStopped<T, S>(env: Env<T, S>, s: S, start: nat, n: nat, m: nat)
    requires n <= m && !After(env, s, start, n).Polling?
    ensures After(env, s, start, m) == After(env, s, start, n)
  {
    if n == m {
    } else {
      StaysStopped(env, s, start, n, m - 1);
    }
  }

  /** Below the largest last height the cursor never wraps. */
  lemma {:induction false} NeverWraps<T, S>(env: Env<T, S>, s: S, start: nat, n: nat)
    requires start <= env.max < UINT64 - 1
    ensures !Wrapped(env, s, start, n)
  {
    hide Polled, AllFail, Step;
    if n == 0 {
    } else {
      NeverWraps(env, s, start, n - 1);
      SearchedAfter(env, s, start, n - 1);
    }
  }

  /** When it has wrapped, every height of the range has failed. */
  lemma {:induction false} WrappedFails<T, S>(env: Env<T, S>, s: S, start: nat, n: nat)
    requires start <= env.max == UINT64 - 1 && Wrapped(env, s, start, n)
    ensures AllFail(env, s, start, env.max + 1)
  {
    hide AllFail, Polled;
    var m :| 0 <= m < n && Wraps(env, After(env, s, start, m), m);
    if Wrapped(env, s, start, m) {
      WrappedFails(env, s, start, m);
    } else {
      SearchedAfter(env, s, start, m);
      Same(env, s, start, m, After(env, s, start, m));
      OneMoreFails(env, s, start, env.max);
    }
  }

  /** The loop is left after n turns, in which CurrentHeight was called n times. */
  ghost predicate EndsAt<T, S>(env: Env<T, S>, s: S, start: nat, n: nat)
  {
    n > 0 && After(env, s, start, n - 1).Polling? && !After(env, s, start, n).Polling?
  }

  /** None is the panic on an empty range. The loop is run for every chain and closure on which
      it ends; StopsIff and FailingStopsIff say which these are. LargestRangeIff says when the
      cursor has wrapped. */
  method DoPoll<T(!new), S(!new)>(env: Env<T, S>, s: S, start: nat) returns (out: Option<State<T, S>>, ghost n: nat)
    requires start < UINT64 && env.max < UINT64
    requires start <= env.max ==> Stops(env, s, start)
    ensures out == None <==> env.max < start
    ensures out.Some? ==> out.value == After(env, s, start, n) && EndsAt(env, s, start, n)
    ensures out.Some? && !Wrapped(env, s, start, n) ==> Searched(env, s, start, n, out.value)
    ensures out.Some? && Wrapped(env, s, start, n) ==> env.max == UINT64 - 1 && AllFail(env, s, start, env.max + 1)
  {
    hide Searched, AllFail, Wrapped;
    if env.max < start { return None, 0; }
    ghost var last: nat :| !After(env, s, start, last).Polling?;
    var cursor: nat, captured, pollErr, calls := start, s, "", 0;
    while cursor <= env.max
      invariant After(env, s, start, calls) ==
                if cursor <= env.max then Polling(cursor, captured) else Failed(pollErr, captured)
      invariant calls <= last && (calls == 0 || After(env, s, start, calls - 1).Polling?)
      decreases last - calls
    {
      assert After(env, s, start, calls + 1) == Step(env, Polling(cursor, captured), calls);
      var report := env.reports(calls);
      calls := calls + 1;
      if report.Err? {
        EndsSearched(env, s, start, calls);
        return Some(Failed(report.error, captured)), calls;
      }
      if cursor > report.value { continue; }
      var (next, answer) := env.poll(captured, cursor);
      captured := next;
      if answer.Err? {
        pollErr := answer.error;
        cursor := (cursor + 1) % UINT64;
        continue;
      }
      EndsSearched(env, s, start, calls);
      return Some(Found(cursor, answer.value, captured)), calls;
    }
    EndsSearched(env, s, start, calls);
    return Some(Failed(pollErr, captured)), calls;
  }

  lemma EndsSearched<T, S>(env: Env<T, S>, s: S, start: nat, n: nat)
    requires start <= env.max < UINT64
    ensures !Wrapped(env, s, start, n) ==> Searched(env, s, start, n, After(env, s, start, n))
    ensures Wrapped(env, s, start, n) ==> env.max == UINT64 - 1 && AllFail(env, s, start, env.max + 1)
  {
    hide Searched, AllFail, Wrapped;
    if env.max < UINT64 - 1 { NeverWraps(env, s, start, n); }
    if Wrapped(env, s, start, n) { WrappedFails(env, s, start, n); } else { SearchedAfter(env, s, start, n); }
  }

  /** A closure that notes the heights it is called for, and answers by the height alone. */
  ghost predicate Notes<T(!new)>(env: Env<T, seq<nat>>, answers: nat -> Result<T>)
  {
    forall noted, h: nat :: env.poll(noted, h) == (noted + [h], answers(h))
  }

  /** The heights noted are start, start + 1, ..., and all of them failed. */
  ghost predicate Noted<T>(answers: nat -> Result<T>, start: nat, noted: seq<nat>)
  {
    forall i :: 0 <= i < |noted| ==> noted[i] == start + i && answers(start + i).Err?
  }

  ghost predicate NotesWell<T>(env: Env<T, seq<nat>>, answers: nat -> Result<T>, start: nat, n: nat,
                               st: State<T, seq<nat>>)
  {
    match st
    case Polling(c, noted) => c == start + |noted| <= env.max && Noted(answers, start, noted)
    case Found(h, v, noted) =>
      && h == start + |noted| - 1 <= env.max && noted != [] && noted[|noted| - 1] == h
      && answers(h) == Ok(v) && Noted(answers, start, noted[..|noted| - 1])
    case Failed(e, noted) =>
      && Noted(answers, start, noted) && start + |noted| <= env.max + 1
      && ((exists j :: 0 <= j < n && env.reports(j) == Err(e))
          || (start + |noted| == env.max + 1 && answers(env.max) == Err(e)))
  }

  /** What a run does, seen by such a closure: it notes start, start + 1, ... in order, each once.
      It finds the value at the least height that succeeds; it fails with a report, or when all of
      the range has failed with the answer at the last height. */
  lemma NotedHeights<T(!new)>(env: Env<T, seq<nat>>, answers: nat -> Result<T>, start: nat, n: nat)
    requires start <= env.max < UINT64 - 1 && Notes(env, answers)
    ensures var noted := After(env, [], start, n).captured;
            && start + |noted| <= env.max + 1
            && (forall i :: 0 <= i < |noted| ==> noted[i] == start + i)
            && (forall i :: 0 <= i < |noted| - 1 ==> answers(noted[i]).Err?)
    ensures match After(env, [], start, n)
            case Polling(c, noted) =>
              c == start + |noted| && (noted != [] ==> answers(noted[|noted| - 1]).Err?)
            case Found(h, v, noted) =>
              noted != [] && noted[|noted| - 1] == h && answers(h) == Ok(v)
            case Failed(e, noted) =>
              (exists j :: 0 <= j < n && env.reports(j) == Err(e))
              || (start + |noted| == env.max + 1 && answers(env.max) == Err(e))
  {
    NotesHeights(env, answers, start, n);
    var noted := After(env, [], start, n).captured;
    if |noted| > 0 {
      forall i | 0 <= i < |noted| - 1 ensures noted[i] == start + i && answers(noted[i]).Err? {
        assert noted[..|noted| - 1][i] == noted[i];
      }
    }
  }

  lemma {:induction false} NotesHeights<T(!new)>(env: Env<T, seq<nat>>, answers: nat -> Result<T>, start: nat, n: nat)
    requires start <= env.max < UINT64 - 1 && Notes(env, answers)
    ensures NotesWell(env, answers, start, n, After(env, [], start, n))
  {
    if n == 0 {
    } else {
      hide NotesWell, Step;
      NotesHeights(env, answers, start, n - 1);
      TurnNotes(env, answers, start, n - 1, After(env, [], start, n - 1));
    }
  }

  lemma TurnNotes<T(!new)>(env: Env<T, seq<nat>>, answers: nat -> Result<T>, start: nat, j: nat,
                           st: State<T, seq<nat>>)
    requires start <= env.max < UINT64 - 1 && Notes(env, answers) && NotesWell(env, answers, start, j, st)
    ensures NotesWell(env, answers, start, j + 1, Step(env, st, j))
  {
    hide Noted;
    if st.Polling? {
      var noted, c := st.captured, st.cursor;
      assert env.poll(noted, c) == (noted + [c], answers(c));
      assert (noted + [c])[..|noted|] == noted;
      if answers(c).Err? { OneMoreNoted(answers, start, noted); }
    }
  }

  lemma OneMoreNoted<T>(answers: nat -> Result<T>, start: nat, noted: seq<nat>)
    requires Noted(answers, start, noted) && answers(start + |noted|).Err?
    ensures Noted(answers, start, noted + [start + |noted|])
  {
    var more := noted + [start + |noted|];
    forall i | 0 <= i < |more|
      ensures more[i] == start + i && answers(start + i).Err?
    {
      if i < |noted| { assert noted[i] == start + i; }
    }
  }

  // The largest last height.

  /** A report fails while the search is still in its range. */
  ghost predicate FailsFirst<T, S>(env: Env<T, S>, s: S, start: nat, n: nat)
  {
    exists j :: 0 <= j < n && InRangeFailure(env, s, start, j)
  }

  ghost predicate InRangeFailure<T, S>(env: Env<T, S>, s: S, start: nat, j: nat)
  {
    After(env, s, start, j).Polling? && env.reports(j).Err? && !Wrapped(env, s, start, j)
  }

  /** With the largest last height, a run that has ended is as for smaller ones, as DoPoll tells it,
      if and only if some height of the range succeeds or a report fails first. */
  lemma LargestRangeIff<T, S>(env: Env<T, S>, s: S, start: nat, n: nat)
    requires start <= env.max == UINT64 - 1 && !After(env, s, start, n).Polling?
    ensures !Wrapped(env, s, start, n) <==>
            (exists h :: start <= h <= env.max && Answer(env, s, start, h).Ok?) || FailsFirst(env, s, start, n)
  {
    hide Searched, Answer, Step;
    if Wrapped(env, s, start, n) {
      WrappedFails(env, s, start, n);
      if FailsFirst(env, s, start, n) {
        var j :| 0 <= j < n && InRangeFailure(env, s, start, j);
        EndsUnwrapped(env, s, start, n, j);
      }
    } else {
      var j := LastTurn(env, s, start, n);
      EndOfRange(env, s, start, n, j);
    }
  }

  /** On a chain whose reports never fail: if and only if some height of the range succeeds. */
  lemma LargestRangeWithoutFailure<T, S>(env: Env<T, S>, s: S, start: nat, n: nat)
    requires start <= env.max == UINT64 - 1 && !After(env, s, start, n).Polling?
    requires forall j: nat :: env.reports(j).Ok?
    ensures !Wrapped(env, s, start, n) <==> exists h :: start <= h <= env.max && Answer(env, s, start, h).Ok?
  {
    hide Wrapped, Answer;
    LargestRangeIff(env, s, start, n);
  }

  lemma EndsUnwrapped<T, S>(env: Env<T, S>, s: S, start: nat, n: nat, j: nat)
    requires j < n && InRangeFailure(env, s, start, j)
    ensures !Wrapped(env, s, start, n)
  {
    assert After(env, s, start, j + 1).Failed?;
    forall m | j < m < n ensures !After(env, s, start, m).Polling? { StaysStopped(env, s, start, j + 1, m); }
  }

  /** The turn at which the loop was left. */
  lemma {:induction false} LastTurn<T, S>(env: Env<T, S>, s: S, start: nat, n: nat) returns (j: nat)
    requires !After(env, s, start, n).Polling?
    ensures j < n && After(env, s, start, j).Polling? && After(env, s, start, n) == After(env, s, start, j + 1)
  {
    hide Step;
    if After(env, s, start, n - 1).Polling? {
      j := n - 1;
    } else {
      StaysStopped(env, s, start, n - 1, n);
      j := LastTurn(env, s, start, n - 1);
    }
  }

  lemma EndOfRange<T, S>(env: Env<T, S>, s: S, start: nat, n: nat, j: nat)
    requires start <= env.max == UINT64 - 1 && !Wrapped(env, s, start, n)
    requires j < n && After(env, s, start, j).Polling? && !After(env, s, start, j + 1).Polling?
    ensures (exists h :: start <= h <= env.max && Answer(env, s, start, h).Ok?) || FailsFirst(env, s, start, n)
  {
    SearchedAfter(env, s, start, j);
    Same(env, s, start, j, After(env, s, start, j));
    hide Polled, AllFail, Answer;
    if env.reports(j).Err? { assert InRangeFailure(env, s, start, j); }
  }

  /** At one input: the range is the largest height alone, which fails, and a value is returned
      from height 0. */
  lemma FoundBelowTheRange()
    ensures var poll := (c: int, h: nat) => (c, if h == 0 then Ok("block 0") else Err(NOT_FOUND));
            var env := Env((j: nat) => Ok(UINT64 - 1), poll, UINT64 - 1);
            After(env, 0, UINT64 - 1, 2) == Found(0, "block 0", 0)
  {
    var poll := (c: int, h: nat) => (c, if h == 0 then Ok("block 0") else Err(NOT_FOUND));
    var env := Env((j: nat) => Ok(UINT64 - 1), poll, UINT64 - 1);
    assert After(env, 0, UINT64 - 1, 1) == Polling(0, 0);
  }

  // When a run ends.

  /** From turn n on the chain answers, and never gets to the cursor. */
  ghost predicate Stuck<T(!new), S(!new)>(env: Env<T, S>, s: S, start: nat, n: nat)
  {
    var st := After(env, s, start, n);
    st.Polling? && forall j: nat :: j >= n ==> env.reports(j).Ok? && env.reports(j).value < st.cursor
  }

  lemma {:induction false} StaysStuck<T(!new), S(!new)>(env: Env<T, S>, s: S, start: nat, n: nat, m: nat)
    requires n <= m && Stuck(env, s, start, n)
    ensures After(env, s, start, m) == After(env, s, start, n)
  {
    if n == m {
    } else {
      StaysStuck(env, s, start, n, m - 1);
    }
  }

  lemma MovesOrWaits<T, S>(env: Env<T, S>, st: State<T, S>, j: nat)
    requires st.Polling? && st.cursor <= env.max < UINT64 - 1
    ensures var next := Step(env, st, j);
            || !next.Polling? || next.cursor > st.cursor
            || (next == st && env.reports(j).Ok? && env.reports(j).value < st.cursor)
  {
  }

  /** From a cursor that the chain reaches, the run ends or the cursor moves. */
  lemma {:induction false} Moves<T, S>(env: Env<T, S>, s: S, start: nat, n: nat, j: nat) returns (m: nat)
    requires start <= env.max < UINT64 - 1 && After(env, s, start, n).Polling? && n <= j
    requires env.reports(j).Err? || env.reports(j).value >= After(env, s, start, n).cursor
    ensures After(env, s, start, m).Polling? ==> After(env, s, start, m).cursor > After(env, s, start, n).cursor
    decreases j - n
  {
    hide Polled, AllFail, Step;
    InRange(env, s, start, n);
    MovesOrWaits(env, After(env, s, start, n), n);
    m := n + 1;
    if After(env, s, start, m).Polling? && After(env, s, start, m).cursor <= After(env, s, start, n).cursor {
      m := Moves(env, s, start, n + 1, j);
    }
  }

  lemma InRange<T, S>(env: Env<T, S>, s: S, start: nat, n: nat)
    requires start <= env.max < UINT64 - 1
    ensures var st := After(env, s, start, n);
            st.Polling? ==> start <= st.cursor <= env.max && AllFail(env, s, start, st.cursor)
  {
    hide Polled, AllFail;
    NeverWraps(env, s, start, n);
    SearchedAfter(env, s, start, n);
  }

  lemma {:induction false} Ends<T(!new), S(!new)>(env: Env<T, S>, s: S, start: nat, n: nat)
    requires start <= env.max < UINT64 - 1
    requires forall m: nat :: !Stuck(env, s, start, m)
    ensures Stops(env, s, start)
    decreases env.max + 1 - if After(env, s, start, n).Polling? then After(env, s, start, n).cursor else env.max + 1
  {
    hide AllFail;
    var st := After(env, s, start, n);
    InRange(env, s, start, n);
    if st.Polling? {
      assert !Stuck(env, s, start, n);
      var j: nat :| j >= n && (env.reports(j).Err? || env.reports(j).value >= st.cursor);
      var m := Moves(env, s, start, n, j);
      InRange(env, s, start, m);
      Ends(env, s, start, m);
    }
  }

  /** Below the largest last height, the loop goes on for ever if and only if it comes to a cursor
      that the chain, which keeps answering, never reaches from then on. */
  lemma StopsIff<T(!new), S(!new)>(env: Env<T, S>, s: S, start: nat)
    requires start <= env.max < UINT64 - 1
    ensures Stops(env, s, start) <==> !exists n: nat :: Stuck(env, s, start, n)
  {
    if n: nat :| Stuck(env, s, start, n) {
      forall m: nat ensures After(env, s, start, m).Polling? {
        if n <= m {
          StaysStuck(env, s, start, n, m);
        } else if !After(env, s, start, m).Polling? {
          StaysStopped(env, s, start, m, n);
        }
      }
    } else {
      Ends(env, s, start, 0);
    }
  }

  /** A chain never reports a height below one it reported earlier. */
  ghost predicate Growing<T, S>(env: Env<T, S>)
  {
    forall i, j :: 0 <= i <= j && env.reports(i).Ok? && env.reports(j).Ok? ==>
      env.reports(i).value <= env.reports(j).value
  }

  /** The chain answers for ever and never gets to h. */
  ghost predicate Stalls<T(!new), S(!new)>(env: Env<T, S>, h: nat)
  {
    forall j: nat :: env.reports(j).Ok? && env.reports(j).value < h
  }

  lemma {:induction false} ReportsWhilePolling<T, S>(env: Env<T, S>, s: S, start: nat, n: nat, j: nat)
    requires j < n && After(env, s, start, n).Polling?
    ensures env.reports(j).Ok?
  {
    if j == n - 1 {
    } else {
      ReportsWhilePolling(env, s, start, n - 1, j);
    }
  }

  lemma FailsAt<T, S>(env: Env<T, S>, s: S, start: nat, end: nat, h: nat)
    requires AllFail(env, s, start, end) && start <= h < end
    ensures Answer(env, s, start, h).Err?
  {
  }

  lemma WaitTurn<T(!new), S(!new)>(env: Env<T, S>, st: State<T, S>, h: nat, j: nat)
    requires h <= env.max < UINT64 - 1 && Stalls(env, h) && st.Polling? && st.cursor <= h
    requires st.cursor < h ==> env.poll(st.captured, st.cursor).1.Err?
    ensures Step(env, st, j).Polling? && st.cursor <= Step(env, st, j).cursor <= h
  {
    assert env.reports(j).Ok? && env.reports(j).value < h;
  }

  lemma {:induction false} WaitsBelow<T(!new), S(!new)>(env: Env<T, S>, s: S, start: nat, h: nat, n: nat)
    requires start <= h <= env.max < UINT64 - 1 && AllFail(env, s, start, h) && Stalls(env, h)
    ensures After(env, s, start, n).Polling? && start <= After(env, s, start, n).cursor <= h
  {
    hide AllFail, Polled, Answer, Stalls, Step;
    if n == 0 {
    } else {
      WaitsBelow(env, s, start, h, n - 1);
      var st := After(env, s, start, n - 1);
      NeverWraps(env, s, start, n - 1);
      SearchedAfter(env, s, start, n - 1);
      Same(env, s, start, n - 1, st);
      if st.cursor < h { FailsAt(env, s, start, h, st.cursor); }
      WaitTurn(env, st, h, n - 1);
    }
  }

  /** On a chain that only grows, which is known before the call: for ever if and only if the chain
      stalls below a height that is reached because every height before it failed. */
  lemma GrowingStopsIff<T(!new), S(!new)>(env: Env<T, S>, s: S, start: nat)
    requires start <= env.max < UINT64 - 1 && Growing(env)
    ensures Stops(env, s, start) <==>
            !exists h :: start <= h <= env.max && AllFail(env, s, start, h) && Stalls(env, h)
  {
    hide AllFail;
    if h :| start <= h <= env.max && AllFail(env, s, start, h) && Stalls(env, h) {
      forall n: nat ensures After(env, s, start, n).Polling? { WaitsBelow(env, s, start, h, n); }
    } else {
      forall n: nat ensures !Stuck(env, s, start, n) { NotStuck(env, s, start, n); }
      Ends(env, s, start, 0);
    }
  }

  lemma NotStuck<T(!new), S(!new)>(env: Env<T, S>, s: S, start: nat, n: nat)
    requires start <= env.max < UINT64 - 1 && Growing(env)
    requires forall h :: start <= h <= env.max && AllFail(env, s, start, h) ==> !Stalls(env, h)
    ensures !Stuck(env, s, start, n)
  {
    hide AllFail;
    var st := After(env, s, start, n);
    InRange(env, s, start, n);
    if Stuck(env, s, start, n) {
      forall j: nat ensures env.reports(j).Ok? && env.reports(j).value < st.cursor {
        if j < n {
          ReportsWhilePolling(env, s, start, n, j);
          assert env.reports(n).Ok?;
        }
      }
    }
  }

  /** The chain keeps coming to a height. */
  ghost predicate KeepsReaching<T(!new), S(!new)>(env: Env<T, S>, h: nat)
  {
    forall n: nat :: ReachesAfter(env, h, n)
  }

  ghost predicate ReachesAfter<T, S>(env: Env<T, S>, h: nat, n: nat)
  {
    exists j: nat :: j >= n && env.reports(j).Ok? && env.reports(j).value >= h
  }

  /** With the largest last height the cursor wraps, and a search that fails everywhere has no end.
      For any smaller last height it does end. */
  lemma FailingStopsIff<T(!new), S(!new)>(env: Env<T, S>, s: S, start: nat)
    requires start <= env.max < UINT64 && KeepsReaching(env, env.max)
    requires forall c, h :: env.poll(c, h).1.Err?
    requires forall j: nat :: env.reports(j).Ok?
    ensures Stops(env, s, start) <==> env.max < UINT64 - 1
  {
    if env.max < UINT64 - 1 {
      forall n: nat ensures !Stuck(env, s, start, n) {
        InRange(env, s, start, n);
        assert ReachesAfter(env, env.max, n);
      }
      Ends(env, s, start, 0);
    } else {
      forall n: nat ensures After(env, s, start, n).Polling? { WrapsAround(env, s, start, n); }
    }
  }

  lemma {:induction false} WrapsAround<T(!new), S(!new)>(env: Env<T, S>, s: S, start: nat, n: nat)
    requires start <= env.max == UINT64 - 1
    requires forall c, h :: env.poll(c, h).1.Err?
    requires forall j: nat :: env.reports(j).Ok?
    ensures After(env, s, start, n).Polling? && After(env, s, start, n).cursor <= env.max
  {
    if n == 0 {
    } else {
      WrapsAround(env, s, start, n - 1);
    }
  }

  // PollForAck and PollForTimeout: the same closure over two kinds of packet records.

  /** The Packet of an acknowledgement or a timeout, and the rest of it. */
  datatype Item<P, R> = Item(packet: P, rest: R)

  /** The items of a list up to and with the first one for the packet. */
  function UpTo<P(==), R>(items: seq<Item<P, R>>, packet: P): (r: seq<Item<P, R>>)
  {
    if items == [] then [] else if items[0].packet == packet then [items[0]] else [items[0]] + UpTo(items[1..], packet)
  }

  ghost predicate Lacks<P, R>(items: seq<Item<P, R>>, packet: P)
  {
    forall k :: 0 <= k < |items| ==> items[k].packet != packet
  }

  /** The closure: it captures the items it has looked at. */
  function Look<P(==), R>(lists: nat -> Result<seq<Item<P, R>>>, packet: P, searched: seq<Item<P, R>>, h: nat)
    : (seq<Item<P, R>>, Result<Item<P, R>>)
  {
    match lists(h)
    case Err(e) => (searched, Err(e))
    case Ok(items) =>
      var seen := UpTo(items, packet);
      (searched + seen,
       if seen != [] && seen[|seen| - 1].packet == packet then Ok(seen[|seen| - 1]) else Err(NOT_FOUND))
  }

  /** The same, by the loop over the list. */
  method LookAt<P(==), R>(lists: nat -> Result<seq<Item<P, R>>>, packet: P, searched: seq<Item<P, R>>, h: nat)
    returns (captured: seq<Item<P, R>>, answer: Result<Item<P, R>>)
    ensures (captured, answer) == Look(lists, packet, searched, h)
  {
    var list := lists(h);
    if list.Err? { return searched, Err(list.error); }
    captured := searched;
    for k := 0 to |list.value|
      invariant Lacks(list.value[..k], packet) && captured == searched + list.value[..k]
    {
      assert list.value[..k + 1] == list.value[..k] + [list.value[k]];
      captured := captured + [list.value[k]];
      if list.value[k].packet == packet {
        UpToFirst(list.value, packet, k);
        assert captured == searched + list.value[..k + 1];
        return captured, Ok(list.value[k]);
      }
    }
    assert list.value[..|list.value|] == list.value;
    UpToFirst(list.value, packet, |list.value|);
    return captured, Err(NOT_FOUND);
  }

  lemma {:induction false} UpToFirst<P, R>(items: seq<Item<P, R>>, packet: P, k: nat)
    requires k <= |items| && Lacks(items[..k], packet)
    requires k < |items| ==> items[k].packet == packet
    ensures UpTo(items, packet) == items[..if k < |items| then k + 1 else k]
  {
    if k == 0 {
    } else {
      assert items[0].packet == items[..k][0].packet;
      assert items[1..][..k - 1] == items[..k][1..];
      UpToFirst(items[1..], packet, k - 1);
    }
  }

  /** Where the first item for the packet is, or the length of a list without one. */
  function FirstOf<P(==), R>(items: seq<Item<P, R>>, packet: P): (k: nat)
    ensures k <= |items| && Lacks(items[..k], packet)
    ensures k < |items| ==> items[k].packet == packet
  {
    if items == [] || items[0].packet == packet then 0
    else
      var k := FirstOf(items[1..], packet);
      assert items[..k + 1] == [items[0]] + items[1..][..k];
      k + 1
  }

  ghost predicate Holds<P, R>(list: Result<seq<Item<P, R>>>, packet: P)
  {
    list.Ok? && exists k :: 0 <= k < |list.value| && list.value[k].packet == packet
  }

  /** A look succeeds if and only if the height lists the packet, and then with its first item; it
      fails with the chain's own error, or with "not found" after it has searched the whole list. */
  lemma LookFinds<P, R>(lists: nat -> Result<seq<Item<P, R>>>, packet: P, searched: seq<Item<P, R>>, h: nat)
    ensures var (captured, answer) := Look(lists, packet, searched, h);
            && (answer.Ok? <==> Holds(lists(h), packet))
            && (answer.Ok? ==>
                 var k := FirstOf(lists(h).value, packet);
                 k < |lists(h).value| && answer.value == lists(h).value[k]
                 && captured == searched + lists(h).value[..k + 1])
            && (answer.Err? ==>
                 captured == searched + Listed(lists(h))
                 && answer.error == if lists(h).Err? then lists(h).error else NOT_FOUND)
  {
    if lists(h).Ok? {
      var items := lists(h).value;
      var k := FirstOf(items, packet);
      UpToFirst(items, packet, k);
      if k == |items| {
        assert items[..k] == items;
        assert items != [] ==> items[..k][k - 1] == items[k - 1];
      }
    }
  }

  function Listed<A>(list: Result<seq<A>>): (r: seq<A>)
    ensures list.Ok? ==> r == list.value
    ensures list.Err? ==> r == []
  {
    if list.Ok? then list.value else []
  }

  /** All that the chain lists at from, ..., to - 1. */
  function AllListed<A>(lists: nat -> Result<seq<A>>, from: nat, to: nat): seq<A>
  {
    if to <= from then [] else AllListed(lists, from, to - 1) + Listed(lists(to - 1))
  }

  function PacketEnv<P(==), R>(reports: nat -> Result<nat>, lists: nat -> Result<seq<Item<P, R>>>, packet: P, max: nat)
    : Env<Item<P, R>, seq<Item<P, R>>>
  {
    Env(reports, (searched, h) => Look(lists, packet, searched, h), max)
  }

  lemma {:induction false} AnswersHere<P, R>(reports: nat -> Result<nat>, lists: nat -> Result<seq<Item<P, R>>>,
                                             packet: P, max: nat, start: nat, h: nat)
    requires start <= h
    ensures Answer(PacketEnv(reports, lists, packet, max), [], start, h).Ok? <==> Holds(lists(h), packet)
  {
    var env := PacketEnv(reports, lists, packet, max);
    LookFinds(lists, packet, Captured(env, [], start, h), h);
  }

  lemma {:induction false} CapturesListed<P, R>(reports: nat -> Result<nat>, lists: nat -> Result<seq<Item<P, R>>>,
                                                packet: P, max: nat, start: nat, end: nat)
    requires forall h :: start <= h < end ==> !Holds(lists(h), packet)
    ensures Captured(PacketEnv(reports, lists, packet, max), [], start, end) == AllListed(lists, start, end)
  {
    hide Look, Holds, Listed;
    if end <= start {
    } else {
      CapturesListed(reports, lists, packet, max, start, end - 1);
      LookListed(lists, packet, AllListed(lists, start, end - 1), end - 1);
    }
  }

  lemma LookListed<P, R>(lists: nat -> Result<seq<Item<P, R>>>, packet: P, searched: seq<Item<P, R>>, h: nat)
    requires !Holds(lists(h), packet)
    ensures Look(lists, packet, searched, h).0 == searched + Listed(lists(h))
  {
    hide Look, Holds, Listed;
    LookFinds(lists, packet, searched, h);
  }

  /** The first item for the packet, at the least height that lists it. */
  ghost predicate IsEarliest<P, R>(lists: nat -> Result<seq<Item<P, R>>>, packet: P, start: nat, h: nat,
                                   item: Item<P, R>)
  {
    && start <= h && Holds(lists(h), packet)
    && (forall g :: start <= g < h ==> !Holds(lists(g), packet))
    && (var k := FirstOf(lists(h).value, packet); k < |lists(h).value| && item == lists(h).value[k])
  }

  /** What n turns with this outcome have found and searched. An item is the earliest one for the
      packet. An error comes with every item listed at the heights polled, in order, none of which
      has the packet; if it is not a report that failed at one of the turns, the whole range has
      been searched. */
  ghost predicate Explained<P, R>(reports: nat -> Result<nat>, lists: nat -> Result<seq<Item<P, R>>>, start: nat,
                                  max: nat, packet: P, n: nat, found: Result<Item<P, R>>,
                                  searched: seq<Item<P, R>>)
  {
    var env := PacketEnv(reports, lists, packet, max);
    match found
    case Ok(item) =>
      exists h: nat :: h <= max && IsEarliest(lists, packet, start, h, item)
        && Polled(env, [], start, h + 1, n, searched)
    case Err(e) =>
      exists end :: start <= end <= max + 1 && searched == AllListed(lists, start, end)
        && Polled(env, [], start, end, n, searched)
        && (forall h :: start <= h < end ==> !Holds(lists(h), packet))
        && ((exists j :: 0 <= j < n && reports(j) == Err(e))
            || (end == max + 1 && e == if lists(max).Err? then lists(max).error else NOT_FOUND))
  }

  /** A packet's item is found at the least height, and in its list at the least place, that has it. */
  lemma FoundMeans<P, R>(reports: nat -> Result<nat>, lists: nat -> Result<seq<Item<P, R>>>, start: nat, max: nat,
                         packet: P, n: nat, item: Item<P, R>, searched: seq<Item<P, R>>)
      returns (h: nat, k: nat)
    requires Explained(reports, lists, start, max, packet, n, Ok(item), searched)
    ensures start <= h <= max && lists(h).Ok? && k < |lists(h).value|
    ensures lists(h).value[k] == item && item.packet == packet
    ensures forall j :: 0 <= j < k ==> lists(h).value[j].packet != packet
    ensures forall g :: start <= g < h && lists(g).Ok? ==>
              forall j :: 0 <= j < |lists(g).value| ==> lists(g).value[j].packet != packet
  {
    hide Polled;
    h :| h <= max && IsEarliest(lists, packet, start, h, item)
      && Polled(PacketEnv(reports, lists, packet, max), [], start, h + 1, n, searched);
    k := FirstOf(lists(h).value, packet);
    forall j | 0 <= j < k ensures lists(h).value[j].packet != packet {
      assert lists(h).value[..k][j].packet != packet;
    }
  }

  /** An error without a failed report means that no height of the range lists the packet; every
      item listed there has been searched, and the error is the last height's. */
  lemma ErrorMeans<P, R>(reports: nat -> Result<nat>, lists: nat -> Result<seq<Item<P, R>>>, start: nat, max: nat,
                         packet: P, n: nat, e: string, searched: seq<Item<P, R>>)
    requires Explained(reports, lists, start, max, packet, n, Err(e), searched)
    requires forall j :: 0 <= j < n ==> reports(j).Ok?
    ensures forall h :: start <= h <= max && lists(h).Ok? ==>
              forall j :: 0 <= j < |lists(h).value| ==>
                lists(h).value[j].packet != packet && lists(h).value[j] in searched
    ensures forall x :: x in searched ==> exists h :: start <= h <= max && lists(h).Ok? && x in lists(h).value
    ensures e == if lists(max).Err? then lists(max).error else "not found"
  {
    hide Polled, AllListed, Listed;
    assert searched == AllListed(lists, start, max + 1);
    forall x
      ensures x in searched <==> exists h :: start <= h < max + 1 && x in Listed(lists(h))
    {
      ListedAt(lists, start, max + 1, x);
    }
    forall h | start <= h <= max && lists(h).Ok?
      ensures forall x :: x in lists(h).value ==> x in searched
    {
      assert Listed(lists(h)) == lists(h).value;
    }
  }

  lemma {:induction false} ListedAt<A>(lists: nat -> Result<seq<A>>, from: nat, to: nat, x: A)
    ensures x in AllListed(lists, from, to) <==> exists h :: from <= h < to && x in Listed(lists(h))
  {
    if to <= from {
    } else {
      ListedAt(lists, from, to - 1, x);
    }
  }

  /** What the closure has captured after the range and then all heights k times over. */
  function Laps<A>(lists: nat -> Result<seq<A>>, start: nat, k: nat): seq<A>
  {
    if k == 0 then AllListed(lists, start, UINT64) else Laps(lists, start, k - 1) + AllListed(lists, 0, UINT64)
  }

  ghost predicate AroundAt<P, R>(lists: nat -> Result<seq<Item<P, R>>>, start: nat, packet: P, c: nat, k: nat,
                                 searched: seq<Item<P, R>>)
  {
    && c < UINT64 && searched == Laps(lists, start, k) + AllListed(lists, 0, c)
    && forall h :: 0 <= h < c ==> !Holds(lists(h), packet)
  }

  /** With the largest last height only: no height of the range has the packet, and the search has
      gone on from height 0. An item is the first one there, below the range; an error is a
      failure to report the height. */
  ghost predicate ExplainedAround<P, R>(reports: nat -> Result<nat>, lists: nat -> Result<seq<Item<P, R>>>,
                                        start: nat, packet: P, n: nat, found: Result<Item<P, R>>,
                                        searched: seq<Item<P, R>>)
  {
    && (forall h :: start <= h < UINT64 ==> !Holds(lists(h), packet))
    && match found
       case Ok(item) => exists h: nat :: h < start && IsEarliest(lists, packet, 0, h, item)
       case Err(e) => (exists j :: 0 <= j < n && reports(j) == Err(e))
                      && exists c: nat, k: nat :: AroundAt(lists, start, packet, c, k, searched)
  }

  /** PollForAck, and with another R PollForTimeout. None is the panic on an empty range. */
  method PollForPacket<P(==, !new), R(!new)>(reports: nat -> Result<nat>, lists: nat -> Result<seq<Item<P, R>>>,
                                             start: nat, max: nat, packet: P)
    returns (found: Option<Result<Item<P, R>>>, searched: seq<Item<P, R>>, ghost n: nat)
    requires start < UINT64 && max < UINT64
    requires start <= max ==> Stops(PacketEnv(reports, lists, packet, max), [], start)
    ensures found == None <==> max < start
    ensures found.Some? ==>
              var env := PacketEnv(reports, lists, packet, max);
              && EndsAt(env, [], start, n) && found.value == Outcome(After(env, [], start, n))
              && searched == After(env, [], start, n).captured
              && if !Wrapped(env, [], start, n)
                 then Explained(reports, lists, start, max, packet, n, found.value, searched)
                 else max == UINT64 - 1
                      && ExplainedAround(reports, lists, start, packet, n, found.value, searched)
  {
    hide Searched, Explained, ExplainedAround;
    var env := PacketEnv(reports, lists, packet, max);
    var out;
    out, n := DoPoll(env, [], start);
    if out == None { return None, [], n; }
    if Wrapped(env, [], start, n) {
      AroundExplained(reports, lists, start, packet, n);
    } else {
      EndExplained(reports, lists, start, max, packet, n, out.value);
    }
    searched := out.value.captured;
    found := Some(Outcome(out.value));
  }

  /** Where a wrapped run stands. */
  ghost predicate Around<P, R>(reports: nat -> Result<nat>, lists: nat -> Result<seq<Item<P, R>>>, start: nat,
                               packet: P, n: nat, st: State<Item<P, R>, seq<Item<P, R>>>)
  {
    match st
    case Polling(c, searched) => exists k: nat :: AroundAt(lists, start, packet, c, k, searched)
    case Found(h, item, _) => h < UINT64 && IsEarliest(lists, packet, 0, h, item)
    case Failed(e, searched) => (exists j :: 0 <= j < n && reports(j) == Err(e))
                                && exists c: nat, k: nat :: AroundAt(lists, start, packet, c, k, searched)
  }

  lemma {:induction false} GoesAround<P, R>(reports: nat -> Result<nat>, lists: nat -> Result<seq<Item<P, R>>>,
                                            start: nat, packet: P, n: nat)
    requires start < UINT64 && forall h :: start <= h < UINT64 ==> !Holds(lists(h), packet)
    requires Wrapped(PacketEnv(reports, lists, packet, UINT64 - 1), [], start, n)
    ensures Around(reports, lists, start, packet, n,
                   After(PacketEnv(reports, lists, packet, UINT64 - 1), [], start, n))
  {
    hide AroundAt, IsEarliest, Step, Wraps;
    var env := PacketEnv(reports, lists, packet, UINT64 - 1);
    var st := After(env, [], start, n - 1);
    if Wrapped(env, [], start, n - 1) {
      GoesAround(reports, lists, start, packet, n - 1);
      if st.Polling? {
        AroundTurn(reports, lists, start, packet, st, n - 1);
      } else {
        StaysStopped(env, [], start, n - 1, n);
      }
    } else {
      FirstWrap(reports, lists, start, packet, n - 1);
    }
  }

  lemma FirstWrap<P, R>(reports: nat -> Result<nat>, lists: nat -> Result<seq<Item<P, R>>>, start: nat,
                        packet: P, j: nat)
    requires start < UINT64 && forall h :: start <= h < UINT64 ==> !Holds(lists(h), packet)
    requires var env := PacketEnv(reports, lists, packet, UINT64 - 1);
             !Wrapped(env, [], start, j) && Wraps(env, After(env, [], start, j), j)
    ensures Around(reports, lists, start, packet, j + 1,
                   After(PacketEnv(reports, lists, packet, UINT64 - 1), [], start, j + 1))
  {
    hide Look, Listed, Holds;
    var env := PacketEnv(reports, lists, packet, UINT64 - 1);
    var st := After(env, [], start, j);
    SearchedAfter(env, [], start, j);
    assert st.captured == Captured(env, [], start, UINT64 - 1);
    CapturesListed(reports, lists, packet, UINT64 - 1, start, UINT64 - 1);
    LookListed(lists, packet, st.captured, UINT64 - 1);
    assert AroundAt(lists, start, packet, 0, 0, AllListed(lists, start, UINT64));
  }

  lemma AroundTurn<P, R>(reports: nat -> Result<nat>, lists: nat -> Result<seq<Item<P, R>>>, start: nat,
                         packet: P, st: State<Item<P, R>, seq<Item<P, R>>>, j: nat)
    requires st.Polling? && Around(reports, lists, start, packet, j, st)
    ensures Around(reports, lists, start, packet, j + 1, Step(PacketEnv(reports, lists, packet, UINT64 - 1), st, j))
  {
    hide Look, Listed, Holds, Laps, AllListed;
    var k: nat :| AroundAt(lists, start, packet, st.cursor, k, st.captured);
    LookFinds(lists, packet, st.captured, st.cursor);
    if reports(j).Ok? && st.cursor <= reports(j).value && !Holds(lists(st.cursor), packet) {
      var last := st.cursor == UINT64 - 1;
      OneHeightFurther(lists, start, packet, st.cursor, k, st.captured);
      assert AroundAt(lists, start, packet, if last then 0 else st.cursor + 1, if last then k + 1 else k,
                      Look(lists, packet, st.captured, st.cursor).0);
    }
  }

  lemma OneHeightFurther<P, R>(lists: nat -> Result<seq<Item<P, R>>>, start: nat, packet: P, c: nat, k: nat,
                               searched: seq<Item<P, R>>)
    requires AroundAt(lists, start, packet, c, k, searched) && !Holds(lists(c), packet)
    ensures c < UINT64 - 1 ==> AroundAt(lists, start, packet, c + 1, k, searched + Listed(lists(c)))
    ensures c == UINT64 - 1 ==> AroundAt(lists, start, packet, 0, k + 1, searched + Listed(lists(c)))
  {
    hide Holds, Listed, AllListed, Laps;
    var before, here := AllListed(lists, 0, c), Listed(lists(c));
    OneMoreListed(lists, c);
    assert Laps(lists, start, k) + before + here == Laps(lists, start, k) + (before + here);
    if c == UINT64 - 1 {
      NextLap(lists, start, k);
      assert AllListed(lists, 0, 0) == [] by { NoneListed(lists); }
    }
  }

  lemma OneMoreListed<A>(lists: nat -> Result<seq<A>>, c: nat)
    ensures AllListed(lists, 0, c + 1) == AllListed(lists, 0, c) + Listed(lists(c))
  {
  }

  lemma NoneListed<A>(lists: nat -> Result<seq<A>>)
    ensures AllListed(lists, 0, 0) == []
  {
  }

  lemma NextLap<A>(lists: nat -> Result<seq<A>>, start: nat, k: nat)
    ensures Laps(lists, start, k + 1) == Laps(lists, start, k) + AllListed(lists, 0, UINT64)
  {
    hide AllListed;
  }

  lemma AroundExplained<P, R>(reports: nat -> Result<nat>, lists: nat -> Result<seq<Item<P, R>>>, start: nat,
                              packet: P, n: nat)
    requires start < UINT64
    requires var env := PacketEnv(reports, lists, packet, UINT64 - 1);
             Wrapped(env, [], start, n) && !After(env, [], start, n).Polling?
    ensures var st := After(PacketEnv(reports, lists, packet, UINT64 - 1), [], start, n);
            ExplainedAround(reports, lists, start, packet, n, Outcome(st), st.captured)
  {
    hide Look, Listed, Holds, Laps, AllListed, Wrapped, Step, After;
    var env := PacketEnv(reports, lists, packet, UINT64 - 1);
    WrappedFails(env, [], start, n);
    forall h | start <= h < UINT64 ensures !Holds(lists(h), packet) {
      assert Answer(env, [], start, h).Err?;
      AnswersHere(reports, lists, packet, UINT64 - 1, start, h);
    }
    GoesAround(reports, lists, start, packet, n);
  }

  function Outcome<T, S>(st: State<T, S>): Result<T>
    requires !st.Polling?
  {
    if st.Found? then Ok(st.value) else Err(st.error)
  }

  lemma EndExplained<P, R>(reports: nat -> Result<nat>, lists: nat -> Result<seq<Item<P, R>>>, start: nat,
                           max: nat, packet: P, n: nat, st: State<Item<P, R>, seq<Item<P, R>>>)
    requires start <= max && !st.Polling?
    requires Searched(PacketEnv(reports, lists, packet, max), [], start, n, st)
    ensures Explained(reports, lists, start, max, packet, n, Outcome(st), st.captured)
  {
    hide PolledAt, Look, Listed, AllListed;
    var env := PacketEnv(reports, lists, packet, max);
    forall h | start <= h ensures Answer(env, [], start, h).Ok? <==> Holds(lists(h), packet) {
      AnswersHere(reports, lists, packet, max, start, h);
    }
    match st {
      case Found(h, item, _) =>
        LookFinds(lists, packet, Captured(env, [], start, h), h);
        assert IsEarliest(lists, packet, start, h, item);
      case Failed(e, captured) =>
        var end :| start <= end <= max + 1
          && Polled(env, [], start, end, n, captured) && AllFail(env, [], start, end)
          && ((exists j :: 0 <= j < n && env.reports(j) == Err(e))
              || (end == max + 1 && Answer(env, [], start, max) == Err(e)));
        CapturesListed(reports, lists, packet, max, start, end);
        LookFinds(lists, packet, Captured(env, [], start, max), max);
    }
  }
}
