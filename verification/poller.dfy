/** The desktop agent's file watch (`desktop_agent.py`, its `__main__`
    loop): every two seconds look at the command file, and when its
    modification time is strictly newer than the last one acted on, read
    it, play the stripped content if it is not empty, and remember the new
    time. Modification times are compared only with `>`, so they are
    integers here; `play_media` is recorded, not run. */
module Poller {
  import opened Wrappers
  import opened PyStr

  const POLL_SECONDS: nat := 2
  const ERROR_SECONDS: nat := 5

  /** How `open(...).read()` went, when it was reached. */
  datatype ReadResult = Content(text: string) | ReadNotFound | ReadFailed

  /** One look at the command file: not there; gone between
      `os.path.exists` and `os.path.getmtime` (FileNotFoundError); `getmtime`
      raising something else; or there with a modification time and the
      result of reading it (only used when the time is newer). */
  datatype Observation = Absent | StatNotFound | StatFailed | Present(mtime: int, read: ReadResult)

  /** The look at the file before the loop starts: not there; there with a
      modification time; or `getmtime` raising (the file vanished after
      `os.path.exists`, or any other error). */
  datatype Startup = StartAbsent | StartPresent(mtime: int) | StartStatRaised

  /** `last_command_time` before the loop: the file's time if it exists,
      otherwise 0. At startup `getmtime` is outside any `try`, so any
      exception it raises stops the agent (None). */
  function InitialLast(s: Startup): (r: Option<int>)
    ensures r.None? <==> s.StartStatRaised?
    ensures s.StartAbsent? ==> r == Some(0)
    ensures s.StartPresent? ==> r == Some(s.mtime)
  {
    match s
    case StartAbsent => Some(0)
    case StartPresent(mtime) => Some(mtime)
    case StartStatRaised => None
  }

  /** The outcome of one pass: the new `last_command_time`, the path handed
      to `play_media` if any, and the sleep that follows. */
  datatype Poll = Poll(last: int, dispatched: Option<string>, sleep: nat)

  /** One pass of the watch loop. */
  function PollOnce(last: int, o: Observation): (p: Poll)
    ensures p.last >= last
    ensures p.last != last <==> o.Present? && o.mtime > last && o.read.Content?
    ensures p.last != last ==> p.last == o.mtime
    ensures p.dispatched.Some? <==>
              o.Present? && o.mtime > last && o.read.Content? && Strip(o.read.text) != []
    ensures p.dispatched.Some? ==> p.dispatched.value == Strip(o.read.text)
    ensures p.sleep == ERROR_SECONDS <==>
              o.StatFailed? || (o.Present? && o.mtime > last && o.read.ReadFailed?)
  {
    match o
    case Absent => Poll(last, None, POLL_SECONDS)
    case StatNotFound => Poll(last, None, POLL_SECONDS)
    case StatFailed => Poll(last, None, ERROR_SECONDS)
    case Present(mtime, read) =>
      if mtime <= last then Poll(last, None, POLL_SECONDS)
      else match read
        case ReadNotFound => Poll(last, None, POLL_SECONDS)
        case ReadFailed => Poll(last, None, ERROR_SECONDS)
        case Content(text) =>
          var command := Strip(text);
          Poll(mtime, if command != [] then Some(command) else None, POLL_SECONDS)
  }

  /** A `play_media` call, with the modification time that triggered it. */
  datatype Dispatched = Dispatched(mtime: int, command: string)

  /** Every call in `calls` is for a time above `lo` and at most `hi`. */
  predicate TimesWithin(calls: seq<Dispatched>, lo: int, hi: int) {
    forall i :: 0 <= i < |calls| ==> lo < calls[i].mtime <= hi
  }

  /** The calls' times strictly increase. */
  predicate TimesIncreasing(calls: seq<Dispatched>) {
    forall i, j :: 0 <= i < j < |calls| ==> calls[i].mtime < calls[j].mtime
  }

  /** The `play_media` call a pass makes, if any. */
  function Called(p: Poll): seq<Dispatched> {
    if p.dispatched.Some? then [Dispatched(p.last, p.dispatched.value)] else []
  }

  /** A pass's call placed before calls that all come later keeps the times
      increasing and within the wider range. */
  lemma PrependCall(p: Poll, rest: seq<Dispatched>, lo: int, hi: int)
    requires p.dispatched.Some? ==> lo < p.last
    requires p.last <= hi && TimesWithin(rest, p.last, hi) && TimesIncreasing(rest)
    requires lo <= p.last
    ensures TimesWithin(Called(p) + rest, lo, hi) && TimesIncreasing(Called(p) + rest)
  {
    var calls := Called(p) + rest;
    if p.dispatched.Some? {
      assert forall i :: 1 <= i < |calls| ==> calls[i] == rest[i - 1];
    } else {
      assert calls == rest;
    }
  }

  /** The passes played so far, from `last_command_time` = `last`: the final
      value and the calls made. Calls come with strictly increasing times,
      all newer than the starting value and no newer than the final one, so
      no time is acted on twice. */
  function Watch(last: int, obs: seq<Observation>): (res: (int, seq<Dispatched>))
    ensures res.0 >= last
    ensures |res.1| <= |obs|
    ensures TimesWithin(res.1, last, res.0) && TimesIncreasing(res.1)
    decreases |obs|
  {
    if |obs| == 0 then (last, [])
    else
      var p := PollOnce(last, obs[0]);
      var rest := Watch(p.last, obs[1..]);
      PrependCall(p, rest.1, last, rest.0);
      (rest.0, Called(p) + rest.1)
  }

  /** Each path handed to `play_media` is non-empty and has no surrounding
      whitespace left, and it is the stripped content of the pass that
      played it. */
  lemma {:induction false} PlayedPathsAreStripped(last: int, obs: seq<Observation>)
    ensures forall i :: 0 <= i < |Watch(last, obs).1| ==>
              var c := Watch(last, obs).1[i].command; c != [] && Strip(c) == c
    decreases |obs|
  {
    if |obs| > 0 {
      var p := PollOnce(last, obs[0]);
      PlayedPathsAreStripped(p.last, obs[1..]);
      var rest := Watch(p.last, obs[1..]).1;
      if p.dispatched.Some? {
        StripIdempotent(obs[0].read.text);
        var calls := Watch(last, obs).1;
        assert calls == [Dispatched(p.last, p.dispatched.value)] + rest;
        forall i | 0 <= i < |calls|
          ensures calls[i].command != [] && Strip(calls[i].command) == calls[i].command
        {
          if i > 0 {
            assert calls[i] == rest[i - 1];
          }
        }
      }
    }
  }

  /** The command present at startup is never played: as long as the file
      keeps that modification time (or an older one), nothing is dispatched,
      whatever its content. */
  lemma {:induction false} NothingNewerNothingPlayed(last: int, obs: seq<Observation>)
    requires forall k :: 0 <= k < |obs| && obs[k].Present? ==> obs[k].mtime <= last
    ensures Watch(last, obs) == (last, [])
    decreases |obs|
  {
    if |obs| > 0 {
      NothingNewerNothingPlayed(last, obs[1..]);
    }
  }

  lemma StartupCommandNeverPlayed(mtime: int, obs: seq<Observation>)
    requires forall k :: 0 <= k < |obs| && obs[k].Present? ==> obs[k].mtime <= mtime
    ensures InitialLast(StartPresent(mtime)) == Some(mtime)
    ensures Watch(InitialLast(StartPresent(mtime)).value, obs).1 == []
  {
    NothingNewerNothingPlayed(mtime, obs);
  }

  /** A read that fails leaves the state alone, so the same modification
      time is tried again on the next pass. */
  lemma FailedReadIsRetried(last: int, mtime: int, failed: ReadResult, text: string)
    requires mtime > last && !failed.Content?
    requires Strip(text) != []
    ensures Watch(last, [Present(mtime, failed), Present(mtime, Content(text))])
            == (mtime, [Dispatched(mtime, Strip(text))])
  {
    var obs := [Present(mtime, failed), Present(mtime, Content(text))];
    var second := [Present(mtime, Content(text))];
    assert obs[1..] == second && second[1..] == [];
    assert PollOnce(last, obs[0]) == Poll(last, None, PollOnce(last, obs[0]).sleep);
    assert Called(PollOnce(last, obs[0])) == [];
    assert Watch(mtime, []) == (mtime, []);
    assert PollOnce(last, second[0]) == Poll(mtime, Some(Strip(text)), POLL_SECONDS);
    assert Called(PollOnce(last, second[0])) == [Dispatched(mtime, Strip(text))];
    assert [Dispatched(mtime, Strip(text))] + [] == [Dispatched(mtime, Strip(text))];
    assert Watch(last, second) == (mtime, [Dispatched(mtime, Strip(text))]);
    assert [] + [Dispatched(mtime, Strip(text))] == [Dispatched(mtime, Strip(text))];
  }

  /** A whitespace-only file still consumes its modification time: writing
      a real command later without touching the time plays nothing. */
  lemma BlankContentConsumesTime(last: int, mtime: int, blank: string, text: string)
    requires mtime > last && AllSpace(blank)
    ensures Watch(last, [Present(mtime, Content(blank)), Present(mtime, Content(text))]) == (mtime, [])
  {
    StripEmptyIffAllSpace(blank);
    var obs := [Present(mtime, Content(blank)), Present(mtime, Content(text))];
    var second := [Present(mtime, Content(text))];
    assert obs[1..] == second && second[1..] == [];
    assert Watch(mtime, []) == (mtime, []);
    assert Watch(mtime, second) == (mtime, []);
  }

  /** The passes played so far with `pass` standing for one pass of the
      loop body. */
  function Passes(pass: (int, Observation) -> Poll, last: int, obs: seq<Observation>): (int, seq<Dispatched>)
    decreases |obs|
  {
    if |obs| == 0 then (last, [])
    else
      var p := pass(last, obs[0]);
      var rest := Passes(pass, p.last, obs[1..]);
      (rest.0, Called(p) + rest.1)
  }

  /** Running the loop with the real pass is the watch. */
  lemma {:induction false} WatchIsPasses(last: int, obs: seq<Observation>)
    ensures Passes(PollOnce, last, obs) == Watch(last, obs)
    decreases |obs|
  {
    if |obs| > 0 {
      WatchIsPasses(PollOnce(last, obs[0]).last, obs[1..]);
    }
  }

  /** The `while True` loop from `last_command_time` = `start`, over the
      passes played so far. */
  method WatchLoop(pass: (int, Observation) -> Poll, start: int, obs: seq<Observation>)
    returns (last: int, dispatched: seq<Dispatched>)
    ensures (last, dispatched) == Passes(pass, start, obs)
  {
    last, dispatched := start, [];
    var rest := obs;
    assert dispatched + Passes(pass, last, rest).1 == Passes(pass, last, rest).1;
    while rest != []
      invariant Passes(pass, start, obs) == (Passes(pass, last, rest).0, dispatched + Passes(pass, last, rest).1)
      decreases |rest|
    {
      var p := pass(last, rest[0]);
      var later := Passes(pass, p.last, rest[1..]);
      assert dispatched + (Called(p) + later.1) == (dispatched + Called(p)) + later.1;
      last, dispatched, rest := p.last, dispatched + Called(p), rest[1..];
    }
    assert dispatched + [] == dispatched;
  }

  /** The `__main__` block: initialise `last_command_time`, then run the
      `while True` loop over the passes played so far. `started` is false
      when the startup `getmtime` raised. */
  method RunWatcher(start: Startup, obs: seq<Observation>)
    returns (started: bool, last: int, dispatched: seq<Dispatched>)
    ensures started <==> !start.StartStatRaised?
    ensures !started ==> dispatched == []
    ensures started ==> (last, dispatched) == Watch(InitialLast(start).value, obs)
    ensures started ==> last >= InitialLast(start).value
    ensures started ==> TimesWithin(dispatched, InitialLast(start).value, last)
    ensures TimesIncreasing(dispatched)
  {
    var init := InitialLast(start);
    if init.None? {
      return false, 0, [];
    }
    started := true;
    last, dispatched := WatchLoop(PollOnce, init.value, obs);
    WatchIsPasses(init.value, obs);
  }
}
