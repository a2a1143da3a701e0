// The slow-query warnings of `_register_sql_observability`: start times kept per connection, a
// cooldown per statement, a count of what the cooldown swallowed, and a bulk clear that bounds memory.
module SlowQueries {
  import opened Options
  import opened Ordering

  type Conn = int

  const WARNED_LIMIT: nat := 2048

  datatype State = State(lastWarnedAt: map<string, real>, suppressedCount: map<string, nat>)

  datatype Warning = Warning(sqlKey: string, suppressedSinceLast: nat)

  /** A completed statement that was slow and not ignored. */
  datatype SlowEvent = SlowEvent(sqlKey: string, now: real)

  datatype Outcome =
    | Suppressed
    | Warned(reported: nat, discarded: map<string, nat>, cleared: bool)

  function Get(m: map<string, nat>, k: string): nat {
    if k in m then m[k] else 0
  }

  predicate CoolingDown(cooldown: nat, s: State, e: SlowEvent) {
    e.sqlKey in s.lastWarnedAt && e.now - s.lastWarnedAt[e.sqlKey] < cooldown as real
  }

  function Step(cooldown: nat, s: State, e: SlowEvent): (State, Outcome) {
    if CoolingDown(cooldown, s, e) then
      (s.(suppressedCount := s.suppressedCount[e.sqlKey := Get(s.suppressedCount, e.sqlKey) + 1]), Suppressed)
    else if |s.lastWarnedAt| > WARNED_LIMIT then
      (State(map[e.sqlKey := e.now], map[]), Warned(0, s.suppressedCount, true))
    else
      (State(s.lastWarnedAt[e.sqlKey := e.now], s.suppressedCount - {e.sqlKey}),
       Warned(Get(s.suppressedCount, e.sqlKey), map[], false))
  }

  predicate Contains(s: string, pattern: string) {
    exists i :: 0 <= i <= |s| && pattern <= s[i..]
  }

  predicate Ignored(patterns: seq<string>, sqlKey: string) {
    exists p :: p in patterns && Contains(sqlKey, p)
  }

  function Times(startTimes: map<Conn, seq<real>>, conn: Conn): seq<real> {
    if conn in startTimes then startTimes[conn] else []
  }

  /** A hook call on one connection: a statement begins, or one completes. */
  datatype Call<T> = Begin(start: T) | Complete

  function AfterCall<T>(stack: seq<T>, call: Call<T>): seq<T> {
    match call
    case Begin(t) => stack + [t]
    case Complete => if stack == [] then [] else stack[..|stack| - 1]
  }

  function Starts<T>(stack: seq<T>, calls: seq<Call<T>>): seq<T>
    decreases |calls|
  {
    if calls == [] then stack else Starts(AfterCall(stack, calls[0]), calls[1..])
  }

  lemma {:induction false} StartsAppend<T>(stack: seq<T>, calls: seq<Call<T>>, last: Call<T>)
    ensures Starts(stack, calls + [last]) == AfterCall(Starts(stack, calls), last)
    decreases |calls|
  {
    hide AfterCall;
    if calls == [] {
      assert [last][1..] == [];
      assert calls + [last] == [last];
    } else {
      assert (calls + [last])[1..] == calls[1..] + [last];
      StartsAppend(AfterCall(stack, calls[0]), calls[1..], last);
    }
  }

  /** A statement is ignored exactly when one of the patterns is a part of it. */
  lemma IgnoredExactly(patterns: seq<string>, sqlKey: string)
    ensures Ignored(patterns, sqlKey) <==> exists a, p, b :: p in patterns && sqlKey == (a + p) + b
  {
    if Ignored(patterns, sqlKey) {
      var p :| p in patterns && Contains(sqlKey, p);
      var i :| 0 <= i <= |sqlKey| && p <= sqlKey[i..];
      assert sqlKey == (sqlKey[..i] + p) + sqlKey[i + |p|..];
    }
    if a, p, b :| p in patterns && sqlKey == (a + p) + b {
      assert sqlKey[|a|..] == p + b;
      assert Contains(sqlKey, p);
    }
  }

  // ----- what a run of hook calls on any connections should leave behind

  datatype HookCall =
    | Before(conn: Conn, time: real)
    | After(conn: Conn, time: real, sqlKey: string, now: real)

  function AsCall(call: HookCall): Call<real> {
    match call
    case Before(_, time) => Begin(time)
    case After(_, _, _, _) => Complete
  }

  function CallsOn(calls: seq<HookCall>, conn: Conn): seq<Call<real>> {
    if calls == [] then []
    else
      var n := |calls| - 1;
      CallsOn(calls[..n], conn) + if calls[n].conn == conn then [AsCall(calls[n])] else []
  }

  predicate IsSlow(thresholdMs: int, patterns: seq<string>, startedAt: real, time: real, sqlKey: string) {
    thresholdMs > 0 && (time - startedAt) * 1000.0 >= thresholdMs as real && !Ignored(patterns, sqlKey)
  }

  /** The completions that took more than the threshold since the start time they are matched with. */
  function SlowEventsOf(thresholdMs: int, patterns: seq<string>, calls: seq<HookCall>): seq<SlowEvent> {
    if calls == [] then []
    else
      var before, last := calls[..|calls| - 1], calls[|calls| - 1];
      var times := Starts([], CallsOn(before, last.conn));
      SlowEventsOf(thresholdMs, patterns, before) +
      if last.After? && times != [] && IsSlow(thresholdMs, patterns, times[|times| - 1], last.time, last.sqlKey)
      then [SlowEvent(last.sqlKey, last.now)] else []
  }

  function RunState(cooldown: nat, events: seq<SlowEvent>): State {
    if events == [] then State(map[], map[])
    else Step(cooldown, RunState(cooldown, events[..|events| - 1]), events[|events| - 1]).0
  }

  function OutcomeAt(cooldown: nat, events: seq<SlowEvent>, i: nat): Outcome
    requires i < |events|
  {
    Step(cooldown, RunState(cooldown, events[..i]), events[i]).1
  }

  /** The warnings of a run; without a cooldown each slow event is warned about. */
  function LogOf(cooldown: nat, events: seq<SlowEvent>): seq<Warning> {
    if events == [] then []
    else
      var n := |events| - 1;
      LogOf(cooldown, events[..n]) +
      if cooldown == 0 then [Warning(events[n].sqlKey, 0)]
      else
        match OutcomeAt(cooldown, events, n)
        case Suppressed => []
        case Warned(reported, _, _) => [Warning(events[n].sqlKey, reported)]
  }

  lemma CallAdded(thresholdMs: int, patterns: seq<string>, calls: seq<HookCall>, call: HookCall)
    ensures forall c :: Starts([], CallsOn(calls + [call], c)) ==
                        var stack := Starts([], CallsOn(calls, c));
                        if c == call.conn then AfterCall(stack, AsCall(call)) else stack
    ensures var times, events := Starts([], CallsOn(calls, call.conn)), SlowEventsOf(thresholdMs, patterns, calls);
            SlowEventsOf(thresholdMs, patterns, calls + [call]) ==
            if call.After? && times != [] && IsSlow(thresholdMs, patterns, times[|times| - 1], call.time, call.sqlKey)
            then events + [SlowEvent(call.sqlKey, call.now)] else events
  {
    hide Starts, AfterCall, IsSlow;
    assert (calls + [call])[..|calls|] == calls;
    forall c ensures Starts([], CallsOn(calls + [call], c)) ==
                     var stack := Starts([], CallsOn(calls, c));
                     if c == call.conn then AfterCall(stack, AsCall(call)) else stack
    {
      StartsAppend([], CallsOn(calls, c), AsCall(call));
      assert CallsOn(calls, c) + [] == CallsOn(calls, c);
    }
  }

  lemma EventAdded(cooldown: nat, events: seq<SlowEvent>, e: SlowEvent)
    ensures RunState(cooldown, events + [e]) == Step(cooldown, RunState(cooldown, events), e).0
    ensures var log, outcome := LogOf(cooldown, events), Step(cooldown, RunState(cooldown, events), e).1;
            LogOf(cooldown, events + [e]) ==
            if cooldown == 0 then log + [Warning(e.sqlKey, 0)]
            else if outcome.Warned? then log + [Warning(e.sqlKey, outcome.reported)]
            else log
  {
    hide Step;
    assert (events + [e])[..|events|] == events;
  }

  // ----- the hooks

  class Monitor {
    const thresholdMs: int
    const cooldown: nat
    const ignorePatterns: seq<string>
    var startTimes: map<Conn, seq<real>>
    var lastWarnedAt: map<string, real>
    var suppressedCount: map<string, nat>
    var log: seq<Warning>
    ghost var calls: seq<HookCall>

    ghost function Now(): State
      reads this
    {
      State(lastWarnedAt, suppressedCount)
    }

    ghost function SlowEvents(): seq<SlowEvent>
      reads this
    {
      SlowEventsOf(thresholdMs, ignorePatterns, calls)
    }

    /** The state is what the hook calls so far account for. */
    ghost predicate Valid()
      reads this
    {
      && (forall c :: Times(startTimes, c) == Starts([], CallsOn(calls, c)))
      && Now() == (if cooldown == 0 then State(map[], map[]) else RunState(cooldown, SlowEvents()))
      && log == LogOf(cooldown, SlowEvents())
    }

    constructor (threshold: int, cooldownSeconds: int, patterns: seq<string>)
      ensures thresholdMs == threshold && ignorePatterns == patterns
      ensures cooldown == if cooldownSeconds < 0 then 0 else cooldownSeconds
      ensures Valid() && calls == []
    {
      thresholdMs, ignorePatterns := threshold, patterns;
      cooldown := if cooldownSeconds < 0 then 0 else cooldownSeconds;
      startTimes, lastWarnedAt, suppressedCount, log, calls := map[], map[], map[], [], [];
    }

    method BeforeCursorExecute(conn: Conn, time: real)
      requires Valid()
      modifies this`startTimes, this`calls
      ensures Valid() && calls == old(calls) + [Before(conn, time)]
      ensures Times(startTimes, conn) == old(Times(startTimes, conn)) + [time]
      ensures forall c | c != conn :: Times(startTimes, c) == old(Times(startTimes, c))
    {
      hide CallsOn, SlowEventsOf, RunState, LogOf, Starts;
      startTimes := startTimes[conn := (if conn in startTimes then startTimes[conn] else []) + [time]];
      CallAdded(thresholdMs, ignorePatterns, calls, Before(conn, time));
      calls := calls + [Before(conn, time)];
    }

    /** `time` is the performance counter, `now` the monotonic clock. */
    method AfterCursorExecute(conn: Conn, time: real, sqlKey: string, now: real)
      requires Valid()
      modifies this
      ensures Valid() && calls == old(calls) + [After(conn, time, sqlKey, now)]
      ensures forall c | c != conn :: Times(startTimes, c) == old(Times(startTimes, c))
      ensures var times := old(Times(startTimes, conn));
              if times == [] then
                Times(startTimes, conn) == [] && Now() == old(Now()) && log == old(log)
              else
                && Times(startTimes, conn) == times[..|times| - 1]
                && var durationMs := (time - times[|times| - 1]) * 1000.0;
                   if thresholdMs <= 0 || durationMs < thresholdMs as real || Ignored(ignorePatterns, sqlKey) then
                     Now() == old(Now()) && log == old(log)
                   else if cooldown == 0 then
                     Now() == old(Now()) && log == old(log) + [Warning(sqlKey, 0)]
                   else
                     var (next, outcome) := Step(cooldown, old(Now()), SlowEvent(sqlKey, now));
                     && Now() == next
                     && log == if outcome.Warned? then old(log) + [Warning(sqlKey, outcome.reported)] else old(log)
    {
      hide CallsOn, SlowEventsOf, RunState, LogOf, Starts, Ignored, Step;
      var times := Times(startTimes, conn);
      CallAdded(thresholdMs, ignorePatterns, calls, After(conn, time, sqlKey, now));
      EventAdded(cooldown, SlowEvents(), SlowEvent(sqlKey, now));
      calls := calls + [After(conn, time, sqlKey, now)];
      if times == [] {
        return;
      }
      var startedAt := times[|times| - 1];
      startTimes := startTimes[conn := times[..|times| - 1]];
      var durationMs := (time - startedAt) * 1000.0;
      if thresholdMs > 0 && durationMs >= thresholdMs as real {
        if !Ignored(ignorePatterns, sqlKey) {
          if cooldown > 0 {
            WarnWithCooldown(sqlKey, now);
          } else {
            log := log + [Warning(sqlKey, 0)];
          }
        }
      }
    }

    /** The branch for a slow statement when there is a cooldown. */
    method WarnWithCooldown(sqlKey: string, now: real)
      modifies this`lastWarnedAt, this`suppressedCount, this`log
      ensures var (next, outcome) := Step(cooldown, old(Now()), SlowEvent(sqlKey, now));
              && Now() == next
              && log == if outcome.Warned? then old(log) + [Warning(sqlKey, outcome.reported)] else old(log)
    {
      if sqlKey in lastWarnedAt && now - lastWarnedAt[sqlKey] < cooldown as real {
        suppressedCount := suppressedCount[sqlKey := Get(suppressedCount, sqlKey) + 1];
      } else {
        if |lastWarnedAt| > WARNED_LIMIT {
          lastWarnedAt := map[];
          suppressedCount := map[];
        }
        var suppressed := Get(suppressedCount, sqlKey);
        suppressedCount := suppressedCount - {sqlKey};
        lastWarnedAt := lastWarnedAt[sqlKey := now];
        log := log + [Warning(sqlKey, suppressed)];
      }
    }
  }

  // ----- whole runs of slow events

  /** At most 2049 statements are remembered, and only remembered ones have a count, which is positive. */
  lemma {:induction false} StateBounds(cooldown: nat, events: seq<SlowEvent>)
    ensures var s := RunState(cooldown, events);
            && |s.lastWarnedAt| <= WARNED_LIMIT + 1
            && s.suppressedCount.Keys <= s.lastWarnedAt.Keys
            && forall k | k in s.suppressedCount :: s.suppressedCount[k] > 0
  {
    if events != [] {
      StateBounds(cooldown, events[..|events| - 1]);
    }
  }

  // The four tallies of one statement over a run.

  function Events(k: string, events: seq<SlowEvent>): nat {
    if events == [] then 0
    else Events(k, events[..|events| - 1]) + if events[|events| - 1].sqlKey == k then 1 else 0
  }

  function Warnings(cooldown: nat, k: string, events: seq<SlowEvent>): nat {
    if events == [] then 0
    else
      var n := |events| - 1;
      Warnings(cooldown, k, events[..n]) +
      if events[n].sqlKey == k && OutcomeAt(cooldown, events, n).Warned? then 1 else 0
  }

  function Suppressions(cooldown: nat, k: string, events: seq<SlowEvent>): nat {
    if events == [] then 0
    else
      var n := |events| - 1;
      Suppressions(cooldown, k, events[..n]) +
      if events[n].sqlKey == k && OutcomeAt(cooldown, events, n).Suppressed? then 1 else 0
  }

  /** What the warnings of the statement have reported as suppressed. */
  function Reported(cooldown: nat, k: string, events: seq<SlowEvent>): nat {
    if events == [] then 0
    else
      var n := |events| - 1;
      Reported(cooldown, k, events[..n]) +
      match OutcomeAt(cooldown, events, n)
      case Suppressed => 0
      case Warned(reported, _, _) => if events[n].sqlKey == k then reported else 0
  }

  /** What bulk clears have thrown away, unreported. */
  function Discarded(cooldown: nat, k: string, events: seq<SlowEvent>): nat {
    if events == [] then 0
    else
      var n := |events| - 1;
      Discarded(cooldown, k, events[..n]) +
      match OutcomeAt(cooldown, events, n)
      case Suppressed => 0
      case Warned(_, discarded, _) => Get(discarded, k)
  }

  /** Every slow event of a statement is warned about or counted; every count is reported, pending or discarded. */
  lemma {:induction false} Conservation(cooldown: nat, k: string, events: seq<SlowEvent>)
    ensures Events(k, events) == Warnings(cooldown, k, events) + Suppressions(cooldown, k, events)
    ensures Suppressions(cooldown, k, events) ==
            Reported(cooldown, k, events) + Get(RunState(cooldown, events).suppressedCount, k) +
            Discarded(cooldown, k, events)
  {
    if events != [] {
      Conservation(cooldown, k, events[..|events| - 1]);
    }
  }

  function EntriesFor(k: string, log: seq<Warning>): nat {
    if log == [] then 0
    else EntriesFor(k, log[..|log| - 1]) + if log[|log| - 1].sqlKey == k then 1 else 0
  }

  function SuppressedIn(k: string, log: seq<Warning>): nat {
    if log == [] then 0
    else
      var last := log[|log| - 1];
      SuppressedIn(k, log[..|log| - 1]) + if last.sqlKey == k then last.suppressedSinceLast else 0
  }

  lemma {:induction false} LogTallies(cooldown: nat, k: string, events: seq<SlowEvent>)
    requires cooldown > 0
    ensures EntriesFor(k, LogOf(cooldown, events)) == Warnings(cooldown, k, events)
    ensures SuppressedIn(k, LogOf(cooldown, events)) == Reported(cooldown, k, events)
  {
    hide OutcomeAt;
    if events != [] {
      var n := |events| - 1;
      LogTallies(cooldown, k, events[..n]);
      var log, before := LogOf(cooldown, events), LogOf(cooldown, events[..n]);
      if OutcomeAt(cooldown, events, n).Warned? {
        assert log[..|log| - 1] == before;
      } else {
        assert log == before;
      }
    }
  }

  /** Without a cooldown nothing is swallowed. */
  lemma {:induction false} LogIsComplete(k: string, events: seq<SlowEvent>)
    ensures EntriesFor(k, LogOf(0, events)) == Events(k, events) && SuppressedIn(k, LogOf(0, events)) == 0
  {
    if events != [] {
      var n := |events| - 1;
      LogIsComplete(k, events[..n]);
      assert LogOf(0, events)[..|LogOf(0, events)| - 1] == LogOf(0, events[..n]);
    }
  }

  /** What the log shows of a statement: every slow event but those still counted and those a bulk clear discarded. */
  lemma LogConserves(cooldown: nat, k: string, events: seq<SlowEvent>)
    ensures var log := LogOf(cooldown, events);
            EntriesFor(k, log) + SuppressedIn(k, log) ==
            Events(k, events) -
            if cooldown == 0 then 0
            else Get(RunState(cooldown, events).suppressedCount, k) + Discarded(cooldown, k, events)
  {
    if cooldown == 0 {
      LogIsComplete(k, events);
    } else {
      LogTallies(cooldown, k, events);
      Conservation(cooldown, k, events);
    }
  }

  predicate Clears(cooldown: nat, events: seq<SlowEvent>, i: nat)
    requires i < |events|
  {
    OutcomeAt(cooldown, events, i).Warned? && OutcomeAt(cooldown, events, i).cleared
  }

  predicate WarnsOf(cooldown: nat, events: seq<SlowEvent>, i: nat, k: string)
    requires i < |events|
  {
    events[i].sqlKey == k && OutcomeAt(cooldown, events, i).Warned?
  }

  /** The latest warning of the statement, with no bulk clear since. */
  ghost predicate LatestWarning(cooldown: nat, events: seq<SlowEvent>, i: int, k: string) {
    && 0 <= i < |events| && WarnsOf(cooldown, events, i, k)
    && forall j | i < j < |events| :: !WarnsOf(cooldown, events, j, k) && !Clears(cooldown, events, j)
  }

  lemma PrefixAgrees(cooldown: nat, events: seq<SlowEvent>, n: nat)
    requires n <= |events|
    ensures forall i: nat {:trigger OutcomeAt(cooldown, events[..n], i)} | i < n ::
              OutcomeAt(cooldown, events[..n], i) == OutcomeAt(cooldown, events, i)
    ensures forall i: nat {:trigger Clears(cooldown, events[..n], i)} {:trigger Clears(cooldown, events, i)} | i < n ::
              Clears(cooldown, events[..n], i) == Clears(cooldown, events, i)
    ensures forall i: nat, k {:trigger WarnsOf(cooldown, events[..n], i, k)}
              {:trigger WarnsOf(cooldown, events, i, k)} | i < n ::
              WarnsOf(cooldown, events[..n], i, k) == WarnsOf(cooldown, events, i, k)
  {
    forall i: nat | i < n ensures events[..n][..i] == events[..i] {
    }
  }

  lemma LatestOfPrefix(cooldown: nat, events: seq<SlowEvent>, i: int, k: string)
    requires events != []
    ensures var n := |events| - 1;
            LatestWarning(cooldown, events, i, k) <==>
            if WarnsOf(cooldown, events, n, k) then i == n
            else !Clears(cooldown, events, n) && LatestWarning(cooldown, events[..n], i, k)
  {
    hide OutcomeAt, WarnsOf, Clears;
    PrefixAgrees(cooldown, events, |events| - 1);
  }

  /** The remembered time of a statement is that of its latest warning since the last bulk clear. */
  lemma {:induction false} RememberedIsLatest(cooldown: nat, events: seq<SlowEvent>, k: string, t: real)
    ensures var remembered := RunState(cooldown, events).lastWarnedAt;
            (k in remembered && remembered[k] == t) <==>
            exists i :: LatestWarning(cooldown, events, i, k) && events[i].now == t
  {
    hide Step, LatestWarning, WarnsOf, Clears;
    if events != [] {
      var n := |events| - 1;
      RememberedIsLatest(cooldown, events[..n], k, t);
      StepRemembers(cooldown, events, k, t);
      forall i ensures LatestWarning(cooldown, events, i, k) <==>
                       if WarnsOf(cooldown, events, n, k) then i == n
                       else !Clears(cooldown, events, n) && LatestWarning(cooldown, events[..n], i, k)
      {
        LatestOfPrefix(cooldown, events, i, k);
      }
      forall i | LatestWarning(cooldown, events[..n], i, k) ensures 0 <= i < n && events[..n][i] == events[i] {
        LatestWarns(cooldown, events[..n], i, k);
      }
    } else {
      forall i ensures !LatestWarning(cooldown, events, i, k) {
        if LatestWarning(cooldown, events, i, k) {
          LatestWarns(cooldown, events, i, k);
        }
      }
    }
  }

  lemma LatestWarns(cooldown: nat, events: seq<SlowEvent>, i: int, k: string)
    requires LatestWarning(cooldown, events, i, k)
    ensures 0 <= i < |events| && WarnsOf(cooldown, events, i, k) && events[i].sqlKey == k
  {
  }

  lemma StepRemembers(cooldown: nat, events: seq<SlowEvent>, k: string, t: real)
    requires events != []
    ensures var n := |events| - 1;
            var before, after := RunState(cooldown, events[..n]).lastWarnedAt, RunState(cooldown, events).lastWarnedAt;
            (k in after && after[k] == t) <==>
            if WarnsOf(cooldown, events, n, k) then events[n].now == t
            else !Clears(cooldown, events, n) && k in before && before[k] == t
  {
  }

  /** An event is swallowed exactly when the latest warning since the last clear is less than the cooldown old. */
  lemma SuppressedExactly(cooldown: nat, events: seq<SlowEvent>, j: nat)
    requires j < |events|
    ensures OutcomeAt(cooldown, events, j).Suppressed? <==>
            exists i :: LatestWarning(cooldown, events[..j], i, events[j].sqlKey) &&
                        events[j].now - events[i].now < cooldown as real
  {
    var s, k := RunState(cooldown, events[..j]), events[j].sqlKey;
    if k in s.lastWarnedAt {
      RememberedIsLatest(cooldown, events[..j], k, s.lastWarnedAt[k]);
    }
    forall i | LatestWarning(cooldown, events[..j], i, k)
      ensures k in s.lastWarnedAt && s.lastWarnedAt[k] == events[i].now
    {
      RememberedIsLatest(cooldown, events[..j], k, events[i].now);
    }
  }

  /** Two warnings of one statement with no bulk clear between them are a cooldown apart. */
  lemma WarningsAreSpaced(cooldown: nat, events: seq<SlowEvent>, i: nat, j: nat)
    requires forall a, b | 0 <= a < b < |events| :: events[a].now <= events[b].now
    requires i < j < |events| && events[i].sqlKey == events[j].sqlKey
    requires OutcomeAt(cooldown, events, i).Warned? && OutcomeAt(cooldown, events, j).Warned?
    requires forall m | i < m < j :: !Clears(cooldown, events, m)
    ensures events[j].now - events[i].now >= cooldown as real
  {
    hide Step, RunState, LatestWarning;
    var k := events[i].sqlKey;
    PrefixAgrees(cooldown, events, j);
    var latest := LatestFrom(cooldown, events[..j], i, k);
    LatestWarns(cooldown, events[..j], latest, k);
    SuppressedExactly(cooldown, events, j);
    assert events[..j][latest] == events[latest];
  }

  lemma {:induction false} LatestFrom(cooldown: nat, events: seq<SlowEvent>, i: nat, k: string) returns (latest: int)
    requires i < |events| && WarnsOf(cooldown, events, i, k)
    requires forall m | i < m < |events| :: !Clears(cooldown, events, m)
    ensures i <= latest && LatestWarning(cooldown, events, latest, k)
  {
    hide Step, RunState, LatestWarning;
    var n := |events| - 1;
    LatestOfPrefix(cooldown, events, n, k);
    if WarnsOf(cooldown, events, n, k) {
      latest := n;
    } else {
      PrefixAgrees(cooldown, events, n);
      latest := LatestFrom(cooldown, events[..n], i, k);
      LatestOfPrefix(cooldown, events, latest, k);
    }
  }

  // ----- what is cleared, counted and reported

  ghost function Statements(events: seq<SlowEvent>): set<string> { set e | e in events :: e.sqlKey }

  /** The statements that have been warned about with no bulk clear since. */
  ghost function WarnedSinceClear(cooldown: nat, events: seq<SlowEvent>): set<string> {
    set k | k in Statements(events) && HasLatest(cooldown, events, k)
  }

  ghost predicate HasLatest(cooldown: nat, events: seq<SlowEvent>, k: string) {
    exists i :: LatestWarning(cooldown, events, i, k)
  }

  lemma RememberedAreWarned(cooldown: nat, events: seq<SlowEvent>)
    ensures RunState(cooldown, events).lastWarnedAt.Keys == WarnedSinceClear(cooldown, events)
  {
    hide RunState, LatestWarning;
    var remembered := RunState(cooldown, events).lastWarnedAt;
    forall k ensures k in remembered <==> HasLatest(cooldown, events, k) {
      if k in remembered {
        RememberedIsLatest(cooldown, events, k, remembered[k]);
      }
      if i :| LatestWarning(cooldown, events, i, k) {
        LatestWarns(cooldown, events, i, k);
        RememberedIsLatest(cooldown, events, k, events[i].now);
      }
    }
    forall k | HasLatest(cooldown, events, k) ensures k in Statements(events) {
      var i :| LatestWarning(cooldown, events, i, k);
      LatestWarns(cooldown, events, i, k);
      assert events[i] in events;
    }
  }

  /** A bulk clear comes with a warning at which more than 2048 statements have been warned about since the last one. */
  lemma ClearsExactly(cooldown: nat, events: seq<SlowEvent>, i: nat)
    requires i < |events|
    ensures Clears(cooldown, events, i) <==>
            !OutcomeAt(cooldown, events, i).Suppressed? && |WarnedSinceClear(cooldown, events[..i])| > 2048
  {
    hide RunState, CoolingDown, WarnedSinceClear;
    RememberedAreWarned(cooldown, events[..i]);
    var remembered := RunState(cooldown, events[..i]).lastWarnedAt;
    assert |remembered| == |remembered.Keys|;
  }

  /** With at most 2048 statements nothing is ever cleared. */
  lemma FewAreKept(cooldown: nat, events: seq<SlowEvent>, i: nat)
    requires |Statements(events)| <= 2048 && i < |events|
    ensures !Clears(cooldown, events, i)
  {
    hide OutcomeAt, Clears, HasLatest;
    ClearsExactly(cooldown, events, i);
    assert WarnedSinceClear(cooldown, events[..i]) <= Statements(events);
    SubsetSize(WarnedSinceClear(cooldown, events[..i]), Statements(events));
  }

  lemma {:induction false} NothingDiscarded(cooldown: nat, k: string, events: seq<SlowEvent>)
    requires |Statements(events)| <= 2048
    ensures Discarded(cooldown, k, events) == 0
  {
    hide RunState;
    if events != [] {
      var n := |events| - 1;
      assert Statements(events[..n]) <= Statements(events);
      SubsetSize(Statements(events[..n]), Statements(events));
      NothingDiscarded(cooldown, k, events[..n]);
      FewAreKept(cooldown, events, n);
    }
  }

  /** The count of a statement is the number of its events since its latest warning, none without one. */
  lemma {:induction false} PendingExactly(cooldown: nat, events: seq<SlowEvent>, k: string)
    ensures forall i | LatestWarning(cooldown, events, i, k) ::
              0 <= i < |events| && Get(RunState(cooldown, events).suppressedCount, k) == Events(k, events[i + 1..])
    ensures !HasLatest(cooldown, events, k) ==> Get(RunState(cooldown, events).suppressedCount, k) == 0
  {
    hide LatestWarning, RunState, Events, WarnsOf, Clears;
    if events == [] {
      NothingPending(cooldown, k);
    } else {
      var n := |events| - 1;
      PendingExactly(cooldown, events[..n], k);
      PendingStep(cooldown, events, k);
      forall i | LatestWarning(cooldown, events, i, k)
        ensures 0 <= i < |events| && Get(RunState(cooldown, events).suppressedCount, k) == Events(k, events[i + 1..])
      {
        LatestWarns(cooldown, events, i, k);
        LatestOfPrefix(cooldown, events, i, k);
        if i == n {
          assert events[n + 1..] == [];
          NoEvents(k);
        } else {
          EventsOneMore(k, events, i + 1);
        }
      }
      if !HasLatest(cooldown, events, k) {
        LatestOfPrefix(cooldown, events, n, k);
        if i :| LatestWarning(cooldown, events[..n], i, k) {
          LatestOfPrefix(cooldown, events, i, k);
        } else if events[n].sqlKey == k && !WarnsOf(cooldown, events, n, k) {
          SwallowedHasLatest(cooldown, events, k);
        }
      }
    }
  }

  lemma NothingPending(cooldown: nat, k: string)
    ensures Get(RunState(cooldown, []).suppressedCount, k) == 0
    ensures forall i :: !LatestWarning(cooldown, [], i, k)
  {
  }

  lemma SwallowedHasLatest(cooldown: nat, events: seq<SlowEvent>, k: string)
    requires events != [] && events[|events| - 1].sqlKey == k && !WarnsOf(cooldown, events, |events| - 1, k)
    ensures HasLatest(cooldown, events[..|events| - 1], k)
  {
    hide LatestWarning;
    SuppressedExactly(cooldown, events, |events| - 1);
  }

  lemma NoEvents(k: string)
    ensures Events(k, []) == 0
  {
  }

  lemma EventsOneMore(k: string, events: seq<SlowEvent>, from: nat)
    requires from < |events|
    ensures var n := |events| - 1;
            Events(k, events[from..]) == Events(k, events[..n][from..]) + if events[n].sqlKey == k then 1 else 0
  {
    var n := |events| - 1;
    assert events[from..][..n - from] == events[..n][from..];
  }

  lemma PendingStep(cooldown: nat, events: seq<SlowEvent>, k: string)
    requires events != []
    ensures var n := |events| - 1;
            var before := Get(RunState(cooldown, events[..n]).suppressedCount, k);
            var after := Get(RunState(cooldown, events).suppressedCount, k);
            after == if WarnsOf(cooldown, events, n, k) || Clears(cooldown, events, n) then 0
                     else before + if events[n].sqlKey == k then 1 else 0
  {
  }

  /** A warning reports the events of its statement since the one before, and none when there is none or all is cleared. */
  lemma ReportedExactly(cooldown: nat, events: seq<SlowEvent>, i: nat)
    requires i < |events| && OutcomeAt(cooldown, events, i).Warned?
    ensures var k, before, outcome := events[i].sqlKey, events[..i], OutcomeAt(cooldown, events, i);
            && (Clears(cooldown, events, i) || !HasLatest(cooldown, before, k) ==> outcome.reported == 0)
            && (forall j | LatestWarning(cooldown, before, j, k) && !Clears(cooldown, events, i) ::
                  0 <= j < i && outcome.reported == Events(k, events[j + 1..i]))
  {
    hide LatestWarning, RunState, HasLatest, Events;
    var k, before := events[i].sqlKey, events[..i];
    PendingExactly(cooldown, before, k);
    forall j | LatestWarning(cooldown, before, j, k) ensures 0 <= j < i && before[j + 1..] == events[j + 1..i] {
      LatestWarns(cooldown, before, j, k);
    }
  }

  ghost predicate Logs(cooldown: nat, events: seq<SlowEvent>, i: nat, entry: Warning) {
    && i < |events| && OutcomeAt(cooldown, events, i).Warned?
    && entry == Warning(events[i].sqlKey, OutcomeAt(cooldown, events, i).reported)
  }

  /** One entry for each warning, in order; `idx` lists the events warned about. */
  ghost predicate LogFrom(cooldown: nat, events: seq<SlowEvent>, log: seq<Warning>, idx: seq<nat>) {
    && |log| == |idx| && (forall j, m | 0 <= j < m < |idx| :: idx[j] < idx[m])
    && (forall j | 0 <= j < |idx| :: Logs(cooldown, events, idx[j], log[j]))
    && (forall i: nat | i < |events| && OutcomeAt(cooldown, events, i).Warned? :: i in idx)
  }

  lemma LogsStill(cooldown: nat, events: seq<SlowEvent>, i: nat, entry: Warning)
    requires events != [] && Logs(cooldown, events[..|events| - 1], i, entry)
    ensures i < |events| - 1 && Logs(cooldown, events, i, entry)
  {
    OutcomesOfPrefix(cooldown, events, |events| - 1);
  }

  lemma OutcomesOfPrefix(cooldown: nat, events: seq<SlowEvent>, n: nat)
    requires n <= |events|
    ensures forall i: nat {:trigger OutcomeAt(cooldown, events[..n], i)} {:trigger OutcomeAt(cooldown, events, i)} | i < n ::
              OutcomeAt(cooldown, events[..n], i) == OutcomeAt(cooldown, events, i)
  {
    PrefixAgrees(cooldown, events, n);
  }

  lemma LogFromOneMore(cooldown: nat, events: seq<SlowEvent>, log: seq<Warning>, idx: seq<nat>)
    requires events != [] && LogFrom(cooldown, events[..|events| - 1], log, idx)
    ensures var n := |events| - 1; var outcome := OutcomeAt(cooldown, events, n);
            if outcome.Warned? then LogFrom(cooldown, events, log + [Warning(events[n].sqlKey, outcome.reported)], idx + [n])
            else LogFrom(cooldown, events, log, idx)
  {
    hide OutcomeAt;
    var n := |events| - 1;
    OutcomesOfPrefix(cooldown, events, n);
    forall j | 0 <= j < |idx| ensures idx[j] < n && Logs(cooldown, events, idx[j], log[j]) {
      LogsStill(cooldown, events, idx[j], log[j]);
    }
  }

  /** The log has one entry for each warning, in order, with the statement and the number it reports. */
  lemma {:induction false} LogExactly(cooldown: nat, events: seq<SlowEvent>) returns (idx: seq<nat>)
    requires cooldown > 0
    ensures LogFrom(cooldown, events, LogOf(cooldown, events), idx)
  {
    hide OutcomeAt, LogFrom;
    idx := [];
    if events == [] {
      NothingLogged(cooldown);
    } else {
      var n := |events| - 1;
      idx := LogExactly(cooldown, events[..n]);
      LogFromOneMore(cooldown, events, LogOf(cooldown, events[..n]), idx);
      if OutcomeAt(cooldown, events, n).Warned? {
        idx := idx + [n];
      } else {
        assert LogOf(cooldown, events) == LogOf(cooldown, events[..n]);
      }
    }
  }

  lemma NothingLogged(cooldown: nat)
    ensures LogFrom(cooldown, [], LogOf(cooldown, []), [])
  {
  }

  // ----- start times on one connection

  /** The number of unfinished statements among those begun by the calls, none if one completes that was not begun there. */
  function Unfinished<T>(open: nat, calls: seq<Call<T>>): Option<nat>
    decreases |calls|
  {
    if calls == [] then Some(open)
    else
      match calls[0]
      case Begin(_) => Unfinished(open + 1, calls[1..])
      case Complete => if open == 0 then None else Unfinished(open - 1, calls[1..])
  }

  lemma {:induction false} NestedKeepsOwn<T>(below: seq<T>, own: T, above: seq<T>, calls: seq<Call<T>>)
    returns (above': seq<T>)
    requires own !in below && own !in above && Begin(own) !in calls
    ensures match Unfinished(|above|, calls)
            case Some(n) => Starts(below + [own] + above, calls) == below + [own] + above' && |above'| == n &&
                            own !in above'
            case None => own !in Starts(below + [own] + above, calls)
    decreases |calls|
  {
    above' := above;
    if calls != [] {
      var rest := calls[1..];
      match calls[0] {
        case Begin(t) =>
          assert below + [own] + above + [t] == below + [own] + (above + [t]);
          above' := NestedKeepsOwn(below, own, above + [t], rest);
        case Complete =>
          var stack := below + [own] + above;
          if above == [] {
            assert stack[..|stack| - 1] == below;
            NeverComesBack(below, own, rest);
          } else {
            assert stack[..|stack| - 1] == below + [own] + above[..|above| - 1];
            above' := NestedKeepsOwn(below, own, above[..|above| - 1], rest);
          }
      }
    }
  }

  lemma {:induction false} NeverComesBack<T>(stack: seq<T>, own: T, calls: seq<Call<T>>)
    requires own !in stack && Begin(own) !in calls
    ensures own !in Starts(stack, calls)
    decreases |calls|
  {
    if calls != [] {
      NeverComesBack(AfterCall(stack, calls[0]), own, calls[1..]);
    }
  }

  /** A completion takes its own start time exactly when the calls since its start are well nested. */
  lemma CompletionTakesOwnStart<T>(below: seq<T>, own: T, calls: seq<Call<T>>)
    requires own !in below && Begin(own) !in calls
    ensures var stack := Starts(below, [Begin(own)] + calls);
            (stack != [] && stack[|stack| - 1] == own) <==> Unfinished(0, calls) == Some(0)
  {
    assert ([Begin(own)] + calls)[1..] == calls;
    var above := NestedKeepsOwn(below, own, [], calls);
    assert below + [own] + [] == below + [own];
  }
}
