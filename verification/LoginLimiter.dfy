/** The login limiter: after five failures in a row an address waits longer with every further one. */
module LoginLimiter {
  const SECOND: int := 1_000_000_000

  /** Failures in a row, and the time in nanoseconds before which attempts are turned away. */
  datatype Entry = Entry(count: nat, blocked: int)

  const NEW_ENTRY := Entry(0, 0)

  function EntryOf(data: map<string, Entry>, ip: string): Entry {
    if ip in data then data[ip] else NEW_ENTRY
  }

  function Failed(e: Entry, now: int): Entry {
    var count := e.count + 1;
    Entry(count, if count >= 5 then now + (count - 4) * SECOND else e.blocked)
  }

  class RateLimiter {
    var data: map<string, Entry>

    constructor ()
      ensures data == map[]
    {
      data := map[];
    }

    /** The check before a login; whoever comes too early is turned away. */
    method Admit(ip: string, now: int) returns (admitted: bool)
      modifies this
      ensures data == old(data)[ip := EntryOf(old(data), ip)]
      ensures admitted <==> EntryOf(old(data), ip).blocked <= now
    {
      if ip !in data {
        data := data[ip := NEW_ENTRY];
      }
      var entry := data[ip];
      admitted := !(now < entry.blocked);
    }

    /** The bookkeeping after a login; anything but a 401 wipes the slate. */
    method Record(ip: string, now: int, unauthorized: bool)
      requires ip in data
      modifies this
      ensures data == old(data)[ip := if unauthorized then Failed(old(data)[ip], now) else NEW_ENTRY]
    {
      var entry := data[ip];
      if unauthorized {
        entry := entry.(count := entry.count + 1);
        if entry.count >= 5 {
          entry := entry.(blocked := now + (entry.count - 4) * SECOND);
        }
      } else {
        entry := Entry(0, 0);
      }
      data := data[ip := entry];
    }
  }

  // ---- runs ----

  /** A login request arriving, or being answered. */
  datatype Event = Attempt(ip: string, at: int) | Answer(ip: string, at: int, unauthorized: bool)

  /** The limiter's entries, the addresses with an admitted request under way, and the time so far. */
  datatype State = State(data: map<string, Entry>, open: set<string>, clock: int)

  /** Time does not go back, and each address has one request at a time. */
  predicate Possible(s: State, e: Event) {
    s.clock <= e.at && if e.Attempt? then e.ip !in s.open else e.ip in s.open && e.ip in s.data
  }

  function Step(s: State, e: Event): State
    requires Possible(s, e)
  {
    match e
    case Attempt(ip, at) =>
      var entry := EntryOf(s.data, ip);
      State(s.data[ip := entry], if entry.blocked <= at then s.open + {ip} else s.open, at)
    case Answer(ip, at, unauthorized) =>
      State(s.data[ip := if unauthorized then Failed(s.data[ip], at) else NEW_ENTRY], s.open - {ip}, at)
  }

  /** The state after a run, if all its events are possible. */
  predicate IsRun(s: State, run: seq<Event>)
    decreases |run|, 0
  {
    run == [] || (IsRun(s, run[..|run| - 1]) && Possible(Final(s, run[..|run| - 1]), run[|run| - 1]))
  }

  function Final(s: State, run: seq<Event>): State
    requires IsRun(s, run)
    decreases |run|, 1
  {
    if run == [] then s else Step(Final(s, run[..|run| - 1]), run[|run| - 1])
  }

  lemma {:induction false} PrefixIsRun(s: State, run: seq<Event>, n: nat)
    requires IsRun(s, run) && n <= |run|
    ensures IsRun(s, run[..n])
    ensures n < |run| ==> Possible(Final(s, run[..n]), run[n])
    ensures n < |run| ==> IsRun(s, run[..n + 1]) && Final(s, run[..n + 1]) == Step(Final(s, run[..n]), run[n])
    decreases |run|
  {
    if n == |run| {
      assert run[..n] == run;
    } else {
      var before := run[..|run| - 1];
      if n < |run| - 1 {
        PrefixIsRun(s, before, n);
        assert before[..n] == run[..n] && before[..n + 1] == run[..n + 1];
      } else {
        assert run[..n + 1] == run && run[..n] == before;
      }
    }
  }

  /** The limiter under a run: its entries and its admissions are those of the run's states. */
  method Replay(limiter: RateLimiter, start: State, run: seq<Event>) returns (open: set<string>)
    requires limiter.data == start.data && IsRun(start, run)
    modifies limiter
    ensures limiter.data == Final(start, run).data && open == Final(start, run).open
  {
    hide IsRun, Final;
    open := start.open;
    EmptyRun(start);
    for i := 0 to |run|
      invariant IsRun(start, run[..i])
      invariant limiter.data == Final(start, run[..i]).data && open == Final(start, run[..i]).open
    {
      PrefixIsRun(start, run, i);
      match run[i]
      case Attempt(ip, at) =>
        var admitted := limiter.Admit(ip, at);
        if admitted {
          open := open + {ip};
        }
      case Answer(ip, at, unauthorized) =>
        limiter.Record(ip, at, unauthorized);
        open := open - {ip};
    }
    assert run[..|run|] == run;
  }

  lemma EmptyRun(s: State)
    ensures forall run: seq<Event> | run == [] :: IsRun(s, run) && Final(s, run) == s
  {
  }

  /** The times of the 401 answers to an address since it last got another answer. */
  function Streak(run: seq<Event>, ip: string): seq<int> {
    if run == [] then []
    else
      var before, e := Streak(run[..|run| - 1], ip), run[|run| - 1];
      if e.Attempt? || e.ip != ip then before
      else if e.unauthorized then before + [e.at]
      else []
  }

  /** How long the n-th failure in a row keeps the next one away. */
  function Delay(n: nat): nat {
    if n >= 5 then (n - 4) * SECOND else 0
  }

  /** What n failures in a row take at least. */
  function Span(n: nat): nat {
    if n <= 1 then 0 else Span(n - 1) + Delay(n - 1)
  }

  lemma {:induction false} SpanIsQuadratic(n: nat)
    ensures n < 5 ==> Span(n) == 0
    ensures n >= 5 ==> 2 * Span(n) == (n - 5) * (n - 4) * 1_000_000_000
  {
    if n > 0 {
      SpanIsQuadratic(n - 1);
      if n > 5 {
        assert (n - 6) * (n - 5) + 2 * (n - 5) == (n - 5) * (n - 4);
        assert 2 * Span(n) == ((n - 6) * (n - 5) + 2 * (n - 5)) * SECOND;
      }
    }
  }

  /** What a run guarantees of an address: the entry counts at least the streak, its block lasts at least as long
      as the last failure demands, an open request was admitted after it, and gaps were long enough. */
  ghost predicate Spaced(s: State, streak: seq<int>, ip: string) {
    && (streak != [] ==>
          && ip in s.data && s.data[ip].count >= |streak| && streak[|streak| - 1] <= s.clock
          && streak[|streak| - 1] + Delay(|streak|) <= (if |streak| >= 5 then s.data[ip].blocked else s.clock))
    && (ip in s.open && ip in s.data ==> s.data[ip].blocked <= s.clock)
    && forall k | 0 < k < |streak| :: streak[k - 1] + Delay(k) <= streak[k]
  }

  lemma SpacedStep(s: State, streak: seq<int>, ip: string, e: Event)
    requires Spaced(s, streak, ip) && Possible(s, e)
    ensures Spaced(Step(s, e),
                   if e.Attempt? || e.ip != ip then streak else if e.unauthorized then streak + [e.at] else [], ip)
  {
    if e.Answer? && e.ip == ip && e.unauthorized {
      var longer := streak + [e.at];
      var count := s.data[ip].count + 1;
      assert |longer| <= count;
      assert |longer| >= 5 ==> (|longer| - 4) * SECOND <= (count - 4) * SECOND;
    }
  }

  lemma {:induction false} RunIsSpaced(s: State, run: seq<Event>, ip: string)
    requires IsRun(s, run) && ip !in s.open
    ensures Spaced(Final(s, run), Streak(run, ip), ip)
    decreases |run|
  {
    if run != [] {
      var before := run[..|run| - 1];
      RunIsSpaced(s, before, ip);
      SpacedStep(Final(s, before), Streak(before, ip), ip, run[|run| - 1]);
    }
  }

  lemma {:induction false} GapsAddUp(streak: seq<int>, a: nat, b: nat)
    requires a <= b < |streak| && forall k | 0 < k < |streak| :: streak[k - 1] + Delay(k) <= streak[k]
    ensures streak[a] + Span(b - a + 1) <= streak[b]
    decreases b
  {
    if a < b {
      GapsAddUp(streak, a, b - 1);
      assert streak[b - 1] + Delay(b) <= streak[b];
      assert Delay(b - a) <= Delay(b);
    }
  }

  /** Whatever else happens in a run, n consecutive 401 answers to an address take at least
      (n - 5)(n - 4) / 2 seconds. */
  lemma FailuresTakeTime(s: State, run: seq<Event>, ip: string, a: nat, b: nat)
    requires IsRun(s, run) && ip !in s.open && a <= b < |Streak(run, ip)|
    ensures var n := b - a + 1; var took := Streak(run, ip)[b] - Streak(run, ip)[a];
      took >= Span(n) && (n >= 5 ==> 2 * took >= (n - 5) * (n - 4) * 1_000_000_000)
  {
    RunIsSpaced(s, run, ip);
    GapsAddUp(Streak(run, ip), a, b);
    SpanIsQuadratic(b - a + 1);
  }

  lemma OneMore(s: State, run: seq<Event>, e: Event, ip: string)
    requires IsRun(s, run) && Possible(Final(s, run), e)
    ensures IsRun(s, run + [e]) && Final(s, run + [e]) == Step(Final(s, run), e)
    ensures Streak(run + [e], ip) ==
      if e.Attempt? || e.ip != ip then Streak(run, ip) else if e.unauthorized then Streak(run, ip) + [e.at] else []
  {
    var longer := run + [e];
    assert longer[..|longer| - 1] == run && longer[|longer| - 1] == e;
  }

  /** And they need not take longer: a run of one address that never waits more than it must. */
  lemma {:induction false} BoundIsReached(ip: string, n: nat) returns (run: seq<Event>)
    requires n > 0
    ensures var start := State(map[], {}, 0);
      && IsRun(start, run) && |Streak(run, ip)| == n
      && Streak(run, ip)[n - 1] - Streak(run, ip)[0] == Span(n)
      && Streak(run, ip)[0] == 0 && ip !in Final(start, run).open
      && ip in Final(start, run).data && Final(start, run).clock == Span(n)
      && Final(start, run).data[ip] == Entry(n, if n >= 5 then Span(n) + Delay(n) else 0)
  {
    var start := State(map[], {}, 0);
    var before: seq<Event> := [];
    if n > 1 {
      before := BoundIsReached(ip, n - 1);
    }
    var attempt, answer := Attempt(ip, Span(n)), Answer(ip, Span(n), true);
    OneMore(start, before, attempt, ip);
    OneMore(start, before + [attempt], answer, ip);
    run := before + [attempt] + [answer];
  }
}
