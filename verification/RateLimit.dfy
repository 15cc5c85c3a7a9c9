/** The fixed-window rate limiter in memory and in Redis (pkg/ratelimit), against a plain count of the
    calls of each window. Instants are nanoseconds since Go's zero time. A caller reads its clock before
    it reaches the counters, so calls may be counted in another order than they were timed. */
module RateLimit {
  import opened Prelude

  const SECOND := 1_000_000_000
  const SWEEP_EVERY := 30 * SECOND

  /** One AllowKey call: `name` is key ":" subject, `now` the instant its caller read. */
  datatype Call = Call(name: string, limit: int, window: nat, now: nat)
  {
    predicate Valid() { window > 0 }

    function Span(): nat { window * SECOND }

    /** now.Truncate(window). */
    function Start(): nat
      requires Valid()
    {
      now - now % Span()
    }

    function Window(): Slot
      requires Valid()
    {
      Slot(name, Start())
    }
  }

  /** A window of one name: what the bucket key spells out. */
  datatype Slot = Slot(name: string, start: nat)

  /** retry is 0 when allowed. */
  datatype Answer = Answer(allowed: bool, retry: nat)

  function Max(a: int, b: int): int {
    if a > b then a else b
  }

  // ---- in memory ----

  datatype Bucket = Bucket(count: nat, expiresAt: nat)

  datatype Memory = Memory(buckets: map<Slot, Bucket>, nextSweep: nat)

  function Swept(buckets: map<Slot, Bucket>, now: nat): map<Slot, Bucket> {
    map k | k in buckets && now <= buckets[k].expiresAt :: buckets[k]
  }

  /** What one call does to the memory limiter. */
  function Hit(m: Memory, c: Call): Memory
    requires c.Valid()
  {
    var kept := if c.now > m.nextSweep then Memory(Swept(m.buckets, c.now), c.now + SWEEP_EVERY) else m;
    var b := if c.Window() in kept.buckets && c.now <= kept.buckets[c.Window()].expiresAt then kept.buckets[c.Window()]
             else Bucket(0, c.Start() + c.Span());
    kept.(buckets := kept.buckets[c.Window() := b.(count := b.count + 1)])
  }

  /** The answer of a call that left the limiter in this state. */
  function AnswerOf(m: Memory, c: Call): Answer
    requires c.Valid() && c.Window() in m.buckets
  {
    var b := m.buckets[c.Window()];
    if b.count > c.limit then Answer(false, Max((b.expiresAt - c.now) / SECOND, 1)) else Answer(true, 0)
  }

  // ---- in Redis ----

  /** A counter key and the instant of the server's clock at which Redis drops it. */
  datatype Counter = Counter(count: nat, expiresAt: nat)

  type Redis = map<Slot, Counter>

  predicate Live(r: Redis, k: Slot, at: nat) {
    k in r && at < r[k].expiresAt
  }

  /** INCR, and EXPIRE on the first hit, at an instant of the server's clock. */
  function Incr(r: Redis, c: Call, at: nat): Redis
    requires c.Valid()
  {
    var count := if Live(r, c.Window(), at) then r[c.Window()].count + 1 else 1;
    r[c.Window() := Counter(count, if count == 1 then at + c.Span() else r[c.Window()].expiresAt)]
  }

  function RedisAnswerOf(r: Redis, c: Call, at: nat): Answer
    requires c.Valid() && c.Window() in r
  {
    if r[c.Window()].count > c.limit then Answer(false, Max((r[c.Window()].expiresAt - at) / SECOND, 1))
    else Answer(true, 0)
  }

  // ---- runs ----

  predicate AllValid(calls: seq<Call>) {
    forall i :: 0 <= i < |calls| ==> calls[i].Valid()
  }

  /** A name always comes with the same window length. */
  predicate OneWindow(calls: seq<Call>) {
    AllValid(calls)
    && forall i, j :: 0 <= i < j < |calls| && calls[i].name == calls[j].name ==> calls[i].window == calls[j].window
  }

  /** Moreover the calls are counted in the order of their instants. */
  predicate Orderly(calls: seq<Call>) {
    OneWindow(calls) && forall i, j :: 0 <= i < j < |calls| ==> calls[i].now <= calls[j].now
  }

  function MemoryAfter(started: nat, calls: seq<Call>): Memory
    requires AllValid(calls)
  {
    if calls == [] then Memory(map[], started) else Hit(MemoryAfter(started, calls[..|calls| - 1]), calls[|calls| - 1])
  }

  /** How many of the calls fall into a window. */
  function Hits(calls: seq<Call>, k: Slot): nat
    requires AllValid(calls)
  {
    if calls == [] then 0
    else Hits(calls[..|calls| - 1], k) + if calls[|calls| - 1].Window() == k then 1 else 0
  }

  /** Call i comes before its limit is used up: fewer than that came before it in its window. */
  predicate Permitted(calls: seq<Call>, i: nat)
    requires AllValid(calls) && i < |calls|
  {
    Hits(calls[..i], calls[i].Window()) < calls[i].limit
  }

  lemma StartBounds(c: Call)
    requires c.Valid()
    ensures c.Start() <= c.now < c.Start() + c.Span()
  {
  }

  lemma {:induction false} HitsHaveCaller(calls: seq<Call>, k: Slot)
    requires AllValid(calls)
    ensures Hits(calls, k) > 0 <==> exists i :: 0 <= i < |calls| && calls[i].Window() == k
  {
    hide Call.Window;
    if calls != [] {
      var n := |calls| - 1;
      HitsHaveCaller(calls[..n], k);
      assert forall i :: 0 <= i < n ==> calls[..n][i] == calls[i];
    }
  }

  lemma HitsAppend(calls: seq<Call>, c: Call, k: Slot)
    requires AllValid(calls) && c.Valid()
    ensures AllValid(calls + [c])
    ensures Hits(calls + [c], k) == Hits(calls, k) + if c.Window() == k then 1 else 0
  {
    assert (calls + [c])[..|calls|] == calls;
  }

  lemma OneWindowFront(calls: seq<Call>)
    requires OneWindow(calls) && calls != []
    ensures OneWindow(calls[..|calls| - 1])
  {
  }

  lemma SameSpan(calls: seq<Call>, c: Call, i: nat)
    requires OneWindow(calls + [c]) && i < |calls| && calls[i].name == c.name
    ensures calls[i].Span() == c.Span()
  {
    assert (calls + [c])[i] == calls[i] && (calls + [c])[|calls|] == c;
  }

  // ---- when the memory limiter forgets ----

  /** The instant after which the next sweep is due: the callers' instants alone decide it. */
  function SweepDue(started: nat, calls: seq<Call>): nat {
    if calls == [] then started
    else
      var due := SweepDue(started, calls[..|calls| - 1]);
      if calls[|calls| - 1].now > due then calls[|calls| - 1].now + SWEEP_EVERY else due
  }

  /** Call j sweeps away a window that was hit before it and is over at its instant. */
  predicate Forgets(started: nat, calls: seq<Call>, j: nat, k: Slot)
    requires AllValid(calls) && j < |calls|
  {
    calls[j].now > SweepDue(started, calls[..j])
    && exists i :: 0 <= i < j && calls[i].Window() == k && calls[j].now > k.start + calls[i].Span()
  }

  predicate Forgotten(started: nat, calls: seq<Call>, k: Slot)
    requires AllValid(calls)
  {
    exists j :: 0 <= j < |calls| && Forgets(started, calls, j, k)
  }

  function CountOf(m: Memory, k: Slot): nat {
    if k in m.buckets then m.buckets[k].count else 0
  }

  /** A bucket never counts too much, counts exactly while its window is not forgotten, and ends with it. */
  ghost predicate Tracks(started: nat, calls: seq<Call>, m: Memory, k: Slot)
    requires AllValid(calls)
  {
    CountOf(m, k) <= Hits(calls, k) && (CountOf(m, k) == Hits(calls, k) <==> !Forgotten(started, calls, k))
    && (k in m.buckets ==> m.buckets[k].count > 0 && Ends(calls, k, m.buckets[k].expiresAt))
  }

  predicate Ends(calls: seq<Call>, k: Slot, expiresAt: nat) {
    forall i :: 0 <= i < |calls| && calls[i].name == k.name ==> expiresAt == k.start + calls[i].Span()
  }

  lemma {:induction false} SweepIsDue(started: nat, calls: seq<Call>)
    requires AllValid(calls)
    ensures MemoryAfter(started, calls).nextSweep == SweepDue(started, calls)
  {
    if calls != [] {
      SweepIsDue(started, calls[..|calls| - 1]);
    }
  }

  lemma ForgottenAppend(started: nat, calls: seq<Call>, c: Call, k: Slot)
    requires AllValid(calls) && c.Valid()
    ensures AllValid(calls + [c])
    ensures Forgotten(started, calls + [c], k) <==>
      Forgotten(started, calls, k) || Forgets(started, calls + [c], |calls|, k)
  {
    hide Call.Window, SweepDue;
    var longer := calls + [c];
    forall j | 0 <= j < |calls| ensures Forgets(started, longer, j, k) <==> Forgets(started, calls, j, k) {
      assert longer[..j] == calls[..j];
      assert forall i :: 0 <= i <= j ==> longer[i] == calls[i];
    }
    assert Forgotten(started, calls, k) ==> Forgotten(started, longer, k) by {
      if Forgotten(started, calls, k) {
        var j :| 0 <= j < |calls| && Forgets(started, calls, j, k);
        assert Forgets(started, longer, j, k);
      }
    }
  }

  /** The call itself forgets another window exactly when it sweeps and that window was hit and is over. */
  lemma LastForgets(started: nat, calls: seq<Call>, c: Call, k: Slot)
    requires OneWindow(calls + [c]) && AllValid(calls) && c.Valid()
    ensures Forgets(started, calls + [c], |calls|, k) ==> Hits(calls, k) > 0 && c.now > SweepDue(started, calls) && k != c.Window()
    ensures forall e :: Ends(calls, k, e) && Hits(calls, k) > 0 ==>
      (Forgets(started, calls + [c], |calls|, k) <==> c.now > SweepDue(started, calls) && c.now > e)
  {
    var longer := calls + [c];
    assert longer[..|calls|] == calls && forall i :: 0 <= i < |calls| ==> longer[i] == calls[i];
    HitsHaveCaller(calls, k);
    StartBounds(c);
    if k == c.Window() {
      forall i | 0 <= i < |calls| && calls[i].Window() == k ensures calls[i].Span() == c.Span() {
        SameSpan(calls, c, i);
      }
    }
    hide Call.Start, SweepDue;
  }

  /** The call's own bucket gains one hit. */
  lemma HitOwnSlot(started: nat, calls: seq<Call>, c: Call, m: Memory)
    requires OneWindow(calls + [c]) && AllValid(calls) && c.Valid()
    requires Tracks(started, calls, m, c.Window())
    ensures var next := Hit(m, c);
            CountOf(next, c.Window()) == CountOf(m, c.Window()) + 1 && c.Window() in next.buckets
            && next.buckets[c.Window()].expiresAt == c.Start() + c.Span()
  {
    StartBounds(c);
    HitsHaveCaller(calls, c.Window());
    if c.Window() in m.buckets {
      var i :| 0 <= i < |calls| && calls[i].Window() == c.Window();
      SameSpan(calls, c, i);
    }
    hide Call.Start, Hits, Forgotten;
  }

  /** Another window keeps its bucket unless the call sweeps and the window is over. */
  lemma HitOtherSlot(m: Memory, c: Call, k: Slot)
    requires c.Valid() && k != c.Window()
    ensures var next := Hit(m, c);
            if k in m.buckets && !(c.now > m.nextSweep && c.now > m.buckets[k].expiresAt)
            then k in next.buckets && next.buckets[k] == m.buckets[k]
            else k !in next.buckets
  {
    hide Call.Window;
  }

  lemma EndsAppend(calls: seq<Call>, c: Call, k: Slot, e: nat)
    requires OneWindow(calls + [c]) && AllValid(calls) && c.Valid() && Ends(calls, k, e)
    requires Hits(calls, k) > 0 || (k == c.Window() && e == c.Start() + c.Span())
    ensures Ends(calls + [c], k, e)
  {
    var longer := calls + [c];
    HitsHaveCaller(calls, k);
    forall i | 0 <= i < |longer| && longer[i].name == k.name ensures e == k.start + longer[i].Span() {
      if i == |calls| && Hits(calls, k) > 0 {
        var j :| 0 <= j < |calls| && calls[j].Window() == k;
        SameSpan(calls, c, j);
      } else if i < |calls| {
        assert longer[i] == calls[i];
      }
    }
  }

  /** The end of the call's own window suits every earlier call of its name. */
  lemma OwnEnd(calls: seq<Call>, c: Call)
    requires OneWindow(calls + [c]) && AllValid(calls) && c.Valid()
    ensures Ends(calls, c.Window(), c.Start() + c.Span())
  {
    forall i | 0 <= i < |calls| && calls[i].name == c.name ensures calls[i].Span() == c.Span() {
      SameSpan(calls, c, i);
    }
  }

  lemma HitTracks(started: nat, calls: seq<Call>, c: Call, m: Memory, k: Slot)
    requires OneWindow(calls + [c]) && AllValid(calls) && c.Valid() && m.nextSweep == SweepDue(started, calls)
    requires Tracks(started, calls, m, k)
    ensures AllValid(calls + [c]) && Tracks(started, calls + [c], Hit(m, c), k)
  {
    hide Hit, Hits, Forgets, Forgotten, Call.Start, Ends;
    HitsAppend(calls, c, k);
    ForgottenAppend(started, calls, c, k);
    LastForgets(started, calls, c, k);
    if k == c.Window() {
      HitOwnSlot(started, calls, c, m);
      OwnEnd(calls, c);
      EndsAppend(calls, c, k, c.Start() + c.Span());
    } else {
      HitOtherSlot(m, c, k);
      if k in m.buckets {
        EndsAppend(calls, c, k, m.buckets[k].expiresAt);
      }
    }
  }

  lemma {:induction false} MemoryTracks(started: nat, calls: seq<Call>, k: Slot)
    requires OneWindow(calls)
    ensures Tracks(started, calls, MemoryAfter(started, calls), k)
    decreases |calls|
  {
    hide Hit, Tracks;
    if calls == [] {
      NothingTracked(started, k);
    } else {
      var front, last := calls[..|calls| - 1], calls[|calls| - 1];
      OneWindowFront(calls);
      assert calls == front + [last];
      MemoryTracks(started, front, k);
      SweepIsDue(started, front);
      HitTracks(started, front, last, MemoryAfter(started, front), k);
    }
  }

  lemma NothingTracked(started: nat, k: Slot)
    ensures Tracks(started, [], MemoryAfter(started, []), k)
  {
  }

  /** Whatever the instants, the bucket of a window counts it exactly as long as no call swept it away after it
      was first hit: a call later than the sweep due and than the end of the window. It never counts more. */
  lemma MemoryCountsExactly(started: nat, calls: seq<Call>, k: Slot)
    requires OneWindow(calls)
    ensures CountOf(MemoryAfter(started, calls), k) <= Hits(calls, k)
    ensures CountOf(MemoryAfter(started, calls), k) == Hits(calls, k) <==> !Forgotten(started, calls, k)
  {
    hide MemoryAfter, Hits, Forgotten;
    MemoryTracks(started, calls, k);
  }

  // ---- what the memory limiter answers ----

  lemma Prefix(calls: seq<Call>, i: nat)
    requires OneWindow(calls) && i < |calls|
    ensures OneWindow(calls[..i]) && OneWindow(calls[..i + 1]) && calls[..i + 1] == calls[..i] + [calls[i]]
  {
  }

  /** The answer to call i of a run. */
  ghost predicate MemoryAnswers(started: nat, calls: seq<Call>, i: nat, a: Answer)
    requires AllValid(calls) && i < |calls|
  {
    var m := MemoryAfter(started, calls[..i + 1]);
    calls[i].Window() in m.buckets && a == AnswerOf(m, calls[i])
  }

  /** A call is answered by what its bucket still counts: no call within its limit is refused, and one beyond it is
      let through only where the bucket was forgotten. */
  lemma MemoryAnswer(started: nat, calls: seq<Call>, i: nat) returns (a: Answer)
    requires OneWindow(calls) && i < |calls|
    ensures MemoryAnswers(started, calls, i, a)
    ensures a.allowed <==> CountOf(MemoryAfter(started, calls[..i]), calls[i].Window()) < calls[i].limit
    ensures Permitted(calls, i) ==> a.allowed
    ensures !Forgotten(started, calls[..i], calls[i].Window()) ==> (a.allowed <==> Permitted(calls, i))
    ensures if a.allowed then a.retry == 0 else a.retry == WaitFor(calls[i]) && 1 <= a.retry <= calls[i].window
  {
    Prefix(calls, i);
    var c, front := calls[i], calls[..i];
    MemoryTracks(started, front, c.Window());
    HitOwnSlot(started, front, c, MemoryAfter(started, front));
    assert calls[..i + 1][..i] == front;
    StartBounds(c);
    var m := MemoryAfter(started, calls[..i + 1]);
    assert m == Hit(MemoryAfter(started, front), c);
    a := AnswerOf(m, c);
    RetryBounds(c, m.buckets[c.Window()].expiresAt - c.now);
  }

  /** How long a refused call is told to wait: the whole seconds left of its window, at least one. */
  function WaitFor(c: Call): nat
    requires c.Valid()
  {
    Max((c.Start() + c.Span() - c.now) / SECOND, 1)
  }

  lemma RetryBounds(c: Call, left: int)
    requires c.Valid() && left <= c.Span()
    ensures 1 <= Max(left / SECOND, 1) <= c.window
  {
  }

  /** Calls in the order of their instants never find their own window forgotten. */
  lemma OrderlyIsRemembered(started: nat, calls: seq<Call>, i: nat)
    requires Orderly(calls) && i < |calls|
    ensures !Forgotten(started, calls[..i], calls[i].Window())
  {
    var c, front := calls[i], calls[..i];
    StartBounds(c);
    forall j | 0 <= j < i ensures !Forgets(started, front, j, c.Window()) {
      assert front[j].now <= c.now;
      forall n | 0 <= n < j && front[n].Window() == c.Window() ensures front[n].Span() == c.Span() {
        assert front[n] == calls[n];
      }
    }
  }

  /** So in that order the memory limiter allows exactly the first `limit` calls of each window, whenever it swept. */
  lemma MemoryIsACounter(started: nat, calls: seq<Call>, i: nat) returns (a: Answer)
    requires Orderly(calls) && i < |calls|
    ensures MemoryAnswers(started, calls, i, a)
    ensures a.allowed <==> Permitted(calls, i)
    ensures if a.allowed then a.retry == 0 else a.retry == WaitFor(calls[i])
  {
    hide Forgotten, MemoryAnswers, Permitted;
    a := MemoryAnswer(started, calls, i);
    OrderlyIsRemembered(started, calls, i);
  }

  // ---- when Redis forgets ----

  /** The server's clock does not go back. */
  predicate Rising(at: seq<nat>) {
    forall i, j :: 0 <= i < j < |at| ==> at[i] <= at[j]
  }

  function RedisAfter(calls: seq<Call>, at: seq<nat>): Redis
    requires AllValid(calls) && |at| == |calls|
  {
    if calls == [] then map[]
    else
      var n := |calls| - 1;
      Incr(RedisAfter(calls[..n], at[..n]), calls[n], at[n])
  }

  /** Call j reaches Redis a whole window or more after an earlier call of its own window. */
  predicate TooLate(calls: seq<Call>, at: seq<nat>, j: nat, k: Slot)
    requires AllValid(calls) && |at| == |calls| && j < |calls|
  {
    calls[j].Window() == k && exists i :: 0 <= i < j && calls[i].Window() == k && at[j] >= at[i] + calls[i].Span()
  }

  predicate Expired(calls: seq<Call>, at: seq<nat>, k: Slot)
    requires AllValid(calls) && |at| == |calls|
  {
    exists j :: 0 <= j < |calls| && TooLate(calls, at, j, k)
  }

  function CounterOf(r: Redis, k: Slot): nat {
    if k in r then r[k].count else 0
  }

  /** A counter never counts too much, counts exactly while it did not expire, and runs from the call that opened it,
      which is the first of the window as long as the count is exact. */
  ghost predicate RedisTracks(calls: seq<Call>, at: seq<nat>, r: Redis, k: Slot)
    requires AllValid(calls) && |at| == |calls|
  {
    CounterOf(r, k) <= Hits(calls, k) && (CounterOf(r, k) == Hits(calls, k) <==> !Expired(calls, at, k))
    && (Hits(calls, k) > 0 ==> k in r && r[k].count > 0 && exists i: nat :: OpenedBy(calls, at, r, k, i))
  }

  predicate OpenedBy(calls: seq<Call>, at: seq<nat>, r: Redis, k: Slot, i: nat)
    requires AllValid(calls) && |at| == |calls| && k in r
  {
    i < |calls| && calls[i].Window() == k && r[k].expiresAt == at[i] + calls[i].Span()
    && (r[k].count == Hits(calls, k) ==>
          forall j :: 0 <= j < |calls| && calls[j].Window() == k ==> at[i] <= at[j])
  }

  lemma ExpiredAppend(calls: seq<Call>, at: seq<nat>, c: Call, now: nat, k: Slot)
    requires AllValid(calls) && |at| == |calls| && c.Valid()
    ensures AllValid(calls + [c])
    ensures Expired(calls + [c], at + [now], k) <==> Expired(calls, at, k) || TooLate(calls + [c], at + [now], |calls|, k)
  {
    hide Call.Window;
    var longer, clock := calls + [c], at + [now];
    forall j | 0 <= j < |calls| ensures TooLate(longer, clock, j, k) <==> TooLate(calls, at, j, k) {
      assert forall i :: 0 <= i <= j ==> longer[i] == calls[i] && clock[i] == at[i];
    }
    if Expired(calls, at, k) {
      var j :| 0 <= j < |calls| && TooLate(calls, at, j, k);
      assert TooLate(longer, clock, j, k);
    }
  }

  lemma IncrOther(r: Redis, c: Call, now: nat, k: Slot)
    requires c.Valid() && k != c.Window()
    ensures k in Incr(r, c, now) <==> k in r
    ensures k in r ==> Incr(r, c, now)[k] == r[k]
  {
    hide Call.Window;
  }

  lemma OpenedAppend(calls: seq<Call>, at: seq<nat>, c: Call, now: nat, r: Redis, next: Redis, k: Slot, i: nat)
    requires AllValid(calls) && |at| == |calls| && c.Valid() && Rising(at + [now])
    requires k in r && k in next && next[k].expiresAt == r[k].expiresAt && OpenedBy(calls, at, r, k, i)
    requires AllValid(calls + [c]) && (next[k].count == Hits(calls + [c], k) ==> r[k].count == Hits(calls, k))
    ensures OpenedBy(calls + [c], at + [now], next, k, i)
  {
    hide Call.Window, Hits;
    var longer, clock := calls + [c], at + [now];
    assert longer[i] == calls[i] && clock[i] == at[i] && clock[i] <= clock[|at|];
    forall j | 0 <= j < |longer| && longer[j].Window() == k && next[k].count == Hits(longer, k)
      ensures clock[i] <= clock[j]
    {
      if j < |calls| {
        assert longer[j] == calls[j] && clock[j] == at[j];
      }
    }
  }

  lemma IncrTracksOther(calls: seq<Call>, at: seq<nat>, c: Call, now: nat, r: Redis, k: Slot)
    requires AllValid(calls) && |at| == |calls| && c.Valid() && Rising(at + [now]) && k != c.Window()
    requires RedisTracks(calls, at, r, k)
    ensures AllValid(calls + [c]) && RedisTracks(calls + [c], at + [now], Incr(r, c, now), k)
  {
    hide Hits, Expired, OpenedBy, Call.Window, Incr;
    HitsAppend(calls, c, k);
    ExpiredAppend(calls, at, c, now, k);
    IncrOther(r, c, now, k);
    if Hits(calls, k) > 0 {
      var i: nat :| OpenedBy(calls, at, r, k, i);
      OpenedAppend(calls, at, c, now, r, Incr(r, c, now), k, i);
    }
  }

  /** A call finds its own counter dead exactly when it comes too late, as long as the count was exact. */
  lemma DeadIsLate(calls: seq<Call>, at: seq<nat>, c: Call, now: nat, r: Redis, i: nat)
    requires OneWindow(calls + [c]) && AllValid(calls) && |at| == |calls| && c.Valid() && Rising(at + [now])
    requires c.Window() in r && OpenedBy(calls, at, r, c.Window(), i) && r[c.Window()].count == Hits(calls, c.Window())
    requires AllValid(calls + [c])
    ensures Live(r, c.Window(), now) <==> !TooLate(calls + [c], at + [now], |calls|, c.Window())
    ensures r[c.Window()].expiresAt == at[i] + c.Span()
  {
    hide Hits;
    var k, longer, clock := c.Window(), calls + [c], at + [now];
    assert forall n :: 0 <= n < |calls| ==> longer[n] == calls[n] && clock[n] == at[n];
    forall n | 0 <= n < |calls| && calls[n].Window() == k ensures calls[n].Span() == c.Span() {
      SameSpan(calls, c, n);
    }
    assert longer[i].Window() == k;
    hide Call.Window;
  }

  lemma IncrTracksOwn(calls: seq<Call>, at: seq<nat>, c: Call, now: nat, r: Redis)
    requires OneWindow(calls + [c]) && AllValid(calls) && |at| == |calls| && c.Valid() && Rising(at + [now])
    requires RedisTracks(calls, at, r, c.Window())
    ensures AllValid(calls + [c]) && RedisTracks(calls + [c], at + [now], Incr(r, c, now), c.Window())
  {
    var k, next := c.Window(), Incr(r, c, now);
    hide Hits, Expired, OpenedBy, Call.Window, Incr;
    HitsAppend(calls, c, k);
    ExpiredAppend(calls, at, c, now, k);
    IncrOwn(r, c, now);
    if Hits(calls, k) > 0 {
      var i: nat :| OpenedBy(calls, at, r, k, i);
      if r[k].count == Hits(calls, k) {
        DeadIsLate(calls, at, c, now, r, i);
      }
      if Live(r, k, now) {
        OpenedAppend(calls, at, c, now, r, next, k, i);
      } else {
        OpenedNow(calls, at, c, now, next);
      }
    } else {
      NotLate(calls, at, c, now);
      OpenedNow(calls, at, c, now, next);
    }
  }

  lemma IncrOwn(r: Redis, c: Call, now: nat)
    requires c.Valid()
    ensures var k, next := c.Window(), Incr(r, c, now);
            k in next && (if Live(r, k, now) then next[k].count == r[k].count + 1 else next[k].count == 1)
            && (if Live(r, k, now) && r[k].count > 0 then next[k].expiresAt == r[k].expiresAt
                else next[k].expiresAt == now + c.Span())
  {
    hide Call.Window;
  }

  /** The first call of a window comes in time and opens its counter; a reopened counter has lost count. */
  lemma OpenedNow(calls: seq<Call>, at: seq<nat>, c: Call, now: nat, next: Redis)
    requires AllValid(calls) && |at| == |calls| && c.Valid() && AllValid(calls + [c])
    requires c.Window() in next && next[c.Window()] == Counter(1, now + c.Span())
    ensures OpenedBy(calls + [c], at + [now], next, c.Window(), |calls|)
  {
    HitsAppend(calls, c, c.Window());
    HitsHaveCaller(calls, c.Window());
    hide Call.Window, Hits;
  }

  lemma NotLate(calls: seq<Call>, at: seq<nat>, c: Call, now: nat)
    requires AllValid(calls) && |at| == |calls| && c.Valid() && AllValid(calls + [c]) && Hits(calls, c.Window()) == 0
    ensures !TooLate(calls + [c], at + [now], |calls|, c.Window())
  {
    HitsHaveCaller(calls, c.Window());
    hide Call.Window, Hits;
  }

  lemma {:induction false} RedisAfterTracks(calls: seq<Call>, at: seq<nat>, k: Slot)
    requires OneWindow(calls) && |at| == |calls| && Rising(at)
    ensures RedisTracks(calls, at, RedisAfter(calls, at), k)
    decreases |calls|
  {
    hide Incr, RedisTracks;
    if calls == [] {
      NothingInRedis(k);
    } else {
      var n := |calls| - 1;
      OneWindowFront(calls);
      assert calls == calls[..n] + [calls[n]] && at == at[..n] + [at[n]];
      RedisAfterTracks(calls[..n], at[..n], k);
      if k == calls[n].Window() {
        IncrTracksOwn(calls[..n], at[..n], calls[n], at[n], RedisAfter(calls[..n], at[..n]));
      } else {
        IncrTracksOther(calls[..n], at[..n], calls[n], at[n], RedisAfter(calls[..n], at[..n]), k);
      }
    }
  }

  lemma NothingInRedis(k: Slot)
    ensures RedisTracks([], [], RedisAfter([], []), k)
  {
  }

  /** Whatever instants the callers read, a Redis counter counts its window exactly as long as no call of the window
      reaches the server a whole window or more after another one. It never counts more. */
  lemma RedisCountsExactly(calls: seq<Call>, at: seq<nat>, k: Slot)
    requires OneWindow(calls) && |at| == |calls| && Rising(at)
    ensures CounterOf(RedisAfter(calls, at), k) <= Hits(calls, k)
    ensures CounterOf(RedisAfter(calls, at), k) == Hits(calls, k) <==> !Expired(calls, at, k)
  {
    hide RedisAfter, Hits, Expired;
    RedisAfterTracks(calls, at, k);
  }

  // ---- what Redis answers ----

  ghost predicate RedisAnswers(calls: seq<Call>, at: seq<nat>, i: nat, a: Answer)
    requires AllValid(calls) && |at| == |calls| && i < |calls|
  {
    var r := RedisAfter(calls[..i + 1], at[..i + 1]);
    calls[i].Window() in r && a == RedisAnswerOf(r, calls[i], at[i])
  }

  lemma RedisPrefix(calls: seq<Call>, at: seq<nat>, i: nat)
    requires OneWindow(calls) && |at| == |calls| && Rising(at) && i < |calls|
    ensures OneWindow(calls[..i + 1]) && Rising(at[..i + 1])
    ensures calls[..i + 1] == calls[..i] + [calls[i]] && calls[..i + 1][i] == calls[i]
  {
  }

  /** Call i is told to wait until a window's length after call n of its window, but at least a second. */
  predicate WaitsFrom(calls: seq<Call>, at: seq<nat>, i: nat, n: nat, retry: nat)
    requires AllValid(calls) && |at| == |calls| && i < |calls|
  {
    n <= i && calls[n].Window() == calls[i].Window()
    && retry == Max((at[n] + calls[i].Span() - at[i]) / SECOND, 1)
  }

  /** No call of the window reached the server before call n. */
  predicate IsFirst(calls: seq<Call>, at: seq<nat>, i: nat, n: nat)
    requires AllValid(calls) && |at| == |calls| && i < |calls| && n < |calls|
  {
    forall j :: 0 <= j <= i && calls[j].Window() == calls[i].Window() ==> at[n] <= at[j]
  }

  /** Redis refuses no call within its limit, and lets one beyond it through only where the counter had expired. */
  lemma RedisAnswer(calls: seq<Call>, at: seq<nat>, i: nat) returns (a: Answer)
    requires OneWindow(calls) && |at| == |calls| && Rising(at) && i < |calls|
    ensures RedisAnswers(calls, at, i, a)
    ensures Permitted(calls, i) ==> a.allowed
    ensures !Expired(calls[..i + 1], at[..i + 1], calls[i].Window()) ==> (a.allowed <==> Permitted(calls, i))
    ensures if a.allowed then a.retry == 0 else 1 <= a.retry <= calls[i].window
    ensures !a.allowed ==>
      exists n: nat :: WaitsFrom(calls, at, i, n, a.retry)
                       && (!Expired(calls[..i + 1], at[..i + 1], calls[i].Window()) ==> IsFirst(calls, at, i, n))
  {
    var c, k := calls[i], calls[i].Window();
    hide RedisAfter, Expired, Hits, Call.Window;
    RedisPrefix(calls, at, i);
    var longer, clock := calls[..i + 1], at[..i + 1];
    RedisAfterTracks(longer, clock, k);
    HitsAppend(calls[..i], c, k);
    var r := RedisAfter(longer, clock);
    a := RedisAnswerOf(r, c, at[i]);
    var n: nat :| OpenedBy(longer, clock, r, k, n);
    assert clock[n] <= at[i];
    assert longer[n].Span() == c.Span() by {
      SameWindowSpan(longer, n, i);
    }
    RetryBounds(c, r[k].expiresAt - at[i]);
    assert forall j :: 0 <= j <= i ==> longer[j] == calls[j] && clock[j] == at[j];
    if !a.allowed {
      assert WaitsFrom(calls, at, i, n, a.retry);
      assert r[k].count == Hits(longer, k) ==> IsFirst(calls, at, i, n);
    }
  }

  lemma SameWindowSpan(calls: seq<Call>, n: nat, i: nat)
    requires OneWindow(calls) && n < |calls| && i < |calls| && calls[n].Window() == calls[i].Window()
    ensures calls[n].Span() == calls[i].Span()
  {
    assert n < i || n == i || i < n;
  }

  // ---- both ----

  /** The instants callers read are the server's. */
  predicate Synchronous(calls: seq<Call>, at: seq<nat>) {
    |at| == |calls| && forall i :: 0 <= i < |at| ==> at[i] == calls[i].now
  }

  lemma SynchronousIsLive(calls: seq<Call>, at: seq<nat>, i: nat)
    requires Orderly(calls) && Synchronous(calls, at) && i < |calls|
    ensures Rising(at) && !Expired(calls[..i + 1], at[..i + 1], calls[i].Window())
  {
    var longer, clock, k := calls[..i + 1], at[..i + 1], calls[i].Window();
    forall j | 0 <= j <= i && longer[j].Window() == k ensures k.start <= clock[j] < k.start + calls[i].Span() {
      StartBounds(longer[j]);
      SameWindowSpan(calls, j, i);
    }
    forall j | 0 <= j <= i ensures !TooLate(longer, clock, j, k) {
      forall n | 0 <= n < j && longer[n].Window() == k && longer[j].Window() == k
        ensures clock[j] < clock[n] + longer[n].Span()
      {
        SameWindowSpan(calls, n, i);
      }
    }
  }

  /** On one clock, and with calls in the order of its instants, Redis decides every call as the memory limiter does,
      as the plain counter would, and tells a refused caller to wait at least as long. */
  lemma RedisDecidesTheSame(started: nat, calls: seq<Call>, at: seq<nat>, i: nat) returns (a: Answer, b: Answer)
    requires Orderly(calls) && Synchronous(calls, at) && i < |calls|
    ensures MemoryAnswers(started, calls, i, a) && RedisAnswers(calls, at, i, b)
    ensures a.allowed == b.allowed == Permitted(calls, i) && a.retry <= b.retry
  {
    hide Expired, Permitted, Orderly, Rising;
    SynchronousIsLive(calls, at, i);
    assert OneWindow(calls) by { OrderlyIsOneWindow(calls); }
    a := MemoryIsACounter(started, calls, i);
    b := RedisAnswer(calls, at, i);
    if !a.allowed {
      LaterInRedis(started, calls, at, i, a, b);
    }
  }

  lemma OrderlyIsOneWindow(calls: seq<Call>)
    requires Orderly(calls)
    ensures OneWindow(calls)
  {
  }

  lemma LaterInRedis(started: nat, calls: seq<Call>, at: seq<nat>, i: nat, a: Answer, b: Answer)
    requires OneWindow(calls) && Rising(at) && Synchronous(calls, at) && i < |calls| && !a.allowed && !b.allowed
    requires MemoryAnswers(started, calls, i, a) && RedisAnswers(calls, at, i, b)
    ensures a.retry <= b.retry
  {
    var c, k := calls[i], calls[i].Window();
    Prefix(calls, i);
    RedisPrefix(calls, at, i);
    var longer, clock := calls[..i + 1], at[..i + 1];
    MemoryTracks(started, longer, k);
    RedisAfterTracks(longer, clock, k);
    HitsAppend(calls[..i], c, k);
    var m, r := MemoryAfter(started, longer), RedisAfter(longer, clock);
    var n: nat :| OpenedBy(longer, clock, r, k, n);
    SameWindowSpan(longer, n, i);
    StartBounds(longer[n]);
    hide MemoryAfter, RedisAfter, Hits, Forgotten, Expired, Call.Start;
    assert m.buckets[k].expiresAt == k.start + longer[i].Span() && longer[i] == c;
    LongerRetry(m.buckets[k].expiresAt - c.now, r[k].expiresAt - at[i]);
  }

  lemma LongerRetry(a: int, b: int)
    requires a <= b
    ensures Max(a / SECOND, 1) <= Max(b / SECOND, 1)
  {
  }

  // ---- any stretch of one window length ----

  /** How many calls of a name are allowed at instants from `lo` up to but not including `hi`. */
  function Admitted(calls: seq<Call>, allowed: seq<bool>, name: string, lo: nat, hi: nat): nat
    requires |allowed| == |calls|
  {
    if calls == [] then 0
    else
      var n := |calls| - 1;
      Admitted(calls[..n], allowed[..n], name, lo, hi)
      + if calls[n].name == name && lo <= calls[n].now < hi && allowed[n] then 1 else 0
  }

  function Min(a: int, b: int): int {
    if a < b then a else b
  }

  /** A stretch no longer than a window meets at most two of them. */
  lemma StretchMeetsTwo(c: Call, lo: nat, hi: nat)
    requires c.Valid() && lo <= c.now < hi <= lo + c.Span()
    ensures c.Start() in {lo - lo % c.Span(), lo - lo % c.Span() + c.Span()}
  {
    var w := c.Span();
    var q, r := lo / w, lo % w;
    assert lo == q * w + r;
    if c.now < (q + 1) * w {
      Quotient(c.now, q, w);
    } else {
      Quotient(c.now, q + 1, w);
    }
  }

  lemma Quotient(n: nat, q: nat, w: nat)
    requires w > 0 && q * w <= n < (q + 1) * w
    ensures n - n % w == q * w
  {
    if n / w < q {
      NextMultiple(n / w, q, w);
    } else if q < n / w {
      NextMultiple(q, n / w, w);
    }
  }

  lemma NextMultiple(a: nat, b: nat, w: nat)
    requires a < b
    ensures (a + 1) * w <= b * w
  {
  }

  lemma {:induction false} AdmittedBySlots(calls: seq<Call>, allowed: seq<bool>, name: string, limit: nat, window: nat,
                                          lo: nat, hi: nat)
    requires AllValid(calls) && |allowed| == |calls| && window > 0 && hi <= lo + window * SECOND
    requires forall i :: 0 <= i < |calls| && allowed[i] ==> Permitted(calls, i)
    requires forall c :: c in calls && c.name == name ==> c.limit == limit && c.window == window
    ensures var first := lo - lo % (window * SECOND);
            Admitted(calls, allowed, name, lo, hi)
            <= Min(Hits(calls, Slot(name, first)), limit) + Min(Hits(calls, Slot(name, first + window * SECOND)), limit)
    decreases |calls|
  {
    if calls != [] {
      var n := |calls| - 1;
      var front, c := calls[..n], calls[n];
      assert calls == front + [c];
      forall i | 0 <= i < n && allowed[..n][i] ensures Permitted(front, i) {
        assert Permitted(calls, i) && front[..i] == calls[..i];
      }
      AdmittedBySlots(front, allowed[..n], name, limit, window, lo, hi);
      if c.name == name && lo <= c.now < hi {
        StretchMeetsTwo(c, lo, hi);
      }
    }
  }

  /** These are the decisions of the memory limiter, or of Redis. */
  ghost predicate DecidedInMemory(started: nat, calls: seq<Call>, allowed: seq<bool>)
    requires AllValid(calls)
  {
    |allowed| == |calls| && forall i :: 0 <= i < |calls| ==> exists a :: MemoryAnswers(started, calls, i, a) && a.allowed == allowed[i]
  }

  ghost predicate DecidedInRedis(calls: seq<Call>, at: seq<nat>, allowed: seq<bool>)
    requires AllValid(calls) && |at| == |calls|
  {
    |allowed| == |calls| && forall i :: 0 <= i < |calls| ==> exists a :: RedisAnswers(calls, at, i, a) && a.allowed == allowed[i]
  }

  /** Neither limiter lets more than twice the limit through in any stretch of one window length. */
  lemma AtMostTwiceTheLimit(started: nat, calls: seq<Call>, at: seq<nat>, allowed: seq<bool>, name: string, limit: nat,
                            window: nat, lo: nat)
    requires Orderly(calls) && Synchronous(calls, at) && window > 0
    requires DecidedInMemory(started, calls, allowed) || DecidedInRedis(calls, at, allowed)
    requires forall c :: c in calls && c.name == name ==> c.limit == limit && c.window == window
    ensures Admitted(calls, allowed, name, lo, lo + window * SECOND) <= 2 * limit
  {
    hide Permitted, MemoryAnswers, RedisAnswers, Orderly, Admitted;
    OrderlyIsOneWindow(calls);
    forall i | 0 <= i < |calls| && allowed[i] ensures Permitted(calls, i) {
      var a, b := RedisDecidesTheSame(started, calls, at, i);
      AnswersAreUnique(started, calls, at, i);
    }
    AdmittedBySlots(calls, allowed, name, limit, window, lo, lo + window * SECOND);
  }

  lemma AnswersAreUnique(started: nat, calls: seq<Call>, at: seq<nat>, i: nat)
    requires AllValid(calls) && |at| == |calls| && i < |calls|
    ensures forall a, b :: MemoryAnswers(started, calls, i, a) && MemoryAnswers(started, calls, i, b) ==> a == b
    ensures forall a, b :: RedisAnswers(calls, at, i, a) && RedisAnswers(calls, at, i, b) ==> a == b
  {
  }

  /** Two callers two nanoseconds apart, around the end of a window and with a sweep due. */
  const EARLY := Call("a", 1, 60, 60 * SECOND - 1)
  const LATE := Call("b", 1, 60, 60 * SECOND + 1)

  lemma EarlyIsForgotten()
    ensures EARLY.Window() == Slot("a", 0) && Hits([EARLY, LATE], Slot("a", 0)) == 1
    ensures Forgotten(60 * SECOND, [EARLY, LATE], Slot("a", 0))
  {
    var calls := [EARLY, LATE];
    assert EARLY.Window() == Slot("a", 0) && LATE.name != "a";
    assert calls[..1] == [EARLY] && [EARLY][..0] == [];
    assert SweepDue(60 * SECOND, []) == 60 * SECOND;
    assert SweepDue(60 * SECOND, calls[..1]) == 60 * SECOND;
    assert Forgets(60 * SECOND, calls, 1, Slot("a", 0)) by {
      assert calls[0].Window() == Slot("a", 0);
    }
    assert Hits([EARLY], Slot("a", 0)) == 1;
  }

  /** The later caller sweeps the window of the earlier one away before the earlier one is counted again, so a call
      beyond the limit is let through. */
  lemma BackwardClockForgets() returns (calls: seq<Call>, a: Answer)
    ensures |calls| == 3 && OneWindow(calls) && calls[1].now == calls[2].now + 2
    ensures Forgotten(60 * SECOND, calls[..2], calls[2].Window())
    ensures MemoryAnswers(60 * SECOND, calls, 2, a) && a.allowed && !Permitted(calls, 2)
  {
    calls := [EARLY, LATE, EARLY];
    assert calls[..2] == [EARLY, LATE] && OneWindow(calls) && OneWindow(calls[..2]);
    hide Call.Window, Forgotten, Hits, MemoryAfter, MemoryAnswers, OneWindow;
    EarlyIsForgotten();
    MemoryCountsExactly(60 * SECOND, calls[..2], EARLY.Window());
    a := MemoryAnswer(60 * SECOND, calls, 2);
  }

  // ---- the two limiters ----

  /** With one window length per name, a call within its limit is allowed, and one beyond it is refused unless its
      window was forgotten; a refused caller is to wait between a second and the window. */
  predicate AllowsRightly(calls: seq<Call>, c: Call, forgotten: bool, answer: Answer)
    requires AllValid(calls + [c]) && c.Valid() && AllValid(calls)
  {
    OneWindow(calls + [c]) ==>
      (Permitted(calls + [c], |calls|) ==> answer.allowed)
      && (!forgotten ==> (answer.allowed <==> Permitted(calls + [c], |calls|)))
      && if answer.allowed then answer.retry == 0 else 1 <= answer.retry <= c.window
  }

  lemma NextInMemory(started: nat, calls: seq<Call>, c: Call, m: Memory)
    requires AllValid(calls) && c.Valid() && m == MemoryAfter(started, calls)
    ensures AllValid(calls + [c]) && Hit(m, c) == MemoryAfter(started, calls + [c]) && c.Window() in Hit(m, c).buckets
    ensures AllowsRightly(calls, c, Forgotten(started, calls, c.Window()), AnswerOf(Hit(m, c), c))
    ensures OneWindow(calls + [c]) && !AnswerOf(Hit(m, c), c).allowed ==> AnswerOf(Hit(m, c), c).retry == WaitFor(c)
  {
    var n, longer := |calls|, calls + [c];
    assert longer[..n] == calls && longer[n] == c && longer[..n + 1] == longer;
    hide Hit, Forgotten, Permitted, OneWindow, Call.Window, AnswerOf;
    if OneWindow(longer) {
      var a := MemoryAnswer(started, longer, n);
    }
    HitHasBucket(m, c);
  }

  lemma HitHasBucket(m: Memory, c: Call)
    requires c.Valid()
    ensures c.Window() in Hit(m, c).buckets
  {
  }

  class MemoryLimiter {
    var buckets: map<Slot, Bucket>
    var nextSweep: nat
    ghost const started: nat
    ghost var calls: seq<Call>

    /** The state is the one the calls so far lead to. */
    ghost predicate Valid()
      reads this
    {
      AllValid(calls) && Memory(buckets, nextSweep) == MemoryAfter(started, calls)
    }

    constructor (now: nat)
      ensures Valid() && calls == [] && started == now + SWEEP_EVERY
    {
      buckets, nextSweep := map[], now + SWEEP_EVERY;
      started, calls := now + SWEEP_EVERY, [];
    }

    method SweepLocked(now: nat)
      modifies this`buckets
      ensures buckets == Swept(old(buckets), now)
    {
      var rest := buckets.Keys;
      while rest != {}
        invariant rest <= old(buckets).Keys
        invariant forall k :: k in buckets <==> k in old(buckets) && (k in rest || now <= old(buckets)[k].expiresAt)
        invariant forall k :: k in buckets ==> buckets[k] == old(buckets)[k]
        decreases |rest|
      {
        var k :| k in rest;
        if now > buckets[k].expiresAt {
          buckets := buckets - {k};
        }
        rest := rest - {k};
      }
    }

    /** What happens under the mutex; `now` was read before. */
    method Count(c: Call) returns (answer: Answer)
      requires c.Valid()
      modifies this`buckets, this`nextSweep
      ensures Memory(buckets, nextSweep) == Hit(Memory(old(buckets), old(nextSweep)), c)
      ensures c.Window() in buckets && answer == AnswerOf(Memory(buckets, nextSweep), c)
    {
      var bucketStart := c.now - c.now % c.Span();
      var slot := Slot(c.name, bucketStart);
      if c.now > nextSweep {
        SweepLocked(c.now);
        nextSweep := c.now + SWEEP_EVERY;
      }
      if slot !in buckets || c.now > buckets[slot].expiresAt {
        buckets := buckets[slot := Bucket(0, bucketStart + c.Span())];
      }
      var b := buckets[slot].(count := buckets[slot].count + 1);
      buckets := buckets[slot := b];
      if b.count > c.limit {
        return Answer(false, Max((b.expiresAt - c.now) / SECOND, 1));
      }
      return Answer(true, 0);
    }

    method AllowKey(key: string, subject: string, limit: int, windowSeconds: nat, now: nat) returns (answer: Answer)
      requires Valid() && windowSeconds > 0
      modifies this
      ensures Valid() && calls == old(calls) + [Call(key + ":" + subject, limit, windowSeconds, now)]
      ensures var c := Call(key + ":" + subject, limit, windowSeconds, now);
              AllowsRightly(old(calls), c, Forgotten(started, old(calls), c.Window()), answer)
              && (OneWindow(calls) && !answer.allowed ==> answer.retry == WaitFor(c))
    {
      hide Hit, AnswerOf, AllowsRightly, MemoryAfter, Forgotten, Call.Window, WaitFor, OneWindow;
      var c := Call(key + ":" + subject, limit, windowSeconds, now);
      NextInMemory(started, calls, c, Memory(buckets, nextSweep));
      answer := Count(c);
      calls := calls + [c];
    }
  }

  lemma NextInRedis(calls: seq<Call>, at: seq<nat>, c: Call, served: nat, r: Redis)
    requires AllValid(calls) && |at| == |calls| && Rising(at) && c.Valid() && r == RedisAfter(calls, at)
    requires forall i :: 0 <= i < |at| ==> at[i] <= served
    ensures AllValid(calls + [c]) && Rising(at + [served]) && c.Window() in Incr(r, c, served)
    ensures Incr(r, c, served) == RedisAfter(calls + [c], at + [served])
    ensures AllowsRightly(calls, c, Expired(calls + [c], at + [served], c.Window()),
                          RedisAnswerOf(Incr(r, c, served), c, served))
    ensures var a := RedisAnswerOf(Incr(r, c, served), c, served);
            OneWindow(calls + [c]) && !a.allowed ==>
              exists n: nat :: WaitsFrom(calls + [c], at + [served], |calls|, n, a.retry)
  {
    var n, longer, clock := |calls|, calls + [c], at + [served];
    assert longer[..n] == calls && clock[..n] == at && longer[n] == c && longer[..n + 1] == longer && clock[..n + 1] == clock;
    hide Incr, Expired, Permitted, OneWindow, Call.Window, RedisAnswerOf;
    IncrOwn(r, c, served);
    if OneWindow(longer) {
      var a := RedisAnswer(longer, clock, n);
    }
  }

  lemma ScriptIsIncr(before: Redis, after: Redis, c: Call, served: nat, count: nat, rest: int)
    requires c.Valid() && c.Window() in after && after[c.Window()].count == count
    requires after[c.Window()].expiresAt == served + rest
    requires count == if Live(before, c.Window(), served) then before[c.Window()].count + 1 else 1
    requires rest == if count == 1 then c.Span() else before[c.Window()].expiresAt - served
    requires forall k :: k != c.Window() ==> (k in after <==> k in before) && (k in after ==> after[k] == before[k])
    ensures after == Incr(before, c, served)
    ensures RedisAnswerOf(after, c, served) ==
      if count > c.limit then Answer(false, Max(rest / SECOND, 1)) else Answer(true, 0)
  {
    hide Call.Window, Call.Span;
  }

  class RedisLimiter {
    var counters: Redis
    ghost var calls: seq<Call>
    ghost var at: seq<nat>

    /** The counters are those the calls so far lead to; the server's clock has not gone back. */
    ghost predicate Valid()
      reads this
    {
      AllValid(calls) && |at| == |calls| && Rising(at) && counters == RedisAfter(calls, at)
    }

    constructor ()
      ensures Valid() && calls == []
    {
      counters, calls, at := map[], [], [];
    }

    /** The script: its reply is the count and the rest of the key's life. Other keys are left alone. */
    method Script(slot: Slot, span: nat, served: nat) returns (count: nat, rest: int)
      modifies this`counters
      ensures slot in counters && counters[slot].count == count && counters[slot].expiresAt == served + rest
      ensures count == if Live(old(counters), slot, served) then old(counters)[slot].count + 1 else 1
      ensures rest == if count == 1 then span else old(counters)[slot].expiresAt - served
      ensures forall k :: k != slot ==> (k in counters <==> k in old(counters)) && (k in counters ==> counters[k] == old(counters)[k])
    {
      count := if Live(counters, slot, served) then counters[slot].count + 1 else 1;
      var expiresAt := if count == 1 then served + span else counters[slot].expiresAt;
      counters := counters[slot := Counter(count, expiresAt)];
      rest := expiresAt - served;
    }

    /** `served` is the instant of the server's clock. */
    method AllowKey(key: string, subject: string, limit: int, windowSeconds: nat, now: nat, served: nat)
      returns (answer: Answer)
      requires Valid() && windowSeconds > 0 && (forall i :: 0 <= i < |at| ==> at[i] <= served)
      modifies this
      ensures Valid() && calls == old(calls) + [Call(key + ":" + subject, limit, windowSeconds, now)]
      ensures at == old(at) + [served]
      ensures var c := Call(key + ":" + subject, limit, windowSeconds, now);
              AllowsRightly(old(calls), c, Expired(calls, at, c.Window()), answer)
      ensures OneWindow(calls) && !answer.allowed ==>
        exists n: nat :: WaitsFrom(calls, at, |old(calls)|, n, answer.retry)
    {
      hide Incr, RedisAnswerOf, AllowsRightly, RedisAfter, Expired, Live, WaitsFrom, OneWindow;
      var c := Call(key + ":" + subject, limit, windowSeconds, now);
      NextInRedis(calls, at, c, served, counters);
      var slot := Slot(key + ":" + subject, now - now % (windowSeconds * SECOND));
      ghost var before := counters;
      var count, rest := Script(slot, windowSeconds * SECOND, served);
      ScriptIsIncr(before, counters, c, served, count, rest);
      calls, at := calls + [c], at + [served];
      answer := if count > limit then Answer(false, Max(rest / SECOND, 1)) else Answer(true, 0);
    }
  }
}
