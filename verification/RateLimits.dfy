// The sliding-window limiter: a map of recent hits that is trimmed and swept, against a
// limiter that never forgets.
module RateLimits {
  import opened Text

  /** A point in time, and a span of time. */
  type Time = nat

  const MAX_KEYS: nat := 4096
  const MINUTE: nat := 60
  const HOUR: nat := 3600

  datatype Rates = Rates(passwordPerMin: int, bindPerMin: int, requestPerMin: int, resetPerHour: int)

  function Limit(r: Rates, key: string): int {
    if HasPrefix(key, "password:") then r.passwordPerMin
    else if HasPrefix(key, "bind:") then r.bindPerMin
    else if HasPrefix(key, "reset:") then r.resetPerHour
    else r.requestPerMin
  }

  function Span(key: string): nat {
    if HasPrefix(key, "reset:") && !HasPrefix(key, "password:") && !HasPrefix(key, "bind:") then HOUR else MINUTE
  }

  /** Whose budget a key draws on, and over how long: by what it begins with. */
  lemma Budgets(r: Rates, key: string, rest: string)
    ensures Limit(r, "password:" + rest) == r.passwordPerMin && Span("password:" + rest) == 60
    ensures Limit(r, "bind:" + rest) == r.bindPerMin && Span("bind:" + rest) == 60
    ensures Limit(r, "reset:" + rest) == r.resetPerHour && Span("reset:" + rest) == 3600
    ensures !("password:" <= key) && !("bind:" <= key) && !("reset:" <= key) ==>
              Limit(r, key) == r.requestPerMin && Span(key) == 60
  {
    PrefixOf("password:", rest);
    PrefixOf("bind:", rest);
    PrefixOf("reset:", rest);
    assert ("bind:" + rest)[0] == 'b' && ("reset:" + rest)[0] == 'r';
    assert !HasPrefix("bind:" + rest, "password:") && !HasPrefix("reset:" + rest, "password:") by {
      FirstDiffers("bind:" + rest, "password:");
      FirstDiffers("reset:" + rest, "password:");
    }
    assert !HasPrefix("reset:" + rest, "bind:") by { FirstDiffers("reset:" + rest, "bind:"); }
    NoPrefix(key, "password:");
    NoPrefix(key, "bind:");
    NoPrefix(key, "reset:");
    hide HasPrefix;
  }

  lemma PrefixOf(p: string, rest: string)
    ensures HasPrefix(p + rest, p)
  {
    assert (p + rest)[..|p|] == p;
  }

  lemma FirstDiffers(s: string, p: string)
    requires s != "" && p != "" && s[0] != p[0]
    ensures !HasPrefix(s, p)
  {
    assert |p| <= |s| ==> s[..|p|][0] == s[0];
  }

  lemma NoPrefix(s: string, p: string)
    ensures HasPrefix(s, p) <==> p <= s
  {
  }

  // ---------------------------------------------------------------------------
  // Hits
  // ---------------------------------------------------------------------------

  type Hits = seq<Time>

  function At(m: map<string, Hits>, key: string): Hits { if key in m then m[key] else [] }

  ghost predicate Ordered(q: Hits, last: Time) {
    (forall i, j :: 0 <= i < j < |q| ==> q[i] <= q[j]) && forall i :: 0 <= i < |q| ==> q[i] <= last
  }

  /** How many hits lie after the cutoff. */
  function Live(q: Hits, cutoff: int): (n: nat)
    ensures n <= |q|
  {
    if q == [] then 0 else Live(q[..|q| - 1], cutoff) + if q[|q| - 1] > cutoff then 1 else 0
  }

  /** What is kept of all hits ever admitted: a tail, behind only hits that are too old to matter. */
  ghost predicate KeepsTail(q: Hits, all: Hits, cutoff: int) {
    |q| <= |all| && q == all[|all| - |q|..] && forall i :: 0 <= i < |all| - |q| ==> all[i] <= cutoff
  }

  lemma {:induction false} LiveSplit(a: Hits, b: Hits, cutoff: int)
    ensures Live(a + b, cutoff) == Live(a, cutoff) + Live(b, cutoff)
  {
    if b == [] {
      assert a + b == a;
    } else {
      LiveSplit(a, b[..|b| - 1], cutoff);
      assert (a + b)[..|a + b| - 1] == a + b[..|b| - 1];
    }
  }

  lemma {:induction false} LiveNone(q: Hits, cutoff: int)
    requires forall i :: 0 <= i < |q| ==> q[i] <= cutoff
    ensures Live(q, cutoff) == 0
  {
    if q != [] { LiveNone(q[..|q| - 1], cutoff); }
  }

  lemma {:induction false} LiveAll(q: Hits, cutoff: int)
    requires forall i :: 0 <= i < |q| ==> q[i] > cutoff
    ensures Live(q, cutoff) == |q|
  {
    if q != [] { LiveAll(q[..|q| - 1], cutoff); }
  }

  /** Of ordered hits, the live ones are the last ones. */
  lemma LiveIsTail(q: Hits, n: nat, cutoff: int)
    requires n <= |q| && (forall i :: 0 <= i < n ==> q[i] <= cutoff) && forall i :: n <= i < |q| ==> q[i] > cutoff
    ensures Live(q, cutoff) == |q| - n
  {
    assert q == q[..n] + q[n..];
    LiveSplit(q[..n], q[n..], cutoff);
    LiveNone(q[..n], cutoff);
    LiveAll(q[n..], cutoff);
  }

  /** A hit more than limit places back lies at least a span earlier. */
  ghost predicate Spaced(all: Hits, limit: nat, span: nat) {
    forall i :: 0 <= i && i + limit < |all| ==> all[i] + span <= all[i + limit]
  }

  /** How many hits lie in the window that begins after x and is as long as the span. */
  function InWindow(q: Hits, x: int, span: nat): nat {
    if q == [] then 0 else InWindow(q[..|q| - 1], x, span) + if x < q[|q| - 1] <= x + span then 1 else 0
  }

  /** Spaced hits never exceed the limit in any window, wherever it begins. */
  lemma {:induction false} WindowHoldsLimit(all: Hits, last: Time, limit: nat, span: nat, x: int)
    requires Ordered(all, last) && Spaced(all, limit, span) && limit > 0
    ensures InWindow(all, x, span) <= limit
  {
    if InWindow(all, x, span) > 0 {
      var lo, hi := WindowEnds(all, last, x, span);
      if hi - lo >= limit { FarApart(all, last, limit, span, lo, hi); }
    }
  }

  lemma FarApart(all: Hits, last: Time, limit: nat, span: nat, lo: nat, hi: nat)
    requires Ordered(all, last) && Spaced(all, limit, span) && hi < |all| && lo + limit <= hi
    ensures all[lo] + span <= all[hi]
  {
    assert all[lo] + span <= all[lo + limit];
  }

  /** The first and the last hit in the window; all that count lie between. */
  lemma {:induction false} WindowEnds(q: Hits, last: Time, x: int, span: nat) returns (lo: nat, hi: nat)
    requires Ordered(q, last) && InWindow(q, x, span) > 0
    ensures lo <= hi < |q| && x < q[lo] && q[hi] <= x + span && InWindow(q, x, span) <= hi - lo + 1
  {
    var n := |q| - 1;
    var p := q[..n];
    var counts := x < q[n] <= x + span;
    if InWindow(p, x, span) == 0 {
      lo, hi := n, n;
    } else {
      lo, hi := WindowEnds(p, last, x, span);
      if counts { hi := n; }
    }
  }

  // ---------------------------------------------------------------------------
  // The limiter
  // ---------------------------------------------------------------------------

  /** The limiter that never forgets: a hit is admitted while fewer than the limit lie within the span before it. */
  ghost predicate Admits(r: Rates, all: map<string, Hits>, key: string, t: Time) {
    Limit(r, key) <= 0 || Live(At(all, key), t - Span(key)) < Limit(r, key)
  }

  ghost predicate Tracks(hits: map<string, Hits>, all: map<string, Hits>, last: Time) {
    forall k :: KeepsTail(At(hits, k), At(all, k), last - Span(k))
  }

  ghost predicate InOrder(all: map<string, Hits>, last: Time) { forall k :: k in all ==> Ordered(all[k], last) }

  ghost predicate WithinLimits(r: Rates, all: map<string, Hits>) {
    forall k :: k in all && Limit(r, k) > 0 ==> Spaced(all[k], Limit(r, k), Span(k))
  }

  /** A key whose last hit is too old to matter. */
  predicate Stale(q: Hits, cutoff: int) { q == [] || q[|q| - 1] <= cutoff }

  /** What a sweep at t leaves. */
  function Swept(hits: map<string, Hits>, t: Time): map<string, Hits> {
    map k | k in hits && !Stale(hits[k], t - Span(k)) :: hits[k]
  }

  /** What is left of a key's hits once those at the front that are too old are dropped. */
  function Trimmed(q: Hits, cutoff: int): Hits { if q != [] && q[0] <= cutoff then Trimmed(q[1..], cutoff) else q }

  // ---------------------------------------------------------------------------
  // One call
  // ---------------------------------------------------------------------------

  /** A call, with the time it read before it came to enter. */
  datatype Call = Call(key: string, time: Time)

  datatype State = State(hits: map<string, Hits>, nextSweep: Time)

  const START: State := State(map[], 0)

  predicate Due(s: State, t: Time) { t >= s.nextSweep || |s.hits| >= MAX_KEYS }

  /** The keys a call finds: a due sweep, or a full map, comes first. */
  function Kept(s: State, t: Time): map<string, Hits> { if Due(s, t) then Swept(s.hits, t) else s.hits }

  /** The key is new and the map is full even after the sweep. */
  predicate Full(r: Rates, s: State, c: Call) {
    Limit(r, c.key) > 0 && c.key !in Kept(s, c.time) && |Kept(s, c.time)| >= MAX_KEYS
  }

  function Left(s: State, c: Call): Hits { Trimmed(At(Kept(s, c.time), c.key), c.time - Span(c.key)) }

  predicate Grants(r: Rates, s: State, c: Call) {
    Limit(r, c.key) <= 0 || (!Full(r, s, c) && |Left(s, c)| < Limit(r, c.key))
  }

  function Next(r: Rates, s: State, c: Call): State {
    if Limit(r, c.key) <= 0 then s
    else
      var sweep := if Due(s, c.time) then c.time + MINUTE else s.nextSweep;
      if Full(r, s, c) then State(Kept(s, c.time), sweep)
      else State(Kept(s, c.time)[c.key := Left(s, c) + if Grants(r, s, c) then [c.time] else []], sweep)
  }

  /** The state after the calls, in the order in which they enter. */
  function After(r: Rates, calls: seq<Call>): State {
    if calls == [] then START else Next(r, After(r, calls[..|calls| - 1]), calls[|calls| - 1])
  }

  /** All hits that the calls were granted under a limit, in the order in which they entered. */
  function Ever(r: Rates, calls: seq<Call>): map<string, Hits> {
    if calls == [] then map[]
    else
      var before, c := calls[..|calls| - 1], calls[|calls| - 1];
      var all := Ever(r, before);
      if Limit(r, c.key) > 0 && Grants(r, After(r, before), c) then all[c.key := At(all, c.key) + [c.time]] else all
  }

  /**
   * A call is refused for want of room exactly when 4096 other keys are left: all of them, or
   * when the map is full or a minute has passed since the last sweep, those with a live last hit.
   */
  lemma FullExactly(r: Rates, s: State, c: Call)
    ensures var swept := c.time >= s.nextSweep || |s.hits| >= 4096;
      var kept := set k | k in s.hits && (!swept || (s.hits[k] != []
        && s.hits[k][|s.hits[k]| - 1] + Span(k) > c.time));
      Full(r, s, c) <==> Limit(r, c.key) > 0 && c.key !in kept && |kept| >= 4096
    ensures Limit(r, c.key) > 0 ==>
              Next(r, s, c).nextSweep
              == if c.time >= s.nextSweep || |s.hits| >= 4096 then c.time + 60 else s.nextSweep
  {
    hide Limit, Span, Trimmed;
    var kept := set k | k in s.hits && (!Due(s, c.time) || (s.hits[k] != []
      && s.hits[k][|s.hits[k]| - 1] + Span(k) > c.time));
    var m := Kept(s, c.time);
    assert m.Keys == kept;
    assert |m.Keys| == |m|;
  }

  lemma UnlimitedCall(r: Rates, s: State, c: Call)
    requires Limit(r, c.key) <= 0
    ensures Grants(r, s, c) && Next(r, s, c) == s
  {
  }

  lemma KeysKept(s: State, t: Time)
    ensures Kept(s, t) == if Due(s, t) then Swept(s.hits, t) else s.hits
    ensures |Kept(s, t)| <= |s.hits|
  {
    SweptCount(s.hits, t);
  }

  lemma LimitedCall(r: Rates, s: State, c: Call)
    requires Limit(r, c.key) > 0
    ensures var m := Kept(s, c.time);
      var q := Trimmed(At(m, c.key), c.time - Span(c.key));
      var sweep := if Due(s, c.time) then c.time + MINUTE else s.nextSweep;
      if c.key !in m && |m| >= MAX_KEYS then Full(r, s, c) && !Grants(r, s, c) && Next(r, s, c) == State(m, sweep)
      else if |q| < Limit(r, c.key) then
        !Full(r, s, c) && Grants(r, s, c) && Next(r, s, c) == State(m[c.key := q + [c.time]], sweep)
      else !Full(r, s, c) && !Grants(r, s, c) && Next(r, s, c) == State(m[c.key := q], sweep)
  {
    hide Limit, Kept, Trimmed, At, Span;
    assert Left(s, c) + [] == Left(s, c);
  }

  class Window {
    const rates: Rates
    var hits: map<string, Hits>
    var nextSweep: Time

    constructor (rates: Rates)
      ensures this.rates == rates && Now() == START && Valid()
    {
      this.rates, hits, nextSweep := rates, map[], 0;
    }

    function Now(): State
      reads this
    {
      State(hits, nextSweep)
    }

    ghost predicate Valid()
      reads this
    {
      |hits| <= MAX_KEYS
    }

    /** One call, whatever time it has read. */
    method Allow(key: string, t: Time) returns (ok: bool)
      requires Valid()
      modifies this
      ensures Valid() && Now() == Next(rates, old(Now()), Call(key, t)) && ok == Grants(rates, old(Now()), Call(key, t))
    {
      hide Limit, Span, Swept, Trimmed, At, Grants, Next, Full, Kept;
      ghost var s, c := Now(), Call(key, t);
      var limit, span := Limit(rates, key), Span(key);
      if limit <= 0 {
        UnlimitedCall(rates, s, c);
        return true;
      }
      KeysKept(s, t);
      if t >= nextSweep || |hits| >= MAX_KEYS {
        Sweep(t);
        nextSweep := t + MINUTE;
      }
      LimitedCall(rates, s, c);
      hide Due;
      if key !in hits && |hits| >= MAX_KEYS {
        return false;
      }
      var q := At(hits, key);
      var i := Expired(q, t - span);
      q := q[i..];
      KeyCount(hits, key, q);
      KeyCount(hits, key, q + [t]);
      if |q| >= limit {
        hits := hits[key := q];
        return false;
      }
      hits := hits[key := q + [t]];
      ok := true;
    }

    /** How many hits at the front are too old to matter. */
    method Expired(q: Hits, cutoff: int) returns (i: nat)
      ensures i <= |q| && q[i..] == Trimmed(q, cutoff)
    {
      i := 0;
      assert q[0..] == q;
      while i < |q| && q[i] <= cutoff
        invariant i <= |q| && Trimmed(q[i..], cutoff) == Trimmed(q, cutoff)
      {
        assert q[i..][0] == q[i] && q[i..][1..] == q[i + 1..];
        i := i + 1;
      }
      if i < |q| { assert q[i..][0] == q[i]; }
    }

    /** Forgets every key whose last hit is too old to matter. */
    method Sweep(t: Time)
      modifies this`hits
      ensures hits == Swept(old(hits), t)
    {
      hide Span;
      var rest := hits.Keys;
      while rest != {}
        invariant rest <= hits.Keys
        invariant forall k :: k in hits ==> k in old(hits) && hits[k] == old(hits)[k]
        invariant forall k :: k in old(hits) && (k in rest || !Stale(old(hits)[k], t - Span(k))) ==> k in hits
        invariant forall k :: k in hits && k !in rest ==> !Stale(hits[k], t - Span(k))
        decreases |rest|
      {
        var k :| k in rest;
        rest := rest - {k};
        var q := hits[k];
        if |q| == 0 || q[|q| - 1] <= t - Span(k) {
          hits := hits - {k};
        }
      }
    }

    /** Calls that enter one after the other. */
    method AllowAll(calls: seq<Call>) returns (oks: seq<bool>)
      requires Valid() && Now() == START
      modifies this
      ensures Valid() && Now() == After(rates, calls) && |oks| == |calls|
      ensures forall i :: 0 <= i < |calls| ==> oks[i] == Grants(rates, After(rates, calls[..i]), calls[i])
    {
      hide Grants, Next;
      oks := [];
      for i := 0 to |calls|
        invariant Valid() && Now() == After(rates, calls[..i]) && |oks| == i
        invariant forall j :: 0 <= j < i ==> oks[j] == Grants(rates, After(rates, calls[..j]), calls[j])
      {
        var ok := Allow(calls[i].key, calls[i].time);
        assert calls[..i + 1][..i] == calls[..i];
        oks := oks + [ok];
      }
      assert calls[..|calls|] == calls;
    }
  }

  // ---------------------------------------------------------------------------
  // Calls that enter in the order of their times
  // ---------------------------------------------------------------------------

  /** Nobody overtakes: the calls enter in the order in which they read the clock. */
  ghost predicate InTurn(calls: seq<Call>) {
    forall i, j :: 0 <= i < j < |calls| ==> calls[i].time <= calls[j].time
  }

  function Latest(calls: seq<Call>): Time { if calls == [] then 0 else calls[|calls| - 1].time }

  /** What the limiter keeps tracks all that it ever granted. */
  ghost predicate Good(r: Rates, s: State, all: map<string, Hits>, last: Time) {
    Tracks(s.hits, all, last) && InOrder(all, last) && WithinLimits(r, all) && |s.hits| <= MAX_KEYS
  }

  lemma {:induction false} InTurnIsGood(r: Rates, calls: seq<Call>)
    requires InTurn(calls)
    ensures Good(r, After(r, calls), Ever(r, calls), Latest(calls))
  {
    if calls != [] {
      var before, c := calls[..|calls| - 1], calls[|calls| - 1];
      InTurnIsGood(r, before);
      assert Latest(before) <= c.time;
      hide After, Ever, Good, Latest, Grants, Next;
      CallKeeps(r, After(r, before), Ever(r, before), Latest(before), c);
      EverMore(r, calls);
    }
  }

  lemma EverMore(r: Rates, calls: seq<Call>)
    requires calls != []
    ensures var before, c := calls[..|calls| - 1], calls[|calls| - 1];
      && After(r, calls) == Next(r, After(r, before), c) && Latest(calls) == c.time
      && Ever(r, calls) == Granted(r, After(r, before), Ever(r, before), c)
  {
    hide Grants, Next, Limit;
  }

  function Granted(r: Rates, s: State, all: map<string, Hits>, c: Call): map<string, Hits> {
    if Limit(r, c.key) > 0 && Grants(r, s, c) then all[c.key := At(all, c.key) + [c.time]] else all
  }

  /** A call in turn keeps the tracking, and is decided as by the limiter that never forgets. */
  lemma CallKeeps(r: Rates, s: State, all: map<string, Hits>, last: Time, c: Call)
    requires Good(r, s, all, last) && last <= c.time
    ensures Good(r, Next(r, s, c), Granted(r, s, all, c), c.time)
    ensures Grants(r, s, c) <==> !Full(r, s, c) && Admits(r, all, c.key, c.time)
  {
    hide Tracks, InOrder, WithinLimits, Live, Limit, Span, Admits, At, Swept, Trimmed;
    var key, t := c.key, c.time;
    TimePasses(s.hits, all, last, t);
    if Limit(r, key) <= 0 {
      Unlimited(r, all, key, t);
      return;
    }
    var m := Kept(s, t);
    SweepKeeps(s.hits, all, t);
    SweptCount(s.hits, t);
    if !Full(r, s, c) {
      var q0, q := At(m, key), Left(s, c);
      TailOrdered(m, all, t, key);
      TrimLive(q0, t, t - Span(key));
      var i := |q0| - |q|;
      AdmitsByTail(r, m, all, key, t, q0);
      TrimKeeps(m, all, t, key, i);
      assert q + [] == q;
      KeyCount(m, key, q);
      KeyCount(m, key, q + [t]);
      if |q| < Limit(r, key) {
        AppendKeeps(r, m, all, t, key, q);
      }
    }
  }

  /** Trimming ordered hits leaves exactly the live ones. */
  lemma {:induction false} TrimLive(q: Hits, last: Time, cutoff: int)
    requires Ordered(q, last)
    ensures var p := Trimmed(q, cutoff);
      && |p| <= |q| && p == q[|q| - |p|..] && |p| == Live(q, cutoff)
      && forall j :: 0 <= j < |q| - |p| ==> q[j] <= cutoff
    decreases |q|
  {
    TrimTails(q, cutoff);
    var p := Trimmed(q, cutoff);
    if p != [] { assert forall j :: |q| - |p| <= j < |q| ==> q[|q| - |p|] <= q[j]; }
    LiveIsTail(q, |q| - |p|, cutoff);
  }

  /** Whatever the order, trimming drops hits that are too old, up to the first that is not. */
  lemma {:induction false} TrimTails(q: Hits, cutoff: int)
    ensures var p := Trimmed(q, cutoff);
      && |p| <= |q| && p == q[|q| - |p|..] && (forall j :: 0 <= j < |q| - |p| ==> q[j] <= cutoff)
      && (p != [] ==> p[0] > cutoff)
    decreases |q|
  {
    if q != [] && q[0] <= cutoff {
      TrimTails(q[1..], cutoff);
      var p := Trimmed(q[1..], cutoff);
      assert p == q[1..][|q| - 1 - |p|..] == q[|q| - |p|..];
      forall j | 0 <= j < |q| - |p| ensures q[j] <= cutoff {
        if j > 0 { assert q[j] == q[1..][j - 1]; }
      }
    } else {
      assert q[0..] == q;
    }
  }

  lemma SweepKeeps(hits: map<string, Hits>, all: map<string, Hits>, t: Time)
    requires Tracks(hits, all, t) && InOrder(all, t)
    ensures Tracks(Swept(hits, t), all, t)
  {
    hide Span, KeepsTail, Ordered;
    forall k ensures KeepsTail(At(Swept(hits, t), k), At(all, k), t - Span(k)) {
      TrackedKey(hits, all, t, k);
      if k in hits && Stale(hits[k], t - Span(k)) {
        TailOrdered(hits, all, t, k);
        AllOld(hits[k], t, t - Span(k));
        TrimTail(hits[k], At(all, k), t - Span(k), |hits[k]|);
        assert hits[k][|hits[k]|..] == [];
      }
    }
  }

  /** When calls enter in turn, every decision is that of the limiter that never forgets, unless the map stays full. */
  lemma DecidesInTurn(r: Rates, calls: seq<Call>, i: nat)
    requires InTurn(calls) && i < |calls|
    ensures var s := After(r, calls[..i]);
      Grants(r, s, calls[i]) <==> !Full(r, s, calls[i]) && Admits(r, Ever(r, calls[..i]), calls[i].key, calls[i].time)
  {
    hide Grants, Full, Admits, After, Ever, Good;
    InTurnIsGood(r, calls[..i]);
    CallKeeps(r, After(r, calls[..i]), Ever(r, calls[..i]), Latest(calls[..i]), calls[i]);
  }

  /** And no key is ever granted more than its limit in a window of its length. */
  lemma NeverOverLimit(r: Rates, calls: seq<Call>, key: string, x: int)
    requires InTurn(calls) && Limit(r, key) > 0
    ensures InWindow(At(Ever(r, calls), key), x, Span(key)) <= Limit(r, key)
  {
    hide Limit, Span, Ever, After, Ordered, Spaced;
    InTurnIsGood(r, calls);
    var all := Ever(r, calls);
    if key in all {
      WindowHoldsLimit(all[key], Latest(calls), Limit(r, key), Span(key), x);
    }
  }

  // ---------------------------------------------------------------------------
  // Calls that overtake
  // ---------------------------------------------------------------------------

  /** The last hit is the latest. */
  ghost predicate LastIsLatest(q: Hits) { forall i :: 0 <= i < |q| ==> q[i] <= q[|q| - 1] }

  /** A sweep, whenever it comes, forgets no key with a live hit: exactly when the last hit is the latest. */
  lemma SweepExactly(q: Hits)
    ensures (forall cutoff: int :: Stale(q, cutoff) ==> Live(q, cutoff) == 0) <==> LastIsLatest(q)
  {
    if LastIsLatest(q) {
      forall cutoff: int | Stale(q, cutoff) ensures Live(q, cutoff) == 0 {
        LiveNone(q, cutoff);
      }
    } else {
      var i :| 0 <= i < |q| && q[i] > q[|q| - 1];
      var cutoff := q[|q| - 1];
      assert Stale(q, cutoff);
      LiveSome(q, i, cutoff);
    }
  }

  lemma {:induction false} LiveSome(q: Hits, i: nat, cutoff: int)
    requires i < |q| && q[i] > cutoff
    ensures Live(q, cutoff) > 0
  {
    if i < |q| - 1 { LiveSome(q[..|q| - 1], i, cutoff); }
  }

  /** Trimming, whenever it comes, leaves the live hits and no others: exactly when the hits are in order. */
  lemma TrimExactly(q: Hits)
    ensures (forall cutoff: int :: |Trimmed(q, cutoff)| == Live(q, cutoff)) <==>
              forall i, j :: 0 <= i < j < |q| ==> q[i] <= q[j]
  {
    if forall i, j :: 0 <= i < j < |q| ==> q[i] <= q[j] {
      forall cutoff: int ensures |Trimmed(q, cutoff)| == Live(q, cutoff) {
        TrimLive(q, if q == [] then 0 else q[|q| - 1], cutoff);
      }
    } else {
      var i, j :| 0 <= i < j < |q| && q[i] > q[j];
      TrimTooMany(q, i, j);
    }
  }

  lemma TrimTooMany(q: Hits, i: nat, j: nat)
    requires i < j < |q| && q[i] > q[j]
    ensures |Trimmed(q, q[j])| > Live(q, q[j])
  {
    var cutoff := q[j];
    TrimTails(q, cutoff);
    var n := |q| - |Trimmed(q, cutoff)|;
    assert n <= i;
    assert q == q[..n] + q[n..];
    LiveSplit(q[..n], q[n..], cutoff);
    LiveNone(q[..n], cutoff);
    assert q[n..][j - n] == q[j];
    LiveMisses(q[n..], j - n, cutoff);
  }

  lemma {:induction false} LiveMisses(q: Hits, i: nat, cutoff: int)
    requires i < |q| && q[i] <= cutoff
    ensures Live(q, cutoff) < |q|
  {
    if i < |q| - 1 { LiveMisses(q[..|q| - 1], i, cutoff); }
  }

  /** Two requests a minute, for keys without a budget of their own. */
  const TWO: Rates := Rates(0, 0, 2, 0)

  lemma PlainKeys()
    ensures Limit(TWO, "x") == Limit(TWO, "y") == 2 && Span("x") == Span("y") == MINUTE && "x" != "y"
  {
    assert "x"[0] != "y"[0];
  }

  lemma OneMoreCall(calls: seq<Call>, c: Call)
    ensures After(TWO, calls + [c]) == Next(TWO, After(TWO, calls), c)
    ensures Ever(TWO, calls + [c]) == Granted(TWO, After(TWO, calls), Ever(TWO, calls), c)
  {
    assert (calls + [c])[..|calls|] == calls;
    hide Next, Grants, Limit;
  }

  /** A call that finds the keys m and, of its own hits, q. */
  lemma CallWith(s: State, c: Call, m: map<string, Hits>, q: Hits)
    requires Limit(TWO, c.key) == 2 && Span(c.key) == MINUTE && Kept(s, c.time) == m && |m| < MAX_KEYS
    requires Trimmed(At(m, c.key), c.time - MINUTE) == q
    ensures !Full(TWO, s, c) && (Grants(TWO, s, c) <==> |q| < 2)
    ensures |q| < 2 ==>
              Next(TWO, s, c)
               == State(m[c.key := q + [c.time]], if Due(s, c.time) then c.time + MINUTE else s.nextSweep)
  {
    hide Limit, Span, Kept, Trimmed, At, Grants, Next, Full;
    LimitedCall(TWO, s, c);
  }

  /** A call of another key at t, then one of x. */
  lemma TwoCalls(t: Time)
    requires 10 <= t < MINUTE
    ensures After(TWO, [Call("y", t), Call("x", 11)]) == State(map["y" := [t], "x" := [11]], t + MINUTE)
    ensures Ever(TWO, [Call("y", t), Call("x", 11)]) == map["y" := [t], "x" := [11]]
  {
    PlainKeys();
    hide Limit, Span, Grants, Next, Full, After, Ever, Swept;
    var c1, c2 := Call("y", t), Call("x", 11);
    var m1 := map["y" := [t]];
    NoCalls();
    CallWith(START, c1, map[], []);
    OneMoreCall([], c1);
    assert [] + [c1] == [c1] && [] + [t] == [t];
    CallWith(State(m1, t + MINUTE), c2, m1, []);
    OneMoreCall([c1], c2);
    assert [c1] + [c2] == [c1, c2] && m1["x" := [11]] == map["y" := [t], "x" := [11]] && [] + [11] == [11];
  }

  /** A third call, of x again, which the second one has overtaken. */
  lemma Overtaken(t: Time) returns (calls: seq<Call>)
    requires 10 <= t < MINUTE
    ensures calls == [Call("y", t), Call("x", 11), Call("x", 10)]
    ensures After(TWO, calls) == State(map["y" := [t], "x" := [11, 10]], t + MINUTE)
    ensures Ever(TWO, calls) == map["y" := [t], "x" := [11, 10]]
  {
    PlainKeys();
    TwoCalls(t);
    hide Limit, Span, Grants, Next, Full, After, Ever, Swept;
    var two, c := [Call("y", t), Call("x", 11)], Call("x", 10);
    var m := map["y" := [t], "x" := [11]];
    CallWith(State(m, t + MINUTE), c, m, [11]);
    OneMoreCall(two, c);
    calls := two + [c];
    assert [11] + [10] == [11, 10] && m["x" := [11, 10]] == map["y" := [t], "x" := [11, 10]];
  }

  lemma NoCalls()
    ensures After(TWO, []) == START && Ever(TWO, []) == map[] && Swept(map[], 0) == map[]
    ensures forall t: Time :: Swept(map[], t) == map[]
  {
  }

  /** The sweep forgets a live hit, and three of two are granted within a minute. */
  lemma OvertakingExceedsLimit() returns (calls: seq<Call>, x: int)
    ensures Limit(TWO, "x") == 2 && InWindow(At(Ever(TWO, calls), "x"), x, Span("x")) == 3
  {
    hide Limit, Span, Grants, Next, Full, After, Ever, Swept;
    var before := Overtaken(10);
    PlainKeys();
    var s3, c := State(map["y" := [10], "x" := [11, 10]], 70), Call("x", 70);
    AllSwept();
    CallWith(s3, c, map[], []);
    OneMoreCall(before, c);
    var s4 := State(map["x" := [70]], 130);
    assert [] + [70] == [70] && [11, 10] + [70] == [11, 10, 70];
    CallWith(s4, c, s4.hits, [70]);
    OneMoreCall(before + [c], c);
    assert [11, 10, 70] + [70] == [11, 10, 70, 70];
    calls, x := before + [c] + [c], 10;
    FourHits();
  }

  lemma AllSwept()
    ensures Swept(map["y" := [10], "x" := [11, 10]], 70) == map[]
  {
    PlainKeys();
    hide Span;
  }

  lemma FourHits()
    ensures InWindow([11, 10, 70, 70], 10, MINUTE) == 3
  {
    var q: Hits := [11, 10, 70, 70];
    assert q[..3] == [11, 10, 70] && q[..3][..2] == [11, 10] && q[..3][..2][..1] == [11] && [11][..0] == [];
    assert InWindow([11], 10, MINUTE) == 1;
    assert InWindow([11, 10], 10, MINUTE) == 1;
    assert InWindow([11, 10, 70], 10, MINUTE) == 2;
  }

  /** Without a sweep, a live hit in front of an old one keeps it from being trimmed: a call is refused too early. */
  lemma OvertakingRefusesEarly() returns (calls: seq<Call>, c: Call)
    ensures !Grants(TWO, After(TWO, calls), c) && !Full(TWO, After(TWO, calls), c)
    ensures Admits(TWO, Ever(TWO, calls), c.key, c.time)
  {
    calls := Overtaken(12);
    c := Call("x", 70);
    PlainKeys();
    hide Limit, Span, Grants, Next, Full, After, Ever, Swept;
    var s := State(map["y" := [12], "x" := [11, 10]], 72);
    CallWith(s, c, s.hits, [11, 10]);
    assert [11, 10][..1] == [11] && [11][..0] == [];
    assert Live([11], 10) == 1 && Live([11, 10], 10) == 1;
  }

  /** A key's entry adds at most one key. */
  lemma KeyCount(hits: map<string, Hits>, key: string, q: Hits)
    ensures hits[key := q].Keys == hits.Keys + {key}
    ensures |hits[key := q]| == |hits| + if key in hits then 0 else 1
  {
    assert |hits[key := q].Keys| == |hits[key := q]| && |hits.Keys| == |hits|;
  }

  /** A sweep adds no key. */
  lemma SweptCount(hits: map<string, Hits>, t: Time)
    ensures |Swept(hits, t)| <= |hits|
  {
    assert Swept(hits, t).Keys <= hits.Keys;
    SubsetSize(Swept(hits, t).Keys, hits.Keys);
  }

  lemma TimePasses(hits: map<string, Hits>, all: map<string, Hits>, last: Time, t: Time)
    requires Tracks(hits, all, last) && InOrder(all, last) && last <= t
    ensures Tracks(hits, all, t) && InOrder(all, t)
  {
    hide Span;
    forall k ensures KeepsTail(At(hits, k), At(all, k), t - Span(k)) {
      assert KeepsTail(At(hits, k), At(all, k), last - Span(k));
    }
  }

  lemma Unlimited(r: Rates, all: map<string, Hits>, key: string, t: Time)
    requires Limit(r, key) <= 0
    ensures Admits(r, all, key, t)
  {
  }

  lemma TailOrdered(hits: map<string, Hits>, all: map<string, Hits>, t: Time, key: string)
    requires Tracks(hits, all, t) && InOrder(all, t)
    ensures Ordered(At(hits, key), t)
  {
    hide Span;
    assert KeepsTail(At(hits, key), At(all, key), t - Span(key));
  }

  /** The kept tail decides as all hits would. */
  lemma AdmitsByTail(r: Rates, hits: map<string, Hits>, all: map<string, Hits>, key: string, t: Time, q: Hits)
    requires Tracks(hits, all, t) && q == At(hits, key) && Limit(r, key) > 0
    ensures Admits(r, all, key, t) <==> Live(q, t - Span(key)) < Limit(r, key)
  {
    hide Span, Limit;
    var a := At(all, key);
    assert KeepsTail(q, a, t - Span(key));
    var n := |a| - |q|;
    assert a == a[..n] + q;
    LiveSplit(a[..n], q, t - Span(key));
    LiveNone(a[..n], t - Span(key));
  }

  /** Changing what is known of one key leaves the others tracked. */
  lemma PutKeeps(hits: map<string, Hits>, all: map<string, Hits>, t: Time, key: string, q: Hits, a: Hits)
    requires Tracks(hits, all, t) && KeepsTail(q, a, t - Span(key))
    ensures Tracks(hits[key := q], all[key := a], t)
    ensures a == At(all, key) ==> Tracks(hits[key := q], all, t)
  {
    hide Span, KeepsTail;
    forall k ensures KeepsTail(At(hits[key := q], k), At(all[key := a], k), t - Span(k)) {
      assert KeepsTail(At(hits, k), At(all, k), t - Span(k));
    }
    if a == At(all, key) {
      forall k ensures At(all[key := a], k) == At(all, k) {
      }
    }
  }

  lemma TrimKeeps(hits: map<string, Hits>, all: map<string, Hits>, t: Time, key: string, i: nat)
    requires Tracks(hits, all, t) && i <= |At(hits, key)| && forall j :: 0 <= j < i ==>
               At(hits, key)[j] <= t - Span(key)
    ensures Tracks(hits[key := At(hits, key)[i..]], all, t)
  {
    hide Span;
    var q, a := At(hits, key), At(all, key);
    assert KeepsTail(q, a, t - Span(key));
    TrimTail(q, a, t - Span(key), i);
    PutKeeps(hits, all, t, key, q[i..], a);
  }

  lemma TrimTail(q: Hits, a: Hits, cutoff: int, i: nat)
    requires KeepsTail(q, a, cutoff) && i <= |q| && forall j :: 0 <= j < i ==> q[j] <= cutoff
    ensures KeepsTail(q[i..], a, cutoff)
  {
    var n := |a| - |q|;
    forall j | 0 <= j < n + i ensures a[j] <= cutoff {
      if j >= n { assert a[j] == q[j - n]; }
    }
  }

  lemma AllOld(q: Hits, last: Time, cutoff: int)
    requires Ordered(q, last) && (|q| == 0 || q[|q| - 1] <= cutoff)
    ensures forall j :: 0 <= j < |q| ==> q[j] <= cutoff
  {
  }

  /** An admitted hit keeps the hits spaced. */
  lemma AppendKeeps(r: Rates, hits: map<string, Hits>, all: map<string, Hits>, t: Time, key: string, q: Hits)
    requires Tracks(hits[key := q], all, t) && InOrder(all, t) && WithinLimits(r, all)
    requires Limit(r, key) > 0 && |q| < Limit(r, key)
    ensures var all' := all[key := At(all, key) + [t]];
      Tracks(hits[key := q + [t]], all', t) && InOrder(all', t) && WithinLimits(r, all')
  {
    hide Span, Limit, KeepsTail, Tracks, InOrder, WithinLimits;
    var a := At(all, key);
    TrackedKey(hits[key := q], all, t, key);
    AppendTail(q, a, t, t - Span(key));
    PutKeeps(hits[key := q], all, t, key, q + [t], a + [t]);
    assert hits[key := q][key := q + [t]] == hits[key := q + [t]];
    AppendInOrder(all, t, key);
    AppendWithin(r, all, t, key, q);
  }

  lemma AppendInOrder(all: map<string, Hits>, t: Time, key: string)
    requires InOrder(all, t)
    ensures InOrder(all[key := At(all, key) + [t]], t)
  {
    AppendOrdered(At(all, key), t);
    hide Ordered;
  }

  lemma AppendWithin(r: Rates, all: map<string, Hits>, t: Time, key: string, q: Hits)
    requires WithinLimits(r, all) && Limit(r, key) > |q| && KeepsTail(q, At(all, key), t - Span(key))
    ensures WithinLimits(r, all[key := At(all, key) + [t]])
  {
    hide Limit, Span, KeepsTail, Spaced;
    NothingSpaced(Limit(r, key), Span(key));
    TailSpaced(q, At(all, key), t, Limit(r, key), Span(key));
  }

  lemma NothingSpaced(limit: nat, span: nat)
    ensures Spaced([], limit, span)
  {
  }

  lemma TrackedKey(hits: map<string, Hits>, all: map<string, Hits>, t: Time, key: string)
    requires Tracks(hits, all, t)
    ensures KeepsTail(At(hits, key), At(all, key), t - Span(key))
  {
  }

  lemma AppendOrdered(a: Hits, t: Time)
    requires Ordered(a, t)
    ensures Ordered(a + [t], t)
  {
    var b := a + [t];
    assert b[|a|] == t && forall i :: 0 <= i < |a| ==> b[i] == a[i];
  }

  lemma AppendTail(q: Hits, a: Hits, t: Time, cutoff: int)
    requires KeepsTail(q, a, cutoff)
    ensures KeepsTail(q + [t], a + [t], cutoff)
  {
    var n := |a| - |q|;
    assert (a + [t])[n..] == q + [t];
    assert forall j :: 0 <= j < n ==> (a + [t])[j] == a[j];
  }

  lemma TailSpaced(q: Hits, a: Hits, t: Time, limit: nat, span: nat)
    requires KeepsTail(q, a, t - span) && Spaced(a, limit, span) && |q| < limit
    ensures Spaced(a + [t], limit, span)
  {
    SpacedMore(a, t, limit, span, |a| - |q|);
  }

  lemma SpacedMore(a: Hits, t: Time, limit: nat, span: nat, n: nat)
    requires Spaced(a, limit, span) && n <= |a| && |a| - n < limit
    requires forall i :: 0 <= i < n ==> a[i] <= t - span
    ensures Spaced(a + [t], limit, span)
  {
    var b := a + [t];
    forall i | 0 <= i && i + limit < |b| ensures b[i] + span <= b[i + limit] {
      assert b[i] == a[i];
      if i + limit < |a| { assert b[i + limit] == a[i + limit]; }
    }
  }
}
