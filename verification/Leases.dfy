// The mutation lease: one token in a channel, taken by the writers of every surface in
// turn. Waiting can be cancelled and releasing twice is harmless. Every method is one
// atomic step of one acquisition; an interleaving is any sequence of such steps.
module Leases {

  type Caller = nat

  /**
   * Where an acquisition is: its first attempt failed (Turned), it waits and is counted
   * (Parked), it has put the token in and looks once more whether it was cancelled
   * (Checking), it is about to stop counting itself (Uncounting), it holds the lease, or
   * it has released it.
   */
  datatype Place = Turned | Parked | Checking(counted: bool) | Uncounting(granted: bool) | Holding | Released

  /** Whether the token in the channel is this acquisition's. */
  predicate OwnsToken(p: Place) { p.Checking? || p == Uncounting(true) || p.Holding? }

  predicate IsCounted(p: Place) { p.Parked? || p == Checking(true) || p.Uncounting? }

  function Waiting(places: map<Caller, Place>): set<Caller> { set t | t in places && IsCounted(places[t]) }

  datatype Step =
    | Arrive(t: Caller, cancelled: bool) | Park(t: Caller) | Take(t: Caller) | GiveUp(t: Caller)
    | Check(t: Caller, cancelled: bool) | Uncount(t: Caller) | Release(t: Caller)

  datatype State = State(full: bool, waiters: int, places: map<Caller, Place>)

  const START: State := State(false, 0, map[])

  /** One token, one owner, and an exact count of those who wait. */
  ghost predicate Good(s: State) {
    && s.waiters == |Waiting(s.places)|
    && (s.full <==> exists t :: t in s.places && OwnsToken(s.places[t]))
    && forall a, b :: a in s.places && b in s.places && OwnsToken(s.places[a]) && OwnsToken(s.places[b]) ==> a == b
  }

  predicate Enabled(s: State, step: Step) {
    match step
    case Arrive(t, _) => t !in s.places
    case Park(t) => t in s.places && s.places[t].Turned?
    case Take(t) => t in s.places && s.places[t].Parked? && !s.full
    case GiveUp(t) => t in s.places && s.places[t].Parked?
    case Check(t, _) => t in s.places && s.places[t].Checking?
    case Uncount(t) => t in s.places && s.places[t].Uncounting?
    case Release(t) => t in s.places && (s.places[t].Holding? || s.places[t].Released?)
  }

  /** One step of one acquisition; a step whose turn has not come changes nothing. */
  function Next(s: State, step: Step): State {
    if !Enabled(s, step) then s
    else
      match step
      case Arrive(t, cancelled) =>
        if cancelled then s else State(true, s.waiters, s.places[t := if s.full then Turned else Checking(false)])
      case Park(t) => State(s.full, s.waiters + 1, s.places[t := Parked])
      case Take(t) => State(true, s.waiters, s.places[t := Checking(true)])
      case GiveUp(t) => State(s.full, s.waiters, s.places[t := Uncounting(false)])
      case Check(t, cancelled) =>
        State(!cancelled, s.waiters,
              if s.places[t].counted then s.places[t := Uncounting(!cancelled)]
              else if cancelled then s.places - {t} else s.places[t := Holding])
      case Uncount(t) =>
        State(s.full, s.waiters - 1, if s.places[t].granted then s.places[t := Holding] else s.places - {t})
      case Release(t) => State(s.full && s.places[t].Released?, s.waiters, s.places[t := Released])
  }

  /** Where a schedule leads. */
  function After(s: State, schedule: seq<Step>): State {
    if schedule == [] then s else Next(After(s, schedule[..|schedule| - 1]), schedule[|schedule| - 1])
  }

  lemma StepKeeps(s: State, step: Step)
    requires Good(s)
    ensures Good(Next(s, step))
  {
    if Enabled(s, step) {
      var places := Next(s, step).places;
      StepCounts(s, step);
      match step {
        case Arrive(t, cancelled) => if !cancelled { OwnersAfter(s, t, places[t]); }
        case Park(t) => OwnersAfter(s, t, Parked);
        case Take(t) => OwnersAfter(s, t, Checking(true));
        case GiveUp(t) => OwnersAfter(s, t, Uncounting(false));
        case Check(t, cancelled) => if t in places { OwnersAfter(s, t, places[t]); } else { OwnersWithout(s, t); }
        case Uncount(t) => if t in places { OwnersAfter(s, t, places[t]); } else { OwnersWithout(s, t); }
        case Release(t) => OwnersAfter(s, t, Released);
      }
    }
  }

  lemma StepCounts(s: State, step: Step)
    requires Good(s) && Enabled(s, step)
    ensures Next(s, step).waiters == |Waiting(Next(s, step).places)|
  {
    var places := Next(s, step).places;
    hide Waiting;
    if step.t in places {
      MoveCounts(s.places, step.t, places[step.t]);
      if step.Arrive? && step.cancelled {
      } else {
        assert places == s.places[step.t := places[step.t]];
      }
    } else if step.t in s.places {
      LeaveCounts(s.places, step.t);
    }
  }

  /** Who owns the token when one acquisition moves on. */
  lemma OwnersAfter(s: State, t: Caller, p: Place)
    requires Good(s) && (OwnsToken(p) ==> !s.full || (t in s.places && OwnsToken(s.places[t])))
    ensures var places := s.places[t := p];
      && ((exists a :: a in places && OwnsToken(places[a])) <==>
            OwnsToken(p) || (s.full && !(t in s.places && OwnsToken(s.places[t]))))
      && forall a, b :: a in places && b in places && OwnsToken(places[a]) && OwnsToken(places[b]) ==> a == b
  {
    hide OwnsToken, Waiting;
    var places := s.places[t := p];
    if OwnsToken(p) { assert places[t] == p; }
    if s.full {
      var a :| a in s.places && OwnsToken(s.places[a]);
      assert a != t ==> places[a] == s.places[a];
    }
  }

  lemma OwnersWithout(s: State, t: Caller)
    requires Good(s) && t in s.places
    ensures var places := s.places - {t};
      && ((exists a :: a in places && OwnsToken(places[a])) <==> s.full && !OwnsToken(s.places[t]))
      && forall a, b :: a in places && b in places && OwnsToken(places[a]) && OwnsToken(places[b]) ==> a == b
  {
    hide OwnsToken, Waiting;
    var places := s.places - {t};
    if s.full {
      var a :| a in s.places && OwnsToken(s.places[a]);
      assert a != t ==> a in places && places[a] == s.places[a];
    }
  }

  lemma OwnerFills(s: State, t: Caller)
    requires Good(s) && t in s.places && OwnsToken(s.places[t])
    ensures s.full
  {
  }

  /** The invariant holds after every schedule, from the start. */
  lemma {:induction false} RunKeeps(schedule: seq<Step>)
    ensures Good(After(START, schedule))
  {
    hide Next, Good;
    if schedule == [] {
      StartGood();
    } else {
      RunKeeps(schedule[..|schedule| - 1]);
      StepKeeps(After(START, schedule[..|schedule| - 1]), schedule[|schedule| - 1]);
    }
  }

  lemma StartGood()
    ensures Good(START)
  {
    assert Waiting(START.places) == {};
  }

  /** In every interleaving at most one caller holds the lease, and it is free exactly when nobody owns it. */
  lemma EveryRun(schedule: seq<Step>)
    ensures var s := After(START, schedule);
      && (forall a, b :: a in s.places && b in s.places && s.places[a].Holding? && s.places[b].Holding? ==> a == b)
      && (!s.full <==> forall t :: t in s.places ==> !OwnsToken(s.places[t]))
      && s.waiters == |Waiting(s.places)|
  {
    RunKeeps(schedule);
    hide After, Waiting;
  }

  class Lease {
    /** Whether the channel holds its one token. */
    var full: bool
    var waiters: int
    var places: map<Caller, Place>

    constructor ()
      ensures Valid() && Now() == START
    {
      full, waiters, places := false, 0, map[];
      new;
      StartGood();
    }

    function Now(): State
      reads this
    {
      State(full, waiters, places)
    }

    ghost predicate Valid()
      reads this
    {
      Good(Now())
    }

    /** A call that is cancelled already is refused; else it tries once without waiting. */
    method TryOnce(t: Caller, cancelled: bool)
      requires Valid() && t !in places
      modifies this
      ensures Valid() && Now() == Next(old(Now()), Arrive(t, cancelled))
      ensures cancelled ==> unchanged(this)
    {
      StepKeeps(Now(), Arrive(t, cancelled));
      hide Good;
      if cancelled {
        return;
      }
      if full {
        places := places[t := Turned];
      } else {
        full, places := true, places[t := Checking(false)];
      }
    }

    method CountIn(t: Caller)
      requires Valid() && Enabled(Now(), Park(t))
      modifies this
      ensures Valid() && Now() == Next(old(Now()), Park(t)) && waiters == old(waiters) + 1 && full == old(full)
    {
      StepKeeps(Now(), Park(t));
      hide Good;
      waiters, places := waiters + 1, places[t := Parked];
    }

    /** The waiting send succeeds: only while the channel is empty. */
    method TakeToken(t: Caller)
      requires Valid() && Enabled(Now(), Take(t))
      modifies this
      ensures Valid() && Now() == Next(old(Now()), Take(t)) && !old(full) && full
    {
      StepKeeps(Now(), Take(t));
      hide Good;
      full, places := true, places[t := Checking(true)];
    }

    /** Or the caller's context ends first. */
    method StopWaiting(t: Caller)
      requires Valid() && Enabled(Now(), GiveUp(t))
      modifies this
      ensures Valid() && Now() == Next(old(Now()), GiveUp(t)) && full == old(full)
    {
      StepKeeps(Now(), GiveUp(t));
      hide Good;
      places := places[t := Uncounting(false)];
    }

    /** With the token in, a cancelled call takes it out again. */
    method CheckCancelled(t: Caller, cancelled: bool)
      requires Valid() && Enabled(Now(), Check(t, cancelled))
      modifies this
      ensures Valid() && Now() == Next(old(Now()), Check(t, cancelled)) && full == !cancelled
    {
      StepKeeps(Now(), Check(t, cancelled));
      OwnerFills(Now(), t);
      hide Good;
      if cancelled {
        full := false;
        if places[t].counted {
          places := places[t := Uncounting(false)];
        } else {
          places := places - {t};
        }
      } else {
        places := places[t := if places[t].counted then Uncounting(true) else Holding];
      }
    }

    method CountOut(t: Caller)
      requires Valid() && Enabled(Now(), Uncount(t))
      modifies this
      ensures Valid() && Now() == Next(old(Now()), Uncount(t)) && waiters == old(waiters) - 1 && full == old(full)
    {
      StepKeeps(Now(), Uncount(t));
      hide Good;
      if places[t].granted {
        places := places[t := Holding];
      } else {
        places := places - {t};
      }
      waiters := waiters - 1;
    }

    /** The release function takes the token out the first time it is called, and does nothing after that. */
    method ReleaseOnce(t: Caller)
      requires Valid() && Enabled(Now(), Release(t))
      modifies this
      ensures Valid() && Now() == Next(old(Now()), Release(t))
      ensures old(places)[t].Released? ==> full == old(full) && places == old(places)
    {
      StepKeeps(Now(), Release(t));
      hide Good;
      if places[t].Holding? {
        places := places[t := Released];
        full := false;
      } else {
        assert places == places[t := Released];
      }
    }

    /** Runs any schedule; a step that is not enabled when its turn comes is passed over. */
    method Run(schedule: seq<Step>)
      requires Valid()
      modifies this
      ensures Valid() && Now() == After(old(Now()), schedule)
    {
      hide Good;
      assert schedule[..0] == [];
      for i := 0 to |schedule|
        invariant Valid() && Now() == After(old(Now()), schedule[..i])
      {
        assert schedule[..i + 1][..i] == schedule[..i];
        match schedule[i] {
          case Arrive(t, cancelled) => if t !in places { TryOnce(t, cancelled); }
          case Park(t) => if Enabled(Now(), Park(t)) { CountIn(t); }
          case Take(t) => if Enabled(Now(), Take(t)) { TakeToken(t); }
          case GiveUp(t) => if Enabled(Now(), GiveUp(t)) { StopWaiting(t); }
          case Check(t, cancelled) => if Enabled(Now(), Check(t, cancelled)) { CheckCancelled(t, cancelled); }
          case Uncount(t) => if Enabled(Now(), Uncount(t)) { CountOut(t); }
          case Release(t) => if Enabled(Now(), Release(t)) { ReleaseOnce(t); }
        }
      }
      assert schedule[..|schedule|] == schedule;
    }

    /** At most one caller holds the lease, and then the channel is full. */
    lemma OneHolder(a: Caller, b: Caller)
      requires Valid() && a in places && b in places && places[a].Holding? && places[b].Holding?
      ensures a == b && full
    {
    }

    /** The token is never lost: the channel is full exactly while some caller owns it. */
    lemma TokenOwned()
      requires Valid()
      ensures !full <==> forall t :: t in places ==> !OwnsToken(places[t])
    {
    }
  }

  lemma MoveCounts(places: map<Caller, Place>, t: Caller, p: Place)
    ensures |Waiting(places[t := p])| ==
            |Waiting(places)| - (if t in places && IsCounted(places[t]) then 1 else 0) + (if IsCounted(p) then 1 else 0)
  {
    hide IsCounted, Waiting;
    var after := places[t := p];
    SizeWithout(Waiting(places), t);
    SizeWithout(Waiting(after), t);
    IsWaiting(places, t);
    IsWaiting(after, t);
    forall x | x != t ensures x in Waiting(places) <==> x in Waiting(after) {
      IsWaiting(places, x);
      IsWaiting(after, x);
    }
    assert Waiting(places) - {t} == Waiting(after) - {t};
  }

  lemma IsWaiting(places: map<Caller, Place>, x: Caller)
    ensures x in Waiting(places) <==> x in places && IsCounted(places[x])
  {
  }

  lemma LeaveCounts(places: map<Caller, Place>, t: Caller)
    requires t in places
    ensures |Waiting(places - {t})| == |Waiting(places)| - if IsCounted(places[t]) then 1 else 0
  {
    SizeWithout(Waiting(places), t);
    assert Waiting(places - {t}) == Waiting(places) - {t} by {
      hide IsCounted;
    }
  }

  lemma SizeWithout(s: set<Caller>, t: Caller)
    ensures |s - {t}| == |s| - if t in s then 1 else 0
  {
  }
}
