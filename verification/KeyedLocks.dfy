// The reference-counted keyed lock. Every method is one atomic step of one caller: what it
// does inside the coordinator's mutex, or a lock or unlock of one lock object. An
// interleaving of callers is any sequence of such steps.
module KeyedLocks {
  import opened Text
  import opened DnSyntax

  type Caller = nat
  type LockId = nat

  function KeyOf(key: string): string { Lower(TrimSpace(key)) }

  /** Where a caller is between its steps. */
  datatype Place =
    | Waiting(key: string, lock: LockId)
    | Holding(key: string, lock: LockId)
    | Leaving(key: string, lock: LockId)

  /** Callers that count towards a lock object: those waiting for it, holding it, or about to drop their reference. */
  function Users(places: map<Caller, Place>, l: LockId): set<Caller> { set t | t in places && places[t].lock == l }

  /** Callers concerned with a key. */
  function CallersOf(places: map<Caller, Place>, key: string): set<Caller> {
    set t | t in places && places[t].key == key
  }

  /** Every caller uses the lock object its key is mapped to. */
  ghost predicate Placed(places: map<Caller, Place>, locks: map<string, LockId>) {
    forall t :: t in places ==> places[t].key in locks && locks[places[t].key] == places[t].lock
  }

  ghost predicate Referenced(locks: map<string, LockId>, refs: map<LockId, nat>) {
    forall k :: k in locks ==> locks[k] in refs && refs[locks[k]] > 0
  }

  ghost predicate Separate(locks: map<string, LockId>) {
    forall j, k :: j in locks && k in locks && locks[j] == locks[k] ==> j == k
  }

  /** A count is the number of users. */
  ghost predicate Counted(refs: map<LockId, nat>, places: map<Caller, Place>, made: nat) {
    forall l :: l in refs ==> l < made && refs[l] == |Users(places, l)|
  }

  ghost predicate HoldersOwn(places: map<Caller, Place>, owner: map<LockId, Caller>) {
    forall t :: t in places && places[t].Holding? ==> places[t].lock in owner && owner[places[t].lock] == t
  }

  ghost predicate OwnersHold(owner: map<LockId, Caller>, places: map<Caller, Place>) {
    forall l :: l in owner ==> owner[l] in places && places[owner[l]].Holding? && places[owner[l]].lock == l
  }

  /**
   * The lock objects by key, the reference count of every lock object ever made, who holds
   * which, and where callers are.
   */
  datatype State = State(
    locks: map<string, LockId>, refs: map<LockId, nat>, owner: map<LockId, Caller>, places: map<Caller, Place>,
        made: nat)

  const START: State := State(map[], map[], map[], map[], 0)

  ghost predicate Good(s: State) {
    && Placed(s.places, s.locks) && Referenced(s.locks, s.refs) && Separate(s.locks)
    && Counted(s.refs, s.places, s.made) && HoldersOwn(s.places, s.owner) && OwnersHold(s.owner, s.places)
  }

  datatype Step = Enter(t: Caller, key: string) | Acquire(t: Caller) | Unlock(t: Caller) | Leave(t: Caller)

  predicate Enabled(s: State, step: Step) {
    match step
    case Enter(t, _) => t !in s.places
    case Acquire(t) => t in s.places && s.places[t].Waiting? && s.places[t].lock !in s.owner
    case Unlock(t) => t in s.places && s.places[t].Holding?
    case Leave(t) => t in s.places && s.places[t].Leaving?
  }

  function Entered(s: State, t: Caller, key: string): State {
    var l := if key in s.locks then s.locks[key] else s.made;
    State(s.locks[key := l], s.refs[l := 1 + if key in s.locks && l in s.refs then s.refs[l] else 0], s.owner,
          s.places[t := Waiting(key, l)], if key in s.locks then s.made else s.made + 1)
  }

  function Left(s: State, t: Caller): State
    requires t in s.places
  {
    var l := s.places[t].lock;
    if l !in s.refs || s.refs[l] <= 1 then
      s.(refs := s.refs[l := 0], places := s.places - {t}, locks := s.locks - {s.places[t].key})
    else s.(refs := s.refs[l := s.refs[l] - 1], places := s.places - {t})
  }

  /** One step of one caller; a step whose turn has not come changes nothing. */
  function Next(s: State, step: Step): State {
    if !Enabled(s, step) then s
    else
      match step
      case Enter(t, key) => Entered(s, t, KeyOf(key))
      case Acquire(t) => s.(owner := s.owner[s.places[t].lock := t],
          places := s.places[t := Holding(s.places[t].key, s.places[t].lock)])
      case Unlock(t) => s.(owner := s.owner - {s.places[t].lock},
          places := s.places[t := Leaving(s.places[t].key, s.places[t].lock)])
      case Leave(t) => Left(s, t)
  }

  /** Where a schedule leads. */
  function After(s: State, schedule: seq<Step>): State {
    if schedule == [] then s else Next(After(s, schedule[..|schedule| - 1]), schedule[|schedule| - 1])
  }

  lemma StepKeeps(s: State, step: Step)
    requires Good(s)
    ensures Good(Next(s, step))
  {
    hide Placed, Referenced, Separate, Counted, HoldersOwn, OwnersHold, KeyOf;
    if Enabled(s, step) {
      match step {
        case Enter(t, key) => EnterKeeps(s, t, KeyOf(key));
        case Acquire(t) =>
          MoveKeeps(s.locks, s.refs, s.places, s.made, t, Holding(s.places[t].key, s.places[t].lock));
          TakeKeeps(s.places, s.owner, t);
        case Unlock(t) =>
          MoveKeeps(s.locks, s.refs, s.places, s.made, t, Leaving(s.places[t].key, s.places[t].lock));
          DropKeeps(s.places, s.owner, t);
        case Leave(t) =>
          LeaveKeeps(s.locks, s.refs, s.places, s.owner, s.made, t);
          var l := s.places[t].lock;
          if s.refs[l] == 1 {
            ForgetLock(s.locks, s.refs[l := 0], s.places - {t}, s.made, s.places[t].key);
          }
      }
    }
  }

  lemma EnterKeeps(s: State, t: Caller, key: string)
    requires Good(s) && t !in s.places
    ensures Good(Entered(s, t, key))
  {
    hide Placed, Referenced, Separate, Counted, HoldersOwn, OwnersHold;
    if key !in s.locks {
      MakeLock(s.locks, s.refs, s.places, s.made, key);
      var locks, refs := s.locks[key := s.made], s.refs[s.made := 0];
      JoinKeeps(locks, refs, s.places, s.owner, s.made + 1, t, key);
      assert refs[s.made := 1] == s.refs[s.made := 1];
    } else {
      AllReferenced(s.locks, s.refs);
      JoinKeeps(s.locks, s.refs, s.places, s.owner, s.made, t, key);
      assert s.locks[key := s.locks[key]] == s.locks;
    }
  }

  /** The invariant holds after every schedule, from the start. */
  lemma {:induction false} RunKeeps(schedule: seq<Step>)
    ensures Good(After(START, schedule))
  {
    hide Next, Placed, Referenced, Separate, Counted, HoldersOwn, OwnersHold;
    if schedule == [] {
      StartGood();
    } else {
      RunKeeps(schedule[..|schedule| - 1]);
      StepKeeps(After(START, schedule[..|schedule| - 1]), schedule[|schedule| - 1]);
    }
  }

  lemma StartGood()
    ensures Good(START)
  {
  }

  /**
   * In every interleaving: one holder a key, one lock object a key, and an entry exactly
   * while someone is concerned with it.
   */
  lemma EveryRun(schedule: seq<Step>)
    ensures var s := After(START, schedule);
      && (forall a, b ::
          a in s.places && b in s.places && s.places[a].Holding? && s.places[b].Holding?
              && s.places[a].key == s.places[b].key ==>
            a == b)
      && (forall a, b :: a in s.places && b in s.places ==>
          (s.places[a].key == s.places[b].key <==> s.places[a].lock == s.places[b].lock))
      && (forall key :: key in s.locks <==> CallersOf(s.places, key) != {})
      && forall key :: key in s.locks ==> s.locks[key] in s.refs && s.refs[s.locks[key]] == |CallersOf(s.places, key)|
  {
    var s := After(START, schedule);
    RunKeeps(schedule);
    hide After, Next;
    forall key
      ensures key in s.locks <==> CallersOf(s.places, key) != {}
      ensures key in s.locks ==> s.locks[key] in s.refs && s.refs[s.locks[key]] == |CallersOf(s.places, key)|
    {
      Concerned(s, key);
    }
  }

  lemma Concerned(s: State, key: string)
    requires Good(s)
    ensures key in s.locks <==> CallersOf(s.places, key) != {}
    ensures key in s.locks ==> s.locks[key] in s.refs && s.refs[s.locks[key]] == |CallersOf(s.places, key)|
  {
    if key in s.locks {
      var l := s.locks[key];
      assert Users(s.places, l) == CallersOf(s.places, key);
      assert Users(s.places, l) != {};
    } else {
      assert forall t :: t in s.places ==> s.places[t].key != key;
    }
  }

  class Coordinator {
    /** The lock objects by key. */
    var locks: map<string, LockId>
    /** Reference count of every lock object ever made. */
    var refs: map<LockId, nat>
    /** Who holds the mutex of a lock object. */
    var owner: map<LockId, Caller>
    var places: map<Caller, Place>
    var made: nat

    constructor ()
      ensures Valid() && Now() == START
    {
      locks, refs, owner, places, made := map[], map[], map[], map[], 0;
      new;
      StartGood();
    }

    function Now(): State
      reads this
    {
      State(locks, refs, owner, places, made)
    }

    ghost predicate Valid()
      reads this
    {
      Good(Now())
    }

    /** The critical section at the start of Lock: find or make the lock object, and count in. */
    method CountIn(t: Caller, key0: string)
      requires Valid() && t !in places
      modifies this
      ensures Valid() && Now() == Next(old(Now()), Enter(t, key0))
      ensures KeyOf(key0) in old(locks) ==> places[t] == Waiting(KeyOf(key0), old(locks)[KeyOf(key0)])
    {
      hide Placed, Separate, Counted, HoldersOwn, OwnersHold, KeyOf;
      StepKeeps(Now(), Enter(t, key0));
      var key := KeyOf(key0);
      if key !in locks {
        locks := locks[key := made];
        refs := refs[made := 0];
        made := made + 1;
      } else {
        AllReferenced(locks, refs);
      }
      var l := locks[key];
      refs := refs[l := refs[l] + 1];
      places := places[t := Waiting(key, l)];
      assert key in old(locks) ==> locks == old(locks)[key := l];
      assert key !in old(locks) ==> refs == old(refs)[l := 1];
    }

    /** l.mu.Lock succeeds: only while nobody holds the lock object. */
    method TakeLock(t: Caller)
      requires Valid() && Enabled(Now(), Acquire(t))
      modifies this
      ensures Valid() && Now() == Next(old(Now()), Acquire(t))
      ensures places == old(places)[t := Holding(old(places)[t].key, old(places)[t].lock)]
    {
      StepKeeps(Now(), Acquire(t));
      hide Good;
      owner := owner[places[t].lock := t];
      places := places[t := Holding(places[t].key, places[t].lock)];
    }

    /** The release function starts with l.mu.Unlock. */
    method DropLock(t: Caller)
      requires Valid() && Enabled(Now(), Unlock(t))
      modifies this
      ensures Valid() && Now() == Next(old(Now()), Unlock(t))
      ensures places == old(places)[t := Leaving(old(places)[t].key, old(places)[t].lock)]
    {
      StepKeeps(Now(), Unlock(t));
      hide Good;
      owner := owner - {places[t].lock};
      places := places[t := Leaving(places[t].key, places[t].lock)];
    }

    /** And ends with the critical section that counts out, and forgets a lock object nobody refers to. */
    method CountOut(t: Caller)
      requires Valid() && Enabled(Now(), Leave(t))
      modifies this
      ensures Valid() && Now() == Next(old(Now()), Leave(t))
      ensures places == old(places) - {t} && owner == old(owner)
    {
      StepKeeps(Now(), Leave(t));
      LeaveKeeps(locks, refs, places, owner, made, t);
      hide Placed, Referenced, Separate, Counted, HoldersOwn, OwnersHold;
      var key, l := places[t].key, places[t].lock;
      refs := refs[l := refs[l] - 1];
      places := places - {t};
      if refs[l] == 0 {
        locks := locks - {key};
      }
    }

    /** Runs any schedule; a step that is not enabled when its turn comes is passed over. */
    method Run(schedule: seq<Step>)
      requires Valid()
      modifies this
      ensures Valid() && Now() == After(old(Now()), schedule)
    {
      hide Good;
      assert schedule[..0] == [];
      for i := 0 to |schedule|
        invariant Valid() && Now() == After(old(Now()), schedule[..i])
      {
        assert schedule[..i + 1][..i] == schedule[..i];
        match schedule[i] {
          case Enter(t, key) => if t !in places { CountIn(t, key); }
          case Acquire(t) => if Enabled(Now(), Acquire(t)) { TakeLock(t); }
          case Unlock(t) => if Enabled(Now(), Unlock(t)) { DropLock(t); }
          case Leave(t) => if Enabled(Now(), Leave(t)) { CountOut(t); }
        }
      }
      assert schedule[..|schedule|] == schedule;
    }

    /** In every reachable state at most one caller holds a key. */
    lemma MutualExclusion(a: Caller, b: Caller)
      requires Valid() && a in places && b in places && places[a].Holding? && places[b].Holding?
      requires places[a].key == places[b].key
      ensures a == b
    {
    }

    /** All callers concerned with a key share one lock object. */
    lemma OneLockPerKey(a: Caller, b: Caller)
      requires Valid() && a in places && b in places
      ensures places[a].key == places[b].key <==> places[a].lock == places[b].lock
    {
    }

    /** The map holds a key exactly while some caller is concerned with it, and the count is their number. */
    lemma EntryWhileReferenced(key: string)
      requires Valid()
      ensures key in locks <==> CallersOf(places, key) != {}
      ensures key in locks ==> locks[key] in refs && refs[locks[key]] == |CallersOf(places, key)|
    {
      Concerned(Now(), key);
    }

    /** A waiting caller can always go on once the holder is done: nobody else can block it. */
    lemma WaiterBlockedByHolderOnly(t: Caller)
      requires Valid() && t in places && places[t].Waiting?
      ensures places[t].lock in owner <==>
                exists h :: h in places && places[h] == Holding(places[t].key, places[t].lock)
    {
      if places[t].lock in owner {
        var h := owner[places[t].lock];
        assert places[h].key in locks && locks[places[h].key] == places[t].lock;
      }
    }
  }

  lemma JoinUsers(places: map<Caller, Place>, t: Caller, p: Place, l: LockId)
    requires t !in places
    ensures |Users(places[t := p], l)| == |Users(places, l)| + if l == p.lock then 1 else 0
  {
    var us, vs := Users(places, l), Users(places[t := p], l);
    if l == p.lock {
      assert vs == us + {t} && t !in us;
    } else {
      assert vs == us;
    }
  }

  lemma LeaveUsers(places: map<Caller, Place>, t: Caller, l: LockId)
    requires t in places
    ensures |Users(places - {t}, l)| == |Users(places, l)| - if l == places[t].lock then 1 else 0
  {
    var us, vs := Users(places, l), Users(places - {t}, l);
    if l == places[t].lock {
      assert us == vs + {t} && t !in vs;
    } else {
      assert vs == us;
    }
  }

  lemma SameUsers(places: map<Caller, Place>, t: Caller, p: Place, l: LockId)
    requires t in places && p.lock == places[t].lock
    ensures Users(places[t := p], l) == Users(places, l)
  {
  }

  /** A new lock object has no users and a key of its own; its count is about to rise. */
  lemma MakeLock(locks: map<string, LockId>, refs: map<LockId, nat>, places: map<Caller, Place>, made: nat, key: string)
    requires Placed(places, locks) && Referenced(locks, refs) && Separate(locks) && Counted(refs, places, made)
    requires key !in locks
    ensures Placed(places, locks[key := made]) && Separate(locks[key := made])
    ensures Counted(refs[made := 0], places, made + 1) && made !in refs
    ensures forall k :: k in locks ==> locks[k] in refs[made := 0] && refs[made := 0][locks[k]] > 0
  {
    assert Users(places, made) == {} by {
      forall t | t in places ensures places[t].lock != made {
        assert locks[places[t].key] in refs;
      }
    }
  }

  lemma AllReferenced(locks: map<string, LockId>, refs: map<LockId, nat>)
    requires Referenced(locks, refs)
    ensures forall k :: k in locks ==> locks[k] in refs && refs[locks[k]] > 0
  {
  }

  lemma JoinKeeps(locks: map<string, LockId>, refs: map<LockId, nat>, places: map<Caller, Place>,
      owner: map<LockId, Caller>, made: nat, t: Caller, key: string)
    requires Placed(places, locks) && Counted(refs, places, made) && HoldersOwn(places, owner)
    requires OwnersHold(owner, places)
    requires t !in places && key in locks && locks[key] in refs
    requires forall k :: k in locks && k != key ==> locks[k] in refs && refs[locks[k]] > 0
    ensures var l := locks[key]; var p := Waiting(key, l);
      && Placed(places[t := p], locks) && Referenced(locks, refs[l := refs[l] + 1])
      && Counted(refs[l := refs[l] + 1], places[t := p], made)
      && HoldersOwn(places[t := p], owner) && OwnersHold(owner, places[t := p])
  {
    hide Users;
    var l := locks[key];
    var p := Waiting(key, l);
    forall x | x in refs ensures |Users(places[t := p], x)| == |Users(places, x)| + if x == l then 1 else 0 {
      JoinUsers(places, t, p, x);
    }
  }

  /** A caller that stays with its lock object changes no count. */
  lemma MoveKeeps(locks: map<string, LockId>, refs: map<LockId, nat>, places: map<Caller, Place>, made: nat, t: Caller,
      p: Place)
    requires Placed(places, locks) && Counted(refs, places, made) && t in places && p.key == places[t].key
    requires p.lock == places[t].lock
    ensures Placed(places[t := p], locks) && Counted(refs, places[t := p], made)
  {
    hide Users;
    forall x | x in refs ensures Users(places[t := p], x) == Users(places, x) {
      SameUsers(places, t, p, x);
    }
  }

  lemma TakeKeeps(places: map<Caller, Place>, owner: map<LockId, Caller>, t: Caller)
    requires HoldersOwn(places, owner) && OwnersHold(owner, places) && t in places && places[t].Waiting?
    requires places[t].lock !in owner
    ensures var p := Holding(places[t].key, places[t].lock);
      HoldersOwn(places[t := p], owner[p.lock := t]) && OwnersHold(owner[p.lock := t], places[t := p])
  {
  }

  lemma DropKeeps(places: map<Caller, Place>, owner: map<LockId, Caller>, t: Caller)
    requires HoldersOwn(places, owner) && OwnersHold(owner, places) && t in places && places[t].Holding?
    ensures var p := Leaving(places[t].key, places[t].lock);
      HoldersOwn(places[t := p], owner - {p.lock}) && OwnersHold(owner - {p.lock}, places[t := p])
  {
  }

  lemma LeaveKeeps(locks: map<string, LockId>, refs: map<LockId, nat>, places: map<Caller, Place>,
      owner: map<LockId, Caller>, made: nat, t: Caller)
    requires Placed(places, locks) && Referenced(locks, refs) && Separate(locks) && Counted(refs, places, made)
    requires HoldersOwn(places, owner) && OwnersHold(owner, places) && t in places && places[t].Leaving?
    ensures var l := places[t].lock;
      && l in refs && refs[l] > 0 && places[t].key in locks && locks[places[t].key] == l
      && Placed(places - {t}, locks) && Counted(refs[l := refs[l] - 1], places - {t}, made)
      && HoldersOwn(places - {t}, owner) && OwnersHold(owner, places - {t})
      && (refs[l] > 1 ==> Referenced(locks, refs[l := refs[l] - 1]))
      && forall k :: k in locks && k != places[t].key ==> locks[k] in refs && locks[k] != l && refs[locks[k]] > 0
  {
    hide Users;
    var l := places[t].lock;
    forall x | x in refs ensures |Users(places - {t}, x)| == |Users(places, x)| - if x == l then 1 else 0 {
      LeaveUsers(places, t, x);
    }
  }

  /** A lock object without users is forgotten with its key. */
  lemma ForgetLock(locks: map<string, LockId>, refs: map<LockId, nat>, places: map<Caller, Place>, made: nat,
      key: string)
    requires Placed(places, locks) && Separate(locks) && Counted(refs, places, made) && key in locks
    requires locks[key] in refs && refs[locks[key]] == 0
    requires forall k :: k in locks && k != key ==> locks[k] in refs && refs[locks[k]] > 0
    ensures Placed(places, locks - {key}) && Separate(locks - {key}) && Referenced(locks - {key}, refs)
  {
    forall t | t in places ensures places[t].key != key {
      assert t !in Users(places, locks[key]);
    }
  }
}
