/**
  * The call group of `cement/singleflight/singleflight.go` as a state machine. Any number of
  * callers may be inside `Do` at once; each step below is a part of `Do` that no other caller
  * can observe half done, because it runs under the mutex or touches one record only.
  */
module SingleFlight {
  import opened Options

  const WORD: nat := 0x1_0000_0000

  type Word = x: int | 0 <= x < WORD

  /** What a function call hands back: a value and an error. */
  datatype Result = Result(val: int, err: int)

  /** A record: the result once the function is back, and whether waiters may go on. */
  datatype Call = Call(key: int, result: Option<Result>, done: bool)

  /** Where a caller is inside `Do`, with the number of the record it holds. */
  datatype Phase =
    | Waiting(rec: nat)
    | Running(rec: nat)
    | Stored(rec: nat)
    | Released(rec: nat)
    | Returned(rec: nat, result: Result)
    | Refused

  /** The group, every record ever made, and the callers. */
  datatype State = State(limit: Word, count: Word, m: map<int, nat>, calls: seq<Call>, callers: map<int, Phase>)

  datatype Step =
    | Enter(who: int, key: int)
    | Store(who: int, result: Result)
    | Release(who: int)
    | Leave(who: int)
    | Wake(who: int)

  /** One more and one less, as an unsigned word counts. */
  function Up(c: Word): Word {
    if c == WORD - 1 then 0 else c + 1
  }

  function Down(c: Word): Word {
    if c == 0 then WORD - 1 else c - 1
  }

  function Wrapped(n: nat): Word {
    n % WORD
  }

  lemma WrappedUp(n: nat)
    ensures Wrapped(n + 1) == Up(Wrapped(n)) && (n < WORD ==> Wrapped(n) == n) && Wrapped(WORD) == 0
  {
  }

  function New(limit: Word): State {
    State(limit, 0, map[], [], map[])
  }

  /** Whether a caller runs the function of its record, or has still to clear it away. */
  predicate Owns(p: Phase) {
    p.Running? || p.Stored? || p.Released?
  }

  predicate Holds(p: Phase) {
    !p.Refused?
  }

  /** A step can be taken when the caller is where the step begins; waiters wait for the release. */
  predicate Enabled(s: State, step: Step) {
    match step
    case Enter(who, _) => who !in s.callers
    case Store(who, _) => who in s.callers && s.callers[who].Running? && s.callers[who].rec < |s.calls|
    case Release(who) => who in s.callers && s.callers[who].Stored? && s.callers[who].rec < |s.calls|
    case Leave(who) =>
      && who in s.callers && s.callers[who].Released? && s.callers[who].rec < |s.calls|
      && s.calls[s.callers[who].rec].result.Some?
    case Wake(who) =>
      && who in s.callers && s.callers[who].Waiting? && s.callers[who].rec < |s.calls|
      && s.calls[s.callers[who].rec].done && s.calls[s.callers[who].rec].result.Some?
  }

  /** The first critical section: join a record, be refused, or make a record. */
  function Entered(s: State, who: int, key: int): State {
    if key in s.m then s.(callers := s.callers[who := Waiting(s.m[key])])
    else if s.limit > 0 && Up(s.count) > s.limit then s.(callers := s.callers[who := Refused])
    else
      s.(m := s.m[key := |s.calls|], count := Up(s.count), calls := s.calls + [Call(key, None, false)],
         callers := s.callers[who := Running(|s.calls|)])
  }

  function Next(s: State, step: Step): State
    requires Enabled(s, step)
  {
    match step
    case Enter(who, key) => Entered(s, who, key)
    case Store(who, result) =>
      var rec := s.callers[who].rec;
      s.(calls := s.calls[rec := s.calls[rec].(result := Some(result))], callers := s.callers[who := Stored(rec)])
    case Release(who) =>
      var rec := s.callers[who].rec;
      s.(calls := s.calls[rec := s.calls[rec].(done := true)], callers := s.callers[who := Released(rec)])
    case Leave(who) =>
      var rec := s.callers[who].rec;
      s.(count := if s.limit > 0 then Down(s.count) else s.count, m := s.m - {s.calls[rec].key},
         callers := s.callers[who := Returned(rec, s.calls[rec].result.value)])
    case Wake(who) =>
      var rec := s.callers[who].rec;
      s.(callers := s.callers[who := Returned(rec, s.calls[rec].result.value)])
  }

  // ----- Runs -----

  /** The state after a run, unless one of its steps was not possible when its turn came. */
  ghost function After(limit: Word, steps: seq<Step>): Option<State> {
    if steps == [] then Some(New(limit))
    else
      match After(limit, steps[..|steps| - 1])
      case None => None
      case Some(s) => if Enabled(s, steps[|steps| - 1]) then Some(Next(s, steps[|steps| - 1])) else None
  }

  /** The reachable states of a group with a limit. */
  ghost predicate Reaches(limit: Word, steps: seq<Step>, s: State) {
    After(limit, steps) == Some(s)
  }

  // ----- What every step keeps -----

  /** The records and the map fit together. */
  ghost predicate MapOk(s: State) {
    forall k :: k in s.m ==> s.m[k] < |s.calls| && s.calls[s.m[k]].key == k
  }

  /** A caller that owns a record has it in the map, and is as far as the record says. */
  ghost predicate CallerOk(s: State, p: Phase) {
    match p
    case Waiting(rec) => rec < |s.calls|
    case Running(rec) => InMap(s, rec) && s.calls[rec].result == None && !s.calls[rec].done
    case Stored(rec) => InMap(s, rec) && s.calls[rec].result.Some? && !s.calls[rec].done
    case Released(rec) => InMap(s, rec) && s.calls[rec].result.Some? && s.calls[rec].done
    case Returned(rec, result) => rec < |s.calls| && s.calls[rec].done && s.calls[rec].result == Some(result)
    case Refused => s.limit > 0
  }

  ghost predicate InMap(s: State, rec: nat) {
    rec < |s.calls| && s.calls[rec].key in s.m && s.m[s.calls[rec].key] == rec
  }

  ghost predicate CallersOk(s: State) {
    forall w :: w in s.callers ==> CallerOk(s, s.callers[w])
  }

  /** No record has two owners. */
  ghost predicate OneOwner(s: State) {
    forall rec, v, w :: OwnedBy(s, rec, v) && OwnedBy(s, rec, w) ==> v == w
  }

  ghost predicate OwnedBy(s: State, rec: nat, w: int) {
    w in s.callers && Owns(s.callers[w]) && s.callers[w].rec == rec
  }

  /** A record is finished or has an owner; one in the map has an owner. */
  ghost predicate RecordOk(s: State, rec: nat)
    requires rec < |s.calls|
  {
    && (s.calls[rec].done ==> s.calls[rec].result.Some?)
    && (!s.calls[rec].done || InMap(s, rec) ==> exists w :: OwnedBy(s, rec, w))
  }

  ghost predicate RecordsOk(s: State) {
    forall rec :: 0 <= rec < |s.calls| ==> RecordOk(s, rec)
  }

  /** The count is the size of the map, under a limit that the word can hold one more than. */
  ghost predicate CountOk(s: State) {
    if s.limit == 0 then s.count == Wrapped(|s.calls|)
    else s.limit < WORD - 1 ==> s.count == |s.m| <= s.limit
  }

  ghost predicate Inv(s: State) {
    MapOk(s) && CallersOk(s) && OneOwner(s) && RecordsOk(s) && CountOk(s)
  }

  /** What a step does to the owners, seen from a record that it does not touch. */
  lemma RecordFrame(s: State, t: State, rec: nat)
    requires rec < |s.calls| && rec < |t.calls| && RecordOk(s, rec) && t.calls[rec] == s.calls[rec]
    requires InMap(t, rec) ==> InMap(s, rec)
    requires forall w :: OwnedBy(s, rec, w) ==> OwnedBy(t, rec, w)
    ensures RecordOk(t, rec)
  {
    if !t.calls[rec].done || InMap(t, rec) {
      var w :| OwnedBy(s, rec, w);
      assert OwnedBy(t, rec, w);
    }
  }

  lemma EnterJoins(s: State, who: int, key: int)
    requires Inv(s) && who !in s.callers
    requires key in s.m || (s.limit > 0 && Up(s.count) > s.limit)
    ensures Inv(Entered(s, who, key))
  {
    var t := Entered(s, who, key);
    forall rec | 0 <= rec < |t.calls| ensures RecordOk(t, rec) {
      RecordFrame(s, t, rec);
    }
    forall w | w in t.callers ensures CallerOk(t, t.callers[w]) {
      assert w != who ==> CallerOk(s, s.callers[w]);
    }
    forall rec, v, w | OwnedBy(t, rec, v) && OwnedBy(t, rec, w) ensures v == w {
      assert OwnedBy(s, rec, v) && OwnedBy(s, rec, w);
    }
  }

  /** Nobody but the caller that made a record owns it. */
  lemma NewOwner(s: State, who: int, key: int, w: int)
    requires Inv(s) && key !in s.m && OwnedBy(Entered(s, who, key), |s.calls|, w)
    ensures w == who
  {
    if w in s.callers {
      assert CallerOk(s, s.callers[w]);
    }
  }

  lemma EnterMakes(s: State, who: int, key: int)
    requires Inv(s) && who !in s.callers
    requires key !in s.m && !(s.limit > 0 && Up(s.count) > s.limit)
    ensures Inv(Entered(s, who, key))
  {
    hide CountOk;
    var t, n := Entered(s, who, key), |s.calls|;
    forall rec | 0 <= rec < |t.calls| ensures RecordOk(t, rec) {
      if rec == n {
        assert OwnedBy(t, n, who);
      } else {
        RecordFrame(s, t, rec);
      }
    }
    forall w | w in t.callers ensures CallerOk(t, t.callers[w]) {
      assert w != who ==> CallerOk(s, s.callers[w]);
    }
    forall rec, v, w | OwnedBy(t, rec, v) && OwnedBy(t, rec, w) ensures v == w {
      if rec != n {
        assert OwnedBy(s, rec, v) && OwnedBy(s, rec, w);
      } else {
        NewOwner(s, who, key, v);
        NewOwner(s, who, key, w);
      }
    }
    MadeCount(s, who, key);
  }

  lemma MadeCount(s: State, who: int, key: int)
    requires CountOk(s) && key !in s.m && !(s.limit > 0 && Up(s.count) > s.limit)
    ensures CountOk(Entered(s, who, key))
  {
    hide Wrapped;
    WrappedUp(|s.calls|);
    assert Entered(s, who, key).m.Keys == s.m.Keys + {key};
  }

  /** A step of an owner that leaves the map alone and moves its own record on. */
  lemma OwnerKeeps(s: State, t: State, who: int, rec: nat, p: Phase)
    requires Inv(s) && OwnedBy(s, rec, who) && rec < |s.calls| && Owns(p) && p.rec == rec
    requires |t.calls| == |s.calls| && forall i :: 0 <= i < |s.calls| && i != rec ==> t.calls[i] == s.calls[i]
    requires t == s.(calls := t.calls, callers := s.callers[who := p]) && t.calls[rec].key == s.calls[rec].key
    requires t.calls[rec].done ==> t.calls[rec].result.Some?
    requires s.calls[rec].result.Some? ==> t.calls[rec].result == s.calls[rec].result
    requires s.calls[rec].done ==> t.calls[rec].done
    requires CallerOk(t, p)
    ensures Inv(t)
  {
    forall i | 0 <= i < |t.calls| ensures RecordOk(t, i) {
      if i == rec {
        assert OwnedBy(t, rec, who);
      } else {
        RecordFrame(s, t, i);
      }
    }
    forall w | w in t.callers ensures CallerOk(t, t.callers[w]) {
      if w != who {
        assert CallerOk(s, s.callers[w]);
        assert Owns(s.callers[w]) ==> OwnedBy(s, s.callers[w].rec, w);
      }
    }
    forall i, v, w | OwnedBy(t, i, v) && OwnedBy(t, i, w) ensures v == w {
      assert OwnedBy(s, i, v) && OwnedBy(s, i, w);
    }
  }

  lemma LeaveKeeps(s: State, who: int)
    requires Inv(s) && Enabled(s, Leave(who))
    ensures Inv(Next(s, Leave(who)))
  {
    var t, rec := Next(s, Leave(who)), s.callers[who].rec;
    assert CallerOk(s, s.callers[who]) && OwnedBy(s, rec, who);
    forall i | 0 <= i < |t.calls| ensures RecordOk(t, i) {
      if i != rec {
        RecordFrame(s, t, i);
      }
    }
    forall w | w in t.callers ensures CallerOk(t, t.callers[w]) {
      if w != who {
        assert CallerOk(s, s.callers[w]);
        assert Owns(s.callers[w]) ==> OwnedBy(s, s.callers[w].rec, w);
      }
    }
    forall i, v, w | OwnedBy(t, i, v) && OwnedBy(t, i, w) ensures v == w {
      assert OwnedBy(s, i, v) && OwnedBy(s, i, w);
    }
    assert t.m.Keys == s.m.Keys - {s.calls[rec].key};
  }

  lemma WakeKeeps(s: State, who: int)
    requires Inv(s) && Enabled(s, Wake(who))
    ensures Inv(Next(s, Wake(who)))
  {
    var t := Next(s, Wake(who));
    forall i | 0 <= i < |t.calls| ensures RecordOk(t, i) {
      RecordFrame(s, t, i);
    }
    forall w | w in t.callers ensures CallerOk(t, t.callers[w]) {
      assert w != who ==> CallerOk(s, s.callers[w]);
    }
    forall i, v, w | OwnedBy(t, i, v) && OwnedBy(t, i, w) ensures v == w {
      assert OwnedBy(s, i, v) && OwnedBy(s, i, w);
    }
  }

  lemma StepKeeps(s: State, step: Step)
    requires Inv(s) && Enabled(s, step)
    ensures Inv(Next(s, step))
  {
    match step {
      case Enter(who, key) =>
        if key in s.m || (s.limit > 0 && Up(s.count) > s.limit) {
          EnterJoins(s, who, key);
        } else {
          EnterMakes(s, who, key);
        }
      case Store(who, result) =>
        var rec := s.callers[who].rec;
        assert CallerOk(s, s.callers[who]);
        OwnerKeeps(s, Next(s, step), who, rec, Stored(rec));
      case Release(who) =>
        var rec := s.callers[who].rec;
        assert CallerOk(s, s.callers[who]);
        OwnerKeeps(s, Next(s, step), who, rec, Released(rec));
      case Leave(who) => LeaveKeeps(s, who);
      case Wake(who) => WakeKeeps(s, who);
    }
  }

  lemma {:induction false} RunKeeps(limit: Word, steps: seq<Step>, s: State)
    requires Reaches(limit, steps, s)
    ensures Inv(s) && s.limit == limit
  {
    hide Inv;
    if steps == [] {
      StartOk(limit);
    } else {
      var s0 := After(limit, steps[..|steps| - 1]).value;
      RunKeeps(limit, steps[..|steps| - 1], s0);
      StepKeeps(s0, steps[|steps| - 1]);
    }
  }

  lemma StartOk(limit: Word)
    ensures Inv(New(limit))
  {
  }

  // ----- Main results, for every run -----

  /** Whether a caller's function is running for a key. */
  ghost predicate RunsFor(s: State, w: int, key: int) {
    w in s.callers && s.callers[w].Running? && s.callers[w].rec < |s.calls| && s.calls[s.callers[w].rec].key == key
  }

  /** In every reachable state at most one function is running for a key. */
  lemma OneRunning(limit: Word, steps: seq<Step>, s: State, key: int, v: int, w: int)
    requires Reaches(limit, steps, s) && RunsFor(s, v, key) && RunsFor(s, w, key)
    ensures v == w
  {
    RunKeeps(limit, steps, s);
    assert CallerOk(s, s.callers[v]) && CallerOk(s, s.callers[w]);
    assert OwnedBy(s, s.callers[v].rec, v) && OwnedBy(s, s.callers[w].rec, w);
  }

  /** A caller that is refused is refused by a limit; any other return is the result of a finished record. */
  lemma ReturnIsResult(limit: Word, steps: seq<Step>, s: State, w: int)
    requires Reaches(limit, steps, s) && w in s.callers
    ensures s.callers[w].Refused? ==> limit > 0
    ensures s.callers[w].Returned? ==>
              && s.callers[w].rec < |s.calls| && s.calls[s.callers[w].rec].done
              && s.calls[s.callers[w].rec].result == Some(s.callers[w].result)
  {
    RunKeeps(limit, steps, s);
    assert CallerOk(s, s.callers[w]);
  }

  /** What a caller holds: the record it took on when it entered. */
  predicate SameRecord(p: Phase, q: Phase) {
    Holds(p) && Holds(q) && p.rec == q.rec
  }

  /**
    * From entering to returning a caller keeps one record, and once a record has a result it
    * keeps it; a caller that returned or was refused stays as it is.
    */
  lemma StepRecord(s: State, step: Step, w: int, rec: nat)
    requires Inv(s) && Enabled(s, step)
    ensures var t := Next(s, step);
      && |s.calls| <= |t.calls|
      && (w in s.callers ==> w in t.callers && (SameRecord(s.callers[w], t.callers[w]) || t.callers[w] == s.callers[w]))
      && (w in s.callers && (s.callers[w].Returned? || s.callers[w].Refused?) ==> t.callers[w] == s.callers[w])
      && (rec < |s.calls| ==> t.calls[rec].key == s.calls[rec].key)
      && (rec < |s.calls| && s.calls[rec].result.Some? ==> t.calls[rec].result == s.calls[rec].result)
  {
    if step.Store? {
      assert CallerOk(s, s.callers[step.who]);
    }
  }

  /** The record a caller takes on belongs to its key, and is in the map at that moment. */
  lemma EnterRecord(s: State, who: int, key: int)
    requires Inv(s) && who !in s.callers
    ensures var t := Entered(s, who, key);
      && who in t.callers
      && (t.callers[who].Refused? <==> key !in s.m && s.limit > 0 && Up(s.count) > s.limit)
      && (!t.callers[who].Refused? ==>
            && t.callers[who].rec < |t.calls| && t.calls[t.callers[who].rec].key == key
            && key in t.m && t.m[key] == t.callers[who].rec)
  {
  }

  /** Over any later part of a run a caller keeps its record, and a record its result. */
  lemma {:induction false} RecordKept(limit: Word, steps: seq<Step>, n: nat, s: State, t: State, w: int, rec: nat)
    requires n <= |steps| && Reaches(limit, steps[..n], s) && Reaches(limit, steps, t)
    ensures |s.calls| <= |t.calls|
    ensures w in s.callers ==>
      w in t.callers && (SameRecord(s.callers[w], t.callers[w]) || t.callers[w] == s.callers[w])
    ensures w in s.callers && (s.callers[w].Returned? || s.callers[w].Refused?) ==> t.callers[w] == s.callers[w]
    ensures rec < |s.calls| ==> t.calls[rec].key == s.calls[rec].key
    ensures rec < |s.calls| && s.calls[rec].result.Some? ==> t.calls[rec].result == s.calls[rec].result
    decreases |steps|
  {
    hide Inv, Next, Enabled;
    if n == |steps| {
      assert steps[..n] == steps;
    } else {
      var before := steps[..|steps| - 1];
      var u := After(limit, before).value;
      assert before[..n] == steps[..n];
      RecordKept(limit, before, n, s, u, w, rec);
      RunKeeps(limit, before, u);
      StepRecord(u, steps[|steps| - 1], w, rec);
    }
  }

  // ----- What the function handed back -----

  /** Step `i` of a run stores `r` in the record `rec`, whose function its caller was running. */
  ghost predicate Stores(limit: Word, steps: seq<Step>, i: nat, rec: nat, r: Result) {
    && i < |steps| && steps[i].Store? && steps[i].result == r
    && var before := After(limit, steps[..i]);
    && before.Some? && steps[i].who in before.value.callers && before.value.callers[steps[i].who] == Running(rec)
  }

  /** Every part of a possible run is possible, and so is the step behind it. */
  lemma {:induction false} PrefixReached(limit: Word, steps: seq<Step>, n: nat)
    requires n <= |steps| && After(limit, steps).Some?
    ensures After(limit, steps[..n]).Some?
    ensures n < |steps| ==>
      && Enabled(After(limit, steps[..n]).value, steps[n])
      && After(limit, steps[..n + 1]) == Some(Next(After(limit, steps[..n]).value, steps[n]))
    decreases |steps|
  {
    hide Enabled, Next;
    if n == |steps| {
      assert steps[..n] == steps;
    } else {
      var before := steps[..|steps| - 1];
      PrefixReached(limit, before, n);
      assert before[..n] == steps[..n];
      if n + 1 < |steps| {
        assert before[..n + 1] == steps[..n + 1];
      } else {
        assert steps[..n + 1] == steps;
      }
    }
  }

  /** From the step that stores a result on, the record has that result. */
  lemma StoreLasts(limit: Word, steps: seq<Step>, i: nat, rec: nat, r: Result, n: nat)
    requires After(limit, steps).Some? && Stores(limit, steps, i, rec, r) && i < n <= |steps|
    ensures After(limit, steps[..n]).Some?
    ensures rec < |After(limit, steps[..n]).value.calls| && After(limit, steps[..n]).value.calls[rec].result == Some(r)
  {
    hide Inv;
    PrefixReached(limit, steps, i);
    PrefixReached(limit, steps, n);
    var s := After(limit, steps[..i + 1]).value;
    assert steps[..n][..i + 1] == steps[..i + 1];
    RecordKept(limit, steps[..n], i + 1, s, After(limit, steps[..n]).value, steps[i].who, rec);
  }

  /**
    * What a function hands back is what every caller gets that joined its record: the caller of
    * the step held a record, and whoever returns with that record at any later time returns `r`.
    */
  lemma StoreReturned(limit: Word, steps: seq<Step>, t: State, i: nat, w: int, r: Result, v: int) returns (rec: nat)
    requires Reaches(limit, steps, t) && i < |steps| && steps[i] == Store(w, r)
    ensures Stores(limit, steps, i, rec, r)
    ensures v in t.callers && t.callers[v].Returned? && t.callers[v].rec == rec ==> t.callers[v].result == r
  {
    hide Inv, Next;
    PrefixReached(limit, steps, i);
    rec := After(limit, steps[..i]).value.callers[w].rec;
    assert steps[..|steps|] == steps;
    StoreLasts(limit, steps, i, rec, r, |steps|);
    if v in t.callers {
      ReturnIsResult(limit, steps, t, v);
    }
  }

  /** A record has a result only from a step that stored it. */
  lemma {:induction false} ResultStored(limit: Word, steps: seq<Step>, t: State, rec: nat) returns (i: nat)
    requires Reaches(limit, steps, t) && rec < |t.calls| && t.calls[rec].result.Some?
    ensures Stores(limit, steps, i, rec, t.calls[rec].result.value)
    decreases |steps|
  {
    hide Inv;
    var n := |steps| - 1;
    assert steps != [];
    var before, step := steps[..n], steps[n];
    var u := After(limit, before).value;
    if rec < |u.calls| && u.calls[rec].result == t.calls[rec].result {
      i := ResultStored(limit, before, u, rec);
      assert before[..i] == steps[..i];
    } else {
      i := n;
    }
  }

  /** Before a step stores into a record, the record has no result. */
  lemma NoneBefore(limit: Word, steps: seq<Step>, j: nat, rec: nat, q: Result)
    requires Stores(limit, steps, j, rec, q)
    ensures var s := After(limit, steps[..j]).value; rec < |s.calls| && s.calls[rec].result == None
  {
    hide After;
    var s := After(limit, steps[..j]).value;
    RunKeeps(limit, steps[..j], s);
    assert CallerOk(s, s.callers[steps[j].who]);
  }

  /** No two steps store into one record. */
  lemma StoresOnce(limit: Word, steps: seq<Step>, i: nat, j: nat, rec: nat, r: Result, q: Result)
    requires After(limit, steps).Some? && Stores(limit, steps, i, rec, r) && Stores(limit, steps, j, rec, q)
    ensures i == j && r == q
  {
    hide After;
    NoneBefore(limit, steps, i, rec, r);
    NoneBefore(limit, steps, j, rec, q);
    if i < j {
      StoreLasts(limit, steps, i, rec, r, j);
    } else if j < i {
      StoreLasts(limit, steps, j, rec, q, i);
    }
  }

  /**
    * A result that is returned is what one step of the run stored, by the caller that was
    * running the function of the record, and no other step stored anything there.
    */
  lemma ReturnWasStored(limit: Word, steps: seq<Step>, t: State, v: int) returns (i: nat)
    requires Reaches(limit, steps, t) && v in t.callers && t.callers[v].Returned?
    ensures Stores(limit, steps, i, t.callers[v].rec, t.callers[v].result)
    ensures forall j: nat, q :: Stores(limit, steps, j, t.callers[v].rec, q) ==> j == i && q == t.callers[v].result
  {
    hide Inv, After, Stores;
    var rec := t.callers[v].rec;
    ReturnIsResult(limit, steps, t, v);
    i := ResultStored(limit, steps, t, rec);
    forall j: nat, q | Stores(limit, steps, j, rec, q) ensures j == i && q == t.callers[v].result {
      StoresOnce(limit, steps, i, j, rec, t.callers[v].result, q);
    }
  }

  // ----- The count -----

  /** Under a limit below the largest word, the count is the size of the map and within the limit. */
  lemma CountWithin(limit: Word, steps: seq<Step>, s: State)
    requires Reaches(limit, steps, s) && 0 < limit < WORD - 1
    ensures s.count == |s.m| <= limit
  {
    RunKeeps(limit, steps, s);
  }

  /** With no limit the count only ever grows: it is the number of records ever made. */
  lemma CountAllMade(steps: seq<Step>, s: State)
    requires Reaches(0, steps, s)
    ensures s.count == Wrapped(|s.calls|)
  {
    RunKeeps(0, steps, s);
  }

  /** `n` callers with different keys enter, one after the other. */
  ghost function Entries(n: nat): seq<Step> {
    if n == 0 then [] else Entries(n - 1) + [Enter(n - 1, n - 1)]
  }

  /** A group that no entry has been refused by. */
  ghost predicate Filled(s: State, limit: Word, n: nat) {
    && s.limit == limit && |s.calls| == n && |s.m| == n && s.count == Wrapped(n)
    && (forall k :: k in s.m ==> 0 <= k < n) && (forall w :: w in s.callers ==> 0 <= w < n)
  }

  lemma ReachesNext(limit: Word, steps: seq<Step>, s: State, step: Step)
    requires Reaches(limit, steps, s) && Enabled(s, step)
    ensures Reaches(limit, steps + [step], Next(s, step))
  {
    assert (steps + [step])[..|steps|] == steps;
  }

  lemma FillOne(s: State, limit: Word, n: nat)
    requires n < WORD && (limit == 0 || limit == WORD - 1) && Filled(s, limit, n)
    ensures Enabled(s, Enter(n, n)) && Filled(Next(s, Enter(n, n)), limit, n + 1)
  {
    hide Wrapped;
    WrappedUp(n);
    assert Entered(s, n, n).m.Keys == s.m.Keys + {n};
  }

  lemma FillNone(limit: Word)
    ensures Filled(New(limit), limit, 0)
  {
  }

  lemma {:induction false} EntriesFill(limit: Word, n: nat) returns (s: State)
    requires n <= WORD && (limit == 0 || limit == WORD - 1)
    ensures Reaches(limit, Entries(n), s) && Filled(s, limit, n)
  {
    hide Filled, Enabled, Next;
    if n == 0 {
      s := New(limit);
      FillNone(limit);
    } else {
      var s0 := EntriesFill(limit, n - 1);
      FillOne(s0, limit, n - 1);
      ReachesNext(limit, Entries(n - 1), s0, Enter(n - 1, n - 1));
      s := Next(s0, Enter(n - 1, n - 1));
    }
  }

  /** With no limit, one call that comes and goes leaves a count of one and an empty map. */
  lemma UnlimitedCount() returns (s: State)
    ensures Reaches(0, [Enter(0, 7), Store(0, Result(1, 0)), Release(0), Leave(0)], s)
    ensures s.m == map[] && s.count == 1 && s.callers == map[0 := Returned(0, Result(1, 0))]
  {
    hide Reaches, After;
    var a, b, c, d := Enter(0, 7), Store(0, Result(1, 0)), Release(0), Leave(0);
    var s1 := State(0, 1, map[7 := 0], [Call(7, None, false)], map[0 := Running(0)]);
    var s2 := State(0, 1, map[7 := 0], [Call(7, Some(Result(1, 0)), false)], map[0 := Stored(0)]);
    var s3 := State(0, 1, map[7 := 0], [Call(7, Some(Result(1, 0)), true)], map[0 := Released(0)]);
    ReachesStart(0);
    ReachesNext(0, [], New(0), a);
    assert [] + [a] == [a] && Next(New(0), a) == s1;
    ReachesNext(0, [a], s1, b);
    assert [a] + [b] == [a, b] && Next(s1, b) == s2;
    ReachesNext(0, [a, b], s2, c);
    assert [a, b] + [c] == [a, b, c] && Next(s2, c) == s3;
    ReachesNext(0, [a, b, c], s3, d);
    s := Next(s3, d);
    assert [a, b, c] + [d] == [a, b, c, d];
  }

  lemma ReachesStart(limit: Word)
    ensures Reaches(limit, [], New(limit))
  {
  }

  /** Under the largest limit the comparison wraps round: one more call than the limit gets in. */
  lemma LargestLimitCount() returns (s: State)
    ensures Reaches(WORD - 1, Entries(WORD), s) && s.count == 0 && |s.m| == WORD > s.limit
  {
    s := EntriesFill(WORD - 1, WORD);
    WrappedUp(WORD);
  }

  ghost predicate CountTold(limit: Word) {
    forall steps, s :: Reaches(limit, steps, s) ==> s.count == |s.m|
  }

  /** The count is the size of the map in every run exactly under these limits. */
  lemma CountIsSize(limit: Word)
    ensures CountTold(limit) <==> 0 < limit < WORD - 1
  {
    hide Reaches, After;
    if 0 < limit < WORD - 1 {
      forall steps, s | Reaches(limit, steps, s) ensures s.count == |s.m| {
        CountWithin(limit, steps, s);
      }
    } else if limit == 0 {
      var s := UnlimitedCount();
    } else {
      var s := LargestLimitCount();
    }
  }

  // ----- Nobody waits for ever -----

  /** While somebody is inside `Do`, somebody there can take a step. */
  lemma SomeoneMoves(limit: Word, steps: seq<Step>, s: State, w: int) returns (step: Step)
    requires Reaches(limit, steps, s) && w in s.callers && !s.callers[w].Returned? && !s.callers[w].Refused?
    ensures Enabled(s, step) && !step.Enter?
  {
    RunKeeps(limit, steps, s);
    assert CallerOk(s, s.callers[w]);
    var rec, o := s.callers[w].rec, w;
    assert RecordOk(s, rec);
    if s.callers[w].Waiting? {
      if s.calls[rec].done {
        return Wake(w);
      }
      o :| OwnedBy(s, rec, o);
    }
    assert CallerOk(s, s.callers[o]);
    match s.callers[o] {
      case Running(_) => return Store(o, Result(0, 0));
      case Stored(_) => return Release(o);
      case Released(_) => return Leave(o);
    }
  }

  /** How many steps a caller can still take. */
  function Left(p: Phase): nat {
    match p
    case Running(_) => 3
    case Stored(_) => 2
    case Released(_) => 1
    case Waiting(_) => 1
    case _ => 0
  }

  /** Every step but an entry brings the caller that takes it nearer to returning, and no other. */
  lemma StepsRunOut(s: State, step: Step, w: int)
    requires Enabled(s, step) && !step.Enter?
    ensures var t := Next(s, step);
      && step.who in s.callers && Left(t.callers[step.who]) + 1 == Left(s.callers[step.who])
      && (w in s.callers && w != step.who ==> t.callers[w] == s.callers[w])
  {
  }
}
