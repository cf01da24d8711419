/** struct hdr_writer_reader_phaser as an object whose epochs are updated in place.
    Every atomic operation appends one action to a ghost history, and the object's
    state is always the state the machine in Phaser reaches by that history. */
module PhaserObject {
  import opened Bits
  import opened Phaser

  /** What history adds up to. */
  ghost predicate Reaches(history: seq<Action>, s: State) {
    Legal(Initial(), history) && Bounded(Initial(), history) && Run(Initial(), history) == s
  }

  lemma ReachesNext(history: seq<Action>, s: State, a: Action)
    requires Reaches(history, s) && Inv(s) && Enabled(s, a) && Apply(s, a).entries <= INT64_MAX
    ensures Reaches(history + [a], Apply(s, a)) && Inv(Apply(s, a))
  {
    hide Inv, Apply, Enabled, Legal, Bounded, Run;
    RunSnoc(Initial(), history, a);
    StepKeepsInv(s, a);
  }

  class WriterReaderPhaser {
    var startEpoch: int
    var evenEndEpoch: int
    var oddEndEpoch: int
    /** critical_value_at_enter, kept by each writer between its enter and its exit. */
    var held: map<nat, int>
    ghost var lock: Lock
    ghost var entries: nat
    ghost var history: seq<Action>

    ghost function View(): State
      reads this
    {
      State(Epochs(startEpoch, evenEndEpoch, oddEndEpoch), held, lock, entries)
    }

    ghost predicate Valid()
      reads this
    {
      Inv(View()) && Reaches(history, View())
    }

    /** hdr_writer_reader_phaser_init */
    constructor ()
      ensures Valid() && View() == Initial() && history == []
    {
      startEpoch, evenEndEpoch, oddEndEpoch := 0, 0, INT64_MIN;
      held, lock, entries, history := map[], Free, 0, [];
      new;
      InitialInv();
    }

    /** hdr_phaser_writer_enter */
    method WriterEnter(w: nat) returns (criticalValue: int)
      requires Valid() && w !in held && entries < INT64_MAX
      modifies this
      ensures Valid() && history == old(history) + [Enter(w)]
      ensures View() == Apply(old(View()), Enter(w)) && held[w] == criticalValue
    {
      hide Inv, Reaches, Wrap64;
      ReachesNext(history, View(), Enter(w));
      startEpoch := Wrap64(startEpoch + 1);
      criticalValue := startEpoch;
      held := held[w := criticalValue];
      entries, history := entries + 1, history + [Enter(w)];
    }

    /** hdr_phaser_writer_exit with the value the writer kept. */
    method WriterExit(w: nat)
      requires Valid() && w in held
      modifies this
      ensures Valid() && history == old(history) + [Exit(w)]
      ensures View() == Apply(old(View()), Exit(w))
    {
      EntriesBounded(View());
      hide Inv, Reaches, Wrap64;
      ReachesNext(history, View(), Exit(w));
      if held[w] < 0 {
        oddEndEpoch := Wrap64(oddEndEpoch + 1);
      } else {
        evenEndEpoch := Wrap64(evenEndEpoch + 1);
      }
      held := held - {w};
      history := history + [Exit(w)];
    }

    /** hdr_phaser_reader_lock, once the mutex is free. */
    method ReaderLock(r: nat)
      requires Valid() && lock == Free
      modifies this
      ensures Valid() && history == old(history) + [Acquire(r)] && View() == Apply(old(View()), Acquire(r))
    {
      EntriesBounded(View());
      hide Inv, Reaches;
      ReachesNext(history, View(), Acquire(r));
      lock, history := Held(r, Holding), history + [Acquire(r)];
    }

    /** hdr_phaser_reader_unlock */
    method ReaderUnlock(r: nat)
      requires Valid() && lock == Held(r, Holding)
      modifies this
      ensures Valid() && history == old(history) + [Release(r)] && View() == Apply(old(View()), Release(r))
    {
      EntriesBounded(View());
      hide Inv, Reaches;
      ReachesNext(history, View(), Release(r));
      lock, history := Free, history + [Release(r)];
    }

    /** Other threads' turn: whichever of the given writer actions can be taken. */
    method Others(schedule: seq<Action>)
      requires Valid() && entries + |schedule| <= INT64_MAX
      modifies this
      ensures Valid() && lock == old(lock) && entries <= old(entries) + |schedule|
      ensures (startEpoch < 0) == old(startEpoch < 0)
      ensures old(history) <= history
    {
      hide Inv, Reaches, Apply;
      for i := 0 to |schedule|
        invariant Valid() && lock == old(lock) && entries <= old(entries) + i
        invariant (startEpoch < 0) == old(startEpoch < 0)
        invariant old(history) <= history
      {
        if schedule[i].Enter? && schedule[i].w !in held {
          EnterKeepsPhase(View(), schedule[i].w);
          var _ := WriterEnter(schedule[i].w);
        } else if schedule[i].Exit? && schedule[i].w in held {
          ExitKeepsPhase(View(), schedule[i].w);
          WriterExit(schedule[i].w);
        }
      }
    }

    // The atomic operations of hdr_phaser_flip_phase, in order.

    method LoadStart(r: nat) returns (nextPhaseIsEven: bool)
      requires Valid() && lock == Held(r, Holding)
      modifies this
      ensures Valid() && history == old(history) + [Load(r)] && View() == Apply(old(View()), Load(r))
      ensures nextPhaseIsEven == (startEpoch < 0)
      ensures lock == Held(r, Loaded(if nextPhaseIsEven then Even else Odd))
    {
      EntriesBounded(View());
      hide Inv, Reaches;
      ReachesNext(history, View(), Load(r));
      nextPhaseIsEven := startEpoch < 0;
      lock, history := Held(r, Loaded(if nextPhaseIsEven then Even else Odd)), history + [Load(r)];
    }

    method ClearEnd(r: nat, nextPhaseIsEven: bool) returns (initialStartValue: int)
      requires Valid() && lock == Held(r, Loaded(if nextPhaseIsEven then Even else Odd))
      modifies this
      ensures Valid() && history == old(history) + [Clear(r)] && View() == Apply(old(View()), Clear(r))
      ensures initialStartValue == Base(if nextPhaseIsEven then Even else Odd)
    {
      EntriesBounded(View());
      hide Inv, Reaches;
      ReachesNext(history, View(), Clear(r));
      if nextPhaseIsEven {
        initialStartValue := 0;
        evenEndEpoch := initialStartValue;
      } else {
        initialStartValue := INT64_MIN;
        oddEndEpoch := initialStartValue;
      }
      lock, history := Held(r, Cleared(if nextPhaseIsEven then Even else Odd)), history + [Clear(r)];
    }

    method ExchangeStart(r: nat, ghost next: Phase, initialStartValue: int) returns (startValueAtFlip: int)
      requires Valid() && lock == Held(r, Cleared(next)) && initialStartValue == Base(next)
      modifies this
      ensures Valid() && history == old(history) + [Exchange(r)] && View() == Apply(old(View()), Exchange(r))
      ensures lock == Held(r, Spinning(next, startValueAtFlip))
    {
      hide Inv, Reaches;
      ReachesNext(history, View(), Exchange(r));
      startValueAtFlip := startEpoch;
      startEpoch := initialStartValue;
      lock, entries, history := Held(r, Spinning(next, startValueAtFlip)), 0, history + [Exchange(r)];
    }

    method TestEnd(r: nat, nextPhaseIsEven: bool, startValueAtFlip: int) returns (caughtUp: bool)
      requires Valid() && lock == Held(r, Spinning(if nextPhaseIsEven then Even else Odd, startValueAtFlip))
      modifies this
      ensures Valid() && history == old(history) + [Spin(r)] && View() == Apply(old(View()), Spin(r))
      ensures lock == if caughtUp then Held(r, Holding) else old(lock)
      ensures caughtUp == CaughtUp(old(View()))
    {
      EntriesBounded(View());
      hide Inv, Reaches;
      ReachesNext(history, View(), Spin(r));
      var endEpoch := if nextPhaseIsEven then oddEndEpoch else evenEndEpoch;
      caughtUp := endEpoch == startValueAtFlip;
      history := history + [Spin(r)];
      if caughtUp {
        lock := Held(r, Holding);
      }
    }

    /** hdr_phaser_flip_phase by the holder of the mutex. After each of its atomic
        operations the other threads do what the schedule says; the flip returns
        false when the schedule ends before the old phase has drained. When it
        returns true the phase has changed and every value still held is of the
        new phase: each writer that was inside before the exchange has exited. */
    method FlipPhase(r: nat, afterLoad: seq<Action>, afterClear: seq<Action>, spins: seq<seq<Action>>)
        returns (caughtUp: bool)
      requires Valid() && lock == Held(r, Holding)
      requires entries + |afterLoad| + |afterClear| <= INT64_MAX && Size(spins) <= INT64_MAX
      modifies this
      ensures Valid() && old(history) <= history
      ensures caughtUp ==> lock == Held(r, Holding) && (startEpoch < 0) != old(startEpoch < 0)
      ensures caughtUp ==> forall w :: w in held ==> (held[w] < 0) != old(startEpoch < 0)
      ensures !caughtUp ==> lock.Held? && lock.pc.Spinning?
      ensures !caughtUp ==> exists w :: w in held && (held[w] < 0) == old(startEpoch < 0)
    {
      hide Inv, Reaches;
      var nextPhaseIsEven := LoadStart(r);
      Others(afterLoad);
      var initialStartValue := ClearEnd(r, nextPhaseIsEven);
      Others(afterClear);
      var startValueAtFlip := ExchangeStart(r, if nextPhaseIsEven then Even else Odd, initialStartValue);
      caughtUp := TestEnd(r, nextPhaseIsEven, startValueAtFlip);
      var i := 0;
      while !caughtUp && i < |spins|
        invariant Valid() && i <= |spins| && old(history) <= history
        invariant lock == Held(r, if caughtUp then Holding
                                  else Spinning(if nextPhaseIsEven then Even else Odd, startValueAtFlip))
        invariant (startEpoch < 0) == !nextPhaseIsEven
        invariant !caughtUp ==> !CaughtUp(View())
        invariant entries + Size(spins[i..]) <= INT64_MAX
      {
        assert spins[i..][1..] == spins[i + 1..];
        Others(spins[i]);
        caughtUp := TestEnd(r, nextPhaseIsEven, startValueAtFlip);
        i := i + 1;
      }
      if caughtUp { OnlyCurrentPhase(View()); } else { SomebodyInside(View()); }
    }
  }

  /** A flip whose test has just failed waits for a writer of the old phase. */
  lemma SomebodyInside(s: State)
    requires Inv(s) && s.lock.Held? && s.lock.pc.Spinning? && !CaughtUp(s)
    ensures exists w :: w in s.inside && PhaseOf(s.inside[w]) == Other(s.lock.pc.next)
  {
    CaughtUpIffDrained(s);
    var w :| w in Inside(s, Other(s.lock.pc.next));
  }

  /** With no flip under way every writer inside is of the current phase. */
  lemma OnlyCurrentPhase(s: State)
    requires Inv(s) && s.lock.Held? && s.lock.pc.Holding?
    ensures forall w :: w in s.inside ==> PhaseOf(s.inside[w]) == Current(s)
  {
    forall w | w in s.inside ensures PhaseOf(s.inside[w]) == Current(s) {
      assert w !in Inside(s, Other(Current(s)));
    }
  }

  lemma EntriesBounded(s: State)
    requires Inv(s)
    ensures s.entries <= INT64_MAX
  {
  }

  lemma EnterKeepsPhase(s: State, w: nat)
    requires Inv(s) && Enabled(s, Enter(w)) && s.entries < INT64_MAX
    ensures var s' := Apply(s, Enter(w));
            PhaseOf(s'.e.start) == PhaseOf(s.e.start) && s'.lock == s.lock && s'.entries == s.entries + 1
  {
    EnterPhase(s, w);
  }

  lemma ExitKeepsPhase(s: State, w: nat)
    requires Enabled(s, Exit(w))
    ensures var s' := Apply(s, Exit(w)); s'.e.start == s.e.start && s'.lock == s.lock && s'.entries == s.entries
  {
  }

  /** Actions in a schedule. */
  function Size(others: seq<seq<Action>>): nat {
    if others == [] then 0 else |others[0]| + Size(others[1..])
  }
}
