/** The writer/reader phaser, hdr_writer_reader_phaser.c, as a state machine:
    any number of writers and readers, every atomic operation one step. */
module Phaser {
  import opened Bits

  datatype Phase = Even | Odd

  function Other(p: Phase): Phase {
    if p.Even? then Odd else Even
  }

  /** The sign of a start epoch tells its phase. */
  function PhaseOf(v: int): Phase {
    if v < 0 then Odd else Even
  }

  /** The start value of a phase. */
  function Base(p: Phase): int {
    if p.Even? then 0 else INT64_MIN
  }

  /** The three epoch fields. */
  datatype Epochs = Epochs(start: int, evenEnd: int, oddEnd: int)

  function End(e: Epochs, p: Phase): int {
    if p.Even? then e.evenEnd else e.oddEnd
  }

  function SetEnd(e: Epochs, p: Phase, v: int): Epochs {
    if p.Even? then e.(evenEnd := v) else e.(oddEnd := v)
  }

  /** What the mutex holder has done of hdr_phaser_flip_phase. */
  datatype FlipPc =
    | Holding
    | Loaded(next: Phase)
    | Cleared(next: Phase)
    | Spinning(next: Phase, startAtFlip: int)

  datatype Lock = Free | Held(reader: nat, pc: FlipPc)

  /** `inside` maps a writer between enter and exit to the value enter gave it;
      `entries` counts the enters since the last exchange. */
  datatype State = State(e: Epochs, inside: map<nat, int>, lock: Lock, entries: nat)

  datatype Action =
    | Enter(w: nat)
    | Exit(w: nat)
    | Acquire(r: nat)
    | Load(r: nat)
    | Clear(r: nat)
    | Exchange(r: nat)
    | Spin(r: nat)
    | Release(r: nat)

  function Initial(): State {
    State(Epochs(0, 0, INT64_MIN), map[], Free, 0)
  }

  predicate Enabled(s: State, a: Action) {
    match a
    case Enter(w) => w !in s.inside
    case Exit(w) => w in s.inside
    case Acquire(r) => s.lock == Free
    case Load(r) => s.lock == Held(r, Holding)
    case Clear(r) => s.lock.Held? && s.lock.reader == r && s.lock.pc.Loaded?
    case Exchange(r) => s.lock.Held? && s.lock.reader == r && s.lock.pc.Cleared?
    case Spin(r) => s.lock.Held? && s.lock.reader == r && s.lock.pc.Spinning?
    case Release(r) => s.lock == Held(r, Holding)
  }

  predicate CaughtUp(s: State)
    requires s.lock.Held? && s.lock.pc.Spinning?
  {
    End(s.e, Other(s.lock.pc.next)) == s.lock.pc.startAtFlip
  }

  function Apply(s: State, a: Action): State
    requires Enabled(s, a)
  {
    match a
    case Enter(w) =>
      var v := Wrap64(s.e.start + 1);
      s.(e := s.e.(start := v), inside := s.inside[w := v], entries := s.entries + 1)
    case Exit(w) =>
      var p := PhaseOf(s.inside[w]);
      s.(e := SetEnd(s.e, p, Wrap64(End(s.e, p) + 1)), inside := s.inside - {w})
    case Acquire(r) => s.(lock := Held(r, Holding))
    case Load(r) =>
      s.(lock := Held(r, Loaded(if s.e.start < 0 then Even else Odd)))
    case Clear(r) =>
      var next := s.lock.pc.next;
      s.(e := SetEnd(s.e, next, Base(next)), lock := Held(r, Cleared(next)))
    case Exchange(r) =>
      var next := s.lock.pc.next;
      s.(e := s.e.(start := Base(next)), lock := Held(r, Spinning(next, s.e.start)), entries := 0)
    case Spin(r) =>
      if CaughtUp(s) then s.(lock := Held(r, Holding)) else s
    case Release(r) => s.(lock := Free)
  }

  predicate Legal(s: State, run: seq<Action>)
    decreases |run|
  {
    run == [] || (Enabled(s, run[0]) && Legal(Apply(s, run[0]), run[1..]))
  }

  function Run(s: State, run: seq<Action>): State
    requires Legal(s, run)
    decreases |run|
  {
    if run == [] then s else Run(Apply(s, run[0]), run[1..])
  }

  /** No phase takes more than 2^63 - 1 entries during the run. */
  predicate Bounded(s: State, run: seq<Action>)
    requires Legal(s, run)
    decreases |run|
  {
    s.entries <= INT64_MAX && (run == [] || Bounded(Apply(s, run[0]), run[1..]))
  }

  // ----- the invariant -----

  /** Writers inside that entered in phase p. */
  function Inside(s: State, p: Phase): set<nat> {
    set w | w in s.inside && PhaseOf(s.inside[w]) == p
  }

  /** The phase writers are entering. */
  function Current(s: State): Phase {
    PhaseOf(s.e.start)
  }

  predicate OldPhaseInv(s: State, prev: Phase) {
    match s.lock
    case Free => Inside(s, prev) == {}
    case Held(_, Holding) => Inside(s, prev) == {}
    case Held(_, Loaded(next)) => Inside(s, prev) == {} && next == prev
    case Held(_, Cleared(next)) => Inside(s, prev) == {} && next == prev && End(s.e, prev) == Base(prev)
    case Held(_, Spinning(next, startAtFlip)) =>
      && next == Other(prev)
      && End(s.e, prev) + |Inside(s, prev)| == startAtFlip
      && Base(prev) <= End(s.e, prev) <= startAtFlip <= Base(prev) + INT64_MAX
  }

  /** start_epoch minus the current phase's end epoch is the number of writers
      inside in that phase; the other phase is empty except while a flip waits
      for it to drain. */
  predicate Inv(s: State) {
    var cur := Current(s);
    && s.entries <= INT64_MAX
    && s.e.start == Base(cur) + s.entries
    && End(s.e, cur) + |Inside(s, cur)| == s.e.start
    && Base(cur) <= End(s.e, cur)
    && OldPhaseInv(s, Other(cur))
  }

  lemma InitialInv()
    ensures Inv(Initial())
  {
    assert Inside(Initial(), Even) == {} == Inside(Initial(), Odd);
  }

  lemma WrapInRange(x: int)
    requires INT64_MIN <= x <= INT64_MAX
    ensures Wrap64(x) == x
  {
  }

  /** An entry gets a value of the phase being entered exactly while that phase
      has taken fewer than 2^63 - 1 entries; the next one wraps to the other sign. */
  lemma EnterPhase(s: State, w: nat)
    requires Inv(s) && Enabled(s, Enter(w))
    ensures PhaseOf(Apply(s, Enter(w)).inside[w]) == Current(s) <==> s.entries < INT64_MAX
  {
    hide Inside;
  }

  lemma EnterKeepsInv(s: State, w: nat)
    requires Inv(s) && Enabled(s, Enter(w)) && s.entries < INT64_MAX
    ensures Inv(Apply(s, Enter(w)))
  {
    var s', p := Apply(s, Enter(w)), Current(s);
    assert s'.e.start == s.e.start + 1 by { WrapInRange(s.e.start + 1); }
    assert Inside(s', p) == Inside(s, p) + {w};
    assert Inside(s', Other(p)) == Inside(s, Other(p));
  }

  lemma InsideAfterExit(s: State, w: nat)
    requires Enabled(s, Exit(w))
    ensures var s', p := Apply(s, Exit(w)), PhaseOf(s.inside[w]);
            && |Inside(s, p)| == |Inside(s', p)| + 1
            && Inside(s', Other(p)) == Inside(s, Other(p))
  {
    hide Wrap64, SetEnd;
    var s', p := Apply(s, Exit(w)), PhaseOf(s.inside[w]);
    assert Inside(s, p) == Inside(s', p) + {w};
  }

  lemma ExitKeepsInv(s: State, w: nat)
    requires Inv(s) && Enabled(s, Exit(w))
    ensures Inv(Apply(s, Exit(w)))
  {
    hide Inside;
    var s', p := Apply(s, Exit(w)), PhaseOf(s.inside[w]);
    InsideAfterExit(s, w);
    assert End(s.e, p) + 1 <= Base(p) + INT64_MAX;
    WrapInRange(End(s.e, p) + 1);
    hide Wrap64;
  }

  lemma ReaderKeepsInv(s: State, a: Action)
    requires Inv(s) && Enabled(s, a) && !a.Enter? && !a.Exit?
    ensures Inv(Apply(s, a))
  {
    var s' := Apply(s, a);
    assert Inside(s', Even) == Inside(s, Even) && Inside(s', Odd) == Inside(s, Odd);
  }

  lemma StepKeepsInv(s: State, a: Action)
    requires Inv(s) && Enabled(s, a) && Apply(s, a).entries <= INT64_MAX
    ensures Inv(Apply(s, a))
  {
    hide Inv, PhaseOf, SetEnd, End, Base;
    if a.Enter? {
      EnterKeepsInv(s, a.w);
    } else if a.Exit? {
      ExitKeepsInv(s, a.w);
    } else {
      ReaderKeepsInv(s, a);
    }
  }

  lemma {:induction false} RunKeepsInv(s: State, run: seq<Action>)
    requires Inv(s) && Legal(s, run) && Bounded(s, run)
    ensures Inv(Run(s, run))
    decreases |run|
  {
    hide Inv, Apply, Enabled;
    if run != [] {
      StepKeepsInv(s, run[0]);
      RunKeepsInv(Apply(s, run[0]), run[1..]);
    }
  }

  // ----- safety of a flip -----

  /** When the next phase's end epoch is cleared no writer of that phase is
      inside, so no pending exit is lost. */
  lemma ClearLosesNoExit(s: State, r: nat)
    requires Inv(s) && Enabled(s, Clear(r))
    ensures Inside(s, s.lock.pc.next) == {}
  {
  }

  /** The spin's test succeeds exactly when the old phase is empty. */
  lemma CaughtUpIffDrained(s: State)
    requires Inv(s) && s.lock.Held? && s.lock.pc.Spinning?
    ensures CaughtUp(s) <==> Inside(s, Other(s.lock.pc.next)) == {}
  {
  }

  /** While a flip spins, a step can only take writers out of the old phase, and
      the flip ends only with the old phase empty. */
  lemma OldPhaseShrinks(s: State, a: Action)
    requires Inv(s) && Enabled(s, a) && Apply(s, a).entries <= INT64_MAX
    requires s.lock.Held? && s.lock.pc.Spinning?
    ensures var prev := Other(s.lock.pc.next);
            && Inside(Apply(s, a), prev) == Inside(s, prev) - (if a.Exit? then {a.w} else {})
            && (Apply(s, a).lock == s.lock
                || (Inside(s, prev) == {} && Apply(s, a).lock == Held(s.lock.reader, Holding)))
  {
    var s', prev := Apply(s, a), Other(s.lock.pc.next);
    if a.Enter? {
      EnterPhase(s, a.w);
    }
    if a.Spin? { CaughtUpIffDrained(s); }
    assert Inside(s', prev) == Inside(s, prev) - (if a.Exit? then {a.w} else {});
  }

  /** As long as one writer that was inside at the exchange has not exited, the
      flip is still spinning: when a flip returns, every writer that entered
      before its exchange has exited. */
  lemma {:induction false} FlipWaitsForEarlierWriters(s: State, r: nat, run: seq<Action>, w: nat)
    requires Inv(s) && Enabled(s, Exchange(r)) && w in s.inside
    requires Legal(Apply(s, Exchange(r)), run) && Bounded(Apply(s, Exchange(r)), run)
    requires Exit(w) !in run
    ensures Run(Apply(s, Exchange(r)), run).lock == Apply(s, Exchange(r)).lock
  {
    var s1 := Apply(s, Exchange(r));
    ReaderKeepsInv(s, Exchange(r));
    var prev := Other(s.lock.pc.next);
    assert Current(s) == prev && Inside(s, Other(prev)) == {};
    assert w !in Inside(s, Other(prev));
    assert w in Inside(s1, prev);
    SpinsWhileInside(s1, run, w);
  }

  lemma {:induction false} SpinsWhileInside(s: State, run: seq<Action>, w: nat)
    requires Inv(s) && s.lock.Held? && s.lock.pc.Spinning? && w in Inside(s, Other(s.lock.pc.next))
    requires Legal(s, run) && Bounded(s, run) && Exit(w) !in run
    ensures Run(s, run).lock == s.lock && w in Inside(Run(s, run), Other(s.lock.pc.next))
    decreases |run|
  {
    hide Inv, Apply, Enabled, Inside;
    if run != [] {
      StepKeepsInv(s, run[0]);
      OldPhaseShrinks(s, run[0]);
      SpinsWhileInside(Apply(s, run[0]), run[1..], w);
    }
  }

  /** The flip that spins in s is still spinning at every point of the run. */
  predicate StaysSpinning(s: State, run: seq<Action>)
    requires Legal(s, run)
    decreases |run|
  {
    run == [] || (Apply(s, run[0]).lock == s.lock && StaysSpinning(Apply(s, run[0]), run[1..]))
  }

  /** Progress: the spin waits on a fixed finite set. Once every writer that was
      in the old phase has exited, whatever else the run contains, the next
      test ends the flip. */
  lemma {:induction false} FlipEndsOnceDrained(s: State, run: seq<Action>)
    requires Inv(s) && s.lock.Held? && s.lock.pc.Spinning?
    requires Legal(s, run) && Bounded(s, run) && StaysSpinning(s, run)
    requires forall w :: w in Inside(s, Other(s.lock.pc.next)) ==> Exit(w) in run
    ensures Run(s, run).lock == s.lock && CaughtUp(Run(s, run))
    decreases |run|
  {
    hide Inv, Apply, Enabled, Inside, CaughtUp;
    if run == [] {
      assert Inside(s, Other(s.lock.pc.next)) == {};
      CaughtUpIffDrained(s);
    } else {
      StepKeepsInv(s, run[0]);
      OldPhaseShrinks(s, run[0]);
      var s1 := Apply(s, run[0]);
      forall w | w in Inside(s1, Other(s.lock.pc.next)) ensures Exit(w) in run[1..] {
        assert run == [run[0]] + run[1..];
      }
      FlipEndsOnceDrained(s1, run[1..]);
    }
  }

  // ----- the limit on entries is exact -----

  function EnterAll(n: nat): seq<Action> {
    if n == 0 then [] else EnterAll(n - 1) + [Enter(n - 1)]
  }

  /** n writers entering one after the other is a legal run, for every n up to
      the limit: the limit is reached by real runs. */
  lemma {:induction false} LimitIsReachable(n: nat)
    requires n <= INT64_MAX
    ensures Legal(Initial(), EnterAll(n)) && Bounded(Initial(), EnterAll(n))
    ensures var s := Run(Initial(), EnterAll(n)); s.entries == n && Inv(s) && forall w :: w in s.inside ==> w < n
  {
    hide Inv;
    if n == 0 {
      InitialInv();
    } else {
      LimitIsReachable(n - 1);
      var s := Run(Initial(), EnterAll(n - 1));
      RunSnoc(Initial(), EnterAll(n - 1), Enter(n - 1));
      EnterKeepsInv(s, n - 1);
    }
  }

  lemma {:induction false} RunSnoc(s: State, run: seq<Action>, a: Action)
    requires Legal(s, run) && Enabled(Run(s, run), a)
    ensures Legal(s, run + [a]) && Run(s, run + [a]) == Apply(Run(s, run), a)
    ensures Bounded(s, run) && Apply(Run(s, run), a).entries <= INT64_MAX ==> Bounded(s, run + [a])
    decreases |run|
  {
    hide Apply, Enabled;
    if run == [] {
      assert run + [a] == [a] && [a][1..] == [];
      assert Legal(Apply(s, a), []) && Run(Apply(s, a), []) == Apply(s, a);
    } else {
      RunSnoc(Apply(s, run[0]), run[1..], a);
      assert (run + [a])[1..] == run[1..] + [a];
    }
  }

  /** One entry beyond the limit is counted out of the wrong phase: its exit
      increments the other phase's end epoch and leaves this phase's alone. */
  lemma BeyondLimitMisfiles(s: State, w: nat)
    requires Inv(s) && Enabled(s, Enter(w)) && s.entries == INT64_MAX
    ensures var s1 := Apply(s, Enter(w));
            && Enabled(s1, Exit(w))
            && End(Apply(s1, Exit(w)).e, Current(s)) == End(s.e, Current(s))
            && End(Apply(s1, Exit(w)).e, Other(Current(s))) == Wrap64(End(s.e, Other(Current(s))) + 1)
            && !Inv(s1)
  {
    hide Inside;
    EnterPhase(s, w);
  }
}
