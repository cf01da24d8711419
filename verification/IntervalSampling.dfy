/** hdr_interval_recorder_sample: sample_and_recycle on the histogram kept in
    r->inactive, which is read before the call and written after it, both outside
    the mutex. */
module IntervalSampling {
  import opened Basics
  import opened Bits
  import opened Buckets
  import opened HistogramModel
  import R = IntervalRecorder
  import P = Phaser
  import A = AtomicRecording
  import Counters

  /** A sampler has read r->inactive, is inside sample_and_recycle, or has its
      result and not stored it yet. */
  datatype SamplerPc = Called(recycle: Option<nat>) | InCall | Sampled(h: nat)

  datatype State = State(rec: R.State, inactive: Option<nat>, samplers: map<nat, SamplerPc>)

  datatype Action = LoadInactive(r: nat) | Inner(a: R.Action) | StoreInactive(r: nat)

  function Initial(c: Config): State {
    State(R.Initial(c), None, map[])
  }

  /** The reader step fits the sampler's place. */
  predicate Fits(p: SamplerPc, a: R.Action) {
    match a
    case Recycle(_, h) => p == Called(Some(h))
    case Create(_, _) => p == Called(None)
    case _ => p == InCall
  }

  predicate Enabled(s: State, act: Action) {
    match act
    case LoadInactive(r) => r !in s.samplers
    case Inner(a) =>
      && R.Enabled(s.rec, a)
      && (R.ByWriter(a) || (a.r in s.samplers && Fits(s.samplers[a.r], a)))
    case StoreInactive(r) => r in s.samplers && s.samplers[r].Sampled?
  }

  /** Where a step inside sample_and_recycle leaves its sampler. */
  function SamplersAfter(s: State, a: R.Action): map<nat, SamplerPc> {
    if a.Recycle? || a.Create? then s.samplers[a.r := InCall]
    else if a.Unlock? && a.r in s.rec.readers && s.rec.readers[a.r].Flipped? then
      s.samplers[a.r := Sampled(s.rec.readers[a.r].prev)]
    else s.samplers
  }

  function Apply(s: State, act: Action): State
    requires R.Sound(s.rec) && Enabled(s, act)
  {
    match act
    case LoadInactive(r) => s.(samplers := s.samplers[r := Called(s.inactive)])
    case Inner(a) => s.(rec := R.Apply(s.rec, a), samplers := SamplersAfter(s, a))
    case StoreInactive(r) => s.(inactive := Some(s.samplers[r].h), samplers := s.samplers - {r})
  }

  lemma ApplySound(s: State, act: Action)
    requires R.Sound(s.rec) && Enabled(s, act)
    ensures R.Sound(Apply(s, act).rec)
  {
    hide R.Sound, R.Apply, R.Enabled;
    if act.Inner? { R.ApplySound(s.rec, act.a); }
  }

  predicate Legal(s: State, run: seq<Action>)
    requires R.Sound(s.rec)
    decreases |run|
  {
    run == [] || (Enabled(s, run[0]) && (ApplySound(s, run[0]); Legal(Apply(s, run[0]), run[1..])))
  }

  function Run(s: State, run: seq<Action>): (s': State)
    requires R.Sound(s.rec) && Legal(s, run)
    ensures R.Sound(s'.rec)
    decreases |run|
  {
    if run == [] then s
    else
      ApplySound(s, run[0]);
      Run(Apply(s, run[0]), run[1..])
  }

  predicate Bounded(s: State, run: seq<Action>)
    requires R.Sound(s.rec) && Legal(s, run)
    decreases |run|
  {
    && s.rec.ph.entries <= INT64_MAX
    && (run == [] || (ApplySound(s, run[0]); Bounded(Apply(s, run[0]), run[1..])))
  }

  // ----- one sampler -----

  /** Nobody but r samples in the run. */
  predicate OnlySampler(r: nat, run: seq<Action>) {
    forall k :: 0 <= k < |run| ==> (run[k].LoadInactive? ==> run[k].r == r)
  }

  predicate Owns(roles: map<nat, R.Role>, r: nat, h: nat) {
    h in roles && roles[h] == R.Returned(r)
  }

  /** Between calls r owns what r->inactive names; inside a call r is a reader. */
  predicate OneSampler(s: State, r: nat) {
    Ownership(s.samplers, s.inactive, s.rec.readers.Keys, s.rec.roles, r)
  }

  predicate Ownership(samplers: map<nat, SamplerPc>, inactive: Option<nat>, readers: set<nat>,
                      roles: map<nat, R.Role>, r: nat) {
    && samplers.Keys <= {r}
    && readers == (if r in samplers && samplers[r] == InCall then {r} else {})
    && (r in samplers && samplers[r].Sampled? ==> Owns(roles, r, samplers[r].h))
    && (r in samplers && samplers[r].Called? ==> samplers[r].recycle == inactive)
    && ((r in samplers ==> samplers[r].Called?) && inactive.Some? ==> Owns(roles, r, inactive.value))
  }

  lemma InvSound(s: R.State)
    requires R.Inv(s)
    ensures R.Sound(s)
  {
  }

  lemma StepKeepsOwnership(s: State, act: Action, r: nat)
    requires R.Inv(s.rec) && OneSampler(s, r) && Enabled(s, act)
    requires act.LoadInactive? ==> act.r == r
    ensures R.Sound(s.rec) && OneSampler(Apply(s, act), r)
  {
    hide R.Sound, R.Inv, R.Apply, R.Enabled, R.ByWriter;
    InvSound(s.rec);
    if act.Inner? {
      hide Ownership;
      InnerReaders(s.rec, act.a);
      OwnedStays(s, act.a, r);
      InnerOwnership(s, act.a, R.Apply(s.rec, act.a), r);
    }
  }

  /** A step that does not begin a call leaves what r owns alone. */
  lemma OwnedStays(s: State, a: R.Action, r: nat)
    requires R.Inv(s.rec) && R.Enabled(s.rec, a)
    ensures R.Sound(s.rec)
    ensures !a.Recycle? ==>
              forall h :: Owns(s.rec.roles, r, h) ==> Owns(R.Apply(s.rec, a).roles, r, h)
  {
    hide R.Sound, R.Inv, R.Apply, R.Enabled;
    InvSound(s.rec);
    if !a.Recycle? {
      forall h | Owns(s.rec.roles, r, h) ensures Owns(R.Apply(s.rec, a).roles, r, h) {
        R.StepLeavesReturnedAlone(s.rec, a, h, r);
      }
    }
  }

  lemma InnerOwnership(s: State, a: R.Action, rec': R.State, r: nat)
    requires OneSampler(s, r) && R.Sound(s.rec) && Enabled(s, Inner(a)) && rec' == R.Apply(s.rec, a)
    requires !a.Recycle? ==> forall h :: Owns(s.rec.roles, r, h) ==> Owns(rec'.roles, r, h)
    requires R.ByWriter(a) ==> rec'.readers == s.rec.readers
    requires a.Recycle? || a.Create? ==> rec'.readers.Keys == s.rec.readers.Keys + {a.r}
    requires a.Unlock? ==> a.r in s.rec.readers && rec'.readers.Keys == s.rec.readers.Keys - {a.r}
                           && s.rec.readers[a.r].Flipped? && Owns(rec'.roles, a.r, s.rec.readers[a.r].prev)
    requires !R.ByWriter(a) && !a.Recycle? && !a.Create? && !a.Unlock? ==> rec'.readers.Keys == s.rec.readers.Keys
    ensures OneSampler(Apply(s, Inner(a)), r)
  {
    hide R.Sound, R.Apply, R.Enabled, Owns;
    assert R.ByWriter(a) ==> !a.Recycle? && !a.Create? && !a.Unlock?;
    hide R.ByWriter;
  }

  /** Which readers a step leaves inside sample_and_recycle, and what it returns. */
  lemma InnerReaders(s: R.State, a: R.Action)
    requires R.Sound(s) && R.Enabled(s, a)
    ensures R.ByWriter(a) ==> R.Apply(s, a).readers == s.readers
    ensures a.Recycle? || a.Create? ==> R.Apply(s, a).readers.Keys == s.readers.Keys + {a.r}
    ensures a.Unlock? ==> a.r in s.readers && R.Apply(s, a).readers.Keys == s.readers.Keys - {a.r}
                          && s.readers[a.r].Flipped? && Owns(R.Apply(s, a).roles, a.r, s.readers[a.r].prev)
    ensures !R.ByWriter(a) && !a.Recycle? && !a.Create? && !a.Unlock? ==> R.Apply(s, a).readers.Keys == s.readers.Keys
  {
    hide R.Sound, P.Apply, P.CaughtUp, P.Enabled, Empty;
  }

  lemma StepKeepsInv(s: State, act: Action)
    requires R.Inv(s.rec) && Enabled(s, act)
    ensures R.Sound(s.rec)
    ensures Apply(s, act).rec.ph.entries <= INT64_MAX ==> R.Inv(Apply(s, act).rec)
  {
    hide R.Sound, R.Inv, R.Apply, R.Enabled, R.ByWriter;
    InvSound(s.rec);
    if act.Inner? && Apply(s, act).rec.ph.entries <= INT64_MAX { R.StepKeepsInv(s.rec, act.a); }
  }

  lemma {:induction false} RunKeepsOwnership(s: State, run: seq<Action>, r: nat)
    requires R.Sound(s.rec) && R.Inv(s.rec) && OneSampler(s, r) && OnlySampler(r, run)
    requires Legal(s, run) && Bounded(s, run)
    ensures R.Inv(Run(s, run).rec) && OneSampler(Run(s, run), r)
    decreases |run|
  {
    hide R.Sound, R.Inv, Apply, Enabled, OneSampler;
    if run != [] {
      ApplySound(s, run[0]);
      StepKeepsInv(s, run[0]);
      StepKeepsOwnership(s, run[0], r);
      RunKeepsOwnership(Apply(s, run[0]), run[1..], r);
    }
  }

  /** With one sampler, in every run, what a call is about to recycle is the
      sampler's own: sample_and_recycle's demand on its caller is met. */
  lemma OneSamplerOwnsItsRecycle(c: Config, run: seq<Action>, r: nat, h: nat)
    requires Shaped(c) && R.Sound(Initial(c).rec) && Legal(Initial(c), run) && Bounded(Initial(c), run)
    requires OnlySampler(r, run)
    requires var s := Run(Initial(c), run); r in s.samplers && s.samplers[r] == Called(Some(h))
    ensures Enabled(Run(Initial(c), run), Inner(R.Recycle(r, h)))
  {
    hide R.Sound, R.Inv, Legal, Bounded, Run, Initial, R.Initial, OneSampler, Enabled, Shaped;
    InitialOwnership(c, r);
    RunKeepsOwnership(Initial(c), run, r);
    CalledOwns(Run(Initial(c), run), r, h);
  }

  lemma InitialOwnership(c: Config, r: nat)
    requires Shaped(c)
    ensures R.Inv(Initial(c).rec) && OneSampler(Initial(c), r)
  {
    hide R.Inv, Shaped, Empty;
    R.InitialInv(c);
  }

  lemma CalledOwns(s: State, r: nat, h: nat)
    requires OneSampler(s, r) && r in s.samplers && s.samplers[r] == Called(Some(h))
    ensures Enabled(s, Inner(R.Recycle(r, h)))
  {
  }

  /** With one sampler, the histogram a call has returned is stable until its next
      call: its contents do not change and nobody writes it. */
  lemma {:induction false} OneSamplerStable(s: State, run: seq<Action>, r: nat, h: nat)
    requires R.Sound(s.rec) && R.Inv(s.rec) && OneSampler(s, r) && r !in s.samplers && s.inactive == Some(h)
    requires Legal(s, run) && Bounded(s, run) && OnlySampler(r, run) && LoadInactive(r) !in run
    ensures var s' := Run(s, run);
            && h in s.rec.hists && h in s'.rec.hists && s'.rec.hists[h] == s.rec.hists[h]
            && R.On(s'.rec.writers, h) == map[] && s'.inactive == Some(h)
    decreases |run|
  {
    hide R.Sound, R.Inv, R.On, Owns, Apply, Enabled;
    OwnedIsQuiet(s.rec, r, h);
    hide OneSampler;
    if run != [] {
      ApplySound(s, run[0]);
      StepKeepsInv(s, run[0]);
      StepKeepsOwnership(s, run[0], r);
      StableStep(s, run[0], r, h);
      OneSamplerStable(Apply(s, run[0]), run[1..], r, h);
    }
  }

  lemma StableStep(s: State, act: Action, r: nat, h: nat)
    requires R.Sound(s.rec) && R.Inv(s.rec) && OneSampler(s, r) && r !in s.samplers && s.inactive == Some(h)
    requires Enabled(s, act) && !act.LoadInactive?
    ensures var s' := Apply(s, act);
            && r !in s'.samplers && s'.inactive == Some(h)
            && h in s.rec.hists && h in s'.rec.hists && s'.rec.hists[h] == s.rec.hists[h]
  {
    hide R.Sound, R.Inv, R.Apply, R.Enabled, R.On;
    OwnedIsQuiet(s.rec, r, h);
    assert act.Inner? && R.ByWriter(act.a);
    R.StepLeavesReturnedAlone(s.rec, act.a, h, r);
    R.ApplySound(s.rec, act.a);
    SameKeys(R.Apply(s.rec, act.a), h);
  }

  lemma OwnedIsQuiet(s: R.State, r: nat, h: nat)
    requires R.Inv(s) && Owns(s.roles, r, h)
    ensures h in s.hists && R.On(s.writers, h) == map[]
  {
    R.NobodyOn(s, h);
    hide *;
    InvSound(s);
    SameKeys(s, h);
  }

  lemma SameKeys(s: R.State, h: nat)
    requires R.Sound(s) && h in s.roles
    ensures h in s.hists
  {
    hide Valid, R.HistsOf;
  }

  // ----- two samplers -----

  lemma {:induction false} RunSnoc(s: State, run: seq<Action>, act: Action)
    requires R.Sound(s.rec) && Legal(s, run) && Bounded(s, run) && Enabled(Run(s, run), act)
    requires Apply(Run(s, run), act).rec.ph.entries <= INT64_MAX
    ensures Legal(s, run + [act]) && Bounded(s, run + [act]) && Run(s, run + [act]) == Apply(Run(s, run), act)
    decreases |run|
  {
    hide R.Sound, Apply, Enabled;
    if run == [] {
      assert run + [act] == [act] && [act][1..] == [];
      ApplySound(s, act);
      assert Legal(Apply(s, act), []) && Bounded(Apply(s, act), []) && Run(Apply(s, act), []) == Apply(s, act);
    } else {
      ApplySound(s, run[0]);
      RunSnoc(Apply(s, run[0]), run[1..], act);
      assert (run + [act])[1..] == run[1..] + [act];
    }
  }

  /** The run leads from s to t. */
  predicate Leads(s: State, run: seq<Action>, t: State) {
    R.Sound(s.rec) && Legal(s, run) && Bounded(s, run) && Run(s, run) == t
  }

  lemma Stay(s: State)
    requires R.Inv(s.rec)
    ensures Leads(s, [], s)
  {
    hide R.Sound, R.Inv;
    InvSound(s.rec);
    InvEntries(s.rec);
  }

  /** A run can go on with any enabled step that does not exceed the limit on
      entries. */
  lemma Extend(s: State, run: seq<Action>, t: State, act: Action) returns (run': seq<Action>, t': State)
    requires R.Inv(t.rec) && R.Sound(t.rec) && Leads(s, run, t) && Enabled(t, act)
    requires act.Inner? ==> R.Apply(t.rec, act.a).ph.entries <= INT64_MAX
    ensures run' == run + [act] && t' == Apply(t, act) && Leads(s, run', t')
    ensures R.Inv(t'.rec) && R.Sound(t'.rec)
  {
    hide R.Sound, R.Inv, R.Apply, R.Enabled, R.ByWriter, Legal, Bounded, Run;
    run', t' := run + [act], Apply(t, act);
    InvEntries(t.rec);
    RunSnoc(s, run, act);
    StepKeepsInv(t, act);
    InvSound(t'.rec);
  }

  /** A run can go on with any step of a sampler. */
  lemma ExtendReader(s: State, run: seq<Action>, t: State, act: Action) returns (run': seq<Action>, t': State)
    requires R.Inv(t.rec) && R.Sound(t.rec) && Leads(s, run, t) && Enabled(t, act)
    requires act.Inner? ==> !R.ByWriter(act.a)
    ensures run' == run + [act] && t' == Apply(t, act) && Leads(s, run', t')
    ensures R.Inv(t'.rec) && R.Sound(t'.rec) && SameWriters(t.rec, t'.rec)
  {
    hide R.Sound, R.Inv, R.Apply, R.Enabled, R.ByWriter, Leads;
    InvEntries(t.rec);
    if act.Inner? { ReaderWritersKept(t.rec, act.a); }
    run', t' := Extend(s, run, t, act);
  }

  /** The writers are where they were, and nobody has entered. */
  predicate SameWriters(s: R.State, t: R.State) {
    t.writers == s.writers && t.ph.inside == s.ph.inside && t.ph.entries <= s.ph.entries
  }

  lemma InvEntries(s: R.State)
    requires R.Inv(s)
    ensures s.ph.entries <= INT64_MAX
  {
  }

  lemma ReaderWritersKept(s: R.State, a: R.Action)
    requires R.Sound(s) && R.Enabled(s, a) && !R.ByWriter(a)
    ensures SameWriters(s, R.Apply(s, a))
  {
    hide R.Sound, Empty, P.SetEnd, P.Base, P.CaughtUp;
  }

  /** How sample_and_recycle gets from its argument to the swap. */
  predicate SwapEffect(s: R.State, t: R.State, a: R.Action) {
    match a
    case Recycle(r, h) => t.readers == s.readers[r := R.Prepared(h)] && t.ph == s.ph && t.active == s.active
    case Create(r, h) => t.readers == s.readers[r := R.Prepared(h)] && t.ph == s.ph && t.active == s.active
    case Lock(r) =>
      && r in s.readers && s.readers[r].Prepared? && t.readers == s.readers[r := R.Locked(s.readers[r].h)]
      && t.ph.lock == P.Held(r, P.Holding) && t.active == s.active
    case ReadActive(r) =>
      && r in s.readers && s.readers[r].Locked? && t.readers == s.readers[r := R.Read(s.readers[r].h, s.active)]
      && t.ph.lock == s.ph.lock && t.active == s.active
    case StoreActive(r) =>
      && r in s.readers && s.readers[r].Read? && t.readers == s.readers[r := R.Swapped(s.readers[r].prev)]
      && t.ph.lock == s.ph.lock && t.active == s.readers[r].h
    case _ => true
  }

  lemma SwapFields(s: R.State, a: R.Action)
    requires R.Sound(s) && R.Enabled(s, a)
    ensures SwapEffect(s, R.Apply(s, a), a)
  {
    hide R.Sound, Empty, R.ApplyWriter, P.SetEnd, P.Base, P.CaughtUp;
  }

  /** A sampler that has its histogram ready goes on to swap it in. */
  lemma SwapIn(s0: State, run0: seq<Action>, s: State, a: nat, h: nat) returns (run: seq<Action>, t: State)
    requires R.Inv(s.rec) && R.Sound(s.rec) && Leads(s0, run0, s) && a in s.samplers && s.samplers[a] == InCall
    requires s.rec.readers == map[a := R.Prepared(h)] && s.rec.ph.lock == P.Free
    ensures R.Inv(t.rec) && R.Sound(t.rec) && Leads(s0, run, t) && SameWriters(s.rec, t.rec)
    ensures t.samplers == s.samplers && t.inactive == s.inactive
    ensures t.rec.active == h && t.rec.readers == map[a := R.Swapped(s.rec.active)]
    ensures t.rec.ph.lock == P.Held(a, P.Holding)
  {
    hide R.Sound, R.Inv, R.Apply, R.Enabled, Leads;
    PlaceEnables(s.rec, a);
    run, t := SwapStep(s0, run0, s, R.Lock(a));
    PlaceEnables(t.rec, a);
    run, t := SwapStep(s0, run, t, R.ReadActive(a));
    PlaceEnables(t.rec, a);
    run, t := SwapStep(s0, run, t, R.StoreActive(a));
  }

  /** Which step a reader's place and the mutex enable. */
  lemma PlaceEnables(s: R.State, r: nat)
    requires r in s.readers
    ensures s.readers[r].Prepared? && s.ph.lock == P.Free ==> R.Enabled(s, R.Lock(r))
    ensures s.readers[r].Locked? ==> R.Enabled(s, R.ReadActive(r))
    ensures s.readers[r].Read? ==> R.Enabled(s, R.StoreActive(r))
    ensures InFlip(s, r) && s.readers[r].Swapped? ==>
              match s.ph.lock.pc
              case Holding => R.Enabled(s, R.FlipLoad(r))
              case Loaded(_) => R.Enabled(s, R.FlipClear(r))
              case Cleared(_) => R.Enabled(s, R.FlipExchange(r))
              case Spinning(_, _) => R.Enabled(s, R.FlipSpin(r))
    ensures InFlip(s, r) && s.readers[r].Flipped? && s.ph.lock.pc.Holding? ==> R.Enabled(s, R.Unlock(r))
  {
  }

  lemma SwapStep(s0: State, run0: seq<Action>, s: State, a: R.Action) returns (run: seq<Action>, t: State)
    requires a.Lock? || a.ReadActive? || a.StoreActive?
    requires a.r in s.samplers && s.samplers[a.r] == InCall && R.Enabled(s.rec, a)
    requires R.Inv(s.rec) && R.Sound(s.rec) && Leads(s0, run0, s)
    ensures R.Inv(t.rec) && R.Sound(t.rec) && Leads(s0, run, t) && SameWriters(s.rec, t.rec)
    ensures t.samplers == s.samplers && t.inactive == s.inactive && SwapEffect(s.rec, t.rec, a)
  {
    hide R.Sound, R.Inv, R.Apply, Leads, R.Enabled, SwapEffect, SameWriters;
    SwapFields(s.rec, a);
    run, t := ExtendReader(s0, run0, s, Inner(a));
  }

  /** Two samplers: from any state in which r->inactive names a histogram that one
      of them owns and no sample is under way, both can read it, and after the first
      has swapped it in, the second is about to reset and recycle what is by now
      the active histogram. */
  lemma TwoSamplersCollide(s0: State, run0: seq<Action>, s: State, a: nat, b: nat, h: nat)
      returns (run: seq<Action>, t: State)
    requires R.Inv(s.rec) && R.Sound(s.rec) && Leads(s0, run0, s) && a != b
    requires s.samplers == map[] && s.rec.readers == map[] && s.rec.ph.lock == P.Free
    requires s.inactive == Some(h) && Owns(s.rec.roles, a, h)
    ensures R.Inv(t.rec) && R.Sound(t.rec) && Leads(s0, run, t) && SameWriters(s.rec, t.rec)
    ensures t.rec.active == h && b in t.samplers && t.samplers[b] == Called(Some(h)) && b !in t.rec.readers
    ensures !R.Enabled(t.rec, R.Recycle(b, h))
  {
    hide R.Sound, R.Inv, R.Apply, Leads;
    run, t := ExtendReader(s0, run0, s, LoadInactive(a));
    run, t := ExtendReader(s0, run, t, LoadInactive(b));
    SwapFields(t.rec, R.Recycle(a, h));
    run, t := ExtendReader(s0, run, t, Inner(R.Recycle(a, h)));
    hide Enabled, R.Enabled;
    run, t := SwapIn(s0, run, t, a, h);
    ActiveIsNobodys(t.rec, b);
  }

  /** How a flip with no writer inside goes through, and what its return does. */
  predicate FlipEffect(s: R.State, t: R.State, a: R.Action) {
    match a
    case FlipLoad(r) => InFlip(t, r) && t.ph.lock.pc.Loaded? && t.readers == s.readers
    case FlipClear(r) => InFlip(t, r) && t.ph.lock.pc.Cleared? && t.readers == s.readers
    case FlipExchange(r) => InFlip(t, r) && t.ph.lock.pc.Spinning? && t.readers == s.readers
    case FlipSpin(r) =>
      && InFlip(t, r) && t.ph.lock.pc.Holding?
      && r in s.readers && s.readers[r].Swapped? && t.readers == s.readers[r := R.Flipped(s.readers[r].prev)]
    case Unlock(r) =>
      && t.ph.lock == P.Free && t.readers == s.readers - {r}
      && r in s.readers && s.readers[r].Flipped? && Owns(t.roles, r, s.readers[r].prev)
    case _ => true
  }

  predicate InFlip(s: R.State, r: nat) {
    s.ph.lock.Held? && s.ph.lock.reader == r
  }

  lemma FlipFields(s: R.State, a: R.Action)
    requires s.ph.inside == map[] && R.Inv(s) && R.Sound(s) && R.Enabled(s, a)
    ensures FlipEffect(s, R.Apply(s, a), a)
  {
    hide R.Inv, R.Sound, Empty, R.ApplyWriter, P.Inv, P.SetEnd, P.Base, P.CaughtUp;
    InvPhaser(s);
    if a.FlipSpin? { NobodyWaitedFor(s.ph); }
  }

  lemma InvPhaser(s: R.State)
    requires R.Inv(s)
    ensures P.Inv(s.ph)
  {
  }

  lemma NobodyWaitedFor(ph: P.State)
    requires P.Inv(ph) && ph.inside == map[] && ph.lock.Held? && ph.lock.pc.Spinning?
    ensures P.CaughtUp(ph)
  {
    P.CaughtUpIffDrained(ph);
  }

  /** With no writer inside, a sampler that has swapped goes through its flip and
      returns. */
  lemma FlipOut(s0: State, run0: seq<Action>, s: State, a: nat, prev: nat) returns (run: seq<Action>, t: State)
    requires R.Inv(s.rec) && R.Sound(s.rec) && Leads(s0, run0, s) && a in s.samplers && s.samplers[a] == InCall
    requires s.rec.readers == map[a := R.Swapped(prev)] && s.rec.ph.lock == P.Held(a, P.Holding)
    requires s.rec.ph.inside == map[]
    ensures R.Inv(t.rec) && R.Sound(t.rec) && Leads(s0, run, t) && SameWriters(s.rec, t.rec)
    ensures t.rec.ph.lock == P.Free && t.rec.readers == map[] && Owns(t.rec.roles, a, prev)
    ensures t.inactive == s.inactive && t.samplers == s.samplers[a := Sampled(prev)]
  {
    hide R.Sound, R.Inv, R.Apply, R.Enabled, Leads, Owns;
    run, t := FlipIn(s0, run0, s, a);
    PlaceEnables(t.rec, a);
    run, t := FlipStep(s0, run, t, R.FlipSpin(a));
    PlaceEnables(t.rec, a);
    run, t := FlipStep(s0, run, t, R.Unlock(a));
    assert map[a := R.Flipped(prev)] - {a} == map[];
  }

  /** Up to the exchange. */
  lemma FlipIn(s0: State, run0: seq<Action>, s: State, a: nat) returns (run: seq<Action>, t: State)
    requires a in s.samplers && s.samplers[a] == InCall && a in s.rec.readers && s.rec.readers[a].Swapped?
    requires s.rec.ph.lock == P.Held(a, P.Holding) && s.rec.ph.inside == map[]
    requires R.Inv(s.rec) && R.Sound(s.rec) && Leads(s0, run0, s)
    ensures R.Inv(t.rec) && R.Sound(t.rec) && Leads(s0, run, t) && SameWriters(s.rec, t.rec)
    ensures InFlip(t.rec, a) && t.rec.ph.lock.pc.Spinning? && t.rec.readers == s.rec.readers
    ensures t.inactive == s.inactive && t.samplers == s.samplers
  {
    hide R.Sound, R.Inv, R.Apply, R.Enabled, Leads, Owns;
    PlaceEnables(s.rec, a);
    run, t := FlipStep(s0, run0, s, R.FlipLoad(a));
    PlaceEnables(t.rec, a);
    run, t := FlipStep(s0, run, t, R.FlipClear(a));
    PlaceEnables(t.rec, a);
    run, t := FlipStep(s0, run, t, R.FlipExchange(a));
  }

  lemma FlipStep(s0: State, run0: seq<Action>, s: State, a: R.Action) returns (run: seq<Action>, t: State)
    requires a.FlipLoad? || a.FlipClear? || a.FlipExchange? || a.FlipSpin? || a.Unlock?
    requires a.r in s.samplers && s.samplers[a.r] == InCall && s.rec.ph.inside == map[] && R.Enabled(s.rec, a)
    requires R.Inv(s.rec) && R.Sound(s.rec) && Leads(s0, run0, s)
    ensures R.Inv(t.rec) && R.Sound(t.rec) && Leads(s0, run, t) && SameWriters(s.rec, t.rec)
    ensures t.inactive == s.inactive && FlipEffect(s.rec, t.rec, a) && t.samplers == SamplersAfter(s, a)
  {
    hide R.Sound, R.Inv, R.Apply, Leads, R.Enabled, SameWriters;
    FlipFields(s.rec, a);
    hide FlipEffect;
    run, t := ExtendReader(s0, run0, s, Inner(a));
  }

  /** The collision happens: for every configuration a first sample by one of the
      samplers leads to a state it can start from. */
  lemma CollisionIsReachable(c: Config, a: nat, b: nat) returns (run: seq<Action>, t: State)
    requires Shaped(c) && a != b
    ensures R.Inv(t.rec) && R.Sound(t.rec) && Leads(Initial(c), run, t) && AtRest(t.rec)
    ensures t.rec.active == 0 && b in t.samplers && t.samplers[b] == Called(Some(0)) && b !in t.rec.readers
    ensures !R.Enabled(t.rec, R.Recycle(b, 0))
  {
    hide R.Sound, R.Inv, R.Apply, R.Enabled, Leads, Initial, Owns, Enabled;
    run, t := FirstCall(c, a);
    run, t := SwapIn(Initial(c), run, t, a, 1);
    run, t := FlipOut(Initial(c), run, t, a, 0);
    run, t := FirstStore(Initial(c), run, t, a);
    run, t := TwoSamplersCollide(Initial(c), run, t, a, b, 0);
  }

  /** No writer is inside, and none has ever entered the current phase. */
  predicate AtRest(s: R.State) {
    s.writers == map[] && s.ph.inside == map[] && s.ph.entries == 0
  }

  lemma FirstCall(c: Config, a: nat) returns (run: seq<Action>, t: State)
    requires Shaped(c)
    ensures R.Inv(t.rec) && R.Sound(t.rec) && Leads(Initial(c), run, t)
    ensures t.samplers == map[a := InCall] && t.inactive == None && t.rec.active == 0
    ensures t.rec.readers == map[a := R.Prepared(1)] && t.rec.ph.lock == P.Free && AtRest(t.rec)
  {
    InitialFields(c);
    hide R.Sound, R.Inv, R.Apply, Leads, Initial;
    Stay(Initial(c));
    InvSound(Initial(c).rec);
    run, t := ExtendReader(Initial(c), [], Initial(c), LoadInactive(a));
    hide Enabled;
    run, t := CreateStep(Initial(c), run, t, a, 1);
  }

  lemma CreateStep(s0: State, run0: seq<Action>, s: State, a: nat, h: nat) returns (run: seq<Action>, t: State)
    requires s.rec.readers == map[] && h !in s.rec.hists && s.samplers == map[a := Called(None)]
    requires R.Inv(s.rec) && R.Sound(s.rec) && Leads(s0, run0, s)
    ensures R.Inv(t.rec) && R.Sound(t.rec) && Leads(s0, run, t) && SameWriters(s.rec, t.rec)
    ensures t.samplers == map[a := InCall] && t.inactive == s.inactive
    ensures t.rec.readers == map[a := R.Prepared(h)] && t.rec.ph == s.rec.ph && t.rec.active == s.rec.active
  {
    hide R.Sound, R.Inv, R.Apply, Leads;
    SwapFields(s.rec, R.Create(a, h));
    run, t := ExtendReader(s0, run0, s, Inner(R.Create(a, h)));
  }

  lemma InitialFields(c: Config)
    requires Shaped(c)
    ensures var s := Initial(c);
            && s.samplers == map[] && s.inactive == None && R.Inv(s.rec)
            && s.rec.readers == map[] && s.rec.ph.lock == P.Free && s.rec.active == 0 && 1 !in s.rec.hists
            && AtRest(s.rec)
  {
    hide R.Inv, Shaped, Empty;
    R.InitialInv(c);
  }

  lemma FirstStore(s0: State, run0: seq<Action>, s: State, a: nat) returns (run: seq<Action>, t: State)
    requires R.Inv(s.rec) && R.Sound(s.rec) && Leads(s0, run0, s) && s.samplers == map[a := Sampled(0)]
    ensures R.Inv(t.rec) && R.Sound(t.rec) && Leads(s0, run, t)
    ensures t.rec == s.rec && t.samplers == map[] && t.inactive == Some(0)
  {
    hide R.Sound, R.Inv, R.Apply, Leads;
    run, t := ExtendReader(s0, run0, s, StoreInactive(a));
    assert map[a := Sampled(0)] - {a} == map[];
  }

  lemma ActiveIsNobodys(s: R.State, r: nat)
    requires R.Inv(s)
    ensures !R.Enabled(s, R.Recycle(r, s.active))
  {
    hide R.Sound, R.HistsInv, R.SamplesInv, R.KeptInv, P.Inv, R.WritersInv, R.LockInv, R.ReadersRoles, R.ReadyEmpty;
  }

  /** What that reset would lose: everything recorded in the active histogram. */
  lemma ResetOfActiveLoses(s: R.State, r: nat, c: Config)
    requires R.Inv(s) && r !in s.readers
    ensures s.active in s.logs
    ensures R.Kept(s) == R.Kept(R.TakeUp(s, r, s.active, c)) + multiset(s.logs[s.active])
  {
    hide Valid, Empty, R.SampleRecords, R.HistsInv, R.SamplesInv, R.KeptInv, P.Inv, R.WritersInv;
    assert s.active !in R.SwappedOut(s.ph.lock, s.readers);
  }

  // ----- a completed record is lost -----

  /** One record of the value 0. */
  function Zero(w: nat): Rec {
    Rec(0, 1, w)
  }

  /** Writer w alone is inside, recording a 0 into the active histogram. */
  predicate RecordingZero(s: R.State, w: nat, pc: A.Pc) {
    s.writers == map[w := R.Recording(s.active, [], A.Thread(Zero(w), pc))]
  }

  /** The next place of a call recording 0: neither bound can move. */
  function NextPc(pc: A.Pc, landed: nat): A.Pc {
    match pc
    case Start => A.AddTotal(landed)
    case AddTotal(pos) => A.LoadMin(pos)
    case LoadMin(pos) => A.LoadMax(pos)
    case CasMin(pos, _) => pc
    case LoadMax(_) => A.Done(true)
    case CasMax(pos, _) => pc
    case Done(_) => pc
  }

  /** What the steps of that call leave alone, and that its record lands first. */
  predicate RecordEffect(s: R.State, t: R.State, w: nat, pc: A.Pc) {
    && t.active == s.active && t.readers == s.readers && t.ph == s.ph && t.completed == s.completed
    && s.active in s.logs && RecordingZero(t, w, NextPc(pc, |s.logs[s.active]|))
    && t.logs == s.logs[s.active := if pc.Start? then s.logs[s.active] + [Zero(w)] else s.logs[s.active]]
  }

  lemma RecordZero(s: R.State, w: nat, pc: A.Pc)
    requires RecordingZero(s, w, pc) && (pc.Start? || pc.AddTotal? || pc.LoadMin? || pc.LoadMax?)
    requires R.Inv(s) && R.Sound(s)
    ensures R.Enabled(s, R.Record(w)) && RecordEffect(s, R.Apply(s, R.Record(w)), w, pc)
  {
    hide R.Inv, R.Sound, Valid, Accepts, A.Advance, A.LogAfter, NextPc, R.Apply;
    ActiveFits(s);
    AdvanceZero(s.hists[s.active], w, pc, s.logs[s.active]);
    RecordIsStep(s, w);
  }

  lemma RecordIsStep(s: R.State, w: nat)
    requires R.Sound(s) && R.Enabled(s, R.Record(w))
    ensures R.Apply(s, R.Record(w)) == R.RecordStep(s, w)
  {
    hide R.Sound, A.Advance, A.LogAfter;
  }

  lemma AdvanceZero(h: Hist, w: nat, pc: A.Pc, log: seq<Rec>)
    requires Valid(h) && h.maxValue >= 0 && Accepts(h.cfg, 0)
    requires pc.Start? || pc.AddTotal? || pc.LoadMin? || pc.LoadMax?
    ensures A.Advance(h, A.Thread(Zero(w), pc), |log|).1 == NextPc(pc, |log|)
    ensures A.LogAfter(h, A.Thread(Zero(w), pc), log) == if pc.Start? then log + [Zero(w)] else log
  {
    hide Shaped, CountsIndexFor;
  }

  lemma ActiveFits(s: R.State)
    requires R.Inv(s) && R.Sound(s)
    ensures s.active in s.hists && s.active in s.logs && Valid(s.hists[s.active])
    ensures s.hists[s.active].maxValue >= 0 && Accepts(s.hists[s.active].cfg, 0)
  {
    hide R.RolesInv, R.LockInv, R.WritersInv, R.SamplesInv, R.KeptInv, P.Inv, CountsIndexFor, Shaped, R.HistsOf;
    assert A.Inv(s.hists[s.active], s.logs[s.active], R.On(s.writers, s.active));
    hide R.HistsInv, A.CountsAgree, A.ThreadsPlaced, A.MinAgrees, A.PendingTotal, LogTotal;
    var c := s.hists[s.active].cfg;
    Counters.SlotZeroValue(c);
    Counters.CountsNonEmpty(c);
  }

  lemma RecordStep(s0: State, run0: seq<Action>, s: State, w: nat, pc: A.Pc) returns (run: seq<Action>, t: State)
    requires RecordingZero(s.rec, w, pc) && (pc.Start? || pc.AddTotal? || pc.LoadMin? || pc.LoadMax?)
    requires R.Inv(s.rec) && R.Sound(s.rec) && Leads(s0, run0, s)
    ensures R.Inv(t.rec) && R.Sound(t.rec) && Leads(s0, run, t) && RecordEffect(s.rec, t.rec, w, pc)
    ensures t.samplers == s.samplers && t.inactive == s.inactive
  {
    hide R.Sound, R.Inv, R.Apply, R.Enabled, Leads, RecordingZero;
    RecordZero(s.rec, w, pc);
    InvEntries(s.rec);
    run, t := Extend(s0, run0, s, Inner(R.Record(w)));
  }

  /** Only writers and the phaser move. */
  predicate WriterEffect(s: R.State, t: R.State) {
    t.active == s.active && t.readers == s.readers && t.logs == s.logs
  }

  lemma EnterZero(s: R.State, w: nat)
    requires AtRest(s) && R.Sound(s)
    ensures R.Enabled(s, R.Enter(w, [Zero(w)]))
    ensures var t := R.Apply(s, R.Enter(w, [Zero(w)]));
            && WriterEffect(s, t) && t.writers == map[w := R.Entered([Zero(w)])]
            && t.completed == s.completed && t.ph.entries == 1
  {
    hide R.Sound, Wrap64;
  }

  lemma LoadZero(s: R.State, w: nat)
    requires s.writers == map[w := R.Entered([Zero(w)])] && R.Sound(s)
    ensures R.Enabled(s, R.LoadActive(w))
    ensures var t := R.Apply(s, R.LoadActive(w));
            WriterEffect(s, t) && RecordingZero(t, w, A.Start) && t.completed == s.completed && t.ph == s.ph
  {
    hide R.Sound;
    assert [Zero(w)][1..] == [];
  }

  lemma FinishZero(s: R.State, w: nat)
    requires RecordingZero(s, w, A.Done(true)) && R.Sound(s)
    ensures R.Enabled(s, R.Next(w))
    ensures var t := R.Apply(s, R.Next(w));
            && WriterEffect(s, t) && t.writers == map[w := R.Updated]
            && t.completed == s.completed + multiset{Zero(w)} && t.ph == s.ph
  {
    hide R.Sound;
  }

  lemma LeaveZero(s: R.State, w: nat)
    requires s.writers == map[w := R.Updated] && R.Inv(s) && R.Sound(s)
    ensures R.Enabled(s, R.Leave(w))
    ensures var t := R.Apply(s, R.Leave(w));
            && WriterEffect(s, t) && t.writers == map[]
            && t.completed == s.completed && t.ph.entries == s.ph.entries
  {
    hide R.Sound, Wrap64, P.SetEnd, P.End, P.PhaseOf;
    InsideAgrees(s);
    hide R.Inv;
    assert w in map[w := R.Updated];
    assert map[w := R.Updated] - {w} == map[];
  }

  lemma InsideAgrees(s: R.State)
    requires R.Inv(s)
    ensures s.writers.Keys == s.ph.inside.Keys
  {
    hide R.Sound, P.Inv, R.RolesInv, R.LockInv, R.HistsInv, R.SamplesInv, R.KeptInv, R.MayWrite, R.JobOf;
  }

  /** A writer enters and takes up its record. */
  lemma WriterBegins(s0: State, run0: seq<Action>, s: State, w: nat) returns (run: seq<Action>, t: State)
    requires AtRest(s.rec) && R.Inv(s.rec) && R.Sound(s.rec) && Leads(s0, run0, s)
    ensures R.Inv(t.rec) && R.Sound(t.rec) && Leads(s0, run, t) && WriterEffect(s.rec, t.rec)
    ensures RecordingZero(t.rec, w, A.Start) && t.rec.completed == s.rec.completed
    ensures t.samplers == s.samplers && t.inactive == s.inactive
  {
    hide R.Sound, R.Inv, R.Apply, R.Enabled, Leads, RecordingZero, AtRest;
    EnterZero(s.rec, w);
    run, t := Extend(s0, run0, s, Inner(R.Enter(w, [Zero(w)])));
    LoadZero(t.rec, w);
    run, t := Extend(s0, run, t, Inner(R.LoadActive(w)));
  }

  /** The call goes through: its record lands in the active histogram. */
  lemma WriterRecords(s0: State, run0: seq<Action>, s: State, w: nat) returns (run: seq<Action>, t: State)
    requires RecordingZero(s.rec, w, A.Start) && R.Inv(s.rec) && R.Sound(s.rec) && Leads(s0, run0, s)
    ensures R.Inv(t.rec) && R.Sound(t.rec) && Leads(s0, run, t)
    ensures t.rec.active == s.rec.active && t.rec.readers == s.rec.readers && t.rec.completed == s.rec.completed
    ensures RecordingZero(t.rec, w, A.Done(true)) && t.rec.active in t.rec.logs && Zero(w) in t.rec.logs[t.rec.active]
    ensures t.samplers == s.samplers && t.inactive == s.inactive
  {
    hide R.Sound, R.Inv, Leads, RecordingZero;
    var n := |R.LogOf(s.rec.logs, s.rec.active)|;
    run, t := RecordStep(s0, run0, s, w, A.Start);
    var log := t.rec.logs[t.rec.active];
    assert log[|log| - 1] == Zero(w);
    run, t := RecordStep(s0, run, t, w, A.AddTotal(n));
    run, t := RecordStep(s0, run, t, w, A.LoadMin(n));
    run, t := RecordStep(s0, run, t, w, A.LoadMax(n));
  }

  /** The call returns and the writer leaves. */
  lemma WriterEnds(s0: State, run0: seq<Action>, s: State, w: nat) returns (run: seq<Action>, t: State)
    requires RecordingZero(s.rec, w, A.Done(true)) && R.Inv(s.rec) && R.Sound(s.rec) && Leads(s0, run0, s)
    ensures R.Inv(t.rec) && R.Sound(t.rec) && Leads(s0, run, t) && WriterEffect(s.rec, t.rec)
    ensures t.rec.writers == map[] && t.rec.completed == s.rec.completed + multiset{Zero(w)}
    ensures t.samplers == s.samplers && t.inactive == s.inactive
  {
    hide R.Sound, R.Inv, R.Apply, R.Enabled, Leads, RecordingZero;
    InvEntries(s.rec);
    FinishZero(s.rec, w);
    run, t := Extend(s0, run0, s, Inner(R.Next(w)));
    LeaveZero(t.rec, w);
    run, t := Extend(s0, run, t, Inner(R.Leave(w)));
  }

  /** The collision loses a completed record: a run from a fresh recorder in which
      writer w's call has returned true and the writer has left, and the reset the
      second sampler is about to make leaves everything kept short of the completed
      records by what the active histogram holds, w's record included. */
  lemma CompletedRecordIsLost(c: Config, a: nat, b: nat, w: nat) returns (run: seq<Action>, t: State)
    requires Shaped(c) && a != b
    ensures Leads(Initial(c), run, t) && b in t.samplers && t.samplers[b] == Called(Some(t.rec.active))
    ensures t.rec.active in t.rec.hists && t.rec.active in t.rec.logs
    ensures Zero(w) in t.rec.completed && Zero(w) in t.rec.logs[t.rec.active]
    ensures var after := R.TakeUp(t.rec, b, t.rec.active, t.rec.hists[t.rec.active].cfg);
            && after.completed == t.rec.completed && after.writers == map[]
            && R.Kept(after) + multiset(t.rec.logs[t.rec.active]) == after.completed
            && !R.KeptInv(after)
  {
    hide R.Sound, R.Inv, R.Enabled, Leads, Initial, RecordingZero, AtRest, Shaped, R.Kept;
    run, t := CollisionIsReachable(c, a, b);
    run, t := WriterBegins(Initial(c), run, t, w);
    run, t := WriterRecords(Initial(c), run, t, w);
    run, t := WriterEnds(Initial(c), run, t, w);
    ActiveFits(t.rec);
    ResetOfActiveLoses(t.rec, b, t.rec.hists[t.rec.active].cfg);
    AllCompleted(t.rec);
    var after := R.TakeUp(t.rec, b, t.rec.active, t.rec.hists[t.rec.active].cfg);
    assert !R.KeptInv(after) by { NotKept(after, t.rec.logs[t.rec.active]); }
  }

  lemma AllCompleted(s: R.State)
    requires R.Inv(s) && s.writers == map[]
    ensures R.Kept(s) == s.completed
  {
    hide R.Sound, P.Inv, R.RolesInv, R.LockInv, R.HistsInv, R.SamplesInv, R.WritersInv, R.Kept;
    assert R.Unfinished(s.writers) == {};
  }

  lemma NotKept(s: R.State, lost: seq<Rec>)
    requires s.writers == map[] && lost != [] && R.Kept(s) + multiset(lost) == s.completed
    ensures !R.KeptInv(s)
  {
    hide R.Kept;
    assert R.Unfinished(s.writers) == {};
    assert |multiset(lost)| > 0;
    assert |R.Kept(s) + multiset(lost)| == |R.Kept(s)| + |multiset(lost)|;
  }
}
