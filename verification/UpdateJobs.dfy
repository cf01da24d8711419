/** What hdr_interval_recorder_update promises its caller: between a writer's enter and
    its leave its whole update action is made, record by record, up to the first one
    the histogram refuses. */
module UpdateJobs {
  import opened Bits
  import opened Buckets
  import opened HistogramModel
  import opened IntervalRecorder
  import P = Phaser
  import A = AtomicRecording
  import Merging

  /** How many records of a job come before the first refused one. */
  function AcceptedPrefix(c: Config, job: seq<Rec>): (k: nat)
    requires Shaped(c)
    ensures k <= |job| && (forall i :: 0 <= i < k ==> Accepts(c, job[i].value))
    ensures k < |job| ==> !Accepts(c, job[k].value)
  {
    if job == [] || !Accepts(c, job[0].value) then 0 else 1 + AcceptedPrefix(c, job[1..])
  }

  /** The records a writer has still to make. */
  function Promised(c: Config, p: WriterPc): (recs: seq<Rec>)
    requires Shaped(c)
  {
    JobOf(p)[..AcceptedPrefix(c, JobOf(p))]
  }

  // ----- a call's result tells whether its value was accepted -----

  predicate Fair(c: Config, t: A.Thread)
    requires Shaped(c)
  {
    match t.pc
    case Start => true
    case Done(ok) => ok == Accepts(c, t.rec.value)
    case _ => Accepts(c, t.rec.value)
  }

  predicate FairCalls(c: Config, ws: map<nat, WriterPc>)
    requires Shaped(c)
  {
    forall w :: w in ws && ws[w].Recording? ==> Fair(c, ws[w].call)
  }

  predicate SameConfig(c: Config, hists: map<nat, Hist>) {
    forall h :: h in hists ==> hists[h].cfg == c
  }

  /** Every histogram has the configuration of the first, and no call has a wrong result. */
  predicate Verdicts(s: State, c: Config)
    requires Shaped(c)
  {
    SameConfig(c, s.hists) && FairCalls(c, s.writers)
  }

  lemma AdvanceFair(c: Config, h: Hist, t: A.Thread, landed: nat)
    requires Shaped(c) && Valid(h) && h.cfg == c && !t.pc.Done? && Fair(c, t)
    ensures Fair(c, t.(pc := A.Advance(h, t, landed).1))
  {
    hide Shaped, CountsIndexFor;
  }

  lemma RecordVerdicts(s: State, w: nat, c: Config)
    requires Shaped(c) && Sound(s) && Verdicts(s, c) && Enabled(s, Record(w))
    ensures Verdicts(RecordStep(s, w), c)
  {
    hide Shaped, A.Advance, A.LogAfter, Fair, HistsOf;
    var p := s.writers[w];
    assert Valid(s.hists[p.h]) && s.hists[p.h].cfg == c && Fair(c, p.call);
    hide Sound;
    AdvanceFair(c, s.hists[p.h], p.call, |s.logs[p.h]|);
  }

  lemma WriterVerdicts(s: State, a: Action, c: Config)
    requires Shaped(c) && Sound(s) && Verdicts(s, c) && Enabled(s, a) && ByWriter(a)
    ensures Verdicts(ApplyWriter(s, a), c)
  {
    if a.Record? {
      hide Shaped, Sound, RecordStep, Verdicts;
      RecordVerdicts(s, a.w, c);
    } else {
      hide Shaped, Sound, RecordStep, P.Apply, P.Enabled, Accepts;
    }
  }

  lemma ReaderVerdicts(s: State, a: Action, c: Config)
    requires Shaped(c) && Sound(s) && Verdicts(s, c) && Enabled(s, a) && !ByWriter(a)
    ensures Verdicts(ApplyReader(s, a), c)
  {
    ReaderFrame(s, a);
    hide Shaped, Sound, FairCalls, P.Apply, P.Enabled, P.CaughtUp;
  }

  lemma StepKeepsVerdicts(s: State, a: Action, c: Config)
    requires Shaped(c) && Sound(s) && Verdicts(s, c) && Enabled(s, a)
    ensures Verdicts(Apply(s, a), c)
  {
    hide Shaped, Sound, Verdicts, Enabled, ApplyWriter, ApplyReader;
    if ByWriter(a) { WriterVerdicts(s, a, c); } else { ReaderVerdicts(s, a, c); }
  }

  // ----- a step moves a record from what is promised to what is completed -----

  /** Occurrences of a record among the completed ones and those writer w has still
      to make. */
  function Made(s: State, w: nat, c: Config, r: Rec): int
    requires Shaped(c) && w in s.writers
  {
    s.completed[r] + multiset(Promised(c, s.writers[w]))[r]
  }

  lemma OtherWriterKeeps(s: State, a: Action, w: nat, c: Config, r: Rec)
    requires Shaped(c) && Sound(s) && WritersInv(s) && Enabled(s, a) && ByWriter(a) && a.w != w
    requires w in s.writers && r.caller == w
    ensures w in ApplyWriter(s, a).writers && Made(ApplyWriter(s, a), w, c, r) == Made(s, w, c, r)
  {
    hide Shaped, Sound, MayWrite, Promised, RecordStep, P.Apply, P.Enabled;
    var s' := ApplyWriter(s, a);
    if a.Record? {
      RecordKeepsOthers(s, a.w);
    } else if a.Next? {
      assert JobOf(s.writers[a.w])[0] == s.writers[a.w].call.rec;
    }
    assert w in s'.writers && s'.writers[w] == s.writers[w];
  }

  lemma RecordKeepsOthers(s: State, w: nat)
    requires Sound(s) && Enabled(s, Record(w))
    ensures var s' := RecordStep(s, w);
            s'.completed == s.completed && s'.writers == s.writers[w := s'.writers[w]]
  {
    hide Sound, A.Advance, A.LogAfter;
  }

  lemma OwnStepKeeps(s: State, a: Action, c: Config, r: Rec)
    requires Shaped(c) && Sound(s) && Verdicts(s, c) && Enabled(s, a) && ByWriter(a) && !a.Enter? && !a.Leave?
    ensures a.w in s.writers && a.w in ApplyWriter(s, a).writers
    ensures Made(ApplyWriter(s, a), a.w, c, r) == Made(s, a.w, c, r)
  {
    hide Shaped, Sound, A.Advance, A.LogAfter, Accepts, Promised, Begin, AcceptedPrefix;
    var p, s' := s.writers[a.w], ApplyWriter(s, a);
    if a.LoadActive? {
      BegunPromise(c, s.active, p.job);
      EnteredPromise(c, p.job);
    } else if a.Record? {
      SamePromise(c, p, s'.writers[a.w].call);
    } else {
      assert Fair(c, p.call);
      NextPromise(c, p);
      BegunPromise(c, p.h, p.rest);
      NothingPromised(c);
    }
  }

  lemma NothingPromised(c: Config)
    requires Shaped(c)
    ensures Promised(c, Updated) == []
  {
  }

  lemma EnteredPromise(c: Config, job: seq<Rec>)
    requires Shaped(c)
    ensures Promised(c, Entered(job)) == job[..AcceptedPrefix(c, job)]
  {
  }

  lemma BegunPromise(c: Config, h: nat, job: seq<Rec>)
    requires Shaped(c)
    ensures Promised(c, Begin(h, job)) == job[..AcceptedPrefix(c, job)]
  {
    assert JobOf(Begin(h, job)) == job;
  }

  lemma SamePromise(c: Config, p: WriterPc, call: A.Thread)
    requires Shaped(c) && p.Recording? && call.rec == p.call.rec
    ensures Promised(c, p.(call := call)) == Promised(c, p)
  {
  }

  /** A returned call: its record was the first promised, or nothing was. */
  lemma NextPromise(c: Config, p: WriterPc)
    requires Shaped(c) && p.Recording? && p.call.pc.Done? && Fair(c, p.call)
    ensures !p.call.pc.ok ==> Promised(c, p) == []
    ensures p.call.pc.ok ==>
              multiset(Promised(c, p)) == multiset{p.call.rec} + multiset(p.rest[..AcceptedPrefix(c, p.rest)])
  {
    hide Shaped, Accepts;
    var job, k := JobOf(p), AcceptedPrefix(c, p.rest);
    assert job[0] == p.call.rec && job[1..] == p.rest;
    if p.call.pc.ok {
      assert AcceptedPrefix(c, job) == 1 + k;
      assert job[..1 + k] == [p.call.rec] + p.rest[..k];
    }
  }

  /** Between a writer's enter and its leave no step changes what it will have made. */
  lemma StepKeepsMade(s: State, a: Action, w: nat, c: Config, r: Rec)
    requires Shaped(c) && Sound(s) && WritersInv(s) && Verdicts(s, c) && Enabled(s, a)
    requires w in s.writers && r.caller == w && a != Leave(w)
    ensures w in Apply(s, a).writers && Made(Apply(s, a), w, c, r) == Made(s, w, c, r)
  {
    hide P.Enabled;
    if !ByWriter(a) {
      hide Shaped, Sound, Promised, ApplyReader, Enabled, Verdicts, WritersInv;
      ReaderFrame(s, a);
    } else if a.w == w {
      assert !a.Enter?;
      hide Shaped, Sound, Promised, ApplyWriter, Enabled, Verdicts;
      OwnStepKeeps(s, a, c, r);
    } else {
      hide Shaped, Sound, Promised, ApplyWriter, Enabled, Verdicts, WritersInv;
      OtherWriterKeeps(s, a, w, c, r);
    }
  }

  lemma {:induction false} RunKeepsMade(s: State, run: seq<Action>, w: nat, c: Config, r: Rec)
    requires Shaped(c) && Sound(s) && Inv(s) && Verdicts(s, c) && Legal(s, run) && Bounded(s, run)
    requires w in s.writers && r.caller == w && Leave(w) !in run
    ensures w in Run(s, run).writers && Made(Run(s, run), w, c, r) == Made(s, w, c, r)
    decreases |run|
  {
    hide Inv, Sound, Enabled, Apply, Verdicts, Shaped, Made;
    if run != [] {
      ApplySound(s, run[0]);
      InvWriters(s);
      StepKeepsMade(s, run[0], w, c, r);
      StepKeepsVerdicts(s, run[0], c);
      StepKeepsInv(s, run[0]);
      RunKeepsMade(Apply(s, run[0]), run[1..], w, c, r);
    }
  }

  lemma InvWriters(s: State)
    requires Inv(s)
    ensures WritersInv(s)
  {
    hide Sound, P.Inv, RolesInv, LockInv, HistsInv, SamplesInv, KeptInv, WritersInv;
  }

  /** The update of a writer makes its whole job: from its enter to the point where it
      can leave, whatever the other threads do, the completed records of the writer
      grow by exactly the job up to its first refused record. */
  lemma UpdateMakesItsJob(s: State, w: nat, job: seq<Rec>, run: seq<Action>, c: Config, r: Rec)
    requires Shaped(c) && Sound(s) && Inv(s) && Verdicts(s, c) && Enabled(s, Enter(w, job)) && r.caller == w
    requires Sound(Apply(s, Enter(w, job))) && Legal(Apply(s, Enter(w, job)), run)
    requires Bounded(Apply(s, Enter(w, job)), run) && Leave(w) !in run
    requires Enabled(Run(Apply(s, Enter(w, job)), run), Leave(w))
    ensures Run(Apply(s, Enter(w, job)), run).completed[r]
            == s.completed[r] + multiset(job[..AcceptedPrefix(c, job)])[r]
  {
    hide Inv, Sound, Verdicts, Shaped, Legal, Bounded, Run, AcceptedPrefix;
    var s1 := Apply(s, Enter(w, job));
    EnterMakes(s, w, job, c, r);
    FirstEntries(s1, run);
    StepKeepsInv(s, Enter(w, job));
    StepKeepsVerdicts(s, Enter(w, job), c);
    hide Apply;
    RunKeepsMade(s1, run, w, c, r);
    NothingPromised(c);
  }

  lemma EnterMakes(s: State, w: nat, job: seq<Rec>, c: Config, r: Rec)
    requires Shaped(c) && Sound(s) && Enabled(s, Enter(w, job))
    ensures var s1 := Apply(s, Enter(w, job));
            && w in s1.writers && s1.completed == s.completed
            && Made(s1, w, c, r) == s.completed[r] + multiset(job[..AcceptedPrefix(c, job)])[r]
  {
    hide Shaped, Sound, AcceptedPrefix, Promised, P.Apply, P.Enabled;
    EnteredPromise(c, job);
  }

  lemma FirstEntries(s: State, run: seq<Action>)
    requires Sound(s) && Legal(s, run) && Bounded(s, run)
    ensures s.ph.entries <= INT64_MAX
  {
  }

  // ----- whole runs of a recorder -----

  lemma {:induction false} RunKeepsVerdicts(s: State, run: seq<Action>, c: Config)
    requires Shaped(c) && Sound(s) && Verdicts(s, c) && Legal(s, run)
    ensures Verdicts(Run(s, run), c)
    decreases |run|
  {
    hide Sound, Enabled, Apply, Verdicts, Shaped;
    if run != [] {
      ApplySound(s, run[0]);
      StepKeepsVerdicts(s, run[0], c);
      RunKeepsVerdicts(Apply(s, run[0]), run[1..], c);
    }
  }

  /** Every histogram a recorder ever makes has the configuration it was set up with,
      and every call that has returned says whether its value was accepted. */
  lemma OneConfiguration(c: Config, run: seq<Action>)
    requires Shaped(c) && Sound(Initial(c)) && Legal(Initial(c), run)
    ensures Verdicts(Run(Initial(c), run), c)
  {
    assert Verdicts(Initial(c), c);
    hide Sound, Legal, Run, Initial, Verdicts, Shaped;
    RunKeepsVerdicts(Initial(c), run, c);
  }

  /** The job of a corrected record is made as a whole or not at all. */
  lemma CorrectedJobIsWhole(c: Config, value: nat, count: int, e: int, job: seq<Rec>)
    requires Shaped(c) && |job| == |Merging.Corrected(value, count, e)|
    requires forall k :: 0 <= k < |job| ==> job[k].value == Merging.Corrected(value, count, e)[k].value
    ensures AcceptedPrefix(c, job) == if Accepts(c, value) then |job| else 0
  {
    assert Merging.Corrected(value, count, e)[0].value == value;
    if Accepts(c, value) && e > 0 && value > e { Merging.CorrectedAccepted(c, value, count, e); }
    hide Shaped, Accepts;
  }
}
