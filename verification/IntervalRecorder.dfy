/** hdr_interval_recorder.c on top of the phaser and of lock-free recording: any
    number of writers record into the active histogram while any number of
    readers swap it out with sample_and_recycle. Every atomic operation is one
    step; a run is any interleaving. */
module IntervalRecorder {
  import opened Bits
  import opened Buckets
  import opened HistogramModel
  import P = Phaser
  import A = AtomicRecording

  /** A writer inside hdr_interval_recorder_update. Its update action is a list
      of hdr_record_values_atomic calls that stops at the first refusal: one
      call for record_values_atomic, several for record_corrected_values_atomic. */
  datatype WriterPc =
    | Entered(job: seq<Rec>)
    | Recording(h: nat, rest: seq<Rec>, call: A.Thread)
    | Updated

  /** A reader inside hdr_interval_recorder_sample_and_recycle. */
  datatype ReaderPc =
    | Prepared(h: nat)
    | Locked(h: nat)
    | Read(h: nat, prev: nat)
    | Swapped(prev: nat)
    | Flipped(prev: nat)

  /** Who may use a histogram. */
  datatype Role = Active | Ready(reader: nat) | Draining | Returned(reader: nat)

  /** A histogram as sample_and_recycle returned it, with its landed records. */
  datatype Sample = Sample(h: nat, hist: Hist, log: seq<Rec>)

  /** `logs`, `roles`, `samples` and `completed` are history; the program reads
      none of them. */
  datatype State = State(
    ph: P.State,
    active: nat,
    hists: map<nat, Hist>,
    writers: map<nat, WriterPc>,
    readers: map<nat, ReaderPc>,
    logs: map<nat, seq<Rec>>,
    roles: map<nat, Role>,
    samples: seq<Sample>,
    completed: multiset<Rec>)

  datatype Action =
    | Enter(w: nat, job: seq<Rec>)
    | LoadActive(w: nat)
    | Record(w: nat)
    | Next(w: nat)
    | Leave(w: nat)
    | Recycle(r: nat, h: nat)
    | Create(r: nat, h: nat)
    | Lock(r: nat)
    | ReadActive(r: nat)
    | StoreActive(r: nat)
    | FlipLoad(r: nat)
    | FlipClear(r: nat)
    | FlipExchange(r: nat)
    | FlipSpin(r: nat)
    | Unlock(r: nat)

  function Initial(c: Config): State {
    State(P.Initial(), 0, map[0 := Empty(c)], map[], map[], map[0 := []], map[0 := Active], [], multiset{})
  }

  /** Histogram references in the state are to existing, well-formed histograms. */
  predicate Sound(s: State) {
    && s.active in s.hists
    && s.logs.Keys == s.roles.Keys == s.hists.Keys
    && (forall h :: h in s.hists ==> Valid(s.hists[h]))
    && (forall w :: w in s.writers && s.writers[w].Recording? ==> s.writers[w].h in s.hists)
    && (forall r :: r in s.readers ==> HistsOf(s.readers[r]) <= s.hists.Keys)
  }

  function HistsOf(p: ReaderPc): set<nat> {
    match p
    case Prepared(h) => {h}
    case Locked(h) => {h}
    case Read(h, prev) => {h, prev}
    case Swapped(prev) => {prev}
    case Flipped(prev) => {prev}
  }

  predicate Enabled(s: State, a: Action) {
    match a
    case Enter(w, job) =>
      && w !in s.writers && P.Enabled(s.ph, P.Enter(w))
      && forall k :: 0 <= k < |job| ==> job[k].caller == w
    case LoadActive(w) => w in s.writers && s.writers[w].Entered?
    case Record(w) => w in s.writers && s.writers[w].Recording? && !s.writers[w].call.pc.Done?
    case Next(w) => w in s.writers && s.writers[w].Recording? && s.writers[w].call.pc.Done?
    case Leave(w) => w in s.writers && s.writers[w].Updated? && P.Enabled(s.ph, P.Exit(w))
    case Recycle(r, h) => r !in s.readers && h in s.roles && s.roles[h] == Returned(r)
    case Create(r, h) => r !in s.readers && h !in s.hists
    case Lock(r) => r in s.readers && s.readers[r].Prepared? && P.Enabled(s.ph, P.Acquire(r))
    case ReadActive(r) => r in s.readers && s.readers[r].Locked?
    case StoreActive(r) => r in s.readers && s.readers[r].Read?
    case FlipLoad(r) => r in s.readers && s.readers[r].Swapped? && P.Enabled(s.ph, P.Load(r))
    case FlipClear(r) => r in s.readers && s.readers[r].Swapped? && P.Enabled(s.ph, P.Clear(r))
    case FlipExchange(r) => r in s.readers && s.readers[r].Swapped? && P.Enabled(s.ph, P.Exchange(r))
    case FlipSpin(r) => r in s.readers && s.readers[r].Swapped? && P.Enabled(s.ph, P.Spin(r))
    case Unlock(r) => r in s.readers && s.readers[r].Flipped? && P.Enabled(s.ph, P.Release(r))
  }

  /** The writer's place when it takes up the first call of a job on histogram h. */
  function Begin(h: nat, job: seq<Rec>): WriterPc {
    if job == [] then Updated else Recording(h, job[1..], A.Thread(job[0], A.Start))
  }

  predicate ByWriter(a: Action) {
    a.Enter? || a.LoadActive? || a.Record? || a.Next? || a.Leave?
  }

  function Apply(s: State, a: Action): State
    requires Sound(s) && Enabled(s, a)
  {
    if ByWriter(a) then ApplyWriter(s, a) else ApplyReader(s, a)
  }

  /** One atomic step of the call writer w is in. */
  function RecordStep(s: State, w: nat): State
    requires Sound(s) && Enabled(s, Record(w))
  {
    var p := s.writers[w];
    var (h', pc') := A.Advance(s.hists[p.h], p.call, |s.logs[p.h]|);
    s.(hists := s.hists[p.h := h'],
       logs := s.logs[p.h := A.LogAfter(s.hists[p.h], p.call, s.logs[p.h])],
       writers := s.writers[w := p.(call := p.call.(pc := pc'))])
  }

  /** Writer w's call has returned; it goes on with its job unless refused. */
  function NextCall(s: State, w: nat): State
    requires Enabled(s, Next(w))
  {
    var p := s.writers[w];
    s.(writers := s.writers[w := if p.call.pc.ok then Begin(p.h, p.rest) else Updated],
       completed := s.completed + if p.call.pc.ok then multiset{p.call.rec} else multiset{})
  }

  function ApplyWriter(s: State, a: Action): State
    requires Sound(s) && Enabled(s, a) && ByWriter(a)
  {
    match a
    case Enter(w, job) =>
      s.(ph := P.Apply(s.ph, P.Enter(w)), writers := s.writers[w := Entered(job)])
    case LoadActive(w) =>
      s.(writers := s.writers[w := Begin(s.active, s.writers[w].job)])
    case Record(w) => RecordStep(s, w)
    case Next(w) => NextCall(s, w)
    case Leave(w) =>
      s.(ph := P.Apply(s.ph, P.Exit(w)), writers := s.writers - {w})
  }

  /** hdr_reset of a histogram the reader holds, or hdr_init of a new one. */
  function TakeUp(s: State, r: nat, h: nat, c: Config): State {
    s.(hists := s.hists[h := Empty(c)], logs := s.logs[h := []],
       roles := s.roles[h := Ready(r)], readers := s.readers[r := Prepared(h)])
  }

  /** The store to r->active. */
  function Swap(s: State, r: nat): State
    requires Enabled(s, StoreActive(r))
  {
    var p := s.readers[r];
    s.(active := p.h, readers := s.readers[r := Swapped(p.prev)],
       roles := s.roles[p.prev := Draining][p.h := Active])
  }

  /** hdr_phaser_reader_unlock and the return of the swapped-out histogram. */
  function HandBack(s: State, r: nat): State
    requires Sound(s) && Enabled(s, Unlock(r))
  {
    var h := s.readers[r].prev;
    s.(ph := P.Apply(s.ph, P.Release(r)), readers := s.readers - {r},
       roles := s.roles[h := Returned(r)],
       samples := s.samples + [Sample(h, s.hists[h], s.logs[h])])
  }

  predicate InsideFlip(a: Action) {
    a.Lock? || a.ReadActive? || a.FlipLoad? || a.FlipClear? || a.FlipExchange? || a.FlipSpin?
  }

  /** The steps that only move the phaser and the reader's own place. */
  function FlipStep(s: State, a: Action): State
    requires Enabled(s, a) && InsideFlip(a)
  {
    match a
    case Lock(r) =>
      s.(ph := P.Apply(s.ph, P.Acquire(r)), readers := s.readers[r := Locked(s.readers[r].h)])
    case ReadActive(r) => s.(readers := s.readers[r := Read(s.readers[r].h, s.active)])
    case FlipLoad(r) => s.(ph := P.Apply(s.ph, P.Load(r)))
    case FlipClear(r) => s.(ph := P.Apply(s.ph, P.Clear(r)))
    case FlipExchange(r) => s.(ph := P.Apply(s.ph, P.Exchange(r)))
    case FlipSpin(r) =>
      s.(ph := P.Apply(s.ph, P.Spin(r)),
         readers := if P.CaughtUp(s.ph) then s.readers[r := Flipped(s.readers[r].prev)] else s.readers)
  }

  function ApplyReader(s: State, a: Action): State
    requires Sound(s) && Enabled(s, a) && !ByWriter(a)
  {
    if a.Recycle? then TakeUp(s, a.r, a.h, s.hists[a.h].cfg)
    else if a.Create? then TakeUp(s, a.r, a.h, s.hists[s.active].cfg)
    else if a.StoreActive? then Swap(s, a.r)
    else if a.Unlock? then HandBack(s, a.r)
    else FlipStep(s, a)
  }

  lemma ApplySound(s: State, a: Action)
    requires Sound(s) && Enabled(s, a)
    ensures Sound(Apply(s, a))
  {
    if ByWriter(a) { WriterSound(s, a); } else { ReaderSound(s, a); }
  }

  lemma WriterSound(s: State, a: Action)
    requires Sound(s) && Enabled(s, a) && ByWriter(a)
    ensures Sound(ApplyWriter(s, a))
  {
    if a.Record? {
      hide Valid, A.Advance, A.LogAfter, HistsOf;
    } else {
      hide Valid, RecordStep, HistsOf, P.Apply, P.Enabled;
    }
  }

  lemma ReaderSound(s: State, a: Action)
    requires Sound(s) && Enabled(s, a) && !ByWriter(a)
    ensures Sound(ApplyReader(s, a))
  {
    hide Valid, Empty, TakeUp, Swap, HandBack, FlipStep;
    if a.Recycle? {
      TakeUpSound(s, a.r, a.h, a.h);
    } else if a.Create? {
      TakeUpSound(s, a.r, a.h, s.active);
    } else if a.StoreActive? {
      SwapSound(s, a.r);
    } else if a.Unlock? {
      HandBackSound(s, a.r);
    } else {
      FlipSound(s, a);
    }
  }

  lemma TakeUpSound(s: State, r: nat, h: nat, like: nat)
    requires Sound(s) && like in s.hists
    ensures Sound(TakeUp(s, r, h, s.hists[like].cfg))
  {
    assert HistsOf(Prepared(h)) == {h};
    hide Valid, Empty, HistsOf;
    EmptyValid(s.hists[like]);
  }

  lemma EmptyValid(h: Hist)
    requires Valid(h)
    ensures Valid(Empty(h.cfg))
  {
    hide Shaped;
  }

  lemma SwapSound(s: State, r: nat)
    requires Sound(s) && Enabled(s, StoreActive(r))
    ensures Sound(Swap(s, r))
  {
    hide Valid;
    assert HistsOf(s.readers[r]) <= s.hists.Keys;
  }

  lemma HandBackSound(s: State, r: nat)
    requires Sound(s) && Enabled(s, Unlock(r))
    ensures Sound(HandBack(s, r))
  {
    hide Valid, P.Apply, P.Enabled;
    assert HistsOf(s.readers[r]) <= s.hists.Keys;
  }

  lemma FlipSound(s: State, a: Action)
    requires Sound(s) && Enabled(s, a) && InsideFlip(a)
    ensures Sound(FlipStep(s, a))
  {
    hide Valid, P.Apply, P.Enabled, P.CaughtUp;
    assert HistsOf(s.readers[a.r]) <= s.hists.Keys;
  }

  predicate Legal(s: State, run: seq<Action>)
    requires Sound(s)
    decreases |run|
  {
    run == [] || (Enabled(s, run[0]) && (ApplySound(s, run[0]); Legal(Apply(s, run[0]), run[1..])))
  }

  function Run(s: State, run: seq<Action>): (s': State)
    requires Sound(s) && Legal(s, run)
    ensures Sound(s')
    decreases |run|
  {
    if run == [] then s
    else
      ApplySound(s, run[0]);
      Run(Apply(s, run[0]), run[1..])
  }

  /** No phase takes more than 2^63 - 1 entries during the run. */
  predicate Bounded(s: State, run: seq<Action>)
    requires Sound(s) && Legal(s, run)
    decreases |run|
  {
    && s.ph.entries <= INT64_MAX
    && (run == [] || (ApplySound(s, run[0]); Bounded(Apply(s, run[0]), run[1..])))
  }

  // ----- the invariant -----

  /** The calls in progress on histogram h. */
  function On(ws: map<nat, WriterPc>, h: nat): map<nat, A.Thread> {
    map w | w in ws && ws[w].Recording? && ws[w].h == h :: ws[w].call
  }

  /** What a reader's place says about the histograms it has to do with. */
  predicate HasRoles(r: nat, p: ReaderPc, active: nat, roles: map<nat, Role>) {
    match p
    case Prepared(h) => h in roles && roles[h] == Ready(r)
    case Locked(h) => h in roles && roles[h] == Ready(r)
    case Read(h, prev) => h in roles && roles[h] == Ready(r) && prev == active
    case Swapped(prev) => prev in roles && roles[prev] == Draining
    case Flipped(prev) => prev in roles && roles[prev] == Draining
  }

  /** Exactly the active histogram has that role. */
  predicate ActiveRole(active: nat, roles: map<nat, Role>) {
    active in roles && forall h :: h in roles ==> (roles[h] == Active <==> h == active)
  }

  predicate ReadersRoles(active: nat, roles: map<nat, Role>, readers: map<nat, ReaderPc>) {
    forall r :: r in readers ==> HasRoles(r, readers[r], active, roles)
  }

  /** A histogram made ready is empty. */
  predicate ReadyEmpty(roles: map<nat, Role>, logs: map<nat, seq<Rec>>, hists: map<nat, Hist>) {
    forall h :: h in roles && roles[h].Ready? ==>
      h in logs && h in hists && logs[h] == [] && hists[h] == Empty(hists[h].cfg)
  }

  /** Each histogram has one role; a reader's own histograms have its roles. */
  predicate RolesInv(s: State) {
    && ActiveRole(s.active, s.roles)
    && ReadersRoles(s.active, s.roles, s.readers)
    && ReadyEmpty(s.roles, s.logs, s.hists)
  }

  /** Exactly the reader between lock and unlock holds the mutex. */
  predicate LockInv(s: State) {
    && (forall r :: r in s.readers && !s.readers[r].Prepared? ==> s.ph.lock.Held? && s.ph.lock.reader == r)
    && (s.ph.lock.Held? ==> s.ph.lock.reader in s.readers && !s.readers[s.ph.lock.reader].Prepared?)
    && (s.ph.lock.Held? && !s.readers[s.ph.lock.reader].Swapped? ==> s.ph.lock.pc.Holding?)
  }

  /** A writer may still be writing h: h is active, or it is being drained and
      the writer is one the flip waits for. */
  predicate MayWrite(s: State, w: nat, h: nat) {
    || h == s.active
    || (&& s.ph.lock.Held? && s.ph.lock.reader in s.readers && s.readers[s.ph.lock.reader] == Swapped(h)
        && w in s.ph.inside
        && (s.ph.lock.pc.Spinning? ==> P.PhaseOf(s.ph.inside[w]) == P.Other(s.ph.lock.pc.next)))
  }

  function JobOf(p: WriterPc): seq<Rec> {
    match p
    case Entered(job) => job
    case Recording(_, rest, call) => [call.rec] + rest
    case Updated => []
  }

  predicate WritersInv(s: State) {
    && s.writers.Keys == s.ph.inside.Keys
    && (forall w :: w in s.writers && s.writers[w].Recording? ==> MayWrite(s, w, s.writers[w].h))
    && OwnJobs(s.writers)
  }

  /** Every histogram satisfies the invariant of lock-free recording. */
  ghost predicate HistsInv(hists: map<nat, Hist>, logs: map<nat, seq<Rec>>, ws: map<nat, WriterPc>) {
    forall h :: h in hists && h in logs ==> A.Inv(hists[h], logs[h], On(ws, h))
  }

  /** Every sample is the histogram its records build, and a histogram a reader
      holds is still as it was returned. */
  predicate SamplesInv(s: State)
    requires Sound(s)
  {
    && (forall i :: 0 <= i < |s.samples| ==> SampleConsistent(s.samples[i]))
    && (forall h :: h in s.roles && s.roles[h].Returned? ==> Sample(h, s.hists[h], s.logs[h]) in s.samples)
  }

  predicate SampleConsistent(sm: Sample) {
    Shaped(sm.hist.cfg) && sm.hist == Replay(sm.hist.cfg, sm.log)
  }

  /** All records of all returned samples. */
  function SampleRecords(samples: seq<Sample>): multiset<Rec> {
    if samples == [] then multiset{}
    else SampleRecords(samples[..|samples| - 1]) + multiset(samples[|samples| - 1].log)
  }

  function LogOf(logs: map<nat, seq<Rec>>, h: nat): seq<Rec> {
    if h in logs then logs[h] else []
  }

  /** The histogram the mutex holder has swapped out and not yet returned, if any. */
  function SwappedOut(lock: P.Lock, readers: map<nat, ReaderPc>): seq<nat> {
    if lock.Held? && lock.reader in readers && (readers[lock.reader].Swapped? || readers[lock.reader].Flipped?)
    then [readers[lock.reader].prev] else []
  }

  function LogsOf(logs: map<nat, seq<Rec>>, hs: seq<nat>): multiset<Rec> {
    if hs == [] then multiset{} else multiset(LogOf(logs, hs[0]))
  }

  /** Everything that has landed: returned samples, the histogram being swapped
      out, the active histogram. */
  function Kept(s: State): multiset<Rec> {
    SampleRecords(s.samples) + LogsOf(s.logs, SwappedOut(s.ph.lock, s.readers)) + multiset(LogOf(s.logs, s.active))
  }

  function OwnRecord(p: WriterPc): set<Rec> {
    if p.Recording? then A.Own(p.call) else {}
  }

  /** Records that have landed and whose calls have not completed. */
  ghost function Unfinished(writers: map<nat, WriterPc>): set<Rec> {
    set w, r | w in writers && r in OwnRecord(writers[w]) :: r
  }

  ghost predicate KeptInv(s: State) {
    Kept(s) == s.completed + multiset(Unfinished(s.writers))
  }

  ghost predicate Inv(s: State) {
    && Sound(s)
    && P.Inv(s.ph)
    && RolesInv(s)
    && LockInv(s)
    && WritersInv(s)
    && HistsInv(s.hists, s.logs, s.writers)
    && SamplesInv(s)
    && KeptInv(s)
  }

  lemma InitialInv(c: Config)
    requires Shaped(c)
    ensures Inv(Initial(c))
  {
    hide CountsIndexFor, Shaped, P.Inv, A.Inv;
    P.InitialInv();
    A.InitialInv(c);
    assert On(map[], 0) == map[];
    assert Unfinished(map[]) == {};
  }

  // ----- the phaser inside the recorder -----

  /** The phaser step inside a recorder step. */
  function PhaserPart(a: Action): seq<P.Action> {
    match a
    case Enter(w, _) => [P.Enter(w)]
    case Leave(w) => [P.Exit(w)]
    case Lock(r) => [P.Acquire(r)]
    case FlipLoad(r) => [P.Load(r)]
    case FlipClear(r) => [P.Clear(r)]
    case FlipExchange(r) => [P.Exchange(r)]
    case FlipSpin(r) => [P.Spin(r)]
    case Unlock(r) => [P.Release(r)]
    case _ => []
  }

  lemma PhaserStep(s: State, a: Action)
    requires Sound(s) && Enabled(s, a)
    ensures PhaserPart(a) == [] ==> Apply(s, a).ph == s.ph
    ensures PhaserPart(a) != [] ==>
              P.Enabled(s.ph, PhaserPart(a)[0]) && Apply(s, a).ph == P.Apply(s.ph, PhaserPart(a)[0])
  {
    hide Sound, A.Advance, A.LogAfter, P.Apply, P.CaughtUp, Empty;
  }

  lemma StepPhaserInv(s: State, a: Action)
    requires Sound(s) && Enabled(s, a) && P.Inv(s.ph) && Apply(s, a).ph.entries <= INT64_MAX
    ensures P.Inv(Apply(s, a).ph)
  {
    PhaserStep(s, a);
    hide Sound, Enabled, Apply, P.Apply, P.Inv, P.Enabled;
    if PhaserPart(a) != [] { P.StepKeepsInv(s.ph, PhaserPart(a)[0]); }
  }

  // ----- writers' steps -----

  /** A histogram being written is active or being drained. */
  lemma WrittenRole(s: State, w: nat)
    requires Sound(s) && RolesInv(s) && WritersInv(s)
    requires w in s.writers && s.writers[w].Recording?
    ensures s.roles[s.writers[w].h] == Active || s.roles[s.writers[w].h] == Draining
  {
    hide P.Inv, Empty;
    assert MayWrite(s, w, s.writers[w].h);
  }

  /** What a writer's step leaves alone: who holds which histogram, and every
      histogram that is neither active nor being drained. */
  predicate OthersUntouched(s: State, s': State)
    requires Sound(s) && Sound(s')
  {
    && s'.active == s.active && s'.roles == s.roles && s'.readers == s.readers && s'.samples == s.samples
    && s'.hists.Keys == s.hists.Keys
    && (forall h :: h in s.hists && s.roles[h] != Active && s.roles[h] != Draining
                    ==> s'.hists[h] == s.hists[h] && s'.logs[h] == s.logs[h])
  }

  lemma WriterFrame(s: State, a: Action)
    requires Sound(s) && RolesInv(s) && WritersInv(s) && Enabled(s, a) && ByWriter(a)
    ensures Sound(ApplyWriter(s, a)) && OthersUntouched(s, ApplyWriter(s, a))
  {
    WriterSound(s, a);
    var s' := ApplyWriter(s, a);
    if a.Record? {
      WriterCases(s, a);
      WrittenRole(s, a.w);
      hide RolesInv, WritersInv, Sound, ApplyWriter;
      RecordFrame(s, a.w);
    } else {
      hide RolesInv, WritersInv, Sound, ApplyWriter, Enabled, OthersUntouched;
      WriterFields(s, a);
      SameFrame(s, s');
    }
  }

  lemma RecordFrame(s: State, w: nat)
    requires Sound(s) && Enabled(s, Record(w)) && Sound(RecordStep(s, w))
    requires s.roles[s.writers[w].h] == Active || s.roles[s.writers[w].h] == Draining
    ensures OthersUntouched(s, RecordStep(s, w))
  {
    hide A.Advance, A.LogAfter, Valid, HistsOf;
  }

  /** Only a record step touches a histogram. */
  lemma WriterFields(s: State, a: Action)
    requires Sound(s) && Enabled(s, a) && ByWriter(a) && !a.Record?
    ensures var s' := ApplyWriter(s, a);
            && s'.active == s.active && s'.roles == s.roles && s'.readers == s.readers && s'.samples == s.samples
            && s'.hists == s.hists && s'.logs == s.logs && s'.ph.lock == s.ph.lock
  {
    hide Sound, RecordStep, Begin, P.Apply, P.Enabled;
    if a.Enter? {
      WriterKeepsLock(s.ph, P.Enter(a.w));
    } else if a.Leave? {
      WriterKeepsLock(s.ph, P.Exit(a.w));
    }
  }

  lemma WriterKeepsLock(ph: P.State, a: P.Action)
    requires P.Enabled(ph, a) && (a.Enter? || a.Exit?)
    ensures P.Apply(ph, a).lock == ph.lock
  {
    hide Wrap64, P.SetEnd;
  }

  lemma SameFrame(s: State, s': State)
    requires Sound(s) && Sound(s')
    requires s'.active == s.active && s'.roles == s.roles && s'.readers == s.readers && s'.samples == s.samples
    requires s'.hists == s.hists && s'.logs == s.logs
    ensures OthersUntouched(s, s')
  {
    hide Valid, HistsOf;
  }

  lemma RolesFrame(s: State, s': State)
    requires Sound(s) && RolesInv(s) && SamplesInv(s) && Sound(s') && OthersUntouched(s, s')
    ensures RolesInv(s') && SamplesInv(s')
  {
    hide SampleConsistent, Empty, Valid, HistsOf;
  }

  lemma EnterWriters(s: State, w: nat, job: seq<Rec>)
    requires Sound(s) && WritersInv(s) && Enabled(s, Enter(w, job))
    ensures WritersInv(ApplyWriter(s, Enter(w, job)))
  {
    hide Sound, Wrap64;
    var s' := ApplyWriter(s, Enter(w, job));
    forall x | x in s'.writers && s'.writers[x].Recording? ensures MayWrite(s', x, s'.writers[x].h) {
      assert MayWrite(s, x, s.writers[x].h);
    }
  }

  lemma LeaveWriters(s: State, w: nat)
    requires Sound(s) && WritersInv(s) && Enabled(s, Leave(w))
    ensures WritersInv(ApplyWriter(s, Leave(w)))
  {
    hide Sound, Wrap64;
    var s' := ApplyWriter(s, Leave(w));
    forall x | x in s'.writers && s'.writers[x].Recording? ensures MayWrite(s', x, s'.writers[x].h) {
      assert MayWrite(s, x, s.writers[x].h);
    }
  }

  /** Between enter and leave a writer works on one histogram, through its job. */
  lemma UpdateWriters(s: State, a: Action)
    requires Sound(s) && WritersInv(s) && Enabled(s, a) && (a.LoadActive? || a.Record? || a.Next?)
    ensures WritersInv(ApplyWriter(s, a))
  {
    hide ApplyWriter, Sound, MayWrite, JobOf, Enabled;
    UpdateMayWrite(s, a);
    UpdateJob(s, a);
    var s' := ApplyWriter(s, a);
    JobsOwn(s.writers, a.w, s'.writers[a.w]);
  }

  /** Every call of a writer's job is the writer's own. */
  predicate OwnJobs(ws: map<nat, WriterPc>) {
    forall w, k :: w in ws && 0 <= k < |JobOf(ws[w])| ==> JobOf(ws[w])[k].caller == w
  }

  predicate IsEnd(job': seq<Rec>, job: seq<Rec>) {
    |job'| <= |job| && job' == job[|job| - |job'|..]
  }

  lemma JobsOwn(ws: map<nat, WriterPc>, w: nat, p: WriterPc)
    requires OwnJobs(ws) && w in ws && IsEnd(JobOf(p), JobOf(ws[w]))
    ensures OwnJobs(ws[w := p])
  {
    hide JobOf;
    var job, job' := JobOf(ws[w]), JobOf(p);
    forall k | 0 <= k < |job'| ensures job'[k].caller == w {
      assert job'[k] == job[k + |job| - |job'|];
    }
  }

  /** The rest of a writer's job is an end of what it was. */
  lemma UpdateJob(s: State, a: Action)
    requires Sound(s) && Enabled(s, a) && (a.LoadActive? || a.Record? || a.Next?)
    ensures var s' := ApplyWriter(s, a);
            a.w in s.writers && a.w in s'.writers && s'.ph == s.ph && s'.writers == s.writers[a.w := s'.writers[a.w]]
    ensures IsEnd(JobOf(ApplyWriter(s, a).writers[a.w]), JobOf(s.writers[a.w]))
  {
    hide Sound, A.Advance, A.LogAfter, JobOf, Begin, IsEnd;
    var p, p' := s.writers[a.w], ApplyWriter(s, a).writers[a.w];
    if a.LoadActive? {
      BeginJob(s.active, p.job, p);
    } else if a.Record? {
      SameJob(p, p'.call);
    } else {
      BeginJob(p.h, p.rest, p);
      UpdatedJob(p);
    }
  }

  /** A writer that takes up a job, or the rest of its job, has that before it. */
  lemma BeginJob(h: nat, job: seq<Rec>, p: WriterPc)
    requires p == Entered(job) || (p.Recording? && p.rest == job)
    ensures IsEnd(JobOf(Begin(h, job)), JobOf(p))
  {
    assert JobOf(Begin(h, job)) == job;
  }

  lemma SameJob(p: WriterPc, call: A.Thread)
    requires p.Recording? && call.rec == p.call.rec
    ensures IsEnd(JobOf(p.(call := call)), JobOf(p))
  {
  }

  lemma UpdatedJob(p: WriterPc)
    ensures IsEnd(JobOf(Updated), JobOf(p))
  {
  }

  lemma UpdateMayWrite(s: State, a: Action)
    requires Sound(s) && WritersInv(s) && Enabled(s, a) && (a.LoadActive? || a.Record? || a.Next?)
    ensures var s' := ApplyWriter(s, a);
            forall x :: x in s'.writers && s'.writers[x].Recording? ==> MayWrite(s', x, s'.writers[x].h)
  {
    hide A.Advance, A.LogAfter, Sound, JobOf;
    var s' := ApplyWriter(s, a);
    forall x | x in s'.writers && s'.writers[x].Recording? ensures MayWrite(s', x, s'.writers[x].h) {
      if !a.LoadActive? || x != a.w { assert MayWrite(s, x, s.writers[x].h); }
    }
  }

  predicate Quiet(p: WriterPc) {
    p.Recording? ==> !A.Landed(p.call.pc)
  }

  /** A writer with no landed record outstanding may take any such place. */
  lemma QuietPut(hists: map<nat, Hist>, logs: map<nat, seq<Rec>>, ws: map<nat, WriterPc>, w: nat, p: WriterPc)
    requires HistsInv(hists, logs, ws)
    requires (w in ws ==> Quiet(ws[w])) && Quiet(p)
    ensures HistsInv(hists, logs, ws[w := p]) && HistsInv(hists, logs, ws - {w})
  {
    forall h | h in hists && h in logs
      ensures A.Inv(hists[h], logs[h], On(ws[w := p], h)) && A.Inv(hists[h], logs[h], On(ws - {w}, h))
    {
      QuietPutOne(hists[h], logs[h], ws, w, p, h);
    }
  }

  lemma QuietPutOne(hist: Hist, log: seq<Rec>, ws: map<nat, WriterPc>, w: nat, p: WriterPc, h: nat)
    requires A.Inv(hist, log, On(ws, h))
    requires (w in ws ==> Quiet(ws[w])) && Quiet(p)
    ensures A.Inv(hist, log, On(ws[w := p], h)) && A.Inv(hist, log, On(ws - {w}, h))
  {
    hide A.Inv;
    var t := if p.Recording? then p.call else A.Thread(Rec(0, 0, 0), A.Start);
    A.ThreadsChange(hist, log, On(ws, h), w, t);
    assert On(ws - {w}, h) == On(ws, h) - {w};
    if p.Recording? && p.h == h {
      assert On(ws[w := p], h) == On(ws, h)[w := t];
    } else {
      assert On(ws[w := p], h) == On(ws, h) - {w};
    }
  }

  lemma RecordHists(hists: map<nat, Hist>, logs: map<nat, seq<Rec>>, ws: map<nat, WriterPc>, w: nat)
    requires HistsInv(hists, logs, ws)
    requires w in ws && ws[w].Recording? && !ws[w].call.pc.Done? && ws[w].h in hists && ws[w].h in logs
    requires Valid(hists[ws[w].h])
    ensures var p := ws[w];
            var (h', pc') := A.Advance(hists[p.h], p.call, |logs[p.h]|);
            HistsInv(hists[p.h := h'], logs[p.h := A.LogAfter(hists[p.h], p.call, logs[p.h])],
                     ws[w := p.(call := p.call.(pc := pc'))])
  {
    hide A.Inv, A.Advance, A.LogAfter, Valid;
    var p := ws[w];
    var (h', pc') := A.Advance(hists[p.h], p.call, |logs[p.h]|);
    var ws' := ws[w := p.(call := p.call.(pc := pc'))];
    A.StepKeepsInv(hists[p.h], logs[p.h], On(ws, p.h), w);
    assert On(ws', p.h) == On(ws, p.h)[w := ws'[w].call];
    forall h | h in hists && h in logs && h != p.h ensures A.Inv(hists[h], logs[h], On(ws', h)) {
      assert On(ws', h) == On(ws, h);
    }
  }

  lemma WriterHists(s: State, a: Action)
    requires Sound(s) && HistsInv(s.hists, s.logs, s.writers) && Enabled(s, a) && ByWriter(a)
    requires s.writers.Keys == s.ph.inside.Keys
    ensures var s' := ApplyWriter(s, a); HistsInv(s'.hists, s'.logs, s'.writers)
  {
    hide HistsInv, P.Apply, HistsOf, A.Advance, A.LogAfter, Valid;
    match a {
      case Enter(w, job) => QuietPut(s.hists, s.logs, s.writers, w, Entered(job));
      case LoadActive(w) => QuietPut(s.hists, s.logs, s.writers, w, Begin(s.active, s.writers[w].job));
      case Record(w) => RecordHists(s.hists, s.logs, s.writers, w);
      case Next(w) => QuietPut(s.hists, s.logs, s.writers, w, ApplyWriter(s, a).writers[w]);
      case Leave(w) => QuietPut(s.hists, s.logs, s.writers, w, Updated);
    }
  }

  // ----- conservation over writers' steps -----

  lemma UnfinishedMove(ws: map<nat, WriterPc>, w: nat, p: WriterPc)
    requires forall x, r :: x in ws && r in OwnRecord(ws[x]) ==> r.caller == x
    requires forall r :: r in OwnRecord(p) ==> r.caller == w
    ensures multiset(Unfinished(ws[w := p])) == multiset(Unfinished(ws - {w})) + multiset(OwnRecord(p))
    ensures w in ws ==> multiset(Unfinished(ws)) == multiset(Unfinished(ws - {w})) + multiset(OwnRecord(ws[w]))
  {
    UnfinishedSplit(ws, w, p);
    if w in ws {
      UnfinishedSplit(ws, w, ws[w]);
      assert ws[w := ws[w]] == ws;
    }
    hide *;
    A.DisjointMultiset(Unfinished(ws - {w}), OwnRecord(p));
    if w in ws { A.DisjointMultiset(Unfinished(ws - {w}), OwnRecord(ws[w])); }
  }

  lemma UnfinishedSplit(ws: map<nat, WriterPc>, w: nat, p: WriterPc)
    requires forall x, r :: x in ws && r in OwnRecord(ws[x]) ==> r.caller == x
    requires forall r :: r in OwnRecord(p) ==> r.caller == w
    ensures Unfinished(ws[w := p]) == Unfinished(ws - {w}) + OwnRecord(p)
    ensures Unfinished(ws - {w}) !! OwnRecord(p)
  {
    hide OwnRecord;
    var rest, ws' := ws - {w}, ws[w := p];
    forall r | r in Unfinished(rest) ensures r.caller != w && r in Unfinished(ws') {
      var x :| x in rest && r in OwnRecord(rest[x]);
      assert x in ws' && ws'[x] == rest[x];
    }
    forall r | r in OwnRecord(p) ensures r in Unfinished(ws') {
      assert ws'[w] == p;
    }
    forall r | r in Unfinished(ws') ensures r in Unfinished(rest) + OwnRecord(p) {
      var x :| x in ws' && r in OwnRecord(ws'[x]);
      if x != w { assert x in rest && rest[x] == ws'[x]; }
    }
  }

  lemma OwnRecordsTagged(s: State)
    requires WritersInv(s)
    ensures forall x, r :: x in s.writers && r in OwnRecord(s.writers[x]) ==> r.caller == x
  {
    hide MayWrite;
    forall x, r | x in s.writers && r in OwnRecord(s.writers[x]) ensures r.caller == x {
      assert JobOf(s.writers[x])[0] == r;
    }
  }

  /** A record step lands the record in a histogram that counts, or lands nothing. */
  lemma RecordKept(s: State, w: nat)
    requires Sound(s) && RolesInv(s) && WritersInv(s) && Enabled(s, Record(w))
    ensures Kept(RecordStep(s, w)) + multiset(OwnRecord(s.writers[w]))
         == Kept(s) + multiset(OwnRecord(RecordStep(s, w).writers[w]))
  {
    hide Valid, A.Advance, A.LogAfter, A.Own, RolesInv, WritersInv, Kept;
    var p, s' := s.writers[w], RecordStep(s, w);
    var rest := RecordPlace(s, w);
    A.StepLog(s.hists[p.h], p.call, s.logs[p.h]);
    assert OwnRecord(p) == A.Own(p.call) && OwnRecord(s'.writers[w]) == A.Own(s'.writers[w].call);
    assert s'.logs[p.h] == A.LogAfter(s.hists[p.h], p.call, s.logs[p.h]);
    assert s'.writers[w].call == p.call.(pc := A.Advance(s.hists[p.h], p.call, |s.logs[p.h]|).1);
    hide *;
    AddBoth(rest, multiset(s.logs[p.h]), multiset(s'.logs[p.h]),
            multiset(OwnRecord(p)), multiset(OwnRecord(s'.writers[w])));
  }

  lemma AddBoth<T>(rest: multiset<T>, a: multiset<T>, a': multiset<T>, x: multiset<T>, x': multiset<T>)
    requires a' + x == a + x'
    ensures rest + a' + x == rest + a + x'
  {
    assert rest + a' + x == rest + (a' + x);
    assert rest + a + x' == rest + (a + x');
  }

  lemma RecordFields(s: State, w: nat)
    requires Sound(s) && Enabled(s, Record(w))
    ensures var s', k := RecordStep(s, w), s.writers[w].h;
            && k in s.logs && k in s'.logs && s'.logs == s.logs[k := s'.logs[k]]
            && s'.samples == s.samples && s'.ph == s.ph && s'.readers == s.readers && s'.active == s.active
  {
    hide Valid, A.Advance, A.LogAfter;
  }

  lemma RecordPlace(s: State, w: nat) returns (rest: multiset<Rec>)
    requires Sound(s) && RolesInv(s) && WritersInv(s) && Enabled(s, Record(w))
    ensures Kept(s) == rest + multiset(s.logs[s.writers[w].h])
    ensures Kept(RecordStep(s, w)) == rest + multiset(RecordStep(s, w).logs[s.writers[w].h])
  {
    var s', k := RecordStep(s, w), s.writers[w].h;
    RecordFields(s, w);
    WrittenPlace(s, w);
    hide RecordStep, SampleRecords, SwappedOut, Sound, RolesInv, WritersInv, Enabled;
    rest := KeptPlace(s.samples, s.logs, SwappedOut(s.ph.lock, s.readers), s.active, k, s'.logs[k]);
  }

  /** Everything kept, around the log of one histogram. */
  lemma KeptPlace(samples: seq<Sample>, logs: map<nat, seq<Rec>>, hs: seq<nat>, active: nat, k: nat, log: seq<Rec>)
      returns (rest: multiset<Rec>)
    requires k in logs && active in logs && if k == active then k !in hs else hs == [k]
    ensures SampleRecords(samples) + LogsOf(logs, hs) + multiset(LogOf(logs, active)) == rest + multiset(logs[k])
    ensures var logs' := logs[k := log];
            SampleRecords(samples) + LogsOf(logs', hs) + multiset(LogOf(logs', active)) == rest + multiset(log)
  {
    var sr, logs' := SampleRecords(samples), logs[k := log];
    if k == active {
      rest := sr + LogsOf(logs, hs);
      assert LogsOf(logs', hs) == LogsOf(logs, hs);
    } else {
      rest := sr + multiset(logs[active]);
      A.Regroup(sr, multiset(logs[k]), multiset(logs[active]));
      A.Regroup(sr, multiset(log), multiset(logs[active]));
    }
  }

  /** A recording writer's histogram is either active or the one swapped out. */
  lemma WrittenPlace(s: State, w: nat)
    requires Sound(s) && RolesInv(s) && WritersInv(s) && Enabled(s, Record(w))
    ensures var k, hs := s.writers[w].h, SwappedOut(s.ph.lock, s.readers);
            (if k == s.active then k !in hs else hs == [k]) && s.active in s.logs
  {
    hide Valid, HistsOf, Empty, P.PhaseOf, P.Other;
    assert MayWrite(s, w, s.writers[w].h);
    hide WritersInv;
  }

  /** Steps that neither land nor complete a record. */
  lemma WriterIdleKept(s: State, a: Action)
    requires Sound(s) && WritersInv(s) && KeptInv(s) && Enabled(s, a)
    requires a.Enter? || a.LoadActive? || a.Leave?
    ensures KeptInv(ApplyWriter(s, a))
  {
    WriterFields(s, a);
    IdleUnfinished(s, a);
    var s' := ApplyWriter(s, a);
    hide ApplyWriter, Unfinished, OwnRecord, WritersInv, Sound, SampleRecords, LogsOf, LogOf, Enabled, SwappedOut;
    assert Kept(s') == Kept(s);
  }

  lemma IdleUnfinished(s: State, a: Action)
    requires Sound(s) && Enabled(s, a) && (a.Enter? || a.LoadActive? || a.Leave?)
    ensures ApplyWriter(s, a).completed == s.completed
    ensures Unfinished(ApplyWriter(s, a).writers) == Unfinished(s.writers)
  {
    var ws, w, ws' := s.writers, a.w, ApplyWriter(s, a).writers;
    assert w in ws ==> OwnRecord(ws[w]) == {};
    assert w in ws' ==> OwnRecord(ws'[w]) == {};
    assert ws' - {w} == ws - {w};
    hide ApplyWriter, Enabled, Sound;
    IdleWriter(ws, w);
    IdleWriter(ws', w);
  }

  lemma IdleWriter(ws: map<nat, WriterPc>, w: nat)
    requires w in ws ==> OwnRecord(ws[w]) == {}
    ensures Unfinished(ws) == Unfinished(ws - {w})
  {
    hide OwnRecord;
    var rest := ws - {w};
    forall r | r in Unfinished(ws) ensures r in Unfinished(rest) {
      var x :| x in ws && r in OwnRecord(ws[x]);
      assert x in rest && rest[x] == ws[x];
    }
    forall r | r in Unfinished(rest) ensures r in Unfinished(ws) {
      var x :| x in rest && r in OwnRecord(rest[x]);
      assert x in ws && rest[x] == ws[x];
    }
  }

  lemma RecordKeepsKept(s: State, w: nat)
    requires Sound(s) && RolesInv(s) && WritersInv(s) && KeptInv(s) && Enabled(s, Record(w))
    ensures KeptInv(RecordStep(s, w))
  {
    OwnRecordsTagged(s);
    RecordKept(s, w);
    var s', p := RecordStep(s, w), s.writers[w];
    assert s'.writers == s.writers[w := s'.writers[w]] && s'.completed == s.completed;
    AdvanceOwner(s, w);
    hide RecordStep, RolesInv, WritersInv, Unfinished, Kept, Sound, OwnRecord;
    UnfinishedMove(s.writers, w, s'.writers[w]);
    A.Exchange(Kept(s), Kept(s'), s.completed, multiset(Unfinished(s.writers - {w})),
               multiset(OwnRecord(p)), multiset(OwnRecord(s'.writers[w])));
  }

  lemma AdvanceOwner(s: State, w: nat)
    requires Sound(s) && WritersInv(s) && Enabled(s, Record(w))
    ensures forall r :: r in OwnRecord(RecordStep(s, w).writers[w]) ==> r.caller == w
  {
    assert JobOf(s.writers[w])[0] == s.writers[w].call.rec;
    hide A.Advance, A.LogAfter, Sound, MayWrite;
  }

  lemma NextKeepsKept(s: State, w: nat)
    requires WritersInv(s) && KeptInv(s) && Enabled(s, Next(w))
    ensures KeptInv(NextCall(s, w))
  {
    OwnRecordsTagged(s);
    var s', p := NextCall(s, w), s.writers[w];
    assert s'.writers == s.writers[w := s'.writers[w]] && OwnRecord(s'.writers[w]) == {};
    assert s'.completed == s.completed + multiset(OwnRecord(p));
    assert Kept(s') == Kept(s);
    hide NextCall, WritersInv, Unfinished, Kept, OwnRecord;
    UnfinishedMove(s.writers, w, s'.writers[w]);
    A.Regroup(s.completed, multiset(Unfinished(s.writers - {w})), multiset(OwnRecord(p)));
  }

  lemma WriterStepKeepsInv(s: State, a: Action)
    requires Inv(s) && Enabled(s, a) && ByWriter(a) && P.Inv(ApplyWriter(s, a).ph)
    ensures Inv(ApplyWriter(s, a))
  {
    hide Sound, P.Inv, RolesInv, WritersInv, HistsInv, SamplesInv, KeptInv, Enabled, ApplyWriter, OthersUntouched;
    WriterFrame(s, a);
    RolesFrame(s, ApplyWriter(s, a));
    WriterLock(s, a);
    WriterHists(s, a) by { assert s.writers.Keys == s.ph.inside.Keys by { KeysAgree(s); } }
    match a {
      case Enter(w, job) => EnterWriters(s, w, job); WriterIdleKept(s, a);
      case LoadActive(_) => UpdateWriters(s, a); WriterIdleKept(s, a);
      case Record(w) => UpdateWriters(s, a); RecordKeepsKept(s, w); WriterCases(s, a);
      case Next(w) => UpdateWriters(s, a); NextKeepsKept(s, w); WriterCases(s, a);
      case Leave(w) => LeaveWriters(s, w); WriterIdleKept(s, a);
    }
  }

  lemma WriterCases(s: State, a: Action)
    requires Sound(s) && Enabled(s, a)
    ensures a.Record? ==> ApplyWriter(s, a) == RecordStep(s, a.w)
    ensures a.Next? ==> ApplyWriter(s, a) == NextCall(s, a.w)
  {
  }

  lemma KeysAgree(s: State)
    requires WritersInv(s)
    ensures s.writers.Keys == s.ph.inside.Keys
  {
  }

  lemma WriterLock(s: State, a: Action)
    requires Sound(s) && LockInv(s) && Enabled(s, a) && ByWriter(a)
    ensures LockInv(ApplyWriter(s, a))
  {
    hide Sound, A.Advance, A.LogAfter;
  }

  // ----- readers' steps -----

  lemma ReaderLock(s: State, a: Action)
    requires Sound(s) && LockInv(s) && Enabled(s, a) && !ByWriter(a)
    ensures LockInv(ApplyReader(s, a))
  {
    hide Sound, Empty, P.SetEnd, P.Base;
  }

  lemma TakeUpRoles(s: State, r: nat, h: nat, c: Config)
    requires Sound(s) && RolesInv(s) && r !in s.readers && (h in s.roles ==> s.roles[h] == Returned(r))
    requires Sound(TakeUp(s, r, h, c)) && Empty(c).cfg == c
    ensures RolesInv(TakeUp(s, r, h, c))
  {
    hide Valid, Empty;
  }

  lemma SwapRoles(s: State, r: nat)
    requires Sound(s) && RolesInv(s) && LockInv(s) && Enabled(s, StoreActive(r)) && Sound(Swap(s, r))
    ensures RolesInv(Swap(s, r))
  {
    hide Sound, ActiveRole, ReadersRoles, ReadyEmpty;
    assert HasRoles(r, s.readers[r], s.active, s.roles) by { ReaderHasRoles(s, r); }
    assert forall q :: q in s.readers && q != r ==> s.readers[q].Prepared?;
    SwapReaders(s.active, s.roles, s.readers, r);
    hide LockInv;
    SwapReady(s.roles, s.logs, s.hists, s.readers[r].prev, s.readers[r].h);
  }

  lemma ReaderHasRoles(s: State, r: nat)
    requires RolesInv(s) && r in s.readers
    ensures HasRoles(r, s.readers[r], s.active, s.roles)
  {
    hide HasRoles, ActiveRole, ReadyEmpty;
  }

  lemma SwapReaders(active: nat, roles: map<nat, Role>, readers: map<nat, ReaderPc>, r: nat)
    requires ActiveRole(active, roles) && ReadersRoles(active, roles, readers)
    requires r in readers && readers[r].Read? && forall q :: q in readers && q != r ==> readers[q].Prepared?
    ensures var p := readers[r];
            var roles' := roles[p.prev := Draining][p.h := Active];
            ActiveRole(p.h, roles') && ReadersRoles(p.h, roles', readers[r := Swapped(p.prev)])
  {
    assert HasRoles(r, readers[r], active, roles);
  }

  lemma SwapReady(roles: map<nat, Role>, logs: map<nat, seq<Rec>>, hists: map<nat, Hist>, prev: nat, h: nat)
    requires ReadyEmpty(roles, logs, hists)
    ensures ReadyEmpty(roles[prev := Draining][h := Active], logs, hists)
  {
    hide Empty;
  }

  lemma HandBackRoles(s: State, r: nat)
    requires Sound(s) && RolesInv(s) && LockInv(s) && Enabled(s, Unlock(r)) && Sound(HandBack(s, r))
    ensures RolesInv(HandBack(s, r))
  {
    hide Sound, ActiveRole, ReadersRoles, ReadyEmpty, P.Apply, P.Enabled;
    assert HasRoles(r, s.readers[r], s.active, s.roles) by { ReaderHasRoles(s, r); }
    assert forall q :: q in s.readers && q != r ==> s.readers[q].Prepared?;
    HandBackReaders(s.active, s.roles, s.readers, r);
    hide LockInv;
    HandBackReady(s.roles, s.logs, s.hists, s.readers[r].prev, r);
  }

  lemma HandBackReaders(active: nat, roles: map<nat, Role>, readers: map<nat, ReaderPc>, r: nat)
    requires ActiveRole(active, roles) && ReadersRoles(active, roles, readers)
    requires r in readers && readers[r].Flipped? && forall q :: q in readers && q != r ==> readers[q].Prepared?
    ensures var roles' := roles[readers[r].prev := Returned(r)];
            ActiveRole(active, roles') && ReadersRoles(active, roles', readers - {r})
  {
    assert HasRoles(r, readers[r], active, roles);
  }

  lemma HandBackReady(roles: map<nat, Role>, logs: map<nat, seq<Rec>>, hists: map<nat, Hist>, h: nat, r: nat)
    requires ReadyEmpty(roles, logs, hists)
    ensures ReadyEmpty(roles[h := Returned(r)], logs, hists)
  {
    hide Empty;
  }

  lemma FlipRoles(s: State, a: Action)
    requires Sound(s) && RolesInv(s) && Enabled(s, a) && InsideFlip(a) && Sound(FlipStep(s, a))
    ensures RolesInv(FlipStep(s, a))
  {
    hide Sound, ActiveRole, ReadersRoles, ReadyEmpty, P.Apply, P.CaughtUp, P.Enabled;
    ReaderHasRoles(s, a.r);
    var s' := FlipStep(s, a);
    ReaderMoves(s.active, s.roles, s.readers, a.r, s'.readers[a.r]);
    assert s'.readers == s.readers[a.r := s'.readers[a.r]];
  }

  lemma ReaderMoves(active: nat, roles: map<nat, Role>, readers: map<nat, ReaderPc>, r: nat, p: ReaderPc)
    requires ReadersRoles(active, roles, readers) && HasRoles(r, p, active, roles)
    ensures ReadersRoles(active, roles, readers[r := p])
  {
    hide HasRoles;
  }

  lemma ReaderRoles(s: State, a: Action)
    requires Sound(s) && RolesInv(s) && LockInv(s) && Enabled(s, a) && !ByWriter(a)
    ensures Sound(ApplyReader(s, a)) && RolesInv(ApplyReader(s, a))
  {
    ReaderSound(s, a);
    hide RolesInv, LockInv, TakeUp, Swap, HandBack, FlipStep, Valid, HistsOf;
    if a.Recycle? {
      TakeUpRoles(s, a.r, a.h, s.hists[a.h].cfg);
    } else if a.Create? {
      TakeUpRoles(s, a.r, a.h, s.hists[s.active].cfg);
    } else if a.StoreActive? {
      SwapRoles(s, a.r);
    } else if a.Unlock? {
      HandBackRoles(s, a.r);
    } else {
      FlipRoles(s, a);
    }
  }

  lemma ReaderWriters(s: State, a: Action)
    requires Sound(s) && P.Inv(s.ph) && RolesInv(s) && LockInv(s) && WritersInv(s) && Enabled(s, a) && !ByWriter(a)
    ensures WritersInv(ApplyReader(s, a))
  {
    var s' := ApplyReader(s, a);
    ReaderFrame(s, a);
    hide ApplyReader, P.Inv, RolesInv, LockInv, Sound, Enabled, HistsOf;
    forall w | w in s.writers && s.writers[w].Recording? ensures MayWrite(s', w, s.writers[w].h) {
      assert MayWrite(s, w, s.writers[w].h);
      StillMayWrite(s, a, w, s.writers[w].h);
    }
  }

  lemma StillMayWrite(s: State, a: Action, w: nat, h: nat)
    requires Sound(s) && P.Inv(s.ph) && RolesInv(s) && LockInv(s) && Enabled(s, a) && !ByWriter(a)
    requires MayWrite(s, w, h) && w in s.ph.inside
    ensures MayWrite(ApplyReader(s, a), w, h)
  {
    hide Sound;
    if a.FlipExchange? {
      ExchangeFindsOld(s.ph, a.r, w);
      hide P.Inv, RolesInv;
    } else if a.FlipSpin? {
      SpinKeepsOld(s.ph, w);
      hide P.Inv, RolesInv;
    } else if a.StoreActive? {
      hide P.Inv;
      ReaderHasRoles(s, a.r);
      hide RolesInv;
    } else {
      hide P.Inv, RolesInv, Empty;
    }
  }

  /** At the exchange every writer inside is of the phase being left. */
  lemma ExchangeFindsOld(ph: P.State, r: nat, w: nat)
    requires P.Inv(ph) && P.Enabled(ph, P.Exchange(r)) && w in ph.inside
    ensures P.PhaseOf(ph.inside[w]) == P.Other(ph.lock.pc.next)
  {
    assert w !in P.Inside(ph, P.Other(P.Current(ph)));
  }

  /** A flip does not end while a writer of the old phase is inside. */
  lemma SpinKeepsOld(ph: P.State, w: nat)
    requires P.Inv(ph) && ph.lock.Held? && ph.lock.pc.Spinning? && w in ph.inside
    ensures P.CaughtUp(ph) ==> P.PhaseOf(ph.inside[w]) != P.Other(ph.lock.pc.next)
  {
    P.CaughtUpIffDrained(ph);
    assert P.CaughtUp(ph) ==> w !in P.Inside(ph, P.Other(ph.lock.pc.next));
  }

  /** No writer is on a histogram that is neither active nor being drained. */
  lemma NobodyOn(s: State, h: nat)
    requires Sound(s) && RolesInv(s) && WritersInv(s)
    requires h in s.roles ==> s.roles[h] != Active && s.roles[h] != Draining
    ensures On(s.writers, h) == map[]
  {
    hide RolesInv, WritersInv, Valid, HistsOf;
    forall w | w in s.writers && s.writers[w].Recording? ensures s.writers[w].h != h {
      WrittenRole(s, w);
    }
  }

  lemma TakeUpHists(s: State, r: nat, h: nat, c: Config)
    requires Sound(s) && RolesInv(s) && WritersInv(s) && HistsInv(s.hists, s.logs, s.writers) && Shaped(c)
    requires h in s.roles ==> s.roles[h] == Returned(r)
    ensures var s' := TakeUp(s, r, h, c); HistsInv(s'.hists, s'.logs, s'.writers)
  {
    hide A.Inv, RolesInv, WritersInv, Valid, HistsOf, Empty, On;
    NobodyOn(s, h);
    A.InitialInv(c);
  }

  lemma ReaderHists(s: State, a: Action)
    requires Sound(s) && RolesInv(s) && WritersInv(s) && HistsInv(s.hists, s.logs, s.writers)
    requires Enabled(s, a) && !ByWriter(a)
    ensures var s' := ApplyReader(s, a); HistsInv(s'.hists, s'.logs, s'.writers)
  {
    hide HistsInv, RolesInv, WritersInv, HistsOf, TakeUp, Shaped, P.Apply, P.CaughtUp;
    if a.Recycle? {
      TakeUpHists(s, a.r, a.h, s.hists[a.h].cfg);
    } else if a.Create? {
      TakeUpHists(s, a.r, a.h, s.hists[s.active].cfg);
    }
  }

  /** Reader r's flip is over and what it returns is the histogram its records build. */
  predicate CanReturn(s: State, r: nat) {
    && r in s.readers && s.readers[r].Flipped?
    && var h := s.readers[r].prev;
       h in s.hists && h in s.logs && SampleConsistent(Sample(h, s.hists[h], s.logs[h]))
  }

  /** Once the flip is over nobody writes the swapped-out histogram, so it is the
      histogram its records build. */
  lemma SwappedOutQuiet(s: State, r: nat)
    requires Sound(s) && RolesInv(s) && LockInv(s) && WritersInv(s) && HistsInv(s.hists, s.logs, s.writers)
    requires r in s.readers && s.readers[r].Flipped?
    ensures On(s.writers, s.readers[r].prev) == map[] && CanReturn(s, r)
  {
    hide A.Inv, Empty, Valid;
    var h := s.readers[r].prev;
    forall w | w in s.writers && s.writers[w].Recording? ensures s.writers[w].h != h {
      assert MayWrite(s, w, s.writers[w].h);
    }
    assert On(s.writers, h) == map[];
    assert A.Inv(s.hists[h], s.logs[h], On(s.writers, h));
    hide *;
    SampleOfQuiet(h, s.hists[h], s.logs[h]);
  }

  lemma SampleOfQuiet(h: nat, hist: Hist, log: seq<Rec>)
    requires A.Inv(hist, log, map[])
    ensures SampleConsistent(Sample(h, hist, log))
  {
    A.QuietDescribes(hist, log, map[]);
    hide A.CountsAgree, A.MinAgrees, A.MaxAgrees, A.ThreadsPlaced, A.PendingTotal, LogTotal, Replay;
  }

  lemma ReaderSamples(s: State, a: Action)
    requires Sound(s) && RolesInv(s) && LockInv(s) && WritersInv(s) && SamplesInv(s)
    requires HistsInv(s.hists, s.logs, s.writers) && Enabled(s, a) && !ByWriter(a)
    ensures Sound(ApplyReader(s, a)) && SamplesInv(ApplyReader(s, a))
  {
    ReaderSound(s, a);
    hide LockInv, WritersInv, HistsInv, RolesInv, HistsOf, P.Apply, P.CaughtUp, SamplesInv, Valid,
         TakeUp, Swap, HandBack, FlipStep;
    if a.Recycle? {
      TakeUpSamples(s, a.r, a.h, s.hists[a.h].cfg);
    } else if a.Create? {
      TakeUpSamples(s, a.r, a.h, s.hists[s.active].cfg);
    } else if a.StoreActive? {
      SwapSamples(s, a.r);
    } else if a.Unlock? {
      SwappedOutQuiet(s, a.r);
      HandBackSamples(s, a.r);
    } else {
      FlipSamples(s, a);
    }
  }

  lemma TakeUpSamples(s: State, r: nat, h: nat, c: Config)
    requires Sound(s) && SamplesInv(s) && Sound(TakeUp(s, r, h, c))
    ensures SamplesInv(TakeUp(s, r, h, c))
  {
    hide Valid, Empty, HistsOf, SampleConsistent;
  }

  lemma SwapSamples(s: State, r: nat)
    requires Sound(s) && SamplesInv(s) && Enabled(s, StoreActive(r)) && Sound(Swap(s, r))
    ensures SamplesInv(Swap(s, r))
  {
    hide Valid, HistsOf, SampleConsistent;
  }

  lemma FlipSamples(s: State, a: Action)
    requires Sound(s) && SamplesInv(s) && Enabled(s, a) && InsideFlip(a) && Sound(FlipStep(s, a))
    ensures SamplesInv(FlipStep(s, a))
  {
    hide Valid, HistsOf, SampleConsistent, P.Apply, P.CaughtUp;
  }

  lemma HandBackSamples(s: State, r: nat)
    requires CanReturn(s, r) && Enabled(s, Unlock(r)) && Sound(s) && SamplesInv(s) && Sound(HandBack(s, r))
    ensures SamplesInv(HandBack(s, r))
  {
    hide SampleConsistent, P.Apply, Valid, HistsOf;
    var s', k := HandBack(s, r), s.readers[r].prev;
    assert s'.samples[|s.samples|] == Sample(k, s.hists[k], s.logs[k]);
    forall h | h in s'.roles && s'.roles[h].Returned? ensures Sample(h, s'.hists[h], s'.logs[h]) in s'.samples {
      if h != k { assert Sample(h, s.hists[h], s.logs[h]) in s.samples; }
    }
  }

  lemma ReaderKept(s: State, a: Action)
    requires Sound(s) && RolesInv(s) && LockInv(s) && Enabled(s, a) && !ByWriter(a)
    ensures Kept(ApplyReader(s, a)) == Kept(s)
  {
    hide RolesInv, LockInv, TakeUp, Swap, HandBack, FlipStep, Valid, HistsOf, Kept;
    if a.Recycle? {
      TakeUpKept(s, a.r, a.h, s.hists[a.h].cfg);
    } else if a.Create? {
      TakeUpKept(s, a.r, a.h, s.hists[s.active].cfg);
    } else if a.StoreActive? {
      SwapKept(s, a.r);
    } else if a.Unlock? {
      HandBackKept(s, a.r);
    } else {
      FlipKept(s, a);
    }
  }

  lemma TakeUpKept(s: State, r: nat, h: nat, c: Config)
    requires Sound(s) && RolesInv(s) && LockInv(s) && r !in s.readers && (h in s.roles ==> s.roles[h] == Returned(r))
    ensures Kept(TakeUp(s, r, h, c)) == Kept(s)
  {
    NotSwappedOut(s, r, h);
    var s' := TakeUp(s, r, h, c);
    assert SwappedOut(s'.ph.lock, s'.readers) == SwappedOut(s.ph.lock, s.readers) by { hide RolesInv; }
    hide RolesInv, LockInv, Sound, SampleRecords, SwappedOut, Empty;
    OtherLogs(s.logs, h, SwappedOut(s.ph.lock, s.readers), s.active);
  }

  lemma NotSwappedOut(s: State, r: nat, h: nat)
    requires RolesInv(s) && LockInv(s) && r !in s.readers && (h in s.roles ==> s.roles[h] == Returned(r))
    ensures h !in SwappedOut(s.ph.lock, s.readers) && h != s.active
  {
    hide ReadyEmpty;
    if s.ph.lock.Held? { ReaderHasRoles(s, s.ph.lock.reader); }
    hide ReadersRoles;
  }

  lemma OtherLogs(logs: map<nat, seq<Rec>>, h: nat, hs: seq<nat>, active: nat)
    requires h !in hs && h != active
    ensures LogsOf(logs[h := []], hs) == LogsOf(logs, hs) && LogOf(logs[h := []], active) == LogOf(logs, active)
  {
  }

  /** The swap moves the active records to the swapped-out side; the histogram
      it makes active is empty. */
  lemma SwapKept(s: State, r: nat)
    requires Sound(s) && RolesInv(s) && LockInv(s) && Enabled(s, StoreActive(r))
    ensures Kept(Swap(s, r)) == Kept(s)
  {
    hide Valid, Empty, SampleRecords;
    var s' := Swap(s, r);
    assert LogOf(s'.logs, s'.active) == [];
    assert SwappedOut(s'.ph.lock, s'.readers) == [s.active] && SwappedOut(s.ph.lock, s.readers) == [];
  }

  lemma FlipKept(s: State, a: Action)
    requires LockInv(s) && Enabled(s, a) && InsideFlip(a)
    ensures Kept(FlipStep(s, a)) == Kept(s)
  {
    hide SampleRecords, LogsOf, LogOf, P.CaughtUp, P.SetEnd, P.Base;
    var s' := FlipStep(s, a);
    assert SwappedOut(s'.ph.lock, s'.readers) == SwappedOut(s.ph.lock, s.readers);
  }

  lemma HandBackKept(s: State, r: nat)
    requires Sound(s) && LockInv(s) && Enabled(s, Unlock(r))
    ensures Kept(HandBack(s, r)) == Kept(s)
  {
    hide Valid;
    var s', h := HandBack(s, r), s.readers[r].prev;
    assert HistsOf(s.readers[r]) == {h};
    hide HistsOf;
    assert SwappedOut(s'.ph.lock, s'.readers) == [] && SwappedOut(s.ph.lock, s.readers) == [h];
    assert h in s.logs;
    hide LockInv, Sound, SwappedOut, Enabled;
    assert s'.samples[..|s.samples|] == s.samples;
    assert SampleRecords(s'.samples) == SampleRecords(s.samples) + multiset(s.logs[h]);
    hide SampleRecords;
  }

  lemma ReaderStepKeepsInv(s: State, a: Action)
    requires Inv(s) && Enabled(s, a) && !ByWriter(a) && P.Inv(ApplyReader(s, a).ph)
    ensures Inv(ApplyReader(s, a))
  {
    hide P.Inv, RolesInv, LockInv, WritersInv, HistsInv, SamplesInv, Sound, Kept, ApplyReader, Enabled;
    ReaderLock(s, a);
    ReaderRoles(s, a);
    ReaderWriters(s, a);
    ReaderHists(s, a);
    ReaderSamples(s, a);
    ReaderKept(s, a);
    ReaderFrame(s, a);
  }

  lemma ReaderFrame(s: State, a: Action)
    requires Sound(s) && Enabled(s, a) && !ByWriter(a)
    ensures ApplyReader(s, a).writers == s.writers && ApplyReader(s, a).completed == s.completed
    ensures ApplyReader(s, a).ph.inside == s.ph.inside
  {
    hide Sound, Empty, P.CaughtUp, P.SetEnd, P.Base;
  }

  // ----- every step, every run -----

  lemma StepKeepsInv(s: State, a: Action)
    requires Inv(s) && Enabled(s, a) && Apply(s, a).ph.entries <= INT64_MAX
    ensures Inv(Apply(s, a))
  {
    assert Sound(s);
    StepPhaserInv(s, a);
    hide Inv, Enabled, ApplyWriter, ApplyReader, Sound, P.Inv;
    if ByWriter(a) { WriterStepKeepsInv(s, a); } else { ReaderStepKeepsInv(s, a); }
  }

  lemma {:induction false} RunKeepsInv(s: State, run: seq<Action>)
    requires Inv(s) && Legal(s, run) && Bounded(s, run)
    ensures Inv(Run(s, run))
    decreases |run|
  {
    assert Sound(s);
    hide Inv, Enabled, Apply, Sound;
    if run != [] {
      ApplySound(s, run[0]);
      StepKeepsInv(s, run[0]);
      RunKeepsInv(Apply(s, run[0]), run[1..]);
    }
  }

  // ----- what holds over whole runs -----

  /** Conservation: whatever the interleaving, the returned samples, the
      histogram being swapped out and the active one together hold exactly the
      records of the completed calls and of the calls still in progress. */
  lemma Conservation(c: Config, run: seq<Action>)
    requires Shaped(c) && Legal(Initial(c), run) && Bounded(Initial(c), run)
    ensures var s := Run(Initial(c), run);
            Kept(s) == s.completed + multiset(Unfinished(s.writers))
  {
    hide P.Inv, RolesInv, LockInv, WritersInv, HistsInv, SamplesInv, Run, Legal, Bounded, Initial, Kept;
    InitialInv(c);
    RunKeepsInv(Initial(c), run);
  }

  /** With no writer inside and no flip under way: the samples and the active
      histogram hold exactly the completed records. */
  lemma ConservationAtRest(c: Config, run: seq<Action>)
    requires Shaped(c) && Legal(Initial(c), run) && Bounded(Initial(c), run)
    requires var s := Run(Initial(c), run); s.writers == map[] && s.ph.lock == P.Free
    ensures var s := Run(Initial(c), run);
            && SampleRecords(s.samples) + multiset(s.logs[s.active]) == s.completed
            && s.hists[s.active] == Replay(s.hists[s.active].cfg, s.logs[s.active])
  {
    hide P.Inv, RolesInv, LockInv, WritersInv, SamplesInv, Run, Legal, Bounded, Initial, A.Inv, Replay, Valid, HistsOf;
    InitialInv(c);
    RunKeepsInv(Initial(c), run);
    var s := Run(Initial(c), run);
    assert Unfinished(s.writers) == {} && multiset(Unfinished(s.writers)) == multiset{};
    assert LogsOf(s.logs, SwappedOut(s.ph.lock, s.readers)) == multiset{};
    assert LogOf(s.logs, s.active) == s.logs[s.active];
    assert Kept(s) == SampleRecords(s.samples) + multiset(s.logs[s.active]);
    assert On(s.writers, s.active) == map[];
    SampleOfQuiet(s.active, s.hists[s.active], s.logs[s.active]);
  }

  /** Every histogram sample_and_recycle has returned is internally consistent:
      it is the sequential recording of its records in any order. */
  lemma SamplesConsistent(c: Config, run: seq<Action>, i: nat, order: seq<Rec>)
    requires Shaped(c) && Legal(Initial(c), run) && Bounded(Initial(c), run)
    requires i < |Run(Initial(c), run).samples|
    requires multiset(order) == multiset(Run(Initial(c), run).samples[i].log)
    ensures var sm := Run(Initial(c), run).samples[i];
            Shaped(sm.hist.cfg) && sm.hist == Replay(sm.hist.cfg, order)
  {
    hide P.Inv, RolesInv, LockInv, WritersInv, HistsInv, KeptInv, Run, Legal, Bounded, Initial, Sound, Replay;
    InitialInv(c);
    RunKeepsInv(Initial(c), run);
    var sm := Run(Initial(c), run).samples[i];
    assert SampleConsistent(sm);
    ReplayPermutation(sm.hist.cfg, sm.log, order);
  }

  /** A histogram a reader holds has no writer on it and changes in no step but
      the holder's own handing it back. */
  lemma StepLeavesReturnedAlone(s: State, a: Action, h: nat, r: nat)
    requires Inv(s) && Enabled(s, a) && h in s.roles && s.roles[h] == Returned(r) && a != Recycle(r, h)
    ensures Sound(Apply(s, a))
    ensures On(s.writers, h) == map[]
    ensures h in Apply(s, a).roles && Apply(s, a).roles[h] == Returned(r) && Apply(s, a).hists[h] == s.hists[h]
  {
    ApplySound(s, a);
    NobodyOn(s, h);
    hide RolesInv, LockInv, WritersInv, HistsInv, SamplesInv, KeptInv, P.Inv, ApplyWriter, ApplyReader, Valid, HistsOf;
    if ByWriter(a) {
      WriterFrame(s, a);
    } else {
      ReaderLeavesReturned(s, a, h, r);
    }
  }

  lemma ReaderLeavesReturned(s: State, a: Action, h: nat, r: nat)
    requires Sound(s) && RolesInv(s) && Enabled(s, a) && !ByWriter(a)
    requires h in s.roles && s.roles[h] == Returned(r) && a != Recycle(r, h)
    ensures var s' := ApplyReader(s, a);
            h in s'.roles && s'.roles[h] == Returned(r) && h in s'.hists && s'.hists[h] == s.hists[h]
  {
    hide P.Apply, P.CaughtUp, Empty, Valid;
    if a.StoreActive? {
      assert s.roles[s.readers[a.r].prev] == Active && s.roles[s.readers[a.r].h].Ready?;
    } else if a.Unlock? {
      assert s.roles[s.readers[a.r].prev] == Draining;
    }
    hide RolesInv, HistsOf;
  }

  /** Stable sample: over any run in which its holder does not hand it back, a
      returned histogram keeps exactly the contents it was returned with and
      nobody is writing it. */
  lemma {:induction false} StableSample(s: State, run: seq<Action>, h: nat, r: nat)
    requires Inv(s) && Legal(s, run) && Bounded(s, run)
    requires h in s.roles && s.roles[h] == Returned(r) && Recycle(r, h) !in run
    ensures h in Run(s, run).hists && Run(s, run).hists[h] == s.hists[h]
    ensures On(Run(s, run).writers, h) == map[]
    decreases |run|
  {
    assert Sound(s);
    assert h in s.hists;
    if run == [] {
      NobodyOn(s, h);
    }
    hide Inv, Enabled, Apply, Sound, On;
    if run != [] {
      StepLeavesReturnedAlone(s, run[0], h, r);
      StepKeepsInv(s, run[0]);
      StableSample(Apply(s, run[0]), run[1..], h, r);
    }
  }

  // ----- the phaser's guarantees carry over -----

  function PhaserRun(run: seq<Action>): seq<P.Action> {
    if run == [] then [] else PhaserPart(run[0]) + PhaserRun(run[1..])
  }

  lemma PhaserLegal(s: State, a: Action)
    requires Sound(s) && Enabled(s, a)
    ensures P.Legal(s.ph, PhaserPart(a)) && P.Run(s.ph, PhaserPart(a)) == Apply(s, a).ph
  {
    PhaserStep(s, a);
    hide Sound, Enabled, Apply, P.Apply;
    var p := PhaserPart(a);
    if p != [] {
      assert p[1..] == [];
      assert P.Legal(P.Apply(s.ph, p[0]), []);
    }
  }

  lemma {:induction false} PhaserConcat(s: P.State, a: seq<P.Action>, b: seq<P.Action>)
    requires P.Legal(s, a) && P.Legal(P.Run(s, a), b)
    ensures P.Legal(s, a + b) && P.Run(s, a + b) == P.Run(P.Run(s, a), b)
    decreases |a|
  {
    hide P.Apply, P.Enabled;
    if a == [] {
      assert a + b == b;
    } else {
      PhaserConcat(P.Apply(s, a[0]), a[1..], b);
      assert (a + b)[1..] == a[1..] + b;
    }
  }

  /** Every run of the recorder is a run of the phaser, so what is proved of the
      phaser's flips holds of every sample_and_recycle. */
  lemma {:induction false} RefinesPhaser(s: State, run: seq<Action>)
    requires Sound(s) && Legal(s, run)
    ensures P.Legal(s.ph, PhaserRun(run)) && P.Run(s.ph, PhaserRun(run)) == Run(s, run).ph
    decreases |run|
  {
    hide Sound, Enabled, Apply, P.Apply, P.Enabled, PhaserPart;
    if run != [] {
      ApplySound(s, run[0]);
      PhaserLegal(s, run[0]);
      RefinesPhaser(Apply(s, run[0]), run[1..]);
      PhaserConcat(s.ph, PhaserPart(run[0]), PhaserRun(run[1..]));
    }
  }

  /** Reader r's flip waits in its loop. */
  predicate SpinsIn(s: State, r: nat) {
    s.ph.lock.Held? && s.ph.lock.reader == r && s.ph.lock.pc.Spinning?
  }

  /** The flip that spins in s is still spinning at every point of the run. */
  predicate StaysSpinning(s: State, run: seq<Action>)
    requires Sound(s) && Legal(s, run)
    decreases |run|
  {
    run == [] || (&& Apply(s, run[0]).ph.lock == s.ph.lock
                  && (ApplySound(s, run[0]); StaysSpinning(Apply(s, run[0]), run[1..])))
  }

  /** A waiting flip of the recorder is a waiting flip of the phaser. */
  lemma {:induction false} SpinLifts(s: State, run: seq<Action>)
    requires Sound(s) && Legal(s, run) && Bounded(s, run) && StaysSpinning(s, run)
    ensures P.Legal(s.ph, PhaserRun(run)) && P.Bounded(s.ph, PhaserRun(run)) && P.StaysSpinning(s.ph, PhaserRun(run))
    decreases |run|
  {
    hide Sound, Enabled, Apply, P.Apply, P.Enabled, PhaserPart;
    if run != [] {
      ApplySound(s, run[0]);
      PhaserStep(s, run[0]);
      SpinLifts(Apply(s, run[0]), run[1..]);
      SpinCons(s.ph, PhaserPart(run[0]), PhaserRun(run[1..]), Apply(s, run[0]).ph) by { PhaserPartShort(run[0]); }
    }
  }

  lemma PhaserPartShort(a: Action)
    ensures |PhaserPart(a)| <= 1
  {
  }

  lemma SpinCons(ph: P.State, part: seq<P.Action>, rest: seq<P.Action>, ph': P.State)
    requires |part| <= 1 && (part == [] ==> ph' == ph) && ph.entries <= INT64_MAX && ph'.lock == ph.lock
    requires part != [] ==> P.Enabled(ph, part[0]) && ph' == P.Apply(ph, part[0])
    requires P.Legal(ph', rest) && P.Bounded(ph', rest) && P.StaysSpinning(ph', rest)
    ensures P.Legal(ph, part + rest) && P.Bounded(ph, part + rest) && P.StaysSpinning(ph, part + rest)
  {
    hide P.Apply, P.Enabled;
    if part == [] {
      assert part + rest == rest;
    } else {
      assert (part + rest)[0] == part[0] && (part + rest)[1..] == rest;
    }
  }

  lemma {:induction false} LeavesAreExits(run: seq<Action>, w: nat)
    requires Leave(w) in run
    ensures P.Exit(w) in PhaserRun(run)
    decreases |run|
  {
    if run[0] != Leave(w) {
      LeavesAreExits(run[1..], w);
    } else {
      assert P.Exit(w) in PhaserPart(run[0]);
    }
  }

  /** While its flip spins a reader stays where it is. */
  lemma SpinningReaderStays(s: State, a: Action, r: nat)
    requires Sound(s) && LockInv(s) && SpinsIn(s, r) && Enabled(s, a) && Apply(s, a).ph.lock == s.ph.lock
    ensures r in s.readers && s.readers[r].Swapped?
    ensures r in Apply(s, a).readers && Apply(s, a).readers[r] == s.readers[r]
  {
    if ByWriter(a) {
      hide Sound, A.Advance, A.LogAfter, P.Apply;
    } else {
      hide Sound, Empty, P.SetEnd, P.Base;
    }
  }

  lemma {:induction false} SpinningReaderKept(s: State, run: seq<Action>, r: nat)
    requires Inv(s) && Legal(s, run) && Bounded(s, run) && StaysSpinning(s, run) && SpinsIn(s, r)
    ensures var s' := Run(s, run);
            && Inv(s') && s'.ph.lock == s.ph.lock
            && r in s.readers && s.readers[r].Swapped? && r in s'.readers && s'.readers[r] == s.readers[r]
    decreases |run|
  {
    assert Sound(s) && LockInv(s);
    if run != [] {
      hide Inv, Enabled, Apply, Sound, LockInv;
      SpinningReaderStays(s, run[0], r);
      ApplySound(s, run[0]);
      StepKeepsInv(s, run[0]);
      SpinningReaderKept(Apply(s, run[0]), run[1..], r);
    } else {
      hide Sound, HistsInv, SamplesInv, WritersInv, RolesInv, KeptInv, P.Inv;
    }
  }

  /** Reader r's next test ends its flip, and it can then return prev. */
  predicate NextTestReturns(s: State, r: nat, prev: nat) {
    && Enabled(s, FlipSpin(r))
    && var s' := FlipStep(s, FlipSpin(r));
       Enabled(s', Unlock(r)) && s'.readers[r] == Flipped(prev)
  }

  lemma DrainedReturns(s: State, r: nat)
    requires SpinsIn(s, r) && r in s.readers && s.readers[r].Swapped? && P.CaughtUp(s.ph)
    ensures NextTestReturns(s, r, s.readers[r].prev)
  {
  }

  /** The writers a spinning flip waits for. */
  function WaitedFor(s: State, r: nat): set<nat>
    requires SpinsIn(s, r)
  {
    P.Inside(s.ph, P.Other(s.ph.lock.pc.next))
  }

  /** Progress: once every writer a sample_and_recycle waits for has left, whatever
      else happened meanwhile, its next test ends the flip and it can return the
      histogram it swapped out. */
  lemma SampleReturnsOnceDrained(s: State, run: seq<Action>, r: nat)
    requires SpinsIn(s, r) && Inv(s) && Legal(s, run) && Bounded(s, run) && StaysSpinning(s, run)
    requires forall w :: w in WaitedFor(s, r) ==> Leave(w) in run
    ensures r in s.readers && s.readers[r].Swapped? && NextTestReturns(Run(s, run), r, s.readers[r].prev)
  {
    assert P.Inv(s.ph) && Sound(s);
    hide Inv, Sound, P.Inv, NextTestReturns;
    SpinningReaderKept(s, run, r);
    assert P.CaughtUp(Run(s, run).ph) by { FlipDrains(s, run, r); }
    hide StaysSpinning, Bounded, Legal, Run, P.CaughtUp, WaitedFor;
    DrainedReturns(Run(s, run), r);
  }

  lemma FlipDrains(s: State, run: seq<Action>, r: nat)
    requires SpinsIn(s, r) && Sound(s) && P.Inv(s.ph) && Legal(s, run) && Bounded(s, run) && StaysSpinning(s, run)
    requires forall w :: w in WaitedFor(s, r) ==> Leave(w) in run
    ensures Run(s, run).ph.lock == s.ph.lock && P.CaughtUp(Run(s, run).ph)
  {
    hide Sound, P.Inv, StaysSpinning, Bounded, Legal, Run, PhaserRun, P.Inside, P.CaughtUp;
    RefinesPhaser(s, run);
    SpinLifts(s, run);
    hide P.Legal, P.Bounded, P.StaysSpinning, P.Run;
    forall w | w in WaitedFor(s, r) ensures P.Exit(w) in PhaserRun(run) {
      LeavesAreExits(run, w);
    }
    P.FlipEndsOnceDrained(s.ph, PhaserRun(run));
  }
}
