/** hdr_record_values_atomic run by any number of threads on one histogram.
    Every atomic operation is one step; any interleaving of the threads' steps
    is a run. */
module AtomicRecording {
  import opened Bits
  import opened Buckets
  import opened HistogramModel

  /** Where a call of hdr_record_values_atomic is. `pos` is the place of its
      record in the landing order. */
  datatype Pc =
    | Start
    | AddTotal(pos: nat)
    | LoadMin(pos: nat)
    | CasMin(pos: nat, seen: int)
    | LoadMax(pos: nat)
    | CasMax(pos: nat, seen: int)
    | Done(ok: bool)

  datatype Thread = Thread(rec: Rec, pc: Pc)

  /** Threads whose record has landed in counts but not finished. */
  predicate Landed(pc: Pc) {
    !pc.Start? && !pc.Done?
  }

  /** Threads that have not yet seen the minimum through. */
  predicate MinPending(pc: Pc) {
    pc.AddTotal? || pc.LoadMin? || pc.CasMin?
  }

  /** One atomic step of a call, hdr_histogram.c:75-115 and 513-533. */
  function Advance(h: Hist, t: Thread, landed: nat): (r: (Hist, Pc))
    requires Valid(h) && !t.pc.Done?
    ensures Valid(r.0) && r.0.cfg == h.cfg
  {
    var v := t.rec.value;
    match t.pc
    case Start =>
      if !Accepts(h.cfg, v) then (h, Done(false))
      else
        var i := CountsIndexFor(h.cfg, v);
        (h.(counts := h.counts[i := h.counts[i] + t.rec.count]), AddTotal(landed))
    case AddTotal(pos) =>
      (h.(total := h.total + t.rec.count), LoadMin(pos))
    case LoadMin(pos) =>
      if v == 0 || h.minValue <= v then (h, LoadMax(pos)) else (h, CasMin(pos, h.minValue))
    case CasMin(pos, seen) =>
      if h.minValue == seen then (h.(minValue := v), LoadMax(pos)) else (h, LoadMin(pos))
    case LoadMax(pos) =>
      if v <= h.maxValue then (h, Done(true)) else (h, CasMax(pos, h.maxValue))
    case CasMax(pos, seen) =>
      if h.maxValue == seen then (h.(maxValue := v), Done(true)) else (h, LoadMax(pos))
  }

  /** The landing order after a step: a record lands when its count is added. */
  function LogAfter(h: Hist, t: Thread, log: seq<Rec>): seq<Rec>
    requires Valid(h)
  {
    if t.pc.Start? && Accepts(h.cfg, t.rec.value) then log + [t.rec] else log
  }

  // ----- what is outstanding -----

  function Weight(t: Thread): int {
    if t.pc.AddTotal? then t.rec.count else 0
  }

  ghost function AnyKey(ts: map<nat, Thread>): (k: nat)
    requires ts != map[]
    ensures k in ts
  {
    var k :| k in ts; k
  }

  /** Sum of the counts of the threads between their two adds. */
  ghost function PendingTotal(ts: map<nat, Thread>): int
    decreases |ts|
  {
    if ts == map[] then 0
    else
      var k := AnyKey(ts);
      Weight(ts[k]) + PendingTotal(ts - {k})
  }

  lemma {:induction false} PendingRemove(ts: map<nat, Thread>, k: nat)
    requires k in ts
    ensures PendingTotal(ts) == Weight(ts[k]) + PendingTotal(ts - {k})
    decreases |ts|
  {
    hide AnyKey, Weight;
    var j := AnyKey(ts);
    if j != k {
      PendingRemove(ts - {j}, k);
      PendingRemove(ts - {k}, j);
      assert ts - {j} - {k} == ts - {k} - {j};
    }
  }

  lemma PendingUpdate(ts: map<nat, Thread>, k: nat, t: Thread)
    ensures PendingTotal(ts[k := t]) == PendingTotal(ts - {k}) + Weight(t)
  {
    PendingRemove(ts[k := t], k);
    assert ts[k := t] - {k} == ts - {k};
  }

  // ----- the invariant -----

  ghost predicate CountsAgree(h: Hist, log: seq<Rec>)
    requires Valid(h)
  {
    && (forall k :: 0 <= k < |log| ==> Accepts(h.cfg, log[k].value))
    && (forall i :: 0 <= i < h.cfg.countsLen ==> h.counts[i] == SlotSum(h.cfg, log, i))
  }

  ghost predicate ThreadsPlaced(log: seq<Rec>, ts: map<nat, Thread>) {
    && (forall t :: t in ts && Landed(ts[t].pc) ==> ts[t].pc.pos < |log| && log[ts[t].pc.pos] == ts[t].rec)
    && (forall t, u :: t in ts && u in ts && t != u && Landed(ts[t].pc) && Landed(ts[u].pc)
                       ==> ts[t].pc.pos != ts[u].pc.pos)
  }

  ghost predicate MinAgrees(h: Hist, log: seq<Rec>, ts: map<nat, Thread>) {
    && h.minValue <= INT64_MAX
    && (h.minValue == INT64_MAX || exists k :: 0 <= k < |log| && log[k].value == h.minValue && h.minValue != 0)
    && (forall k :: 0 <= k < |log| && log[k].value != 0 && log[k].value < h.minValue
                    ==> exists t :: t in ts && MinPending(ts[t].pc) && ts[t].pc.pos == k)
    && (forall t :: t in ts && ts[t].pc.CasMin? ==> ts[t].rec.value != 0 && ts[t].rec.value < ts[t].pc.seen)
    && (forall t :: t in ts && ts[t].pc.CasMin? ==> h.minValue <= ts[t].pc.seen)
  }

  ghost predicate MaxAgrees(h: Hist, log: seq<Rec>, ts: map<nat, Thread>) {
    && 0 <= h.maxValue
    && (h.maxValue == 0 || exists k :: 0 <= k < |log| && log[k].value == h.maxValue)
    && (forall k :: 0 <= k < |log| && log[k].value > h.maxValue
                    ==> exists t :: t in ts && Landed(ts[t].pc) && ts[t].pc.pos == k)
    && (forall t :: t in ts && ts[t].pc.CasMax? ==> ts[t].pc.seen < ts[t].rec.value)
    && (forall t :: t in ts && ts[t].pc.CasMax? ==> ts[t].pc.seen <= h.maxValue)
  }

  ghost predicate Inv(h: Hist, log: seq<Rec>, ts: map<nat, Thread>) {
    && Valid(h)
    && CountsAgree(h, log)
    && h.total + PendingTotal(ts) == LogTotal(h.cfg, log)
    && ThreadsPlaced(log, ts)
    && MinAgrees(h, log, ts)
    && MaxAgrees(h, log, ts)
  }

  // ----- every step keeps it -----

  lemma StepCounts(h: Hist, log: seq<Rec>, ts: map<nat, Thread>, k: nat)
    requires Inv(h, log, ts) && k in ts && !ts[k].pc.Done?
    ensures CountsAgree(Advance(h, ts[k], |log|).0, LogAfter(h, ts[k], log))
  {
    hide CountsIndexFor, Shaped, MinAgrees, MaxAgrees, ThreadsPlaced, PendingTotal, LogTotal;
    var log' := LogAfter(h, ts[k], log);
    if log' != log {
      assert log'[..|log|] == log && log'[|log|] == ts[k].rec;
    }
  }

  lemma StepTotal(h: Hist, log: seq<Rec>, ts: map<nat, Thread>, k: nat)
    requires Inv(h, log, ts) && k in ts && !ts[k].pc.Done?
    ensures var (h', pc') := Advance(h, ts[k], |log|);
            h'.total + PendingTotal(ts[k := ts[k].(pc := pc')]) == LogTotal(h'.cfg, LogAfter(h, ts[k], log))
  {
    hide CountsIndexFor, Shaped, MinAgrees, MaxAgrees, ThreadsPlaced, CountsAgree, PendingTotal;
    var (h', pc') := Advance(h, ts[k], |log|);
    PendingRemove(ts, k);
    PendingUpdate(ts, k, ts[k].(pc := pc'));
    var log' := LogAfter(h, ts[k], log);
    if log' != log {
      assert log'[..|log|] == log && log'[|log|] == ts[k].rec;
    }
  }

  lemma StepPlaced(h: Hist, log: seq<Rec>, ts: map<nat, Thread>, k: nat)
    requires Inv(h, log, ts) && k in ts && !ts[k].pc.Done?
    ensures ThreadsPlaced(LogAfter(h, ts[k], log), ts[k := ts[k].(pc := Advance(h, ts[k], |log|).1)])
  {
    hide CountsIndexFor, Shaped, MinAgrees, MaxAgrees, CountsAgree, PendingTotal, LogTotal;
  }

  lemma StepMin(h: Hist, log: seq<Rec>, ts: map<nat, Thread>, k: nat)
    requires Inv(h, log, ts) && k in ts && !ts[k].pc.Done?
    ensures var (h', pc') := Advance(h, ts[k], |log|);
            MinAgrees(h', LogAfter(h, ts[k], log), ts[k := ts[k].(pc := pc')])
  {
    hide CountsIndexFor, Shaped, MaxAgrees, CountsAgree, PendingTotal, LogTotal;
    var (h', pc') := Advance(h, ts[k], |log|);
    var log', ts' := LogAfter(h, ts[k], log), ts[k := ts[k].(pc := pc')];
    if h'.minValue != INT64_MAX {
      if h'.minValue == h.minValue {
        var j :| 0 <= j < |log| && log[j].value == h.minValue && h.minValue != 0;
        assert log'[j] == log[j];
      } else {
        assert log'[ts[k].pc.pos] == ts[k].rec;
      }
    }
    forall j | 0 <= j < |log'| && log'[j].value != 0 && log'[j].value < h'.minValue
      ensures exists t :: t in ts' && MinPending(ts'[t].pc) && ts'[t].pc.pos == j
    {
      if j < |log| {
        assert log'[j] == log[j];
        var t :| t in ts && MinPending(ts[t].pc) && ts[t].pc.pos == j;
        assert t in ts' && MinPending(ts'[t].pc) && ts'[t].pc.pos == j;
      } else {
        assert k in ts' && MinPending(ts'[k].pc) && ts'[k].pc.pos == j;
      }
    }
  }

  lemma StepMax(h: Hist, log: seq<Rec>, ts: map<nat, Thread>, k: nat)
    requires Inv(h, log, ts) && k in ts && !ts[k].pc.Done?
    ensures var (h', pc') := Advance(h, ts[k], |log|);
            MaxAgrees(h', LogAfter(h, ts[k], log), ts[k := ts[k].(pc := pc')])
  {
    hide CountsIndexFor, Shaped, MinAgrees, CountsAgree, PendingTotal, LogTotal;
    var (h', pc') := Advance(h, ts[k], |log|);
    var log', ts' := LogAfter(h, ts[k], log), ts[k := ts[k].(pc := pc')];
    if h'.maxValue != 0 {
      if h'.maxValue == h.maxValue {
        var j :| 0 <= j < |log| && log[j].value == h.maxValue;
        assert log'[j] == log[j];
      } else {
        assert log'[ts[k].pc.pos] == ts[k].rec;
      }
    }
    forall j | 0 <= j < |log'| && log'[j].value > h'.maxValue
      ensures exists t :: t in ts' && Landed(ts'[t].pc) && ts'[t].pc.pos == j
    {
      if j < |log| {
        assert log'[j] == log[j];
        var t :| t in ts && Landed(ts[t].pc) && ts[t].pc.pos == j;
        assert t in ts' && Landed(ts'[t].pc) && ts'[t].pc.pos == j;
      } else {
        assert k in ts' && Landed(ts'[k].pc) && ts'[k].pc.pos == j;
      }
    }
  }

  /** Any thread's step keeps the histogram's invariant. */
  lemma StepKeepsInv(h: Hist, log: seq<Rec>, ts: map<nat, Thread>, k: nat)
    requires Inv(h, log, ts) && k in ts && !ts[k].pc.Done?
    ensures var (h', pc') := Advance(h, ts[k], |log|);
            Inv(h', LogAfter(h, ts[k], log), ts[k := ts[k].(pc := pc')])
  {
    hide Advance, LogAfter, CountsAgree, ThreadsPlaced, MinAgrees, MaxAgrees, PendingTotal, LogTotal;
    StepCounts(h, log, ts, k);
    StepTotal(h, log, ts, k);
    StepPlaced(h, log, ts, k);
    StepMin(h, log, ts, k);
    StepMax(h, log, ts, k);
  }

  // ----- runs of any number of threads -----

  datatype State = State(h: Hist, log: seq<Rec>, threads: map<nat, Thread>, returned: multiset<Rec>)

  datatype Action = Call(t: nat, rec: Rec) | Step(t: nat) | Return(t: nat)

  predicate Enabled(s: State, a: Action) {
    match a
    case Call(t, rec) => t !in s.threads && rec.caller == t
    case Step(t) => t in s.threads && !s.threads[t].pc.Done?
    case Return(t) => t in s.threads && s.threads[t].pc.Done?
  }

  function Apply(s: State, a: Action): (s': State)
    requires Valid(s.h) && Enabled(s, a)
    ensures Valid(s'.h) && s'.h.cfg == s.h.cfg
  {
    match a
    case Call(t, rec) => s.(threads := s.threads[t := Thread(rec, Start)])
    case Step(t) =>
      var (h', pc') := Advance(s.h, s.threads[t], |s.log|);
      State(h', LogAfter(s.h, s.threads[t], s.log), s.threads[t := s.threads[t].(pc := pc')], s.returned)
    case Return(t) =>
      s.(threads := s.threads - {t},
         returned := if s.threads[t].pc.ok then s.returned + multiset{s.threads[t].rec} else s.returned)
  }

  predicate Legal(s: State, run: seq<Action>)
    requires Valid(s.h)
    decreases |run|
  {
    run == [] || (Enabled(s, run[0]) && Legal(Apply(s, run[0]), run[1..]))
  }

  function Run(s: State, run: seq<Action>): (s': State)
    requires Valid(s.h) && Legal(s, run)
    ensures Valid(s'.h) && s'.h.cfg == s.h.cfg
    decreases |run|
  {
    if run == [] then s else Run(Apply(s, run[0]), run[1..])
  }

  function Initial(c: Config): State {
    State(Empty(c), [], map[], multiset{})
  }

  /** Records that have landed and whose calls have not returned. */
  ghost function Unreturned(ts: map<nat, Thread>): set<Rec> {
    set t | t in ts && Own(ts[t]) == {ts[t].rec} :: ts[t].rec
  }

  function Own(th: Thread): set<Rec> {
    if Landed(th.pc) || th.pc == Done(true) then {th.rec} else {}
  }

  ghost predicate StateInv(s: State) {
    && Inv(s.h, s.log, s.threads)
    && (forall t :: t in s.threads ==> s.threads[t].rec.caller == t)
    && multiset(s.log) == s.returned + multiset(Unreturned(s.threads))
  }

  lemma InitialInv(c: Config)
    requires Shaped(c)
    ensures StateInv(Initial(c))
  {
    hide CountsIndexFor, Shaped;
    EmptyDescribes(c);
    assert Unreturned(map[]) == {};
  }

  /** A thread that holds no landed record may come or go. */
  lemma ThreadsChange(h: Hist, log: seq<Rec>, ts: map<nat, Thread>, t: nat, th: Thread)
    requires Inv(h, log, ts)
    requires !Landed(th.pc) && (t in ts ==> !Landed(ts[t].pc))
    ensures Inv(h, log, ts[t := th]) && Inv(h, log, ts - {t})
  {
    hide Valid, CountsAgree, PendingTotal, LogTotal, MinAgrees, MaxAgrees, ThreadsPlaced;
    PendingUpdate(ts, t, th);
    if t in ts { PendingRemove(ts, t); } else { assert ts - {t} == ts; }
    PlacesChange(log, ts, t, th);
    MinMaxChange(h, log, ts, t, th);
  }

  lemma PlacesChange(log: seq<Rec>, ts: map<nat, Thread>, t: nat, th: Thread)
    requires ThreadsPlaced(log, ts) && !Landed(th.pc) && (t in ts ==> !Landed(ts[t].pc))
    ensures ThreadsPlaced(log, ts[t := th]) && ThreadsPlaced(log, ts - {t})
  {
  }

  lemma MinMaxChange(h: Hist, log: seq<Rec>, ts: map<nat, Thread>, t: nat, th: Thread)
    requires MinAgrees(h, log, ts) && MaxAgrees(h, log, ts)
    requires !Landed(th.pc) && (t in ts ==> !Landed(ts[t].pc))
    ensures MinAgrees(h, log, ts[t := th]) && MinAgrees(h, log, ts - {t})
    ensures MaxAgrees(h, log, ts[t := th]) && MaxAgrees(h, log, ts - {t})
  {
    var ts1, ts2 := ts[t := th], ts - {t};
    forall k | 0 <= k < |log| && log[k].value != 0 && log[k].value < h.minValue
      ensures exists u :: u in ts1 && MinPending(ts1[u].pc) && ts1[u].pc.pos == k
      ensures exists u :: u in ts2 && MinPending(ts2[u].pc) && ts2[u].pc.pos == k
    {
      var u :| u in ts && MinPending(ts[u].pc) && ts[u].pc.pos == k;
      assert u in ts1 && u in ts2 && ts1[u] == ts2[u] == ts[u];
    }
    forall k | 0 <= k < |log| && log[k].value > h.maxValue
      ensures exists u :: u in ts1 && Landed(ts1[u].pc) && ts1[u].pc.pos == k
      ensures exists u :: u in ts2 && Landed(ts2[u].pc) && ts2[u].pc.pos == k
    {
      var u :| u in ts && Landed(ts[u].pc) && ts[u].pc.pos == k;
      assert u in ts1 && u in ts2 && ts1[u] == ts2[u] == ts[u];
    }
  }

  lemma UnreturnedChange(ts: map<nat, Thread>, t: nat, th: Thread)
    requires forall k :: k in ts ==> ts[k].rec.caller == k
    requires th.rec.caller == t
    ensures Unreturned(ts[t := th]) == Unreturned(ts - {t}) + Own(th)
    ensures Own(th) !! Unreturned(ts - {t})
  {
    var rest, ts' := ts - {t}, ts[t := th];
    forall r | r in Unreturned(rest) ensures r.caller != t && r in Unreturned(ts') {
      var k :| k in rest && Own(rest[k]) == {rest[k].rec} && rest[k].rec == r;
      assert k in ts' && ts'[k] == rest[k];
    }
    forall r | r in Own(th) ensures r in Unreturned(ts') {
      assert ts'[t] == th;
    }
    forall r | r in Unreturned(ts') ensures r in Unreturned(rest) + Own(th) {
      var k :| k in ts' && Own(ts'[k]) == {ts'[k].rec} && ts'[k].rec == r;
      if k != t { assert k in rest && rest[k] == ts'[k]; }
    }
  }

  lemma UnreturnedMove(ts: map<nat, Thread>, t: nat, th: Thread)
    requires forall k :: k in ts ==> ts[k].rec.caller == k
    requires t in ts && th.rec == ts[t].rec
    ensures multiset(Unreturned(ts[t := th])) == multiset(Unreturned(ts - {t})) + multiset(Own(th))
    ensures multiset(Unreturned(ts)) == multiset(Unreturned(ts - {t})) + multiset(Own(ts[t]))
  {
    UnreturnedChange(ts, t, th);
    UnreturnedChange(ts, t, ts[t]);
    assert ts[t := ts[t]] == ts;
    hide *;
    DisjointMultiset(Unreturned(ts - {t}), Own(th));
    DisjointMultiset(Unreturned(ts - {t}), Own(ts[t]));
  }

  lemma DisjointMultiset<T>(a: set<T>, b: set<T>)
    requires a !! b
    ensures multiset(a + b) == multiset(a) + multiset(b)
  {
  }

  lemma CallKeepsInv(s: State, t: nat, rec: Rec)
    requires StateInv(s) && Enabled(s, Call(t, rec))
    ensures StateInv(Apply(s, Call(t, rec)))
  {
    assert Valid(s.h) && Own(Thread(rec, Start)) == {};
    hide Valid, Inv, Unreturned, Own, Advance, LogAfter;
    ThreadsChange(s.h, s.log, s.threads, t, Thread(rec, Start));
    UnreturnedNew(s.threads, t, Thread(rec, Start));
  }

  lemma UnreturnedNew(ts: map<nat, Thread>, t: nat, th: Thread)
    requires t !in ts && Own(th) == {} && th.rec.caller == t
    requires forall k :: k in ts ==> ts[k].rec.caller == k
    ensures Unreturned(ts[t := th]) == Unreturned(ts)
  {
    UnreturnedChange(ts, t, th);
    assert ts - {t} == ts;
  }

  lemma ThreadStepKeepsInv(s: State, t: nat)
    requires StateInv(s) && Enabled(s, Step(t))
    ensures StateInv(Apply(s, Step(t)))
  {
    assert Valid(s.h);
    hide Valid, Inv, Unreturned, Own, Advance, LogAfter;
    var s' := Apply(s, Step(t));
    StepKeepsInv(s.h, s.log, s.threads, t);
    UnreturnedMove(s.threads, t, s'.threads[t]);
    StepLog(s.h, s.threads[t], s.log);
    Exchange(multiset(s.log), multiset(s'.log), s.returned, multiset(Unreturned(s.threads - {t})),
             multiset(Own(s.threads[t])), multiset(Own(s'.threads[t])));
  }

  lemma Exchange<T>(log: multiset<T>, log': multiset<T>, returned: multiset<T>, rest: multiset<T>,
                    own: multiset<T>, own': multiset<T>)
    requires log == returned + (rest + own)
    requires log' + own == log + own'
    ensures log' == returned + (rest + own')
  {
    assert log + own' == returned + (rest + own') + own;
    MultisetCancel(log', returned + (rest + own'), own);
  }

  lemma ReturnKeepsInv(s: State, t: nat)
    requires StateInv(s) && Enabled(s, Return(t))
    ensures StateInv(Apply(s, Return(t)))
  {
    assert Valid(s.h);
    hide Valid, Inv, Unreturned;
    ThreadsChange(s.h, s.log, s.threads, t, s.threads[t]);
    UnreturnedMove(s.threads, t, s.threads[t]);
    var s', own := Apply(s, Return(t)), multiset(Own(s.threads[t]));
    assert s'.returned == s.returned + own;
    hide Own, Apply;
    Regroup(s.returned, multiset(Unreturned(s.threads - {t})), own);
  }

  lemma Regroup<T>(a: multiset<T>, b: multiset<T>, c: multiset<T>)
    ensures a + (b + c) == a + c + b
  {
  }

  lemma ActionKeepsInv(s: State, a: Action)
    requires StateInv(s) && Enabled(s, a)
    ensures StateInv(Apply(s, a))
  {
    assert Valid(s.h);
    hide Valid, StateInv, Enabled, Apply;
    match a {
      case Call(t, rec) => CallKeepsInv(s, t, rec);
      case Step(t) => ThreadStepKeepsInv(s, t);
      case Return(t) => ReturnKeepsInv(s, t);
    }
  }

  /** A step lands the thread's record or leaves what has landed alone. */
  lemma StepLog(h: Hist, t: Thread, log: seq<Rec>)
    requires Valid(h) && !t.pc.Done?
    ensures multiset(LogAfter(h, t, log)) + multiset(Own(t))
         == multiset(log) + multiset(Own(t.(pc := Advance(h, t, |log|).1)))
  {
    hide CountsIndexFor, Shaped;
  }

  lemma {:induction false} RunKeepsInv(s: State, run: seq<Action>)
    requires StateInv(s) && Legal(s, run)
    ensures StateInv(Run(s, run))
    decreases |run|
  {
    assert Valid(s.h);
    hide StateInv, Apply, Enabled, Valid;
    if run != [] {
      ActionKeepsInv(s, run[0]);
      RunKeepsInv(Apply(s, run[0]), run[1..]);
    }
  }

  /** At every point of every run, what the slots hold beyond total_count is
      exactly the counts of the threads between their two adds. */
  lemma CountsAheadOfTotal(c: Config, run: seq<Action>)
    requires Shaped(c) && Legal(Initial(c), run)
    ensures var s := Run(Initial(c), run);
            SumOf(s.h.counts) - s.h.total == PendingTotal(s.threads)
  {
    hide Run, Legal, Initial, SlotSum, LogTotal, PendingTotal, ThreadsPlaced, MinAgrees, MaxAgrees;
    InitialInv(c);
    RunKeepsInv(Initial(c), run);
    var s := Run(Initial(c), run);
    SlotSumsAddUp(s.h.cfg, s.log, s.h.counts);
  }

  /** When no thread has a record outstanding, the histogram is the one its
      landed records describe. */
  lemma QuietDescribes(h: Hist, log: seq<Rec>, ts: map<nat, Thread>)
    requires Inv(h, log, ts) && forall t :: t in ts ==> !Landed(ts[t].pc)
    ensures h == Replay(h.cfg, log)
  {
    hide CountsIndexFor, Shaped, SlotSum, LogTotal, PendingTotal, Replay;
    NothingPending(ts);
    assert IsMinOf(h.cfg, log, h.minValue);
    assert IsMaxOf(h.cfg, log, h.maxValue);
    ReplayDescribes(h.cfg, log);
    DescribesUnique(h, Replay(h.cfg, log), log);
  }

  lemma {:induction false} NothingPending(ts: map<nat, Thread>)
    requires forall t :: t in ts ==> !Landed(ts[t].pc)
    ensures PendingTotal(ts) == 0
    decreases |ts|
  {
    if ts != map[] {
      NothingPending(ts - {AnyKey(ts)});
    }
  }

  /** At quiescence the histogram equals a sequential recording of the calls
      that returned true, in any order. */
  lemma QuiescentEqualsSequential(c: Config, run: seq<Action>, order: seq<Rec>)
    requires Shaped(c) && Legal(Initial(c), run)
    requires Run(Initial(c), run).threads == map[]
    requires multiset(order) == Run(Initial(c), run).returned
    ensures Run(Initial(c), run).h == Replay(c, order)
  {
    hide Run, Legal, Shaped, Replay, Inv;
    InitialInv(c);
    RunKeepsInv(Initial(c), run);
    var s := Run(Initial(c), run);
    assert Unreturned(s.threads) == {};
    QuietDescribes(s.h, s.log, s.threads);
    ReplayPermutation(c, s.log, order);
  }

  // ----- retries are bounded -----

  function Gap(hi: int, lo: int): nat {
    if hi > lo then hi - lo else 0
  }

  /** A bound on the steps a call still takes. */
  function StepsLeft(h: Hist, t: Thread): nat {
    var v := t.rec.value;
    var maxPart := 2 * Gap(v, h.maxValue) + 1;
    var minPart := 2 * Gap(h.minValue, v) + 1;
    match t.pc
    case Start => minPart + maxPart + 2
    case AddTotal(_) => minPart + maxPart + 1
    case LoadMin(_) => minPart + maxPart
    case CasMin(_, seen) => 2 * Gap(seen, v) + maxPart
    case LoadMax(_) => maxPart
    case CasMax(_, seen) => 2 * Gap(v, seen)
    case Done(_) => 0
  }

  function StepsBy(t: nat, run: seq<Action>): nat {
    if run == [] then 0 else (if run[0] == Step(t) then 1 else 0) + StepsBy(t, run[1..])
  }

  /** The minimum only falls and the maximum only rises. */
  lemma StepMonotone(s: State, a: Action)
    requires StateInv(s) && Enabled(s, a)
    ensures Apply(s, a).h.minValue <= s.h.minValue && s.h.maxValue <= Apply(s, a).h.maxValue
  {
    hide CountsIndexFor, Shaped, CountsAgree, PendingTotal, LogTotal, ThreadsPlaced, Unreturned;
  }

  lemma StepsLeftFall(s: State, a: Action, t: nat)
    requires StateInv(s) && Enabled(s, a) && t in s.threads && a != Return(t)
    ensures t in Apply(s, a).threads
    ensures StepsLeft(Apply(s, a).h, Apply(s, a).threads[t]) + (if a == Step(t) then 1 else 0)
         <= StepsLeft(s.h, s.threads[t])
  {
    hide CountsIndexFor, Shaped, CountsAgree, PendingTotal, LogTotal, ThreadsPlaced, Unreturned, StepsLeft;
    StepMonotone(s, a);
    if a == Step(t) {
      OwnStepCounts(s.h, s.threads[t], |s.log|);
    } else {
      OtherStepHelps(s.h, Apply(s, a).h, s.threads[t]);
    }
  }

  lemma OwnStepCounts(h: Hist, t: Thread, landed: nat)
    requires Valid(h) && !t.pc.Done?
    requires t.pc.CasMin? ==> t.rec.value < t.pc.seen && h.minValue <= t.pc.seen
    requires t.pc.CasMax? ==> t.pc.seen < t.rec.value && t.pc.seen <= h.maxValue
    ensures var (h', pc') := Advance(h, t, landed);
            StepsLeft(h', t.(pc := pc')) + 1 <= StepsLeft(h, t)
  {
    hide CountsIndexFor, Shaped;
  }

  lemma OtherStepHelps(h: Hist, h': Hist, t: Thread)
    requires h'.minValue <= h.minValue && h.maxValue <= h'.maxValue
    ensures StepsLeft(h', t) <= StepsLeft(h, t)
  {
  }

  /** A call takes at most StepsLeft steps however the other threads
      interleave: every failed compare-exchange has seen the bound move. */
  lemma {:induction false} BoundedSteps(s: State, run: seq<Action>, t: nat)
    requires StateInv(s) && Legal(s, run) && t in s.threads && Return(t) !in run
    ensures t in Run(s, run).threads
    ensures StepsBy(t, run) + StepsLeft(Run(s, run).h, Run(s, run).threads[t]) <= StepsLeft(s.h, s.threads[t])
    decreases |run|
  {
    assert Valid(s.h);
    hide StateInv, Apply, Enabled, StepsLeft, Valid;
    if run != [] {
      StepsLeftFall(s, run[0], t);
      ActionKeepsInv(s, run[0]);
      BoundedSteps(Apply(s, run[0]), run[1..], t);
    }
  }

  /** Four steps for a call that finds both bounds settled, and two more for each value
      the bounds can move by: however the other threads interleave, a call that starts
      now takes no more. */
  lemma CallTakesAtMost(s: State, run: seq<Action>, t: nat)
    requires StateInv(s) && Legal(s, run) && t in s.threads && s.threads[t].pc.Start? && Return(t) !in run
    ensures var v := s.threads[t].rec.value;
            && StepsBy(t, run) <= 4 + (if s.h.minValue > v then 2 * (s.h.minValue - v) else 0)
                                    + (if v > s.h.maxValue then 2 * (v - s.h.maxValue) else 0)
  {
    hide StateInv, Legal, Run, StepsBy;
    BoundedSteps(s, run, t);
  }
}
