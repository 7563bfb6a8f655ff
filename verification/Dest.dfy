/**
 Destination discovery of internal/dest: probing with bounded concurrency, then a stable ranking.

 The goroutines are modelled as interleaved steps of one main thread and one worker per host; a schedule is
 any sequence of steps.  The probe of slot i is an arbitrary result, so nothing depends on what it returns.
 */
module Dest {
  import opened Prelude
  import opened Permutation

  datatype Probed = Probed(host: string, ok: bool, rtt: int, reason: string)

  const MAX_CONC := 8

  // ---- the threads ----

  /** A worker after it stored its result releases the semaphore first and then leaves the wait group. */
  datatype Worker = NotStarted | Probing | Stored | Released | Finished

  /** The main loop for host i: wg.Add, acquire the semaphore, start the goroutine; then wg.Wait. */
  datatype Pc = Adding(i: nat) | Acquiring(i: nat) | Spawning(i: nat) | Waiting | Returned

  datatype State = State(pc: Pc, sem: int, wg: int, workers: seq<Worker>, slots: seq<Option<Probed>>)

  datatype Action = Main | Work(i: nat)

  type Prober = (nat, string) -> Probed

  function Init(n: nat): State {
    State(Adding(0), 0, 0, seq(n, i => NotStarted), seq(n, i => None))
  }

  /** One step of one thread, None when that thread cannot move. */
  function Next(s: State, a: Action, hosts: seq<string>, probe: Prober): Option<State>
    requires |s.workers| == |s.slots| == |hosts|
  {
    match a
    case Main => (
      match s.pc
      case Adding(i) => Some(if i < |hosts| then s.(wg := s.wg + 1, pc := Acquiring(i)) else s.(pc := Waiting))
      case Acquiring(i) => if s.sem < MAX_CONC then Some(s.(sem := s.sem + 1, pc := Spawning(i))) else None
      case Spawning(i) => if i < |hosts| then Some(s.(workers := s.workers[i := Probing], pc := Adding(i + 1))) else None
      case Waiting => if s.wg == 0 then Some(s.(pc := Returned)) else None
      case Returned => None)
    case Work(i) =>
      if i >= |hosts| then None
      else match s.workers[i]
        case Probing => Some(s.(slots := s.slots[i := Some(probe(i, hosts[i]))], workers := s.workers[i := Stored]))
        case Stored => if s.sem > 0 then Some(s.(sem := s.sem - 1, workers := s.workers[i := Released])) else None
        case Released => Some(s.(wg := s.wg - 1, workers := s.workers[i := Finished]))
        case _ => None
  }

  ghost predicate Sized(s: State, hosts: seq<string>) { |s.workers| == |s.slots| == |hosts| }

  // ---- adding up over the workers ----

  function Sum(ws: seq<Worker>, f: Worker -> nat): nat {
    if ws == [] then 0 else Sum(ws[..|ws| - 1], f) + f(ws[|ws| - 1])
  }

  lemma {:induction false} SumUpdate(ws: seq<Worker>, i: nat, w: Worker, f: Worker -> nat)
    requires i < |ws|
    ensures Sum(ws[i := w], f) == Sum(ws, f) - f(ws[i]) + f(w)
  {
    var n := |ws| - 1;
    if i < n {
      assert ws[i := w][..n] == ws[..n][i := w];
      SumUpdate(ws[..n], i, w, f);
    } else {
      assert ws[i := w][..n] == ws[..n];
    }
  }

  lemma {:induction false} SumPositive(ws: seq<Worker>, f: Worker -> nat) returns (i: nat)
    requires Sum(ws, f) > 0
    ensures i < |ws| && f(ws[i]) > 0
  {
    var n := |ws| - 1;
    if f(ws[n]) > 0 { i := n; } else { i := SumPositive(ws[..n], f); }
  }

  lemma {:induction false} SumBelow(ws: seq<Worker>, f: Worker -> nat, g: Worker -> nat)
    requires forall w :: f(w) <= g(w)
    ensures Sum(ws, f) <= Sum(ws, g)
  {
    if ws != [] { SumBelow(ws[..|ws| - 1], f, g); }
  }

  lemma {:induction false} SumConstant(n: nat, w: Worker, f: Worker -> nat)
    ensures Sum(seq(n, i => w), f) == n * f(w)
  {
    if n > 0 {
      assert seq(n, i => w)[..n - 1] == seq(n - 1, i => w);
      SumConstant(n - 1, w, f);
    }
  }

  function InFlight(w: Worker): nat { if w.Probing? then 1 else 0 }
  function HoldsSlot(w: Worker): nat { if w.Probing? || w.Stored? then 1 else 0 }
  function Unfinished(w: Worker): nat { if w.Probing? || w.Stored? || w.Released? then 1 else 0 }
  function StepsLeft(w: Worker): nat {
    match w case NotStarted => 3 case Probing => 3 case Stored => 2 case Released => 1 case Finished => 0
  }

  // ---- what every interleaving keeps ----

  /** How many goroutines have been started. */
  function Started(pc: Pc, n: nat): nat {
    match pc case Adding(i) => i case Acquiring(i) => i case Spawning(i) => i case _ => n
  }

  ghost predicate SlotOk(s: State, j: nat, hosts: seq<string>, probe: Prober)
    requires Sized(s, hosts) && j < |hosts|
  {
    && (s.workers[j] == NotStarted <==> j >= Started(s.pc, |hosts|))
    && s.slots[j] == if s.workers[j].NotStarted? || s.workers[j].Probing? then None else Some(probe(j, hosts[j]))
  }

  ghost predicate Inv(s: State, hosts: seq<string>, probe: Prober) {
    && Sized(s, hosts)
    && Started(s.pc, |hosts|) <= |hosts|
    && (s.pc.Acquiring? || s.pc.Spawning? ==> s.pc.i < |hosts|)
    && s.sem == Sum(s.workers, HoldsSlot) + (if s.pc.Spawning? then 1 else 0)
    && s.sem <= MAX_CONC
    && s.wg == Sum(s.workers, Unfinished) + (if s.pc.Acquiring? || s.pc.Spawning? then 1 else 0)
    && (s.pc.Returned? ==> s.wg == 0)
    && forall j: nat :: j < |hosts| ==> SlotOk(s, j, hosts, probe)
  }

  /** Steps the main thread still has to take. */
  function MainLeft(pc: Pc, n: nat): int {
    match pc
    case Adding(i) => 3 * (n - i) + 2
    case Acquiring(i) => 3 * (n - i) + 1
    case Spawning(i) => 3 * (n - i)
    case Waiting => 1
    case Returned => 0
  }

  function Left(s: State): int { MainLeft(s.pc, |s.workers|) + Sum(s.workers, StepsLeft) }

  /** Every step keeps the invariant and uses up exactly one of the steps left. */
  lemma StepKeepsInv(s: State, a: Action, hosts: seq<string>, probe: Prober)
    requires Inv(s, hosts, probe) && Next(s, a, hosts, probe).Some?
    ensures Inv(Next(s, a, hosts, probe).value, hosts, probe)
    ensures Left(Next(s, a, hosts, probe).value) == Left(s) - 1
  {
    hide Sum;
    var t := Next(s, a, hosts, probe).value;
    var moved := if a.Work? then a.i else if s.pc.Spawning? then s.pc.i else |hosts|;
    if moved < |hosts| {
      assert SlotOk(s, moved, hosts, probe);
      UpdateAll(s.workers, moved, t.workers[moved]);
    }
    forall j: nat | j < |hosts| ensures SlotOk(t, j, hosts, probe) { assert SlotOk(s, j, hosts, probe); }
    if s.pc.Waiting? && a.Main? { SumBelow(s.workers, HoldsSlot, Unfinished); }
  }

  lemma UpdateAll(ws: seq<Worker>, i: nat, w: Worker)
    requires i < |ws|
    ensures Sum(ws[i := w], HoldsSlot) == Sum(ws, HoldsSlot) - HoldsSlot(ws[i]) + HoldsSlot(w)
    ensures Sum(ws[i := w], Unfinished) == Sum(ws, Unfinished) - Unfinished(ws[i]) + Unfinished(w)
    ensures Sum(ws[i := w], StepsLeft) == Sum(ws, StepsLeft) - StepsLeft(ws[i]) + StepsLeft(w)
  {
    SumUpdate(ws, i, w, HoldsSlot);
    SumUpdate(ws, i, w, Unfinished);
    SumUpdate(ws, i, w, StepsLeft);
  }

  /** Until `Discover` returns, some thread can move. */
  lemma NeverStuck(s: State, hosts: seq<string>, probe: Prober) returns (a: Action)
    requires Inv(s, hosts, probe) && !s.pc.Returned?
    ensures Next(s, a, hosts, probe).Some?
  {
    hide Sum;
    a := Main;
    if Next(s, Main, hosts, probe).None? {
      var i := SumPositive(s.workers, if s.pc.Waiting? then Unfinished else HoldsSlot);
      a := Work(i);
      if s.workers[i].Stored? {
        var j := i;
        SumUpdate(s.workers, j, Finished, HoldsSlot);
      }
    }
  }

  /** The state after a schedule, None if it asks a blocked thread to move. */
  function Exec(s: State, schedule: seq<Action>, hosts: seq<string>, probe: Prober): (r: Option<State>)
    requires |s.workers| == |s.slots| == |hosts|
    ensures r.Some? ==> |r.value.workers| == |r.value.slots| == |hosts|
  {
    if schedule == [] then Some(s)
    else
      var before := Exec(s, schedule[..|schedule| - 1], hosts, probe);
      if before.None? then None else Next(before.value, schedule[|schedule| - 1], hosts, probe)
  }

  lemma InitInv(hosts: seq<string>, probe: Prober)
    ensures Inv(Init(|hosts|), hosts, probe) && Left(Init(|hosts|)) == 6 * |hosts| + 2
  {
    hide Sum;
    var n := |hosts|;
    SumConstant(n, NotStarted, HoldsSlot);
    SumConstant(n, NotStarted, Unfinished);
    SumConstant(n, NotStarted, StepsLeft);
    assert Init(n).workers == seq(n, i => NotStarted);
  }

  lemma {:induction false} ExecInv(schedule: seq<Action>, hosts: seq<string>, probe: Prober)
    requires Exec(Init(|hosts|), schedule, hosts, probe).Some?
    ensures var s := Exec(Init(|hosts|), schedule, hosts, probe).value;
            Inv(s, hosts, probe) && Left(s) + |schedule| == 6 * |hosts| + 2
  {
    hide Inv, Left, Next;
    if schedule == [] {
      InitInv(hosts, probe);
    } else {
      var front := schedule[..|schedule| - 1];
      ExecInv(front, hosts, probe);
      StepKeepsInv(Exec(Init(|hosts|), front, hosts, probe).value, schedule[|schedule| - 1], hosts, probe);
    }
  }

  /**
   Every schedule: at most eight probes run at once; the schedule can go on exactly while fewer than 6n + 2
   steps were taken; it then has returned, and slot i holds the probe of host i.
   */
  lemma DiscoverOnAnySchedule(schedule: seq<Action>, hosts: seq<string>, probe: Prober)
    requires Exec(Init(|hosts|), schedule, hosts, probe).Some?
    ensures var s := Exec(Init(|hosts|), schedule, hosts, probe).value;
            && Sum(s.workers, InFlight) <= 8
            && |schedule| <= 6 * |hosts| + 2
            && (s.pc.Returned? <==> |schedule| == 6 * |hosts| + 2)
            && (s.pc.Returned? <==> forall a :: Next(s, a, hosts, probe).None?)
            && (s.pc.Returned? ==> forall j :: 0 <= j < |hosts| ==> s.slots[j] == Some(probe(j, hosts[j])))
  {
    hide Sum, Exec, Inv, Left, Next;
    var s := Exec(Init(|hosts|), schedule, hosts, probe).value;
    ExecInv(schedule, hosts, probe);
    AtMostEight(s, hosts, probe);
    if s.pc.Returned? { AllFinished(s, hosts, probe); } else { GoesOn(s, hosts, probe); }
  }

  lemma AtMostEight(s: State, hosts: seq<string>, probe: Prober)
    requires Inv(s, hosts, probe)
    ensures Sum(s.workers, InFlight) <= 8
  {
    hide Sum;
    SumBelow(s.workers, InFlight, HoldsSlot);
  }

  /** Until the end some step is left and some thread can take it. */
  lemma GoesOn(s: State, hosts: seq<string>, probe: Prober)
    requires Inv(s, hosts, probe) && !s.pc.Returned?
    ensures Left(s) > 0 && exists a :: Next(s, a, hosts, probe).Some?
  {
    hide Sum, Next, Left;
    var a := NeverStuck(s, hosts, probe);
    StepKeepsInv(s, a, hosts, probe);
    LeftIsNatural(Next(s, a, hosts, probe).value, hosts, probe);
  }

  /** The first `n` of `size` workers are probing, the others have not started. */
  function Starting(size: nat, n: nat): State {
    State(Adding(n), n, n, seq(size, i => if i < n then Probing else NotStarted), seq(size, i => None))
  }

  /** Eight probes at once is not only the bound: some schedule gets there. */
  lemma {:induction false} EightProbesAtOnce(hosts: seq<string>, probe: Prober, n: nat) returns (schedule: seq<Action>)
    requires n <= 8 && n <= |hosts|
    ensures Exec(Init(|hosts|), schedule, hosts, probe) == Some(Starting(|hosts|, n))
    ensures Sum(Starting(|hosts|, n).workers, InFlight) == n
  {
    if n == 0 {
      schedule := [];
      NothingStarted(|hosts|);
    } else {
      hide Exec, Next, Sum, Starting;
      schedule := EightProbesAtOnce(hosts, probe, n - 1);
      StartOne(hosts, probe, n);
      var s := Starting(|hosts|, n - 1);
      var s1 := s.(wg := n, pc := Acquiring(n - 1));
      ExecOneMore(schedule, s, Main, hosts, probe);
      ExecOneMore(schedule + [Main], s1, Main, hosts, probe);
      ExecOneMore(schedule + [Main] + [Main], s1.(sem := n, pc := Spawning(n - 1)), Main, hosts, probe);
      schedule := schedule + [Main] + [Main] + [Main];
    }
  }

  lemma NothingStarted(size: nat)
    ensures Init(size) == Starting(size, 0) && Sum(Starting(size, 0).workers, InFlight) == 0
  {
    SumConstant(size, NotStarted, InFlight);
    assert Starting(size, 0).workers == seq(size, i => NotStarted);
    assert Init(size).workers == seq(size, i => NotStarted);
  }

  lemma StartOne(hosts: seq<string>, probe: Prober, n: nat)
    requires 0 < n <= 8 && n <= |hosts|
    ensures var s := Starting(|hosts|, n - 1);
            var s1 := s.(wg := n, pc := Acquiring(n - 1));
            var s2 := s1.(sem := n, pc := Spawning(n - 1));
            && Sized(s, hosts)
            && Next(s, Main, hosts, probe) == Some(s1) && Next(s1, Main, hosts, probe) == Some(s2)
            && Next(s2, Main, hosts, probe) == Some(Starting(|hosts|, n))
            && Sum(Starting(|hosts|, n).workers, InFlight) == Sum(s.workers, InFlight) + 1
  {
    hide Sum;
    var s := Starting(|hosts|, n - 1);
    assert s.workers[n - 1 := Probing] == Starting(|hosts|, n).workers;
    SumUpdate(s.workers, n - 1, Probing, InFlight);
  }

  lemma ExecOneMore(schedule: seq<Action>, s: State, a: Action, hosts: seq<string>, probe: Prober)
    requires Exec(Init(|hosts|), schedule, hosts, probe) == Some(s)
    ensures Sized(s, hosts) && Exec(Init(|hosts|), schedule + [a], hosts, probe) == Next(s, a, hosts, probe)
  {
    hide Next;
    assert (schedule + [a])[..|schedule + [a]| - 1] == schedule;
  }

  lemma LeftIsNatural(s: State, hosts: seq<string>, probe: Prober)
    requires Inv(s, hosts, probe)
    ensures Left(s) >= 0
  {
  }

  lemma AllFinished(s: State, hosts: seq<string>, probe: Prober)
    requires Inv(s, hosts, probe) && s.pc.Returned?
    ensures forall j :: 0 <= j < |hosts| ==> s.workers[j] == Finished && s.slots[j] == Some(probe(j, hosts[j]))
    ensures Left(s) == 0 && forall a :: Next(s, a, hosts, probe).None?
  {
    hide Sum;
    forall j | 0 <= j < |hosts|
      ensures s.workers[j] == Finished && s.slots[j] == Some(probe(j, hosts[j]))
    {
      assert SlotOk(s, j, hosts, probe);
      SumUpdate(s.workers, j, Finished, Unfinished);
    }
    assert s.workers == seq(|hosts|, i => Finished);
    SumConstant(|hosts|, Finished, StepsLeft);
  }

  // ---- ranking ----

  predicate Less(a: Probed, b: Probed) {
    if a.ok != b.ok then a.ok else a.ok && a.rtt < b.rtt
  }

  /** The order of the stable sort on positions: by `Less`, and by position where that does not tell. */
  predicate Before(rs: seq<Probed>, i: nat, j: nat)
    requires i < |rs| && j < |rs|
  {
    Less(rs[i], rs[j]) || (!Less(rs[j], rs[i]) && i < j)
  }

  /** `order` lists every position once, each pair in the order of the stable sort. */
  ghost predicate IsRanking(rs: seq<Probed>, order: seq<nat>) {
    IsPermutation(order, |rs|) && forall k, l :: 0 <= k < l < |rs| ==> Before(rs, order[k], order[l])
  }

  lemma {:induction false} PermutationCovers(order: seq<nat>, n: nat, v: nat) returns (k: nat)
    requires IsPermutation(order, n) && v < n
    ensures k < n && order[k] == v
  {
    if v !in order {
      var extended := order + [v];
      forall i | 0 <= i < |extended| ensures extended[i] < n { assert i < n ==> extended[i] == order[i]; }
      Pigeonhole(extended, n);
    }
    k :| 0 <= k < |order| && order[k] == v;
  }

  /** There is only one stable ranking, so any correct stable sort returns it. */
  lemma {:induction false} RankingIsUnique(rs: seq<Probed>, a: seq<nat>, b: seq<nat>, n: nat)
    requires IsRanking(rs, a) && IsRanking(rs, b) && n <= |rs|
    ensures a[..n] == b[..n]
  {
    if n > 0 {
      var m := n - 1;
      RankingIsUnique(rs, a, b, m);
      var ka := PermutationCovers(b, |rs|, a[m]);
      var kb := PermutationCovers(a, |rs|, b[m]);
      assert forall k :: 0 <= k < m ==> a[k] == a[..m][k] && b[k] == b[..m][k];
      assert a[m] == b[m];
      assert a[..n] == a[..m] + [a[m]] && b[..n] == b[..m] + [b[m]];
    }
  }

  function InsertAt(rs: seq<Probed>, order: seq<nat>, v: nat): seq<nat>
    requires v < |rs| && forall k :: 0 <= k < |order| ==> order[k] < |rs|
  {
    if order == [] || Before(rs, v, order[0]) then [v] + order else [order[0]] + InsertAt(rs, order[1..], v)
  }

  /** Stable insertion of the positions 0..n-1. */
  function Ranking(rs: seq<Probed>, n: nat): (order: seq<nat>)
    requires n <= |rs|
    ensures forall k :: 0 <= k < |order| ==> order[k] < n
  {
    if n == 0 then [] else
      var rest := Ranking(rs, n - 1);
      InsertBounded(rs, rest, n - 1);
      InsertAt(rs, rest, n - 1)
  }

  lemma {:induction false} InsertBounded(rs: seq<Probed>, order: seq<nat>, v: nat)
    requires v < |rs| && forall k :: 0 <= k < |order| ==> order[k] < v
    ensures forall k :: 0 <= k < |InsertAt(rs, order, v)| ==> InsertAt(rs, order, v)[k] <= v
    ensures |InsertAt(rs, order, v)| == |order| + 1
    ensures forall x :: x in InsertAt(rs, order, v) <==> x == v || x in order
  {
    if order != [] && !Before(rs, v, order[0]) {
      InsertBounded(rs, order[1..], v);
      assert order == [order[0]] + order[1..];
    }
  }

  lemma BeforeIsStrictTotal(rs: seq<Probed>, i: nat, j: nat, k: nat)
    requires i < |rs| && j < |rs| && k < |rs|
    ensures Before(rs, i, j) && Before(rs, j, k) ==> Before(rs, i, k)
    ensures i != j ==> (Before(rs, i, j) <==> !Before(rs, j, i))
  {
  }

  ghost predicate Ordered(rs: seq<Probed>, order: seq<nat>) {
    && (forall k :: 0 <= k < |order| ==> order[k] < |rs|)
    && forall k, l :: 0 <= k < l < |order| ==> Before(rs, order[k], order[l])
  }

  lemma {:induction false} InsertKeepsRanking(rs: seq<Probed>, order: seq<nat>, v: nat)
    requires v < |rs| && Ordered(rs, order) && forall k :: 0 <= k < |order| ==> order[k] < v
    ensures Ordered(rs, InsertAt(rs, order, v))
  {
    var r := InsertAt(rs, order, v);
    InsertBounded(rs, order, v);
    if order != [] {
      var head, rest := order[0], order[1..];
      if Before(rs, v, head) {
        forall k, l | 0 <= k < l < |r| ensures Before(rs, r[k], r[l]) {
          if k == 0 && l > 1 { BeforeIsStrictTotal(rs, v, head, order[l - 1]); }
        }
      } else {
        InsertKeepsRanking(rs, rest, v);
        InsertBounded(rs, rest, v);
        forall k, l | 0 <= k < l < |r| ensures Before(rs, r[k], r[l]) {
          BeforeIsStrictTotal(rs, v, head, head);
          if k == 0 { assert r[l] in InsertAt(rs, rest, v); assert r[l] == v || r[l] in rest; }
        }
      }
    }
  }

  lemma {:induction false} RankingIsRanking(rs: seq<Probed>, n: nat)
    requires n <= |rs|
    ensures |Ranking(rs, n)| == n && Ordered(rs, Ranking(rs, n))
  {
    if n > 0 {
      RankingIsRanking(rs, n - 1);
      InsertBounded(rs, Ranking(rs, n - 1), n - 1);
      InsertKeepsRanking(rs, Ranking(rs, n - 1), n - 1);
    }
  }

  /** The ranked results: what the stable sort leaves behind. */
  function Ranked(rs: seq<Probed>): (out: seq<Probed>) {
    seq(|Ranking(rs, |rs|)|, k requires 0 <= k < |Ranking(rs, |rs|)| => rs[Ranking(rs, |rs|)[k]])
  }

  /** The ranking is the stable one: validating hosts by ascending RTT, then failures, ties in input order. */
  lemma RankedIsStable(rs: seq<Probed>)
    ensures IsRanking(rs, Ranking(rs, |rs|)) && Ranked(rs) == Reordered(rs, Ranking(rs, |rs|))
    ensures forall k, l :: 0 <= k < l < |Ranked(rs)| ==> !Less(Ranked(rs)[l], Ranked(rs)[k])
    ensures multiset(Ranked(rs)) == multiset(rs)
    ensures var o := Ranking(rs, |rs|);
            forall k, l :: 0 <= k < l < |o| ==>
              if rs[o[k]].ok && rs[o[l]].ok then rs[o[k]].rtt < rs[o[l]].rtt || (rs[o[k]].rtt == rs[o[l]].rtt && o[k] < o[l])
              else if rs[o[k]].ok == rs[o[l]].ok then o[k] < o[l]
              else rs[o[k]].ok
  {
    var order := Ranking(rs, |rs|);
    RankingIsRanking(rs, |rs|);
    forall k, l | 0 <= k < l < |order| ensures order[k] != order[l] { assert Before(rs, order[k], order[l]); }
    assert IsRanking(rs, order);
    ReorderedPermutes(rs, order);
    forall k, l | 0 <= k < l < |rs| ensures !Less(Ranked(rs)[l], Ranked(rs)[k]) { assert Before(rs, order[k], order[l]); }
    forall k, l | 0 <= k < l < |rs| ensures Before(rs, order[k], order[l]) {}
  }

  method Best(results: seq<Probed>) returns (r: Option<Probed>)
    ensures r == FirstOk(results)
  {
    for n := 0 to |results|
      invariant FirstOk(results) == FirstOk(results[n..])
    {
      if results[n].ok {
        return Some(results[n]);
      }
    }
    return None;
  }

  function FirstOk(results: seq<Probed>): Option<Probed> {
    if results == [] then None else if results[0].ok then Some(results[0]) else FirstOk(results[1..])
  }

  /** Slot `i` validated, no validating slot is nearer, and none equally near comes earlier. */
  ghost predicate Nearest(rs: seq<Probed>, i: nat) {
    && i < |rs| && rs[i].ok
    && forall j :: 0 <= j < |rs| && rs[j].ok ==> rs[i].rtt <= rs[j].rtt && (rs[j].rtt == rs[i].rtt ==> i <= j)
  }

  /** The pick is the nearest validating host, earliest in input order on a tie; there is none iff none validates. */
  lemma BestIsNearest(rs: seq<Probed>)
    ensures FirstOk(Ranked(rs)).Some? <==> exists j :: 0 <= j < |rs| && rs[j].ok
    ensures forall i: nat :: Nearest(rs, i) ==> FirstOk(Ranked(rs)) == Some(rs[i])
    ensures FirstOk(Ranked(rs)).Some? ==> exists i: nat :: Nearest(rs, i)
  {
    RankedIsStable(rs);
    if rs != [] {
      hide Ranking, Ranked;
      var order, out := Ranking(rs, |rs|), Ranked(rs);
      var i := order[0];
      forall j: nat | j < |rs| && j != i
        ensures Before(rs, i, j)
      {
        var l := PermutationCovers(order, |rs|, j);
        assert Before(rs, order[0], order[l]);
      }
      if rs[i].ok {
        forall j | 0 <= j < |rs| && rs[j].ok
          ensures rs[i].rtt <= rs[j].rtt && (rs[j].rtt == rs[i].rtt ==> i <= j)
        {
          assert j != i ==> Before(rs, i, j);
        }
        assert Nearest(rs, i) && out[0] == rs[i];
        forall k: nat | Nearest(rs, k) ensures k == i {}
      } else {
        forall j | 0 <= j < |rs| ensures !rs[j].ok { assert j != i ==> Before(rs, i, j); }
        NoneOk(out);
      }
    }
  }

  lemma {:induction false} NoneOk(results: seq<Probed>)
    requires forall j :: 0 <= j < |results| ==> !results[j].ok
    ensures FirstOk(results) == None
  {
    if results != [] { NoneOk(results[1..]); }
  }

  ghost function Collected(s: State): seq<Probed>
    requires forall j :: 0 <= j < |s.slots| ==> s.slots[j].Some?
  {
    seq(|s.slots|, j requires 0 <= j < |s.slots| => s.slots[j].value)
  }

  /** Whatever the schedule, the results and so the pick are those of probing the hosts one after the other. */
  lemma DiscoveryIsScheduleIndependent(schedule: seq<Action>, hosts: seq<string>, probe: Prober)
    requires Exec(Init(|hosts|), schedule, hosts, probe).Some?
    requires Exec(Init(|hosts|), schedule, hosts, probe).value.pc.Returned?
    ensures var s := Exec(Init(|hosts|), schedule, hosts, probe).value;
            var inOrder := seq(|hosts|, j requires 0 <= j < |hosts| => probe(j, hosts[j]));
            && (forall j :: 0 <= j < |s.slots| ==> s.slots[j].Some?)
            && Ranked(Collected(s)) == Ranked(inOrder)
            && (forall i: nat :: Nearest(inOrder, i) ==> FirstOk(Ranked(Collected(s))) == Some(probe(i, hosts[i])))
  {
    hide Exec, Ranked;
    var s := Exec(Init(|hosts|), schedule, hosts, probe).value;
    var inOrder := seq(|hosts|, j requires 0 <= j < |hosts| => probe(j, hosts[j]));
    DiscoverOnAnySchedule(schedule, hosts, probe);
    assert Collected(s) == inOrder;
    BestIsNearest(inOrder);
  }
}
