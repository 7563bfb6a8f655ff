/**
 The alert transition engine of internal/alert.

 A run compares the conditions that hold now with the persisted firing set, tries to mail every difference,
 and persists what was delivered.  Sending may fail for each key, reading and saving the set may fail for
 each run.  `Step` is one run as a function; the lemmas are about whole sequences of runs.
 */
module Alert {
  import opened Prelude

  type Firing = map<string, string>  // condition key to message

  datatype Condition = Condition(key: string, message: string)
  datatype Kind = Fired | Resolved  // the "[RDDA ALERT]" and "[RDDA RESOLVED]" subjects
  datatype Mail = Mail(kind: Kind, key: string, body: string)
  datatype Error = SendFailed(key: string) | SaveFailed

  // ---- key order ----

  /** Go compares strings bytewise, which for UTF-8 is by code point. */
  predicate Less(a: string, b: string)
    decreases |a|
  {
    b != "" && (a == "" || a[0] < b[0] || (a[0] == b[0] && Less(a[1..], b[1..])))
  }

  lemma {:induction false} LessIsTotal(a: string, b: string)
    ensures Less(a, b) || a == b || Less(b, a)
    ensures !(Less(a, b) && Less(b, a)) && !Less(a, a)
    decreases |a|
  {
    if a != "" {
      LessIsTotal(a[1..], a[1..]);
      if b != "" {
        LessIsTotal(a[1..], b[1..]);
        assert a == [a[0]] + a[1..] && b == [b[0]] + b[1..];
      }
    }
  }

  lemma {:induction false} LessIsTransitive(a: string, b: string, c: string)
    requires Less(a, b) && Less(b, c)
    ensures Less(a, c)
    decreases |a|
  {
    if a != "" && a[0] == b[0] && b[0] == c[0] { LessIsTransitive(a[1..], b[1..], c[1..]); }
  }

  ghost predicate Ascending(ks: seq<string>) {
    forall i, j :: 0 <= i < j < |ks| ==> Less(ks[i], ks[j])
  }

  ghost predicate IsSortedListOf(ks: seq<string>, s: set<string>) {
    Ascending(ks) && (forall k :: k in ks <==> k in s)
  }

  function Insert(ks: seq<string>, k: string): seq<string> {
    if ks == [] || Less(k, ks[0]) then [k] + ks else [ks[0]] + Insert(ks[1..], k)
  }

  lemma {:induction false} InsertKeepsOrder(ks: seq<string>, k: string)
    requires Ascending(ks) && k !in ks
    ensures Ascending(Insert(ks, k)) && (forall x :: x in Insert(ks, k) <==> x == k || x in ks)
  {
    var r := Insert(ks, k);
    if ks == [] {
    } else if Less(k, ks[0]) {
      forall i, j | 0 <= i < j < |r| ensures Less(r[i], r[j]) {
        if i == 0 && j > 1 { LessIsTransitive(k, ks[0], ks[j - 1]); }
      }
    } else {
      InsertKeepsOrder(ks[1..], k);
      LessIsTotal(k, ks[0]);
      forall i, j | 0 <= i < j < |r| ensures Less(r[i], r[j]) {
        if i == 0 { assert r[j] in Insert(ks[1..], k); }
      }
      assert ks == [ks[0]] + ks[1..];
    }
  }

  lemma {:induction false} SortedListIsUnique(a: seq<string>, b: seq<string>, s: set<string>)
    requires IsSortedListOf(a, s) && IsSortedListOf(b, s)
    ensures a == b
  {
    assert |a| > 0 ==> a[0] in s;
    assert |b| > 0 ==> b[0] in s;
    if a != [] {
      assert a[0] in b && b[0] in a;
      LessIsTotal(a[0], b[0]);
      assert a[0] == b[0];
      forall k ensures (k in a[1..] <==> k in s - {a[0]}) && (k in b[1..] <==> k in s - {a[0]}) {
        LessIsTotal(a[0], a[0]);
        assert (k in a <==> k == a[0] || k in a[1..]) && (k in b <==> k == b[0] || k in b[1..]);
      }
      SortedListIsUnique(a[1..], b[1..], s - {a[0]});
      assert a == [a[0]] + a[1..] && b == [b[0]] + b[1..];
    }
  }

  /** The keys in ascending order. */
  ghost function SortedList(s: set<string>): (ks: seq<string>)
    ensures IsSortedListOf(ks, s)
  {
    if s == {} then []
    else
      var k :| k in s;
      var rest := SortedList(s - {k});
      InsertKeepsOrder(rest, k);
      Insert(rest, k)
  }

  // ---- one run ----

  function KeysToFire(last: Firing, current: Firing, sends: string -> bool): set<string> {
    set k | k in current && k !in last && sends(k)
  }

  function KeysToResolve(last: Firing, current: Firing, sends: string -> bool): set<string> {
    set k | k in last && k !in current && sends(k)
  }

  /** What a run persists: current conditions already or now announced, and cleared ones not yet announced. */
  function NewSet(last: Firing, current: Firing, sends: string -> bool): Firing {
    map k | k in current.Keys + last.Keys && (if k in current then k in last || sends(k) else !sends(k)) ::
      if k in current then current[k] else last[k]
  }

  function Message(messages: Firing, k: string): string { if k in messages then messages[k] else "" }

  function Mails(kind: Kind, ks: seq<string>, messages: Firing): seq<Mail> {
    if ks == [] then []
    else Mails(kind, ks[..|ks| - 1], messages) + [Mail(kind, ks[|ks| - 1], Message(messages, ks[|ks| - 1]))]
  }

  /** What one run meets: the conditions, which sends go through, whether the file can be read and saved. */
  datatype Input = Input(current: Firing, sends: string -> bool, readOk: bool, saveOk: bool)

  datatype Sys = Sys(file: Firing, log: seq<Mail>)

  function Loaded(sys: Sys, i: Input): Firing { if i.readOk then sys.file else map[] }

  ghost function RunMails(last: Firing, i: Input): seq<Mail> {
    Mails(Fired, SortedList(KeysToFire(last, i.current, i.sends)), i.current)
    + Mails(Resolved, SortedList(KeysToResolve(last, i.current, i.sends)), last)
  }

  ghost function Step(sys: Sys, i: Input): Sys {
    var last := Loaded(sys, i);
    Sys(if i.saveOk then NewSet(last, i.current, i.sends) else sys.file, sys.log + RunMails(last, i))
  }

  const FIRST_RUN := Sys(map[], [])

  ghost function Steps(sys: Sys, inputs: seq<Input>): Sys {
    if inputs == [] then sys else Step(Steps(sys, inputs[..|inputs| - 1]), inputs[|inputs| - 1])
  }

  // ---- what one run adds to the mails of one key ----

  ghost function Trail(log: seq<Mail>, k: string): seq<Kind> {
    if log == [] then []
    else Trail(log[..|log| - 1], k) + (if log[|log| - 1].key == k then [log[|log| - 1].kind] else [])
  }

  lemma {:induction false} TrailAppend(a: seq<Mail>, b: seq<Mail>, k: string)
    ensures Trail(a + b, k) == Trail(a, k) + Trail(b, k)
  {
    if b == [] {
      assert a + b == a;
    } else {
      assert (a + b)[..|a + b| - 1] == a + b[..|b| - 1];
      TrailAppend(a, b[..|b| - 1], k);
    }
  }

  lemma LastIsNew(ks: seq<string>)
    requires Ascending(ks) && ks != []
    ensures Ascending(ks[..|ks| - 1]) && ks[|ks| - 1] !in ks[..|ks| - 1]
  {
    LessIsTotal(ks[|ks| - 1], ks[|ks| - 1]);
  }

  lemma {:induction false} TrailOfMails(kind: Kind, ks: seq<string>, messages: Firing, k: string)
    requires Ascending(ks)
    ensures Trail(Mails(kind, ks, messages), k) == if k in ks then [kind] else []
  {
    hide Ascending, Message;
    if ks != [] {
      var front, x := ks[..|ks| - 1], ks[|ks| - 1];
      LastIsNew(ks);
      assert k in ks <==> k in front || k == x;
      TrailOfMails(kind, front, messages, k);
      var m := Mail(kind, x, Message(messages, x));
      TrailAppend(Mails(kind, front, messages), [m], k);
      assert [m][..0] == [];
      assert Trail([m], k) == if x == k then [kind] else [];
    }
  }

  /** A run mails each key at most once: ALERT for a new condition, RESOLVED for a cleared one. */
  lemma TrailStep(sys: Sys, i: Input, k: string)
    ensures var last := Loaded(sys, i);
            Trail(Step(sys, i).log, k) == Trail(sys.log, k)
              + (if k in KeysToFire(last, i.current, i.sends) then [Fired] else [])
              + (if k in KeysToResolve(last, i.current, i.sends) then [Resolved] else [])
  {
    hide Trail, Mails;
    var last := Loaded(sys, i);
    var fire, resolve := SortedList(KeysToFire(last, i.current, i.sends)), SortedList(KeysToResolve(last, i.current, i.sends));
    TrailAppend(sys.log, RunMails(last, i), k);
    TrailAppend(Mails(Fired, fire, i.current), Mails(Resolved, resolve, last), k);
    TrailOfMails(Fired, fire, i.current, k);
    TrailOfMails(Resolved, resolve, last, k);
  }

  // ---- what the mails say ----

  /** The message of `k` in the last saved run in which its condition held. */
  function LastMessage(inputs: seq<Input>, k: string): Option<string> {
    if inputs == [] then None
    else
      var i := inputs[|inputs| - 1];
      if i.saveOk && k in i.current then Some(i.current[k]) else LastMessage(inputs[..|inputs| - 1], k)
  }

  /** A persisted message is the current one, or else the one that was loaded. */
  lemma PersistedMessage(sys: Sys, i: Input, k: string)
    requires i.saveOk && k in Step(sys, i).file
    ensures if k in i.current then Step(sys, i).file[k] == i.current[k]
            else k in Loaded(sys, i) && Step(sys, i).file[k] == Loaded(sys, i)[k]
  {
  }

  /** Over all runs, whatever fails: a key is persisted with the message it last had. */
  lemma {:induction false} PersistedIsLastMessage(inputs: seq<Input>, k: string)
    requires k in Steps(FIRST_RUN, inputs).file
    ensures LastMessage(inputs, k) == Some(Steps(FIRST_RUN, inputs).file[k])
  {
    if inputs != [] {
      var before, i := Steps(FIRST_RUN, inputs[..|inputs| - 1]), inputs[|inputs| - 1];
      if i.saveOk { PersistedMessage(before, i, k); }
      if !(i.saveOk && k in i.current) { PersistedIsLastMessage(inputs[..|inputs| - 1], k); }
    }
  }

  lemma {:induction false} MailsSay(kind: Kind, ks: seq<string>, messages: Firing)
    ensures |Mails(kind, ks, messages)| == |ks|
    ensures forall n :: 0 <= n < |ks| ==> Mails(kind, ks, messages)[n] == Mail(kind, ks[n], Message(messages, ks[n]))
  {
    if ks != [] { MailsSay(kind, ks[..|ks| - 1], messages); }
  }

  /**
   After any runs, what the next run mails: ALERTs with the current message before RESOLVEDs with the message
   that the condition last had, each kind in ascending key order.
   */
  lemma MailsCarryMessages(inputs: seq<Input>, i: Input)
    ensures var sys := Steps(FIRST_RUN, inputs);
            var log := Step(sys, i).log;
            && sys.log <= log
            && (forall n :: |sys.log| <= n < |log| ==>
                  if log[n].kind.Fired? then log[n].key in i.current && log[n].body == i.current[log[n].key]
                  else log[n].key !in i.current && LastMessage(inputs, log[n].key) == Some(log[n].body))
            && (forall m, n :: |sys.log| <= m < n < |log| ==>
                  if log[m].kind == log[n].kind then Less(log[m].key, log[n].key) else log[m].kind.Fired?)
  {
    hide Less, RunMails;
    var sys := Steps(FIRST_RUN, inputs);
    var last, log, from := Loaded(sys, i), Step(sys, i).log, |sys.log|;
    var r := RunMails(last, i);
    RunMailsSay(last, i);
    forall k | k in last ensures LastMessage(inputs, k) == Some(last[k]) { PersistedIsLastMessage(inputs, k); }
    assert forall n :: from <= n < |log| ==> log[n] == r[n - from];
  }

  /** The mails of one run: what they say and how they are ordered. */
  lemma RunMailsSay(last: Firing, i: Input)
    ensures var r := RunMails(last, i);
            && (forall n :: 0 <= n < |r| ==>
                  if r[n].kind.Fired? then r[n].key in i.current && r[n].body == i.current[r[n].key]
                  else r[n].key !in i.current && r[n].key in last && r[n].body == last[r[n].key])
            && (forall m, n :: 0 <= m < n < |r| ==> if r[m].kind == r[n].kind then Less(r[m].key, r[n].key) else r[m].kind.Fired?)
  {
    hide Less, Mails, SortedList;
    var fire, resolve := SortedList(KeysToFire(last, i.current, i.sends)), SortedList(KeysToResolve(last, i.current, i.sends));
    MailsSay(Fired, fire, i.current);
    MailsSay(Resolved, resolve, last);
    assert forall n :: 0 <= n < |fire| ==> fire[n] in KeysToFire(last, i.current, i.sends);
    assert forall n :: 0 <= n < |resolve| ==> resolve[n] in KeysToResolve(last, i.current, i.sends);
  }

  // ---- alternation ----

  ghost predicate Alternates(t: seq<Kind>) {
    forall i :: 0 <= i < |t| ==> t[i] == if i % 2 == 0 then Fired else Resolved
  }

  /** The key was mailed ALERT, RESOLVED, ALERT, ... and is persisted exactly when the last was an ALERT. */
  ghost predicate Agree(sys: Sys, k: string) {
    Alternates(Trail(sys.log, k)) && (k in sys.file <==> |Trail(sys.log, k)| % 2 == 1)
  }

  ghost predicate Consistent(sys: Sys) {
    forall k :: Agree(sys, k)
  }

  ghost predicate Reliable(inputs: seq<Input>) {
    forall i :: i in inputs ==> i.readOk && i.saveOk
  }

  /** Over all runs whose reads and saves work, whatever the conditions and the sends do. */
  lemma {:induction false} NotificationsAlternate(inputs: seq<Input>)
    requires Reliable(inputs)
    ensures Consistent(Steps(FIRST_RUN, inputs))
  {
    if inputs != [] {
      NotificationsAlternate(inputs[..|inputs| - 1]);
      ConsistencyKeptExactly(Steps(FIRST_RUN, inputs[..|inputs| - 1]), inputs[|inputs| - 1]);
    }
  }

  ghost predicate NothingDelivered(sys: Sys, i: Input) {
    forall k :: k !in KeysToFire(Loaded(sys, i), i.current, i.sends) && k !in KeysToResolve(Loaded(sys, i), i.current, i.sends)
  }

  /**
   One run keeps mails and persisted set in step exactly when it saved a set it had really read (an unreadable
   file is as good as an empty one), or did not save and delivered nothing.
   */
  lemma ConsistencyKeptExactly(sys: Sys, i: Input)
    requires Consistent(sys)
    ensures Consistent(Step(sys, i)) <==>
            if i.saveOk then i.readOk || sys.file == map[] else NothingDelivered(sys, i)
  {
    var next := Step(sys, i);
    forall k ensures Agree(next, k) <==> KeyKept(sys, i, k) { KeyKeptExactly(sys, i, k); }
    if i.saveOk && !i.readOk && sys.file != map[] {
      var k :| k in sys.file;
      assert !KeyKept(sys, i, k);
    }
    if !i.saveOk && !NothingDelivered(sys, i) {
      var k :| k in KeysToFire(Loaded(sys, i), i.current, i.sends) || k in KeysToResolve(Loaded(sys, i), i.current, i.sends);
      assert !KeyKept(sys, i, k);
    }
  }

  /** A run that announces one condition and cannot save that it did. */
  function UnsavedAlert(k: string, message: string): Input { Input(map[k := message], _ => true, true, false) }

  /** An alert that is delivered while the save fails is delivered again by the next run. */
  lemma UnsavedAlertIsRepeated(k: string, message: string)
    ensures var a := UnsavedAlert(k, message);
            Trail(Steps(FIRST_RUN, [a, a]).log, k) == [Fired, Fired] && !Consistent(Steps(FIRST_RUN, [a, a]))
  {
    hide Step;
    var a := UnsavedAlert(k, message);
    var once := Step(FIRST_RUN, a);
    assert [a][..0] == [] && [a, a][..1] == [a];
    assert Steps(FIRST_RUN, [a]) == once;
    assert Steps(FIRST_RUN, [a, a]) == Step(once, a);
    UnsavedRun(FIRST_RUN, a, k);
    UnsavedRun(once, a, k);
    assert Trail([], k) == [];
    assert !Agree(Step(once, a), k) by { assert [Fired, Fired][1] == Fired; }
  }

  lemma UnsavedRun(sys: Sys, a: Input, k: string)
    requires sys.file == map[] && k in a.current && a.sends(k) && !a.saveOk
    ensures Step(sys, a).file == map[] && Trail(Step(sys, a).log, k) == Trail(sys.log, k) + [Fired]
  {
    hide Trail;
    TrailStep(sys, a, k);
  }

  ghost predicate KeyKept(sys: Sys, i: Input, k: string) {
    if i.saveOk then i.readOk || k !in sys.file
    else k !in KeysToFire(Loaded(sys, i), i.current, i.sends) && k !in KeysToResolve(Loaded(sys, i), i.current, i.sends)
  }

  lemma KeyKeptExactly(sys: Sys, i: Input, k: string)
    requires Agree(sys, k)
    ensures Agree(Step(sys, i), k) <==> KeyKept(sys, i, k)
  {
    hide Trail, Less;
    var last, before, after := Loaded(sys, i), Trail(sys.log, k), Trail(Step(sys, i).log, k);
    TrailStep(sys, i, k);
    if k in KeysToFire(last, i.current, i.sends) {
      assert after == before + [Fired] && after[|before|] == Fired;
    } else if k in KeysToResolve(last, i.current, i.sends) {
      assert after == before + [Resolved] && after[|before|] == Resolved;
    } else {
      assert after == before;
    }
  }

  /** Whatever fails, in any sequence of runs: no RESOLVED is mailed for a key that was never mailed an ALERT. */
  lemma {:induction false} ResolvedNeedsAlert(inputs: seq<Input>, k: string)
    ensures var sys := Steps(FIRST_RUN, inputs);
            && (k in sys.file ==> Fired in Trail(sys.log, k))
            && (Trail(sys.log, k) != [] ==> Trail(sys.log, k)[0] == Fired)
  {
    if inputs != [] {
      var before, i := Steps(FIRST_RUN, inputs[..|inputs| - 1]), inputs[|inputs| - 1];
      ResolvedNeedsAlert(inputs[..|inputs| - 1], k);
      TrailStep(before, i, k);
    }
  }

  // ---- convergence ----

  /** The keys on which the persisted set and the current conditions differ: what is still to be announced. */
  function Pending(file: Firing, current: Firing): set<string> {
    (file.Keys - current.Keys) + (current.Keys - file.Keys)
  }

  /**
   A run attempts exactly the keys pending on the set it loaded.  After a saved run exactly those whose send failed
   stay pending; without a save the persisted set is as before, and so is everything pending on it.
   */
  lemma PendingAfterRun(sys: Sys, i: Input)
    ensures var last := Loaded(sys, i);
            && KeysToFire(last, i.current, i.sends) + KeysToResolve(last, i.current, i.sends)
               == (set k | k in Pending(last, i.current) && i.sends(k))
            && (i.saveOk ==> Pending(Step(sys, i).file, i.current) == set k | k in Pending(last, i.current) && !i.sends(k))
            && (!i.saveOk ==> Step(sys, i).file == sys.file)
  {
  }

  ghost predicate Settled(current: Firing, inputs: seq<Input>) {
    Reliable(inputs) && forall i :: i in inputs ==> i.current == current
  }

  ghost predicate SomeSendOk(inputs: seq<Input>, k: string) {
    exists i :: i in inputs && i.sends(k)
  }

  /**
   While the conditions stay the same, a pending key stays pending until a send for it goes through, is then
   mailed exactly once, and no key that was not pending is mailed at all.
   */
  lemma {:induction false} SettledRunsConverge(sys: Sys, current: Firing, inputs: seq<Input>, k: string)
    requires Settled(current, inputs)
    ensures k in Pending(Steps(sys, inputs).file, current) <==> k in Pending(sys.file, current) && !SomeSendOk(inputs, k)
    ensures Trail(Steps(sys, inputs).log, k) == Trail(sys.log, k)
              + (if k in Pending(sys.file, current) && SomeSendOk(inputs, k) then [if k in current then Fired else Resolved] else [])
  {
    hide Step, Trail;
    if inputs != [] {
      var front, i := inputs[..|inputs| - 1], inputs[|inputs| - 1];
      assert inputs == front + [i];
      assert i in inputs && forall j :: j in front ==> j in inputs;
      SettledRunsConverge(sys, current, front, k);
      SettledRun(Steps(sys, front), i, k);
      OneMoreSend(front, i, k);
    }
  }

  lemma OneMoreSend(front: seq<Input>, i: Input, k: string)
    ensures SomeSendOk(front + [i], k) <==> SomeSendOk(front, k) || i.sends(k)
  {
  }

  lemma SettledRun(sys: Sys, i: Input, k: string)
    requires i.readOk && i.saveOk
    ensures k in Pending(Step(sys, i).file, i.current) <==> k in Pending(sys.file, i.current) && !i.sends(k)
    ensures Trail(Step(sys, i).log, k) == Trail(sys.log, k)
              + (if k in Pending(sys.file, i.current) && i.sends(k) then [if k in i.current then Fired else Resolved] else [])
  {
    PendingAfterRun(sys, i);
    TrailStep(sys, i, k);
  }

  // ---- the conditions ----

  const STALE_AFTER: int := 1200000000000  // 20 minutes in nanoseconds
  const DAY: int := 86400000000000
  const UNITS: seq<string> := ["rdda-singbox", "rdda-sub", "cloudflared"]

  datatype Reach = Reach(blocked: bool, detail: string)

  /**
   What the seams report during one evaluation.  `beatAge` is None before the first beat, `lastReach` None
   when the seam is missing or has nothing, `certNotAfter` None when the probe failed.  Instants count from
   Go's zero time.  `ageText` and `certText` are the formatted age and expiry sentence.
   */
  datatype Sensors = Sensors(
    beatAge: Option<int>, ageText: string, lastReach: Option<Reach>, unitActive: string -> bool,
    certNotAfter: Option<int>, certWarnDays: int, certText: string, now: int)

  /** A Go `time.Duration` is a 64-bit count: the product with 24 hours wraps around. */
  function Wrap64(x: int): (r: int)
    ensures -0x8000_0000_0000_0000 <= r < 0x8000_0000_0000_0000 && (x - r) % 0x1_0000_0000_0000_0000 == 0
  {
    (x + 0x8000_0000_0000_0000) % 0x1_0000_0000_0000_0000 - 0x8000_0000_0000_0000
  }

  function UnitKey(u: nat): string
    requires u < 3
  {
    "unit-" + UNITS[u]
  }

  predicate BeatHolds(s: Sensors, key: string) {
    || (key == "ru-down" && (s.beatAge.None? || s.beatAge.value > STALE_AFTER))
    || (key == "ru-exit-blocked" && s.beatAge.Some? && s.beatAge.value <= STALE_AFTER && s.lastReach.Some? && s.lastReach.value.blocked)
  }

  /** One of the first `n` units is down and `key` names it. */
  predicate UnitHolds(s: Sensors, n: nat, key: string)
    requires n <= 3
  {
    exists u: nat :: u < n && key == UnitKey(u) && !s.unitActive(UNITS[u])
  }

  predicate CertHolds(s: Sensors, key: string) {
    && key == "cert-expiry" && s.certNotAfter.Some? && s.certNotAfter.value != 0
    && s.now + Wrap64(s.certWarnDays * DAY) > s.certNotAfter.value
  }

  /** For any sensible warning time: the alert is on exactly while less than that many days are left. */
  lemma CertWarnsInTime(s: Sensors)
    requires s.certNotAfter.Some? && s.certNotAfter.value != 0 && -106751 <= s.certWarnDays <= 106751
    ensures CertHolds(s, "cert-expiry") <==> s.certNotAfter.value - s.now < s.certWarnDays * 24 * 3600 * 1000000000
  {
    assert Wrap64(s.certWarnDays * DAY) == s.certWarnDays * DAY;
  }

  ghost predicate Reported(cs: seq<Condition>, key: string) {
    exists i :: 0 <= i < |cs| && cs[i].key == key
  }

  lemma ReportOne(cs: seq<Condition>, c: Condition)
    ensures forall k :: Reported(cs + [c], k) <==> Reported(cs, k) || k == c.key
  {
    forall k ensures Reported(cs + [c], k) <==> Reported(cs, k) || k == c.key {
      if Reported(cs, k) {
        var i :| 0 <= i < |cs| && cs[i].key == k;
        assert (cs + [c])[i].key == k;
      }
      assert (cs + [c])[|cs|].key == c.key;
    }
  }

  lemma KeysDiffer(s: Sensors)
    ensures |UnitKey(0)| == 17 && |UnitKey(1)| == 13 && |UnitKey(2)| == 16
    ensures forall u: nat, k :: u < 3 && (BeatHolds(s, k) || CertHolds(s, k)) ==> UnitKey(u) != k
  {
  }

  const NODE_DOWN := "RU node down — "
  const EXIT_BLOCKED := "RU exit path blocked — " + "units up but no reachability " + "through the tunnel"

  /** What the mail about a condition says. */
  function MessageOf(s: Sensors, key: string): string {
    if key == "ru-down" then
      if s.beatAge.None? then NODE_DOWN + "no health beat received yet" else NODE_DOWN + ("no health beat in " + s.ageText)
    else if key == "ru-exit-blocked" then
      var detail := if s.lastReach.Some? then s.lastReach.value.detail else "";
      EXIT_BLOCKED + (if detail != "" then " (" + detail + ")" else "")
    else if key == "cert-expiry" then s.certText
    else "EU unit " + key[if |key| < 5 then |key| else 5..] + " is not active"
  }

  /** By value: there are six conditions, and this is when each of them holds. */
  lemma SixConditions(s: Sensors)
    ensures BeatHolds(s, "ru-down") <==> s.beatAge == None || s.beatAge.value > 20 * 60 * 1000000000
    ensures BeatHolds(s, "ru-exit-blocked") <==>
              s.beatAge.Some? && s.beatAge.value <= 20 * 60 * 1000000000 && s.lastReach.Some? && s.lastReach.value.blocked
    ensures UnitHolds(s, 3, "unit-" + "rdda-singbox") <==> !s.unitActive("rdda-singbox")
    ensures UnitHolds(s, 3, "unit-" + "rdda-sub") <==> !s.unitActive("rdda-sub")
    ensures UnitHolds(s, 3, "unit-" + "cloudflared") <==> !s.unitActive("cloudflared")
    ensures forall k :: BeatHolds(s, k) ==> k == "ru-down" || k == "ru-exit-blocked"
    ensures forall k :: UnitHolds(s, 3, k) ==> k == "unit-" + "rdda-singbox" || k == "unit-" + "rdda-sub" || k == "unit-" + "cloudflared"
    ensures forall k :: CertHolds(s, k) ==> k == "cert-expiry"
  {
    assert |"ru-down"| == 7 && |"ru-exit-blocked"| == 15;
    KeysDiffer(s);
    assert UnitKey(0) == "unit-" + "rdda-singbox" && UnitKey(1) == "unit-" + "rdda-sub" && UnitKey(2) == "unit-" + "cloudflared";
  }

  /** What the operator reads about each of them. */
  lemma MessagesByValue(s: Sensors)
    ensures s.beatAge == None ==> MessageOf(s, "ru-down") == "RU node down — " + "no health beat received yet"
    ensures s.beatAge.Some? ==> MessageOf(s, "ru-down") == "RU node down — " + ("no health beat in " + s.ageText)
    ensures MessageOf(s, "cert-expiry") == s.certText
  {
    assert "cert-expiry"[0] == 'c' && "ru-down"[0] == 'r' && "ru-exit-blocked"[0] == 'r';
  }

  lemma BlockedMessageByValue(s: Sensors)
    requires s.lastReach.Some? && s.lastReach.value.detail != ""
    ensures MessageOf(s, "ru-exit-blocked") ==
            "RU exit path blocked — " + "units up but no reachability " + "through the tunnel" + (" (" + s.lastReach.value.detail + ")")
  {
    assert |"ru-down"| == 7 && |"ru-exit-blocked"| == 15;
  }

  lemma UnitMessageByValue(s: Sensors, unit: string)
    ensures MessageOf(s, "unit-" + unit) == "EU unit " + unit + " is not active"
  {
    var key := "unit-" + unit;
    assert key[0] == 'u' && |"unit-"| == 5 && key[5..] == unit;
  }

  lemma MessageOfUnit(s: Sensors, u: nat)
    requires u < 3
    ensures MessageOf(s, UnitKey(u)) == "EU unit " + UNITS[u] + " is not active"
  {
    hide MessageOf;
    UnitMessageByValue(s, UNITS[u]);
  }

  /** The conditions in evaluation order: each key that holds, once, with its message, and no other. */
  method Evaluate(s: Sensors) returns (cs: seq<Condition>)
    ensures forall k :: Reported(cs, k) <==> BeatHolds(s, k) || UnitHolds(s, 3, k) || CertHolds(s, k)
    ensures forall i, j :: 0 <= i < j < |cs| ==> cs[i].key != cs[j].key
    ensures forall i :: 0 <= i < |cs| ==> cs[i].message == MessageOf(s, cs[i].key)
  {
    KeysDiffer(s);
    cs := EvaluateBeat(s);
    for u := 0 to 3
      invariant forall k :: Reported(cs, k) <==> BeatHolds(s, k) || UnitHolds(s, u, k)
      invariant forall i, j :: 0 <= i < j < |cs| ==> cs[i].key != cs[j].key
      invariant forall i :: 0 <= i < |cs| ==> cs[i].message == MessageOf(s, cs[i].key)
    {
      hide MessageOf;
      if !s.unitActive(UNITS[u]) {
        var c := Condition(UnitKey(u), "EU unit " + UNITS[u] + " is not active");
        MessageOfUnit(s, u);
        ReportOne(cs, c);
        assert !Reported(cs, c.key);
        cs := cs + [c];
      }
    }
    if s.certNotAfter.Some? && s.certNotAfter.value != 0 {
      if s.now + Wrap64(s.certWarnDays * DAY) > s.certNotAfter.value {
        var c := Condition("cert-expiry", s.certText);
        ReportOne(cs, c);
        assert !Reported(cs, c.key);
        cs := cs + [c];
      }
    }
  }

  /** The first switch of `Evaluate`: the node is down, or up but blocked, or fine. */
  method EvaluateBeat(s: Sensors) returns (cs: seq<Condition>)
    ensures |cs| <= 1 && (|cs| == 1 ==> cs[0].message == MessageOf(s, cs[0].key))
    ensures forall k :: Reported(cs, k) <==> BeatHolds(s, k)
  {
    cs := [];
    assert |"ru-down"| == 7 && |"ru-exit-blocked"| == 15;
    if s.beatAge.None? {
      cs := [Condition("ru-down", NODE_DOWN + "no health beat received yet")];
    } else if s.beatAge.value > STALE_AFTER {
      cs := [Condition("ru-down", NODE_DOWN + ("no health beat in " + s.ageText))];
    } else if s.lastReach.Some? && s.lastReach.value.blocked {
      var msg := EXIT_BLOCKED;
      if s.lastReach.value.detail != "" {
        msg := msg + (" (" + s.lastReach.value.detail + ")");
      }
      cs := [Condition("ru-exit-blocked", msg)];
    }
    assert |cs| > 0 ==> cs[0].key == "ru-down" || cs[0].key == "ru-exit-blocked";
  }

  // ---- the code ----

  /** The error of the first attempt, in attempt order, that failed. */
  function FirstFailure(ks: seq<string>): Option<Error> {
    if ks == [] then None else Some(SendFailed(ks[0]))
  }

  function UnsentAlerts(last: Firing, current: Firing, sends: string -> bool): set<string> {
    set k | k in current && k !in last && !sends(k)
  }

  function UnsentResolves(last: Firing, current: Firing, sends: string -> bool): set<string> {
    set k | k in last && k !in current && !sends(k)
  }

  /** The first failed ALERT, else the first failed RESOLVED, else the failed save. */
  ghost function RunError(last: Firing, i: Input): Option<Error> {
    var alerts := FirstFailure(SortedList(UnsentAlerts(last, i.current, i.sends)));
    var resolves := FirstFailure(SortedList(UnsentResolves(last, i.current, i.sends)));
    if alerts.Some? then alerts else if resolves.Some? then resolves else if i.saveOk then None else Some(SaveFailed)
  }

  /**
   A run reports no error exactly when every pending key was announced and the set was saved; otherwise the error
   names the first failure: the least unannounced key among the alerts, else among the resolved, else the save.
   */
  lemma RunErrorIsFirst(sys: Sys, i: Input)
    ensures var last := Loaded(sys, i);
            var err := RunError(last, i);
            && (err == None <==> i.saveOk && forall k :: k in Pending(last, i.current) ==> i.sends(k))
            && (err == Some(SaveFailed) ==> !i.saveOk && forall k :: k in Pending(last, i.current) ==> i.sends(k))
            && (err.Some? && err.value.SendFailed? ==>
                  var k := err.value.key;
                  && k in Pending(last, i.current) && !i.sends(k)
                  && forall j :: j in Pending(last, i.current) && !i.sends(j) && j != k ==>
                       if j in i.current <==> k in i.current then Less(k, j) else k in i.current)
  {
    hide Less;
    var last := Loaded(sys, i);
    var alerts, resolves := UnsentAlerts(last, i.current, i.sends), UnsentResolves(last, i.current, i.sends);
    var fire, resolve := SortedList(alerts), SortedList(resolves);
    HeadIsLeast(fire, alerts);
    HeadIsLeast(resolve, resolves);
    hide IsSortedListOf, SortedList;
    forall k ensures k in alerts + resolves <==> k in Pending(last, i.current) && !i.sends(k) {}
    if fire == [] && resolve == [] {
      forall k | k in Pending(last, i.current) ensures i.sends(k) { assert k !in alerts + resolves; }
    }
  }

  lemma HeadIsLeast(ks: seq<string>, s: set<string>)
    requires IsSortedListOf(ks, s)
    ensures ks == [] <==> s == {}
    ensures ks != [] ==> ks[0] in s && forall k :: k in s && k != ks[0] ==> Less(ks[0], k)
  {
    hide Less;
    if ks == [] {
      forall k ensures k !in s { assert k in ks <==> k in s; }
    } else {
      assert ks[0] in ks;
    }
    forall k | k in s && ks != [] && k != ks[0] ensures Less(ks[0], k) {
      assert k in ks;
      var n :| 0 <= n < |ks| && ks[n] == k;
    }
  }

  function Keep(ks: seq<string>, p: string -> bool): seq<string> {
    if ks == [] then []
    else Keep(ks[..|ks| - 1], p) + (if p(ks[|ks| - 1]) then [ks[|ks| - 1]] else [])
  }

  lemma KeepSorted(ks: seq<string>, s: set<string>, p: string -> bool, kept: set<string>)
    requires IsSortedListOf(ks, s) && (forall k :: k in kept <==> k in s && p(k))
    ensures Keep(ks, p) == SortedList(kept)
  {
    KeepAscends(ks, p);
    SortedListIsUnique(Keep(ks, p), SortedList(kept), kept);
  }

  /** `base` with the messages of the listed keys that satisfy `p` added. */
  function Add(base: Firing, ks: seq<string>, p: string -> bool, messages: Firing): Firing {
    if ks == [] then base
    else
      var front, k := Add(base, ks[..|ks| - 1], p, messages), ks[|ks| - 1];
      if p(k) then front[k := Message(messages, k)] else front
  }

  lemma {:induction false} Added(base: Firing, ks: seq<string>, p: string -> bool, messages: Firing)
    requires forall k :: k in ks ==> k in messages
    ensures Add(base, ks, p, messages) == base + map k | k in messages && k in ks && p(k) :: messages[k]
  {
    if ks != [] {
      var front, k := ks[..|ks| - 1], ks[|ks| - 1];
      assert ks == front + [k];
      Added(base, front, p, messages);
    }
  }

  function FirstUnsent(err: Option<Error>, ks: seq<string>, p: string -> bool): Option<Error> {
    if ks == [] then err
    else
      var front, k := FirstUnsent(err, ks[..|ks| - 1], p), ks[|ks| - 1];
      if front.None? && p(k) then Some(SendFailed(k)) else front
  }

  lemma FirstUnsentOneMore(err: Option<Error>, ks: seq<string>, n: nat, p: string -> bool)
    requires n < |ks|
    ensures var front := FirstUnsent(err, ks[..n], p);
            FirstUnsent(err, ks[..n + 1], p) == if front.None? && p(ks[n]) then Some(SendFailed(ks[n])) else front
  {
    assert ks[..n + 1][..n] == ks[..n];
  }

  lemma {:induction false} FirstUnsentIsFirstKept(err: Option<Error>, ks: seq<string>, p: string -> bool)
    ensures FirstUnsent(err, ks, p) == if err.Some? then err else FirstFailure(Keep(ks, p))
  {
    if ks != [] { FirstUnsentIsFirstKept(err, ks[..|ks| - 1], p); }
  }

  function StillFiring(last: Firing, now: Firing, sends: string -> bool): Firing {
    map k | k in now && (k in last || sends(k)) :: now[k]
  }

  function StillUnresolved(last: Firing, now: Firing, sends: string -> bool): Firing {
    map k | k in last && k !in now && !sends(k) :: last[k]
  }

  lemma AddedFiring(ks: seq<string>, last: Firing, now: Firing, sends: string -> bool, persists: string -> bool)
    requires IsSortedListOf(ks, now.Keys) && forall k :: persists(k) == (k in last || sends(k))
    ensures Add(map[], ks, persists, now) == StillFiring(last, now, sends)
  {
    hide Less, Ascending, Add;
    Added(map[], ks, persists, now);
    var added := map k | k in now && k in ks && persists(k) :: now[k];
    assert map[] + added == added && added == StillFiring(last, now, sends);
  }

  lemma AddedUnresolved(ks: seq<string>, last: Firing, now: Firing, sends: string -> bool, newSet: Firing, unsent: string -> bool)
    requires IsSortedListOf(ks, last.Keys) && forall k :: unsent(k) == (k !in now && !sends(k))
    ensures Add(newSet, ks, unsent, last) == newSet + StillUnresolved(last, now, sends)
  {
    hide Less, Ascending, Add;
    Added(newSet, ks, unsent, last);
    assert (map k | k in last && k in ks && unsent(k) :: last[k]) == StillUnresolved(last, now, sends);
  }

  /** What the first loop of a run ends with, in the terms of `Step`. */
  lemma KeptAlerts(ks: seq<string>, last: Firing, now: Firing, sends: string -> bool,
                   isNew: string -> bool, unsent: string -> bool, persists: string -> bool)
    requires IsSortedListOf(ks, now.Keys)
    requires forall k :: isNew(k) == (k !in last && sends(k)) && unsent(k) == (k !in last && !sends(k))
    requires forall k :: persists(k) == (k in last || sends(k))
    ensures Keep(ks, isNew) == SortedList(KeysToFire(last, now, sends))
    ensures FirstUnsent(None, ks, unsent) == FirstFailure(SortedList(UnsentAlerts(last, now, sends)))
    ensures Add(map[], ks, persists, now) == StillFiring(last, now, sends)
  {
    hide Less, Ascending, Keep, Add, FirstUnsent, StillFiring, StillUnresolved;
    KeepSorted(ks, now.Keys, isNew, KeysToFire(last, now, sends));
    KeepSorted(ks, now.Keys, unsent, UnsentAlerts(last, now, sends));
    FirstUnsentIsFirstKept(None, ks, unsent);
    AddedFiring(ks, last, now, sends, persists);
  }

  /** The same for the second loop. */
  lemma KeptResolves(ks: seq<string>, last: Firing, now: Firing, sends: string -> bool, newSet: Firing, err: Option<Error>,
                     isGone: string -> bool, unsent: string -> bool)
    requires IsSortedListOf(ks, last.Keys)
    requires forall k :: isGone(k) == (k !in now && sends(k)) && unsent(k) == (k !in now && !sends(k))
    ensures Keep(ks, isGone) == SortedList(KeysToResolve(last, now, sends))
    ensures FirstUnsent(err, ks, unsent)
         == if err.Some? then err else FirstFailure(SortedList(UnsentResolves(last, now, sends)))
    ensures Add(newSet, ks, unsent, last) == newSet + StillUnresolved(last, now, sends)
  {
    hide Less, Ascending, Keep, Add, FirstUnsent, StillFiring, StillUnresolved;
    KeepSorted(ks, last.Keys, isGone, KeysToResolve(last, now, sends));
    KeepSorted(ks, last.Keys, unsent, UnsentResolves(last, now, sends));
    FirstUnsentIsFirstKept(err, ks, unsent);
    AddedUnresolved(ks, last, now, sends, newSet, unsent);
  }

  lemma NoKeysYet()
    ensures forall p :: Keep([], p) == []
    ensures forall kind, messages :: Mails(kind, [], messages) == []
    ensures forall err, p :: FirstUnsent(err, [], p) == err
    ensures forall base, p, messages :: Add(base, [], p, messages) == base
  {
  }

  lemma KeepOneMore(ks: seq<string>, n: nat, p: string -> bool)
    requires n < |ks|
    ensures Keep(ks[..n + 1], p) == Keep(ks[..n], p) + (if p(ks[n]) then [ks[n]] else [])
  {
    assert ks[..n + 1][..n] == ks[..n];
  }

  lemma AddOneMore(base: Firing, ks: seq<string>, n: nat, p: string -> bool, messages: Firing)
    requires n < |ks| && ks[n] in messages
    ensures Add(base, ks[..n + 1], p, messages)
         == if p(ks[n]) then Add(base, ks[..n], p, messages)[ks[n] := messages[ks[n]]] else Add(base, ks[..n], p, messages)
  {
    assert ks[..n + 1][..n] == ks[..n];
  }

  lemma MailsOneMore(log: seq<Mail>, kind: Kind, ks: seq<string>, k: string, messages: Firing)
    requires k in messages
    ensures log + Mails(kind, ks + [k], messages) == log + Mails(kind, ks, messages) + [Mail(kind, k, messages[k])]
  {
  }

  lemma NewSetSplits(last: Firing, now: Firing, sends: string -> bool)
    ensures NewSet(last, now, sends) == StillFiring(last, now, sends) + StillUnresolved(last, now, sends)
  {
  }

  lemma {:induction false} KeepAscends(ks: seq<string>, p: string -> bool)
    requires Ascending(ks)
    ensures Ascending(Keep(ks, p)) && forall k :: k in Keep(ks, p) <==> k in ks && p(k)
  {
    if ks != [] {
      var front, x, r := ks[..|ks| - 1], ks[|ks| - 1], Keep(ks, p);
      KeepAscends(front, p);
      assert ks == front + [x];
      forall i, j | 0 <= i < j < |r| ensures Less(r[i], r[j]) {
        assert r[i] in Keep(front, p);
      }
    }
  }

  method SortedKeys(m: Firing) returns (ks: seq<string>)
    ensures ks == SortedList(m.Keys) && IsSortedListOf(ks, m.Keys)
    ensures forall n :: 0 <= n < |ks| ==> ks[n] in m
  {
    ks := [];
    var todo := m.Keys;
    while todo != {}
      invariant todo <= m.Keys && IsSortedListOf(ks, m.Keys - todo)
      decreases todo
    {
      var k :| k in todo;
      InsertKeepsOrder(ks, k);
      ks, todo := Insert(ks, k), todo - {k};
    }
    assert m.Keys - todo == m.Keys;
    SortedListIsUnique(ks, SortedList(m.Keys), m.Keys);
  }

  class Engine {
    const enabled: bool
    const email: string
    var file: Firing  // alert-state.json; empty when missing
    ghost var log: seq<Mail>  // every mail that was delivered

    constructor (enabled: bool, email: string)
      ensures this.enabled == enabled && this.email == email && Abs() == FIRST_RUN
    {
      this.enabled, this.email, file, log := enabled, email, map[], [];
    }

    ghost function Abs(): Sys
      reads this
    {
      Sys(file, log)
    }

    /** One run; `current` is what the evaluation found. */
    method Run(sensors: Sensors, sends: string -> bool, readOk: bool, saveOk: bool)
      returns (fired: seq<string>, resolved: seq<string>, err: Option<Error>, ghost current: Firing)
      modifies this
      ensures !enabled || email == "" ==> unchanged(this) && fired == [] && resolved == [] && err.None?
      ensures enabled && email != "" ==>
                && (forall k :: k in current <==> BeatHolds(sensors, k) || UnitHolds(sensors, 3, k) || CertHolds(sensors, k))
                && (forall k :: k in current ==> current[k] == MessageOf(sensors, k))
                && var i, last := Input(current, sends, readOk, saveOk), Loaded(old(Abs()), Input(current, sends, readOk, saveOk));
                   && Abs() == Step(old(Abs()), i)
                   && fired == SortedList(KeysToFire(last, current, sends))
                   && resolved == SortedList(KeysToResolve(last, current, sends))
                   && err == RunError(last, i)
    {
      hide Trail, Keep, SortedList, NewSet, Mails, StillFiring, StillUnresolved, MessageOf;
      current, fired, resolved, err := map[], [], [], None;
      if !enabled || email == "" {
        return;
      }
      var last := if readOk then file else map[];
      var cs := Evaluate(sensors);
      var now := CurrentSet(cs);
      current := now;
      var newSet: Firing;
      newSet, fired, err := FireNew(last, now, sends);
      newSet, resolved, err := ResolveCleared(last, now, sends, newSet, err);
      if saveOk {
        file := newSet;
      } else if err.None? {
        err := Some(SaveFailed);
      }
      NewSetSplits(last, now, sends);
    }

    /** The first loop of `Run`: announce the current conditions that the last run did not know. */
    method FireNew(last: Firing, now: Firing, sends: string -> bool)
      returns (newSet: Firing, fired: seq<string>, err: Option<Error>)
      modifies this`log
      ensures newSet == StillFiring(last, now, sends)
      ensures fired == SortedList(KeysToFire(last, now, sends))
      ensures log == old(log) + Mails(Fired, fired, now)
      ensures err == FirstFailure(SortedList(UnsentAlerts(last, now, sends)))
    {
      hide IsSortedListOf, Keep, Mails, Add, FirstUnsent, FirstFailure, StillFiring, StillUnresolved, KeysToFire, KeysToResolve, UnsentAlerts, UnsentResolves, SortedList;
      newSet, fired, err := map[], [], None;
      NoKeysYet();
      ghost var isNew, unsent, persists := k => k !in last && sends(k), k => k !in last && !sends(k), k => k in last || sends(k);
      var ks := SortedKeys(now);
      for n := 0 to |ks|
        invariant newSet == Add(map[], ks[..n], persists, now)
        invariant fired == Keep(ks[..n], isNew)
        invariant log == old(log) + Mails(Fired, fired, now)
        invariant err == FirstUnsent(None, ks[..n], unsent)
      {
        var k := ks[n];
        KeepOneMore(ks, n, isNew);
        FirstUnsentOneMore(None, ks, n, unsent);
        AddOneMore(map[], ks, n, persists, now);
        if k in last {
          newSet := newSet[k := now[k]];
        } else if !sends(k) {
          if err.None? { err := Some(SendFailed(k)); }
        } else {
          MailsOneMore(old(log), Fired, fired, k, now);
          log := log + [Mail(Fired, k, now[k])];
          newSet := newSet[k := now[k]];
          fired := fired + [k];
        }
      }
      assert ks[..|ks|] == ks;
      KeptAlerts(ks, last, now, sends, isNew, unsent, persists);
    }

    /** The second loop of `Run`: announce that conditions of the last run have cleared. */
    method ResolveCleared(last: Firing, now: Firing, sends: string -> bool, newSet0: Firing, err0: Option<Error>)
      returns (newSet: Firing, resolved: seq<string>, err: Option<Error>)
      modifies this`log
      ensures newSet == newSet0 + StillUnresolved(last, now, sends)
      ensures resolved == SortedList(KeysToResolve(last, now, sends))
      ensures log == old(log) + Mails(Resolved, resolved, last)
      ensures err == if err0.Some? then err0 else FirstFailure(SortedList(UnsentResolves(last, now, sends)))
    {
      hide IsSortedListOf, Keep, Mails, Add, FirstUnsent, FirstFailure, StillFiring, StillUnresolved, KeysToFire, KeysToResolve, UnsentAlerts, UnsentResolves, SortedList;
      newSet, resolved, err := newSet0, [], err0;
      NoKeysYet();
      ghost var isGone, unsent := k => k !in now && sends(k), k => k !in now && !sends(k);
      var ks := SortedKeys(last);
      for n := 0 to |ks|
        invariant newSet == Add(newSet0, ks[..n], unsent, last)
        invariant resolved == Keep(ks[..n], isGone)
        invariant log == old(log) + Mails(Resolved, resolved, last)
        invariant err == FirstUnsent(err0, ks[..n], unsent)
      {
        var k := ks[n];
        KeepOneMore(ks, n, isGone);
        FirstUnsentOneMore(err0, ks, n, unsent);
        AddOneMore(newSet0, ks, n, unsent, last);
        if k in now {
        } else if !sends(k) {
          if err.None? { err := Some(SendFailed(k)); }
          newSet := newSet[k := last[k]];
        } else {
          MailsOneMore(old(log), Resolved, resolved, k, last);
          log := log + [Mail(Resolved, k, last[k])];
          resolved := resolved + [k];
        }
      }
      assert ks[..|ks|] == ks;
      KeptResolves(ks, last, now, sends, newSet0, err0, isGone, unsent);
    }
  }

  method CurrentSet(cs: seq<Condition>) returns (current: Firing)
    requires forall i, j :: 0 <= i < j < |cs| ==> cs[i].key != cs[j].key
    ensures forall k :: k in current <==> Reported(cs, k)
    ensures forall i :: 0 <= i < |cs| ==> cs[i].key in current && current[cs[i].key] == cs[i].message
  {
    current := map[];
    for n := 0 to |cs|
      invariant forall k :: k in current <==> exists i :: 0 <= i < n && cs[i].key == k
      invariant forall i :: 0 <= i < n ==> cs[i].key in current && current[cs[i].key] == cs[i].message
    {
      current := current[cs[n].key := cs[n].message];
    }
  }
}
