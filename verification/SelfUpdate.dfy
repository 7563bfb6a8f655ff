/**
 The self-update transaction of internal/selfupdate.

 Every system call may fail; `Faults` says which do, and what the new binary and systemd answer.  A write goes
 through every partial content on its way, a rename is atomic; `seen` lists each disk state that ever existed,
 so a crash can leave any of them behind.  `events` records what was asked of the new binary and of systemd.

 The functions give states, events and error of each operation from the disk, the release and the faults.  The
 class at the end is the code itself, tied to them; the lemmas in between are about the functions.
 */
module SelfUpdate {
  import opened Prelude
  import Text

  type Bytes = seq<bv8>

  datatype File = File(bytes: Bytes, exec: bool)  // exec: world-executable, mode 0755
  datatype Path = Bin | Prev | New
  datatype Disk = Disk(bin: Option<File>, prev: Option<File>, next: Option<File>)

  function Get(d: Disk, p: Path): Option<File> {
    match p case Bin => d.bin case Prev => d.prev case New => d.next
  }

  function Set(d: Disk, p: Path, f: Option<File>): Disk {
    match p case Bin => d.(bin := f) case Prev => d.(prev := f) case New => d.(next := f)
  }

  ghost predicate Holds(f: Option<File>, b: Bytes) { f.Some? && f.value.bytes == b }

  datatype Event = SelfChecked(output: Option<string>) | UnitKnown(known: bool) | Restarted(ok: bool) | Polled(active: bool) | Slept

  datatype SwapStep = WriteStep | RenameStep | ChmodStep
  datatype RestoreError = NoPrevious | CannotRead | CannotSwap(step: SwapStep) | CannotRestart
  datatype Cause = SelfCheckFailed | RestartFailed | NotActive

  datatype Error =
    | ResolveFailed | KeyFailed | FetchFailed | BadSignature | NoChecksum | ChecksumMismatch | ReadFailed | BackupFailed
    | SwapFailed(step: SwapStep)
    | RolledBack(cause: Cause)
    | RollbackFailed(cause: Cause, why: RestoreError)

  // ---- the checksum file ----

  /** The digest on the first line that names the file, or "". */
  function FirstSum(lines: seq<string>, filename: string): string {
    if lines == [] then ""
    else
      var f := Text.Fields(lines[0]);
      if |f| == 2 && f[1] == filename then f[0] else FirstSum(lines[1..], filename)
  }

  ghost predicate Lists(line: string, filename: string) {
    |Text.Fields(line)| == 2 && Text.Fields(line)[1] == filename
  }

  /** The digest is on the first line `n` of exactly two fields, the second of them the name; "" if there is none. */
  lemma {:induction false} FirstSumIsOnFirstLine(lines: seq<string>, filename: string) returns (n: nat)
    ensures n <= |lines| && forall m :: 0 <= m < n ==> !Lists(lines[m], filename)
    ensures if n == |lines| then FirstSum(lines, filename) == ""
            else Lists(lines[n], filename) && FirstSum(lines, filename) == Text.Fields(lines[n])[0]
  {
    hide Text.Fields;
    if lines == [] || Lists(lines[0], filename) {
      n := 0;
    } else {
      n := FirstSumIsOnFirstLine(lines[1..], filename);
      n := n + 1;
    }
  }

  method SumFor(sums: string, filename: string) returns (sum: string)
    ensures sum == FirstSum(Text.SplitOn(sums, '\n'), filename)
  {
    var lines := Text.SplitOn(sums, '\n');
    for n := 0 to |lines|
      invariant FirstSum(lines, filename) == FirstSum(lines[n..], filename)
    {
      var f := Text.Fields(lines[n]);
      if |f| == 2 && f[1] == filename {
        return f[0];
      }
    }
    return "";
  }

  datatype Entry = Entry(hex: string, name: string)

  /** A SHA256SUMS file as sha256sum writes it: digest, two spaces, name, one line each. */
  function SumsFile(entries: seq<Entry>): string {
    if entries == [] then "" else entries[0].hex + "  " + entries[0].name + "\n" + SumsFile(entries[1..])
  }

  function FirstEntry(entries: seq<Entry>, name: string): string {
    if entries == [] then "" else if entries[0].name == name then entries[0].hex else FirstEntry(entries[1..], name)
  }

  /** What the release wrote down for a file is what the updater reads back. */
  lemma {:induction false} SumForReadsSumsFile(entries: seq<Entry>, name: string)
    requires forall e :: e in entries ==> Text.Solid(e.hex) && Text.Solid(e.name)
    ensures FirstSum(Text.SplitOn(SumsFile(entries), '\n'), name) == FirstEntry(entries, name)
  {
    if entries != [] {
      hide Text.Fields, Text.SplitOn, Text.IsSpace;
      var e, rest := entries[0], SumsFile(entries[1..]);
      var line := e.hex + "  " + e.name;
      NoBreak(e);
      Text.SplitFirst(line, '\n', rest);
      assert SumsFile(entries) == line + ['\n'] + rest;
      FieldsOfLine(e);
      assert ([line] + Text.SplitOn(rest, '\n'))[1..] == Text.SplitOn(rest, '\n');
      SumForReadsSumsFile(entries[1..], name);
    } else {
      assert Text.SplitOn("", '\n') == [""];
      assert Text.Fields("") == [];
    }
  }

  lemma NoBreak(e: Entry)
    requires Text.Solid(e.hex) && Text.Solid(e.name)
    ensures '\n' !in e.hex + "  " + e.name
  {
  }

  lemma FieldsOfLine(e: Entry)
    requires Text.Solid(e.hex) && Text.Solid(e.name)
    ensures Text.Fields(e.hex + "  " + e.name) == [e.hex, e.name]
  {
    Text.TwoFields(e.hex, "  ", e.name);
  }

  // ---- what the outside world answers ----

  datatype Fetched = Fetched(bin: Bytes, sums: string, sig: string)

  /** The release as this run sees it: the tag, the signing key, the download, and the two checks on it. */
  datatype World = World(
    tag: Option<string>, keyLoads: bool, fetched: Option<Fetched>,
    verifies: (string, string) -> bool, sha256hex: Bytes -> string)

  /** Hexadecimal digests are compared case-insensitively. */
  predicate EqualFold(a: string, b: string) { Text.ToLower(a) == Text.ToLower(b) }

  ghost function ListedSum(f: Fetched, arch: string): string {
    FirstSum(Text.SplitOn(f.sums, '\n'), "rdda-linux-" + arch)
  }

  /** A key is embedded, the checksum file carries its signature, and it lists the digest of these bytes. */
  ghost predicate Genuine(w: World, arch: string) {
    && w.keyLoads && w.fetched.Some?
    && w.verifies(w.fetched.value.sums, w.fetched.value.sig)
    && ListedSum(w.fetched.value, arch) != ""
    && EqualFold(w.sha256hex(w.fetched.value.bin), ListedSum(w.fetched.value, arch))
  }

  ghost predicate Refused(e: Error) {
    e.ResolveFailed? || e.KeyFailed? || e.FetchFailed? || e.BadSignature? || e.NoChecksum? || e.ChecksumMismatch?
  }

  /** Why a run that wants to install refuses to, checked in this order. */
  ghost function Gate(w: World, arch: string): (e: Option<Error>)
    ensures e == None <==> w.tag.Some? && Genuine(w, arch)
    ensures e.Some? ==> Refused(e.value)
  {
    if w.tag.None? then Some(ResolveFailed)
    else if !w.keyLoads then Some(KeyFailed)
    else if w.fetched.None? then Some(FetchFailed)
    else if !w.verifies(w.fetched.value.sums, w.fetched.value.sig) then Some(BadSignature)
    else if ListedSum(w.fetched.value, arch) == "" then Some(NoChecksum)
    else if !EqualFold(w.sha256hex(w.fetched.value.bin), ListedSum(w.fetched.value, arch)) then Some(ChecksumMismatch)
    else None
  }

  /** The live file is the old bytes, or genuine new bytes with the old ones kept beside it. */
  ghost predicate Safe(d: Disk, was: Bytes, w: World, arch: string) {
    || Holds(d.bin, was)
    || (Genuine(w, arch) && Holds(d.bin, w.fetched.value.bin) && Holds(d.prev, was))
  }

  // ---- which calls fail, and what is answered ----

  /** One write: the file may not open, the write may stop after some bytes, and it may fail even at the end. */
  datatype WriteFault = WriteFault(open: bool, stop: Option<nat>, close: bool, umaskKeepsExec: bool)

  /** One write beside the live file and rename over it; `remove` is the removal of the temporary file. */
  datatype SwapFaults = SwapFaults(write: WriteFault, rename: bool, chmod: bool, remove: bool)

  /** One rollback: its calls, whether systemd knows the unit, and whether the restart fails. */
  datatype RollbackFaults = RollbackFaults(stat: bool, read: bool, swap: SwapFaults, unit: bool, restart: bool)

  /** One update: its calls, what the new binary prints, and what systemd answers before and during a rollback. */
  datatype Faults = Faults(
    read: bool, backup: WriteFault, swap: SwapFaults,
    version: Option<string>, unit: bool, restart: bool, active: nat -> bool, rollback: RollbackFaults)

  // ---- one write and one swap ----

  /** The disk after going through the given states. */
  function End(d: Disk, seen: seq<Disk>): Disk { if seen == [] then d else seen[|seen| - 1] }

  predicate WriteOk(b: Bytes, f: WriteFault) {
    !f.open && !f.close && (f.stop.Some? ==> |b| <= f.stop.value)
  }

  function Written(b: Bytes, f: WriteFault): (n: nat)
    ensures n <= |b|
  {
    if f.stop.Some? && f.stop.value < |b| then f.stop.value else |b|
  }

  /** The file at `p` while its first `n` bytes are written. */
  function Growing(d: Disk, p: Path, b: Bytes, exec: bool, n: nat): (seen: seq<Disk>)
    requires n <= |b|
    ensures |seen| == n + 1 && forall i :: 0 <= i <= n ==> seen[i] == Set(d, p, Some(File(b[..i], exec)))
  {
    if n == 0 then [Set(d, p, Some(File([], exec)))]
    else Growing(d, p, b, exec, n - 1) + [Set(d, p, Some(File(b[..n], exec)))]
  }

  /** An existing file keeps its mode. */
  function WriteMode(d: Disk, p: Path, f: WriteFault): bool {
    if Get(d, p).Some? then Get(d, p).value.exec else f.umaskKeepsExec
  }

  function WriteStates(d: Disk, p: Path, b: Bytes, f: WriteFault): seq<Disk> {
    if f.open then [] else Growing(d, p, b, WriteMode(d, p, f), Written(b, f))
  }

  function SwapError(b: Bytes, f: SwapFaults): Option<SwapStep> {
    if !WriteOk(b, f.write) then Some(WriteStep)
    else if f.rename then Some(RenameStep)
    else if f.chmod then Some(ChmodStep)
    else None
  }

  function SwapStates(d: Disk, b: Bytes, f: SwapFaults): seq<Disk> {
    var write := WriteStates(d, New, b, f.write);
    var wrote := End(d, write);
    if !WriteOk(b, f.write) || f.rename then write + (if f.remove then [] else [wrote.(next := None)])
    else
      var renamed := wrote.(bin := wrote.next, next := None);
      write + [renamed] + (if f.chmod then [] else [renamed.(bin := Some(File(b, true)))])
  }

  /** The swap gets past its rename: the bytes are live, whatever the chmod says. */
  predicate Renames(b: Bytes, f: SwapFaults) { WriteOk(b, f.write) && !f.rename }

  lemma WriteTouchesOneFile(d: Disk, p: Path, b: Bytes, f: WriteFault)
    ensures var seen := WriteStates(d, p, b, f);
            && (forall s, q :: s in seen + [End(d, seen)] && q != p ==> Get(s, q) == Get(d, q))
            && (WriteOk(b, f) ==> Get(End(d, seen), p) == Some(File(b, WriteMode(d, p, f))))
  {
    assert b[..|b|] == b;
  }

  /**
   At every moment of a swap the live file is the old one or holds all the new bytes, and the backup is not
   touched.  The new bytes end up live exactly when the rename is reached and works.
   */
  lemma SwapIsAtomic(d: Disk, b: Bytes, f: SwapFaults)
    ensures var seen := SwapStates(d, b, f);
            && (forall s :: s in seen + [End(d, seen)] ==> s.prev == d.prev && (s.bin == d.bin || Holds(s.bin, b)))
            && var e := End(d, seen);
               && (if Renames(b, f) then Holds(e.bin, b) && e.next == None else e.bin == d.bin)
               && (SwapError(b, f) == None ==> e.bin == Some(File(b, true)))
               && (SwapError(b, f) == Some(ChmodStep) ==>
                     e.bin == Some(File(b, if d.next.Some? then d.next.value.exec else f.write.umaskKeepsExec)))
               && (!f.remove ==> e.next == None)
  {
    hide WriteStates;
    var write := WriteStates(d, New, b, f.write);
    WriteTouchesOneFile(d, New, b, f.write);
    forall s | s in write + [End(d, write)] ensures s.bin == d.bin && s.prev == d.prev {
      assert Get(s, Bin) == Get(d, Bin) && Get(s, Prev) == Get(d, Prev);
    }
  }

  // ---- waiting and proving ----

  function PollsFailed(n: nat): seq<Event> {
    if n == 0 then [] else PollsFailed(n - 1) + [Polled(false), Slept]
  }

  /** The first of the polls `i..5` that sees the unit active, or 5. */
  function FirstActive(active: nat -> bool, i: nat): (n: nat)
    requires i <= 5
    ensures i <= n <= 5 && (forall m :: i <= m < n ==> !active(m)) && (n < 5 ==> active(n))
    decreases 5 - i
  {
    if i == 5 || active(i) then i else FirstActive(active, i + 1)
  }

  function WaitEvents(active: nat -> bool): seq<Event> {
    var n := FirstActive(active, 0);
    PollsFailed(n) + if n < 5 then [Polled(true)] else []
  }

  function Verdict(to: string, f: Faults): Option<Cause> {
    if f.version != Some(to) then Some(SelfCheckFailed)
    else if !f.unit then None
    else if f.restart then Some(RestartFailed)
    else if FirstActive(f.active, 0) == 5 then Some(NotActive)
    else None
  }

  function ProofEvents(to: string, f: Faults): seq<Event> {
    [SelfChecked(f.version)]
    + if f.version != Some(to) then [] else if !f.unit then [UnitKnown(false)]
      else [UnitKnown(true), Restarted(!f.restart)] + if f.restart then [] else WaitEvents(f.active)
  }

  /** The new binary prints its tag, and the service is not on this node or comes up again within five polls. */
  ghost predicate Works(to: string, f: Faults) {
    && f.version == Some(to)
    && (f.unit ==> !f.restart && exists n :: 0 <= n < 5 && f.active(n))
  }

  /** At most five polls, a second apart, the last of which saw the unit active. */
  ghost predicate SeenActive(events: seq<Event>) {
    exists n: nat :: n < 5 && events == PollsFailed(n) + [Polled(true)]
  }

  /** What a successful update asked and was told. */
  ghost predicate Proven(to: string, events: seq<Event>) {
    || events == [SelfChecked(Some(to)), UnitKnown(false)]
    || exists polls :: events == [SelfChecked(Some(to)), UnitKnown(true), Restarted(true)] + polls && SeenActive(polls)
  }

  /** The proof is found exactly when the new binary works; otherwise its events name the cause. */
  lemma VerdictIsExact(to: string, f: Faults)
    ensures Verdict(to, f) == None <==> Works(to, f)
    ensures Verdict(to, f) == None ==> Proven(to, ProofEvents(to, f))
    ensures Verdict(to, f).Some? ==> Provoked(Verdict(to, f).value, to, ProofEvents(to, f))
  {
    var n := FirstActive(f.active, 0);
    if n < 5 {
      assert SeenActive(WaitEvents(f.active));
      assert [SelfChecked(f.version)] + ([UnitKnown(true), Restarted(true)] + WaitEvents(f.active))
          == [SelfChecked(f.version), UnitKnown(true), Restarted(true)] + WaitEvents(f.active);
    } else {
      assert PollsFailed(5) + [] == PollsFailed(5);
    }
  }

  /** What was asked before a rollback for each cause. */
  ghost predicate Provoked(cause: Cause, to: string, events: seq<Event>) {
    match cause
    case SelfCheckFailed => |events| == 1 && events[0].SelfChecked? && events[0].output != Some(to)
    case RestartFailed => events == [SelfChecked(Some(to)), UnitKnown(true), Restarted(false)]
    case NotActive => events == [SelfChecked(Some(to)), UnitKnown(true), Restarted(true)] + PollsFailed(5)
  }

  // ---- the operations ----

  datatype Outcome<+E> = Outcome(err: Option<E>, seen: seq<Disk>, events: seq<Event>)

  /** Puts the previous binary back and restarts the service that runs it. */
  function RollingBack(d: Disk, f: RollbackFaults): Outcome<RestoreError> {
    if f.read || d.prev.None? then Outcome(Some(CannotRead), [], [])
    else
      var b := d.prev.value.bytes;
      var seen, step := SwapStates(d, b, f.swap), SwapError(b, f.swap);
      if step.Some? then Outcome(Some(CannotSwap(step.value)), seen, [])
      else if !f.unit then Outcome(None, seen, [UnitKnown(false)])
      else Outcome(if f.restart then Some(CannotRestart) else None, seen, [UnitKnown(true), Restarted(!f.restart)])
  }

  /** The operator's rollback, which first looks for a previous binary. */
  function ManualRollback(d: Disk, f: RollbackFaults): Outcome<RestoreError> {
    if f.stat || d.prev.None? then Outcome(Some(NoPrevious), [], []) else RollingBack(d, f)
  }

  function Reverted(cause: Cause, why: Option<RestoreError>): Error {
    if why.None? then RolledBack(cause) else RollbackFailed(cause, why.value)
  }

  /** Swap, prove, and revert if the proof fails. */
  function Swapping(d: Disk, bin: Bytes, to: string, f: Faults): Outcome<Error> {
    var swap, step, cause := SwapStates(d, bin, f.swap), SwapError(bin, f.swap), Verdict(to, f);
    if step.Some? then Outcome(Some(SwapFailed(step.value)), swap, [])
    else if cause.None? then Outcome(None, swap, ProofEvents(to, f))
    else
      var undo := RollingBack(End(d, swap), f.rollback);
      Outcome(Some(Reverted(cause.value, undo.err)), swap + undo.seen, ProofEvents(to, f) + undo.events)
  }

  /** Back up, then swap. */
  function Installing(d: Disk, bin: Bytes, was: Bytes, to: string, f: Faults): Outcome<Error> {
    var backup := WriteStates(d, Prev, was, f.backup);
    if !WriteOk(was, f.backup) then Outcome(Some(BackupFailed), backup, [])
    else
      var rest := Swapping(End(d, backup), bin, to, f);
      rest.(seen := backup + rest.seen)
  }

  /** A run on the binary of version `current`: its error, the disk states it goes through, and what it asks. */
  ghost function Updating(current: string, arch: string, d: Disk, w: World, f: Faults): Outcome<Error> {
    if w.tag == Some(current) then Outcome(None, [], [])
    else if Gate(w, arch).Some? then Outcome(Gate(w, arch), [], [])
    else if f.read || d.bin.None? then Outcome(Some(ReadFailed), [], [])
    else Installing(d, w.fetched.value.bin, d.bin.value.bytes, w.tag.value, f)
  }

  // ---- what a rollback does ----

  /** The rollback gets past its rename. */
  predicate Restores(was: Bytes, f: RollbackFaults) { !f.read && Renames(was, f.swap) }

  predicate RestartsFine(f: RollbackFaults) { f.unit ==> !f.restart }

  /** What a rollback asked of systemd, by how it ended. */
  ghost predicate RestoreEvents(err: Option<RestoreError>, events: seq<Event>) {
    match err
    case None => events == [UnitKnown(false)] || events == [UnitKnown(true), Restarted(true)]
    case Some(CannotRestart) => events == [UnitKnown(true), Restarted(false)]
    case Some(_) => events == []
  }

  /**
   A rollback never touches the previous binary, and at every moment the live file is the old one or the complete
   previous one.  The latter is live in the end exactly when the rename is reached and works.
   */
  lemma RollbackRestores(d: Disk, was: Bytes, f: RollbackFaults)
    requires Holds(d.prev, was)
    ensures var r := RollingBack(d, f);
            && (forall s :: s in r.seen + [End(d, r.seen)] ==> s.prev == d.prev && (s.bin == d.bin || Holds(s.bin, was)))
            && (r.err == None <==> Restores(was, f) && !f.swap.chmod && RestartsFine(f))
            && (r.err == Some(CannotRead) <==> f.read)
            && (r.err.Some? && r.err.value.CannotSwap? && !r.err.value.step.ChmodStep? <==> !f.read && !Renames(was, f.swap))
            && (r.err == Some(CannotSwap(ChmodStep)) <==> Restores(was, f) && f.swap.chmod)
            && RestoreEvents(r.err, r.events)
            && var e := End(d, r.seen);
               && (if Restores(was, f) then Holds(e.bin, was) && e.next == None else e.bin == d.bin)
               && (r.err == None ==> e.bin == Some(File(was, true)))
               && (!f.swap.remove && d.next == None ==> e.next == None)
  {
    hide SwapStates;
    SwapIsAtomic(d, was, f.swap);
  }

  // ---- what an update does ----

  /** Without a previous binary a manual rollback does nothing at all; with one it is a rollback. */
  lemma RollbackNeedsPrevious(d: Disk, f: RollbackFaults)
    ensures var r := ManualRollback(d, f);
            && (r.err == Some(NoPrevious) <==> f.stat || d.prev == None)
            && (r.err == Some(NoPrevious) ==> r.seen == [] && r.events == [])
            && (r.err != Some(NoPrevious) ==> r == RollingBack(d, f))
  {
    hide SwapStates;
  }

  /** Every state while genuine bytes are installed is safe, wherever it crashes. */
  lemma InstallIsSafe(d: Disk, bin: Bytes, was: Bytes, to: string, f: Faults)
    requires Holds(d.bin, was)
    ensures forall s :: s in Installing(d, bin, was, to, f).seen ==> Holds(s.bin, was) || (Holds(s.bin, bin) && Holds(s.prev, was))
  {
    hide WriteStates, SwapStates, RollingBack, ProofEvents, Verdict, SwapError;
    var backup := WriteStates(d, Prev, was, f.backup);
    var d1 := End(d, backup);
    WriteTouchesOneFile(d, Prev, was, f.backup);
    forall s | s in backup + [d1] ensures s.bin == d.bin { assert Get(s, Bin) == Get(d, Bin); }
    if WriteOk(was, f.backup) {
      assert Holds(d1.prev, was);
      SwapIsAtomic(d1, bin, f.swap);
      RollbackRestores(End(d1, SwapStates(d1, bin, f.swap)), was, f.rollback);
    }
  }

  /** Every state that an update goes through is safe, under any faults: a crash can leave nothing else. */
  lemma UpdateIsSafe(current: string, arch: string, d: Disk, w: World, f: Faults)
    requires d.bin.Some?
    ensures forall s :: s in Updating(current, arch, d, w, f).seen ==> Safe(s, d.bin.value.bytes, w, arch)
  {
    hide Installing;
    if Gate(w, arch) == None { InstallIsSafe(d, w.fetched.value.bin, d.bin.value.bytes, w.tag.value, f); }
  }

  /** There is something genuine to install, and the live file can be read and backed up. */
  ghost predicate ReachesSwap(current: string, arch: string, d: Disk, w: World, f: Faults) {
    && w.tag.Some? && w.tag.value != current && Genuine(w, arch)
    && !f.read && d.bin.Some? && WriteOk(d.bin.value.bytes, f.backup)
  }

  /** How a swap ends after a backup. */
  lemma SwapOutcome(d: Disk, bin: Bytes, was: Bytes, to: string, f: Faults)
    requires Holds(d.bin, was) && Holds(d.prev, was)
    ensures var r := Swapping(d, bin, to, f);
            var e, back := End(d, r.seen), SwapError(bin, f.swap) == None && !Works(to, f);
            && e.prev == d.prev
            && Holds(e.bin, if Renames(bin, f.swap) && !(back && Restores(was, f.rollback)) then bin else was)
            && (r.err == None <==> SwapError(bin, f.swap) == None && Works(to, f))
            && (r.err.Some? && r.err.value.RolledBack? <==>
                  back && Restores(was, f.rollback) && !f.rollback.swap.chmod && RestartsFine(f.rollback))
            && (r.err == Some(SwapFailed(ChmodStep)) <==> Renames(bin, f.swap) && f.swap.chmod)
            && (r.err == None ==> e.bin == Some(File(bin, true)))
            && (r.err.Some? && r.err.value.RolledBack? ==> e.bin == Some(File(was, true)))
            && (!f.swap.remove && !f.rollback.swap.remove ==> e.next == None)
            && (r.err.Some? ==> r.err.value.SwapFailed? || r.err.value.RolledBack? || r.err.value.RollbackFailed?)
            && Explains(r.err, to, r.events)
  {
    hide SwapStates, RollingBack, ProofEvents, Verdict, Works, WriteOk, Proven, Provoked, RestoreEvents, Restores, RestartsFine;
    var swap := SwapStates(d, bin, f.swap);
    SwapIsAtomic(d, bin, f.swap);
    VerdictIsExact(to, f);
    RollbackRestores(End(d, swap), was, f.rollback);
    EndOfBoth(d, swap, RollingBack(End(d, swap), f.rollback).seen);
  }

  ghost predicate ProvokedThenRestored(cause: Cause, to: string, err: Option<RestoreError>, events: seq<Event>) {
    exists a, b :: events == a + b && Provoked(cause, to, a) && RestoreEvents(err, b)
  }

  /** The events that each outcome of an update that reached the swap stands for. */
  ghost predicate Explains(err: Option<Error>, to: string, events: seq<Event>) {
    match err
    case None => Proven(to, events)
    case Some(RolledBack(cause)) => ProvokedThenRestored(cause, to, None, events)
    case Some(RollbackFailed(cause, why)) => ProvokedThenRestored(cause, to, Some(why), events)
    case Some(_) => events == []
  }

  /** An update that does not reach the swap leaves the live file alone and asks nothing. */
  lemma UpdateRefuses(current: string, arch: string, d: Disk, w: World, f: Faults)
    requires !ReachesSwap(current, arch, d, w, f)
    ensures var r := Updating(current, arch, d, w, f);
            && (r.err == None <==> w.tag == Some(current))
            && (r.err != Some(BackupFailed) ==> r.seen == [])
            && End(d, r.seen).bin == d.bin && End(d, r.seen).next == d.next && r.events == []
            && (w.tag != Some(current) && w.tag.Some? && Genuine(w, arch) ==>
                  r.err == Some(if f.read || d.bin == None then ReadFailed else BackupFailed))
  {
    hide WriteStates, Swapping, Genuine;
    if w.tag != Some(current) && Gate(w, arch) == None && !f.read && d.bin.Some? {
      var was := d.bin.value.bytes;
      var e := End(d, WriteStates(d, Prev, was, f.backup));
      WriteTouchesOneFile(d, Prev, was, f.backup);
      assert Get(e, Bin) == Get(d, Bin) && Get(e, New) == Get(d, New);
    }
  }

  /** Nothing about a binary whose checksum file is not signed can get it installed, nor any release without a key. */
  lemma UnsignedIsRefused(current: string, arch: string, d: Disk, w: World, f: Faults)
    requires w.tag.Some? && w.tag.value != current
    ensures var r := Updating(current, arch, d, w, f);
            && (!w.keyLoads ==> r == Outcome(Some(KeyFailed), [], []))
            && (w.keyLoads && w.fetched.None? ==> r == Outcome(Some(FetchFailed), [], []))
            && (w.keyLoads && w.fetched.Some? && !w.verifies(w.fetched.value.sums, w.fetched.value.sig) ==>
                  r == Outcome(Some(BadSignature), [], []))
  {
    hide Installing, FirstSum, Text.SplitOn, EqualFold;
  }

  /** One character that differs in more than its case, or a different length, tells two digests apart. */
  lemma EqualFoldIsExact(a: string, b: string)
    ensures EqualFold(a, b) <==> |a| == |b| && forall i :: 0 <= i < |a| ==> Text.SameLetter(a[i], b[i])
  {
    Text.ToLowerForgetsCase(a, b);
  }

  /** A release whose digest is not the listed one is refused, whatever is signed; no file is touched. */
  lemma WrongDigestIsRefused(current: string, arch: string, d: Disk, w: World, f: Faults)
    requires w.tag.Some? && w.tag.value != current && w.fetched.Some?
    requires var got, listed := w.sha256hex(w.fetched.value.bin), ListedSum(w.fetched.value, arch);
             |got| != |listed| || exists i :: 0 <= i < |got| && !Text.SameLetter(got[i], listed[i])
    ensures !Genuine(w, arch)
    ensures var r := Updating(current, arch, d, w, f);
            && r.err.Some? && r.seen == [] && r.events == []
            && (w.keyLoads && w.verifies(w.fetched.value.sums, w.fetched.value.sig) ==>
                  r.err == Some(if ListedSum(w.fetched.value, arch) == "" then NoChecksum else ChecksumMismatch))
  {
    hide Installing, FirstSum, Text.SplitOn, EqualFold;
    EqualFoldIsExact(w.sha256hex(w.fetched.value.bin), ListedSum(w.fetched.value, arch));
  }

  /** An update that reaches the swap: which bytes are live in the end, when it succeeds and when it rolls back. */
  lemma UpdateOutcome(current: string, arch: string, d: Disk, w: World, f: Faults)
    requires ReachesSwap(current, arch, d, w, f)
    ensures var r := Updating(current, arch, d, w, f);
            var e, bin, was, works := End(d, r.seen), w.fetched.value.bin, d.bin.value.bytes, Works(w.tag.value, f);
            var back := Renames(bin, f.swap) && !f.swap.chmod && !works && Restores(was, f.rollback);
            && Holds(e.prev, was)
            && Holds(e.bin, if Renames(bin, f.swap) && !back then bin else was)
            && (r.err == None <==> Renames(bin, f.swap) && !f.swap.chmod && works)
            && (r.err.Some? && r.err.value.RolledBack? <==> back && !f.rollback.swap.chmod && RestartsFine(f.rollback))
            && (r.err == Some(SwapFailed(ChmodStep)) <==> Renames(bin, f.swap) && f.swap.chmod)
            && (r.err == None || r.err.value.RolledBack? ==> e.bin.value.exec)
            && (!f.swap.remove && !f.rollback.swap.remove ==> e.next == None)
            && (r.err.Some? ==> r.err.value.SwapFailed? || r.err.value.RolledBack? || r.err.value.RollbackFailed?)
            && Explains(r.err, w.tag.value, r.events)
  {
    hide Gate, Swapping, WriteStates, Works, Explains, Restores, RestartsFine;
    var bin, was := w.fetched.value.bin, d.bin.value.bytes;
    var backup := WriteStates(d, Prev, was, f.backup);
    var d1 := End(d, backup);
    WriteTouchesOneFile(d, Prev, was, f.backup);
    assert Get(d1, Bin) == Get(d, Bin) && Get(d1, Prev).Some?;
    SwapOutcome(d1, bin, was, w.tag.value, f);
    EndOfBoth(d, backup, Swapping(d1, bin, w.tag.value, f).seen);
  }

  /** When an update succeeds: it was up to date, or everything up to the last poll goes well. */
  lemma UpdateSucceedsExactly(current: string, arch: string, d: Disk, w: World, f: Faults)
    ensures Updating(current, arch, d, w, f).err == None <==>
            || w.tag == Some(current)
            || (ReachesSwap(current, arch, d, w, f) && Renames(w.fetched.value.bin, f.swap) && !f.swap.chmod && Works(w.tag.value, f))
  {
    hide Genuine, Updating, Works, Explains;
    if ReachesSwap(current, arch, d, w, f) { UpdateOutcome(current, arch, d, w, f); } else { UpdateRefuses(current, arch, d, w, f); }
  }

  /**
   The new bytes get past their rename, and then the chmod fails, or they do not work and the rollback does not
   get past its own rename.
   */
  ghost predicate Stranded(current: string, arch: string, d: Disk, w: World, f: Faults) {
    && ReachesSwap(current, arch, d, w, f) && w.fetched.value.bin != d.bin.value.bytes
    && Renames(w.fetched.value.bin, f.swap)
    && (f.swap.chmod || (!Works(w.tag.value, f) && !Restores(d.bin.value.bytes, f.rollback)))
  }

  /** An update leaves the old binary live or one that was proven to work, exactly unless it is stranded. */
  lemma UpdateLeavesOldOrProven(current: string, arch: string, d: Disk, w: World, f: Faults)
    requires d.bin.Some?
    ensures var r := Updating(current, arch, d, w, f);
            Holds(End(d, r.seen).bin, d.bin.value.bytes) || (w.tag.Some? && Proven(w.tag.value, r.events)) <==>
            !Stranded(current, arch, d, w, f)
  {
    hide Genuine, Updating, Works, Explains, Proven, Restores, RestartsFine;
    if ReachesSwap(current, arch, d, w, f) {
      var r := Updating(current, arch, d, w, f);
      UpdateOutcome(current, arch, d, w, f);
      OnlySuccessIsProven(r.err, w.tag.value, r.events);
    } else {
      UpdateRefuses(current, arch, d, w, f);
    }
  }

  /** The events tell success from every failure. */
  lemma OnlySuccessIsProven(err: Option<Error>, to: string, events: seq<Event>)
    requires Explains(err, to, events)
    ensures Proven(to, events) <==> err == None
  {
    if err.Some? && Proven(to, events) {
      assert events != [] && (|events| == 2 || events[|events| - 1] == Polled(true));
      match err.value
      case RolledBack(cause) => RollbackIsNotProof(cause, to, None, events);
      case RollbackFailed(cause, why) => RollbackIsNotProof(cause, to, Some(why), events);
      case _ =>
    }
  }

  lemma RollbackIsNotProof(cause: Cause, to: string, err: Option<RestoreError>, events: seq<Event>)
    requires ProvokedThenRestored(cause, to, err, events)
    ensures |events| > 0 && events[|events| - 1] != Polled(true)
    ensures |events| == 2 ==> events[0] != SelfChecked(Some(to))
  {
    var a, b :| events == a + b && Provoked(cause, to, a) && RestoreEvents(err, b);
    if b == [] { assert events == a; }
  }

  lemma EndOfBoth(d: Disk, a: seq<Disk>, b: seq<Disk>)
    ensures End(d, a + b) == End(End(d, a), b)
  {
  }

  // ---- the promise that fails ----

  const FINE := WriteFault(false, None, false, true)
  const OLD_DISK := Disk(Some(File([1], true)), None, None)

  /** Nothing goes wrong but the chmod of the new live file. */
  function OnlyChmodFails(): Faults {
    Faults(false, FINE, SwapFaults(FINE, false, true, false), Some("v2"), true, false, n => true,
           RollbackFaults(false, false, SwapFaults(FINE, false, false, false), true, false))
  }

  function SmallRelease(): World {
    World(Some("v2"), true, Some(Fetched([2], SumsFile([Entry("aa", "rdda-linux-" + "amd64")]), "sig")), (sums, sig) => true, b => "aa")
  }

  /** After a failed chmod the new binary is live without ever having been run. */
  lemma ChmodFailureLeavesUnprovenBinary()
    ensures var r := Updating("v1", "amd64", OLD_DISK, SmallRelease(), OnlyChmodFails());
            && r.err == Some(SwapFailed(ChmodStep)) && r.events == []
            && End(OLD_DISK, r.seen) == Disk(Some(File([2], true)), Some(File([1], true)), None)
  {
    hide Genuine, Gate, Installing;
    SmallReleaseIsGenuine();
    ChmodFailsInstalling();
  }

  lemma OneEntry(hex: string, name: string)
    ensures FirstEntry([Entry(hex, name)], name) == hex
  {
  }

  lemma SmallReleaseIsGenuine()
    ensures Genuine(SmallRelease(), "amd64")
  {
    hide Text.Fields, Text.SplitOn, SumsFile, FirstEntry, Text.ToLower;
    var name := "rdda-linux-" + "amd64";
    var entries := [Entry("aa", name)];
    assert Text.Solid(name) by { assert forall c :: c in name ==> '-' <= c <= 'z'; }
    SumForReadsSumsFile(entries, name);
    assert FirstEntry(entries, name) == "aa" by { OneEntry("aa", name); }
  }

  lemma ChmodFailsInstalling()
    ensures var r := Installing(OLD_DISK, [2], [1], "v2", OnlyChmodFails());
            && r.err == Some(SwapFailed(ChmodStep)) && r.events == []
            && End(OLD_DISK, r.seen) == Disk(Some(File([2], true)), Some(File([1], true)), None)
  {
    hide WriteStates;
    var f := OnlyChmodFails();
    var d := End(OLD_DISK, WriteStates(OLD_DISK, Prev, [1], FINE));
    WriteTouchesOneFile(OLD_DISK, Prev, [1], FINE);
    assert Get(d, Bin) == Get(OLD_DISK, Bin) && Get(d, New) == Get(OLD_DISK, New) && Get(d, Prev) == Some(File([1], true));
    var e := End(d, WriteStates(d, New, [2], FINE));
    WriteTouchesOneFile(d, New, [2], FINE);
    assert Get(e, Prev) == Get(d, Prev) && Get(e, New) == Some(File([2], true));
  }

  // ---- an update and its rollback ----

  /**
   After any update that got past its backup, successful or not, a manual rollback is safe at every step, puts the
   old bytes back exactly when it gets past its rename, and changes nothing live otherwise.
   */
  lemma UpdateThenRollback(current: string, arch: string, d: Disk, w: World, f: Faults, g: RollbackFaults)
    requires ReachesSwap(current, arch, d, w, f)
    ensures var was, e := d.bin.value.bytes, End(d, Updating(current, arch, d, w, f).seen);
            var r := ManualRollback(e, g);
            && (forall s :: s in r.seen ==> Safe(s, was, w, arch) && Holds(s.prev, was))
            && (if !g.stat && Restores(was, g) then Holds(End(e, r.seen).bin, was) else End(e, r.seen).bin == e.bin)
            && (r.err == None <==> !g.stat && Restores(was, g) && !g.swap.chmod && RestartsFine(g))
  {
    hide Genuine, Updating, RollingBack, Works, Explains, Restores, RestartsFine;
    var e := End(d, Updating(current, arch, d, w, f).seen);
    UpdateOutcome(current, arch, d, w, f);
    RollbackRestores(e, d.bin.value.bytes, g);
  }

  // ---- many runs, each of which may crash ----

  /** One attempt at an update: what it met, and the disk it left when it ended or crashed. */
  datatype Attempt = Attempt(current: string, w: World, f: Faults, left: Disk)

  function DiskBefore(start: Disk, attempts: seq<Attempt>, i: nat): Disk
    requires i < |attempts|
  {
    if i == 0 then start else attempts[i - 1].left
  }

  /** What an attempt that started from `before` can leave: the disk as it was, or any state on the way. */
  ghost predicate CanLeave(before: Disk, a: Attempt, arch: string) {
    a.left in [before] + Updating(a.current, arch, before, a.w, a.f).seen
  }

  ghost predicate Possible(start: Disk, attempts: seq<Attempt>, arch: string) {
    forall i: nat :: i < |attempts| ==> CanLeave(DiskBefore(start, attempts, i), attempts[i], arch)
  }

  /** The release of this attempt is genuine and its bytes are live on `d`. */
  ghost predicate Runs(d: Disk, a: Attempt, arch: string) {
    Genuine(a.w, arch) && Holds(d.bin, a.w.fetched.value.bin)
  }

  /** An attempt leaves the bytes it found live, or its own genuine ones. */
  lemma AttemptLeaves(before: Disk, a: Attempt, arch: string)
    requires before.bin.Some? && CanLeave(before, a, arch)
    ensures Holds(a.left.bin, before.bin.value.bytes) || Runs(a.left, a, arch)
  {
    hide Genuine, Updating;
    UpdateIsSafe(a.current, arch, before, a.w, a.f);
  }

  /** Over any number of updates, crashed or not, the live file is complete: the first one, or some genuine release. */
  lemma {:induction false} LiveIsOriginalOrGenuine(start: Disk, attempts: seq<Attempt>, arch: string, original: Bytes, n: nat)
    requires Holds(start.bin, original) && Possible(start, attempts, arch) && n < |attempts|
    ensures var d := attempts[n].left;
            Holds(d.bin, original) || exists i: nat :: i <= n && Runs(d, attempts[i], arch)
  {
    hide Genuine, CanLeave;
    var before, last := DiskBefore(start, attempts, n), attempts[n];
    assert CanLeave(before, last, arch);
    if n > 0 {
      LiveIsOriginalOrGenuine(start, attempts, arch, original, n - 1);
      if !Holds(before.bin, original) {
        var i: nat :| i <= n - 1 && Runs(before, attempts[i], arch);
        AttemptLeaves(before, last, arch);
        assert Runs(last.left, last, arch) || Runs(last.left, attempts[i], arch);
        return;
      }
    }
    AttemptLeaves(before, last, arch);
  }

  // ---- the code ----

  class Node {
    const arch: string
    const current: string
    var disk: Disk
    ghost var seen: seq<Disk>
    ghost var events: seq<Event>

    constructor (arch: string, current: string, disk: Disk)
      ensures this.arch == arch && this.current == current && this.disk == disk && seen == [disk] && events == []
    {
      this.arch, this.current, this.disk, seen, events := arch, current, disk, [disk], [];
    }

    /** From `d`, with `s` and `e` on record, the node went through these states and asked these things. */
    ghost predicate Went(d: Disk, s: seq<Disk>, e: seq<Event>, states: seq<Disk>, asked: seq<Event>)
      reads this
    {
      disk == End(d, states) && seen == s + states && events == e + asked
    }

    // -- system calls --

    method Put(d: Disk)
      modifies this`disk, this`seen
      ensures Went(old(disk), old(seen), old(events), [d], [])
    {
      disk := d;
      seen := seen + [d];
    }

    /** Creates or truncates the file, then writes it bit by bit. */
    method WriteFile(p: Path, b: Bytes, f: WriteFault) returns (ok: bool)
      modifies this`disk, this`seen
      ensures ok == WriteOk(b, f) && Went(old(disk), old(seen), old(events), WriteStates(old(disk), p, b, f), [])
    {
      if f.open {
        return false;
      }
      var exec := if Get(disk, p).Some? then Get(disk, p).value.exec else f.umaskKeepsExec;
      Put(Set(disk, p, Some(File([], exec))));
      for n := 0 to |b|
        invariant disk == Set(old(disk), p, Some(File(b[..n], exec)))
        invariant seen == old(seen) + Growing(old(disk), p, b, exec, n)
        invariant f.stop.Some? ==> n <= f.stop.value
      {
        if f.stop == Some(n) {
          return false;
        }
        Put(Set(disk, p, Some(File(b[..n + 1], exec))));
      }
      ok := !f.close;
    }

    method RemoveNew(f: SwapFaults)
      modifies this`disk, this`seen
      ensures Went(old(disk), old(seen), old(events), if f.remove then [] else [old(disk).(next := None)], [])
    {
      if !f.remove {
        Put(disk.(next := None));
      }
    }

    method Ask(e: Event)
      modifies this`events
      ensures Went(old(disk), old(seen), old(events), [], [e])
    {
      events := events + [e];
    }

    // -- the updater --

    /** True if one of at most five polls sees the unit active. */
    method WaitActive(active: nat -> bool) returns (ok: bool)
      modifies this`events
      ensures ok <==> exists n :: 0 <= n < 5 && active(n)
      ensures Went(old(disk), old(seen), old(events), [], WaitEvents(active))
    {
      for i := 0 to 5
        invariant events == old(events) + PollsFailed(i)
        invariant FirstActive(active, 0) == FirstActive(active, i)
      {
        Ask(Polled(active(i)));
        if active(i) {
          return true;
        }
        Ask(Slept);
      }
      return false;
    }

    /** Writes the bytes beside the live file, renames them over it and makes the live file executable. */
    method WriteBin(b: Bytes, f: SwapFaults) returns (failed: Option<SwapStep>)
      modifies this`disk, this`seen
      ensures failed == SwapError(b, f) && Went(old(disk), old(seen), old(events), SwapStates(old(disk), b, f), [])
    {
      var ok := WriteFile(New, b, f.write);
      if !ok {
        RemoveNew(f);
        return Some(WriteStep);
      }
      if f.rename {
        RemoveNew(f);
        return Some(RenameStep);
      }
      WriteTouchesOneFile(old(disk), New, b, f.write);
      Put(disk.(bin := disk.next, next := None));
      if f.chmod {
        return Some(ChmodStep);
      }
      Put(disk.(bin := Some(disk.bin.value.(exec := true))));
      return None;
    }

    method RestoreBin(f: RollbackFaults) returns (failed: Option<RestoreError>)
      modifies this`disk, this`seen
      ensures if f.read || old(disk).prev.None? then failed == Some(CannotRead) && Went(old(disk), old(seen), old(events), [], [])
              else
                var b := old(disk).prev.value.bytes;
                && failed == (if SwapError(b, f.swap).None? then None else Some(CannotSwap(SwapError(b, f.swap).value)))
                && Went(old(disk), old(seen), old(events), SwapStates(old(disk), b, f.swap), [])
    {
      if f.read || disk.prev.None? {
        return Some(CannotRead);
      }
      var step := WriteBin(disk.prev.value.bytes, f.swap);
      failed := if step.None? then None else Some(CannotSwap(step.value));
    }

    /** Puts the previous binary back and restarts the service that runs it. */
    method RollbackNow(f: RollbackFaults) returns (failed: Option<RestoreError>)
      modifies this`disk, this`seen, this`events
      ensures var r := RollingBack(old(disk), f);
              failed == r.err && Went(old(disk), old(seen), old(events), r.seen, r.events)
    {
      hide SwapStates, SwapError;
      failed := RestoreBin(f);
      if failed.Some? {
        return;
      }
      Ask(UnitKnown(f.unit));
      if f.unit {
        Ask(Restarted(!f.restart));
        failed := if f.restart then Some(CannotRestart) else None;
      }
    }

    method Rollback(f: RollbackFaults) returns (failed: Option<RestoreError>)
      modifies this`disk, this`seen, this`events
      ensures var r := ManualRollback(old(disk), f);
              failed == r.err && Went(old(disk), old(seen), old(events), r.seen, r.events)
    {
      hide RollingBack;
      if f.stat || disk.prev.None? {
        return Some(NoPrevious);
      }
      failed := RollbackNow(f);
    }

    method Revert(cause: Cause, f: RollbackFaults) returns (err: Error)
      modifies this`disk, this`seen, this`events
      ensures var r := RollingBack(old(disk), f);
              err == Reverted(cause, r.err) && Went(old(disk), old(seen), old(events), r.seen, r.events)
    {
      hide RollingBack;
      var failed := RollbackNow(f);
      err := if failed.Some? then RollbackFailed(cause, failed.value) else RolledBack(cause);
    }

    /** Resolves, verifies and installs the latest release. */
    method Update(w: World, f: Faults) returns (from: string, to: string, err: Option<Error>)
      modifies this`disk, this`seen, this`events
      ensures from == current && to == (if w.tag.Some? then w.tag.value else "")
      ensures var r := Updating(current, arch, old(disk), w, f);
              err == r.err && Went(old(disk), old(seen), old(events), r.seen, r.events)
      ensures old(disk).bin.Some? ==>
                forall s :: s in seen[|old(seen)|..] ==> Safe(s, old(disk).bin.value.bytes, w, arch)
    {
      hide Installing;
      if old(disk).bin.Some? { UpdateIsSafe(current, arch, old(disk), w, f); }
      from, to, err := current, "", None;
      if w.tag.None? {
        return from, to, Some(ResolveFailed);
      }
      to := w.tag.value;
      if to == current {
        return;
      }
      if !w.keyLoads {
        return from, to, Some(KeyFailed);
      }
      if w.fetched.None? {
        return from, to, Some(FetchFailed);
      }
      var release := w.fetched.value;
      if !w.verifies(release.sums, release.sig) {
        return from, to, Some(BadSignature);
      }
      var sum := SumFor(release.sums, "rdda-linux-" + arch);
      if sum == "" {
        return from, to, Some(NoChecksum);
      }
      if !EqualFold(w.sha256hex(release.bin), sum) {
        return from, to, Some(ChecksumMismatch);
      }
      if f.read || disk.bin.None? {
        return from, to, Some(ReadFailed);
      }
      err := Install(release.bin, disk.bin.value.bytes, to, f);
    }

    /** The second half of `Update`: back up, swap, prove, and revert if the proof fails. */
    method Install(bin: Bytes, was: Bytes, to: string, f: Faults) returns (err: Option<Error>)
      modifies this`disk, this`seen, this`events
      ensures var r := Installing(old(disk), bin, was, to, f);
              err == r.err && Went(old(disk), old(seen), old(events), r.seen, r.events)
    {
      hide WriteStates, SwapStates, SwapError, RollingBack, ProofEvents, Verdict, WriteOk;
      var ok := WriteFile(Prev, was, f.backup);
      if !ok {
        return Some(BackupFailed);
      }
      var step := WriteBin(bin, f.swap);
      if step.Some? {
        return Some(SwapFailed(step.value));
      }
      var cause := Prove(to, f);
      if cause.None? {
        return None;
      }
      var e := Revert(cause.value, f.rollback);
      err := Some(e);
    }

    /** Self-check, restart and wait; the cause of the failure, if any. */
    method Prove(to: string, f: Faults) returns (cause: Option<Cause>)
      modifies this`events
      ensures cause == Verdict(to, f) && Went(old(disk), old(seen), old(events), [], ProofEvents(to, f))
    {
      hide WaitEvents;
      Ask(SelfChecked(f.version));
      if f.version != Some(to) {
        return Some(SelfCheckFailed);
      }
      Ask(UnitKnown(f.unit));
      if !f.unit {
        return None;
      }
      Ask(Restarted(!f.restart));
      if f.restart {
        return Some(RestartFailed);
      }
      var active := WaitActive(f.active);
      cause := if active then None else Some(NotActive);
    }
  }
}
