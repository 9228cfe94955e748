/**
 * The flash seen from outside: which transfers it accepts and what becomes of WEL, BUSY and each byte over a run, in
 * the bytes of the commands.
 */
module FlashTrace {
  import opened Bytes
  import F = SpiFlash

  type Step = F.Step
  type State = F.Abstract

  const END: nat := 0x80_0000

  // ---- commands ----

  predicate Sent(step: Step, t: bytes) {
    step.Transfer? && step.tx == Some(t)
  }

  /** A transfer with this opcode and a length in these bounds. */
  predicate Command(step: Step, op: byte, least: nat, most: nat)
    requires least > 0
  {
    step.Transfer? && step.tx.Some? && least <= |step.tx.value| <= most && step.tx.value[0] == op
  }

  /** The three bytes of an address, the high one first. */
  function Address(t: bytes): nat
    requires |t| >= 4
  {
    (t[1] as nat) * 65536 + (t[2] as nat) * 256 + t[3] as nat
  }

  /** A command of one byte, while the flash is not busy. */
  predicate Taken(s: State, step: Step, op: byte) {
    Sent(step, [op]) && !s.busy
  }

  /** An erase that is carried out, of the chip or of the sector an address lies in, covers `a`. */
  predicate Erases(s: State, step: Step, a: nat) {
    && !s.busy && s.wel
    && (|| Sent(step, [0xC7]) || Sent(step, [0x60])
        || (Command(step, 0x20, 4, 4) && Address(step.tx.value) < END && a / 4096 == Address(step.tx.value) / 4096))
  }

  predicate Erasing(s: State, step: Step) {
    && !s.busy && s.wel
    && (Sent(step, [0xC7]) || Sent(step, [0x60]) || (Command(step, 0x20, 4, 4) && Address(step.tx.value) < END))
  }

  /** A page program that is begun, within one page. */
  predicate Programming(s: State, step: Step) {
    && !s.busy && s.wel && Command(step, 0x02, 5, 260)
    && var t := step.tx.value;
       Address(t) < END && Address(t) % 256 + |t| - 4 <= 256
  }

  /** The first n bytes a program is to store read 0xFF. */
  predicate Blank(s: State, step: Step, n: nat)
    requires Command(step, 0x02, 5, 260)
  {
    forall a :: Address(step.tx.value) <= a < Address(step.tx.value) + n ==> F.Recall(s.history, a) == 0xFF
  }

  /** A program stores up to the first byte that does not read 0xFF. */
  predicate Stores(s: State, step: Step, a: nat, b: byte) {
    && Programming(s, step)
    && var t := step.tx.value;
       Address(t) <= a < Address(t) + |t| - 4 && b == t[4 + a - Address(t)] && Blank(s, step, a - Address(t) + 1)
  }

  predicate Completes(s: State, step: Step) {
    Programming(s, step) && Blank(s, step, |step.tx.value| - 4)
  }

  /** Everything else is answered with -1. */
  predicate Accepted(s: State, step: Step)
    requires step.Transfer?
  {
    && step.tx.Some? && step.tx.value != []
    && var t, rx, idle := step.tx.value, step.hasRx, !s.busy;
       var op := t[0];
       if op == 0x9F then |t| == 1 && rx && idle
       else if op == 0x4B then |t| == 5 && rx && idle
       else if op == 0x90 then |t| == 4 && rx && idle
       else if op == 0x05 || op == 0x35 then |t| == 1 && rx
       else if op == 0x06 || op == 0x50 || op == 0x04 then |t| == 1 && idle
       else if op == 0xC7 || op == 0x60 || op == 0x20 then Erasing(s, step)
       else if op == 0x02 then Completes(s, step)
       else if op == 0x03 then |t| == 4 && rx && idle && Address(t) + step.rxlen < END
       else true
  }

  /** What an accepted transfer leaves in the buffer of the caller. */
  predicate Fills(s: State, step: Step, rx: bytes) {
    && step.Transfer? && step.tx.Some? && step.tx.value != []
    && var t, n := step.tx.value, step.rxlen;
       var op := t[0];
       if op == 0x9F then [0xEF, 0x40, 0x17] <= rx
       else if op == 0x4B then [0xAA, 0xBB, 0xCC, 0xDD] <= rx
       else if op == 0x90 then [0xEF, 0x16] <= rx
       else if op == 0x05 then
         n <= |rx| && forall i :: 0 <= i < n ==> rx[i] == (if s.wel then 2 else 0) + (if s.busy then 1 else 0)
       else if op == 0x35 then n <= |rx| && forall i :: 0 <= i < n ==> rx[i] == 0
       else if op == 0x03 then
         n <= |rx| && |t| == 4 && forall i :: 0 <= i < n ==> rx[i] == F.Recall(s.history, Address(t) + i)
       else true
  }

  // ---- one step ----

  lemma Single(step: Step)
    ensures step.Transfer? && step.tx.Some? && |step.tx.value| == 1 ==> step.tx.value == [step.tx.value[0]]
  {
  }

  lemma SameAddress(t: bytes)
    requires |t| >= 4
    ensures F.Addr(t) == Address(t)
  {
  }

  /** Exactly the transfers that should be are accepted. */
  lemma Answers(s: State, step: Step)
    requires step.Transfer?
    ensures F.Respond(s, step.tx, step.hasRx, step.rxlen).0 == if Accepted(s, step) then 0 else -1
  {
    hide F.Recall, F.Fitting, Blank;
    Single(step);
    if Programming(s, step) {
      FittingIs(s, step);
    }
  }

  lemma FittingIs(s: State, step: Step)
    requires Programming(s, step)
    ensures var t := step.tx.value;
      forall n :: 0 <= n <= |t| - 4 ==> (Blank(s, step, n) <==> n <= F.Fitting(s.history, Address(t), |t| - 4))
  {
    hide F.Recall;
  }

  lemma LatchStep(s: State, step: Step)
    ensures F.After(s, step).wel <==> Taken(s, step, 0x06) || (s.wel && !Taken(s, step, 0x04))
  {
    hide F.Recall, F.Fitting;
    Single(step);
  }

  lemma TimerStep(s: State, step: Step)
    ensures F.After(s, step).busy <==>
      Erasing(s, step) || Completes(s, step) || (s.busy && !step.Alarm?)
  {
    hide F.Recall, F.Fitting, Blank;
    Single(step);
    if Programming(s, step) {
      FittingIs(s, step);
    }
  }

  /** An erase leaves 0xFF, a program stores its byte, and nothing else changes. */
  lemma ByteStep(s: State, step: Step, a: nat)
    requires a < END
    ensures var now := F.Recall(F.After(s, step).history, a);
      && (Erases(s, step, a) ==> now == 0xFF)
      && (forall b :: Stores(s, step, a, b) ==> now == b)
      && (!Erases(s, step, a) && (forall b :: !Stores(s, step, a, b)) ==> now == F.Recall(s.history, a))
  {
    hide F.Recall, F.Fitting, Blank;
    if Programming(s, step) {
      ProgramStep(s, step, a);
    } else if Erasing(s, step) {
      EraseStep(s, step, a);
    } else {
      NothingStored(s, step);
    }
  }

  lemma NothingStored(s: State, step: Step)
    requires !Programming(s, step) && !Erasing(s, step)
    ensures F.After(s, step).history == s.history
  {
    hide F.Recall, F.Fitting, Blank;
    Single(step);
  }

  lemma EraseStep(s: State, step: Step, a: nat)
    requires a < END && Erasing(s, step)
    ensures F.Recall(F.After(s, step).history, a) == if Erases(s, step, a) then 0xFF else F.Recall(s.history, a)
  {
    hide F.Recall, F.Fitting;
    var lo := if step.tx.value[0] == 0x20 then Address(step.tx.value) / 4096 * 4096 else 0;
    var hi := if step.tx.value[0] == 0x20 then lo + 4096 else END;
    assert F.After(s, step).history == s.history + [F.Erased(lo, hi)];
    F.RecallStep(s.history, F.Erased(lo, hi), a);
  }

  lemma ProgramStep(s: State, step: Step, a: nat)
    requires a < END && Programming(s, step)
    ensures var now := F.Recall(F.After(s, step).history, a);
      && (forall b :: Stores(s, step, a, b) ==> now == b)
      && ((forall b :: !Stores(s, step, a, b)) ==> now == F.Recall(s.history, a))
  {
    hide F.Recall, F.Fitting, Blank;
    var t := step.tx.value;
    var n := F.Fitting(s.history, Address(t), |t| - 4);
    SameAddress(t);
    assert F.After(s, step).history == s.history + F.Stores(Address(t), t[4..][..n]);
    F.RecallStores(s.history, Address(t), t[4..][..n], a);
    FittingIs(s, step);
    if Address(t) <= a < Address(t) + |t| - 4 {
      var b := t[4 + a - Address(t)];
      assert Stores(s, step, a, b) <==> Blank(s, step, a - Address(t) + 1);
    }
  }

  // ---- whole runs ----

  /** The state before step i. */
  function At(steps: seq<Step>, i: nat): State
    requires i <= |steps|
  {
    F.Run(steps[..i])
  }

  /** WEL was set by step j and has not been cleared before step k. */
  predicate EnabledBy(steps: seq<Step>, j: nat, k: nat)
    requires k <= |steps|
  {
    && j < k && Taken(At(steps, j), steps[j], 0x06)
    && forall i :: j < i < k ==> !Taken(At(steps, i), steps[i], 0x04)
  }

  /** What step j began has not been ended by the timer before step k. */
  predicate BusyBy(steps: seq<Step>, j: nat, k: nat)
    requires k <= |steps|
  {
    && j < k && (Erasing(At(steps, j), steps[j]) || Completes(At(steps, j), steps[j]))
    && forall i :: j < i < k ==> !steps[i].Alarm?
  }

  /** Step j stored the byte, and no step before k erased it. */
  predicate StoredBy(steps: seq<Step>, j: nat, k: nat, a: nat, b: byte)
    requires k <= |steps|
  {
    && j < k && Stores(At(steps, j), steps[j], a, b)
    && forall i :: j < i < k ==> !Erases(At(steps, i), steps[i], a)
  }

  lemma AtNext(steps: seq<Step>, k: nat)
    requires k < |steps|
    ensures At(steps, k + 1) == F.After(At(steps, k), steps[k])
  {
    assert steps[..k + 1][..k] == steps[..k];
  }

  /** WEL holds exactly when a write enable was taken and no write disable after it. */
  lemma {:induction false} LatchedIff(steps: seq<Step>, k: nat)
    requires k <= |steps|
    ensures At(steps, k).wel <==> exists j: nat :: EnabledBy(steps, j, k)
    decreases k
  {
    hide At, Taken;
    if k == 0 {
      AtFirst(steps);
    } else {
      var n: nat := k - 1;
      LatchedIff(steps, n);
      AtNext(steps, n);
      LatchStep(At(steps, n), steps[n]);
      if j: nat :| EnabledBy(steps, j, k) && j < n {
        assert EnabledBy(steps, j, n);
      }
      if j: nat :| EnabledBy(steps, j, n) && !Taken(At(steps, n), steps[n], 0x04) {
        assert EnabledBy(steps, j, k);
      }
      if Taken(At(steps, n), steps[n], 0x06) {
        assert EnabledBy(steps, n, k);
      }
    }
  }

  lemma AtFirst(steps: seq<Step>)
    ensures At(steps, 0) == F.Abstract(false, false, false, [])
  {
  }

  /** BUSY holds exactly from an erase or a completed program to the next expiry of the timer. */
  lemma {:induction false} BusyIff(steps: seq<Step>, k: nat)
    requires k <= |steps|
    ensures At(steps, k).busy <==> exists j: nat :: BusyBy(steps, j, k)
    decreases k
  {
    hide At, Erasing, Completes;
    if k == 0 {
      AtFirst(steps);
    } else {
      var n: nat := k - 1;
      BusyIff(steps, n);
      AtNext(steps, n);
      TimerStep(At(steps, n), steps[n]);
      if j: nat :| BusyBy(steps, j, k) && j < n {
        assert BusyBy(steps, j, n);
      }
      if j: nat :| BusyBy(steps, j, n) && !steps[n].Alarm? {
        assert BusyBy(steps, j, k);
      }
      if Erasing(At(steps, n), steps[n]) || Completes(At(steps, n), steps[n]) {
        assert BusyBy(steps, n, k);
      }
    }
  }

  /** A byte other than 0xFF is there exactly when a program stored it and no erase has covered it since. */
  lemma {:induction false} StoredIff(steps: seq<Step>, k: nat, a: nat, b: byte)
    requires k <= |steps| && a < END && b != 0xFF
    ensures F.Recall(At(steps, k).history, a) == b <==> exists j: nat :: StoredBy(steps, j, k, a, b)
    decreases k
  {
    hide At, Stores, Erases, F.Recall;
    if k == 0 {
      AtFirst(steps);
      FreshByte(a);
    } else {
      var n: nat := k - 1;
      StoredIff(steps, n, a, b);
      AtNext(steps, n);
      ByteStep(At(steps, n), steps[n], a);
      OneStore(At(steps, n), steps[n], a);
      if j: nat :| StoredBy(steps, j, k, a, b) && j < n {
        assert StoredBy(steps, j, n, a, b);
      }
      if j: nat :| StoredBy(steps, j, n, a, b) && !Erases(At(steps, n), steps[n], a) {
        assert StoredBy(steps, j, k, a, b);
      }
      if Stores(At(steps, n), steps[n], a, b) {
        assert StoredBy(steps, n, k, a, b);
      }
    }
  }

  lemma FreshByte(a: nat)
    ensures F.Recall([], a) == 0xFF
  {
  }

  /** A store goes to a byte that reads 0xFF, and stores one value. */
  lemma OneStore(s: State, step: Step, a: nat)
    ensures forall b :: Stores(s, step, a, b) ==> F.Recall(s.history, a) == 0xFF && !Erases(s, step, a)
    ensures forall b, c :: Stores(s, step, a, b) && Stores(s, step, a, c) ==> b == c
  {
    hide F.Recall;
  }

  /** An erase or a program is accepted only behind a write enable, and only when the timer is not running. */
  lemma WritesNeedEnable(steps: seq<Step>, k: nat)
    requires k < |steps| && steps[k].Transfer? && Accepted(At(steps, k), steps[k])
    requires steps[k].tx.value[0] in {0x20, 0x60, 0xC7, 0x02}
    ensures (exists j: nat :: EnabledBy(steps, j, k)) && !exists j: nat :: BusyBy(steps, j, k)
  {
    hide At, EnabledBy, BusyBy, Blank;
    LatchedIff(steps, k);
    BusyIff(steps, k);
  }

  /** The model, run from its initialisation: each answer, and each buffer of an accepted transfer. */
  method Session(steps: seq<Step>) returns (answers: seq<int>, buffers: seq<bytes>)
    ensures |answers| == |buffers| == |steps|
    ensures forall k :: 0 <= k < |steps| && steps[k].Transfer? ==>
      answers[k] == if Accepted(At(steps, k), steps[k]) then 0 else -1
    ensures forall k :: 0 <= k < |steps| && steps[k].Transfer? && answers[k] == 0 ==>
      Fills(At(steps, k), steps[k], buffers[k])
  {
    hide F.Flash.Valid, At, Accepted, Fills, F.Respond;
    var f := new F.Flash();
    answers, buffers := [], [];
    var i := 0;
    AtFirst(steps);
    while i < |steps|
      invariant 0 <= i <= |steps| && |answers| == |buffers| == i && f.Valid() && f.State() == At(steps, i)
      invariant fresh(f) && fresh(f.mem) && fresh(f.clear) && fresh(f.protected)
      invariant forall k :: 0 <= k < i && steps[k].Transfer? ==>
        answers[k] == if Accepted(At(steps, k), steps[k]) then 0 else -1
      invariant forall k :: 0 <= k < i && steps[k].Transfer? && answers[k] == 0 ==>
        Fills(At(steps, k), steps[k], buffers[k])
    {
      AtNext(steps, i);
      var rc, buffer := 0, [];
      if steps[i].Alarm? {
        f.Alarm();
      } else {
        Answers(At(steps, i), steps[i]);
        rc, buffer := Exchange(f, steps[i]);
      }
      answers, buffers := answers + [rc], buffers + [buffer];
      i := i + 1;
    }
  }

  /** One transfer, with a buffer long enough for whatever the caller asks for. */
  method Exchange(f: F.Flash, step: Step) returns (rc: int, buffer: bytes)
    requires f.Valid() && step.Transfer?
    modifies f, f.mem, f.clear, f.protected
    ensures f.Valid() && f.State() == F.After(old(f.State()), step)
    ensures rc == F.Respond(old(f.State()), step.tx, step.hasRx, step.rxlen).0
    ensures rc == 0 ==> Fills(old(f.State()), step, buffer)
  {
    hide F.Flash.Valid, F.Recall;
    var rx: array?<byte> := null;
    if step.hasRx {
      rx := new byte[step.rxlen + 4](_ => 0);
    }
    rc := f.Xfer(step.tx, rx, step.rxlen);
    buffer := if rx == null then [] else rx[..];
  }
}
