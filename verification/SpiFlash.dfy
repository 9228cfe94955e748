/** The SPI NOR flash model (user/spi_flash/spi_flash_model.c), with the busy timer as a step of its own. */
module SpiFlash {
  import opened Bytes

  const SECTORS: nat := 128 * 16
  const SECTOR_BYTES: nat := 4096
  const SIZE: nat := SECTORS * SECTOR_BYTES

  const READ_JEDEC_ID: byte := 0x9F
  const READ_UID: byte := 0x4B
  const READ_MDID: byte := 0x90
  const CHIP_ERASE: byte := 0xC7
  const CHIP_ERASE_2: byte := 0x60
  const SECTOR_ERASE: byte := 0x20
  const PAGE_PROGRAM: byte := 0x02
  const READ_DATA: byte := 0x03
  const WRITE_ENABLE: byte := 0x06
  const WRITE_ENABLE_VSR: byte := 0x50
  const WRITE_DISABLE: byte := 0x04
  const READ_SR_1: byte := 0x05
  const READ_SR_2: byte := 0x35

  // ---- what the flash remembers ----

  datatype Effect = Erased(lo: nat, hi: nat) | Stored(addr: nat, b: byte)

  /** The byte stored at `a` since the last erase covering it, or 0xFF. */
  function Recall(history: seq<Effect>, a: nat): byte {
    if history == [] then 0xFF
    else
      var before := history[..|history| - 1];
      match history[|history| - 1]
      case Erased(lo, hi) => if lo <= a < hi then 0xFF else Recall(before, a)
      case Stored(addr, b) => if addr == a then b else Recall(before, a)
  }

  lemma RecallStep(history: seq<Effect>, e: Effect, a: nat)
    ensures Recall(history + [e], a) ==
      match e
      case Erased(lo, hi) => if lo <= a < hi then 0xFF else Recall(history, a)
      case Stored(addr, b) => if addr == a then b else Recall(history, a)
  {
    assert (history + [e])[..|history|] == history;
  }

  /** Storing `data` from `addr` on, byte by byte. */
  function Stores(addr: nat, data: bytes): (r: seq<Effect>)
    ensures |r| == |data|
    ensures forall i :: 0 <= i < |r| ==> r[i] == Stored(addr + i, data[i])
  {
    if data == [] then [] else Stores(addr, data[..|data| - 1]) + [Stored(addr + |data| - 1, data[|data| - 1])]
  }

  lemma {:induction false} RecallStores(history: seq<Effect>, addr: nat, data: bytes, a: nat)
    ensures Recall(history + Stores(addr, data), a) ==
      if addr <= a < addr + |data| then data[a - addr] else Recall(history, a)
    decreases |data|
  {
    if data == [] {
      assert history + Stores(addr, data) == history;
    } else {
      var n := |data| - 1;
      RecallStores(history, addr, data[..n], a);
      RecallStep(history + Stores(addr, data[..n]), Stored(addr + n, data[n]), a);
      assert history + Stores(addr, data)
          == history + Stores(addr, data[..n]) + [Stored(addr + n, data[n])];
    }
  }

  /** How many bytes of a program land before one that was not erased. */
  function Fitting(history: seq<Effect>, addr: nat, n: nat): (k: nat)
    ensures k <= n
    ensures forall a :: addr <= a < addr + k ==> Recall(history, a) == 0xFF
    ensures k < n ==> Recall(history, addr + k) != 0xFF
    decreases n
  {
    if n == 0 then 0
    else
      var k := Fitting(history, addr, n - 1);
      if k < n - 1 || Recall(history, addr + n - 1) != 0xFF then k else n
  }

  // ---- the commands on the abstract state ----

  datatype Abstract = Abstract(busy: bool, wel: bool, wevsr: bool, history: seq<Effect>)

  function Addr(tx: bytes): (a: nat)
    requires |tx| >= 4
    ensures a < 0x100_0000
  {
    var high: int, mid: int, low: int := tx[1], tx[2], tx[3];
    high * 65536 + mid * 256 + low
  }

  /** The result and the new state: -1 is the answer to everything refused, 0 to the rest, unknown commands too. */
  function Respond(s: Abstract, tx: Option<bytes>, hasRx: bool, rxlen: nat): (int, Abstract) {
    if tx == None || tx.value == [] then (-1, s)
    else
      var t := tx.value;
      var op := t[0];
      if op == READ_JEDEC_ID then (if |t| == 1 && hasRx && !s.busy then 0 else -1, s)
      else if op == READ_UID then (if |t| == 5 && hasRx && !s.busy then 0 else -1, s)
      else if op == READ_MDID then (if |t| == 4 && hasRx && !s.busy then 0 else -1, s)
      else if op == READ_SR_1 || op == READ_SR_2 then (if |t| == 1 && hasRx then 0 else -1, s)
      else if op == CHIP_ERASE || op == CHIP_ERASE_2 then
        if |t| == 1 && !s.busy && s.wel then (0, s.(busy := true, history := s.history + [Erased(0, SIZE)]))
        else (-1, s)
      else if op == WRITE_ENABLE then
        if |t| == 1 && !s.busy then (0, s.(wel := true)) else (-1, s)
      else if op == WRITE_ENABLE_VSR then
        if |t| == 1 && !s.busy then (0, s.(wevsr := true)) else (-1, s)
      else if op == WRITE_DISABLE then
        if |t| == 1 && !s.busy then (0, s.(wel := false)) else (-1, s)
      else if op == SECTOR_ERASE then
        if |t| == 4 && !s.busy && s.wel && Addr(t) < SIZE then
          var lo := Addr(t) / SECTOR_BYTES * SECTOR_BYTES;
          (0, s.(busy := true, history := s.history + [Erased(lo, lo + SECTOR_BYTES)]))
        else (-1, s)
      else if op == PAGE_PROGRAM then Program(s, t)
      else if op == READ_DATA then
        (if |t| == 4 && hasRx && !s.busy && Addr(t) + rxlen < SIZE then 0 else -1, s)
      else (0, s)
  }

  /** A page program stops at the first byte that was not erased; what came before it stays stored. */
  function Program(s: Abstract, t: bytes): (int, Abstract) {
    if 5 <= |t| <= 260 && !s.busy && s.wel && Addr(t) < SIZE && Addr(t) % 256 + |t| - 4 <= 256 then
      var data := t[4..];
      var k := Fitting(s.history, Addr(t), |data|);
      var after := s.(history := s.history + Stores(Addr(t), data[..k]));
      if k == |data| then (0, after.(busy := true)) else (-1, after)
    else (-1, s)
  }

  // ---- the model ----

  class Flash {
    var busy: bool
    var wel: bool
    var wevsr: bool
    const mem: array2<byte>           // sectors[..].b[..]
    const clear: array<bool>          // sectors[..].clear
    const protected: array<bool>      // sectors[..].protected
    ghost var history: seq<Effect>

    ghost predicate Shaped()
    {
      mem.Length0 == SECTORS && mem.Length1 == SECTOR_BYTES && clear.Length == SECTORS && protected.Length == SECTORS
      && clear != protected
    }

    /** Memory is what the history recalls, and a sector marked clear is all 0xFF. */
    ghost predicate Valid()
      reads this, mem, clear, protected
    {
      && Shaped()
      && (forall s, o :: 0 <= s < SECTORS && 0 <= o < SECTOR_BYTES ==>
        mem[s, o] == Recall(history, s * SECTOR_BYTES + o))
      && (forall s, o :: 0 <= s < SECTORS && 0 <= o < SECTOR_BYTES && clear[s] ==> mem[s, o] == 0xFF)
      && (forall s :: 0 <= s < SECTORS ==> !protected[s])
    }

    ghost function State(): Abstract
      reads this
    {
      Abstract(busy, wel, wevsr, history)
    }

    /** model_init */
    constructor ()
      ensures Valid() && State() == Abstract(false, false, false, [])
      ensures fresh(mem) && fresh(clear) && fresh(protected)
    {
      busy, wel, wevsr, history := false, false, false, [];
      mem := new byte[SECTORS, SECTOR_BYTES]((_, _) => 0xFF);
      clear := new bool[SECTORS](_ => true);
      protected := new bool[SECTORS](_ => false);
    }

    /** The timer runs out: the signal handler. */
    method Alarm()
      requires Valid()
      modifies `busy
      ensures Valid() && State() == old(State()).(busy := false)
    {
      busy := false;
    }

    /** mem_clear */
    method MemClear()
      requires Shaped()
      modifies mem, clear, protected
      ensures forall s, o :: 0 <= s < SECTORS && 0 <= o < SECTOR_BYTES ==> mem[s, o] == 0xFF
      ensures forall s :: 0 <= s < SECTORS ==> clear[s] && !protected[s]
    {
      var i := 0;
      while i < SECTORS
        invariant 0 <= i <= SECTORS
        invariant forall s, o :: 0 <= s < i && 0 <= o < SECTOR_BYTES ==> mem[s, o] == 0xFF
        invariant forall s :: 0 <= s < i ==> clear[s] && !protected[s]
      {
        clear[i] := true;
        protected[i] := false;
        FillSector(i);
        i := i + 1;
      }
    }

    /** memset of a sector to 0xFF. */
    method FillSector(i: nat)
      requires Shaped() && i < SECTORS
      modifies mem
      ensures forall o :: 0 <= o < SECTOR_BYTES ==> mem[i, o] == 0xFF
      ensures forall s, o :: 0 <= s < SECTORS && s != i && 0 <= o < SECTOR_BYTES ==> mem[s, o] == old(mem[s, o])
    {
      forall o | 0 <= o < SECTOR_BYTES {
        mem[i, o] := 0xFF;
      }
    }

    method EraseChip() returns (rc: int)
      requires Valid()
      modifies this, mem, clear, protected
      ensures Valid()
      ensures old(busy) || !old(wel) ==> rc == -1 && State() == old(State())
      ensures !old(busy) && old(wel) ==>
        rc == 0 && State() == old(State()).(busy := true, history := old(history) + [Erased(0, SIZE)])
    {
      if busy {
        return -1;
      }
      if !wel {
        return -1;
      }
      MemClear();
      forall a: nat | a < SIZE
        ensures Recall(history + [Erased(0, SIZE)], a) == 0xFF
      {
        RecallStep(history, Erased(0, SIZE), a);
      }
      history := history + [Erased(0, SIZE)];
      busy := true;
      rc := 0;
    }

    method EraseSector(addr: nat) returns (rc: int)
      requires Valid()
      modifies this, mem, clear
      ensures Valid()
      ensures old(busy) || !old(wel) || addr >= SIZE ==> rc == -1 && State() == old(State())
      ensures !old(busy) && old(wel) && addr < SIZE ==>
        var lo := addr / SECTOR_BYTES * SECTOR_BYTES;
        rc == 0 && State() == old(State()).(busy := true, history := old(history) + [Erased(lo, lo + SECTOR_BYTES)])
    {
      if busy {
        return -1;
      }
      var sec := addr / 4096;
      if !wel {
        return -1;
      }
      if sec >= 128 * 16 {
        return -1;
      }
      if protected[sec] {
        return -1;
      }
      clear[sec] := true;
      FillSector(sec);
      ghost var e := Erased(sec * SECTOR_BYTES, sec * SECTOR_BYTES + SECTOR_BYTES);
      forall a: nat
        ensures Recall(history + [e], a) == if e.lo <= a < e.hi then 0xFF else Recall(history, a)
      {
        RecallStep(history, e, a);
      }
      history := history + [e];
      busy := true;
      rc := 0;
    }

    method ProgramPage(tx: bytes) returns (rc: int)
      requires Valid() && |tx| > 0
      modifies this, mem, clear
      ensures Valid() && (rc, State()) == Program(old(State()), tx)
    {
      if |tx| < 5 {
        return -1;
      }
      if |tx| > 260 {
        return -1;
      }
      if busy {
        return -1;
      }
      var addr := Addr(tx);
      var data := tx[4..];
      if !wel {
        return -1;
      }
      if addr >= 128 * 16 * 4096 {
        return -1;
      }
      if addr % 256 + |data| > 256 {
        return -1;
      }
      rc := StoreBytes(addr, data);
      if rc == 0 {
        busy := true;
      }
    }

    /** The loop of the page program, within one sector. */
    method StoreBytes(addr: nat, data: bytes) returns (rc: int)
      requires Valid() && addr < SIZE && addr % 256 + |data| <= 256
      modifies `history, mem, clear
      ensures Valid()
      ensures var k := Fitting(old(history), addr, |data|);
        history == old(history) + Stores(addr, data[..k]) && rc == if k == |data| then 0 else -1
    {
      ghost var was := history;
      var sec := addr / 4096;
      hide Valid, Recall, Fitting;
      MarkUsed(sec);
      var i := 0;
      assert history == was + Stores(addr, data[..0]);
      while i < |data|
        invariant 0 <= i <= |data| && !clear[sec]
        invariant Valid() && history == was + Stores(addr, data[..i])
        invariant i <= Fitting(was, addr, |data|)
      {
        var off := (addr + i) % 4096;
        SameSector(addr, i, |data|);
        Remembers(sec, off);
        RecallStores(was, addr, data[..i], addr + i);
        if mem[sec, off] != 0xFF {
          return -1;
        }
        StoreOne(sec, off, data[i]);
        StoresNext(was, addr, data, i);
        i := i + 1;
      }
      assert data[..i] == data;
      return 0;
    }

    method MarkUsed(sec: nat)
      requires Valid() && sec < SECTORS
      modifies clear
      ensures Valid() && !clear[sec]
    {
      clear[sec] := false;
    }

    lemma Remembers(sec: nat, off: nat)
      requires Valid() && sec < SECTORS && off < SECTOR_BYTES
      ensures Shaped() && mem[sec, off] == Recall(history, sec * SECTOR_BYTES + off)
    {
    }

    lemma StoresNext(was: seq<Effect>, addr: nat, data: bytes, i: nat)
      requires i < |data|
      ensures was + Stores(addr, data[..i]) + [Stored(addr + i, data[i])] == was + Stores(addr, data[..i + 1])
    {
      assert data[..i + 1][..i] == data[..i];
    }

    /** A page lies within a sector. */
    lemma SameSector(addr: nat, i: nat, n: nat)
      requires addr % 256 + n <= 256 && i < n
      ensures (addr + i) / 4096 == addr / 4096 && addr / 4096 * SECTOR_BYTES + (addr + i) % 4096 == addr + i
    {
    }

    method StoreOne(sec: nat, off: nat, b: byte)
      requires Valid() && sec < SECTORS && off < SECTOR_BYTES && !clear[sec]
      modifies `history, mem
      ensures Valid() && history == old(history) + [Stored(sec * SECTOR_BYTES + off, b)]
    {
      ghost var e := Stored(sec * SECTOR_BYTES + off, b);
      forall a: nat
        ensures Recall(history + [e], a) == if a == e.addr then b else Recall(history, a)
      {
        RecallStep(history, e, a);
      }
      mem[sec, off] := b;
      history := history + [e];
    }
  
    /** READ_DATA: exactly the bytes remembered, unless the range runs up to or beyond the end. */
    method ReadData(addr: nat, rx: array<byte>, rxlen: nat) returns (rc: int)
      requires Valid() && rxlen <= rx.Length && addr < 0x100_0000
      modifies rx
      ensures Valid()
      ensures rc == if addr + rxlen < SIZE then 0 else -1
      ensures rc == 0 ==> forall i :: 0 <= i < rxlen ==> rx[i] == Recall(history, addr + i)
      ensures forall i :: (rc != 0 || rxlen <= i) && 0 <= i < rx.Length ==> rx[i] == old(rx[i])
    {
      if addr + rxlen >= 128 * 16 * 4096 {
        return -1;
      }
      var i := 0;
      while i < rxlen
        invariant 0 <= i <= rxlen
        invariant forall j :: 0 <= j < i ==> rx[j] == Recall(history, addr + j)
        invariant forall j :: i <= j < rx.Length ==> rx[j] == old(rx[j])
      {
        var sec, off := (addr + i) / 4096, (addr + i) % 4096;
        Remembers(sec, off);
        rx[i] := mem[sec, off];
        i := i + 1;
      }
      return 0;
    }

    /** The bits of the first status register: WEL and BUSY, the protection bits being zero. */
    function StatusByte(): (b: byte)
      reads this
    {
      (if wel then 2 else 0) + (if busy then 1 else 0)
    }
  
    /** model_spi_xfer */
    method Xfer(tx: Option<bytes>, rx: array?<byte>, rxlen: nat) returns (rc: int)
      requires Valid()
      requires rx != null ==> rxlen <= rx.Length && |Identity(tx)| <= rx.Length
      modifies this, mem, clear, protected, rx
      ensures Valid() && (rc, State()) == Respond(old(State()), tx, rx != null, rxlen)
      ensures Opcode(tx) == Some(READ_DATA) && rc == 0 ==>
        forall i :: 0 <= i < rxlen ==> rx[i] == Recall(history, Addr(tx.value) + i)
      ensures rc == 0 && Opcode(tx).Some? && Opcode(tx).value in {READ_SR_1, READ_SR_2} ==>
        forall i :: 0 <= i < rxlen ==> rx[i] == if Opcode(tx).value == READ_SR_1 then StatusByte() else 0
      ensures rc == 0 ==> rx != null || Identity(tx) == []
      ensures rc == 0 && Identity(tx) != [] ==> |Identity(tx)| <= rx.Length && rx[..|Identity(tx)|] == Identity(tx)
    {
      hide Valid, Recall;
      if tx == None {
        return -1;
      }
      var t := tx.value;
      if |t| < 1 {
        return -1;
      }
      var op := t[0];
      if op == CHIP_ERASE || op == CHIP_ERASE_2 {
        if |t| != 1 {
          return -1;
        }
        rc := EraseChip();
      } else if op == SECTOR_ERASE {
        if |t| != 4 {
          return -1;
        }
        rc := EraseSector(Addr(t));
      } else if op == PAGE_PROGRAM {
        rc := ProgramPage(t);
      } else if op == READ_DATA {
        if |t| != 4 || rx == null {
          return -1;
        }
        if busy {
          return -1;
        }
        rc := ReadData(Addr(t), rx, rxlen);
      } else if op == WRITE_ENABLE || op == WRITE_ENABLE_VSR || op == WRITE_DISABLE {
        rc := SetLatch(op, t);
      } else {
        rc := ReadRegister(op, t, rx, rxlen);
      }
    }

    /** WRITE_ENABLE, WRITE_ENABLE_VSR, WRITE_DISABLE. */
    method SetLatch(op: byte, t: bytes) returns (rc: int)
      requires Valid() && |t| > 0 && t[0] == op && op in {WRITE_ENABLE, WRITE_ENABLE_VSR, WRITE_DISABLE}
      modifies `wel, `wevsr
      ensures Valid() && (rc, State()) == Respond(old(State()), Some(t), true, 0)
    {
      if |t| != 1 {
        return -1;
      }
      if busy {
        return -1;
      }
      if op == WRITE_ENABLE {
        wel := true;
      } else if op == WRITE_ENABLE_VSR {
        wevsr := true;
      } else {
        wel := false;
      }
      rc := 0;
    }

    /** The identification and status commands; an unknown command is only reported. */
    method ReadRegister(op: byte, t: bytes, rx: array?<byte>, rxlen: nat) returns (rc: int)
      requires Valid() && |t| > 0 && t[0] == op
      requires op !in {CHIP_ERASE, CHIP_ERASE_2, SECTOR_ERASE, PAGE_PROGRAM, READ_DATA, WRITE_ENABLE,
        WRITE_ENABLE_VSR, WRITE_DISABLE}
      requires rx != null ==> rxlen <= rx.Length && |Identity(Some(t))| <= rx.Length
      modifies rx
      ensures Valid() && State() == old(State()) && (rc, State()) == Respond(State(), Some(t), rx != null, rxlen)
      ensures rc == 0 && op in {READ_SR_1, READ_SR_2} ==>
        forall i :: 0 <= i < rxlen ==> rx[i] == if op == READ_SR_1 then StatusByte() else 0
      ensures rc == 0 && Identity(Some(t)) != [] ==>
        rx != null && |Identity(Some(t))| <= rx.Length && rx[..|Identity(Some(t))|] == Identity(Some(t))
    {
      if op == READ_JEDEC_ID {
        if |t| != 1 || rx == null {
          return -1;
        }
        if busy {
          return -1;
        }
        rx[0], rx[1], rx[2] := 0xEF, 0x40, 0x17;
      } else if op == READ_UID {
        if |t| != 5 || rx == null {
          return -1;
        }
        if busy {
          return -1;
        }
        rx[0], rx[1], rx[2], rx[3] := 0xAA, 0xBB, 0xCC, 0xDD;
      } else if op == READ_MDID {
        if |t| != 4 || rx == null {
          return -1;
        }
        if busy {
          return -1;
        }
        rx[0], rx[1] := 0xEF, 0x16;
      } else if op == READ_SR_1 || op == READ_SR_2 {
        if |t| != 1 || rx == null {
          return -1;
        }
        var value := if op == READ_SR_1 then StatusByte() else 0;
        forall i | 0 <= i < rxlen {
          rx[i] := value;
        }
      }
      rc := 0;
    }
  }

  function Opcode(tx: Option<bytes>): Option<byte> {
    if tx == None || tx.value == [] then None else Some(tx.value[0])
  }

  /** What the identification commands answer, whatever length the caller asked for. */
  function Identity(tx: Option<bytes>): bytes {
    match Opcode(tx)
    case None => []
    case Some(op) =>
      if op == READ_JEDEC_ID then [0xEF, 0x40, 0x17]
      else if op == READ_UID then [0xAA, 0xBB, 0xCC, 0xDD]
      else if op == READ_MDID then [0xEF, 0x16]
      else []
  }

  // ---- runs ----

  datatype Step = Transfer(tx: Option<bytes>, hasRx: bool, rxlen: nat) | Alarm

  function After(s: Abstract, step: Step): Abstract {
    match step
    case Transfer(tx, hasRx, rxlen) => Respond(s, tx, hasRx, rxlen).1
    case Alarm => s.(busy := false)
  }

  function Run(steps: seq<Step>): Abstract {
    if steps == [] then Abstract(false, false, false, []) else After(Run(steps[..|steps| - 1]), steps[|steps| - 1])
  }

  /** Nothing at all changes while the flash is busy, until the timer runs out. */
  lemma BusyKeeps(s: Abstract, step: Step)
    requires s.busy && !step.Alarm?
    ensures After(s, step) == s
  {
  }

  /** An accepted erase that covers `a`. */
  predicate Erases(s: Abstract, step: Step, a: nat) {
    && step.Transfer? && step.tx.Some? && step.tx.value != [] && !s.busy && s.wel
    && var t := step.tx.value;
       || ((t[0] == CHIP_ERASE || t[0] == CHIP_ERASE_2) && |t| == 1 && a < SIZE)
       || (t[0] == SECTOR_ERASE && |t| == 4 && Addr(t) < SIZE && Addr(t) / SECTOR_BYTES == a / SECTOR_BYTES)
  }

  /** A byte other than 0xFF changes only by an erase that covers it, and then to 0xFF. */
  lemma OnlyEraseChanges(s: Abstract, step: Step, a: nat)
    requires Recall(s.history, a) != 0xFF
    ensures Recall(After(s, step).history, a) == if Erases(s, step, a) then 0xFF else Recall(s.history, a)
  {
    if step.Transfer? && step.tx.Some? && step.tx.value != [] {
      var t := step.tx.value;
      if t[0] == PAGE_PROGRAM && 5 <= |t| <= 260 {
        var data := t[4..];
        var k := Fitting(s.history, Addr(t), |data|);
        RecallStores(s.history, Addr(t), data[..k], a);
      } else if t[0] == SECTOR_ERASE && |t| == 4 {
        var lo := Addr(t) / SECTOR_BYTES * SECTOR_BYTES;
        RecallStep(s.history, Erased(lo, lo + SECTOR_BYTES), a);
      } else {
        RecallStep(s.history, Erased(0, SIZE), a);
      }
    }
  }

  /** A program that succeeds reads back, and leaves every other byte alone. */
  lemma ProgramReadsBack(s: Abstract, t: bytes, a: nat)
    requires t != [] && t[0] == PAGE_PROGRAM && Respond(s, Some(t), false, 0).0 == 0
    ensures var h := Respond(s, Some(t), false, 0).1.history;
      Recall(h, a) == if Addr(t) <= a < Addr(t) + |t| - 4 then t[a - Addr(t) + 4] else Recall(s.history, a)
  {
    var data := t[4..];
    assert data[..|data|] == data;
    RecallStores(s.history, Addr(t), data, a);
  }

  /** `h` never stores over a byte that was not erased. */
  predicate Careful(h: seq<Effect>) {
    forall i :: 0 <= i < |h| && h[i].Stored? ==> Recall(h[..i], h[i].addr) == 0xFF
  }

  /** In every run, each store goes to a byte that read 0xFF. */
  lemma {:induction false} AlwaysCareful(steps: seq<Step>)
    ensures Careful(Run(steps).history)
  {
    if steps != [] {
      AlwaysCareful(steps[..|steps| - 1]);
      CarefulStep(Run(steps[..|steps| - 1]), steps[|steps| - 1]);
    }
  }

  lemma CarefulStep(s: Abstract, step: Step)
    requires Careful(s.history)
    ensures Careful(After(s, step).history)
  {
    if step.Transfer? && step.tx.Some? && step.tx.value != [] {
      var t := step.tx.value;
      if t[0] == PAGE_PROGRAM && 5 <= |t| <= 260 {
        var k := Fitting(s.history, Addr(t), |t| - 4);
        CarefulStores(s.history, Addr(t), t[4..][..k]);
      } else {
        var h := After(s, step).history;
        assert forall i :: 0 <= i < |s.history| ==> h[..i] == s.history[..i];
      }
    }
  }

  lemma {:induction false} CarefulStores(h: seq<Effect>, addr: nat, data: bytes)
    requires Careful(h) && forall a :: addr <= a < addr + |data| ==> Recall(h, a) == 0xFF
    ensures Careful(h + Stores(addr, data))
  {
    var r := h + Stores(addr, data);
    forall i | 0 <= i < |r| && r[i].Stored?
      ensures Recall(r[..i], r[i].addr) == 0xFF
    {
      if i < |h| {
        assert r[..i] == h[..i];
      } else {
        var j := i - |h|;
        StoresPrefix(addr, data, j);
        assert r[..i] == h + Stores(addr, data[..j]);
        RecallStores(h, addr, data[..j], addr + j);
      }
    }
  }

  lemma {:induction false} StoresPrefix(addr: nat, data: bytes, j: nat)
    requires j <= |data|
    ensures Stores(addr, data)[..j] == Stores(addr, data[..j])
  {
  }

  /** The flash run by any sequence of commands and timer expiries remembers what the run says it does. */
  method RunFlash(steps: seq<Step>) returns (f: Flash)
    ensures f.Valid() && f.State() == Run(steps)
  {
    hide Flash.Valid, Respond, Recall;
    f := new Flash();
    var i := 0;
    while i < |steps|
      invariant 0 <= i <= |steps| && f.Valid() && f.State() == Run(steps[..i])
      invariant fresh(f) && fresh(f.mem) && fresh(f.clear) && fresh(f.protected)
    {
      assert steps[..i + 1][..i] == steps[..i];
      match steps[i] {
        case Alarm => f.Alarm();
        case Transfer(tx, hasRx, rxlen) =>
          var rx: array?<byte> := null;
          if hasRx {
            rx := new byte[rxlen + 4](_ => 0);
          }
          var rc := f.Xfer(tx, rx, rxlen);
      }
      i := i + 1;
    }
    assert steps[..i] == steps;
  }
}
