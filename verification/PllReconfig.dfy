/**
 * The PLL reconfiguration controller (hdl/REPLL_CONTROL.sv) and the write path of the scan-cache writer it drives
 * (hdl/REPLL.v), one clock edge at a time.
 */
module PllReconfig {
  // ---- the writer: REPLL_pllrcfg_l021 ----

  const CACHE_BITS: nat := 144
  const NOMINAL: nat := 7

  /** The registers of the writer; everything between reconfig_init and reconfig_wait is one flag. */
  datatype Writer = Writer(
    idle: bool, resetState: bool, writeInit: bool, writeInitNominal: bool, writeData: bool, writeNominal: bool,
    reconfiguring: bool, typeLatch: nat, paramLatch: nat, nominal: seq<bool>, shift: seq<bool>,
    width: nat, addr: nat, areset1: bool, areset: bool, cache: seq<bool>)

  /** What the controller puts on the writer's ports in one cycle. */
  datatype Ports = Ports(write: bool, reconfig: bool, reset: bool, ctype: nat, cparam: nat, data: nat)

  /** What the rest of the world does in one cycle. */
  datatype Outside = Outside(trigger: bool, m: nat, n: nat, c: nat, scandone: bool, scanOut: bool, reconfigEnds: bool)

  predicate WellFormed(w: Writer) {
    |w.nominal| == 18 && |w.shift| == 18 && |w.cache| == CACHE_BITS && w.addr < CACHE_BITS && w.width < 32
  }

  function Bit(x: nat, i: nat): bool
    decreases i
  {
    if i == 0 then x % 2 == 1 else Bit(x / 2, i - 1)
  }

  /** A nominal count is split into a high count, the odd bit, a low count and the bypass bit. */
  function NominalBit(data: nat, j: nat): bool {
    if j < 8 then Bit(data / 2 + data % 2, j)
    else if j == 8 then data % 2 == 1
    else if j < 17 then Bit(data, j - 8)
    else data % 256 == 1
  }

  predicate IsNominal(ctype: nat, cparam: nat) {
    ctype < 2 && cparam == NOMINAL
  }

  /** The bits in the order in which they leave the shift register. */
  function LoadBit(ctype: nat, cparam: nat, data: nat, j: nat): bool {
    if IsNominal(ctype, cparam) then NominalBit(data, j) else j <= 8 && Bit(data, j)
  }

  /**
   * addr_decoder_out: the highest address of a field. Types: 0 N, 1 M, 2 charge pump and loop filter, 3 VCO,
   * 4..8 the output counters. Parameters: 0 high, 1 low, 2 C, 4 bypass, 5 odd, 7 nominal count.
   */
  function Address(ctype: nat, cparam: nat): (a: nat)
    ensures a < CACHE_BITS
  {
    match ctype
    case 0 => if cparam == 4 then 18 else if cparam == 0 then 26 else if cparam == 5 then 27
              else if cparam == 1 || cparam == 7 then 35 else 0
    case 1 => if cparam == 4 then 36 else if cparam == 0 then 44 else if cparam == 5 then 45
              else if cparam == 1 || cparam == 7 then 53 else 0
    case 2 => if cparam == 4 then 1 else if cparam == 2 then 3 else if cparam == 1 then 8
              else if cparam == 5 then 14 else if cparam == 0 then 17 else 0
    case 3 => if cparam == 0 then 9 else 0
    case _ =>
      if ctype > 8 then 0
      else
        var base := 54 + 18 * (ctype - 4);
        if cparam == 4 then base else if cparam == 0 then base + 8 else if cparam == 5 then base + 9
        else if cparam == 1 then base + 17 else 0
  }

  /** width_decoder_out: one less than the number of bits of a field. */
  function Width(ctype: nat, cparam: nat): (n: nat)
    ensures n < 32
  {
    if cparam == NOMINAL && ctype < 2 then 17
    else if ctype == 2 && (cparam == 4 || cparam == 2) then 1
    else if ctype == 2 && cparam == 0 then 2
    else if ctype == 2 && (cparam == 1 || cparam == 5) then 4
    else if (ctype < 2 || 4 <= ctype <= 8) && (cparam == 0 || cparam == 1) then 7
    else 0
  }

  /** Some bit of width_decoder_select is set, so the shift register's end reaches the cache. */
  predicate Selected(ctype: nat, cparam: nat) {
    || (ctype == 2 && (cparam == 0 || cparam == 1 || cparam == 2 || cparam == 4 || cparam == 5))
    || (ctype == 3 && cparam == 0)
    || (ctype < 2 && cparam == NOMINAL)
    || ((ctype < 2 || 4 <= ctype <= 8) && (cparam == 0 || cparam == 1 || cparam == 4 || cparam == 5))
  }

  predicate WriterBusy(w: Writer) {
    !w.idle || w.areset
  }

  predicate Accepted(w: Writer, p: Ports) {
    w.idle && p.write
  }

  predicate Active(w: Writer) {
    w.writeData || w.writeNominal
  }

  predicate Loading(w: Writer) {
    w.writeInit || w.writeInitNominal
  }

  /** The bit at the end of the shift register is number 0. */
  function Tail(shift: seq<bool>, j: nat): bool
    requires |shift| == 18 && j < 18
  {
    shift[17 - j]
  }

  function Nominal(data: nat): (r: seq<bool>)
    ensures |r| == 18 && forall j :: 0 <= j < 18 ==> r[j] == NominalBit(data, j)
  {
    seq(18, j requires 0 <= j < 18 => NominalBit(data, j))
  }

  function Loaded(nominal: seq<bool>, p: Ports): (r: seq<bool>)
    requires |nominal| == 18
    ensures |r| == 18
    ensures forall j :: 0 <= j < 18 ==>
      Tail(r, j) == (if IsNominal(p.ctype, p.cparam) then nominal[j] else LoadBit(p.ctype, p.cparam, p.data, j))
  {
    seq(18, i requires 0 <= i < 18 =>
      if IsNominal(p.ctype, p.cparam) then nominal[17 - i] else LoadBit(p.ctype, p.cparam, p.data, 17 - i))
  }

  function Shifted(shift: seq<bool>, scanOut: bool): (r: seq<bool>)
    requires |shift| == 18
    ensures |r| == 18 && forall j :: 0 <= j < 17 ==> Tail(r, j) == Tail(shift, j + 1)
  {
    [scanOut] + shift[..17]
  }

  /** power_up: no state flag is set. */
  predicate PowerUp(w: Writer) {
    !w.resetState && !w.idle && !Loading(w) && !Active(w) && !w.reconfiguring
  }

  predicate NextIdle(w: Writer, p: Ports, o: Outside) {
    || (w.idle && !p.write && !p.reconfig)
    || (Active(w) && w.width == 0)
    || (w.reconfiguring && o.reconfigEnds)
    || w.resetState
  }

  function Zeros(): (r: seq<bool>)
    ensures |r| == 18
  {
    seq(18, _ => false)
  }

  function WasReset(w: Writer, o: Outside): (r: Writer)
    requires WellFormed(w)
    ensures WellFormed(r)
  {
    Writer(false, true, false, false, false, false, false, 0, 0, Zeros(), Zeros(),
           w.width, w.addr, o.scandone, false, w.cache)
  }

  function NextShift(w: Writer, p: Ports, o: Outside): (r: seq<bool>)
    requires WellFormed(w)
    ensures |r| == 18
  {
    if Accepted(w, p) then Loaded(w.nominal, p) else if Active(w) then Shifted(w.shift, o.scanOut) else w.shift
  }

  function NextWidth(w: Writer): (r: nat)
    requires WellFormed(w)
    ensures r < 32
  {
    if Loading(w) then Width(w.typeLatch, w.paramLatch)
    else if !Active(w) then w.width
    else if w.width == 0 then 31 else w.width - 1
  }

  function NextAddr(w: Writer): (r: nat)
    requires WellFormed(w)
    ensures r < CACHE_BITS
  {
    if Loading(w) then Address(w.typeLatch, w.paramLatch)
    else if !Active(w) then w.addr
    else if w.addr == 0 then CACHE_BITS - 1 else w.addr - 1
  }

  function NextCache(w: Writer): (r: seq<bool>)
    requires WellFormed(w)
    ensures |r| == CACHE_BITS
  {
    if Active(w) then w.cache[w.addr := Selected(w.typeLatch, w.paramLatch) && Tail(w.shift, 0)] else w.cache
  }

  /** One clock edge of the writer. */
  function NextWriter(w: Writer, p: Ports, o: Outside): (r: Writer)
    requires WellFormed(w)
    ensures WellFormed(r)
  {
    if p.reset then WasReset(w, o)
    else
      Writer(
        idle := NextIdle(w, p, o),
        resetState := PowerUp(w),
        writeInit := Accepted(w, p) && !IsNominal(p.ctype, p.cparam),
        writeInitNominal := Accepted(w, p) && IsNominal(p.ctype, p.cparam),
        writeData := w.writeInit || (w.writeData && w.width != 0),
        writeNominal := w.writeInitNominal || (w.writeNominal && w.width != 0),
        reconfiguring := (w.idle && p.reconfig) || (w.reconfiguring && !o.reconfigEnds),
        typeLatch := if Accepted(w, p) then p.ctype else w.typeLatch,
        paramLatch := if Accepted(w, p) then p.cparam else w.paramLatch,
        nominal := Nominal(p.data),
        shift := NextShift(w, p, o),
        width := NextWidth(w),
        addr := NextAddr(w),
        areset1 := o.scandone,
        areset := w.areset1,
        cache := NextCache(w))
  }

  // ---- the controller: REPLL_CONTROL ----

  datatype Ctl = Idle | SetM | SetN | SetC0H | SetC0L | Reconfig | Busy | ResetPLL | ResetCTR

  datatype Controller = Controller(state: Ctl, d0: bool, d1: bool, data: nat, ctype: nat, cparam: nat)

  datatype Command = Command(ctype: nat, cparam: nat, data: nat)

  predicate CtlBusy(k: Controller, w: Writer) {
    k.d0 || k.d1 || WriterBusy(w)
  }

  function PortsOf(k: Controller, w: Writer): Ports {
    Ports(k.d1, k.state == Reconfig && !CtlBusy(k, w), k.state == ResetCTR, k.ctype, k.cparam, k.data)
  }

  /** The command a controller state issues when the writer is free, and the state after it. */
  function Issue(state: Ctl, o: Outside): (Command, Ctl)
    requires state in {SetM, SetN, SetC0H, SetC0L}
  {
    match state
    case SetM => (Command(1, NOMINAL, o.m), SetN)
    case SetN => (Command(0, NOMINAL, o.n), SetC0H)
    case SetC0H => (Command(4, 0, o.c), SetC0L)
    case _ => (Command(4, 1, o.c), Reconfig)
  }

  /** One clock edge of the controller. */
  function NextController(k: Controller, w: Writer, o: Outside): Controller {
    var busy := CtlBusy(k, w);
    var next := k.(d0 := false, d1 := k.d0);
    match k.state
    case Idle => if o.trigger then next.(state := SetM) else next
    case Reconfig => if busy then next else next.(state := Busy)
    case Busy => if busy then next else next.(state := Idle)
    case ResetPLL => next.(state := ResetCTR)
    case ResetCTR => next.(state := Idle)
    case _ =>
      if busy then next
      else
        var (command, after) := Issue(k.state, o);
        Controller(after, true, k.d0, command.data, command.ctype, command.cparam)
  }

  // ---- both together ----

  datatype System = System(k: Controller, w: Writer)

  function Next(s: System, o: Outside): (r: System)
    requires WellFormed(s.w)
    ensures WellFormed(r.w)
  {
    System(NextController(s.k, s.w, o), NextWriter(s.w, PortsOf(s.k, s.w), o))
  }

  // ---- one write ----

  /** The cache after the first `count` bits of a command. */
  function PutBits(cache: seq<bool>, q: Command, count: nat): (r: seq<bool>)
    requires count <= Address(q.ctype, q.cparam) + 1 && |cache| == CACHE_BITS
    ensures |r| == CACHE_BITS
  {
    var top := Address(q.ctype, q.cparam);
    seq(CACHE_BITS, i requires 0 <= i < CACHE_BITS =>
      if top - count < i <= top then LoadBit(q.ctype, q.cparam, q.data, top - i) else cache[i])
  }

  predicate Fits(q: Command) {
    Selected(q.ctype, q.cparam) && Width(q.ctype, q.cparam) <= Address(q.ctype, q.cparam)
  }

  /** The whole field. */
  function Put(cache: seq<bool>, q: Command): (r: seq<bool>)
    requires Fits(q) && |cache| == CACHE_BITS
    ensures |r| == CACHE_BITS
  {
    PutBits(cache, q, Width(q.ctype, q.cparam) + 1)
  }

  /** The parts of the writer between commands. */
  predicate Quiet(w: Writer) {
    !w.writeInit && !w.writeInitNominal && !w.writeData && !w.writeNominal && !w.reconfiguring
  }

  /** The writer has taken the command and is about to load its counters. */
  predicate Starting(w: Writer, q: Command, cache: seq<bool>) {
    && WellFormed(w) && |cache| == CACHE_BITS && w.cache == cache
    && !w.idle && !w.resetState && !w.writeData && !w.writeNominal && !w.reconfiguring
    && w.writeInitNominal == IsNominal(q.ctype, q.cparam) && w.writeInit == !w.writeInitNominal
    && w.typeLatch == q.ctype && w.paramLatch == q.cparam
    && forall j :: 0 <= j < 18 ==> Tail(w.shift, j) == LoadBit(q.ctype, q.cparam, q.data, j)
  }

  /** `count` bits of the command are in the cache, and the others wait at the end of the shift register. */
  predicate Writing(w: Writer, q: Command, cache: seq<bool>, count: nat) {
    && WellFormed(w) && Fits(q) && |cache| == CACHE_BITS
    && !w.idle && !w.resetState && !w.writeInit && !w.writeInitNominal && !w.reconfiguring
    && w.writeNominal == IsNominal(q.ctype, q.cparam) && w.writeData == !w.writeNominal
    && w.typeLatch == q.ctype && w.paramLatch == q.cparam
    && count <= Width(q.ctype, q.cparam) <= 17
    && w.width == Width(q.ctype, q.cparam) - count
    && w.addr == Address(q.ctype, q.cparam) - count
    && (forall j :: 0 <= j <= w.width ==> Tail(w.shift, j) == LoadBit(q.ctype, q.cparam, q.data, count + j))
    && w.cache == PutBits(cache, q, count)
  }

  /** The writer takes a command presented while idle, if nominal data has been up for a cycle already. */
  lemma TakesCommand(w: Writer, p: Ports, o: Outside)
    requires WellFormed(w) && w.idle && Quiet(w) && !w.resetState
    requires p.write && !p.reset && !p.reconfig
    requires IsNominal(p.ctype, p.cparam) ==> w.nominal == Nominal(p.data)
    ensures Starting(NextWriter(w, p, o), Command(p.ctype, p.cparam, p.data), w.cache)
  {
    hide NominalBit, Bit, Loaded;
  }

  lemma LoadsCounters(w: Writer, q: Command, cache: seq<bool>, p: Ports, o: Outside)
    requires Starting(w, q, cache) && Fits(q) && Width(q.ctype, q.cparam) <= 17
    requires !p.reset
    ensures Writing(NextWriter(w, p, o), q, cache, 0)
  {
    hide LoadBit, Address, Width, Selected;
    assert PutBits(cache, q, 0) == cache;
  }

  lemma WritesBit(w: Writer, q: Command, cache: seq<bool>, count: nat, p: Ports, o: Outside)
    requires Writing(w, q, cache, count)
    requires !p.reset
    ensures var r := NextWriter(w, p, o);
      if count < Width(q.ctype, q.cparam) then Writing(r, q, cache, count + 1)
      else r.idle && Quiet(r) && !r.resetState && r.cache == Put(cache, q)
  {
    hide LoadBit, Address, Width, Selected, Shifted;
    assert Tail(w.shift, 0) == LoadBit(q.ctype, q.cparam, q.data, count + 0);
    assert NextCache(w) == PutBits(cache, q, count + 1);
  }

  // ---- one trigger ----

  /** The three counts that hold while the controller works, and the cache it starts from. */
  datatype Job = Job(m: nat, n: nat, c: nat, cache: seq<bool>)

  predicate Proper(job: Job) {
    job.m < 256 && job.n < 256 && job.c < 256 && |job.cache| == CACHE_BITS
  }

  function Cmd(job: Job, i: nat): (q: Command)
    requires i < 4
    ensures Fits(q) && Width(q.ctype, q.cparam) <= 17
  {
    match i
    case 0 => Command(1, NOMINAL, job.m)
    case 1 => Command(0, NOMINAL, job.n)
    case 2 => Command(4, 0, job.c)
    case _ => Command(4, 1, job.c)
  }

  /** The cache after the first `i` commands. */
  function Target(job: Job, i: nat): (r: seq<bool>)
    requires Proper(job) && i <= 4
    ensures |r| == CACHE_BITS
  {
    if i == 0 then job.cache else Put(Target(job, i - 1), Cmd(job, i - 1))
  }

  function SetState(i: nat): Ctl
    requires i <= 4
  {
    match i
    case 0 => SetM
    case 1 => SetN
    case 2 => SetC0H
    case 3 => SetC0L
    case _ => Reconfig
  }

  datatype Phase =
    | Waiting(i: nat)               // about to issue command i, or the reconfiguration
    | Issued(i: nat)
    | Presented(i: nat)
    | Starts(i: nat)
    | Bits(i: nat, count: nat)      // `count` bits of command i are in the cache
    | Reconfiguring
    | Settling
    | Finished

  predicate Sane(ph: Phase) {
    match ph
    case Waiting(i) => i <= 4
    case Issued(i) => i < 4
    case Presented(i) => i < 4
    case Starts(i) => i < 4
    case Bits(i, _) => i < 4
    case _ => true
  }

  predicate Asleep(k: Controller) {
    !k.d0 && !k.d1
  }

  predicate Carries(k: Controller, q: Command) {
    k.ctype == q.ctype && k.cparam == q.cparam && k.data == q.data
  }

  /** Idle with nothing going on, or waking up from a reset. */
  predicate AtRest(w: Writer) {
    Quiet(w) && w.idle != w.resetState
  }

  /** Where controller and writer are in the job. */
  predicate In(s: System, job: Job, ph: Phase) {
    && WellFormed(s.w) && Proper(job) && Sane(ph)
    && match ph
       case Waiting(i) => s.k.state == SetState(i) && Asleep(s.k) && AtRest(s.w) && s.w.cache == Target(job, i)
       case Issued(i) =>
         && s.k.state == SetState(i + 1) && s.k.d0 && !s.k.d1 && Carries(s.k, Cmd(job, i))
         && AtRest(s.w) && s.w.idle && s.w.cache == Target(job, i)
       case Presented(i) =>
         && s.k.state == SetState(i + 1) && !s.k.d0 && s.k.d1 && Carries(s.k, Cmd(job, i))
         && AtRest(s.w) && s.w.idle && s.w.nominal == Nominal(s.k.data) && s.w.cache == Target(job, i)
       case Starts(i) => s.k.state == SetState(i + 1) && Asleep(s.k) && Starting(s.w, Cmd(job, i), Target(job, i))
       case Bits(i, count) =>
         s.k.state == SetState(i + 1) && Asleep(s.k) && Writing(s.w, Cmd(job, i), Target(job, i), count)
       case Reconfiguring =>
         && s.k.state == Busy && Asleep(s.k) && s.w.reconfiguring && !s.w.idle && !s.w.resetState
         && !Active(s.w) && !Loading(s.w) && s.w.cache == Target(job, 4)
       case Settling => s.k.state == Busy && Asleep(s.k) && AtRest(s.w) && s.w.idle && s.w.cache == Target(job, 4)
       case Finished => s.k.state == Idle && Asleep(s.k) && AtRest(s.w) && s.w.idle && s.w.cache == Target(job, 4)
  }

  function NextPhase(s: System, o: Outside, ph: Phase, job: Job): Phase
    requires Sane(ph)
  {
    match ph
    case Waiting(i) => if CtlBusy(s.k, s.w) then ph else if i < 4 then Issued(i) else Reconfiguring
    case Issued(i) => Presented(i)
    case Presented(i) => Starts(i)
    case Starts(i) => Bits(i, 0)
    case Bits(i, count) =>
      if count < Width(Cmd(job, i).ctype, Cmd(job, i).cparam) then Bits(i, count + 1) else Waiting(i + 1)
    case Reconfiguring => if o.reconfigEnds then Settling else ph
    case Settling => if CtlBusy(s.k, s.w) then ph else Finished
    case Finished => ph
  }

  /** Each clock edge moves the job on as described, whatever the inputs besides m, n and c. */
  lemma Advance(s: System, o: Outside, job: Job, ph: Phase)
    requires In(s, job, ph) && !ph.Finished? && o.m == job.m && o.n == job.n && o.c == job.c
    ensures In(Next(s, o), job, NextPhase(s, o, ph, job))
  {
    hide Nominal, LoadBit, Put, PutBits, Target, NextShift, Address, Width, NominalBit;
    var p := PortsOf(s.k, s.w);
    match ph
    case Presented(i) => TakesCommand(s.w, p, o);
    case Starts(i) => LoadsCounters(s.w, Cmd(job, i), Target(job, i), p, o);
    case Bits(i, count) =>
      WritesBit(s.w, Cmd(job, i), Target(job, i), count, p, o);
      NextTarget(job, i);
    case _ =>
  }

  lemma NextTarget(job: Job, i: nat)
    requires Proper(job) && i < 4
    ensures Target(job, i + 1) == Put(Target(job, i), Cmd(job, i))
  {
  }

  // ---- runs ----

  datatype Event = Wrote(q: Command) | Reconfigured

  /** What the writer takes from the controller in one cycle. */
  function Events(s: System): seq<Event> {
    var p := PortsOf(s.k, s.w);
    (if s.w.idle && p.write then [Wrote(Command(p.ctype, p.cparam, p.data))] else [])
    + (if s.w.idle && p.reconfig then [Reconfigured] else [])
  }

  function After(s: System, os: seq<Outside>): (r: System)
    requires WellFormed(s.w)
    ensures WellFormed(r.w)
  {
    if os == [] then s else Next(After(s, os[..|os| - 1]), os[|os| - 1])
  }

  function Log(s: System, os: seq<Outside>): seq<Event>
    requires WellFormed(s.w)
  {
    if os == [] then [] else Log(s, os[..|os| - 1]) + Events(After(s, os[..|os| - 1]))
  }

  /** M, N, C0 high, C0 low, and then the reconfiguration. */
  function Expected(job: Job): seq<Event> {
    [Wrote(Cmd(job, 0)), Wrote(Cmd(job, 1)), Wrote(Cmd(job, 2)), Wrote(Cmd(job, 3)), Reconfigured]
  }

  function Count(ph: Phase): (n: nat)
    requires Sane(ph)
    ensures n <= 5
  {
    match ph
    case Waiting(i) => i
    case Issued(i) => i
    case Presented(i) => i
    case Starts(i) => i + 1
    case Bits(i, _) => i + 1
    case _ => 5
  }

  lemma EventsOf(s: System, o: Outside, job: Job, ph: Phase)
    requires In(s, job, ph) && !ph.Finished?
    ensures Sane(NextPhase(s, o, ph, job)) && Count(ph) <= Count(NextPhase(s, o, ph, job))
    ensures Events(s) == Expected(job)[Count(ph)..Count(NextPhase(s, o, ph, job))]
  {
    hide Nominal, LoadBit, Put, PutBits, Target, NextShift, Address, Width, NominalBit;
  }

  /** The controller waits for a trigger, and the writer is free or waking up. */
  predicate Ready(s: System) {
    WellFormed(s.w) && s.k.state == Idle && Asleep(s.k) && AtRest(s.w)
  }

  predicate Steady(os: seq<Outside>, m: nat, n: nat, c: nat) {
    forall t :: 0 <= t < |os| ==> os[t].m == m && os[t].n == n && os[t].c == c
  }

  /** The controller has not come back to Idle before the last of these cycles. */
  predicate Working(s: System, os: seq<Outside>)
    requires WellFormed(s.w)
  {
    forall t :: 1 <= t < |os| ==> After(s, os[..t]).k.state != Idle
  }

  lemma {:induction false} Tracks(s: System, os: seq<Outside>, job: Job) returns (ph: Phase)
    requires Ready(s) && Proper(job) && job.cache == s.w.cache
    requires os != [] && os[0].trigger && Steady(os, job.m, job.n, job.c) && Working(s, os)
    ensures In(After(s, os), job, ph) && Log(s, os) == Expected(job)[..Count(ph)]
    decreases |os|
  {
    hide Put, In, Expected, NextWriter, Count;
    if |os| == 1 {
      assert os[..0] == [];
      ph := Waiting(0);
      FirstStep(s, os, job);
    } else {
      var before := os[..|os| - 1];
      forall t | 1 <= t < |before|
        ensures After(s, before[..t]).k.state != Idle
      {
        assert before[..t] == os[..t];
      }
      var was := Tracks(s, before, job);
      var mid, o := After(s, before), os[|os| - 1];
      assert mid.k.state != Idle;
      NotFinished(mid, job, was);
      Advance(mid, o, job, was);
      EventsOf(mid, o, job, was);
      ph := NextPhase(mid, o, was, job);
      JoinEvents(job, Count(was), Count(ph));
    }
  }

  lemma NotFinished(s: System, job: Job, ph: Phase)
    requires In(s, job, ph) && s.k.state != Idle
    ensures Sane(ph) && !ph.Finished?
  {
  }

  lemma FirstStep(s: System, os: seq<Outside>, job: Job)
    requires Ready(s) && Proper(job) && job.cache == s.w.cache
    requires |os| == 1 && os[0].trigger
    ensures In(After(s, os), job, Waiting(0)) && Log(s, os) == Expected(job)[..Count(Waiting(0))]
  {
    hide Put, NextShift, Nominal;
    assert os[..0] == [];
    assert Log(s, os) == Events(s);
  }

  /**
   * One trigger, whatever else happens (further triggers, scandone at any time, any length of the
   * reconfiguration): the writer takes M, N, C0 high and C0 low in this order and then one reconfig, and when
   * the controller is back in Idle all of them have been taken and the cache is what the four writes make of it.
   */
  lemma OneTrigger(s: System, os: seq<Outside>, job: Job)
    requires Ready(s) && Proper(job) && job.cache == s.w.cache
    requires os != [] && os[0].trigger && Steady(os, job.m, job.n, job.c) && Working(s, os)
    ensures Log(s, os) <= Expected(job)
    ensures var f := After(s, os);
      && (f.k.state == Idle ==> Log(s, os) == Expected(job) && f.w.cache == Target(job, 4))
      && (Reconfigured in Log(s, os) ==> f.w.cache == Target(job, 4))
  {
    hide Put, Target, NextWriter;
    var ph := Tracks(s, os, job);
    var e := Expected(job);
    if Count(ph) < 5 {
      assert forall i :: 0 <= i < Count(ph) ==> e[i] != Reconfigured;
    }
  }

  // ---- what ends up in the cache ----

  /** The number in `len` cache bits, least significant bit at the highest address `top`. */
  function Number(cache: seq<bool>, top: nat, len: nat): nat
    requires top < |cache| && len <= top + 1
    decreases len
  {
    if len == 0 then 0
    else (if cache[top] then 1 else 0) + (if len == 1 then 0 else 2 * Number(cache, top - 1, len - 1))
  }

  function Pow2(n: nat): nat {
    if n == 0 then 1 else 2 * Pow2(n - 1)
  }

  lemma {:induction false} NumberOf(cache: seq<bool>, top: nat, len: nat, x: nat)
    requires top < |cache| && 0 < len <= top + 1 && x < Pow2(len)
    requires forall p :: top - len < p <= top ==> cache[p] == Bit(x, top - p)
    ensures Number(cache, top, len) == x
    decreases len
  {
    assert cache[top] == Bit(x, top - top);
    if len > 1 {
      forall p | top - len < p <= top - 1
        ensures cache[p] == Bit(x / 2, top - 1 - p)
      {
        assert cache[p] == Bit(x, top - p);
      }
      NumberOf(cache, top - 1, len - 1, x / 2);
    }
  }

  /** Every bit of the cache after the four writes. */
  lemma FinalBits(job: Job)
    requires Proper(job)
    ensures forall p :: 0 <= p < CACHE_BITS ==> Target(job, 4)[p] == FinalBit(job, p)
  {
    hide NominalBit, Bit, Put;
    forall p | 0 <= p < CACHE_BITS
      ensures Target(job, 4)[p] == FinalBit(job, p)
    {
      forall i: nat | i < 4
        ensures Target(job, i + 1)[p] == PutBit(Target(job, i), Cmd(job, i), p)
      {
        NextTarget(job, i);
        PutAt(Target(job, i), Cmd(job, i), p);
      }
      assert Target(job, 4)[p] == PutBit(Target(job, 3), Cmd(job, 3), p);
      assert Target(job, 3)[p] == PutBit(Target(job, 2), Cmd(job, 2), p);
      assert Target(job, 2)[p] == PutBit(Target(job, 1), Cmd(job, 1), p);
      assert Target(job, 1)[p] == PutBit(Target(job, 0), Cmd(job, 0), p);
    }
  }

  predicate FinalBit(job: Job, p: nat)
    requires p < |job.cache|
  {
    if 36 <= p <= 53 then NominalBit(job.m, 53 - p)
    else if 18 <= p <= 35 then NominalBit(job.n, 35 - p)
    else if 55 <= p <= 62 then Bit(job.c, 62 - p)
    else if 64 <= p <= 71 then Bit(job.c, 71 - p)
    else job.cache[p]
  }

  predicate PutBit(cache: seq<bool>, q: Command, p: nat)
    requires |cache| == CACHE_BITS && p < CACHE_BITS
  {
    var top := Address(q.ctype, q.cparam);
    if top - Width(q.ctype, q.cparam) <= p <= top then LoadBit(q.ctype, q.cparam, q.data, top - p) else cache[p]
  }

  lemma PutAt(cache: seq<bool>, q: Command, p: nat)
    requires Fits(q) && |cache| == CACHE_BITS && p < CACHE_BITS
    ensures Put(cache, q)[p] == PutBit(cache, q, p)
  {
  }

  /** A field holding a nominal count holds it as high plus low, with the odd and bypass bits set as they should be. */
  lemma NominalField(cache: seq<bool>, top: nat, x: nat)
    requires 17 <= top < |cache| && x < 256
    requires forall p :: top - 18 < p <= top ==> cache[p] == NominalBit(x, top - p)
    ensures Number(cache, top, 8) + Number(cache, top - 9, 8) == x
    ensures Number(cache, top, 8) - Number(cache, top - 9, 8) == x % 2
    ensures cache[top - 8] <==> x % 2 == 1
    ensures cache[top - 17] <==> x == 1
  {
    hide Number;
    assert Pow2(8) == 256;
    NumberOf(cache, top, 8, x / 2 + x % 2);
    forall p | top - 17 < p <= top - 9
      ensures cache[p] == Bit(x / 2, top - 9 - p)
    {
      assert cache[p] == NominalBit(x, top - p);
      assert Bit(x, top - p - 8) == Bit(x / 2, top - p - 9);
    }
    NumberOf(cache, top - 9, 8, x / 2);
    assert cache[top - 8] == NominalBit(x, 8) && cache[top - 17] == NominalBit(x, 17);
  }

  /**
   * After a completed job, M is at 36..53 and N at 18..35 with high plus low equal to the count, C is at 55..62
   * and at 64..71, and every other bit of the cache is as it was.
   */
  lemma JobDone(s: System, os: seq<Outside>, job: Job)
    requires Ready(s) && Proper(job) && job.cache == s.w.cache
    requires os != [] && os[0].trigger && Steady(os, job.m, job.n, job.c) && Working(s, os)
    requires After(s, os).k.state == Idle
    ensures var r := After(s, os).w.cache;
      && Number(r, 53, 8) + Number(r, 44, 8) == job.m && (r[45] <==> job.m % 2 == 1) && (r[36] <==> job.m == 1)
      && Number(r, 35, 8) + Number(r, 26, 8) == job.n && (r[27] <==> job.n % 2 == 1) && (r[18] <==> job.n == 1)
      && Number(r, 53, 8) - Number(r, 44, 8) == job.m % 2 && Number(r, 35, 8) - Number(r, 26, 8) == job.n % 2
      && Number(r, 62, 8) == job.c && Number(r, 71, 8) == job.c
      && forall p :: 0 <= p < CACHE_BITS && !(18 <= p <= 53) && !(55 <= p <= 62) && !(64 <= p <= 71) ==>
        r[p] == s.w.cache[p]
  {
    hide Number, NominalBit, Bit, Target, After, Log, Expected, Ready, Working;
    OneTrigger(s, os, job);
    FinalBits(job);
    var r := Target(job, 4);
    assert forall p :: 0 <= p < CACHE_BITS ==> r[p] == FinalBit(job, p);
    NominalField(r, 53, job.m);
    NominalField(r, 35, job.n);
    assert Pow2(8) == 256;
    NumberOf(r, 62, 8, job.c);
    NumberOf(r, 71, 8, job.c);
  }

  // ---- how long it takes ----

  /** Clock cycles from a phase to the reconfiguration, if the writer is never held up. */
  function Left(ph: Phase): nat
    requires Sane(ph) && (ph.Bits? ==> ph.count <= LastBit(ph.i))
  {
    match ph
    case Waiting(i) => FromWaiting(i)
    case Issued(i) => FromWaiting(i) - 1
    case Presented(i) => FromWaiting(i) - 2
    case Starts(i) => FromWaiting(i) - 3
    case Bits(i, count) => FromWaiting(i) - 4 - count
    case _ => 0
  }

  function LastBit(i: nat): nat
  {
    if i < 2 then 17 else 7
  }

  function FromWaiting(i: nat): nat
    requires i <= 4
  {
    match i
    case 0 => 69
    case 1 => 47
    case 2 => 25
    case 3 => 13
    case _ => 1
  }

  /** No scandone is on its way to hold the writer busy. */
  predicate Calm(w: Writer) {
    !w.areset1 && !w.areset && !w.resetState
  }

  lemma OneLess(s: System, o: Outside, job: Job, ph: Phase)
    requires In(s, job, ph) && Calm(s.w) && !o.scandone
    requires ph.Bits? ==> ph.count <= LastBit(ph.i)
    requires Left(ph) > 0
    ensures var q := NextPhase(s, o, ph, job);
      && Sane(q) && (q.Bits? ==> q.count <= LastBit(q.i)) && Left(q) == Left(ph) - 1
      && Calm(Next(s, o).w)
  {
    hide Nominal, LoadBit, Put, PutBits, Target, NextShift, Address, NominalBit;
  }

  predicate Undisturbed(os: seq<Outside>, job: Job) {
    forall t :: 0 <= t < |os| ==> os[t].m == job.m && os[t].n == job.n && os[t].c == job.c && !os[t].scandone
  }

  lemma UndisturbedPrefix(os: seq<Outside>, job: Job)
    requires os != [] && Undisturbed(os, job)
    ensures Undisturbed(os[..|os| - 1], job)
    ensures var o := os[|os| - 1]; o.m == job.m && o.n == job.n && o.c == job.c && !o.scandone
  {
  }

  lemma InPhase(s: System, job: Job, ph: Phase, left: nat)
    requires Due(s, job, ph, left)
    ensures Sane(ph)
  {
  }

  /** In the phase, undisturbed, and with `left` cycles to go. */
  predicate Due(s: System, job: Job, ph: Phase, left: nat) {
    In(s, job, ph) && Calm(s.w) && (ph.Bits? ==> ph.count <= LastBit(ph.i)) && Left(ph) == left
  }

  lemma DueStep(s: System, o: Outside, job: Job, ph: Phase, left: nat)
    requires Due(s, job, ph, left) && left > 0 && !o.scandone && o.m == job.m && o.n == job.n && o.c == job.c
    ensures s.k.state != Idle && Due(Next(s, o), job, NextPhase(s, o, ph, job), left - 1)
    ensures Count(ph) <= Count(NextPhase(s, o, ph, job))
    ensures Events(s) == Expected(job)[Count(ph)..Count(NextPhase(s, o, ph, job))]
  {
    hide Next, NextPhase, Events, Count, Expected;
    Advance(s, o, job, ph);
    OneLess(s, o, job, ph);
    EventsOf(s, o, job, ph);
  }

  lemma {:induction false} OnTime(s: System, os: seq<Outside>, job: Job) returns (ph: Phase)
    requires WellFormed(s.w) && Ready(s) && Calm(s.w) && Proper(job) && job.cache == s.w.cache
    requires 0 < |os| <= 70 && os[0].trigger && Undisturbed(os, job)
    ensures Due(After(s, os), job, ph, 70 - |os|) && Sane(ph)
    ensures Log(s, os) == Expected(job)[..Count(ph)]
    decreases |os|
  {
    hide In, Due, Calm, Ready, Undisturbed, Expected, Events, Count, Left, NextPhase, Next, Proper, WellFormed;
    UndisturbedPrefix(os, job);
    if |os| == 1 {
      ph := Waiting(0);
      FirstStep(s, os, job);
      FirstDue(s, os, job);
    } else {
      var before := os[..|os| - 1];
      var was := OnTime(s, before, job);
      var mid, o := After(s, before), os[|os| - 1];
      DueStep(mid, o, job, was, 71 - |os|);
      ph := NextPhase(mid, o, was, job);
      InPhase(After(s, os), job, ph, 70 - |os|);
      JoinEvents(job, Count(was), Count(ph));
      assert After(s, os) == Next(mid, o) && Log(s, os) == Log(s, before) + Events(mid);
    }
  }

  lemma FirstDue(s: System, os: seq<Outside>, job: Job)
    requires Ready(s) && Calm(s.w) && |os| == 1 && !os[0].scandone && In(After(s, os), job, Waiting(0))
    ensures Due(After(s, os), job, Waiting(0), 69)
  {
    hide NextWriter;
    assert os[..0] == [];
    CalmStart(s, os[0]);
    assert After(s, os) == Next(s, os[0]);
  }

  lemma JoinEvents(job: Job, i: nat, j: nat)
    requires i <= j <= 5
    ensures Expected(job)[..i] + Expected(job)[i..j] == Expected(job)[..j]
  {
  }

  lemma CalmStart(s: System, o: Outside)
    requires Ready(s) && Calm(s.w) && !o.scandone
    ensures Calm(Next(s, o).w)
  {
    hide Nominal, NextShift;
  }

  /** Undisturbed, the reconfiguration is requested exactly 70 cycles after the trigger is seen, never earlier. */
  lemma SeventyCycles(s: System, os: seq<Outside>, job: Job)
    requires Ready(s) && Calm(s.w) && Proper(job) && job.cache == s.w.cache
    requires 0 < |os| <= 70 && os[0].trigger && Undisturbed(os, job)
    ensures Reconfigured in Log(s, os) <==> |os| == 70
  {
    hide NextWriter, Log, After;
    var ph := OnTime(s, os, job);
    var e := Expected(job);
    if Count(ph) < 5 {
      assert forall i :: 0 <= i < Count(ph) ==> e[i] != Reconfigured;
    } else {
      assert e[..5][4] == Reconfigured;
    }
    assert Count(ph) == 5 <==> Left(ph) == 0;
  }

  // ---- the registers ----

  /** The one-bit state registers. */
  datatype Flags = Flags(
    idle: bool, resetState: bool, writeInit: bool, writeInitNominal: bool, writeData: bool, writeNominal: bool,
    reconfiguring: bool, areset1: bool, areset: bool)

  function FlagsOf(w: Writer): Flags {
    Flags(w.idle, w.resetState, w.writeInit, w.writeInitNominal, w.writeData, w.writeNominal, w.reconfiguring,
          w.areset1, w.areset)
  }

  /** The clocked registers of the writer; the scan cache is a RAM written in place. */
  class WriterRegisters {
    var flags: Flags
    var typeLatch: nat
    var paramLatch: nat
    var nominal: seq<bool>
    var shift: seq<bool>
    var width: nat
    var addr: nat
    const cache: array<bool>

    ghost function Snapshot(): Writer
      reads this, cache
    {
      Writer(flags.idle, flags.resetState, flags.writeInit, flags.writeInitNominal, flags.writeData, flags.writeNominal,
             flags.reconfiguring, typeLatch, paramLatch, nominal, shift, width, addr, flags.areset1, flags.areset,
             cache[..])
    }

    ghost predicate Valid()
      reads this, cache
    {
      WellFormed(Snapshot())
    }

    /** Power-up: reset_state is the only flag set. */
    constructor (bits: seq<bool>)
      requires |bits| == CACHE_BITS
      ensures Valid() && fresh(cache) && cache[..] == bits && AtRest(Snapshot())
    {
      flags := Flags(false, true, false, false, false, false, false, false, false);
      typeLatch, paramLatch, width, addr := 0, 0, 0, 0;
      nominal, shift := Zeros(), Zeros();
      cache := new bool[CACHE_BITS](i requires 0 <= i < |bits| => bits[i]);
    }

    /** One rising edge without reset. The parts are clocked in an order in which each still sees the old values. */
    method Clock(p: Ports, o: Outside)
      requires Valid() && !p.reset
      modifies this, cache
      ensures Snapshot() == NextWriter(old(Snapshot()), p, o)
    {
      ghost var w := Snapshot();
      hide WellFormed, NextWriter, NextCache, NextShift, NextWidth, NextAddr, Nominal;
      var done := width == 0;
      ClockRam(w);
      ClockShift(p, o, w);
      ClockCounters(w);
      ClockLatches(p);
      ClockFlags(p, o, done, w);
      NextRegisters(w, p, o);
    }

    lemma NextRegisters(w: Writer, p: Ports, o: Outside)
      requires WellFormed(w) && !p.reset
      ensures var r := NextWriter(w, p, o);
        && r.cache == NextCache(w) && r.nominal == Nominal(p.data) && r.shift == NextShift(w, p, o)
        && r.width == NextWidth(w) && r.addr == NextAddr(w)
        && r.typeLatch == (if w.idle && p.write then p.ctype else w.typeLatch)
        && r.paramLatch == (if w.idle && p.write then p.cparam else w.paramLatch)
    {
      hide NextCache, NextShift, NextWidth, NextAddr, Nominal;
    }

    method ClockRam(ghost w: Writer)
      requires WellFormed(w) && Snapshot() == w
      modifies cache
      ensures cache[..] == NextCache(w)
    {
      if flags.writeData || flags.writeNominal {
        cache[addr] := Selected(typeLatch, paramLatch) && shift[17];
      }
    }

    method ClockShift(p: Ports, o: Outside, ghost w: Writer)
      requires WellFormed(w) && flags == FlagsOf(w) && nominal == w.nominal && shift == w.shift
      modifies `nominal, `shift
      ensures nominal == Nominal(p.data) && shift == NextShift(w, p, o)
    {
      if flags.idle && p.write {
        shift := Loaded(nominal, p);
      } else if flags.writeData || flags.writeNominal {
        shift := [o.scanOut] + shift[..17];
      }
      nominal := Nominal(p.data);
    }

    method ClockCounters(ghost w: Writer)
      requires WellFormed(w) && flags == FlagsOf(w) && width == w.width && addr == w.addr
      requires typeLatch == w.typeLatch && paramLatch == w.paramLatch
      modifies `width, `addr
      ensures width == NextWidth(w) && addr == NextAddr(w)
    {
      if flags.writeInit || flags.writeInitNominal {
        width, addr := Width(typeLatch, paramLatch), Address(typeLatch, paramLatch);
      } else if flags.writeData || flags.writeNominal {
        width := if width == 0 then 31 else width - 1;
        addr := if addr == 0 then CACHE_BITS - 1 else addr - 1;
      }
    }

    method ClockLatches(p: Ports)
      modifies `typeLatch, `paramLatch
      ensures typeLatch == if flags.idle && p.write then p.ctype else old(typeLatch)
      ensures paramLatch == if flags.idle && p.write then p.cparam else old(paramLatch)
    {
      if flags.idle && p.write {
        typeLatch, paramLatch := p.ctype, p.cparam;
      }
    }

    lemma NextFlags(w: Writer, p: Ports, o: Outside)
      requires WellFormed(w) && !p.reset
      ensures var r, done, count := NextWriter(w, p, o), w.width == 0, p.ctype < 2 && p.cparam == NOMINAL;
        && r.idle == ((w.idle && !p.write && !p.reconfig) || (w.writeData && done) || (w.writeNominal && done)
                      || (w.reconfiguring && o.reconfigEnds) || w.resetState)
        && r.resetState == (!w.resetState && !w.idle && !w.writeInit && !w.writeData && !w.writeInitNominal
                            && !w.writeNominal && !w.reconfiguring)
        && r.writeInit == (w.idle && p.write && !count) && r.writeInitNominal == (w.idle && p.write && count)
        && r.writeData == (w.writeInit || (w.writeData && !done))
        && r.writeNominal == (w.writeInitNominal || (w.writeNominal && !done))
        && r.reconfiguring == ((w.idle && p.reconfig) || (w.reconfiguring && !o.reconfigEnds))
        && r.areset1 == o.scandone && r.areset == w.areset1
    {
      hide NextCache, NextShift, NextWidth, NextAddr, Nominal;
    }

    method ClockFlags(p: Ports, o: Outside, done: bool, ghost w: Writer)
      requires WellFormed(w) && !p.reset && done == (w.width == 0) && flags == FlagsOf(w)
      modifies `flags
      ensures flags == FlagsOf(NextWriter(w, p, o))
    {
      hide WellFormed, NextWriter;
      NextFlags(w, p, o);
      var f, load, count := flags, flags.idle && p.write, p.ctype < 2 && p.cparam == NOMINAL;
      flags := Flags(
        idle := (f.idle && !p.write && !p.reconfig) || (f.writeData && done) || (f.writeNominal && done)
                || (f.reconfiguring && o.reconfigEnds) || f.resetState,
        resetState := !f.resetState && !f.idle && !f.writeInit && !f.writeData && !f.writeInitNominal && !f.writeNominal
                      && !f.reconfiguring,
        writeInit := load && !count,
        writeInitNominal := load && count,
        writeData := f.writeInit || (f.writeData && !done),
        writeNominal := f.writeInitNominal || (f.writeNominal && !done),
        reconfiguring := (f.idle && p.reconfig) || (f.reconfiguring && !o.reconfigEnds),
        areset1 := o.scandone,
        areset := f.areset1);
    }

    /** The asynchronous reset: the flags and the data registers are cleared, the counters and the RAM are not. */
    method Reset(o: Outside)
      requires Valid()
      modifies this
      ensures Snapshot() == WasReset(old(Snapshot()), o)
    {
      flags := Flags(false, true, false, false, false, false, false, o.scandone, false);
      typeLatch, paramLatch, nominal, shift := 0, 0, Zeros(), Zeros();
    }
  }

  /** The controller's registers, and the writer wired to its ports. */
  class Board {
    const writer: WriterRegisters
    var state: Ctl
    var d0: bool
    var d1: bool
    var data: nat
    var ctype: nat
    var cparam: nat

    ghost function Snapshot(): System
      reads this, writer, writer.cache
    {
      System(Controller(state, d0, d1, data, ctype, cparam), writer.Snapshot())
    }

    ghost predicate Valid()
      reads this, writer, writer.cache
    {
      writer.Valid()
    }

    /** After sys_reset the controller is about to reset the PLL. */
    constructor (bits: seq<bool>)
      requires |bits| == CACHE_BITS
      ensures Valid() && fresh(writer) && fresh(writer.cache) && writer.cache[..] == bits && state == ResetPLL
    {
      writer := new WriterRegisters(bits);
      state, d0, d1, data, ctype, cparam := ResetPLL, false, false, 0, 0, 0;
    }

    /** One clock edge of both. */
    method Clock(o: Outside)
      requires Valid()
      modifies this, writer, writer.cache
      ensures Valid() && Snapshot() == Next(old(Snapshot()), o)
    {
      hide NextWriter, NextController, WellFormed;
      ghost var s := Snapshot();
      assert WellFormed(s.w);
      var busy := d0 || d1 || !writer.flags.idle || writer.flags.areset;
      var ports := Ports(d1, state == Reconfig && !busy, state == ResetCTR, ctype, cparam, data);
      assert ports == PortsOf(s.k, s.w) && busy == CtlBusy(s.k, s.w);
      ClockWriter(ports, o);
      ClockController(busy, o, s);
      assert Snapshot() == Next(s, o);
    }

    method ClockWriter(ports: Ports, o: Outside)
      requires writer.Valid()
      modifies writer, writer.cache
      ensures writer.Valid() && writer.Snapshot() == NextWriter(old(writer.Snapshot()), ports, o)
    {
      hide WriterRegisters.Snapshot, NextCache, NextShift, NextWidth, NextAddr, Nominal, WellFormed, WasReset;
      ghost var w := writer.Snapshot();
      if ports.reset {
        writer.Reset(o);
        assert NextWriter(w, ports, o) == WasReset(w, o);
      } else {
        writer.Clock(ports, o);
      }
    }

    method ClockController(busy: bool, o: Outside, ghost s: System)
      requires Controller(state, d0, d1, data, ctype, cparam) == s.k && busy == CtlBusy(s.k, s.w)
      modifies this
      ensures Controller(state, d0, d1, data, ctype, cparam) == NextController(s.k, s.w, o)
    {
      hide CtlBusy;
      d0, d1 := false, d0;
      match state {
        case Idle => state := if o.trigger then SetM else Idle;
        case SetM =>
          if !busy {
            d0, ctype, cparam, data, state := true, 1, 7, o.m, SetN;
          }
        case SetN =>
          if !busy {
            d0, ctype, cparam, data, state := true, 0, 7, o.n, SetC0H;
          }
        case SetC0H =>
          if !busy {
            d0, ctype, cparam, data, state := true, 4, 0, o.c, SetC0L;
          }
        case SetC0L =>
          if !busy {
            d0, ctype, cparam, data, state := true, 4, 1, o.c, Reconfig;
          }
        case Reconfig => state := if busy then Reconfig else Busy;
        case Busy => state := if busy then Busy else Idle;
        case ResetPLL => state := ResetCTR;
        case ResetCTR => state := Idle;
      }
    }
  }

  /** From power-up, two cycles bring the controller to Idle with the writer waking up, and the cache untouched. */
  lemma PowersUp(s: System, a: Outside, b: Outside)
    requires WellFormed(s.w) && s.k.state == ResetPLL && Asleep(s.k) && AtRest(s.w)
    ensures var f := Next(Next(s, a), b); Ready(f) && f.w.cache == s.w.cache
  {
    hide Nominal, NextShift;
  }
}
