/**
 * A vector file: its lines, the requests they become, and the way of these through stage and SRAM (the section
 * parsers of user/confrd/parser_vec.c and the loop of parse_file).
 */
module VectorFile {
  import opened Bytes
  import opened VectorText
  import opened VectorScan
  import V = VectorLines
  import S = RequestStream
  import opened Requests

  const EAGAIN: int := 11

  /** A line, trimmed, with the section it is in. */
  datatype Line =
    | PinLine(s: bytes)
    | ClockLine(s: bytes)
    | TriggerLine(s: bytes)
    | VectorLine(s: bytes)

  /** What a line says. */
  datatype Sense =
    | PinSense(ws: seq<PinWord>, gaps: seq<bytes>)
    | ClockSense(ws: seq<PinWord>, gaps: seq<bytes>)
    | TriggerSense(ws: seq<PinWord>, gaps: seq<bytes>)
    | VectorSense(es: seq<Item>)

  /** Limits: no separators at the ends, no minus signs, and no clock or trigger pins beyond the last. */
  predicate Plain(line: Line) {
    match line
    case PinLine(s) => Trimmed(s) && 45 !in s
    case VectorLine(_) => true
    case _ =>
      && Trimmed(line.s) && 45 !in line.s
      && forall i :: 0 <= i < |Words(line.s)| ==> Words(line.s)[i] != [] && Strtol(Words(line.s)[i], 1).0 < PINS
  }

  /** The line is text that says this, and it may stand where these pins are declared. */
  predicate Reads(line: Line, sense: Sense, pins: seq<Pin>) {
    match sense
    case PinSense(ws, gaps) => line.PinLine? && Defines(line.s, ws, gaps) && |ws| < 48 && InRange(PinsMeant(ws))
    case ClockSense(ws, gaps) => line.ClockLine? && Defines(line.s, ws, gaps) && |ws| < 24 && OnlyKind(ws, Input)
    case TriggerSense(ws, gaps) =>
      line.TriggerLine? && Defines(line.s, ws, gaps) && |ws| < 24 && OnlyKind(ws, Output)
    case VectorSense(es) => line.VectorLine? && Spells(line.s, es) && Fits(es, pins)
  }

  ghost predicate Readable(line: Line, pins: seq<Pin>) {
    exists sense :: Reads(line, sense, pins)
  }

  /** The pins declared after a line. */
  function PinsAfter(sense: Sense, pins: seq<Pin>): seq<Pin> {
    if sense.PinSense? && forall i :: 0 <= i < |sense.ws| ==> GoodPin(sense.ws[i]) then PinsMeant(sense.ws) else pins
  }

  datatype Settings = Settings(m: byte, n: byte, c: byte)

  /** The requests of a line: one, but the PLL settings come before the first vector. */
  ghost predicate Tells(sense: Sense, pins: seq<Pin>, seen: bool, pll: Settings, rs: seq<Request>) {
    if sense.VectorSense? then
      && |rs| == (if seen then 1 else 2) && (!seen ==> rs[0] == PllSettings(pll.m, pll.n, pll.c))
      && rs[|rs| - 1].TestVector?
      && V.Encodes(rs[|rs| - 1].vector, pins, Chars(sense.es), Cycles(sense.es), Mode(sense.es))
    else
      && |rs| == 1 && Sound(rs[0]) && (forall i :: 0 <= i < |sense.ws| ==> GoodPin(sense.ws[i]))
      && match sense
         case PinSense(ws, _) => rs[0].SetupBitmask? && V.Declares(rs[0].mask, PinsMeant(ws), Output)
         case ClockSense(ws, _) => rs[0].SetupMuxes? && V.Declares(rs[0].mask, PinsMeant(ws), Input)
         case TriggerSense(ws, _) => rs[0].TriggerMask? && V.Declares(rs[0].mask, PinsMeant(ws), Output)
         case _ => false
  }

  // ---- a whole file ----

  /** The pins declared before line k. */
  function PinsBefore(senses: seq<Sense>, k: nat): seq<Pin>
    requires k <= |senses|
  {
    if k == 0 then [] else PinsAfter(senses[k - 1], PinsBefore(senses, k - 1))
  }

  predicate SeenBefore(senses: seq<Sense>, k: nat)
    requires k <= |senses|
  {
    exists i :: 0 <= i < k && senses[i].VectorSense?
  }

  /** The first lines of the file say this. */
  predicate ReadsAll(lines: seq<Line>, senses: seq<Sense>) {
    |senses| == |lines| && forall k :: 0 <= k < |lines| ==> Reads(lines[k], senses[k], PinsBefore(senses, k))
  }

  ghost predicate TellsAll(senses: seq<Sense>, pll: Settings, groups: seq<seq<Request>>) {
    && |groups| == |senses|
    && forall k :: 0 <= k < |senses| ==>
      Tells(senses[k], PinsBefore(senses, k), SeenBefore(senses, k), pll, groups[k])
  }

  function Concat(groups: seq<seq<Request>>): seq<Request> {
    if groups == [] then [] else Concat(groups[..|groups| - 1]) + groups[|groups| - 1]
  }

  /** No request is lost, repeated or reordered: the flushed images and the stage hold them all. */
  ghost predicate Delivered(images: seq<bytes>, flushes: seq<seq<Request>>, staged: seq<Request>, all: seq<Request>) {
    && Concat(flushes) + staged == all && |flushes| == |images|
    && forall k :: 0 <= k < |flushes| ==> Arrived(images[k], flushes[k])
  }

  // ---- one reading only ----

  lemma OneMeaning(s: bytes, a: seq<PinWord>, g: seq<bytes>, b: seq<PinWord>, h: seq<bytes>)
    requires Trimmed(s) && 45 !in s && Defines(s, a, g) && Defines(s, b, h)
    requires InRange(PinsMeant(a)) && InRange(PinsMeant(b))
    ensures PinsMeant(a) == PinsMeant(b)
  {
    hide Defines, PinMeant, GoodPin, Trimmed, Words, PinsOf;
    DefinitionIff(s);
  }

  lemma SameAfter(line: Line, a: Sense, b: Sense, pins: seq<Pin>)
    requires Plain(line) && Reads(line, a, pins) && Reads(line, b, pins)
    ensures PinsAfter(a, pins) == PinsAfter(b, pins) && (a.VectorSense? <==> b.VectorSense?)
  {
    hide Defines, PinMeant, GoodPin, Trimmed, Words;
    if line.PinLine? {
      DefinesGood(line.s, a.ws, a.gaps);
      DefinesGood(line.s, b.ws, b.gaps);
      OneMeaning(line.s, a.ws, a.gaps, b.ws, b.gaps);
    }
  }

  lemma {:induction false} SamePins(lines: seq<Line>, a: seq<Sense>, b: seq<Sense>, k: nat)
    requires k <= |lines| == |b| && k <= |a| && forall i :: 0 <= i < |lines| ==> Plain(lines[i])
    requires forall i :: 0 <= i < k ==> Reads(lines[i], a[i], PinsBefore(a, i))
    requires ReadsAll(lines, b)
    ensures PinsBefore(a, k) == PinsBefore(b, k)
    decreases k
  {
    hide Reads, Plain, PinsAfter;
    if k > 0 {
      SamePins(lines, a, b, k - 1);
      SameAfter(lines[k - 1], a[k - 1], b[k - 1], PinsBefore(a, k - 1));
    }
  }

  lemma Unreadable(lines: seq<Line>, a: seq<Sense>, k: nat)
    requires k < |lines| && k == |a| && forall i :: 0 <= i < |lines| ==> Plain(lines[i])
    requires forall i :: 0 <= i < k ==> Reads(lines[i], a[i], PinsBefore(a, i))
    requires !Readable(lines[k], PinsBefore(a, k))
    ensures forall b :: !ReadsAll(lines, b)
  {
    hide Reads, Plain, Readable;
    forall b
      ensures !ReadsAll(lines, b)
    {
      if ReadsAll(lines, b) {
        SamePins(lines, a, b, k);
        ReadsOne(lines, b, k);
      }
    }
  }

  lemma ReadsOne(lines: seq<Line>, senses: seq<Sense>, k: nat)
    requires k < |lines| && ReadsAll(lines, senses)
    ensures k < |senses| && Readable(lines[k], PinsBefore(senses, k))
  {
    hide Reads;
  }

  // ---- what the section parsers accept ----

  lemma PinReadable(line: Line, pins: seq<Pin>)
    requires line.PinLine?
    ensures Readable(line, pins) <==>
      exists ws, gaps :: Defines(line.s, ws, gaps) && |ws| < 48 && InRange(PinsMeant(ws))
  {
    hide PinMeant, Word, GoodPin, Splits;
    if ws, gaps :| Defines(line.s, ws, gaps) && |ws| < 48 && InRange(PinsMeant(ws)) {
      assert Reads(line, PinSense(ws, gaps), pins);
    }
  }

  lemma MaskReadable(line: Line, pins: seq<Pin>, kind: Kind)
    requires if kind == Input then line.ClockLine? else line.TriggerLine?
    ensures Readable(line, pins) <==> exists ws, gaps :: Defines(line.s, ws, gaps) && |ws| < 24 && OnlyKind(ws, kind)
  {
    hide Defines, OnlyKind;
    if ws, gaps :| Defines(line.s, ws, gaps) && |ws| < 24 && OnlyKind(ws, kind) {
      assert Reads(line, if kind == Input then ClockSense(ws, gaps) else TriggerSense(ws, gaps), pins);
    }
  }

  lemma VectorReadable(line: Line, pins: seq<Pin>)
    requires line.VectorLine?
    ensures Readable(line, pins) <==> exists es :: Spells(line.s, es) && Fits(es, pins)
  {
    hide Spells, Fits;
    if es :| Spells(line.s, es) && Fits(es, pins) {
      assert Reads(line, VectorSense(es), pins);
    }
  }

  lemma SenseGood(line: Line, sense: Sense, pins: seq<Pin>)
    requires Reads(line, sense, pins)
    ensures match sense case VectorSense(_) => true case _ => forall i :: 0 <= i < |sense.ws| ==> GoodPin(sense.ws[i])
  {
  }

  lemma {:induction false} BeforeMore(senses: seq<Sense>, more: Sense, k: nat)
    requires k <= |senses|
    ensures PinsBefore(senses + [more], k) == PinsBefore(senses, k)
    ensures SeenBefore(senses + [more], k) == SeenBefore(senses, k)
    decreases k
  {
    hide PinsAfter;
    assert forall i :: 0 <= i < k ==> (senses + [more])[i] == senses[i];
    if k > 0 {
      BeforeMore(senses, more, k - 1);
    }
  }

  // ---- reading ----

  class Reader {
    const info: V.ParserInfo
    const stage: S.Stage
    const sram: S.Sram
    const pll: Settings
    var seen: bool                      // pi->seen_vectors
    var output: seq<seq<bv8>>           // pi->output, up to pi->output_idx
    ghost var staged: seq<Request>
    ghost var emitted: seq<Request>     // all since init_parserinfo

    ghost predicate Valid()
      reads this, info, info.pins, stage, stage.stage, sram, sram.words
    {
      && info.Valid() && sram.Valid() && Staging()
      && InRange(info.Declared()) && output == Outputs(emitted)
    }

    ghost predicate Staging()
      reads this, stage, stage.stage
    {
      stage.Valid() && AllSound(staged) && End !in staged && stage.requests == Raws(staged)
    }

    /** init_parserinfo */
    constructor (sram: S.Sram, pll: Settings)
      requires sram.Valid()
      ensures Valid() && this.sram == sram && this.pll == pll && fresh(stage) && fresh(stage.stage)
      ensures fresh(info) && fresh(info.pins) && fresh(info.bitmask) && fresh(info.clockMask) && fresh(info.triggerMask)
      ensures !seen && staged == [] && emitted == [] && info.Declared() == []
    {
      info := new V.ParserInfo();
      stage := new S.Stage();
      this.sram, this.pll, seen, output, staged, emitted := sram, pll, false, [], [], [];
    }

    /** A request of the file goes to the stage, or is refused with EAGAIN. */
    method Emit(r: Request) returns (ok: bool)
      requires Staging() && Sound(r) && r != End
      modifies this`staged, this`emitted, stage, stage.stage
      ensures Staging() && emitted == old(emitted) + if ok then [r] else []
      ensures ok <==> old(stage.off) + |Raw(r)| + 6 <= 0x20_0000
      ensures staged == old(staged) + if ok then [r] else []
      ensures stage.off == old(stage.off) + if ok then |Raw(r)| else 0
    {
      hide Raw, Sound;
      Sized(r);
      ok := stage.Emit(Raw(r));
      if ok {
        assert Raws(staged + [r]) == Raws(staged) + [Raw(r)];
        staged, emitted := staged + [r], emitted + [r];
      }
    }

    /** A request that is no vector. */
    method EmitOther(r: Request) returns (ok: bool)
      requires Valid() && Sound(r) && r != End && !r.TestVector?
      modifies this`staged, this`emitted, stage, stage.stage
      ensures Valid()
      ensures ok <==> old(stage.off) + 12 <= 0x20_0000
      ensures staged == old(staged) + if ok then [r] else []
      ensures emitted == old(emitted) + if ok then [r] else []
      ensures stage.off == old(stage.off) + if ok then 6 else 0
    {
      hide Raw, Sound, Outputs;
      Sized(r);
      OutputsMore(emitted, r);
      assert Outputs(emitted) + [] == Outputs(emitted) && emitted + [] == emitted;
      ok := Emit(r);
    }

    /** The expected outputs of a vector are kept, and it goes to the stage. */
    method EmitVector(v: V.Vector) returns (ok: bool)
      requires Valid() && Sound(TestVector(v)) && stage.off + 18 <= 0x20_0000
      modifies this`staged, this`emitted, this`output, stage, stage.stage
      ensures Valid() && output == old(output) + [v.output]
      ensures staged == old(staged) + [TestVector(v)] && emitted == old(emitted) + [TestVector(v)]
    {
      hide Raw, Sound, Outputs;
      Sized(TestVector(v));
      OutputsMore(emitted, TestVector(v));
      output := output + [v.output];
      ok := Emit(TestVector(v));
    }

    /** parse_line_pindef; its chunk is allocated first. */
    method TakePins(line: Line) returns (rc: int, ghost sense: Sense, ghost rs: seq<Request>)
      requires Valid() && Plain(line) && line.PinLine?
      modifies this`staged, this`emitted, stage, stage.stage, info, info.pins, info.bitmask
      ensures Valid()
      ensures rc == EAGAIN <==> old(stage.off) + 12 > 0x20_0000
      ensures rc != 0 ==> staged == old(staged) && emitted == old(emitted)
      ensures rc == EAGAIN ==> info.Declared() == old(info.Declared())
      ensures rc == 0 ==> Reads(line, sense, old(info.Declared())) && staged == old(staged) + rs
      ensures rc == 0 ==> emitted == old(emitted) + rs && Tells(sense, old(info.Declared()), seen, pll, rs)
      ensures rc == 0 ==> info.Declared() == PinsAfter(sense, old(info.Declared()))
      ensures rc != 0 && rc != EAGAIN ==> rc == -1 && !Readable(line, old(info.Declared()))
    {
      hide Raw, Trimmed, V.Declares, GoodPin, PinMeant, Splits, Readable, Outputs;
      sense, rs := VectorSense([]), [];
      PinReadable(line, info.Declared());
      if stage.free < 12 {
        return EAGAIN, sense, rs;
      }
      ghost var pins := info.Declared();
      rc := info.ParsePindef(line.s);
      if rc != 0 {
        return -1, sense, rs;
      }
      sense := ReadableSense(line, pins);
      var r := SetupBitmask(info.bitmask[..]);
      var ok := EmitOther(r);
      rs := [r];
    }

    /** parse_line_clock and parse_line_trgmask. */
    method TakeMask(line: Line) returns (rc: int, ghost sense: Sense, ghost rs: seq<Request>)
      requires Valid() && Plain(line) && (line.ClockLine? || line.TriggerLine?)
      modifies this`staged, this`emitted, stage, stage.stage, info.clockMask, info.triggerMask
      ensures Valid()
      ensures rc == EAGAIN <==> old(stage.off) + 12 > 0x20_0000
      ensures rc != 0 ==> staged == old(staged) && emitted == old(emitted)
      ensures rc == 0 ==> Reads(line, sense, info.Declared()) && staged == old(staged) + rs
      ensures rc == 0 ==> emitted == old(emitted) + rs && Tells(sense, info.Declared(), seen, pll, rs)
      ensures rc != 0 && rc != EAGAIN ==> rc == -1 && !Readable(line, info.Declared())
    {
      hide Raw, V.Declares, GoodPin, PinMeant, Splits, Readable, OnlyKind, Outputs;
      sense, rs := VectorSense([]), [];
      if stage.free < 12 {
        return EAGAIN, sense, rs;
      }
      MaskReadable(line, info.Declared(), if line.ClockLine? then Input else Output);
      if line.ClockLine? {
        rc := info.ParseClock(line.s);
      } else {
        rc := info.ParseTrigger(line.s);
      }
      if rc != 0 {
        return -1, sense, rs;
      }
      sense := ReadableSense(line, info.Declared());
      var r := if line.ClockLine? then SetupMuxes(info.clockMask[..]) else TriggerMask(info.triggerMask[..]);
      var ok := EmitOther(r);
      rs := [r];
    }

    /** The PLL settings, before the first vector. */
    method Announce() returns (ok: bool, ghost rs: seq<Request>)
      requires Valid()
      modifies this`staged, this`emitted, this`output, this`seen, stage, stage.stage
      ensures Valid() && staged == old(staged) + rs && emitted == old(emitted) + rs
      ensures seen == (old(seen) || ok)
      ensures rs == if seen && !old(seen) then [PllSettings(pll.m, pll.n, pll.c)] else []
      ensures stage.off == old(stage.off) + 6 * |rs|
      ensures !ok ==> old(stage.off) + 12 > 0x20_0000
    {
      hide Raw, Outputs;
      rs := [];
      if seen {
        return true, rs;
      }
      var settings := PllSettings(pll.m, pll.n, pll.c);
      ok := EmitOther(settings);
      if ok {
        seen, rs := true, [settings];
      }
    }

    /** parse_line_vectors: the PLL settings before the first vector, then the chunk of the vector, then its text. */
    method TakeVector(line: Line) returns (rc: int, ghost sense: Sense, ghost rs: seq<Request>)
      requires Valid() && line.VectorLine?
      modifies this`staged, this`emitted, this`output, this`seen, stage, stage.stage
      ensures Valid() && (old(seen) ==> seen)
      ensures staged == old(staged) + rs && emitted == old(emitted) + rs
      ensures rc == EAGAIN ==> old(stage.off) + 24 > 0x20_0000
      ensures rc == EAGAIN ==> rs == if seen && !old(seen) then [PllSettings(pll.m, pll.n, pll.c)] else []
      ensures rc == 0 ==> seen && Reads(line, sense, info.Declared())
      ensures rc == 0 ==> Tells(sense, info.Declared(), old(seen), pll, rs)
      ensures rc != 0 && rc != EAGAIN ==> rc == -1 && !Readable(line, info.Declared())
    {
      hide Raw, Spells, Fits, Readable, V.Encodes, Sound, Outputs;
      sense := VectorSense([]);
      var ok;
      ok, rs := Announce();
      if !ok || stage.free < 18 {
        return EAGAIN, sense, rs;
      }
      VectorReadable(line, info.Declared());
      var v := V.ParseVector(line.s, info.pins[..info.pinCount]);
      if v == None {
        return -1, sense, rs;
      }
      sense := ReadableSense(line, info.Declared());
      VectorMeans(v.value, info.Declared(), Chars(sense.es), Cycles(sense.es), Mode(sense.es));
      ok := EmitVector(v.value);
      Assoc(old(staged), rs, [TestVector(v.value)]);
      Assoc(old(emitted), rs, [TestVector(v.value)]);
      rs, rc := rs + [TestVector(v.value)], 0;
    }

    /** The section's parser. */
    method Once(line: Line) returns (rc: int, ghost sense: Sense, ghost rs: seq<Request>)
      requires Valid() && Plain(line)
      modifies this`staged, this`emitted, this`output, this`seen, stage, stage.stage
      modifies info, info.pins, info.bitmask, info.clockMask, info.triggerMask
      ensures Valid()
      ensures rc == EAGAIN ==>
        && old(stage.off) + 24 > 0x20_0000 && info.Declared() == old(info.Declared()) && staged == old(staged) + rs
        && emitted == old(emitted) + rs
        && rs == Announced(old(seen), seen, pll) && (seen ==> old(seen) || line.VectorLine?)
      ensures rc == 0 ==>
        && Reads(line, sense, old(info.Declared())) && Tells(sense, old(info.Declared()), old(seen), pll, rs)
        && staged == old(staged) + rs && emitted == old(emitted) + rs
        && info.Declared() == PinsAfter(sense, old(info.Declared())) && seen == (old(seen) || sense.VectorSense?)
      ensures old(seen) ==> seen
      ensures rc != 0 && rc != EAGAIN ==> rc == -1 && !Readable(line, old(info.Declared()))
    {
      hide Plain, Readable, Tells, Outputs;
      if line.PinLine? {
        rc, sense, rs := TakePins(line);
      } else if line.VectorLine? {
        rc, sense, rs := TakeVector(line);
      } else {
        rc, sense, rs := TakeMask(line);
      }
      if rc == EAGAIN && !line.VectorLine? {
        rs := [];
      }
    }

    /** What suspend_emit does to the stage and the SRAM. */
    method Flush() returns (ghost sent: seq<Request>)
      requires Valid()
      modifies this`staged, stage, stage.stage, sram, sram.words
      ensures Valid() && staged == [] && stage.off == 0 && sent == old(staged)
      ensures sram.images == old(sram.images) + [sram.Image()] && Arrived(sram.Image(), sent)
    {
      hide S.Flatten, S.Carries, S.Overwrites, S.Sram.Image, Raw, Holds, Sound, Outputs;
      sent := staged;
      ghost var before := sram.Image();
      stage.OffIsSize();
      var rc := stage.Suspend(sram);
      S.NowCarries(before, sram.Image(), Raws(sent));
      CarriedHolds(sram.Image(), sent);
      staged := [];
    }

    /**
     * A line with the retry of parse_file: refused requests are emitted again after a flush, and what was emitted
     * before is not repeated.
     */
    method Take(line: Line)
      returns (rc: int, ghost sense: Sense, ghost rs: seq<Request>, ghost flushes: seq<seq<Request>>)
      requires Valid() && Plain(line)
      modifies this`staged, this`emitted, this`output, this`seen, stage, stage.stage, sram, sram.words
      modifies info, info.pins, info.bitmask, info.clockMask, info.triggerMask
      ensures Valid()
      ensures old(sram.images) <= sram.images
      ensures rc == 0 || rc == -1
      ensures rc == -1 ==> !Readable(line, old(info.Declared()))
      ensures rc == 0 ==>
        && Reads(line, sense, old(info.Declared())) && Tells(sense, old(info.Declared()), old(seen), pll, rs)
        && info.Declared() == PinsAfter(sense, old(info.Declared())) && seen == (old(seen) || sense.VectorSense?)
      ensures rc == 0 ==> Delivered(sram.images[|old(sram.images)|..], flushes, staged, old(staged) + rs)
      ensures rc == 0 ==> emitted == old(emitted) + rs
    {
      hide Plain, Readable, Tells, Reads, PinsAfter, Delivered, Arrived, S.Sram.Image, Announced, Outputs;
      hide Reader.Staging, S.Sram.Words;
      rs, flushes := [], [];
      NothingAnnounced(seen, pll);
      while true
        invariant Valid() && info.Declared() == old(info.Declared()) && (old(seen) ==> seen)
        invariant emitted == old(emitted) + rs
        invariant rs == Announced(old(seen), seen, pll) && (seen ==> old(seen) || line.VectorLine?)
        invariant flushes == [] ==> rs == [] && staged == old(staged) && seen == old(seen)
        invariant flushes == [] ==> sram.images == old(sram.images)
        invariant flushes != [] ==> stage.off == 0 && staged == [] && flushes == [old(staged) + rs]
        invariant flushes != [] ==> sram.images == old(sram.images) + [sram.Image()]
        invariant flushes != [] ==> Arrived(sram.Image(), old(staged) + rs)
        decreases flushes == []
      {
        ghost var more, was := [], seen;
        rc, sense, more := Once(line);
        if rc != EAGAIN {
          if rc == 0 {
            TellsRest(line, sense, old(info.Declared()), old(seen), was, pll, rs, more);
            LineDelivered(old(sram.images), sram.images, flushes, old(staged), rs, staged, more);
            Assoc(old(emitted), rs, more);
            rs := rs + more;
          }
          return;
        }
        Assoc(old(emitted), rs, more);
        rs := rs + more;
        assert [] + more == more;
        ghost var sent := Flush();
        flushes := [sent];
      }
    }

    /**
     * parse_file over a vector file: accepted exactly when every line reads as something where it stands; then the
     * requests are those the lines tell, in order, and the flushed images and the stage hold them all.
     */
    method ParseFile(lines: seq<Line>)
      returns (rc: int, ghost senses: seq<Sense>, ghost groups: seq<seq<Request>>, ghost flushes: seq<seq<Request>>)
      requires Valid() && staged == [] && emitted == [] && !seen && info.Declared() == []
      requires forall k :: 0 <= k < |lines| ==> Plain(lines[k])
      modifies this`staged, this`emitted, this`output, this`seen, stage, stage.stage, sram, sram.words
      modifies info, info.pins, info.bitmask, info.clockMask, info.triggerMask
      ensures Valid() && old(sram.images) <= sram.images
      ensures rc == 0 || rc == -1
      ensures rc == 0 <==> exists senses :: ReadsAll(lines, senses)
      ensures rc == 0 ==> ReadsAll(lines, senses) && TellsAll(senses, pll, groups)
      ensures rc == 0 ==> Delivered(sram.images[|old(sram.images)|..], flushes, staged, Concat(groups))
      ensures rc == 0 ==> output == Outputs(Concat(groups))
    {
      hide Plain, Readable, Tells, Reads, PinsAfter, Delivered, S.Sram.Image, SeenBefore, PinsBefore, Concat, Outputs;
      senses, groups, flushes := [], [], [];
      Nothing();
      assert sram.images[|sram.images|..] == [];
      var i := 0;
      while i < |lines|
        invariant 0 <= i <= |lines| && |senses| == i && Valid() && old(sram.images) <= sram.images
        invariant forall k :: 0 <= k < i ==> Reads(lines[k], senses[k], PinsBefore(senses, k))
        invariant info.Declared() == PinsBefore(senses, i) && seen == SeenBefore(senses, i)
        invariant TellsAll(senses, pll, groups) && emitted == Concat(groups)
        invariant Delivered(sram.images[|old(sram.images)|..], flushes, staged, Concat(groups))
      {
        ghost var sense, rs, more, was := VectorSense([]), [], [], sram.images;
        rc, sense, rs, more := Take(lines[i]);
        if rc != 0 {
          Unreadable(lines, senses, i);
          return;
        }
        ReadsMore(lines, senses, sense, i);
        ConcatOne(groups, rs);
        TellsMore(senses, sense, pll, groups, rs);
        DeliveredMore(|old(sram.images)|, was, sram.images, flushes, more, staged, groups, rs);
        senses, groups, flushes := senses + [sense], groups + [rs], flushes + more;
        i := i + 1;
      }
      assert ReadsAll(lines, senses);
      rc := 0;
    }

    /**
     * A vector file up to its last image: refused with EAGAIN, and nothing more is sent, when no END fits behind
     * the last request; otherwise the SRAM holds the remaining requests and an END, and a walk over it that
     * succeeds visits them at the sums of their sizes.
     */
    method RunFile(lines: seq<Line>)
      returns (rc: int, walk: int, visited: seq<nat>,
        ghost senses: seq<Sense>, ghost groups: seq<seq<Request>>, ghost flushes: seq<seq<Request>>,
        ghost rest: seq<Request>)
      requires Valid() && staged == [] && emitted == [] && !seen && info.Declared() == []
      requires forall k :: 0 <= k < |lines| ==> Plain(lines[k])
      modifies this`staged, this`emitted, this`output, this`seen, stage, stage.stage, sram, sram.words
      modifies info, info.pins, info.bitmask, info.clockMask, info.triggerMask
      ensures rc == 0 || rc == -1 || rc == EAGAIN
      ensures rc != -1 <==> exists senses :: ReadsAll(lines, senses)
      ensures rc != -1 ==> ReadsAll(lines, senses) && TellsAll(senses, pll, groups)
      ensures rc != -1 ==> AllSound(rest) && old(sram.images) <= sram.images && output == Outputs(Concat(groups))
      ensures rc == EAGAIN ==> Delivered(sram.images[|old(sram.images)|..], flushes, rest, Concat(groups))
      ensures rc == 0 ==>
        && |sram.images| > |old(sram.images)| && Holds(sram.images[|sram.images| - 1], rest + [End])
        && Delivered(sram.images[|old(sram.images)|..|sram.images| - 1], flushes, rest, Concat(groups))
      ensures rc != -1 ==> (rc == EAGAIN <==> StartOf(rest, |rest|) + 12 > 0x20_0000)
      ensures rc == 0 && StartOf(rest, |rest|) + 256 <= 0x20_0000 ==> walk == 0
      ensures rc == 0 && walk == 0 ==> VisitsAll(visited, rest)
    {
      hide Plain, Reads, Delivered, S.Sram.Image, Holds, TellsAll, ReadsAll, StartOf, S.Flatten, Raw, Sound;
      hide Concat, VisitsAll, Outputs;
      walk, visited, rest := -1, [], [];
      rc, senses, groups, flushes := ParseFile(lines);
      if rc != 0 {
        return;
      }
      rest := staged;
      Starts(rest, 0);
      stage.OffIsSize();
      if stage.free < 12 {
        rc := EAGAIN;
        return;
      }
      ghost var was := sram.images;
      walk, visited := SendRequests(stage, sram, rest);
      assert sram.images[|old(sram.images)|..|sram.images| - 1] == was[|old(sram.images)|..];
    }
  }

  lemma Nothing()
    ensures Concat([]) == [] && Delivered([], [], [], []) && PinsBefore([], 0) == [] && !SeenBefore([], 0)
  {
  }

  lemma ReadsMore(lines: seq<Line>, senses: seq<Sense>, sense: Sense, i: nat)
    requires i < |lines| && |senses| == i && Reads(lines[i], sense, PinsBefore(senses, i))
    requires forall k :: 0 <= k < i ==> Reads(lines[k], senses[k], PinsBefore(senses, k))
    ensures forall k :: 0 <= k <= i ==> Reads(lines[k], (senses + [sense])[k], PinsBefore(senses + [sense], k))
    ensures PinsBefore(senses + [sense], i + 1) == PinsAfter(sense, PinsBefore(senses, i))
    ensures SeenBefore(senses + [sense], i + 1) == (SeenBefore(senses, i) || sense.VectorSense?)
  {
    hide Reads, PinsAfter;
    var all := senses + [sense];
    forall k | 0 <= k <= i
      ensures PinsBefore(all, k) == PinsBefore(senses, k) && SeenBefore(all, k) == SeenBefore(senses, k)
    {
      BeforeMore(senses, sense, k);
    }
    assert all[i] == sense;
    assert SeenBefore(all, i + 1) <==> SeenBefore(all, i) || all[i].VectorSense?;
  }

  lemma TellsMore(senses: seq<Sense>, sense: Sense, pll: Settings, groups: seq<seq<Request>>, rs: seq<Request>)
    requires TellsAll(senses, pll, groups)
    requires Tells(sense, PinsBefore(senses, |senses|), SeenBefore(senses, |senses|), pll, rs)
    ensures TellsAll(senses + [sense], pll, groups + [rs])
  {
    hide Tells, PinsBefore, SeenBefore;
    forall k | 0 <= k <= |senses|
      ensures PinsBefore(senses + [sense], k) == PinsBefore(senses, k)
      ensures SeenBefore(senses + [sense], k) == SeenBefore(senses, k)
    {
      BeforeMore(senses, sense, k);
    }
  }

  lemma {:induction false} ConcatJoin(a: seq<seq<Request>>, b: seq<seq<Request>>)
    ensures Concat(a + b) == Concat(a) + Concat(b)
    decreases |b|
  {
    if b == [] {
      assert a + b == a && Concat(a) + [] == Concat(a);
    } else {
      var n := |b| - 1;
      ConcatJoin(a, b[..n]);
      assert (a + b)[..|a + b| - 1] == a + b[..n];
      Assoc(Concat(a), Concat(b[..n]), b[n]);
    }
  }

  lemma ConcatOne(a: seq<seq<Request>>, rs: seq<Request>)
    ensures Concat(a + [rs]) == Concat(a) + rs
  {
    assert (a + [rs])[..|a|] == a;
  }

  lemma DeliveredMore(n: nat, was: seq<bytes>, images: seq<bytes>, flushes: seq<seq<Request>>,
      more: seq<seq<Request>>, staged: seq<Request>, groups: seq<seq<Request>>, rs: seq<Request>)
    requires n <= |was| && was <= images
    requires exists before ::
      Delivered(was[n..], flushes, before, Concat(groups)) && Delivered(images[|was|..], more, staged, before + rs)
    ensures Delivered(images[n..], flushes + more, staged, Concat(groups + [rs]))
  {
    hide Arrived, Concat;
    var before :|
      Delivered(was[n..], flushes, before, Concat(groups)) && Delivered(images[|was|..], more, staged, before + rs);
    assert images[n..] == was[n..] + images[|was|..];
    ConcatJoin(flushes, more);
    ConcatOne(groups, rs);
    Assoc(Concat(flushes), Concat(more), staged);
    Assoc(Concat(flushes), before, rs);
  }

  // ---- the expected outputs ----

  /** The outputs of the vectors in a list of requests. */
  function Outputs(rs: seq<Request>): seq<seq<bv8>> {
    if rs == [] then []
    else
      var last := rs[|rs| - 1];
      Outputs(rs[..|rs| - 1]) + if last.TestVector? then [last.vector.output] else []
  }

  lemma OutputsMore(rs: seq<Request>, r: Request)
    ensures Outputs(rs + [r]) == Outputs(rs) + if r.TestVector? then [r.vector.output] else []
  {
    assert (rs + [r])[..|rs|] == rs;
  }

  lemma {:induction false} OutputsJoin(a: seq<Request>, b: seq<Request>)
    ensures Outputs(a + b) == Outputs(a) + Outputs(b)
    decreases |b|
  {
    if b == [] {
      assert a + b == a && Outputs(a) + [] == Outputs(a);
    } else {
      var n := |b| - 1;
      OutputsJoin(a, b[..n]);
      assert (a + b)[..|a + b| - 1] == a + b[..n];
      Assoc(Outputs(a), Outputs(b[..n]), if b[n].TestVector? then [b[n].vector.output] else []);
    }
  }

  /**
   * The walk over an image shows output[i] as the expected result of its i-th vector, from 0 on for every image,
   * although what was kept for the vectors of earlier flushes is still in front. It is the vector's own when no vector
   * was flushed before, and with different outputs only then.
   */
  lemma ExpectedIsOwn(flushes: seq<seq<Request>>, rest: seq<Request>, all: seq<Request>, i: nat)
    requires Concat(flushes) + rest == all && i < |Outputs(rest)|
    ensures var before := |Outputs(Concat(flushes))|;
      && before + i < |Outputs(all)| && Outputs(all)[before + i] == Outputs(rest)[i]
      && (before == 0 ==> Outputs(all)[i] == Outputs(rest)[i])
      && (Outputs(all)[i] == Outputs(rest)[i] && Different(Outputs(all)) ==> before == 0)
  {
    OutputsJoin(Concat(flushes), rest);
  }

  predicate Different(os: seq<seq<bv8>>) {
    forall i, j :: 0 <= i < j < |os| ==> os[i] != os[j]
  }

  /** The PLL settings, when they went out on the way. */
  function Announced(before: bool, now: bool, pll: Settings): seq<Request> {
    if now && !before then [PllSettings(pll.m, pll.n, pll.c)] else []
  }

  lemma NothingAnnounced(seen: bool, pll: Settings)
    ensures Announced(seen, seen, pll) == []
  {
  }

  ghost predicate Arrived(image: bytes, rs: seq<Request>) {
    AllSound(rs) && End !in rs && Holds(image, rs)
  }

  lemma TellsRest(line: Line, sense: Sense, pins: seq<Pin>, before: bool, was: bool, pll: Settings,
      rs: seq<Request>, more: seq<Request>)
    requires Reads(line, sense, pins) && Tells(sense, pins, was, pll, more)
    requires rs == Announced(before, was, pll) && (was ==> before || line.VectorLine?) && (before ==> was)
    ensures Tells(sense, pins, before, pll, rs + more) && (was ==> before || sense.VectorSense?)
  {
    hide Defines, Spells, Fits, V.Encodes, V.Declares, GoodPin, Sound;
    if rs == [] {
      assert rs + more == more;
    }
  }

  lemma LineDelivered(before: seq<bytes>, images: seq<bytes>, flushes: seq<seq<Request>>,
      was: seq<Request>, rs: seq<Request>, staged: seq<Request>, more: seq<Request>)
    requires flushes == [] ==> images == before && rs == [] && staged == was + more
    requires flushes != [] ==> flushes == [was + rs] && staged == [] + more
    requires flushes != [] ==> |images| == |before| + 1 && before <= images && Arrived(images[|before|], was + rs)
    ensures before <= images && Delivered(images[|before|..], flushes, staged, was + (rs + more))
  {
    hide Arrived;
    var added := images[|before|..];
    if flushes == [] {
      assert [] + staged == staged && rs + more == more;
    } else {
      assert flushes[..0] == [];
      assert Concat(flushes) == [] + (was + rs) == was + rs;
      Assoc(was, rs, more);
      assert staged == more;
    }
  }

  lemma ReadableSense(line: Line, pins: seq<Pin>) returns (sense: Sense)
    requires Readable(line, pins)
    ensures Reads(line, sense, pins)
  {
    sense :| Reads(line, sense, pins);
  }
}
