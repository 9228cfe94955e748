/**
 * The requests themselves, with their fields and their bytes (user/confrd/confrd.h), which the stream of
 * RequestStream carries, and where they stand in the SRAM.
 */
module Requests {
  import opened Bytes
  import opened VectorText
  import V = VectorLines
  import S = RequestStream

  datatype Request =
    | SwitchTarget(design: byte)
    | TestVector(vector: V.Vector)
    | SetupBitmask(mask: seq<bv8>)
    | SetupMuxes(mask: seq<bv8>)     // REQ_SEND_DICMD with DICMD_SETUP_MUXES
    | TriggerMask(mask: seq<bv8>)    // REQ_SEND_DICMD with DICMD_TRGMASK
    | PllSettings(m: byte, n: byte, c: byte)
    | End

  predicate Sound(r: Request) {
    match r
    case TestVector(v) => V.IsMask(v.input) && V.IsMask(v.output) && V.IsMask(v.xmask) && v.metadata2 < 128
    case SetupBitmask(m) => V.IsMask(m)
    case SetupMuxes(m) => V.IsMask(m)
    case TriggerMask(m) => V.IsMask(m)
    case _ => true
  }

  predicate AllSound(rs: seq<Request>) {
    forall i :: 0 <= i < |rs| ==> Sound(rs[i])
  }

  function MaskBytes(m: seq<bv8>): (r: bytes)
    requires V.IsMask(m)
    ensures |r| == 3
  {
    [m[0] as int, m[1] as int, m[2] as int]
  }

  /** The structs of confrd.h. */
  function Raw(r: Request): bytes
    requires Sound(r)
  {
    match r
    case SwitchTarget(d) => [0, d, 0, 0, 0, 0]
    case TestVector(v) =>
      [32] + MaskBytes(v.input) + MaskBytes(v.output) + [v.metadata2] + MaskBytes(v.xmask) + [0]
    case SetupBitmask(m) => [64] + MaskBytes(m) + [0, 0]
    case SetupMuxes(m) => [97] + MaskBytes(m) + [0, 0]
    case TriggerMask(m) => [98] + MaskBytes(m) + [0, 0]
    case PllSettings(m, n, c) => [192, m, n, c, 0, 0]
    case End => [224, 0, 0, 0, 0, 0]
  }

  function Raws(rs: seq<Request>): (r: seq<bytes>)
    requires AllSound(rs)
    ensures |r| == |rs| && forall i :: 0 <= i < |r| ==> r[i] == Raw(rs[i])
  {
    seq(|rs|, i requires 0 <= i < |rs| => Raw(rs[i]))
  }

  // ---- sizes and fields ----

  /** The size the walks take for a request is the length of its struct. */
  lemma Sized(r: Request)
    requires Sound(r)
    ensures |Raw(r)| == if r.TestVector? then 12 else 6
    ensures S.ReqSize(S.TypeOf(Raw(r)[0])) == |Raw(r)| && S.Complete(Raw(r))
    ensures S.IsEnd(Raw(r)) <==> r == End
  {
    hide MaskBytes;
  }

  lemma AllSized(rs: seq<Request>)
    requires AllSound(rs)
    ensures S.AllComplete(Raws(rs))
    ensures End !in rs ==> S.Plain(Raws(rs))
  {
    hide Sound, Raw, S.Complete, S.IsEnd;
    forall i | 0 <= i < |rs|
      ensures S.Complete(Raws(rs)[i]) && (S.IsEnd(Raws(rs)[i]) <==> rs[i] == End)
    {
      Sized(rs[i]);
    }
  }

  lemma MaskIs(a: seq<bv8>, b: seq<bv8>)
    requires V.IsMask(a) && V.IsMask(b) && MaskBytes(a) == MaskBytes(b)
    ensures a == b
  {
    var x, y := MaskBytes(a), MaskBytes(b);
    assert x[0] == y[0] && x[1] == y[1] && x[2] == y[2];
    forall i | 0 <= i < 3
      ensures a[i] == b[i]
    {
      assert (a[i] as int) as bv8 == a[i] && (b[i] as int) as bv8 == b[i];
    }
  }

  lemma VectorFields(v: V.Vector)
    requires Sound(TestVector(v))
    ensures var t := Raw(TestVector(v));
      && t[0] == 32 && t[1..4] == MaskBytes(v.input) && t[4..7] == MaskBytes(v.output)
      && t[7] == v.metadata2 && t[8..11] == MaskBytes(v.xmask) && t[11] == 0
  {
    hide MaskBytes;
  }

  lemma MaskField(r: Request)
    requires Sound(r) && (r.SetupBitmask? || r.SetupMuxes? || r.TriggerMask?)
    ensures |Raw(r)| == 6 && Raw(r)[1..4] == MaskBytes(r.mask)
  {
    hide MaskBytes;
  }

  /** Two requests differ in their bytes. */
  lemma OneRequest(a: Request, b: Request)
    requires Sound(a) && Sound(b) && Raw(a) == Raw(b)
    ensures a == b
  {
    hide MaskBytes;
    assert Raw(a)[0] == Raw(b)[0];
    if a.TestVector? {
      VectorFields(a.vector);
      VectorFields(b.vector);
      MaskIs(a.vector.input, b.vector.input);
      MaskIs(a.vector.output, b.vector.output);
      MaskIs(a.vector.xmask, b.vector.xmask);
    } else if a.SetupBitmask? || a.SetupMuxes? || a.TriggerMask? {
      MaskField(a);
      MaskField(b);
      MaskIs(a.mask, b.mask);
    }
  }

  /** An image is the image of one list of requests only. */
  lemma ImageDecides(a: seq<Request>, b: seq<Request>)
    requires AllSound(a) && AllSound(b) && S.Flatten(Raws(a)) == S.Flatten(Raws(b))
    ensures a == b
  {
    hide Sound, Raw;
    AllSized(a);
    AllSized(b);
    S.DecodeInverts(Raws(a));
    S.DecodeInverts(Raws(b));
    forall i | 0 <= i < |a|
      ensures a[i] == b[i]
    {
      assert Raws(a)[i] == Raws(b)[i];
      OneRequest(a[i], b[i]);
    }
  }

  // ---- the bits of a mask ----

  function Power(k: nat): nat
    requires k < 8
  {
    match k
    case 0 => 1
    case 1 => 2
    case 2 => 4
    case 3 => 8
    case 4 => 16
    case 5 => 32
    case 6 => 64
    case _ => 128
  }

  /** Bit p of a number of three bytes, the lowest byte last. */
  predicate BitAt(t: bytes, p: nat)
    requires |t| == 3 && p < PINS
  {
    t[2 - p / 8] / Power(p % 8) % 2 == 1
  }

  function Bit(b: bv8, k: nat): (r: int)
    requires k < 8
    ensures r == 0 || r == 1
  {
    if V.On(b, k) then 1 else 0
  }

  lemma Binary(b: bv8)
    ensures b as int == Bit(b, 0) + 2 * Bit(b, 1) + 4 * Bit(b, 2) + 8 * Bit(b, 3)
      + 16 * Bit(b, 4) + 32 * Bit(b, 5) + 64 * Bit(b, 6) + 128 * Bit(b, 7)
  {
  }

  lemma ByteBit(b: bv8, k: nat)
    requires k < 8
    ensures (b as int) / Power(k) % 2 == 1 <==> V.On(b, k)
  {
    Binary(b);
    hide *;
    LowBits(b as int, Bit(b, 0), Bit(b, 1), Bit(b, 2), Bit(b, 3), Bit(b, 4), Bit(b, 5), Bit(b, 6), Bit(b, 7));
    PickBit(b, k);
  }

  lemma LowBits(x: int, a: int, b: int, c: int, d: int, e: int, f: int, g: int, h: int)
    requires {a, b, c, d, e, f, g, h} <= {0, 1}
    requires x == a + 2 * b + 4 * c + 8 * d + 16 * e + 32 * f + 64 * g + 128 * h
    ensures x % 2 == a && x / 2 % 2 == b && x / 4 % 2 == c && x / 8 % 2 == d
    ensures x / 16 % 2 == e && x / 32 % 2 == f && x / 64 % 2 == g && x / 128 % 2 == h
  {
    assert a in {0, 1} && b in {0, 1} && c in {0, 1} && d in {0, 1} && e in {0, 1} && f in {0, 1} && g in {0, 1};
    assert x / 2 == b + 2 * c + 4 * d + 8 * e + 16 * f + 32 * g + 64 * h;
    assert x / 4 == c + 2 * d + 4 * e + 8 * f + 16 * g + 32 * h;
    assert x / 8 == d + 2 * e + 4 * f + 8 * g + 16 * h;
    assert x / 16 == e + 2 * f + 4 * g + 8 * h;
    assert x / 32 == f + 2 * g + 4 * h;
    assert x / 64 == g + 2 * h;
    assert x / 128 == h;
  }

  lemma PickBit(b: bv8, k: nat)
    requires k < 8
    requires var x := b as int;
      && x % 2 == Bit(b, 0) && x / 2 % 2 == Bit(b, 1) && x / 4 % 2 == Bit(b, 2) && x / 8 % 2 == Bit(b, 3)
      && x / 16 % 2 == Bit(b, 4) && x / 32 % 2 == Bit(b, 5) && x / 64 % 2 == Bit(b, 6) && x / 128 % 2 == Bit(b, 7)
    ensures (b as int) / Power(k) % 2 == 1 <==> V.On(b, k)
  {
    hide V.On;
  }

  lemma MaskBit(m: seq<bv8>, p: nat)
    requires V.IsMask(m) && p < PINS
    ensures BitAt(MaskBytes(m), p) <==> V.Has(m, p)
  {
    hide V.On, V.One, Power;
    ByteBit(m[2 - p / 8], p % 8);
  }

  /** The bits of a pin definition, of a clock and of a trigger mask are the declared pins. */
  lemma MaskMeans(r: Request, pins: seq<Pin>, kind: Kind)
    requires Sound(r) && (r.SetupBitmask? || r.SetupMuxes? || r.TriggerMask?) && V.Declares(r.mask, pins, kind)
    ensures |Raw(r)| == 6
    ensures forall p :: 0 <= p < PINS ==> (BitAt(Raw(r)[1..4], p) <==> Pin(kind, p) in pins)
  {
    hide V.Has, BitAt, MaskBytes, Raw;
    MaskField(r);
    forall p | 0 <= p < PINS
      ensures BitAt(MaskBytes(r.mask), p) <==> V.Has(r.mask, p)
    {
      MaskBit(r.mask, p);
    }
  }

  /** The twelve bytes of a vector line: the pins at 1, the outputs at 1, cycles and mode, the outputs at X. */
  lemma VectorMeans(v: V.Vector, pins: seq<Pin>, chars: bytes, cycles: int, mode: nat)
    requires V.Encodes(v, pins, chars, cycles, mode)
    ensures Sound(TestVector(v)) && |chars| <= |pins|
    ensures var t := Raw(TestVector(v));
      && t[0] == 32 && t[7] == (cycles - 1) * 2 + mode * 64 && t[11] == 0
      && (forall p :: 0 <= p < PINS ==> (BitAt(t[1..4], p) <==> V.Says(pins, chars, Pin(Input, p), 49)))
      && (forall p :: 0 <= p < PINS ==> (BitAt(t[4..7], p) <==> V.Says(pins, chars, Pin(Output, p), 49)))
      && (forall p :: 0 <= p < PINS ==> (BitAt(t[8..11], p) <==> V.Says(pins, chars, Pin(Output, p), 88)))
  {
    hide V.Has, V.Says, BitAt, MaskBytes, Raw;
    VectorFields(v);
    forall p | 0 <= p < PINS
      ensures BitAt(MaskBytes(v.input), p) <==> V.Has(v.input, p)
      ensures BitAt(MaskBytes(v.output), p) <==> V.Has(v.output, p)
      ensures BitAt(MaskBytes(v.xmask), p) <==> V.Has(v.xmask, p)
    {
      MaskBit(v.input, p);
      MaskBit(v.output, p);
      MaskBit(v.xmask, p);
    }
  }

  // ---- where the requests stand ----

  function Vectors(rs: seq<Request>): nat {
    if rs == [] then 0 else (if rs[0].TestVector? then 1 else 0) + Vectors(rs[1..])
  }

  /** Twelve bytes for a vector, six for anything else. */
  function StartOf(rs: seq<Request>, k: nat): nat
    requires k <= |rs|
  {
    6 * k + 6 * Vectors(rs[..k])
  }

  lemma StartStep(rs: seq<Request>, k: nat)
    requires 0 < k <= |rs|
    ensures StartOf(rs, k) == (if rs[0].TestVector? then 12 else 6) + StartOf(rs[1..], k - 1)
  {
    assert rs[..k][1..] == rs[1..][..k - 1];
  }

  /** The offsets of the stream, in these sizes. */
  lemma {:induction false} Starts(rs: seq<Request>, base: nat)
    requires AllSound(rs)
    ensures |S.Offsets(Raws(rs), base)| == |rs| && |S.Flatten(Raws(rs))| == StartOf(rs, |rs|)
    ensures forall k :: 0 <= k < |rs| ==> S.Offsets(Raws(rs), base)[k] == base + StartOf(rs, k)
  {
    hide Raw, Sound;
    if rs != [] {
      var size := |Raw(rs[0])|;
      Sized(rs[0]);
      Starts(rs[1..], base + size);
      assert Raws(rs)[1..] == Raws(rs[1..]);
      StartStep(rs, |rs|);
      forall k | 0 < k < |rs|
        ensures S.Offsets(Raws(rs), base)[k] == base + StartOf(rs, k)
      {
        StartStep(rs, k);
        assert S.Offsets(Raws(rs), base)[k] == S.Offsets(Raws(rs[1..]), base + size)[k - 1];
      }
    }
  }

  lemma BehindFirst(first: bytes, rest: bytes, at: nat, len: nat)
    requires at + len <= |rest|
    ensures (first + rest)[|first| + at..|first| + at + len] == rest[at..at + len]
  {
    assert (first + rest)[|first|..] == rest;
  }

  /** Request k of the image stands there. */
  lemma {:induction false} StandsAt(rs: seq<Request>, k: nat)
    requires AllSound(rs) && k < |rs|
    ensures var flat, at := S.Flatten(Raws(rs)), StartOf(rs, k);
      at + |Raw(rs[k])| <= |flat| && flat[at..at + |Raw(rs[k])|] == Raw(rs[k])
    decreases k
  {
    hide Raw, Sound;
    Sized(rs[0]);
    assert Raws(rs)[1..] == Raws(rs[1..]);
    var flat, size, rest := S.Flatten(Raws(rs)), |Raw(rs[0])|, S.Flatten(Raws(rs[1..]));
    assert flat == Raw(rs[0]) + rest;
    if k == 0 {
      assert rs[..0] == [];
    } else {
      StandsAt(rs[1..], k - 1);
      StartStep(rs, k);
      var at, len := StartOf(rs[1..], k - 1), |Raw(rs[k])|;
      BehindFirst(Raw(rs[0]), rest, at, len);
    }
  }

  /** The SRAM holds the requests, the last of them an END if it fits. */
  predicate Holds(image: bytes, rs: seq<Request>)
    requires AllSound(rs)
  {
    forall k :: 0 <= k < |rs| ==>
      var at := StartOf(rs, k);
      at + |Raw(rs[k])| <= |image| && image[at..at + |Raw(rs[k])|] == Raw(rs[k])
  }

  lemma CarriedHolds(image: bytes, rs: seq<Request>)
    requires AllSound(rs) && S.Carries(image, Raws(rs))
    ensures Holds(image, rs)
    ensures StartOf(rs, |rs|) + 12 <= S.SRAM_SIZE ==> Holds(image, rs + [End])
  {
    hide Raw, Sound, StartOf, S.Flatten;
    var flat := S.Flatten(Raws(rs));
    Starts(rs, 0);
    S.FlattenJoin(Raws(rs), S.Tail(|flat|));
    S.FlattenEnd();
    HoldsPrefix(image, rs);
    if StartOf(rs, |rs|) + 12 <= S.SRAM_SIZE {
      EndRaw();
      assert Raws(rs + [End]) == Raws(rs) + [S.END];
      HoldsPrefix(image, rs + [End]);
    }
  }

  lemma EndRaw()
    ensures Sound(End) && Raw(End) == S.END
  {
  }

  lemma HoldsPrefix(image: bytes, rs: seq<Request>)
    requires AllSound(rs) && S.Flatten(Raws(rs)) <= image
    ensures Holds(image, rs)
  {
    hide Raw, Sound, StartOf, S.Flatten;
    forall k | 0 <= k < |rs|
      ensures var at := StartOf(rs, k);
        at + |Raw(rs[k])| <= |image| && image[at..at + |Raw(rs[k])|] == Raw(rs[k])
    {
      StandsAt(rs, k);
      var at, len, flat := StartOf(rs, k), |Raw(rs[k])|, S.Flatten(Raws(rs));
      assert image[at..at + len] == flat[at..at + len];
    }
  }

  /** Each request and then the END. */
  predicate VisitsAll(visited: seq<nat>, rs: seq<Request>) {
    |visited| == |rs| + 1 && forall k :: 0 <= k <= |rs| ==> visited[k] == StartOf(rs, k)
  }

  /**
   * Staged requests through the SRAM and the windowed walk: it visits them at the sums of their sizes and then the
   * END, and the SRAM holds each of them there. It succeeds when a window fits behind the requests and fails when
   * no END does.
   */
  method SendRequests(stage: S.Stage, sram: S.Sram, ghost rs: seq<Request>) returns (rc: int, visited: seq<nat>)
    requires stage.Valid() && sram.Valid() && AllSound(rs) && End !in rs && stage.requests == Raws(rs)
    requires StartOf(rs, |rs|) + 12 > 0x20_0000 ==> S.Known(sram.Image(), StartOf(rs, |rs|))
    modifies stage, stage.stage, sram, sram.words
    ensures stage.Valid() && sram.Valid() && Holds(sram.Image(), rs)
    ensures sram.images == old(sram.images) + [sram.Image()]
    ensures StartOf(rs, |rs|) + 256 <= 0x20_0000 ==> rc == 0
    ensures StartOf(rs, |rs|) + 12 > 0x20_0000 ==> rc == -1
    ensures StartOf(rs, |rs|) + 12 <= 0x20_0000 ==> Holds(sram.Image(), rs + [End])
    ensures rc == 0 ==> VisitsAll(visited, rs)
  {
    hide Raw, Sound, Holds, S.Sram.Image, S.Known, S.Visits, S.Windows, S.Flatten, S.Carries, S.StoppedAt, S.Plain;
    Starts(rs, 0);
    AllSized(rs);
    stage.OffIsSize();
    rc, visited := S.SendAndProcess(stage, sram);
    CarriedHolds(sram.Image(), rs);
    EndRaw();
    assert Raws(rs + [End]) == Raws(rs) + [S.END];
    Starts(rs + [End], 0);
    assert forall k :: 0 <= k <= |rs| ==> (rs + [End])[..k] == rs[..k];
  }
}
