/**
 * confrd's request stream: requests staged for the SRAM, the flat walk over them, the byte-swapped copies to and
 * from the SRAM, and the walk over the results in overlapping windows (user/confrd/confrd.c, req.c, sram.c).
 */
module RequestStream {
  import opened Bytes

  const SRAM_SIZE: nat := 0x20_0000
  const WINDOW: nat := 256

  const REQ_SWITCH_TARGET: nat := 0
  const REQ_TEST_VECTOR: nat := 1
  const REQ_SETUP_BITMASK: nat := 2
  const REQ_SEND_DICMD: nat := 3
  const REQ_PLLRECONFIG: nat := 6
  const REQ_END: nat := 7

  /** req_sz: 0 for a type nobody knows. */
  function ReqSize(t: nat): nat {
    if t == REQ_TEST_VECTOR then 12
    else if t in {REQ_SWITCH_TARGET, REQ_SETUP_BITMASK, REQ_SEND_DICMD, REQ_PLLRECONFIG, REQ_END} then 6
    else 0
  }

  function TypeOf(b: byte): (t: nat)
    ensures t < 8
  {
    var x: int := b;
    x / 32
  }

  /** A request as its bytes. */
  predicate Complete(r: bytes) {
    r != [] && ReqSize(TypeOf(r[0])) == |r|
  }

  predicate AllComplete(rs: seq<bytes>) {
    forall i :: 0 <= i < |rs| ==> Complete(rs[i])
  }

  function Flatten(rs: seq<bytes>): bytes {
    if rs == [] then [] else rs[0] + Flatten(rs[1..])
  }

  lemma {:induction false} FlattenJoin(a: seq<bytes>, b: seq<bytes>)
    ensures Flatten(a + b) == Flatten(a) + Flatten(b)
  {
    if a == [] {
      assert a + b == b;
    } else {
      FlattenJoin(a[1..], b);
      assert (a + b)[1..] == a[1..] + b;
      Assoc(a[0], Flatten(a[1..]), Flatten(b));
    }
  }

  // ---- walking a memory ----

  /** From `off` on there are requests of known types, one behind the other, up to an END or the end of the memory. */
  predicate Known(mem: bytes, off: nat)
    decreases |mem| - off
  {
    off < |mem| ==>
      && ReqSize(TypeOf(mem[off])) > 0
      && (TypeOf(mem[off]) == REQ_END || Known(mem, off + ReqSize(TypeOf(mem[off]))))
  }

  /** The offsets of the complete requests, up to and including an END. */
  function Visits(mem: bytes, off: nat): seq<nat>
    requires Known(mem, off)
    decreases |mem| - off
  {
    if off >= |mem| || off + ReqSize(TypeOf(mem[off])) > |mem| then []
    else [off] + if TypeOf(mem[off]) == REQ_END then [] else Visits(mem, off + ReqSize(TypeOf(mem[off])))
  }

  /** The requests of a whole image, in order; None when it is not cut up into complete requests. */
  function Decode(image: bytes): Option<seq<bytes>>
    decreases |image|
  {
    if image == [] then Some([])
    else
      var size := ReqSize(TypeOf(image[0]));
      if size == 0 || size > |image| then None
      else
        var rest := Decode(image[size..]);
        if rest == None then None else Some([image[..size]] + rest.value)
  }

  /** Decoding undoes flattening: the image has no gaps and one reading only. */
  lemma {:induction false} DecodeInverts(rs: seq<bytes>)
    requires AllComplete(rs)
    ensures Decode(Flatten(rs)) == Some(rs)
  {
    if rs != [] {
      DecodeInverts(rs[1..]);
      var image := Flatten(rs);
      assert image == rs[0] + Flatten(rs[1..]);
      assert image[..|rs[0]|] == rs[0] && image[|rs[0]|..] == Flatten(rs[1..]) && image[0] == rs[0][0];
      assert rs == [rs[0]] + rs[1..];
    }
  }

  // ---- staging ----

  class Stage {
    const stage: array<byte>          // sram_stage
    var off: nat                      // pi->sram_off
    var free: nat                     // pi->sram_free_bytes
    ghost var requests: seq<bytes>

    ghost predicate Valid()
      reads this, stage
    {
      && stage.Length == SRAM_SIZE
      && off + free == SRAM_SIZE
      && off % 6 == 0
      && AllComplete(requests)
      && stage[..off] == Flatten(requests)
    }

    /** init_parserinfo */
    constructor ()
      ensures Valid() && requests == [] && off == 0 && fresh(stage)
    {
      stage := new byte[SRAM_SIZE](_ => 0);
      off, free, requests := 0, SRAM_SIZE, [];
    }

    lemma OffIsSize()
      requires Valid()
      ensures off == |Flatten(requests)| <= SRAM_SIZE && off % 6 == 0
    {
    }

    /** stage_alloc_chunk, refusing when no END would fit after it, and the bytes the emit functions put there. */
    method Emit(r: bytes) returns (ok: bool)
      requires Valid() && Complete(r)
      modifies this, stage
      ensures Valid()
      ensures ok == (old(off) + |r| + ReqSize(REQ_END) <= SRAM_SIZE)
      ensures requests == old(requests) + if ok then [r] else []
      ensures off == old(off) + if ok then |r| else 0
    {
      if free < |r| + ReqSize(REQ_END) {
        return false;
      }
      forall i | 0 <= i < |r| {
        stage[off + i] := 0;
      }
      ghost var image := stage[..off];
      forall i | 0 <= i < |r| {
        stage[off + i] := r[i];
      }
      assert stage[..off + |r|] == image + r;
      FlattenJoin(requests, [r]);
      assert Flatten([r]) == r + Flatten([]);
      requests := requests + [r];
      free := free - |r|;
      off := off + |r|;
      return true;
    }

    /** emit_change_target */
    method EmitChangeTarget(team: nat) returns (ok: bool)
      requires Valid()
      modifies this, stage
      ensures Valid()
      ensures ok == (old(off) + 2 * ReqSize(REQ_END) <= SRAM_SIZE)
      ensures requests == old(requests) + if ok then [[0, team % 32, 0, 0, 0, 0]] else []
    {
      ok := Emit([0, team % 32, 0, 0, 0, 0]);
    }

    /** emit_pre_vectors */
    method EmitPreVectors(m: byte, n: byte, c: byte) returns (ok: bool)
      requires Valid()
      modifies this, stage
      ensures Valid()
      ensures ok == (old(off) + 2 * ReqSize(REQ_END) <= SRAM_SIZE)
      ensures requests == old(requests) + if ok then [[192, m, n, c, 0, 0]] else []
    {
      ok := Emit([192, m, n, c, 0, 0]);
    }

    /** emit_end, which is refused like any other request when its reserve is used up. */
    method EmitEnd() returns (ok: bool)
      requires Valid()
      modifies this, stage
      ensures Valid()
      ensures ok == (old(off) + 2 * ReqSize(REQ_END) <= SRAM_SIZE)
      ensures requests == old(requests) + if ok then [END] else []
    {
      ok := Emit(END);
    }

    /** suspend_emit: an END if it fits, the image off to the SRAM, and an empty stage. */
    method Suspend(sram: Sram) returns (rc: int)
      requires Valid() && sram.Valid()
      modifies this, stage, sram, sram.words
      ensures Valid() && sram.Valid() && rc == 0
      ensures off == 0 && requests == []
      ensures Overwrites(Flatten(old(requests) + Tail(old(off))), old(sram.Image()), sram.Image())
      ensures sram.images == old(sram.images) + [sram.Image()]
    {
      hide Flatten, Bytewise, AllComplete;
      var ok := EmitEnd();
      assert requests == old(requests) + Tail(old(off));
      var image := stage[..off];
      ghost var was := sram.Image();
      rc := sram.Write(0, image);
      assert was[..0] + image == image;
      Clear();
    }

    method Clear()
      requires Valid()
      modifies this
      ensures Valid() && off == 0 && requests == []
    {
      off, free, requests := 0, SRAM_SIZE, [];
      assert stage[..0] == Flatten([]);
    }
  }

  /** An END still fits behind `off` bytes with its own reserve left. */
  predicate EndFits(off: nat) {
    off + 2 * ReqSize(REQ_END) <= SRAM_SIZE
  }

  /** What a flush puts behind the requests. */
  function Tail(off: nat): seq<bytes> {
    if EndFits(off) then [END] else []
  }

  /** The memory from its start on. */
  predicate Overwrites(src: bytes, before: bytes, after: bytes) {
    |src| <= |before| && after == src + before[|src|..]
  }

  /** A memory that starts with these requests, and behind them an END if it fits. */
  predicate Carries(image: bytes, rs: seq<bytes>) {
    Flatten(rs + Tail(|Flatten(rs)|)) <= image
  }

  /** The flat walk over such a memory, up to where the image ends, gives back the requests. */
  lemma CarriedDecodes(image: bytes, rs: seq<bytes>)
    requires Carries(image, rs) && AllComplete(rs)
    ensures var sent := rs + Tail(|Flatten(rs)|); Decode(image[..|Flatten(sent)|]) == Some(sent)
  {
    var sent := rs + Tail(|Flatten(rs)|);
    assert Complete(END);
    assert AllComplete(sent);
    assert image[..|Flatten(sent)|] == Flatten(sent);
    DecodeInverts(sent);
  }

  lemma NowCarries(before: bytes, after: bytes, rs: seq<bytes>)
    requires Overwrites(Flatten(rs + Tail(|Flatten(rs)|)), before, after)
    ensures Carries(after, rs)
  {
  }

  lemma FlattenNothing()
    ensures Flatten([]) == []
  {
  }

  /**
   * A request of six bytes is refused where no END fits either: the flush it forces never holds one. A flush forced
   * by a vector holds one in one case of three.
   */
  lemma RefusedFlush(off: nat, size: nat)
    requires off % 6 == 0 && off <= SRAM_SIZE && off + size + ReqSize(REQ_END) > SRAM_SIZE
    ensures size == 6 ==> !EndFits(off)
    ensures size == 12 ==> (EndFits(off) <==> SRAM_SIZE - off == 14)
  {
    assert SRAM_SIZE == 6 * 349525 + 2;
  }

  const END: bytes := [224, 0, 0, 0, 0, 0]

  // ---- the SRAM ----

  /** A 16-bit load on the little-endian host. */
  function Load(low: byte, high: byte): (w: nat)
    ensures w < 65536
  {
    var l: int, h: int := low, high;
    l + 256 * h
  }

  /** htons and ntohs on that host. */
  function Swap(w: nat): (r: nat)
    requires w < 65536
    ensures r < 65536
  {
    w % 256 * 256 + w / 256
  }

  class Sram {
    const words: array<nat>
    ghost var images: seq<bytes>      // what the memory held at first, and after each write

    ghost predicate Words()
      reads words
    {
      words.Length == SRAM_SIZE / 2 && forall i :: 0 <= i < words.Length ==> words[i] < 65536
    }

    ghost predicate Valid()
      reads this, words
    {
      Words() && images != [] && images[|images| - 1] == Image()
    }

    /** The memory as the bytes it was filled with: the first byte of a pair is the high one. */
    ghost function Image(): (r: bytes)
      requires Words()
      reads words
      ensures |r| == SRAM_SIZE
    {
      Bytewise(words[..])
    }

    constructor (contents: seq<nat>)
      requires |contents| == SRAM_SIZE / 2 && forall i :: 0 <= i < |contents| ==> contents[i] < 65536
      ensures Valid() && words[..] == contents && fresh(words)
    {
      words := new nat[SRAM_SIZE / 2](i requires 0 <= i < |contents| => contents[i]);
      images := [Bytewise(contents)];
    }

    /** sram_write */
    method Write(offset: nat, src: bytes) returns (rc: int)
      requires Valid() && offset % 2 == 0 && |src| % 2 == 0
      modifies this, words
      ensures Valid() && rc == if offset + |src| > SRAM_SIZE then -1 else 0
      ensures images == old(images) + if rc == 0 then [Image()] else []
      ensures rc != 0 ==> Image() == old(Image())
      ensures rc == 0 ==> Image() == old(Image())[..offset] + src + old(Image())[offset + |src|..]
    {
      if offset + |src| > SRAM_SIZE {
        return -1;
      }
      CopyWords(offset, src);
      WrittenBytes(old(words[..]), words[..], offset, src);
      images := images + [Image()];
      return 0;
    }

    /** The loop of sram_write, which moves a word at a time. */
    method CopyWords(offset: nat, src: bytes)
      requires Words() && offset % 2 == 0 && |src| % 2 == 0 && offset + |src| <= SRAM_SIZE
      modifies words
      ensures Words()
      ensures forall k :: offset / 2 <= k < offset / 2 + |src| / 2 ==>
        words[k] == Swap(Load(src[2 * k - offset], src[2 * k + 1 - offset]))
      ensures forall k :: 0 <= k < offset / 2 || offset / 2 + |src| / 2 <= k < words.Length ==>
        words[k] == old(words[k])
    {
      hide Swap, Load;
      var i := 0;
      while i < |src|
        invariant 0 <= i <= |src| && i % 2 == 0 && Words()
        invariant forall k :: offset / 2 <= k < offset / 2 + i / 2 ==>
          words[k] == Swap(Load(src[2 * k - offset], src[2 * k + 1 - offset]))
        invariant forall k :: 0 <= k < offset / 2 || offset / 2 + i / 2 <= k < words.Length ==>
          words[k] == old(words[k])
      {
        words[offset / 2 + i / 2] := Swap(Load(src[i], src[i + 1]));
        i := i + 2;
      }
    }

    /** sram_read */
    method Read(offset: nat, dst: array<byte>) returns (rc: int)
      requires Words() && offset % 2 == 0 && dst.Length % 2 == 0
      modifies dst
      ensures Words() && rc == if offset + dst.Length > SRAM_SIZE then -1 else 0
      ensures rc == 0 ==> dst[..] == Image()[offset..offset + dst.Length]
    {
      if offset + dst.Length > SRAM_SIZE {
        return -1;
      }
      var i := 0;
      while i < dst.Length
        invariant 0 <= i <= dst.Length && i % 2 == 0 && Words()
        invariant forall k :: 0 <= k < i ==> dst[k] == ByteOf(words[(offset + k) / 2], offset + k)
      {
        var at := offset / 2 + i / 2;
        var w := Swap(words[at]);
        SwapHalves(words[at]);
        assert (offset + i) / 2 == at == (offset + i + 1) / 2;
        dst[i], dst[i + 1] := w % 256, w / 256;
        i := i + 2;
      }
      return 0;
    }
  }

  function ByteOf(w: nat, i: nat): byte {
    if i % 2 == 0 then w / 256 % 256 else w % 256
  }

  function Bytewise(ws: seq<nat>): (r: bytes)
    ensures |r| == 2 * |ws|
    ensures forall i :: 0 <= i < |r| ==> r[i] == ByteOf(ws[i / 2], i)
  {
    seq(2 * |ws|, i requires 0 <= i < 2 * |ws| => ByteOf(ws[i / 2], i))
  }

  lemma SwapHalves(w: nat)
    requires w < 65536
    ensures Swap(w) % 256 == ByteOf(w, 0) && Swap(w) / 256 == ByteOf(w, 1)
  {
    Halves(w / 256, w % 256);
  }

  lemma SwappedBytes(a: byte, b: byte)
    ensures ByteOf(Swap(Load(a, b)), 0) == a && ByteOf(Swap(Load(a, b)), 1) == b
  {
    Halves(a, b);
    Halves(b, a);
  }

  lemma Halves(low: int, high: int)
    requires 0 <= low < 256 && 0 <= high < 256
    ensures (low + 256 * high) % 256 == low && (low + 256 * high) / 256 == high
  {
  }

  /** The device takes two bytes of the image for a word, the first as the high half. */
  lemma WordsOf(ws: seq<nat>)
    requires forall k :: 0 <= k < |ws| ==> ws[k] < 65536
    ensures forall k :: 0 <= k < |ws| ==> ws[k] == 256 * (Bytewise(ws)[2 * k] as int) + Bytewise(ws)[2 * k + 1]
  {
    forall k | 0 <= k < |ws|
      ensures ws[k] == 256 * (Bytewise(ws)[2 * k] as int) + Bytewise(ws)[2 * k + 1]
    {
      assert 2 * k / 2 == k == (2 * k + 1) / 2;
    }
  }

  /** Words written byte-swapped show up as the bytes they were loaded from. */
  lemma WrittenBytes(before: seq<nat>, after: seq<nat>, offset: nat, src: bytes)
    requires |before| == |after| && offset % 2 == 0 && |src| % 2 == 0 && offset + |src| <= 2 * |before|
    requires forall k :: offset / 2 <= k < offset / 2 + |src| / 2 ==>
      after[k] == Swap(Load(src[2 * k - offset], src[2 * k + 1 - offset]))
    requires forall k :: 0 <= k < offset / 2 || offset / 2 + |src| / 2 <= k < |after| ==> after[k] == before[k]
    ensures Bytewise(after) == Bytewise(before)[..offset] + src + Bytewise(before)[offset + |src|..]
  {
    var was, r := Bytewise(before), Bytewise(after);
    forall i | 0 <= i < |r|
      ensures r[i] == if offset <= i < offset + |src| then src[i - offset] else was[i]
    {
      var k := i / 2;
      if offset <= i < offset + |src| {
        SwappedBytes(src[2 * k - offset], src[2 * k + 1 - offset]);
      }
    }
  }

  // ---- the flat walk ----

  /**
   * What print_mem comes to and how many bytes it leaves; with an end flag it stops at the first END, which it
   * leaves. None when it meets a type nobody knows, on which it would not advance.
   */
  function FlatWalk(image: bytes, stopAtEnd: bool): Option<(seq<bytes>, nat)>
    decreases |image|
  {
    if image == [] then Some(([], 0))
    else
      var size := ReqSize(TypeOf(image[0]));
      if size == 0 then None
      else if size > |image| then Some(([], |image|))
      else if stopAtEnd && TypeOf(image[0]) == REQ_END then Some(([image[..size]], |image|))
      else
        var rest := FlatWalk(image[size..], stopAtEnd);
        if rest == None then None else Some(([image[..size]] + rest.value.0, rest.value.1))
  }

  /** print_mem */
  method PrintMem(buf: bytes, stopAtEnd: bool) returns (seen: seq<bytes>, left: nat)
    requires FlatWalk(buf, stopAtEnd).Some?
    ensures FlatWalk(buf, stopAtEnd) == Some((seen, left))
  {
    seen := [];
    var rest := buf;
    ghost var all := FlatWalk(buf, stopAtEnd).value;
    assert [] + all.0 == all.0;
    while |rest| > 0
      invariant FlatWalk(rest, stopAtEnd).Some?
      invariant seen + FlatWalk(rest, stopAtEnd).value.0 == all.0
      invariant FlatWalk(rest, stopAtEnd).value.1 == all.1
      decreases |rest|
    {
      var size := ReqSize(TypeOf(rest[0]));
      if |rest| < size {
        assert seen + [] == seen;
        break;
      }
      ghost var later := FlatWalk(rest[size..], stopAtEnd);
      if stopAtEnd && TypeOf(rest[0]) == REQ_END {
        seen := seen + [rest[..size]];
        break;
      }
      Assoc(seen, [rest[..size]], later.value.0);
      seen := seen + [rest[..size]];
      rest := rest[size..];
    }
    assert seen + [] == seen;
    left := |rest|;
  }

  predicate IsEnd(r: bytes) {
    r != [] && TypeOf(r[0]) == REQ_END
  }

  predicate HasEnd(rs: seq<bytes>) {
    exists i :: 0 <= i < |rs| && IsEnd(rs[i])
  }

  function UpToEnd(rs: seq<bytes>): seq<bytes> {
    if rs == [] then []
    else if IsEnd(rs[0]) then [rs[0]]
    else [rs[0]] + UpToEnd(rs[1..])
  }

  /** The bytes in front of the first END. */
  function BeforeEnd(rs: seq<bytes>): nat {
    if rs == [] || IsEnd(rs[0]) then 0 else |rs[0]| + BeforeEnd(rs[1..])
  }

  lemma HasEndStep(rs: seq<bytes>)
    requires rs != []
    ensures HasEnd(rs) <==> IsEnd(rs[0]) || HasEnd(rs[1..])
  {
    if HasEnd(rs[1..]) {
      var i :| 0 <= i < |rs| - 1 && IsEnd(rs[1..][i]);
      assert IsEnd(rs[i + 1]);
    }
    if i :| 0 < i < |rs| && IsEnd(rs[i]) {
      assert IsEnd(rs[1..][i - 1]);
    }
  }

  /** The start of a request of a known type. */
  predicate Incomplete(tail: bytes) {
    tail != [] ==> |tail| < ReqSize(TypeOf(tail[0]))
  }

  /**
   * The flat walk gives back the requests of an image, in order, whatever incomplete one follows them; with an end
   * flag those up to the first END, and it leaves the rest.
   */
  lemma {:induction false} FlatWalkReads(rs: seq<bytes>, tail: bytes, stopAtEnd: bool)
    requires AllComplete(rs) && Incomplete(tail)
    ensures var image := Flatten(rs) + tail;
      FlatWalk(image, stopAtEnd) ==
        if stopAtEnd && HasEnd(rs) then Some((UpToEnd(rs), |image| - BeforeEnd(rs)))
        else Some((rs, |tail|))
    decreases |rs|
  {
    var image := Flatten(rs) + tail;
    if rs == [] {
      assert image == tail;
    } else {
      var r, rest := rs[0], Flatten(rs[1..]) + tail;
      FlatWalkReads(rs[1..], tail, stopAtEnd);
      Assoc(r, Flatten(rs[1..]), tail);
      assert image[..|r|] == r && image[|r|..] == rest && image[0] == r[0];
      assert rs == [r] + rs[1..];
      HasEndStep(rs);
    }
  }

  // ---- the windowed walk ----

  /** Where the window from `base` stops: at the first request that is not all inside it; None after the END. */
  function NextWindow(mem: bytes, off: nat, base: nat): (r: Option<nat>)
    requires Known(mem, off) && base <= off <= base + WINDOW <= |mem|
    ensures r.Some? ==> off <= r.value <= base + WINDOW && Known(mem, r.value)
    ensures r.Some? && off == base ==> base < r.value
    decreases |mem| - off
  {
    if off == base + WINDOW then Some(off)
    else
      var size := ReqSize(TypeOf(mem[off]));
      if off + size > base + WINDOW then Some(off)
      else if TypeOf(mem[off]) == REQ_END then None
      else NextWindow(mem, off + size, base)
  }

  /** Where the windows start, up to the one after which all is done or the one that does not fit in the memory. */
  function Windows(mem: bytes, base: nat): (r: seq<nat>)
    requires Known(mem, base)
    ensures r != [] && r[0] == base
    decreases |mem| - base
  {
    if base + WINDOW > |mem| then [base]
    else
      var next := NextWindow(mem, base, base);
      [base] + if next == None then [] else Windows(mem, next.value)
  }

  predicate Inside(windows: seq<nat>) {
    forall i :: 0 <= i < |windows| ==> windows[i] + WINDOW <= SRAM_SIZE
  }

  /** One step of either walk. */
  lemma LeadsStep(mem: bytes, off: nat, base: nat)
    requires Known(mem, off) && base <= off < base + WINDOW <= |mem|
    ensures var t := TypeOf(mem[off]); var size := ReqSize(t);
      && size in {6, 12}
      && (off + size > base + WINDOW ==> NextWindow(mem, off, base) == Some(off))
      && (off + size <= base + WINDOW && t == REQ_END ==>
        NextWindow(mem, off, base) == None && Visits(mem, off) == [off])
      && (off + size <= base + WINDOW && t != REQ_END ==>
        Known(mem, off + size) && NextWindow(mem, off, base) == NextWindow(mem, off + size, base)
        && Visits(mem, off) == [off] + Visits(mem, off + size))
  {
  }

  /** One window of process_sram_results: the requests that are all inside it are visited. */
  method WalkWindow(buf: array<byte>, ghost mem: bytes, off: nat, seen: seq<nat>)
    returns (visited: seq<nat>, next: nat, done: bool)
    requires buf.Length == WINDOW && off % 2 == 0 && off + WINDOW <= |mem| && buf[..] == mem[off..off + WINDOW]
    requires Known(mem, off)
    ensures done <==> NextWindow(mem, off, off) == None
    ensures !done ==> NextWindow(mem, off, off) == Some(next) && Known(mem, next)
    ensures next % 2 == 0 && off < next <= off + WINDOW
    ensures done ==> visited == seen + Visits(mem, off)
    ensures !done ==> visited + Visits(mem, next) == seen + Visits(mem, off)
  {
    hide Known, Visits, NextWindow, ReqSize;
    visited, done := seen, false;
    var p, sz := 0, WINDOW;
    while sz > 0 && !done
      invariant p + sz == WINDOW && p % 2 == 0
      invariant !done ==> Known(mem, off + p) && NextWindow(mem, off + p, off) == NextWindow(mem, off, off)
      invariant !done ==> visited + Visits(mem, off + p) == seen + Visits(mem, off)
      invariant done ==> p > 0 && NextWindow(mem, off, off) == None && visited == seen + Visits(mem, off)
      decreases sz, !done
    {
      LeadsStep(mem, off + p, off);
      assert buf[p] == buf[..][p] == mem[off + p];
      ghost var was := visited;
      var req := TypeOf(buf[p]);
      var reqsz := ReqSize(req);
      if sz < reqsz {
        break;
      }
      visited := visited + [off + p];
      assert was + Visits(mem, off + p) == visited + Visits(mem, off + p)[1..];
      if req == REQ_END {
        done := true;
      }
      sz := sz - reqsz;
      p := p + reqsz;
    }
    if !done {
      WindowDone(mem, off + p, off);
    }
    next := off + WINDOW - sz;
  }

  lemma WindowDone(mem: bytes, off: nat, base: nat)
    requires Known(mem, off) && base <= off <= base + WINDOW <= |mem|
    requires off < base + WINDOW ==> off + ReqSize(TypeOf(mem[off])) > base + WINDOW
    ensures NextWindow(mem, off, base) == Some(off)
    ensures off > base || WINDOW < 12
  {
  }

  /** The window from `base` does not fit, and what is visited are the requests before it. */
  predicate StoppedAt(mem: bytes, base: nat, visited: seq<nat>) {
    && base + WINDOW > SRAM_SIZE
    && Known(mem, base) && Known(mem, 0) && visited + Visits(mem, base) == Visits(mem, 0)
  }

  /**
   * process_sram_results, of which the HTTP requests are left out: the windows together visit exactly the
   * requests of the flat walk, each once and in order, and it fails exactly when a window does not fit; then
   * the requests from that window on are the ones not visited.
   */
  method ProcessResults(sram: Sram) returns (rc: int, visited: seq<nat>)
    requires sram.Words() && Known(sram.Image(), 0)
    ensures rc == if Inside(Windows(sram.Image(), 0)) then 0 else -1
    ensures rc == 0 ==> visited == Visits(sram.Image(), 0)
    ensures rc != 0 ==> exists base :: base in Windows(sram.Image(), 0) && StoppedAt(sram.Image(), base, visited)
  {
    hide Known, Visits, NextWindow, Windows, Sram.Image;
    ghost var mem := sram.Image();
    assert mem == sram.Image();
    var buf := new byte[WINDOW](_ => 0);
    var off: nat, done := 0, false;
    visited := [];
    ghost var used: seq<nat> := [];
    while !done
      invariant sram.Words() && sram.Image() == mem && fresh(buf) && off % 2 == 0 && Inside(used)
      invariant !done ==> Known(mem, off) && visited + Visits(mem, off) == Visits(mem, 0)
      invariant !done ==> used + Windows(mem, off) == Windows(mem, 0)
      invariant done ==> visited == Visits(mem, 0) && used == Windows(mem, 0)
      decreases |mem| - off, !done
    {
      rc := sram.Read(off, buf);
      WindowsStep(mem, off);
      if rc != 0 {
        assert Windows(mem, 0)[|used|] == off;
        assert StoppedAt(mem, off, visited);
        return;
      }
      used := used + [off];
      visited, off, done := WalkWindow(buf, mem, off, visited);
    }
    rc := 0;
  }

  lemma WindowsStep(mem: bytes, off: nat)
    requires Known(mem, off)
    ensures off + WINDOW > |mem| ==> Windows(mem, off) == [off]
    ensures off + WINDOW <= |mem| ==>
      var next := NextWindow(mem, off, off);
      Windows(mem, off) == [off] + if next == None then [] else Windows(mem, next.value)
  {
  }

  /**
   * A window starts 252 bytes behind the one before it, and 246 bytes only when the request there is a test vector,
   * which would not have fit.
   */
  lemma {:induction false} NextIsNear(mem: bytes, off: nat, base: nat)
    requires Known(mem, off) && base <= off <= base + WINDOW <= |mem| && off % 6 == base % 6
    ensures var next := NextWindow(mem, off, base);
      next.Some? ==>
        next.value == base + 252 || (next.value == base + 246 && TypeOf(mem[base + 246]) == REQ_TEST_VECTOR)
    decreases |mem| - off
  {
    if off < base + WINDOW {
      var size := ReqSize(TypeOf(mem[off]));
      if off + size <= base + WINDOW && TypeOf(mem[off]) != REQ_END {
        NextIsNear(mem, off + size, base);
      }
    }
  }

  // ---- from the emitted list to the visited offsets ----

  /** Where the requests of a list start when the first is at `base`. */
  function Offsets(rs: seq<bytes>, base: nat): seq<nat> {
    if rs == [] then [] else [base] + Offsets(rs[1..], base + |rs[0]|)
  }

  /** Complete requests without an END. */
  predicate Plain(rs: seq<bytes>) {
    AllComplete(rs) && forall i :: 0 <= i < |rs| ==> !IsEnd(rs[i])
  }

  /** Requests, none of them an END, fill the memory from `off` to `e`. */
  predicate Joins(mem: bytes, off: nat, e: nat)
    decreases e - off
  {
    off == e ||
    (off < e && off < |mem| && TypeOf(mem[off]) != REQ_END && ReqSize(TypeOf(mem[off])) > 0
     && Joins(mem, off + ReqSize(TypeOf(mem[off])), e))
  }

  /** In a memory that holds a list of requests, the walk visits exactly these and goes on behind them. */
  lemma {:induction false} Laid(mem: bytes, off: nat, rs: seq<bytes>)
    requires Plain(rs) && off + |Flatten(rs)| <= |mem| && mem[off..off + |Flatten(rs)|] == Flatten(rs)
    requires Known(mem, off + |Flatten(rs)|)
    ensures Known(mem, off) && Visits(mem, off) == Offsets(rs, off) + Visits(mem, off + |Flatten(rs)|)
    ensures Joins(mem, off, off + |Flatten(rs)|)
    decreases |rs|
  {
    hide Known, Visits, Joins, Plain, Flatten;
    if rs != [] {
      FirstLaid(mem, off, rs);
      var next := off + |rs[0]|;
      Laid(mem, next, rs[1..]);
      OneBefore(mem, off, off + |Flatten(rs)|);
      Assoc([off], Offsets(rs[1..], next), Visits(mem, off + |Flatten(rs)|));
    } else {
      FlattenNothing();
      JoinsSelf(mem, off);
      assert Offsets(rs, off) + Visits(mem, off) == Visits(mem, off);
    }
  }

  lemma JoinsSelf(mem: bytes, off: nat)
    ensures Joins(mem, off, off)
  {
  }

  lemma OneBefore(mem: bytes, off: nat, e: nat)
    requires off < |mem| && TypeOf(mem[off]) != REQ_END && ReqSize(TypeOf(mem[off])) > 0
    requires var next := off + ReqSize(TypeOf(mem[off])); next <= |mem| && Known(mem, next) && Joins(mem, next, e)
    ensures var next := off + ReqSize(TypeOf(mem[off]));
      Known(mem, off) && Visits(mem, off) == [off] + Visits(mem, next) && Joins(mem, off, e)
  {
    JoinsUpto(mem, off + ReqSize(TypeOf(mem[off])), e);
  }

  lemma FirstLaid(mem: bytes, off: nat, rs: seq<bytes>)
    requires Plain(rs) && rs != []
    requires off + |Flatten(rs)| <= |mem| && mem[off..off + |Flatten(rs)|] == Flatten(rs)
    ensures var next, rest := off + |rs[0]|, Flatten(rs[1..]);
      && Plain(rs[1..]) && next + |rest| == off + |Flatten(rs)| && mem[next..next + |rest|] == rest
      && rs[0] != [] && off < |mem| && mem[off] == rs[0][0]
      && ReqSize(TypeOf(mem[off])) == |rs[0]| && TypeOf(mem[off]) != REQ_END
  {
    hide *;
    FlattenFirst(rs);
    PlainFirst(rs);
    FrontOf(mem, off, rs[0], Flatten(rs[1..]));
  }

  lemma FlattenFirst(rs: seq<bytes>)
    requires rs != []
    ensures Flatten(rs) == rs[0] + Flatten(rs[1..])
  {
  }

  lemma PlainFirst(rs: seq<bytes>)
    requires Plain(rs) && rs != []
    ensures Plain(rs[1..]) && rs[0] != []
    ensures ReqSize(TypeOf(rs[0][0])) == |rs[0]| && TypeOf(rs[0][0]) != REQ_END
  {
    hide TypeOf, ReqSize;
    assert Complete(rs[0]) && !IsEnd(rs[0]);
    assert forall i :: 0 <= i < |rs| - 1 ==> rs[1..][i] == rs[i + 1];
  }

  lemma FrontOf(mem: bytes, off: nat, r: bytes, rest: bytes)
    requires r != [] && off + |r + rest| <= |mem| && mem[off..off + |r + rest|] == r + rest
    ensures mem[off] == r[0] && mem[off + |r|..off + |r| + |rest|] == rest
  {
    assert mem[off] == mem[off..off + |r + rest|][0];
    assert mem[off..off + |r + rest|][|r|..] == mem[off + |r|..off + |r| + |rest|];
  }

  /** What a window that starts in front of `e` does. */
  lemma {:induction false} NextJoins(mem: bytes, off: nat, base: nat, e: nat)
    requires Joins(mem, off, e) && e < |mem| && Known(mem, e) && Known(mem, off)
    requires base <= off <= base + WINDOW <= |mem| && base % 6 == off % 6
    ensures var r := NextWindow(mem, off, base);
      if e + ReqSize(TypeOf(mem[e])) > base + WINDOW then r.Some? && Joins(mem, r.value, e) && r.value % 6 == base % 6
      else TypeOf(mem[e]) == REQ_END ==> r == None
    decreases e - off
  {
    var size := ReqSize(TypeOf(mem[off]));
    if off < e && off + size <= base + WINDOW {
      NextJoins(mem, off + size, base, e);
    }
  }

  /** The walk gets to an END behind which there is room for a window. */
  lemma {:induction false} WindowsFit(mem: bytes, base: nat, e: nat)
    requires |mem| == SRAM_SIZE && Joins(mem, base, e) && base <= e && Known(mem, base)
    requires e + WINDOW <= SRAM_SIZE && TypeOf(mem[e]) == REQ_END
    ensures Inside(Windows(mem, base))
    decreases e - base
  {
    NextJoins(mem, base, base, e);
    var next := NextWindow(mem, base, base);
    if next.Some? {
      JoinsUpto(mem, next.value, e);
      WindowsFit(mem, next.value, e);
    }
  }

  lemma JoinsUpto(mem: bytes, off: nat, e: nat)
    requires Joins(mem, off, e)
    ensures off <= e
  {
  }

  /**
   * The walk never gets behind the last eight bytes of the SRAM: windows start at multiples of six, and so the
   * last that fits ends four bytes before the end.
   */
  lemma {:induction false} WindowsFail(mem: bytes, base: nat, e: nat)
    requires |mem| == SRAM_SIZE && Joins(mem, base, e) && Known(mem, base) && Known(mem, e)
    requires base % 6 == 0 && SRAM_SIZE - 8 <= e < SRAM_SIZE
    ensures !Inside(Windows(mem, base))
    decreases SRAM_SIZE - base
  {
    if base + WINDOW <= SRAM_SIZE {
      assert SRAM_SIZE == 6 * 349525 + 2;
      assert base + WINDOW <= SRAM_SIZE - 4;
      NextJoins(mem, base, base, e);
      var next := NextWindow(mem, base, base).value;
      WindowsFail(mem, next, e);
      assert Windows(mem, base)[1..] == Windows(mem, next);
      var i :| 0 <= i < |Windows(mem, next)| && Windows(mem, next)[i] + WINDOW > SRAM_SIZE;
      assert Windows(mem, base)[i + 1] + WINDOW > SRAM_SIZE;
    } else {
      assert Windows(mem, base)[0] == base;
    }
  }

  /** The device writes results into the requests but leaves their types, and so the walk, alone. */
  lemma {:induction false} SameTypesSameVisits(mem: bytes, after: bytes, off: nat, e: nat)
    requires Known(mem, off) && |after| == |mem| && Joins(mem, off, e) && e + 6 <= |mem| && TypeOf(mem[e]) == REQ_END
    requires forall o :: o in Visits(mem, off) ==> o < |mem| && TypeOf(after[o]) == TypeOf(mem[o])
    ensures Known(after, off) && Visits(after, off) == Visits(mem, off)
    decreases e - off
  {
    hide *;
    if off == e {
      EndHere(mem, e);
      EndHere(after, e);
    } else {
      var next := JoinsStep(mem, off, e);
      OneMore(mem, off, next);
      assert off in [off] + Visits(mem, next);
      forall o | o in Visits(mem, next)
        ensures o in Visits(mem, off)
      {
      }
      SameTypesSameVisits(mem, after, next, e);
      OneMore(after, off, next);
    }
  }

  lemma JoinsStep(mem: bytes, off: nat, e: nat) returns (next: nat)
    requires Known(mem, off) && Joins(mem, off, e) && off != e && e + 6 <= |mem|
    ensures off < next <= e && next == off + ReqSize(TypeOf(mem[off])) && TypeOf(mem[off]) != REQ_END
    ensures Known(mem, next) && Joins(mem, next, e)
  {
    next := off + ReqSize(TypeOf(mem[off]));
    JoinsUpto(mem, next, e);
  }

  lemma OneMore(mem: bytes, off: nat, next: nat)
    requires off < |mem| && next == off + ReqSize(TypeOf(mem[off])) && off < next <= |mem|
    requires TypeOf(mem[off]) != REQ_END && Known(mem, next)
    ensures Known(mem, off) && Visits(mem, off) == [off] + Visits(mem, next)
  {
  }

  lemma {:induction false} SameTail(before: bytes, after: bytes, off: nat)
    requires Known(before, off) && |after| == |before| && forall k :: off <= k < |after| ==> after[k] == before[k]
    ensures Known(after, off)
    decreases |before| - off
  {
    if off < |before| && TypeOf(before[off]) != REQ_END {
      SameTail(before, after, off + ReqSize(TypeOf(before[off])));
    }
  }

  /** The SRAM after a flush. */
  lemma Flushed(before: bytes, mem: bytes, rs: seq<bytes>)
    requires Plain(rs) && |before| == SRAM_SIZE && |Flatten(rs)| % 6 == 0
    requires Overwrites(Flatten(rs + Tail(|Flatten(rs)|)), before, mem)
    requires !EndFits(|Flatten(rs)|) ==> Known(before, |Flatten(rs)|)
    ensures var e, sent := |Flatten(rs)|, rs + Tail(|Flatten(rs)|);
      && Known(mem, 0) && Carries(mem, rs) && |mem| == SRAM_SIZE
      && Offsets(sent, 0) <= Visits(mem, 0) && (EndFits(e) ==> Offsets(sent, 0) == Visits(mem, 0))
      && (e + WINDOW <= SRAM_SIZE ==> Inside(Windows(mem, 0)))
      && (!EndFits(e) ==> !Inside(Windows(mem, 0)))
  {
    hide Known, Visits, Windows, Joins, Plain, Offsets, Flatten, Overwrites;
    var e := |Flatten(rs)|;
    Sent(before, mem, rs);
    Laid(mem, 0, rs);
    if e + WINDOW <= SRAM_SIZE {
      WindowsFit(mem, 0, e);
    }
    if EndFits(e) {
      EndHere(mem, e);
      OffsetsEnd(rs, 0);
    } else {
      assert SRAM_SIZE == 6 * 349525 + 2;
      WindowsFail(mem, 0, e);
      assert rs + Tail(e) == rs;
    }
  }

  /** The bytes of the SRAM after a flush. */
  lemma Sent(before: bytes, mem: bytes, rs: seq<bytes>)
    requires |before| == SRAM_SIZE && Overwrites(Flatten(rs + Tail(|Flatten(rs)|)), before, mem)
    requires !EndFits(|Flatten(rs)|) ==> Known(before, |Flatten(rs)|)
    ensures var e := |Flatten(rs)|;
      && Carries(mem, rs) && |mem| == SRAM_SIZE && e <= |mem| && mem[0..0 + e] == Flatten(rs) && Known(mem, e)
      && (EndFits(e) ==> TypeOf(mem[e]) == REQ_END)
  {
    hide Flatten, Known, Overwrites;
    var e := |Flatten(rs)|;
    FlattenJoin(rs, Tail(e));
    FlattenEnd();
    FlattenNothing();
    NowCarries(before, mem, rs);
    if EndFits(e) {
      OverwritesEnd(Flatten(rs), before, mem);
      EndHere(mem, e);
    } else {
      assert Flatten(rs) + [] == Flatten(rs);
      OverwritesOnly(Flatten(rs), before, mem);
      SameTail(before, mem, e);
    }
  }

  lemma OverwritesEnd(flat: bytes, before: bytes, mem: bytes)
    requires Overwrites(flat + END, before, mem)
    ensures |mem| == |before| && |flat| + 6 <= |mem| && mem[0..0 + |flat|] == flat && TypeOf(mem[|flat|]) == REQ_END
  {
    assert mem[|flat|] == END[0];
  }

  lemma OverwritesOnly(flat: bytes, before: bytes, mem: bytes)
    requires Overwrites(flat, before, mem)
    ensures |mem| == |before| && |flat| <= |mem| && mem[0..0 + |flat|] == flat
    ensures forall k :: |flat| <= k < |mem| ==> mem[k] == before[k]
  {
  }

  lemma EndHere(mem: bytes, e: nat)
    requires e + 6 <= |mem| && TypeOf(mem[e]) == REQ_END
    ensures Known(mem, e) && Visits(mem, e) == [e]
  {
  }

  lemma {:induction false} OffsetsEnd(rs: seq<bytes>, base: nat)
    ensures Offsets(rs + [END], base) == Offsets(rs, base) + [base + |Flatten(rs)|]
  {
    if rs != [] {
      OffsetsEnd(rs[1..], base + |rs[0]|);
      assert (rs + [END])[1..] == rs[1..] + [END];
    }
  }

  lemma FlattenEnd()
    ensures Flatten([END]) == END
  {
  }

  /**
   * Everything together: what is staged is sent to the SRAM, with an END if it fits, and the windowed walk over the
   * SRAM succeeds exactly when there is an END and every window fits, which is so when an END is followed by the
   * rest of a window. Then it visits exactly the staged requests and the END, at the offsets they were staged at;
   * otherwise those before the first window that does not fit. When the END did not fit, the walk goes on into
   * what an earlier image left behind it, and never succeeds.
   */
  method SendAndProcess(stage: Stage, sram: Sram) returns (rc: int, visited: seq<nat>)
    requires stage.Valid() && sram.Valid() && Plain(stage.requests)
    requires !EndFits(stage.off) ==> Known(sram.Image(), stage.off)
    modifies stage, stage.stage, sram, sram.words
    ensures stage.Valid() && sram.Valid() && Known(sram.Image(), 0)
    ensures rc == if EndFits(old(stage.off)) && Inside(Windows(sram.Image(), 0)) then 0 else -1
    ensures old(stage.off) + WINDOW <= SRAM_SIZE ==> rc == 0
    ensures rc == 0 ==> visited == Offsets(old(stage.requests) + [END], 0)
    ensures rc != 0 ==> exists base :: base in Windows(sram.Image(), 0) && StoppedAt(sram.Image(), base, visited)
    ensures Offsets(old(stage.requests) + Tail(old(stage.off)), 0) <= Visits(sram.Image(), 0)
    ensures Carries(sram.Image(), old(stage.requests)) && sram.images == old(sram.images) + [sram.Image()]
  {
    hide Sram.Image, Known, Visits, Windows, Flatten, Plain, Overwrites, Carries, Offsets, StoppedAt;
    ghost var rs, before := stage.requests, sram.Image();
    stage.OffIsSize();
    var sent := stage.Suspend(sram);
    Flushed(before, sram.Image(), rs);
    rc, visited := ProcessResults(sram);
  }

  // ---- a whole file ----

  function Joined(flushes: seq<seq<bytes>>): seq<bytes> {
    if flushes == [] then [] else Joined(flushes[..|flushes| - 1]) + flushes[|flushes| - 1]
  }

  /**
   * The retry loop of parse_file: a request that does not fit is emitted again after a flush, and the second time
   * it fits. The flush sends what was staged to the SRAM.
   */
  method EmitRetrying(stage: Stage, sram: Sram, r: bytes) returns (ghost flush: bool)
    requires stage.Valid() && sram.Valid() && Complete(r)
    modifies stage, stage.stage, sram, sram.words
    ensures stage.Valid() && sram.Valid()
    ensures flush <==> old(stage.off) + |r| + ReqSize(REQ_END) > SRAM_SIZE
    ensures !flush ==> stage.requests == old(stage.requests) + [r] && sram.images == old(sram.images)
    ensures flush ==> stage.requests == [r] && sram.images == old(sram.images) + [sram.Image()]
    ensures flush ==> Carries(sram.Image(), old(stage.requests))
  {
    hide Sram.Image, Flatten, Carries, Overwrites;
    flush := false;
    ghost var sent := stage.requests;
    while true
      invariant stage.Valid() && sram.Valid()
      invariant flush ==> old(stage.off) + |r| + ReqSize(REQ_END) > SRAM_SIZE
      invariant !flush ==> stage.requests == sent && stage.off == old(stage.off) && sram.images == old(sram.images)
      invariant flush ==> stage.requests == [] && stage.off == 0 && sram.images == old(sram.images) + [sram.Image()]
      invariant flush ==> Carries(sram.Image(), sent)
      decreases !flush
    {
      var ok := stage.Emit(r);
      if ok {
        return;
      }
      assert !flush && stage.requests == sent;
      ghost var before := sram.Image();
      stage.OffIsSize();
      var rc := stage.Suspend(sram);
      NowCarries(before, sram.Image(), sent);
      flush := true;
    }
  }

  /**
   * Over any list of requests, none is lost, repeated or reordered by the flushes in between: what the SRAM was
   * filled with at each flush, and what is still staged, are together the requests that were to be emitted.
   */
  method EmitAll(stage: Stage, sram: Sram, rs: seq<bytes>) returns (ghost flushed: seq<seq<bytes>>)
    requires stage.Valid() && sram.Valid() && AllComplete(rs)
    modifies stage, stage.stage, sram, sram.words
    ensures stage.Valid() && sram.Valid()
    ensures Joined(flushed) + stage.requests == old(stage.requests) + rs
    ensures old(sram.images) <= sram.images && |sram.images| == |old(sram.images)| + |flushed|
    ensures forall k :: 0 <= k < |flushed| ==> Carries(sram.images[|old(sram.images)| + k], flushed[k])
  {
    hide Sram.Image, Flatten, Carries, AllComplete;
    flushed := [];
    var i := 0;
    while i < |rs|
      invariant 0 <= i <= |rs| && stage.Valid() && sram.Valid()
      invariant Joined(flushed) + stage.requests == old(stage.requests) + rs[..i]
      invariant old(sram.images) <= sram.images && |sram.images| == |old(sram.images)| + |flushed|
      invariant forall k :: 0 <= k < |flushed| ==> Carries(sram.images[|old(sram.images)| + k], flushed[k])
    {
      ghost var before := stage.requests;
      OneOf(rs, i);
      ghost var flush := EmitRetrying(stage, sram, rs[i]);
      assert rs[..i + 1] == rs[..i] + [rs[i]];
      Assoc(Joined(flushed), before, [rs[i]]);
      Assoc(old(stage.requests), rs[..i], [rs[i]]);
      if flush {
        JoinedMore(flushed, before);
        flushed := flushed + [before];
      }
      i := i + 1;
    }
    assert rs[..i] == rs;
  }

  lemma OneOf(rs: seq<bytes>, i: nat)
    requires AllComplete(rs) && i < |rs|
    ensures Complete(rs[i])
  {
  }

  lemma JoinedMore(flushes: seq<seq<bytes>>, last: seq<bytes>)
    ensures Joined(flushes + [last]) == Joined(flushes) + last
  {
    assert (flushes + [last])[..|flushes|] == flushes;
  }

  /**
   * A flush need not end in END: 349524 pin definitions fill the stage to where an END is refused, and the image
   * goes to the SRAM without one.
   */
  method FlushWithoutEnd(sram: Sram) returns (ghost sent: seq<bytes>)
    requires sram.Valid()
    modifies sram, sram.words
    ensures sram.Valid() && Carries(sram.Image(), sent) && Tail(|Flatten(sent)|) == []
    ensures |sent| == 349524 && Plain(sent)
    ensures forall i :: 0 <= i < |sent| ==> TypeOf(sent[i][0]) == REQ_SETUP_BITMASK
  {
    hide Sram.Image, Flatten;
    var stage := new Stage();
    var i := 0;
    while i < 349524
      invariant 0 <= i <= 349524 && sram.Valid() && stage.Valid() && stage.off == 6 * i && |stage.requests| == i
      invariant fresh(stage) && fresh(stage.stage)
      invariant forall k :: 0 <= k < i ==> stage.requests[k] == [64, 0, 0, 0, 0, 0]
    {
      var ok := stage.Emit([64, 0, 0, 0, 0, 0]);
      i := i + 1;
    }
    sent := stage.requests;
    var rc := stage.Suspend(sram);
  }
}
