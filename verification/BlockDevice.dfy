/** Byte-granular access to a block device: head, middle and tail, bounce buffers and read-modify-write. */
module BlockDevice {
  import opened Bytes
  import opened Arith

  /** `old` with `bytes` laid over it from position `at`. */
  function Overlaid(data: seq<byte>, at: nat, bytes: seq<byte>): (r: seq<byte>)
    requires at + |bytes| <= |data|
    ensures |r| == |data|
  {
    data[..at] + bytes + data[at + |bytes|..]
  }

  /** Exactly the bytes of the range change. */
  lemma OverlaidAt(data: seq<byte>, at: nat, bytes: seq<byte>, i: nat)
    requires at + |bytes| <= |data| && i < |data|
    ensures Overlaid(data, at, bytes)[i] == if at <= i < at + |bytes| then bytes[i - at] else data[i]
  {
  }

  lemma OverlaidTwice(data: seq<byte>, at: nat, a: seq<byte>, b: seq<byte>)
    requires at + |a| + |b| <= |data|
    ensures Overlaid(Overlaid(data, at, a), at + |a|, b) == Overlaid(data, at, a + b)
  {
  }

  lemma OverlaidNothing(data: seq<byte>, at: nat)
    requires at <= |data|
    ensures Overlaid(data, at, []) == data
  {
  }

  lemma Blocks(sector: nat, n: nat, bs: nat)
    ensures (sector + n) * bs == sector * bs + n * bs
  {
  }

  lemma BlocksMono(n: nat, m: nat, bs: nat)
    requires n <= m
    ensures n * bs <= m * bs
  {
  }

  /** Nothing outside the `len` bytes from `lo` changed. */
  ghost predicate Spoiled(now: seq<byte>, was: seq<byte>, lo: nat, len: nat) {
    |now| == |was| && forall i | 0 <= i < |was| && !(lo <= i < lo + len) :: now[i] == was[i]
  }

  class Device {
    const bs: nat
    const maxSize: nat
    const hasRead: bool
    const hasWrite: bool
    /** Which of the calls that can fail do: device transfers, frame allocations, user copies. */
    const fails: nat -> bool
    const reliable: bool
    var clock: nat
    var data: seq<byte>
    /** How many blocks each transfer asked for so far. */
    ghost var calls: seq<nat>

    ghost predicate Valid()
      reads this`data
    {
      bs > 0 && |data| % bs == 0 && (reliable ==> forall k: nat :: !fails(k))
    }

    /** max_sec. */
    function MaxSec(): (m: nat)
      requires bs > 0
      ensures if bs <= maxSize then m * bs <= maxSize < (m + 1) * bs else m == 1
    {
      StartBlock(maxSize, bs);
      Blocks(maxSize / bs, 1, bs);
      if maxSize >= bs then maxSize / bs else 1
    }

    lemma MaxSecPositive()
      requires bs > 0
      ensures MaxSec() > 0
    {
      if MaxSec() == 0 { Blocks(0, 1, bs); }
    }

    /** What the device takes in one call: a block, or as many as fit its largest transfer. */
    predicate Allows(n: nat) { n == 1 || (n > 1 && n * bs <= maxSize) }

    lemma MaxSecAllowed(n: nat)
      requires bs > 0 && 1 <= n <= MaxSec()
      ensures Allows(n) && MaxSec() >= 1
    {
      BlocksMono(n, MaxSec(), bs);
    }

    constructor (bs: nat, maxSize: nat, hasRead: bool, hasWrite: bool, fails: nat -> bool, reliable: bool,
        data: seq<byte>)
      requires bs > 0 && |data| % bs == 0 && (reliable ==> forall k: nat :: !fails(k))
      ensures Valid() && this.data == data && this.bs == bs && this.maxSize == maxSize && this.hasRead == hasRead &&
              this.hasWrite == hasWrite && this.reliable == reliable
    {
      this.bs, this.maxSize, this.hasRead, this.hasWrite, this.fails, this.reliable, this.data := bs, maxSize, hasRead,
        hasWrite, fails, reliable, data;
      clock, calls := 0, [];
    }

    method Fault() returns (b: bool)
      requires Valid()
      modifies this`clock
      ensures reliable ==> !b
    {
      b := fails(clock);
      clock := clock + 1;
    }

    /**
     * ops.read: `n` blocks from `sector` into dst at `pos`; never asked for more bytes than max_size, unless for one
     * block.
     */
    method ReadBlocks(dst: array<byte>, pos: nat, n: nat, sector: nat) returns (k: nat)
      requires Valid() && hasRead && Allows(n) && pos + n * bs <= dst.Length
      modifies this`clock, this`calls, dst
      ensures (k == n || k == 0) && calls == old(calls) + [n]
      ensures reliable && (sector + n) * bs <= |data| ==> k == n
      ensures k == n ==>
              sector * bs + n * bs <= |data| &&
              dst[..] == Overlaid(old(dst[..]), pos, data[sector * bs..sector * bs + n * bs])
    {
      Blocks(sector, n, bs);
      calls := calls + [n];
      var b := Fault();
      k := 0;
      if !b && (sector + n) * bs <= |data| {
        CopyIn(dst, pos, data[sector * bs..(sector + n) * bs]);
        k := n;
      }
    }

    /** ops.write: a failed call leaves the blocks it was asked to write with unspecified contents. */
    method WriteBlocks(src: seq<byte>, n: nat, sector: nat) returns (k: nat)
      requires Valid() && hasWrite && Allows(n) && |src| == n * bs
      modifies this`clock, this`calls, this`data
      ensures Valid() && |data| == old(|data|) && (k == n || k == 0) && calls == old(calls) + [n]
      ensures reliable && (sector + n) * bs <= |data| ==> k == n
      ensures k == n ==> sector * bs + n * bs <= |data| && data == Overlaid(old(data), sector * bs, src)
      ensures Spoiled(data, old(data), sector * bs, n * bs)
    {
      Blocks(sector, n, bs);
      calls := calls + [n];
      var b := Fault();
      k := 0;
      if (sector + n) * bs <= |data| {
        var bytes := src;
        if b { bytes :| |bytes| == |src|; } else { k := n; }
        data := Overlaid(data, sector * bs, bytes);
      }
    }
  }

  /** memcpy. */
  method CopyIn(dst: array<byte>, pos: nat, bytes: seq<byte>)
    requires pos + |bytes| <= dst.Length
    modifies dst
    ensures dst[..] == Overlaid(old(dst[..]), pos, bytes)
  {
    var i := 0;
    while i < |bytes|
      invariant 0 <= i <= |bytes|
      invariant dst[..pos] == old(dst[..pos]) && dst[pos..pos + i] == bytes[..i] &&
                dst[pos + |bytes|..] == old(dst[pos + |bytes|..])
    {
      dst[pos + i] := bytes[i];
      i := i + 1;
    }
    assert dst[..] == dst[..pos] + dst[pos..pos + |bytes|] + dst[pos + |bytes|..];
  }

  // ---------- reading ----------

  /** Part of one block through a bounce buffer: the head and the tail of a transfer. */
  method ReadPart(dev: Device, dst: array<byte>, pos: nat, sector: nat, off: nat, len: nat, ghost at: nat)
      returns (ok: bool)
    requires dev.Valid() && dev.hasRead && off + len <= dev.bs && pos + len <= dst.Length && at == sector * dev.bs
    modifies dev`clock, dev`calls, dst
    ensures ok ==>
            at + dev.bs <= |dev.data| && dst[..] == Overlaid(old(dst[..]), pos, dev.data[at + off..at + off + len])
    ensures dev.reliable && at + dev.bs <= |dev.data| ==> ok
    ensures ok ==> dev.calls == old(dev.calls) + [1]
  {
    hide Overlaid;
    ok := false;
    var noFrames := dev.Fault();
    if noFrames { return; }
    var bounce := new byte[dev.bs](_ => 0);
    ghost var blank := bounce[..];
    Blocks(sector, 1, dev.bs);
    var k := dev.ReadBlocks(bounce, 0, 1, sector);
    if k != 1 { return; }
    var noCopy := dev.Fault();
    if noCopy { return; }
    WholeOverlaid(blank, dev.data[at..at + dev.bs]);
    assert bounce[off..off + len] == bounce[..][off..off + len];
    SubSlice(dev.data, at, dev.bs, off, len);
    CopyIn(dst, pos, bounce[off..off + len]);
    ok := true;
  }

  lemma SubSlice(data: seq<byte>, at: nat, size: nat, off: nat, len: nat)
    requires at + size <= |data| && off + len <= size
    ensures data[at..at + size][off..off + len] == data[at + off..at + off + len]
  {
    var part, direct := data[at..at + size][off..off + len], data[at + off..at + off + len];
    forall k | 0 <= k < len
      ensures part[k] == direct[k]
    {
      assert data[at..at + size][off + k] == data[at + off + k];
    }
  }

  lemma WholeOverlaid(data: seq<byte>, bytes: seq<byte>)
    requires |data| == |bytes|
    ensures Overlaid(data, 0, bytes) == bytes
  {
  }

  /**
   * One device call of at most max_sec blocks, straight into dst or through a bounce buffer; `at` and `len` are in
   * bytes.
   */
  method ReadRound(dev: Device, dst: array<byte>, pos: nat, n: nat, sector: nat, direct: bool, ghost at: nat,
      ghost len: nat) returns (ok: bool)
    requires dev.Valid() && dev.hasRead && dev.Allows(n) && at == sector * dev.bs && len == n * dev.bs &&
             pos + len <= dst.Length
    modifies dev`clock, dev`calls, dst
    ensures ok ==> at + len <= |dev.data| && dst[..] == Overlaid(old(dst[..]), pos, dev.data[at..at + len])
    ensures dev.reliable && at + len <= |dev.data| ==> ok
    ensures dev.calls == old(dev.calls) + [n]
  {
    hide Overlaid;
    Blocks(sector, n, dev.bs);
    if direct {
      var k := dev.ReadBlocks(dst, pos, n, sector);
      ok := k == n;
    } else {
      ok := false;
      var bounce := new byte[n * dev.bs](_ => 0);
      ghost var blank := bounce[..];
      var k := dev.ReadBlocks(bounce, 0, n, sector);
      if k != n { return; }
      var noCopy := dev.Fault();
      if noCopy { return; }
      WholeOverlaid(blank, dev.data[at..at + len]);
      CopyIn(dst, pos, bounce[..]);
      ok := true;
    }
  }

  /** Two pieces of device data laid one behind the other. */
  lemma Pieces(was: seq<byte>, pos: nat, data: seq<byte>, at: nat, got: nat, len: nat)
    requires at + got + len <= |data| && pos + got + len <= |was|
    ensures Overlaid(Overlaid(was, pos, data[at..at + got]), pos + got, data[at + got..at + got + len]) ==
            Overlaid(was, pos, data[at..at + got + len])
  {
    OverlaidTwice(was, pos, data[at..at + got], data[at + got..at + got + len]);
    assert data[at..at + got] + data[at + got..at + got + len] == data[at..at + got + len];
  }

  /** The transfers that `secs` blocks take, each as large as it may be. */
  function Rounds(secs: nat, max: nat): (r: seq<nat>)
    requires max > 0
  {
    if secs <= max then (if secs == 0 then [] else [secs]) else [max] + Rounds(secs - max, max)
  }

  /** Where the loop stands: behind full transfers, or at the end. */
  predicate AtRound(done: nat, secs: nat, max: nat)
    requires max > 0
  {
    done == secs || done % max == 0
  }

  /** Another transfer of the largest size, or the last one. */
  lemma {:induction false} RoundsMore(done: nat, secs: nat, max: nat)
    requires max > 0 && done < secs && AtRound(done, secs, max)
    ensures var n := Min(secs - done, max);
            Rounds(done + n, max) == Rounds(done, max) + [n] && AtRound(done + n, secs, max)
  {
    if done >= max {
      RemainderIs(done - max, max, done / max - 1, 0);
      RoundsMore(done - max, secs - max, max);
      var n := Min(secs - done, max);
      assert done > max ==> Rounds(done, max) == [max] + Rounds(done - max, max);
      assert Rounds(done + n, max) == [max] + Rounds(done - max + n, max);
      assert done == max ==> Rounds(done - max, max) == [];
      if (done - max + n) % max == 0 { RemainderIs(done + n, max, (done - max + n) / max + 1, 0); }
    } else {
      assert done == 0 by { RemainderIs(done, max, 0, done); }
      if secs >= max { RemainderIs(max, max, 1, 0); }
    }
  }

  lemma NoRounds(max: nat)
    requires max > 0
    ensures Rounds(0, max) == [] && forall secs: nat :: AtRound(0, secs, max)
  {
    RemainderIs(0, max, 0, 0);
  }

  /** The transfers of a whole request: `edge` for each block it covers in part, and the rounds between. */
  function Plan(offset: nat, length: nat, bs: nat, max: nat, edge: seq<nat>): seq<nat>
    requires bs > 0 && max > 0
  {
    var rest := if offset % bs == 0 then length else length - Min(bs - offset % bs, length);
    (if offset % bs == 0 then [] else edge) + PlanRest(rest, bs, max, edge)
  }

  function PlanRest(rest: nat, bs: nat, max: nat, edge: seq<nat>): seq<nat>
    requires bs > 0 && max > 0
  {
    Rounds(rest / bs, max) + if rest % bs == 0 then [] else edge
  }

  lemma RestIs(x: nat, bs: nat, max: nat, edge: seq<nat>, q: nat, rest: nat)
    requires bs > 0 && max > 0 && x == q * bs + rest && rest < bs
    ensures PlanRest(x, bs, max, edge) == Rounds(q, max) + if rest == 0 then [] else edge
  {
    RemainderIs(x, bs, q, rest);
  }

  /** The same from what the call works out: `head` bytes in the first block, if it is entered in its middle. */
  lemma PlanIs(offset: nat, length: nat, bs: nat, max: nat, edge: seq<nat>)
    requires bs > 0 && max > 0
    ensures offset % bs == 0 ==> Plan(offset, length, bs, max, edge) == PlanRest(length, bs, max, edge)
    ensures offset % bs != 0 ==>
            Plan(offset, length, bs, max, edge) ==
              edge + PlanRest(length - Min(bs - offset % bs, length), bs, max, edge)
  {
    hide PlanRest;
  }

  lemma Joined(a: seq<nat>, b: seq<nat>, c: seq<nat>)
    ensures (a + b) + c == a + (b + c) && [] + c == c && a + [] == a
  {
  }

  lemma NoRest(bs: nat, max: nat, edge: seq<nat>)
    requires bs > 0 && max > 0
    ensures PlanRest(0, bs, max, edge) == []
  {
    RemainderIs(0, bs, 0, 0);
  }

  /** The middle loop: `secs` whole blocks. */
  method ReadRun(dev: Device, dst: array<byte>, pos: nat, sector: nat, secs: nat, direct: bool, ghost at: nat,
      ghost whole: nat) returns (ok: bool)
    requires dev.Valid() && dev.hasRead && at == sector * dev.bs && whole == secs * dev.bs &&
             pos + whole <= dst.Length && secs > 0
    modifies dev`clock, dev`calls, dst
    ensures ok ==> at + whole <= |dev.data| && dst[..] == Overlaid(old(dst[..]), pos, dev.data[at..at + whole])
    ensures dev.reliable && at + whole <= |dev.data| ==> ok
    ensures dev.MaxSec() > 0 && (ok ==> dev.calls == old(dev.calls) + Rounds(secs, dev.MaxSec()))
  {
    hide Overlaid, Rounds, AtRound;
    ghost var calls := dev.calls;
    dev.MaxSecPositive();
    NoRounds(dev.MaxSec());
    ghost var was := dst[..];
    OverlaidNothing(was, pos);
    ok := true;
    if !direct {
      var noFrames := dev.Fault();
      if noFrames { return false; }
    }
    var done, got := 0, 0;
    while done < secs && ok
      invariant 0 <= done <= secs && got == done * dev.bs && got <= whole
      invariant ok && done > 0 ==> at + got <= |dev.data| && dst[..] == Overlaid(was, pos, dev.data[at..at + got])
      invariant done == 0 ==> dst[..] == was || !ok
      invariant ok ==> dev.calls == calls + Rounds(done, dev.MaxSec()) && AtRound(done, secs, dev.MaxSec())
      invariant dev.reliable && at + whole <= |dev.data| ==> ok
      decreases ok, secs - done
    {
      var n := Min(secs - done, dev.MaxSec());
      var len := n * dev.bs;
      Arithmetic(sector, done, n, secs, dev.bs);
      RoundsMore(done, secs, dev.MaxSec());
      dev.MaxSecAllowed(n);
      ok := ReadRound(dev, dst, pos + got, n, sector + done, direct, at + got, len);
      if ok {
        Pieces(was, pos, dev.data, at, got, len);
        assert dev.data[at..at + 0] == [];
        done, got := done + n, got + len;
      }
    }
  }

  lemma Arithmetic(sector: nat, done: nat, n: nat, secs: nat, bs: nat)
    requires done + n <= secs
    ensures (done + n) * bs == done * bs + n * bs <= secs * bs && (sector + done) * bs == sector * bs + done * bs
  {
    Blocks(done, n, bs);
    Blocks(sector, done, bs);
    BlocksMono(done + n, secs, bs);
  }

  /** Quotient and remainder of the start offset. */
  lemma StartBlock(offset: nat, bs: nat)
    requires bs > 0
    ensures offset == offset / bs * bs + offset % bs && offset % bs < bs
  {
  }

  /** A transfer that ends within the device ends within its last block. */
  lemma LastBlock(at: nat, rest: nat, sector: nat, bs: nat, size: nat)
    requires bs > 0 && size % bs == 0 && at == sector * bs && 0 < rest && at + rest <= size
    ensures at + bs <= size
  {
    var k := size / bs;
    assert size == k * bs;
    if k <= sector { BlocksMono(k, sector, bs); }
    assert sector < k;
    BlocksMono(sector + 1, k, bs);
    Blocks(sector, 1, bs);
  }

  /** What laying `len` bytes of the device from `at` over `was` at `pos` gives; nothing for `len` 0. */
  ghost predicate Landed(now: seq<byte>, was: seq<byte>, pos: nat, data: seq<byte>, at: nat, len: nat) {
    if len == 0 then now == was
    else at + len <= |data| && pos + len <= |was| && now == Overlaid(was, pos, data[at..at + len])
  }

  lemma LandedTwice(now: seq<byte>, mid: seq<byte>, was: seq<byte>, pos: nat, data: seq<byte>, at: nat, a: nat, b: nat)
    requires Landed(mid, was, pos, data, at, a) && Landed(now, mid, pos + a, data, at + a, b)
    ensures Landed(now, was, pos, data, at, a + b)
  {
    if a > 0 && b > 0 { Pieces(was, pos, data, at, a, b); }
  }

  /** Whole blocks and what is left over. */
  method Split(x: nat, bs: nat) returns (q: nat, whole: nat, rest: nat)
    requires bs > 0
    ensures whole == q * bs && x == whole + rest && rest < bs && (q > 0 ==> whole >= bs) && (q == 0 ==> whole == 0)
  {
    q := x / bs;
    whole := q * bs;
    rest := x % bs;
    StartBlock(x, bs);
    if q > 0 { BlocksMono(1, q, bs); }
  }

  /** The middle and the tail. */
  method ReadRest(dev: Device, dst: array<byte>, pos: nat, sector: nat, remaining: nat, direct: bool, ghost at: nat)
      returns (ok: bool)
    requires dev.Valid() && dev.hasRead && at == sector * dev.bs && pos + remaining <= dst.Length
    modifies dev`clock, dev`calls, dst
    ensures ok ==> Landed(dst[..], old(dst[..]), pos, dev.data, at, remaining)
    ensures dev.reliable && at + remaining <= |dev.data| ==> ok
    ensures dev.MaxSec() > 0 && (ok ==> dev.calls == old(dev.calls) + PlanRest(remaining, dev.bs, dev.MaxSec(), [1]))
  {
    hide Overlaid, Landed, Rounds, PlanRest;
    dev.MaxSecPositive();
    NoRounds(dev.MaxSec());
    ok := true;
    ghost var was := dst[..];
    var mid, whole, tail := Split(remaining, dev.bs);
    RestIs(remaining, dev.bs, dev.MaxSec(), [1], mid, tail);
    NothingLanded(was, dev.data, at);
    if mid > 0 {
      ok := ReadRun(dev, dst, pos, sector, mid, direct, at, whole);
      if !ok { return; }
      LandedIs(was, pos, dev.data, at, whole);
    }
    if tail > 0 {
      Blocks(sector, mid, dev.bs);
      if at + remaining <= |dev.data| { LastBlock(at + whole, tail, sector + mid, dev.bs, |dev.data|); }
      ghost var between := dst[..];
      ok := ReadPart(dev, dst, pos + whole, sector + mid, 0, tail, at + whole);
      if !ok { return; }
      LandedIs(between, pos + whole, dev.data, at + whole, tail);
      LandedTwice(dst[..], between, was, pos, dev.data, at, whole, tail);
    }
  }

  lemma LandedIs(was: seq<byte>, pos: nat, data: seq<byte>, at: nat, len: nat)
    requires at + len <= |data| && pos + len <= |was|
    ensures Landed(Overlaid(was, pos, data[at..at + len]), was, pos, data, at, len)
  {
    OverlaidNothing(was, pos);
  }

  /** The part before the first block boundary, if the transfer starts inside a block. */
  method ReadHead(dev: Device, dst: array<byte>, offset: nat, length: nat) returns (ok: bool, sector: nat, pos: nat)
    requires dev.Valid() && dev.hasRead && length <= dst.Length
    modifies dev`clock, dev`calls, dst
    ensures pos == if offset % dev.bs == 0 then 0 else Min(dev.bs - offset % dev.bs, length)
    ensures sector == if offset % dev.bs == 0 then offset / dev.bs else offset / dev.bs + 1
    ensures ok ==> Landed(dst[..], old(dst[..]), 0, dev.data, offset, pos)
    ensures ok ==> dev.calls == old(dev.calls) + if offset % dev.bs == 0 then [] else [1]
    ensures dev.reliable && offset + length <= |dev.data| ==> ok
  {
    hide Overlaid, Landed;
    ghost var was := dst[..];
    var bs := dev.bs;
    StartBlock(offset, bs);
    NothingLanded(was, dev.data, offset);
    ok, sector, pos := true, offset / bs, 0;
    var blockOff := offset % bs;
    if blockOff != 0 {
      var head := Min(bs - blockOff, length);
      if offset + length <= |dev.data| { HeadBlock(offset, sector, bs, |dev.data|); }
      ok := ReadPart(dev, dst, 0, sector, blockOff, head, offset - blockOff);
      if ok { LandedIs(was, 0, dev.data, offset, head); }
      pos, sector := head, sector + 1;
    }
  }

  /** blk_device_read on a block device; `user` and `dma` say which copies need a bounce buffer. -1 is failure. */
  method Read(dev: Device, dst: array<byte>, offset: nat, length: nat, user: bool, dma: nat -> bool) returns (r: int)
    requires dev.Valid() && length <= dst.Length
    modifies dev`clock, dev`calls, dst
    ensures r == length || r == -1
    ensures r == length ==> Landed(dst[..], old(dst[..]), 0, dev.data, offset, length)
    ensures dev.reliable && dev.hasRead && offset + length <= |dev.data| ==> r == length
    ensures dev.MaxSec() > 0
    ensures r == length ==> dev.calls == old(dev.calls) + Plan(offset, length, dev.bs, dev.MaxSec(), [1])
  {
    hide Overlaid, Landed, Plan, PlanRest;
    dev.MaxSecPositive();
    PlanIs(offset, length, dev.bs, dev.MaxSec(), [1]);
    NoRest(dev.bs, dev.MaxSec(), [1]);
    r := -1;
    if !dev.hasRead { return; }
    ghost var was, calls := dst[..], dev.calls;
    var ok, sector, pos := ReadHead(dev, dst, offset, length);
    if !ok { return; }
    ghost var between := dst[..];
    var remaining := length - pos;
    if remaining > 0 {
      AfterHead(offset, length, pos, sector, dev.bs);
      ok := ReadRest(dev, dst, pos, sector, remaining, !user && dma(pos), offset + pos);
    }
    if ok {
      NothingLanded(between, dev.data, offset + pos);
      LandedTwice(dst[..], between, was, 0, dev.data, offset, pos, remaining);
      Joined(calls, [1], PlanRest(remaining, dev.bs, dev.MaxSec(), [1]));
      r := length;
    }
  }

  lemma NothingLanded(was: seq<byte>, data: seq<byte>, at: nat)
    ensures forall pos: nat :: Landed(was, was, pos, data, at, 0)
  {
  }

  /** An unaligned offset within the device lies in a whole block of it. */
  lemma HeadBlock(offset: nat, sector: nat, bs: nat, size: nat)
    requires bs > 0 && size % bs == 0 && sector == offset / bs && offset % bs != 0 && offset <= size
    ensures sector * bs + bs <= size
  {
    StartBlock(offset, bs);
    LastBlock(sector * bs, offset % bs, sector, bs, size);
  }

  /** Behind the head (or at an aligned start) the transfer is at a block boundary, unless nothing remains. */
  lemma AfterHead(offset: nat, length: nat, pos: nat, sector: nat, bs: nat)
    requires bs > 0 && pos < length
    requires if offset % bs == 0 then pos == 0 && sector == offset / bs
             else pos == Min(bs - offset % bs, length) && sector == offset / bs + 1
    ensures offset + pos == sector * bs
  {
    StartBlock(offset, bs);
    Blocks(offset / bs, 1, bs);
  }

  // ---------- writing ----------

  /** The device after the first `k` bytes of `src` from `pos` have landed at `at`. */
  ghost predicate Stored(now: seq<byte>, was: seq<byte>, at: nat, src: seq<byte>, pos: nat, k: nat) {
    && |now| == |was| && pos + k <= |src|
    && if k == 0 then now == was else at + k <= |was| && now == Overlaid(was, at, src[pos..pos + k])
  }

  lemma StoredTwice(now: seq<byte>, mid: seq<byte>, was: seq<byte>, at: nat, src: seq<byte>, pos: nat, a: nat, b: nat)
    requires Stored(mid, was, at, src, pos, a) && Stored(now, mid, at + a, src, pos + a, b)
    ensures Stored(now, was, at, src, pos, a + b)
  {
    if a > 0 && b > 0 {
      OverlaidTwice(was, at, src[pos..pos + a], src[pos + a..pos + a + b]);
      assert src[pos..pos + a] + src[pos + a..pos + a + b] == src[pos..pos + a + b];
    }
  }

  lemma StoredIs(was: seq<byte>, at: nat, src: seq<byte>, pos: nat, k: nat)
    requires at + k <= |was| && pos + k <= |src|
    ensures Stored(Overlaid(was, at, src[pos..pos + k]), was, at, src, pos, k)
  {
    OverlaidNothing(was, at);
  }

  lemma NothingStored(was: seq<byte>, at: nat, src: seq<byte>, pos: nat)
    requires pos <= |src|
    ensures Stored(was, was, at, src, pos, 0)
  {
  }

  /** As Stored, but for the `len` bytes from `lo`, of which nothing is known. */
  ghost predicate Torn(now: seq<byte>, was: seq<byte>, at: nat, src: seq<byte>, pos: nat, k: nat, lo: nat, len: nat) {
    && |now| == |was| && pos + k <= |src|
    && forall i | 0 <= i < |was| && !(lo <= i < lo + len) :: now[i] == if at <= i < at + k then src[pos + (i - at)]
      else was[i]
  }

  lemma StoredTorn(now: seq<byte>, was: seq<byte>, at: nat, src: seq<byte>, pos: nat, k: nat, lo: nat)
    requires Stored(now, was, at, src, pos, k)
    ensures Torn(now, was, at, src, pos, k, lo, 0)
  {
  }

  /** A prefix is stored, then a call fails. */
  lemma TornAfter(now: seq<byte>, mid: seq<byte>, was: seq<byte>, at: nat, src: seq<byte>, pos: nat, a: nat, lo: nat,
      len: nat)
    requires Stored(mid, was, at, src, pos, a) && Spoiled(now, mid, lo, len)
    ensures Torn(now, was, at, src, pos, a, lo, len)
  {
    StoredTorn(mid, was, at, src, pos, a, lo);
  }

  lemma TornLater(now: seq<byte>, mid: seq<byte>, was: seq<byte>, at: nat, src: seq<byte>, pos: nat, a: nat, b: nat,
      lo: nat, len: nat)
    requires Stored(mid, was, at, src, pos, a) && Torn(now, mid, at + a, src, pos + a, b, lo, len)
    ensures Torn(now, was, at, src, pos, a + b, lo, len)
  {
    StoredTorn(mid, was, at, src, pos, a, lo);
  }

  /** Reading a block, patching it and writing it back patches the device. */
  lemma Patched(data: seq<byte>, at: nat, bs: nat, off: nat, bytes: seq<byte>)
    requires at + bs <= |data| && off + |bytes| <= bs
    ensures Overlaid(data, at, Overlaid(data[at..at + bs], off, bytes)) == Overlaid(data, at + off, bytes)
  {
    var block := data[at..at + bs];
    var l, r := Overlaid(data, at, Overlaid(block, off, bytes)), Overlaid(data, at + off, bytes);
    forall i | 0 <= i < |data|
      ensures l[i] == r[i]
    {
      OverlaidAt(data, at, Overlaid(block, off, bytes), i);
      OverlaidAt(data, at + off, bytes, i);
      if at <= i < at + bs { OverlaidAt(block, off, bytes, i - at); }
    }
  }

  /** Read-modify-write of part of one block: the head and the tail. */
  method WritePart(dev: Device, src: seq<byte>, pos: nat, sector: nat, off: nat, len: nat, ghost at: nat)
      returns (ok: bool)
    requires dev.Valid() && dev.hasWrite && off + len <= dev.bs && pos + len <= |src| && at == sector * dev.bs
    modifies dev`clock, dev`calls, dev`data
    ensures dev.Valid() && Spoiled(dev.data, old(dev.data), at, dev.bs) &&
            (ok ==> Stored(dev.data, old(dev.data), at + off, src, pos, len))
    ensures dev.reliable && dev.hasRead && at + dev.bs <= |dev.data| ==> ok
    ensures |dev.data| == old(|dev.data|) && (ok ==> at + dev.bs <= |dev.data|)
    ensures ok ==> dev.calls == old(dev.calls) + [1, 1]
  {
    hide Overlaid, Stored;
    ok := false;
    if !dev.hasRead { return; }
    var noFrames := dev.Fault();
    if noFrames { return; }
    var bounce := new byte[dev.bs](_ => 0);
    ghost var blank := bounce[..];
    Blocks(sector, 1, dev.bs);
    var k := dev.ReadBlocks(bounce, 0, 1, sector);
    if k != 1 { return; }
    WholeOverlaid(blank, dev.data[at..at + dev.bs]);
    var noCopy := dev.Fault();
    if noCopy { return; }
    CopyIn(bounce, off, src[pos..pos + len]);
    k := dev.WriteBlocks(bounce[..], 1, sector);
    Patched(old(dev.data), at, dev.bs, off, src[pos..pos + len]);
    StoredIs(old(dev.data), at + off, src, pos, len);
    ok := k == 1;
  }

  /** One device call of at most max_sec blocks. */
  method WriteRound(dev: Device, src: seq<byte>, pos: nat, n: nat, sector: nat, direct: bool, ghost at: nat,
      ghost len: nat) returns (ok: bool)
    requires dev.Valid() && dev.hasWrite && dev.Allows(n) && at == sector * dev.bs && len == n * dev.bs &&
             pos + len <= |src|
    modifies dev`clock, dev`calls, dev`data
    ensures dev.Valid() && |dev.data| == old(|dev.data|)
    ensures Spoiled(dev.data, old(dev.data), at, len) &&
            (ok ==> at + len <= |dev.data| && Stored(dev.data, old(dev.data), at, src, pos, len))
    ensures dev.reliable && at + len <= |dev.data| ==> ok
    ensures ok ==> dev.calls == old(dev.calls) + [n]
  {
    hide Overlaid, Stored;
    Blocks(sector, n, dev.bs);
    ok := false;
    if !direct {
      var noCopy := dev.Fault();
      if noCopy { return; }
    }
    var k := dev.WriteBlocks(src[pos..pos + n * dev.bs], n, sector);
    ok := k == n;
    if ok { StoredIs(old(dev.data), at, src, pos, len); }
  }

  /**
   * The middle loop; `got` bytes landed, all of them on success; a failed call spoils at most `bad` bytes behind them.
   */
  method WriteRun(dev: Device, src: seq<byte>, pos: nat, sector: nat, secs: nat, direct: bool, ghost at: nat,
      ghost whole: nat)
    returns (ok: bool, got: nat, ghost bad: nat)
    requires dev.Valid() && dev.hasWrite && at == sector * dev.bs && whole == secs * dev.bs && pos + whole <= |src|
    modifies dev`clock, dev`calls, dev`data
    ensures dev.Valid() && |dev.data| == old(|dev.data|) && got <= whole && bad <= dev.MaxSec() * dev.bs &&
            OnBlock(at + got, dev.bs)
    ensures Torn(dev.data, old(dev.data), at, src, pos, got, at + got, bad)
    ensures ok ==> got == whole && Stored(dev.data, old(dev.data), at, src, pos, got)
    ensures dev.reliable && at + whole <= |dev.data| ==> ok
    ensures dev.MaxSec() > 0 && (ok ==> dev.calls == old(dev.calls) + Rounds(secs, dev.MaxSec()))
  {
    hide Overlaid, Stored, Torn, Rounds, AtRound, OnBlock;
    ghost var calls := dev.calls;
    dev.MaxSecPositive();
    NoRounds(dev.MaxSec());
    ghost var was := dev.data;
    NothingStored(was, at, src, pos);
    StoredTorn(was, was, at, src, pos, 0, at);
    Aligned(sector, 0, dev.bs);
    ok, got, bad := true, 0, 0;
    if !direct {
      var noFrames := dev.Fault();
      if noFrames { return false, 0, 0; }
    }
    var done := 0;
    while done < secs && ok
      invariant 0 <= done <= secs && got == done * dev.bs && got <= whole && bad <= dev.MaxSec() * dev.bs &&
                OnBlock(at + got, dev.bs)
      invariant dev.Valid() && |dev.data| == |was| && Torn(dev.data, was, at, src, pos, got, at + got, bad)
      invariant ok ==> Stored(dev.data, was, at, src, pos, got)
      invariant ok ==> dev.calls == calls + Rounds(done, dev.MaxSec()) && AtRound(done, secs, dev.MaxSec())
      invariant dev.reliable && at + whole <= |was| ==> ok
      decreases ok, secs - done
    {
      var n := Min(secs - done, dev.MaxSec());
      var len := n * dev.bs;
      Arithmetic(sector, done, n, secs, dev.bs);
      Aligned(sector, done + n, dev.bs);
      BlocksMono(n, dev.MaxSec(), dev.bs);
      RoundsMore(done, secs, dev.MaxSec());
      dev.MaxSecAllowed(n);
      ghost var mid := dev.data;
      ok := WriteRound(dev, src, pos + got, n, sector + done, direct, at + got, len);
      if ok {
        StoredTwice(dev.data, mid, was, at, src, pos, got, len);
        done, got := done + n, got + len;
        StoredTorn(dev.data, was, at, src, pos, got, at + got);
        bad := 0;
      } else {
        TornAfter(dev.data, mid, was, at, src, pos, got, at + got, len);
        bad := len;
      }
    }
  }

  predicate OnBlock(at: nat, bs: nat)
    requires bs > 0
  {
    at % bs == 0
  }

  lemma Aligned(sector: nat, n: nat, bs: nat)
    requires bs > 0
    ensures OnBlock(sector * bs + n * bs, bs)
  {
    Blocks(sector, n, bs);
    RemainderIs((sector + n) * bs, bs, sector + n, 0);
  }

  method WriteRest(dev: Device, src: seq<byte>, pos: nat, sector: nat, remaining: nat, direct: bool, ghost at: nat)
    returns (ok: bool, ghost k: nat, ghost bad: nat)
    requires dev.Valid() && dev.hasWrite && at == sector * dev.bs && pos + remaining <= |src|
    modifies dev`clock, dev`calls, dev`data
    ensures dev.Valid() && |dev.data| == old(|dev.data|) && k <= remaining && bad <= dev.MaxSec() * dev.bs
    ensures ok ==> k == remaining && Stored(dev.data, old(dev.data), at, src, pos, k)
    ensures !ok ==> OnBlock(at + k, dev.bs) && Torn(dev.data, old(dev.data), at, src, pos, k, at + k, bad)
    ensures dev.reliable && dev.hasRead && at + remaining <= |dev.data| ==> ok
    ensures dev.MaxSec() > 0
    ensures ok ==> dev.calls == old(dev.calls) + PlanRest(remaining, dev.bs, dev.MaxSec(), [1, 1])
  {
    hide Overlaid, Stored, Torn, Rounds, PlanRest, OnBlock;
    dev.MaxSecPositive();
    NoRounds(dev.MaxSec());
    ghost var was := dev.data;
    var mid, whole, tail := Split(remaining, dev.bs);
    RestIs(remaining, dev.bs, dev.MaxSec(), [1, 1], mid, tail);
    NothingStored(was, at, src, pos);
    BlocksMono(1, dev.MaxSec(), dev.bs);
    ok, k, bad := true, 0, 0;
    if mid > 0 {
      var got;
      ok, got, bad := WriteRun(dev, src, pos, sector, mid, direct, at, whole);
      k := got;
    }
    if ok && tail > 0 {
      Blocks(sector, mid, dev.bs);
      Aligned(sector, mid, dev.bs);
      if at + remaining <= |was| { LastBlock(at + whole, tail, sector + mid, dev.bs, |was|); }
      ghost var between := dev.data;
      ok := WritePart(dev, src, pos + whole, sector + mid, 0, tail, at + whole);
      if ok {
        StoredTwice(dev.data, between, was, at, src, pos, whole, tail);
        k := remaining;
      } else {
        TornAfter(dev.data, between, was, at, src, pos, whole, at + whole, dev.bs);
        bad := dev.bs;
      }
    }
  }

  /** Start of the block that byte `at` is in. */
  function BlockStart(at: nat, bs: nat): nat
    requires bs > 0
  {
    at - at % bs
  }

  /**
   * blk_device_write on a block device: success stores exactly `src` at `offset`. A failed call stored a prefix of it;
   * only the blocks of the one device call that failed, from the block of the next byte on, are unspecified, and
   * nothing else changed.
   */
  method Write(dev: Device, src: seq<byte>, offset: nat, user: bool, dma: nat -> bool)
      returns (r: int, ghost k: nat, ghost bad: nat)
    requires dev.Valid()
    modifies dev`clock, dev`calls, dev`data
    ensures dev.Valid() && |dev.data| == old(|dev.data|)
    ensures (r == |src| && k == |src|) || (r == -1 && k <= |src|)
    ensures r != -1 ==> Stored(dev.data, old(dev.data), offset, src, 0, |src|)
    ensures r == -1 ==>
            bad <= dev.MaxSec() * dev.bs &&
            Torn(dev.data, old(dev.data), offset, src, 0, k, BlockStart(offset + k, dev.bs), bad)
    ensures dev.reliable && dev.hasRead && dev.hasWrite && offset + |src| <= |dev.data| ==> r == |src|
    ensures dev.MaxSec() > 0
    ensures r == |src| ==> dev.calls == old(dev.calls) + Plan(offset, |src|, dev.bs, dev.MaxSec(), [1, 1])
  {
    hide Overlaid, Stored, Torn, Plan, PlanRest;
    dev.MaxSecPositive();
    PlanIs(offset, |src|, dev.bs, dev.MaxSec(), [1, 1]);
    ghost var calls := dev.calls;
    NoRest(dev.bs, dev.MaxSec(), [1, 1]);
    r, k, bad := -1, 0, 0;
    ghost var was := dev.data;
    NothingStored(was, offset, src, 0);
    StoredTorn(was, was, offset, src, 0, 0, BlockStart(offset, dev.bs));
    BlocksMono(1, dev.MaxSec(), dev.bs);
    if !dev.hasWrite { return; }
    var bs := dev.bs;
    StartBlock(offset, bs);
    var sector, blockOff, remaining, pos := offset / bs, offset % bs, |src|, 0;
    if blockOff != 0 {
      var head := Min(bs - blockOff, remaining);
      if offset + |src| <= |was| { HeadBlock(offset, sector, bs, |was|); }
      var ok := WritePart(dev, src, 0, sector, blockOff, head, offset - blockOff);
      if !ok {
        TornAfter(dev.data, was, was, offset, src, 0, 0, offset - blockOff, bs);
        bad := bs;
        return;
      }
      remaining, pos, sector, k := remaining - head, head, sector + 1, head;
    }
    ghost var between := dev.data;
    var ok := true;
    if remaining > 0 {
      AfterHead(offset, |src|, pos, sector, bs);
      ghost var more;
      ok, more, bad := WriteRest(dev, src, pos, sector, remaining, !user && dma(pos), offset + pos);
      if ok {
        StoredTwice(dev.data, between, was, offset, src, 0, pos, more);
      } else {
        TornLater(dev.data, between, was, offset, src, 0, pos, more, offset + pos + more, bad);
      }
      k := pos + more;
    }
    Joined(calls, [1, 1], PlanRest(remaining, bs, dev.MaxSec(), [1, 1]));
    if ok { r := |src|; }
  }

  /** What a write stored, a read of the same range gives back. */
  lemma ReadBack(now: seq<byte>, was: seq<byte>, offset: nat, src: seq<byte>, dst: seq<byte>, dst': seq<byte>)
    requires Stored(now, was, offset, src, 0, |src|) && Landed(dst', dst, 0, now, offset, |src|) && |src| <= |dst|
    ensures |src| <= |dst'| && dst'[..|src|] == src
  {
    if src != [] {
      assert src[0..0 + |src|] == src;
      assert now[offset..offset + |src|] == src;
    }
  }
}
