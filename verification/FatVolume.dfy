/** The mounted volume: a one-sector write-back window over the disk, with the first FAT mirrored on flush. */
module FatVolume {
  import opened Bytes
  import opened FatTable

  datatype Fresult = OK | DISK_ERR | INT_ERR

  /** LBA that marks the window as holding nothing. */
  const NO_SECTOR: u32 := 0xFFFF_FFFF

  /** What get_fat and create_chain return after a disk error. */
  const DISK_FAULT: u32 := 0xFFFF_FFFF

  /** Unsigned 32-bit subtraction. */
  function Sub32(a: u32, b: u32): u32 { (a - b) % 0x1_0000_0000 }

  /** What mount_volume leaves in FATFS about the layout; constant while the volume is mounted. */
  datatype Geometry = Geometry(
    kind: Kind, nFats: nat, nFatent: nat, csize: nat, fsize: nat,
    fatbase: nat, database: nat, bitbase: nat, sectors: nat)
  {
    ghost predicate Ok() {
      && (nFats == 1 || nFats == 2)
      && 3 <= nFatent <= MaxClusters(kind) + 2
      && 0 < csize <= 0x8000
      && 0 < fatbase && 0 < fsize
      && FatEnd() <= database <= sectors < 0xFFFF_FFFF
      && EntryOffset(kind, nFatent - 1) + EntrySize(kind) <= 512 * fsize
    }

    function FatEnd(): nat { if nFats == 2 then fatbase + 2 * fsize else fatbase + fsize }

    predicate InFat(s: nat) { fatbase <= s < fatbase + fsize }

    predicate InMirror(s: nat) { nFats == 2 && fatbase + fsize <= s < fatbase + 2 * fsize }
  }

  /** The disk with the window laid over it: what a reader of the volume sees. */
  function Overlay(disk: seq<Sector>, winsect: nat, win: Sector): (v: seq<Sector>)
    ensures |v| == |disk|
  {
    if winsect < |disk| then disk[winsect := win] else disk
  }

  /** Equal on every sector outside the second FAT. */
  ghost predicate SameButMirror(g: Geometry, v: seq<Sector>, w: seq<Sector>) {
    |v| == |w| && forall s | 0 <= s < |v| && !g.InMirror(s) :: v[s] == w[s]
  }

  /** Equal on every sector outside both FATs. */
  ghost predicate SameButFats(g: Geometry, v: seq<Sector>, w: seq<Sector>) {
    |v| == |w| && forall s | 0 <= s < |v| && !g.InFat(s) && !g.InMirror(s) :: v[s] == w[s]
  }

  /** First-FAT sectors agree with their copy, save those in `skip`. */
  ghost predicate Mirrored(g: Geometry, disk: seq<Sector>, skip: set<int>)
    requires g.Ok() && |disk| == g.sectors
  {
    g.nFats == 2 ==> forall s: nat | g.InFat(s) && s !in skip :: disk[s] == disk[s + g.fsize]
  }

  // ---------- the history of mirror writes ----------

  /** One attempt to copy a first-FAT sector to the second FAT. */
  datatype MirrorWrite = MirrorWrite(sector: int, ok: bool)

  /** First-FAT sectors that differed from their copy when the volume was mounted, and every attempt since. */
  datatype Trail = Trail(initial: set<int>, writes: seq<MirrorWrite>)

  /** Sectors whose copy cannot be trusted. */
  ghost function Lost(t: Trail): set<int>
    decreases |t.writes|
  {
    if t.writes == [] then t.initial
    else
      var w, before := t.writes[|t.writes| - 1], Lost(t.(writes := t.writes[..|t.writes| - 1]));
      if w.ok then before - {w.sector} else before + {w.sector}
  }

  function Noted(t: Trail, s: int, ok: bool): Trail { t.(writes := t.writes + [MirrorWrite(s, ok)]) }

  lemma LostNoted(t: Trail, s: int, ok: bool)
    ensures Lost(Noted(t, s, ok)) == if ok then Lost(t) - {s} else Lost(t) + {s}
  {
    assert Noted(t, s, ok).writes[..|t.writes|] == t.writes;
  }

  /** The last attempt to copy `s` failed, or there was none and the copies differed from the start. */
  ghost predicate LastFailed(t: Trail, s: int) {
    || (exists k | 0 <= k < |t.writes| :: t.writes[k] == MirrorWrite(s, false) && forall j | k < j < |t.writes| ::
      t.writes[j].sector != s)
    || (s in t.initial && forall k | 0 <= k < |t.writes| :: t.writes[k].sector != s)
  }

  lemma {:induction false} LostIsLastFailed(t: Trail, s: int)
    ensures s in Lost(t) <==> LastFailed(t, s)
    decreases |t.writes|
  {
    if t.writes != [] {
      var n := |t.writes| - 1;
      var before := t.(writes := t.writes[..n]);
      LostIsLastFailed(before, s);
      if t.writes[n].sector != s {
        LastFailedEarlier(t, s);
      } else if !t.writes[n].ok {
        assert t.writes[n] == MirrorWrite(s, false);
      }
    }
  }

  /** An attempt on another sector does not matter. */
  lemma LastFailedEarlier(t: Trail, s: int)
    requires t.writes != [] && t.writes[|t.writes| - 1].sector != s
    ensures LastFailed(t, s) <==> LastFailed(t.(writes := t.writes[..|t.writes| - 1]), s)
  {
    var n := |t.writes| - 1;
    var w := t.writes[..n];
    assert forall k | 0 <= k < n :: w[k] == t.writes[k];
    if LastFailed(t.(writes := w), s) && !(s in t.initial && forall k | 0 <= k < n :: w[k].sector != s) {
      var k :| 0 <= k < n && w[k] == MirrorWrite(s, false) && forall j | k < j < n :: w[j].sector != s;
      assert t.writes[k] == MirrorWrite(s, false) && forall j | k < j < |t.writes| :: t.writes[j].sector != s;
    }
  }

  /** Attempts are only added; on a device without faults they all succeed. */
  ghost predicate Extends(t: Trail, t': Trail, reliable: bool) {
    && t'.initial == t.initial && t.writes <= t'.writes
    && (reliable ==> forall k | |t.writes| <= k < |t'.writes| :: t'.writes[k].ok)
  }

  /** Without faults nothing more is lost. */
  lemma {:induction false} ExtendsShrinks(t: Trail, t': Trail)
    requires Extends(t, t', true)
    ensures Lost(t') <= Lost(t)
    decreases |t'.writes|
  {
    if |t'.writes| > |t.writes| {
      var b := t'.(writes := t'.writes[..|t'.writes| - 1]);
      assert forall k | |t.writes| <= k < |b.writes| :: b.writes[k] == t'.writes[k];
      ExtendsShrinks(t, b);
    } else {
      assert t' == t;
    }
  }

  /** Changing a sector outside both FATs, or a skipped one, keeps the copies equal. */
  lemma MirrorKept(g: Geometry, d: seq<Sector>, e: seq<Sector>, skip: set<int>, w: nat)
    requires g.Ok() && |d| == |e| == g.sectors && Mirrored(g, d, skip) && !g.InMirror(w)
    requires forall t | 0 <= t < |d| && t != w :: d[t] == e[t]
    ensures Mirrored(g, e, skip + {w})
    ensures !g.InFat(w) ==> Mirrored(g, e, skip)
  {
  }

  /** A sector that has no copy need not be skipped. */
  lemma MirrorSkipped(g: Geometry, d: seq<Sector>, skip: set<int>, less: set<int>, w: nat)
    requires g.Ok() && |d| == g.sectors && Mirrored(g, d, skip) && skip <= less + {w}
    ensures !g.InFat(w) || g.nFats != 2 ==> Mirrored(g, d, less)
  {
  }

  /** Writing the copy of first-FAT sector `w` repairs it and disturbs nothing else. */
  lemma MirrorCopied(g: Geometry, d: seq<Sector>, e: seq<Sector>, skip: set<int>, w: nat)
    requires g.Ok() && |d| == |e| == g.sectors && Mirrored(g, d, skip) && g.nFats == 2 && g.InFat(w)
    requires forall t | 0 <= t < |d| && t != w + g.fsize :: d[t] == e[t]
    ensures Mirrored(g, e, skip + {w})
    ensures e[w + g.fsize] == d[w] ==> Mirrored(g, e, skip - {w})
  {
  }

  /** The first FAT of a view, as one byte string. */
  ghost function FatBytes(g: Geometry, v: seq<Sector>): (b: seq<byte>)
    requires g.Ok() && |v| == g.sectors
    ensures |b| == 512 * g.fsize
  {
    Flat(v[g.fatbase..g.fatbase + g.fsize])
  }

  lemma TableFits(g: Geometry, b: seq<byte>)
    requires g.Ok() && |b| == 512 * g.fsize
    ensures FitsAll(g.kind, b, g.nFatent)
  {
    forall c | 0 <= c < g.nFatent ensures Fits(g.kind, b, c) {
      FitsMonotone(g.kind, b, c, g.nFatent - 1);
    }
  }

  /** The allocation table a view shows. */
  ghost function FatOf(g: Geometry, v: seq<Sector>): (t: seq<nat>)
    requires g.Ok() && |v| == g.sectors
    ensures |t| == g.nFatent
  {
    TableFits(g, FatBytes(g, v));
    Table(g.kind, FatBytes(g, v), g.nFatent)
  }

  lemma FatBytesSame(g: Geometry, v: seq<Sector>, w: seq<Sector>)
    requires g.Ok() && |v| == |w| == g.sectors
    requires forall s: nat | g.InFat(s) :: v[s] == w[s]
    ensures FatBytes(g, v) == FatBytes(g, w)
  {
    assert v[g.fatbase..g.fatbase + g.fsize] == w[g.fatbase..g.fatbase + g.fsize];
  }

  /** Views equal on the first FAT show the same table. */
  lemma FatOfSame(g: Geometry, v: seq<Sector>, w: seq<Sector>)
    requires g.Ok() && |v| == |w| == g.sectors
    requires forall s: nat | g.InFat(s) :: v[s] == w[s]
    ensures FatOf(g, v) == FatOf(g, w)
  {
    FatBytesSame(g, v, w);
  }

  /** Storing one byte in a first-FAT sector stores it at the matching place of the byte string. */
  lemma FatBytesPoke(g: Geometry, v: seq<Sector>, k: nat, b: byte)
    requires g.Ok() && |v| == g.sectors && k < 512 * g.fsize
    ensures g.fatbase + k / 512 < |v| && 0 <= k % 512 < 512
    ensures var s := g.fatbase + k / 512;
            FatBytes(g, v[s := v[s][k % 512 := b]]) == FatBytes(g, v)[k := b]
  {
    var s := g.fatbase + k / 512;
    assert k / 512 < g.fsize;
    var w := v[s := v[s][k % 512 := b]];
    var f := v[g.fatbase..g.fatbase + g.fsize];
    FlatPoke(f, k, b);
    assert w[g.fatbase..g.fatbase + g.fsize] == f[k / 512 := f[k / 512][k % 512 := b]];
  }

  /** First-FAT sector `s` is not what its copy is. */
  ghost predicate Differs(g: Geometry, disk: seq<Sector>, s: int)
    requires g.Ok() && |disk| == g.sectors
  {
    g.fatbase <= s < g.fatbase + g.fsize && g.nFats == 2 && disk[s] != disk[s + g.fsize]
  }

  /** The sector in the window went to the first FAT of a volume with two: the second gets it too. */
  predicate Reflects(g: Geometry, winsect: nat, dirty: bool, res: Fresult) {
    dirty && res == OK && g.nFats == 2 && g.InFat(winsect)
  }

  /**
   * What sync_window may do to the disk `d`, the result being `res`; `copied` tells whether the mirror write, if any,
   * succeeded.
   */
  ghost predicate SyncStep(g: Geometry, d: seq<Sector>, winsect: nat, win: Sector, dirty: bool, d': seq<Sector>,
      dirty': bool, res: Fresult, copied: bool)
    requires dirty ==> winsect < |d|
  {
    && |d'| == |d| && dirty' == (res != OK) && (!dirty ==> res == OK && d' == d) && (res == OK || res == DISK_ERR)
    && (res != OK ==> forall s | 0 <= s < |d| && s != winsect :: d'[s] == d[s])
    && (dirty && res == OK ==>
          var flushed := d[winsect := win];
          if !Reflects(g, winsect, dirty, res) then d' == flushed
          else if copied then winsect + g.fsize < |d| && d' == flushed[winsect + g.fsize := win]
          else forall s | 0 <= s < |d| && s != winsect + g.fsize :: d'[s] == flushed[s])
  }

  /**
   * After a flush to the first FAT that reports OK, the copies are sure to be equal if and only if the ignored mirror
   * write succeeded.
   */
  lemma MirrorSure(g: Geometry, d: seq<Sector>, winsect: nat, win: Sector, copied: bool)
    requires g.Ok() && |d| == g.sectors && g.nFats == 2 && g.InFat(winsect)
    ensures copied <==> forall d' | SyncStep(g, d, winsect, win, true, d', false, OK, copied) ::
            !Differs(g, d', winsect)
  {
    if !copied {
      var junk: Sector := win[0 := if win[0] == 0 then 1 else 0];
      var d' := d[winsect := win][winsect + g.fsize := junk];
      assert junk[0] != win[0];
      assert SyncStep(g, d, winsect, win, true, d', false, OK, copied) && Differs(g, d', winsect);
    }
  }

  /** A one-sector FAT and its copy: sync_window answers OK and leaves them different. */
  lemma MirrorWitness()
    ensures var g := Geometry(FAT12, 2, 3, 1, 1, 1, 3, 0, 4);
            && g.Ok() && exists d: seq<Sector>, d': seq<Sector>, win: Sector ::
                 |d| == g.sectors && !Differs(g, d, 1) && SyncStep(g, d, 1, win, true, d', false, OK, false) &&
                   Differs(g, d', 1)
  {
    var g := Geometry(FAT12, 2, 3, 1, 1, 1, 3, 0, 4);
    var zero: Sector := seq(512, _ => 0);
    var one: Sector := seq(512, _ => 1);
    var d, d' := [zero, zero, zero, zero], [zero, one, zero, zero];
    assert one[0] != zero[0];
    assert |d| == g.sectors && !Differs(g, d, 1) && SyncStep(g, d, 1, one, true, d', false, OK, false) &&
      Differs(g, d', 1);
  }

  class Volume {
    const g: Geometry
    /** True of a device whose transfers never fail. */
    const reliable: bool
    const win: array<byte>
    var disk: seq<Sector>
    var winsect: u32
    var wflag: bool
    var freeClst: u32
    var lastClst: u32
    /** What is known about the second FAT. */
    ghost var mirror: Trail

    ghost predicate Valid()
      reads `disk, `winsect, `wflag, `mirror, win
    {
      && g.Ok() && |disk| == g.sectors
      && win.Length == 512
      && (wflag ==> winsect < |disk| && !g.InMirror(winsect))
      && (!wflag && winsect < |disk| ==> win[..] == disk[winsect])
      && Mirrored(g, disk, Stale())
    }

    /** First-FAT sectors that may differ from their copy: the lost ones and the dirty one. */
    ghost function Stale(): set<int>
      reads `winsect, `wflag, `mirror
    {
      if wflag then Lost(mirror) + {winsect} else Lost(mirror)
    }

    ghost function View(): (v: seq<Sector>)
      requires Valid()
      reads `disk, `winsect, `wflag, `mirror, win
      ensures |v| == g.sectors
    {
      Overlay(disk, winsect, win[..])
    }

    ghost function Fat(): (t: seq<nat>)
      requires Valid()
      reads `disk, `winsect, `wflag, `mirror, win
      ensures |t| == g.nFatent
    {
      FatOf(g, View())
    }

    constructor (geometry: Geometry, medium: seq<Sector>, faultless: bool)
      requires geometry.Ok() && |medium| == geometry.sectors
      ensures Valid() && fresh(win)
      ensures g == geometry && reliable == faultless && View() == medium
      ensures winsect == NO_SECTOR && freeClst == 0xFFFF_FFFF && lastClst == 0xFFFF_FFFF && !wflag
      ensures mirror.writes == [] && forall s: int :: s in mirror.initial <==> g.nFats == 2 && Differs(g, medium, s)
    {
      g := geometry;
      reliable := faultless;
      disk := medium;
      win := new byte[512](_ => 0);
      winsect := NO_SECTOR;
      wflag := false;
      freeClst := 0xFFFF_FFFF;
      lastClst := 0xFFFF_FFFF;
      mirror := Trail(set s: int | 0 <= s < geometry.sectors && geometry.nFats == 2 && Differs(geometry, medium, s),
        []);
    }

    /** disk_write of one sector. A failed transfer leaves that sector with unspecified contents. */
    method DiskWrite(s: nat, data: Sector) returns (ok: bool)
      requires |disk| == g.sectors
      modifies this`disk
      ensures |disk| == g.sectors
      ensures ok ==> s < |disk| && disk == old(disk)[s := data]
      ensures |disk| == |old(disk)| && forall t | 0 <= t < |disk| && t != s :: disk[t] == old(disk)[t]
      ensures reliable && s < |disk| ==> ok
    {
      if s >= |disk| { return false; }
      var fault: bool := *;
      if fault && !reliable {
        var junk: Sector := *;
        disk := disk[s := junk];
        return false;
      }
      disk := disk[s := data];
      return true;
    }

    /** disk_read of one sector into the window. A failed transfer leaves the buffer unspecified. */
    method DiskReadWindow(s: nat) returns (ok: bool)
      requires |disk| == g.sectors && win.Length == 512
      modifies win
      ensures ok ==> s < |disk| && win[..] == disk[s]
      ensures reliable && s < |disk| ==> ok
    {
      if s >= |disk| { return false; }
      var fault: bool := *;
      if fault && !reliable {
        forall i | 0 <= i < 512 { win[i] := 0xA5; }
        return false;
      }
      var data := disk[s];
      forall i | 0 <= i < 512 { win[i] := data[i]; }
      assert win[..] == data;
      return true;
    }

    /** Reflects a flushed first-FAT sector to the second FAT; sync_window ignores whether the write succeeded. */
    method CopyToMirror() returns (ghost copied: bool)
      requires g.Ok() && |disk| == g.sectors && win.Length == 512 && g.nFats == 2 && g.InFat(winsect)
      requires !wflag && win[..] == disk[winsect] && Mirrored(g, disk, Lost(mirror) + {winsect})
      modifies this`disk, this`mirror
      ensures Valid() && View() == disk && SameButMirror(g, old(disk), disk)
      ensures mirror == Noted(old(mirror), winsect, copied) && (winsect in Lost(mirror) <==> !copied)
      ensures reliable ==> copied
      ensures copied ==> disk == old(disk)[winsect + g.fsize := win[..]]
      ensures forall s | 0 <= s < |disk| && s != winsect + g.fsize :: disk[s] == old(disk)[s]
    {
      hide Lost;
      ghost var d := disk;
      var ok := DiskWrite(winsect + g.fsize, win[..]);
      copied := ok;
      MirrorCopied(g, d, disk, Lost(mirror) + {winsect}, winsect);
      assert Lost(mirror) + {winsect} + {winsect} == Lost(mirror) + {winsect};
      assert Lost(mirror) + {winsect} - {winsect} == Lost(mirror) - {winsect};
      LostNoted(mirror, winsect, ok);
      mirror := Noted(mirror, winsect, ok);
    }

    method SyncWindow() returns (res: Fresult, ghost copied: bool)
      requires Valid()
      modifies this`disk, this`wflag, this`mirror
      ensures Valid() && SameButMirror(g, old(View()), View())
      ensures res == OK || res == DISK_ERR
      ensures res == OK ==> !wflag
      ensures res == DISK_ERR ==> wflag
      ensures mirror == if Reflects(g, winsect, old(wflag), res) then Noted(old(mirror), winsect, copied)
              else old(mirror)
      ensures SyncStep(g, old(disk), winsect, win[..], old(wflag), disk, wflag, res, copied)
      ensures reliable ==> res == OK && copied
    {
      hide Mirrored, Lost;
      res, copied := OK, true;
      if wflag {
        ghost var d := disk;
        var ok := DiskWrite(winsect, win[..]);
        MirrorKept(g, d, disk, Stale(), winsect);
        ghost var skip := Stale();
        assert skip + {winsect} == skip;
        if ok {
          assert disk == Overlay(d, winsect, win[..]);
          wflag := false;
          MirrorSkipped(g, disk, skip, Stale(), winsect);
          if Sub32(winsect, g.fatbase) < g.fsize {
            assert g.InFat(winsect);
            if g.nFats == 2 {
              copied := CopyToMirror();
            }
          }
        } else {
          res := DISK_ERR;
        }
      }
    }

    method MoveWindow(sect: u32) returns (res: Fresult)
      requires Valid()
      modifies this`disk, this`wflag, this`mirror, this`winsect, win
      ensures Valid() && SameButMirror(g, old(View()), View())
      ensures res == OK || res == DISK_ERR
      ensures res == OK ==> winsect == sect && (sect != old(winsect) ==> sect < |disk|)
      ensures res != OK ==> winsect == old(winsect) || winsect == NO_SECTOR
      ensures reliable && sect < |disk| ==> res == OK
      ensures Extends(old(mirror), mirror, reliable) && |mirror.writes| <= |old(mirror).writes| + 1
      ensures mirror != old(mirror) ==>
              sect != old(winsect) && old(wflag && g.InFat(winsect)) && mirror.writes[|old(mirror).writes|].sector ==
              old(winsect)
    {
      res := OK;
      if sect != winsect {
        ghost var copied;
        res, copied := SyncWindow();
        if res == OK {
          ghost var v := View();
          assert disk == v;
          var ok := DiskReadWindow(sect);
          if ok {
            winsect := sect;
          } else {
            winsect := NO_SECTOR;
            res := DISK_ERR;
          }
          assert View() == v;
        }
      }
    }

    /** A byte store into the window followed by raising the dirty flag. */
    method Poke(i: nat, b: byte)
      requires Valid() && winsect < |disk| && i < 512 && !g.InMirror(winsect)
      modifies win, this`wflag
      ensures Valid() && wflag
      ensures View() == old(View())[winsect := old(View())[winsect][i := b]]
    {
      win[i] := b;
      wflag := true;
    }

    /** Only the window moved: nothing a reader sees has changed, except copies in the second FAT. */
    twostate predicate Moved()
      requires old(Valid())
      reads `disk, `winsect, `wflag, `mirror, win
    {
      && Valid() && SameButMirror(g, old(View()), View())
      && (winsect == old(winsect) || winsect == NO_SECTOR || g.InFat(winsect))
      && Extends(old(mirror), mirror, reliable)
    }

    /** Only the FATs changed, through the window. */
    twostate predicate FatsTouched()
      requires old(Valid())
      reads `disk, `winsect, `wflag, `mirror, win
    {
      && Valid() && SameButFats(g, old(View()), View())
      && (winsect == old(winsect) || winsect == NO_SECTOR || g.InFat(winsect))
      && Extends(old(mirror), mirror, reliable)
    }

    /** Moves the window to the sector holding byte `k` of the first FAT. */
    method MoveToFatByte(k: nat) returns (res: Fresult)
      requires Valid() && k < 512 * g.fsize
      modifies this`disk, this`wflag, this`mirror, this`winsect, win
      ensures Moved()
      ensures FatBytes(g, View()) == FatBytes(g, old(View()))
      ensures res == OK || res == DISK_ERR
      ensures res == OK ==> OnFatByte(k)
      ensures reliable ==> res == OK
    {
      res := MoveWindow(g.fatbase + k / 512);
      FatBytesSame(g, old(View()), View());
    }

    ghost predicate OnFatByte(k: nat)
      reads `disk, `winsect, `wflag, `mirror, win
    {
      Valid() && k < 512 * g.fsize && winsect == g.fatbase + k / 512
    }

    /** The window is on the other bytes of an aligned entry too. */
    lemma OnRest(o: nat, i: nat)
      requires OnFatByte(o) && ((o % 2 == 0 && i < 2) || (o % 4 == 0 && i < 4)) && o + i < 512 * g.fsize
      ensures Valid() && OnFatByte(o + i) && o + i < |FatBytes(g, View())|
    {
      SameFatSector(o, i);
    }

    lemma WindowShows(k: nat)
      requires OnFatByte(k)
      ensures winsect < |disk| && g.InFat(winsect) && win[k % 512] == FatBytes(g, View())[k]
    {
      FlatAt(View()[g.fatbase..g.fatbase + g.fsize], k);
    }

    /** Stores a byte of the first FAT that the window is already on. */
    method PokeFatByte(k: nat, b: byte)
      requires OnFatByte(k)
      modifies win, this`wflag
      ensures FatsTouched() && OnFatByte(k)
      ensures FatBytes(g, View()) == FatBytes(g, old(View()))[k := b]
    {
      FatBytesPoke(g, View(), k, b);
      WindowShows(k);
      Poke(k % 512, b);
    }

    method GetFat12(clst: u32) returns (val: u32)
      requires Valid() && g.kind.FAT12? && Fits(g.kind, FatBytes(g, View()), clst)
      modifies this`disk, this`wflag, this`mirror, this`winsect, win
      ensures Moved() && FatBytes(g, View()) == FatBytes(g, old(View()))
      ensures val == Entry(g.kind, FatBytes(g, old(View())), clst) || (!reliable && val == DISK_FAULT)
    {
      hide Unpack12, View, Mirrored, Differs;
      var bc := clst + clst / 2;
      var res := MoveToFatByte(bc);
      if res != OK { return DISK_FAULT; }
      var lo := PeekFatByte(bc);
      res := MoveToFatByte(bc + 1);
      if res != OK { return DISK_FAULT; }
      var hi := PeekFatByte(bc + 1);
      val := Unpack12(clst, lo, hi);
    }

    /** A byte of the first FAT that the window is on. */
    method PeekFatByte(k: nat) returns (b: byte)
      requires OnFatByte(k)
      ensures b == FatBytes(g, View())[k]
    {
      WindowShows(k);
      b := win[k % 512];
    }

    method PeekFatWord(o: nat) returns (w: u32)
      requires o % 2 == 0 && OnFatByte(o) && o + 1 < 512 * g.fsize
      ensures w == LdWord(FatBytes(g, View())[o], FatBytes(g, View())[o + 1])
    {
      hide OnFatByte, View, Mirrored;
      OnRest(o, 1);
      var b0 := PeekFatByte(o);
      var b1 := PeekFatByte(o + 1);
      w := LdWord(b0, b1);
    }

    /** ld_dword from the window, at an aligned dword of the first FAT. */
    method PeekFatDword(o: nat) returns (w: u32)
      requires o % 4 == 0 && OnFatByte(o) && o + 3 < 512 * g.fsize
      ensures var b := FatBytes(g, View()); w == LdDword(b[o], b[o + 1], b[o + 2], b[o + 3])
    {
      hide OnFatByte, View, Mirrored, LdWord, LdDword;
      OnRest(o, 2);
      ghost var b := FatBytes(g, View());
      WordsMakeDword(b[o], b[o + 1], b[o + 2], b[o + 3]);
      var lo := PeekFatWord(o);
      var hi := PeekFatWord(o + 2);
      w := lo + 0x1_0000 * hi;
    }

    /** ld_word or ld_dword of the entry the window is on, masked. */
    method PeekEntry(clst: u32) returns (val: u32)
      requires !g.kind.FAT12? && OnFatByte(EntryOffset(g.kind, clst)) && Fits(g.kind, FatBytes(g, View()), clst)
      ensures val == Entry(g.kind, FatBytes(g, View()), clst)
    {
      hide OnFatByte, EntryOffset, Mask, View, Mirrored, LdWord, LdDword;
      EntryAligned(g.kind, clst);
      OnRest(EntryOffset(g.kind, clst), 0);
      var o := EntryOffset(g.kind, clst);
      if g.kind.FAT16? {
        val := PeekFatWord(o);
      } else {
        var w := PeekFatDword(o);
        val := Mask(g.kind, w);
      }
    }

    method GetFatAligned(clst: u32) returns (val: u32)
      requires Valid() && !g.kind.FAT12? && Fits(g.kind, FatBytes(g, View()), clst)
      modifies this`disk, this`wflag, this`mirror, this`winsect, win
      ensures Moved() && FatBytes(g, View()) == FatBytes(g, old(View()))
      ensures val == Entry(g.kind, FatBytes(g, old(View())), clst) || (!reliable && val == DISK_FAULT)
    {
      var res := MoveToFatByte(EntryOffset(g.kind, clst));
      if res != OK { return DISK_FAULT; }
      val := PeekEntry(clst);
    }

    /** The part of get_fat that reads the table; DISK_FAULT on a disk error, 1 out of range. */
    method GetFat(clst: u32) returns (val: u32)
      requires Valid()
      modifies this`disk, this`wflag, this`mirror, this`winsect, win
      ensures Moved() && Fat() == old(Fat())
      ensures 2 <= clst < g.nFatent ==> val == Fat()[clst] || (!reliable && val == DISK_FAULT)
      ensures !(2 <= clst < g.nFatent) ==> val == 1
      ensures val < Width(g.kind) || (!reliable && val == DISK_FAULT)
    {
      if clst < 2 || clst >= g.nFatent {
        return 1;
      }
      TableFits(g, FatBytes(g, View()));
      TableAt(g.kind, FatBytes(g, View()), g.nFatent, clst);
      if g.kind.FAT12? {
        val := GetFat12(clst);
      } else {
        val := GetFatAligned(clst);
      }
    }

    /** First or second half of the FAT12 branch of put_fat: rewrites one byte of the entry. */
    method PutByte12(clst: u32, val: u32, high: bool) returns (res: Fresult)
      requires Valid() && Fits(FAT12, FatBytes(g, View()), clst)
      modifies this`disk, this`wflag, this`mirror, this`winsect, win
      ensures FatsTouched() && res != INT_ERR && (reliable ==> res == OK)
      ensures res == OK ==> g.InFat(winsect)
      ensures res == OK ==> FatBytes(g, View()) == Halved12(FatBytes(g, old(View())), clst, val, high)
      ensures res != OK ==> FatBytes(g, View()) == FatBytes(g, old(View()))
    {
      hide Low12, High12, View, Mirrored;
      var bc := clst + clst / 2;
      if high { bc := bc + 1; }
      res := MoveToFatByte(bc);
      if res != OK { return; }
      var b := PeekFatByte(bc);
      PokeFatByte(bc, if high then High12(b, clst, val) else Low12(b, clst, val));
    }

    method PutFat12(clst: u32, val: u32) returns (res: Fresult)
      requires Valid() && g.kind.FAT12? && Fits(g.kind, FatBytes(g, View()), clst)
      modifies this`disk, this`wflag, this`mirror, this`winsect, win
      ensures FatsTouched() && res != INT_ERR && (reliable ==> res == OK)
      ensures res == OK ==> FatBytes(g, View()) == StoreEntry(g.kind, FatBytes(g, old(View())), clst, val)
      ensures res == OK ==> g.InFat(winsect)
      ensures res != OK ==> FatBytes(g, View()) == FatBytes(g, old(View())) ||
                            FatBytes(g, View()) == Halved12(FatBytes(g, old(View())), clst, val, false)
    {
      res := PutByte12(clst, val, false);
      if res != OK { return; }
      res := PutByte12(clst, val, true);
    }

    /** st_word into the window, at an aligned word of the first FAT. */
    method PokeFatWord(o: nat, w: u32)
      requires o % 2 == 0 && OnFatByte(o) && o + 1 < 512 * g.fsize
      modifies win, this`wflag
      ensures FatsTouched() && OnFatByte(o)
      ensures FatBytes(g, View()) == FatBytes(g, old(View()))[o := Byte0(w)][o + 1 := Byte1(w)]
    {
      hide Byte0, Byte1, View, Mirrored;
      OnRest(o, 1);
      PokeFatByte(o, Byte0(w));
      PokeFatByte(o + 1, Byte1(w));
    }

    /** st_dword into the window, at an aligned dword of the first FAT. */
    method PokeFatDword(o: nat, w: u32)
      requires o % 4 == 0 && OnFatByte(o) && o + 3 < 512 * g.fsize
      modifies win, this`wflag
      ensures FatsTouched()
      ensures FatBytes(g, View()) == StoreDword(FatBytes(g, old(View())), o, w)
    {
      hide Byte0, Byte1, Byte2, Byte3, View, Mirrored, OnFatByte, FatBytes, Extends;
      OnRest(o, 3);
      UpperBytes(w);
      var upper := w / 0x100 / 0x100;
      PokeFatWord(o, w);
      OnRest(o, 2);
      PokeFatWord(o + 2, upper);
    }

    method PokeEntry(clst: u32, val: u32)
      requires !g.kind.FAT12? && OnFatByte(EntryOffset(g.kind, clst)) && Fits(g.kind, FatBytes(g, View()), clst)
      modifies win, this`wflag
      ensures FatsTouched()
      ensures FatBytes(g, View()) == StoreEntry(g.kind, FatBytes(g, old(View())), clst, val)
    {
      hide OnFatByte, EntryOffset, Merge32, Byte0, Byte1, Byte2, Byte3, View, Mirrored;
      EntryAligned(g.kind, clst);
      OnRest(EntryOffset(g.kind, clst), 0);
      var o := EntryOffset(g.kind, clst);
      if g.kind.FAT16? {
        PokeFatWord(o, val);
      } else {
        OnRest(o, 3);
        var top := PeekFatByte(o + 3);
        PokeFatDword(o, Merge32(g.kind, top, val));
      }
    }

    method PutFatAligned(clst: u32, val: u32) returns (res: Fresult)
      requires Valid() && !g.kind.FAT12? && Fits(g.kind, FatBytes(g, View()), clst)
      modifies this`disk, this`wflag, this`mirror, this`winsect, win
      ensures FatsTouched()
      ensures res == OK ==> FatBytes(g, View()) == StoreEntry(g.kind, FatBytes(g, old(View())), clst, val)
      ensures res == OK ==> g.InFat(winsect)
      ensures res != OK ==> res == DISK_ERR && FatBytes(g, View()) == FatBytes(g, old(View()))
      ensures reliable ==> res == OK
    {
      res := MoveToFatByte(EntryOffset(g.kind, clst));
      if res != OK { return; }
      PokeEntry(clst, val);
    }

    method PutFat(clst: u32, val: u32) returns (res: Fresult)
      requires Valid()
      modifies this`disk, this`wflag, this`mirror, this`winsect, win
      ensures FatsTouched()
      ensures !(2 <= clst < g.nFatent) ==> res == INT_ERR && View() == old(View()) && Fat() == old(Fat())
      ensures 2 <= clst < g.nFatent ==> res != INT_ERR && (reliable ==> res == OK)
      ensures res == OK ==> Fat() == old(Fat())[clst := Mask(g.kind, val)] && g.InFat(winsect)
      ensures res != OK ==> forall c | 0 <= c < g.nFatent && c != clst :: Fat()[c] == old(Fat())[c]
    {
      if !(clst >= 2 && clst < g.nFatent) {
        return INT_ERR;
      }
      ghost var b := FatBytes(g, View());
      TableFits(g, b);
      StoreIsArrayUpdate(g.kind, b, g.nFatent, clst, val);
      if g.kind.FAT12? {
        res := PutFat12(clst, val);
        if res != OK { HalfStore12(g, b, clst, val); }
      } else {
        res := PutFatAligned(clst, val);
      }
    }
  }

  /** The table's bytes after one of the two byte stores of a FAT12 entry. */
  ghost function Halved12(b: seq<byte>, c: nat, v: u32, high: bool): (r: seq<byte>)
    requires Fits(FAT12, b, c)
    ensures |r| == |b|
  {
    var o := c + c / 2;
    if high then b[o + 1 := High12(b[o + 1], c, v)] else b[o := Low12(b[o], c, v)]
  }

  lemma WordsMakeDword(b0: byte, b1: byte, b2: byte, b3: byte)
    ensures LdWord(b0, b1) + 0x1_0000 * LdWord(b2, b3) == LdDword(b0, b1, b2, b3)
  {
  }

  lemma EntryAligned(kind: Kind, c: nat)
    requires !kind.FAT12?
    ensures var o := EntryOffset(kind, c); o % 2 == 0 && (!kind.FAT16? ==> o % 4 == 0)
  {
    RemainderIs(2 * c, 2, c, 0);
    RemainderIs(4 * c, 2, 2 * c, 0);
    RemainderIs(4 * c, 4, c, 0);
  }

  /** An aligned entry of 2 or 4 bytes lies within one sector. */
  lemma SameFatSector(o: nat, i: nat)
    requires (o % 2 == 0 && i < 2) || (o % 4 == 0 && i < 4)
    ensures (o + i) / 512 == o / 512
  {
    var p, m := o / 512, o % 512;
    if i < 2 && o % 2 == 0 { assert m == 2 * (o / 2 - 256 * p); } else { assert m == 4 * (o / 4 - 128 * p); }
    RemainderIs(o + i, 512, p, m + i);
  }

  /** A FAT12 store cut short after its first byte still leaves every other entry alone. */
  lemma HalfStore12(g: Geometry, b: seq<byte>, c: nat, v: u32)
    requires g.Ok() && g.kind.FAT12? && |b| == 512 * g.fsize && c < g.nFatent && FitsAll(g.kind, b, g.nFatent)
    ensures Fits(g.kind, b, c)
    ensures var b' := Halved12(b, c, v, false);
            FitsAll(g.kind, b', g.nFatent) &&
            forall d | 0 <= d < g.nFatent && d != c :: Table(g.kind, b', g.nFatent)[d] == Table(g.kind, b, g.nFatent)[d]
  {
    assert Fits(g.kind, b, c);
    var o := c + c / 2;
    var b' := Halved12(b, c, v, false);
    TableFits(g, b');
    forall d | 0 <= d < g.nFatent && d != c
      ensures Fits(g.kind, b, d) && Fits(g.kind, b', d) && Entry(g.kind, b', d) == Entry(g.kind, b, d)
    {
      assert Fits(g.kind, b, d) && Fits(g.kind, b', d);
      StoreElsewhere(g.kind, b, c, v, d);
    }
    TablesAgree(g.kind, b, b', g.nFatent, c);
  }
}
