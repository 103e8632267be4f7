/** f_read, f_write and f_lseek: a cached cursor over an object's cluster chain, on every kind of volume. */
module FileAccess {
  import opened Bytes
  import opened FatTable
  import opened FatVolume
  import opened FileData
  import opened FileSpace
  import opened Arith
  import Exfat
  import Bitmap
  import LazyChain

  /** Largest file: 4 GiB - 1 on FAT12/16/32, 64 bits on exFAT. */
  function MaxSize(kind: Kind): nat {
    if kind.EXFAT? then 0xFFFF_FFFF_FFFF_FFFF else 0xFFFF_FFFF
  }

  /** The disk with a dirty sector buffer laid over it. */
  function Effective(disk: seq<Sector>, dirty: bool, sect: nat, buf: Sector): (e: seq<Sector>)
    ensures |e| == |disk|
  {
    if dirty && sect < |disk| then disk[sect := buf] else disk
  }

  /** Outcome of a file operation on a healthy handle. */
  datatype Access = DONE | DENIED

  class File {
    const fs: Volume
    /** The allocation status exFAT keeps with the object; sclust and objsize below are its start and size. */
    const obj: Exfat.ObjectId
    const canRead: bool
    const canWrite: bool
    const buf: array<byte>
    var dirty: bool
    var sclust: u32
    var objsize: nat
    var fptr: nat
    var clust: u32
    /** Sector held in buf; 0 for none. */
    var sect: u32
    ghost var chain: seq<nat>
    /** File sector held in buf; -1 for none. */
    ghost var held: int

    /** The handle f_open leaves for an object that starts at cluster `start` (0: no data yet). */
    constructor (volume: Volume, status: Exfat.ObjectId, start: u32, size: nat, mayRead: bool, mayWrite: bool,
        ghost clusters: seq<nat>)
      requires Holds(volume, status.Fields(), clusters) &&
               (if clusters == [] then start == 0 else start == clusters[0]) && status.sclust == start
      requires Room(LayoutOf(volume.g), |clusters|, size) && size <= MaxSize(volume.g.kind)
      requires volume.g.kind.EXFAT? ==> Tight(LayoutOf(volume.g), |clusters|, size) && status.nFrag == 0
      ensures Valid() && fresh(buf) && fs == volume && obj == status && canRead == mayRead && canWrite == mayWrite
      ensures fptr == 0 && Text() == Content(LayoutOf(volume.g), volume.disk, clusters, size) && chain == clusters
    {
      fs, obj, canRead, canWrite := volume, status, mayRead, mayWrite;
      buf := new byte[512](_ => 0);
      dirty, sclust, objsize, fptr, clust, sect := false, start, size, 0, 0, 0;
      chain, held := clusters, -1;
    }

    function L(): Layout { LayoutOf(fs.g) }

    /** The chain of the file on the table, its room, and the buffer's place in it. */
    ghost predicate Sane()
      reads `sclust, `objsize, `sect, `dirty, `chain, `held, buf, fs`disk, fs`winsect, fs`wflag, fs`mirror, fs.win,
            obj`stat, obj`sclust, obj`nCont, obj`nFrag
    {
      && buf.Length == 512 && buf != fs.win && Holds(fs, obj.Fields(), chain)
      && (if chain == [] then sclust == 0 else sclust == chain[0]) && obj.sclust == sclust
      && Room(L(), |chain|, objsize) && objsize <= MaxSize(fs.g.kind) && BufferSane()
    }

    /** The buffer holds a sector of the file, equal to the disk unless dirty. */
    ghost predicate BufferSane()
      requires Placed(L(), chain, fs.g.sectors)
      reads `sect, `dirty, `chain, `held, buf, fs`disk
    {
      && -1 <= held
      && (held == -1 ==> sect == 0 && !dirty)
      && (held >= 0 ==> Ci(L(), held) < |chain| && sect == Loc(L(), chain, held))
      && (held >= 0 && !dirty && sect < |fs.disk| ==> buf[..] == fs.disk[sect])
    }

    /** The cursor: clust is the cluster of the byte before fptr, and inside a sector the buffer holds that sector. */
    ghost predicate Cursor()
      reads `fptr, `objsize, `clust, `chain, `held
    {
      && fs.g.csize > 0 && fptr <= objsize
      && (fptr > 0 ==> Ci(L(), (fptr - 1) / 512) < |chain| && clust == chain[Ci(L(), (fptr - 1) / 512)])
      && (fptr % 512 != 0 ==> held == fptr / 512)
    }

    /** Index of the cluster before fptr; -1 at the start. */
    ghost function Here(): int
      requires fs.g.csize > 0
      reads `fptr
    {
      if fptr == 0 then -1 else Ci(L(), (fptr - 1) / 512)
    }

    /**
     * On exFAT the size needs every cluster, and a fragment still to be written is at cluster index `k`, the last one.
     */
    ghost predicate Tidy(k: int)
      requires fs.g.csize > 0
      reads `objsize, `chain, obj`nFrag
    {
      fs.g.kind.EXFAT? ==> Tight(L(), |chain|, objsize) && (obj.nFrag != 0 ==> k + 1 == |chain|)
    }

    /** As Tidy, but the last cluster may be without data yet if `k` is its index. */
    ghost predicate Loose(k: int)
      requires fs.g.csize > 0
      reads `objsize, `chain, obj`nFrag
    {
      fs.g.kind.EXFAT? ==> (Tight(L(), |chain|, objsize) || k + 1 == |chain|) && (obj.nFrag != 0 ==> k + 1 == |chain|)
    }

    ghost predicate Valid()
      reads this, buf, fs`disk, fs`winsect, fs`wflag, fs`mirror, fs.win, obj`stat, obj`sclust, obj`nCont, obj`nFrag
    {
      Sane() && Cursor() && Tidy(Here())
    }

    ghost function Disk(): (e: seq<Sector>)
      requires buf.Length == 512
      reads `dirty, `sect, buf, fs`disk
      ensures |e| == |fs.disk|
    {
      Effective(fs.disk, dirty, sect, buf[..])
    }

    /** The file as its bytes. */
    ghost function Text(): (b: seq<byte>)
      requires Sane()
      reads `sclust, `objsize, `sect, `dirty, `chain, `held, buf, fs`disk, fs`winsect, fs`wflag, fs`mirror, fs.win,
            obj`stat, obj`sclust, obj`nCont, obj`nFrag
      ensures |b| == objsize
    {
      Content(L(), Disk(), chain, objsize)
    }

    /** The allocation table of the volume. */
    ghost function Table(): (t: seq<nat>)
      requires Sane()
      reads `sclust, `objsize, `sect, `dirty, `chain, `held, buf, fs`disk, fs`winsect, fs`wflag, fs`mirror, fs.win,
            obj`stat, obj`sclust, obj`nCont, obj`nFrag
    {
      TableOf(fs)
    }

    /** The same with the free count. */
    ghost function Space(): (p: Pool)
      requires Sane()
      reads `sclust, `objsize, `sect, `dirty, `chain, `held, buf, fs`disk, fs`winsect, fs`wflag, fs`mirror, fs`freeClst,
            fs.win, obj`stat, obj`sclust, obj`nCont, obj`nFrag
    {
      Pool(Table(), fs.freeClst)
    }

    /** Writes a dirty buffer back. */
    method Flush()
      requires Sane()
      modifies this`dirty, fs`disk
      ensures Sane() && !dirty && Disk() == old(Disk()) && Table() == old(Table())
      ensures Aside(fs.g, chain, old(SnapOf(fs)), SnapOf(fs))
    {
      hide Holds, Ready, Linked, WindowOff, TableOf, Ci, Co, Loc, Room, ClusterBase, Bitmap.InBits,
        FatVolume.Volume.Fat, Aside, Own;
      SaneRange();
      SaneSnap();
      AsideRefl(fs.g, chain, SnapOf(fs));
      SaneParts();
      HoldsParts(fs, obj.Fields(), chain);
      if dirty {
        LocApart(fs.g, chain, held);
        BufferOffWindow();
        OwnLoc(fs.g, chain, held);
        WriteSector(fs, sect, buf[..]);
        AsideData(fs.g, chain, old(SnapOf(fs)), SnapOf(fs));
        dirty := false;
      }
      HoldsFrom(fs, obj.Fields(), chain);
    }

    lemma BufferOffWindow()
      requires Sane() && held >= 0
      ensures Ci(L(), held) < |chain| && sect == Loc(L(), chain, held) != fs.winsect
    {
    }

    /** disk_read of file sector `q` into a clean buffer. */
    method Load(s: u32, ghost q: nat)
      requires Sane() && !dirty && Ci(L(), q) < |chain| && s == Loc(L(), chain, q)
      modifies buf, this`sect, this`held
      ensures Sane() && Disk() == old(Disk()) && held == q && sect == s
    {
      hide Ci, Co, Loc, Room, ClusterBase, Linked, FatVolume.Volume.Fat, FatVolume.Volume.Valid;
      LocIn(L(), chain, fs.g.sectors, q);
      SaneBasics();
      var data := fs.disk[s];
      forall i | 0 <= i < 512 { buf[i] := data[i]; }
      assert buf[..] == data;
      sect, held := s, q;
    }

    /** get_fat on a cluster of the file: the window may move, the file does not change. */
    method NextCluster(c: u32, ghost i: nat) returns (nxt: u32)
      requires Sane() && i + 1 < |chain| && c == chain[i] && Tidy(i)
      modifies fs`disk, fs`wflag, fs`mirror, fs`winsect, fs.win, obj`objsize
      ensures Sane() && Text() == old(Text()) && Table() == old(Table()) && nxt == chain[i + 1]
      ensures Aside(fs.g, chain, old(SnapOf(fs)), SnapOf(fs))
    {
      hide Ci, Co, Loc, Room, Linked, WindowOff, TableOf, Ready, Content, Tight, Aside, SnapOf;
      SaneBasics();
      ghost var d := Disk();
      obj.objsize := objsize;
      nxt := NextOn(fs, obj, c, chain, i);
      EffectiveAgrees(fs.g, chain, old(fs.disk), fs.disk, dirty, sect, buf[..]);
      ContentSame(L(), d, Disk(), chain, objsize);
    }

    /** What a reading cursor inside the file relies on. */
    lemma InsideFile()
      requires Valid() && fptr < objsize
      ensures Ci(L(), fptr / 512) < |chain|
      ensures fptr == 0 ==> sclust == chain[0] && Ci(L(), fptr / 512) == 0 == Co(L(), fptr / 512)
      ensures fptr > 0 && (fptr % 512 != 0 || Co(L(), fptr / 512) != 0) ==>
              clust == chain[Ci(L(), fptr / 512)] && Tidy(Ci(L(), fptr / 512))
      ensures fptr > 0 && fptr % 512 == 0 && Co(L(), fptr / 512) == 0 ==>
                Ci(L(), (fptr - 1) / 512) + 1 == Ci(L(), fptr / 512) && clust == chain[Ci(L(), (fptr - 1) / 512)]
      ensures fptr == 0 || (fptr % 512 == 0 && Co(L(), fptr / 512) == 0) ==> forall k :: Tidy(k)
    {
      hide Ci, Co;
      RoomFor(L(), |chain|, objsize, fptr);
      IndexZero(L());
      if fptr > 0 { IndexBefore(L(), fptr); }
    }

    /** At a cluster boundary inside the file, f_read steps to the cluster of fptr. */
    method FollowForRead()
      requires Valid() && fptr < objsize && fptr % 512 == 0 && Co(L(), fptr / 512) == 0
      modifies this`clust, fs`disk, fs`wflag, fs`mirror, fs`winsect, fs.win, obj`objsize
      ensures Sane() && Text() == old(Text()) && Table() == old(Table())
      ensures Ci(L(), fptr / 512) < |chain| && clust == chain[Ci(L(), fptr / 512)] && Tidy(Ci(L(), fptr / 512))
      ensures Aside(fs.g, chain, old(SnapOf(fs)), SnapOf(fs))
    {
      hide Sane, Text, Ci, Co, Room, Tight, FatVolume.Volume.Fat, Aside, SnapOf;
      InsideFile();
      SaneSnap();
      AsideRefl(fs.g, chain, SnapOf(fs));
      if fptr == 0 {
        clust := sclust;
      } else {
        clust := NextCluster(clust, Ci(L(), (fptr - 1) / 512));
      }
    }

    /** disk_read of whole file sectors, with a dirty buffered sector among them taken from the buffer. */
    method ReadDirect(s: u32, cc: nat) returns (bytes: seq<byte>)
      requires buf.Length == 512 && |fs.disk| < 0xFFFF_FFFF && s + cc <= |fs.disk|
      ensures |bytes| == 512 * cc
      ensures forall k | 0 <= k < cc :: Piece(bytes, k) == Disk()[s + k]
    {
      hide Piece;
      bytes := ReadSectors(fs, s, cc);
      if dirty && Sub32(sect, s) < cc {
        var i := sect - s;
        ghost var b := bytes;
        bytes := bytes[..512 * i] + buf[..] + bytes[512 * i + 512..];
        forall k | 0 <= k < cc ensures Piece(bytes, k) == Disk()[s + k] { PieceReplaced(b, i, buf[..], k); }
      }
    }

    /** f_read's direct transfer of `cc` whole sectors from a sector boundary. */
    method ReadWhole(cc: nat) returns (chunk: seq<byte>)
      requires Sane() && fptr % 512 == 0 && Ci(L(), fptr / 512) < |chain| && clust == chain[Ci(L(), fptr / 512)] &&
               Tidy(Ci(L(), fptr / 512))
      requires 0 < cc && 512 * cc <= objsize - fptr && Co(L(), fptr / 512) + cc <= fs.g.csize
      modifies this`fptr
      ensures Valid() && fptr == old(fptr) + 512 * cc && |chunk| == 512 * cc
      ensures Text() == old(Text()) && chunk == Text()[old(fptr)..fptr]
    {
      hide Sane, Text, Disk, Ci, Co, Loc, Piece, ClusterBase;
      WholeLoc(fptr / 512, cc);
      chunk := ReadDirect(ClusterBase(L(), clust) + Co(L(), fptr / 512), cc);
      WholeGives(fptr / 512, cc, chunk);
      AdvanceIndex(L(), fptr / 512, cc, fptr, 512 * cc);
      fptr := fptr + 512 * cc;
    }

    /** No sector of a transfer within one cluster belongs to the bitmap. */
    lemma WholeApart(q: nat, cc: nat)
      requires Sane() && Ci(L(), q) < |chain| && 0 < cc && Co(L(), q) + cc <= fs.g.csize && fs.g.kind.EXFAT?
      ensures forall x | Loc(L(), chain, q) <= x < Loc(L(), chain, q) + cc :: !Bitmap.InBits(fs.g, x)
    {
      SaneRange();
      hide Ci, Co, Linked;
      assert !HitsBits(fs.g, chain[Ci(L(), q)]);
    }

    /** The sectors of such a transfer are the file's own. */
    lemma WholeOwn(q: nat, cc: nat)
      requires Sane() && Ci(L(), q) < |chain| && 0 < cc && Co(L(), q) + cc <= fs.g.csize
      ensures forall x: nat | Loc(L(), chain, q) <= x < Loc(L(), chain, q) + cc ::
              Own(fs.g, chain, x) && x >= fs.g.database
    {
      LocIn(L(), chain, fs.g.sectors, q);
      hide Ci, Co, Linked;
      assert forall x: nat | Loc(L(), chain, q) <= x < Loc(L(), chain, q) + cc :: InCluster(fs.g, chain[Ci(L(), q)], x);
    }

    lemma WholeLoc(q: nat, cc: nat)
      requires Sane() && Ci(L(), q) < |chain| && 0 < cc && (cc == 1 || Co(L(), q) + cc <= fs.g.csize)
      ensures |fs.disk| == fs.g.sectors && buf.Length == 512 && Co(L(), q) < fs.g.csize
      ensures 2 <= chain[Ci(L(), q)]
      ensures Loc(L(), chain, q) == ClusterBase(L(), chain[Ci(L(), q)]) + Co(L(), q)
      ensures fs.g.database <= Loc(L(), chain, q) && Loc(L(), chain, q) + cc <= fs.g.sectors < 0xFFFF_FFFF
      ensures !(Loc(L(), chain, q) <= fs.winsect < Loc(L(), chain, q) + cc)
    {
      hide Ci, Co, Room;
      LocIn(L(), chain, fs.g.sectors, q);
      LocStep(L(), chain, fs.g.sectors, q, cc - 1);
      if Loc(L(), chain, q) <= fs.winsect < Loc(L(), chain, q) + cc {
        LocStep(L(), chain, fs.g.sectors, q, fs.winsect - Loc(L(), chain, q));
        assert false;
      }
    }

    lemma WholeGives(q: nat, cc: nat, chunk: seq<byte>)
      requires Sane() && Ci(L(), q) < |chain| && 0 < cc && Co(L(), q) + cc <= fs.g.csize
      requires |chunk| == 512 * cc && 512 * (q + cc) <= objsize && Loc(L(), chain, q) + cc <= |fs.disk|
      requires forall k | 0 <= k < cc :: Piece(chunk, k) == Disk()[Loc(L(), chain, q) + k]
      ensures chunk == Text()[512 * q..512 * (q + cc)]
    {
      hide Ci, Co, Loc, Room, Content, Piece;
      ReadGives(L(), Disk(), chain, objsize, q, cc, chunk);
    }

    /** The buffer is what the disk holds, or will hold, at its place. */
    lemma BufferShows(q: nat)
      requires Sane() && held == q
      ensures Ci(L(), q) < |chain| && Loc(L(), chain, q) < |Disk()| && Disk()[Loc(L(), chain, q)] == buf[..]
    {
      hide Ci, Co, Room, Linked, FatVolume.Volume.Fat, FatVolume.Volume.Valid;
      SaneParts();
      LocIn(L(), chain, fs.g.sectors, q);
    }

    lemma PartGives(w: nat)
      requires Sane() && Ci(L(), fptr / 512) < |chain| && held == fptr / 512 && fptr % 512 + w <= 512 &&
               fptr + w <= objsize
      ensures buf[fptr % 512..fptr % 512 + w] == Text()[fptr..fptr + w]
    {
      hide Ci, Co, Loc, Room, Content, Linked, Holds, FatVolume.Volume.Fat, FatVolume.Volume.Valid;
      SaneParts();
      BufferShows(fptr / 512);
      ReadPartGives(L(), Disk(), chain, objsize, fptr, w);
    }

    /** Fills the sector buffer with file sector `q` unless it holds it already. */
    method Cache(s: u32, ghost q: nat)
      requires Sane() && Ci(L(), q) < |chain| && s == Loc(L(), chain, q)
      modifies this`dirty, this`sect, this`held, buf, fs`disk
      ensures Sane() && Text() == old(Text()) && held == q && Table() == old(Table())
      ensures Aside(fs.g, chain, old(SnapOf(fs)), SnapOf(fs))
    {
      SectorTells(q);
      SaneSnap();
      AsideRefl(fs.g, chain, SnapOf(fs));
      hide Ci, Co, Loc, Room, Content, Linked, FatVolume.Volume.Fat, FatVolume.Volume.Valid;
      if sect != s {
        Flush();
        Load(s, q);
      }
    }

    /** The sector number tells which file sector the buffer holds. */
    lemma SectorTells(q: nat)
      requires Sane() && Ci(L(), q) < |chain|
      ensures sect == Loc(L(), chain, q) ==> held == q
    {
      LocIn(L(), chain, fs.g.sectors, q);
      if held >= 0 && sect == Loc(L(), chain, q) {
        LocIn(L(), chain, fs.g.sectors, held);
        LocRange(L(), chain, fs.g.sectors, q, 1, held);
      }
    }

    /** f_read's transfer within one buffered sector. */
    method ReadPart(btr: nat) returns (chunk: seq<byte>)
      requires Sane() && Ci(L(), fptr / 512) < |chain| && clust == chain[Ci(L(), fptr / 512)] && held == fptr / 512 &&
               Tidy(Ci(L(), fptr / 512))
      requires 0 < btr <= objsize - fptr
      modifies this`fptr
      ensures Valid() && 0 < |chunk| <= btr && fptr == old(fptr) + |chunk|
      ensures Text() == old(Text()) && chunk == Text()[old(fptr)..fptr]
    {
      hide Sane, Text, Ci, Co, Tight, Tidy;
      SaneBasics();
      var rcnt := 512 - fptr % 512;
      if rcnt > btr { rcnt := btr; }
      PartGives(rcnt);
      PartIndex(L(), fptr, rcnt);
      chunk := buf[fptr % 512..fptr % 512 + rcnt];
      fptr := fptr + rcnt;
    }

    /** One round of the f_read loop. */
    method ReadRound(btr: nat) returns (chunk: seq<byte>)
      requires Valid() && 0 < btr <= objsize - fptr
      modifies this`clust, this`dirty, this`sect, this`held, this`fptr, buf, fs`disk, fs`wflag, fs`mirror, fs`winsect,
               fs.win, obj`objsize
      ensures Valid() && 0 < |chunk| <= btr && fptr == old(fptr) + |chunk|
      ensures Text() == old(Text()) && chunk == Text()[old(fptr)..fptr] && Table() == old(Table())
      ensures Aside(fs.g, chain, old(SnapOf(fs)), SnapOf(fs))
    {
      hide Sane, Text, Ci, Co, Room, Loc, ClusterBase, FatVolume.Volume.Fat, Aside, SnapOf;
      InsideFile();
      SaneSnap();
      AsideRefl(fs.g, chain, SnapOf(fs));
      if fptr % 512 == 0 {
        var csect := Co(L(), fptr / 512);
        if csect == 0 { FollowForRead(); }
        WholeLoc(fptr / 512, 1);
        var cc := btr / 512;
        if cc > 0 {
          if csect + cc > fs.g.csize { cc := fs.g.csize - csect; }
          chunk := ReadWhole(cc);
          return;
        }
        ghost var mid := SnapOf(fs);
        Cache(ClusterBase(L(), clust) + csect, fptr / 512);
        AsideTrans(fs.g, chain, chain, old(SnapOf(fs)), mid, SnapOf(fs));
      }
      chunk := ReadPart(btr);
    }

    /** f_read: the bytes from fptr on, as many as asked for and left in the file. */
    method Read(btr: nat) returns (res: Access, data: seq<byte>)
      requires Valid()
      modifies this`clust, this`dirty, this`sect, this`held, this`fptr, buf, fs`disk, fs`wflag, fs`mirror, fs`winsect,
               fs.win, obj`objsize
      ensures Valid() && Text() == old(Text()) && Table() == old(Table())
      ensures res == if canRead then DONE else DENIED
      ensures res == DONE ==> |data| == (if btr < objsize - old(fptr) then btr else objsize - old(fptr))
      ensures res == DONE ==> fptr == old(fptr) + |data| && data == Text()[old(fptr)..fptr]
      ensures res != DONE ==> data == [] && fptr == old(fptr)
      ensures Aside(fs.g, chain, old(SnapOf(fs)), SnapOf(fs))
    {
      hide Sane, Text, Table, Aside, SnapOf;
      SaneSnap();
      AsideRefl(fs.g, chain, SnapOf(fs));
      data := [];
      if !canRead { return DENIED, data; }
      var left := if btr > objsize - fptr then objsize - fptr else btr;
      while left > 0
        invariant Valid() && Text() == old(Text()) && Table() == old(Table())
        invariant Aside(fs.g, chain, old(SnapOf(fs)), SnapOf(fs))
        invariant 0 <= left && |data| + left == (if btr < objsize - old(fptr) then btr else objsize - old(fptr))
        invariant fptr == old(fptr) + |data| && data == Text()[old(fptr)..fptr]
      {
        ghost var mid := SnapOf(fs);
        var chunk := ReadRound(left);
        AsideTrans(fs.g, chain, chain, old(SnapOf(fs)), mid, SnapOf(fs));
        data := data + chunk;
        left := left - |chunk|;
      }
      res := DONE;
    }

    // ---------- writing ----------

    /** create_chain on the file's own chain: steps along it, or lengthens it by one free cluster. */
    method Stretch(c: u32, ghost i: nat) returns (r: u32)
      requires Sane() && (if c == 0 then chain == [] else i < |chain| && c == chain[i]) && Tidy(i)
      modifies this`sclust, this`chain, fs, fs.win, obj
      ensures Sane() && Text() == old(Text()) && chain == Extended(old(chain), c, i, r)
      ensures Stretched(old(chain), old(Space()), Space(), c, i, r)
      ensures r == 0 || !AtEnd(old(chain), c, i) ==> obj.nFrag == old(obj.nFrag)
      ensures Aside(fs.g, chain, old(SnapOf(fs)), SnapOf(fs))
    {
      hide Stretched, Holds, Ci, Co, Loc, Room, ClusterBase, Content, TableOf, Tight, Aside, SnapOf;
      SaneParts();
      r := StretchKept(c, i);
      if sclust == 0 && r != 0 {
        sclust := r;
        obj.sclust := r;
      }
      if r != 0 && AtEnd(chain, c, i) {
        GrowFacts(L(), Disk(), chain, r, objsize, held);
        chain := chain + [r];
      }
    }

    /** The call itself: the object's list may be longer, what the file's own clusters hold stays. */
    method StretchKept(c: u32, ghost i: nat) returns (r: u32)
      requires Sane() && (if c == 0 then chain == [] else i < |chain| && c == chain[i]) && Tidy(i)
      modifies fs, fs.win, obj
      ensures |fs.disk| == fs.g.sectors && Placed(L(), chain, fs.g.sectors) &&
              Placed(L(), Extended(chain, c, i, r), fs.g.sectors) && BufferSane()
      ensures Holds(fs, Started(obj.Fields(), c, r), Extended(chain, c, i, r)) && obj.sclust == sclust
      ensures Content(L(), Disk(), chain, objsize) == old(Text())
      ensures Stretched(chain, old(Space()), PoolOf(fs), c, i, r)
      ensures r == 0 || !AtEnd(chain, c, i) ==> obj.nFrag == old(obj.nFrag)
      ensures Aside(fs.g, Extended(chain, c, i, r), old(SnapOf(fs)), SnapOf(fs))
    {
      hide Stretched, Started, Holds, Ci, Co, Loc, Room, ClusterBase, Content, TableOf, Tight, Aside, SnapOf;
      SaneBasics();
      SaneParts();
      ghost var d := Disk();
      obj.objsize := objsize;
      r := StretchOn(fs, obj, c, chain, i);
      HoldsPlaced(fs, Started(obj.Fields(), c, r), Extended(chain, c, i, r));
      EffectiveAgrees(fs.g, chain, old(fs.disk), fs.disk, dirty, sect, buf[..]);
      ContentSame(L(), d, Disk(), chain, objsize);
    }

    /** What a writing cursor at a cluster boundary relies on. */
    lemma AtBoundary()
      requires Valid() && fptr % 512 == 0 && Co(L(), fptr / 512) == 0
      ensures sclust == 0 <==> chain == []
      ensures fptr == 0 ==> Ci(L(), fptr / 512) == 0 && (chain != [] ==> sclust == chain[0]) && Tidy(0)
      ensures fptr > 0 ==> var i := Ci(L(), (fptr - 1) / 512);
              i < |chain| && clust == chain[i] && clust != 0 && i + 1 == Ci(L(), fptr / 512) && Tidy(i)
    {
      SaneBasics();
      LinkedRange(fs.g, fs.Fat(), TableOf(fs), obj.Fields(), chain);
      hide Ci, Co, Room, Loc, Linked;
      IndexZero(L());
      if fptr > 0 { IndexBefore(L(), fptr); }
    }

    /** A cluster boundary is where the cluster of its index starts. */
    lemma BoundaryStart()
      requires Sane() && fptr % 512 == 0 && Co(L(), fptr / 512) == 0
      ensures fptr == Start(L(), Ci(L(), fptr / 512))
    {
      hide Sane, Ci, Co, Start;
      SaneBasics();
      StartOf(L(), fptr);
    }

    /** At a cluster boundary, f_write steps to the cluster of fptr, allocating it if needed; false on a full volume. */
    method ClusterForWrite() returns (ok: bool)
      requires Valid() && fptr % 512 == 0 && Co(L(), fptr / 512) == 0
      modifies this`clust, this`sclust, this`chain, fs, fs.win, obj
      ensures Sane() && Text() == old(Text()) && Evolved(old(chain), old(Space()), chain, Space())
      ensures ok ==> Ci(L(), fptr / 512) < |chain| && clust == chain[Ci(L(), fptr / 512)] && Loose(Ci(L(), fptr / 512))
      ensures !ok ==> Cursor() && Tidy(Here()) && Full(Space()) && fptr == Start(L(), |chain|)
      ensures Aside(fs.g, chain, old(SnapOf(fs)), SnapOf(fs))
    {
      hide Sane, Text, Table, Ci, Co, Start, Tight, Taken, Stretched, Extended, Evolved, Full, Aside, SnapOf;
      AtBoundary();
      BoundaryStart();
      EvolvedRefl(chain, Space());
      SaneSnap();
      AsideRefl(fs.g, chain, SnapOf(fs));
      SaneBasics();
      var clst := sclust;
      ghost var i := 0;
      if fptr > 0 {
        i := Ci(L(), (fptr - 1) / 512);
        clst := Stretch(clust, i);
        StretchOutcome(old(chain), old(Space()), Space(), clust, i, clst);
      } else if clst == 0 {
        clst := Stretch(0, 0);
        StretchOutcome(old(chain), old(Space()), Space(), 0, 0, clst);
      }
      ok := clst != 0;
      if ok { clust := clst; }
    }

    /** disk_write of whole file sectors, refilling the buffer if its sector is among them. */
    method StoreWhole(s: u32, cc: nat, bytes: seq<byte>, ghost q: nat)
      requires Sane() && !dirty && Ci(L(), q) < |chain| && 0 < cc && Co(L(), q) + cc <= fs.g.csize
      requires s == Loc(L(), chain, q) && s + cc <= fs.g.sectors && fs.g.database <= s && !(s <= fs.winsect < s + cc)
      requires |bytes| == 512 * cc && (fs.g.kind.EXFAT? ==> forall x | s <= x < s + cc :: !Bitmap.InBits(fs.g, x))
      modifies buf, fs`disk
      ensures Sane() && Table() == old(Table()) && |fs.disk| == |old(fs.disk)|
      ensures forall x | 0 <= x < |fs.disk| && !(s <= x < s + cc) :: fs.disk[x] == old(fs.disk)[x]
      ensures forall k | 0 <= k < cc && s + k < |fs.disk| :: fs.disk[s + k] == Piece(bytes, k)
      ensures Aside(fs.g, chain, old(SnapOf(fs)), SnapOf(fs))
    {
      hide Holds, Ready, Linked, WindowOff, TableOf, Ci, Co, Loc, Room, Content, Piece, Stored, ClusterBase,
        FatVolume.Volume.Fat, Aside;
      SaneBasics();
      SaneParts();
      HoldsParts(fs, obj.Fields(), chain);
      SaneSnap();
      WholeOwn(q, cc);
      WriteRange(fs, s, cc, bytes);
      AsideStored(fs.g, chain, old(SnapOf(fs)), SnapOf(fs), s, cc);
      HoldsFrom(fs, obj.Fields(), chain);
      Refill(s, cc, bytes);
    }

    /** Copies from `bytes`, just stored at sector `s`, what belongs to the buffered sector. */
    method Refill(s: u32, cc: nat, bytes: seq<byte>)
      requires buf.Length == 512 && |bytes| == 512 * cc && s + cc <= 0xFFFF_FFFF
      modifies buf
      ensures buf[..] == if s <= sect < s + cc then Piece(bytes, sect - s) else old(buf[..])
    {
      if Sub32(sect, s) < cc {
        var p := Piece(bytes, sect - s);
        forall i | 0 <= i < 512 { buf[i] := p[i]; }
        assert buf[..] == p;
      }
    }

    /** The end of a write round: moves fptr over `data`, which now stands in the file, and grows the file if needed. */
    method Advance(data: seq<byte>, ghost d: seq<Sector>, ghost q: nat, ghost cc: nat)
      requires Sane() && |d| == |fs.disk| && |fs.disk| == fs.g.sectors && Ci(L(), q) < |chain| &&
               Co(L(), q) + cc <= fs.g.csize
      requires Rewritten(L(), d, Disk(), chain, objsize, q, cc, fptr, data) && data != []
      requires fptr <= objsize && fptr + |data| <= MaxSize(fs.g.kind) && clust == chain[Ci(L(), q)] && Loose(Ci(L(), q))
      requires (fptr + |data|) % 512 != 0 ==> held == (fptr + |data|) / 512
      modifies this`fptr, this`objsize
      ensures Valid() && fptr == old(fptr) + |data| && Table() == old(Table())
      ensures Text() == Splice(Content(L(), d, chain, old(objsize)), old(fptr), data)
    {
      hide Holds, Tight, TableOf, Ci, Co, Loc, Content, Rewritten, ClusterBase, Room, BufferSane, Cursor, Tidy;
      SaneParts();
      WriteLands(L(), d, Disk(), chain, objsize, q, cc, fptr, data);
      InRange(d, q, cc, data);
      AdvanceIndex(L(), q, cc, fptr, |data|);
      fptr := fptr + |data|;
      if fptr > objsize { objsize := fptr; }
      CursorAt(Ci(L(), q), old(objsize));
    }

    /** A cursor in the cluster of index `k`, once the size covers it. */
    lemma CursorAt(k: nat, size: nat)
      requires fs.g.csize > 0 && 0 < fptr && Ci(L(), (fptr - 1) / 512) == k < |chain| && clust == chain[k] &&
               Room(L(), |chain|, size)
      requires objsize == (if fptr > size then fptr else size) && (fptr % 512 != 0 ==> held == fptr / 512)
      requires fs.g.kind.EXFAT? ==>
               (Tight(L(), |chain|, size) || k + 1 == |chain|) && (obj.nFrag != 0 ==> k + 1 == |chain|)
      ensures Cursor() && Tidy(Here())
    {
      hide Tight, Ci, Room;
      if fs.g.kind.EXFAT? { TightAfter(L(), |chain|, size, fptr); }
    }

    lemma InRange(d: seq<Sector>, q: nat, cc: nat, data: seq<byte>)
      requires Sane() && |d| == fs.g.sectors && Ci(L(), q) < |chain| && Co(L(), q) + cc <= fs.g.csize
      requires Rewritten(L(), d, Disk(), chain, objsize, q, cc, fptr, data)
      ensures 512 * q <= fptr && fptr + |data| <= 512 * (q + cc)
    {
      hide Ci, Co, Loc, Room;
    }

    /** f_write's direct transfer of `cc` whole sectors from a sector boundary. */
    method WriteWhole(cc: nat, bytes: seq<byte>)
      requires Sane() && !dirty && fptr % 512 == 0 && Ci(L(), fptr / 512) < |chain| &&
               clust == chain[Ci(L(), fptr / 512)] && Loose(Ci(L(), fptr / 512))
      requires 0 < cc && |bytes| == 512 * cc && Co(L(), fptr / 512) + cc <= fs.g.csize
      requires fptr <= objsize && fptr + |bytes| <= MaxSize(fs.g.kind)
      modifies this`fptr, this`objsize, buf, fs`disk
      ensures Valid() && fptr == old(fptr) + |bytes| && Text() == Splice(old(Text()), old(fptr), bytes) &&
              Table() == old(Table())
      ensures Aside(fs.g, chain, old(SnapOf(fs)), SnapOf(fs))
    {
      hide Sane, Table, Ci, Co, Loc, Room, Content, Piece, ClusterBase, Rewritten, Aside, SnapOf;
      ghost var q, d := fptr / 512, fs.disk;
      WholeLoc(q, cc);
      if fs.g.kind.EXFAT? { WholeApart(q, cc); }
      SaneParts();
      StoreWhole(ClusterBase(L(), clust) + Co(L(), fptr / 512), cc, bytes, q);
      WholeRewritten(L(), d, fs.disk, chain, objsize, q, cc, bytes);
      Advance(bytes, d, q, cc);
    }

    /** memcpy into the buffer, which holds file sector `q`, or takes it over unread at the growing edge. */
    method PutBytes(s: u32, data: seq<byte>, ghost q: nat)
      requires Sane() && q == fptr / 512 && Ci(L(), q) < |chain| && s == Loc(L(), chain, q) && s < |fs.disk|
      requires fptr % 512 + |data| <= 512 && fptr <= objsize
      requires held == q || (!dirty && fptr % 512 == 0 && fptr >= objsize)
      modifies this`sect, this`held, this`dirty, buf
      ensures Sane() && Table() == old(Table()) && held == q
      ensures buf.Length == 512 && Disk() == old(Disk())[s := buf[..]]
      ensures forall i | 0 <= i < 512 ::
                buf[i] == if fptr % 512 <= i < fptr % 512 + |data| then data[i - fptr % 512]
                          else if 512 * q + i < objsize then old(Disk())[s][i] else buf[i]
    {
      hide Ready, Ci, Co, Loc, Room, ClusterBase, Linked, FatVolume.Volume.Fat;
      SaneBasics();
      sect, held := s, q;
      var o := fptr % 512;
      forall i | o <= i < o + |data| { buf[i] := data[i - o]; }
      dirty := true;
    }

    /** f_write's transfer within one buffered sector. */
    method WritePart(s: u32, data: seq<byte>)
      requires Sane() && Ci(L(), fptr / 512) < |chain| && clust == chain[Ci(L(), fptr / 512)] &&
               Loose(Ci(L(), fptr / 512))
      requires s == Loc(L(), chain, fptr / 512) && s < |fs.disk| && |fs.disk| == fs.g.sectors
      requires data != [] && fptr % 512 + |data| <= 512 && fptr <= objsize && fptr + |data| <= MaxSize(fs.g.kind)
      requires held == fptr / 512 || (!dirty && fptr % 512 == 0 && fptr >= objsize)
      modifies this`sect, this`held, this`dirty, this`fptr, this`objsize, buf
      ensures Valid() && fptr == old(fptr) + |data| && Text() == Splice(old(Text()), old(fptr), data) &&
              Table() == old(Table())
    {
      hide Sane, Table, Ci, Co, Loc, Room, Content, ClusterBase, Rewritten;
      ghost var q := fptr / 512;
      SaneParts();
      WholeLoc(q, 1);
      ghost var d := Disk();
      PutBytes(s, data, q);
      PartRewritten(L(), d, chain, objsize, fptr, data, buf[..]);
      PartIndex(L(), fptr, |data|);
      Advance(data, d, q, 1);
    }

    /** One round of the f_write loop: how many bytes went in, none when no cluster could be allocated. */
    method WriteRound(data: seq<byte>) returns (wcnt: nat)
      requires Valid() && data != [] && fptr + |data| <= MaxSize(fs.g.kind)
      modifies this, buf, fs, fs.win, obj
      ensures Valid() && wcnt <= |data| && fptr == old(fptr) + wcnt
      ensures Text() == Splice(old(Text()), old(fptr), data[..wcnt]) &&
              Evolved(old(chain), old(Space()), chain, Space())
      ensures wcnt == 0 ==> Full(Space()) && fptr == Start(L(), |chain|)
      ensures Aside(fs.g, chain, old(SnapOf(fs)), SnapOf(fs))
    {
      hide Sane, Text, Table, Ci, Co, Room, Loc, ClusterBase, Full, Aside, SnapOf;
      SaneBasics();
      SaneSnap();
      AsideRefl(fs.g, chain, SnapOf(fs));
      if fptr % 512 == 0 {
        wcnt := WriteFromBoundary(data);
      } else {
        MidSector();
        EvolvedRefl(chain, Space());
        wcnt := 512 - fptr % 512;
        if wcnt > |data| { wcnt := |data|; }
        WritePart(sect, data[..wcnt]);
      }
    }

    /** A cursor inside a sector: the buffer holds that sector. */
    lemma MidSector()
      requires Valid() && fptr % 512 != 0
      ensures Ci(L(), fptr / 512) < |chain| && clust == chain[Ci(L(), fptr / 512)] && held == fptr / 512 &&
              Loose(Ci(L(), fptr / 512))
      ensures sect == Loc(L(), chain, fptr / 512) && sect < |fs.disk|
    {
      hide Ci, Co, Room;
      IndexBefore(L(), fptr);
      LocIn(L(), chain, fs.g.sectors, fptr / 512);
    }

    /** A round of f_write that starts on a sector boundary. */
    method WriteFromBoundary(data: seq<byte>) returns (wcnt: nat)
      requires Valid() && data != [] && fptr + |data| <= MaxSize(fs.g.kind) && fptr % 512 == 0
      modifies this, buf, fs, fs.win, obj
      ensures Valid() && wcnt <= |data| && fptr == old(fptr) + wcnt
      ensures Text() == Splice(old(Text()), old(fptr), data[..wcnt]) &&
              Evolved(old(chain), old(Space()), chain, Space())
      ensures wcnt == 0 ==> Full(Space()) && fptr == Start(L(), |chain|)
      ensures Aside(fs.g, chain, old(SnapOf(fs)), SnapOf(fs))
    {
      hide Sane, Text, Table, Ci, Co, Room, Loc, ClusterBase, Evolved, Full, Loose, Tidy, Tight, Cursor, Aside, SnapOf;
      SaneBasics();
      WithinSize();
      EvolvedRefl(chain, Space());
      SaneSnap();
      AsideRefl(fs.g, chain, SnapOf(fs));
      var csect := Co(L(), fptr / 512);
      if csect == 0 {
        var ok := ClusterForWrite();
        if !ok { return 0; }
      } else {
        InsideCluster();
      }
      ghost var mid := SnapOf(fs);
      wcnt := StoreAt(data);
      AsideTrans(fs.g, chain, chain, old(SnapOf(fs)), mid, SnapOf(fs));
    }

    /** The transfer of such a round, once its cluster is known: whole sectors directly, the rest through the buffer. */
    method StoreAt(data: seq<byte>) returns (wcnt: nat)
      requires Sane() && fptr % 512 == 0 && Ci(L(), fptr / 512) < |chain| && clust == chain[Ci(L(), fptr / 512)] &&
               Loose(Ci(L(), fptr / 512))
      requires data != [] && fptr <= objsize && fptr + |data| <= MaxSize(fs.g.kind)
      modifies this`sect, this`held, this`dirty, this`fptr, this`objsize, buf, fs`disk
      ensures Valid() && 0 < wcnt <= |data| && fptr == old(fptr) + wcnt
      ensures Text() == Splice(old(Text()), old(fptr), data[..wcnt]) && Table() == old(Table())
      ensures Aside(fs.g, chain, old(SnapOf(fs)), SnapOf(fs))
    {
      hide Sane, Text, Table, Ci, Co, Room, Loc, ClusterBase, Loose, Tidy, Tight, Cursor, Aside, SnapOf;
      SaneBasics();
      FlushText();
      ghost var mid := SnapOf(fs);
      WholeLoc(fptr / 512, 1);
      var csect := Co(L(), fptr / 512);
      var s := ClusterBase(L(), clust) + csect;
      var cc := |data| / 512;
      if cc > 0 {
        if csect + cc > fs.g.csize { cc := fs.g.csize - csect; }
        wcnt := 512 * cc;
        WriteWhole(cc, data[..wcnt]);
        AsideTrans(fs.g, chain, chain, old(SnapOf(fs)), mid, SnapOf(fs));
      } else {
        if sect != s && fptr < objsize { LoadText(s, fptr / 512); }
        if sect == s { SectorTells(fptr / 512); }
        wcnt := |data|;
        WritePart(s, data[..wcnt]);
      }
    }

    lemma WithinSize()
      requires Valid()
      ensures fptr <= objsize
    {
    }

    /** A cursor on a sector boundary inside a cluster. */
    lemma InsideCluster()
      requires Valid() && fptr % 512 == 0 && Co(L(), fptr / 512) != 0
      ensures Ci(L(), fptr / 512) < |chain| && clust == chain[Ci(L(), fptr / 512)] && Loose(Ci(L(), fptr / 512))
    {
      hide Ci, Co, Room, Loc;
      IndexZero(L());
      if fptr > 0 { IndexBefore(L(), fptr); }
    }

    method FlushText()
      requires Sane()
      modifies this`dirty, fs`disk
      ensures Sane() && !dirty && Text() == old(Text()) && Table() == old(Table())
      ensures Aside(fs.g, chain, old(SnapOf(fs)), SnapOf(fs))
    {
      hide Sane, Aside, SnapOf;
      SaneParts();
      Flush();
      SaneParts();
    }

    method LoadText(s: u32, ghost q: nat)
      requires Sane() && !dirty && Ci(L(), q) < |chain| && s == Loc(L(), chain, q)
      modifies buf, this`sect, this`held
      ensures Sane() && Text() == old(Text()) && Table() == old(Table()) && held == q && sect == s
    {
      hide Sane, Ci, Loc;
      SaneBasics();
      SaneParts();
      Load(s, q);
      SaneParts();
    }

    /** An exFAT file cannot come near the 64-bit limit: its clusters are too few. */
    lemma SizeBound()
      requires Sane()
      ensures fs.g.kind.EXFAT? ==> objsize <= 0x80_0000_0000_0000
    {
      SaneBasics();
      LinkedRange(fs.g, fs.Fat(), TableOf(fs), obj.Fields(), chain);
      DistinctFit(chain, Below(fs.g.nFatent));
      if objsize > 0 { RoomBound(L(), |chain|, objsize); }
    }

    /** What is left of a request after the clip keeps the position within the largest file. */
    lemma ClipFits(btw: nat)
      requires Valid() && btw < 0x1_0000_0000
      ensures fptr <= objsize && fptr <= MaxSize(fs.g.kind)
      ensures fptr + ClipWrite(fs.g.kind, fptr, btw) <= MaxSize(fs.g.kind)
      ensures !fs.g.kind.EXFAT? ==> MaxSize(fs.g.kind) == 0xFFFF_FFFF
    {
      hide ClipWrite, Sane;
      SaneBasics();
      SizeBound();
    }

    /** f_write: splices `data` in at fptr; fewer bytes only at the 4 GiB limit or when no cluster is free. */
    method Write(data: seq<byte>) returns (res: Access, bw: nat)
      requires Valid() && |data| < 0x1_0000_0000
      modifies this, buf, fs, fs.win, obj
      ensures Valid() && res == if canWrite then DONE else DENIED
      ensures bw <= |data| && Text() == Splice(old(Text()), old(fptr), data[..bw]) && fptr == old(fptr) + bw
      ensures Evolved(old(chain), old(Space()), chain, Space())
      ensures res == DENIED ==> bw == 0
      ensures res == DONE && fs.g.kind.EXFAT? && bw < |data| ==> Full(Space()) && fptr == Start(L(), |chain|)
      ensures res == DONE && !fs.g.kind.EXFAT? ==> fptr <= 0xFFFF_FFFF
      ensures res == DONE && !fs.g.kind.EXFAT? && bw < |data| && fptr < 0xFFFF_FFFF ==>
              Full(Space()) && fptr == Start(L(), |chain|)
      ensures Aside(fs.g, chain, old(SnapOf(fs)), SnapOf(fs))
    {
      hide Sane, Text, Table, Splice, Evolved, Full, Aside, SnapOf, Start, Cursor, Tidy, ClipWrite,
        MaxSize;
      SaneBasics();
      EvolvedRefl(chain, Space());
      SaneSnap();
      AsideRefl(fs.g, chain, SnapOf(fs));
      ClipFits(|data|);
      SpliceNothing(Text(), fptr);
      bw := 0;
      if !canWrite { return DENIED, 0; }
      var btw := ClipWrite(fs.g.kind, fptr, |data|);
      var full := false;
      while bw < btw && !full
        invariant Valid() && bw <= btw && Text() == Splice(old(Text()), old(fptr), data[..bw]) && fptr == old(fptr) + bw
        invariant Evolved(old(chain), old(Space()), chain, Space()) && old(fptr) + btw <= MaxSize(fs.g.kind)
        invariant Aside(fs.g, chain, old(SnapOf(fs)), SnapOf(fs))
        invariant full ==> Full(Space()) && fptr == Start(L(), |chain|)
        decreases !full, btw - bw
      {
        ghost var chain1, space1, mid := chain, Space(), SnapOf(fs);
        var wcnt := WriteRound(data[bw..btw]);
        SaneBasics();
        SpliceTwice(old(Text()), old(fptr), data[..bw], data[bw..btw][..wcnt]);
        SliceJoin(data, bw, btw, wcnt);
        EvolvedPrefix(chain1, space1, chain, Space());
        AsideTrans(fs.g, chain1, chain, old(SnapOf(fs)), mid, SnapOf(fs));
        EvolvedTrans(old(chain), old(Space()), chain1, space1, chain, Space());
        full := wcnt == 0;
        bw := bw + wcnt;
      }
      res := DONE;
    }

    // ---------- seeking ----------

    /** The file grew at its end at most; what was there is as before. */
    twostate predicate Kept()
      requires old(Sane())
      reads `sclust, `objsize, `sect, `dirty, `chain, `held, buf, fs`disk, fs`winsect, fs`wflag, fs`mirror, fs`freeClst,
            fs.win, obj`stat, obj`sclust, obj`nCont, obj`nFrag
    {
      && Sane() && objsize >= old(objsize) && Text()[..old(objsize)] == old(Text())
      && Evolved(old(chain), old(Space()), chain, Space()) && Aside(fs.g, chain, old(SnapOf(fs)), SnapOf(fs))
    }

    /** Raises the file size to a position the chain has room for. */
    method RaiseSize(size: nat)
      requires Sane() && objsize <= size <= MaxSize(fs.g.kind) && Room(L(), |chain|, size)
      modifies this`objsize
      ensures Kept() && objsize == size && Table() == old(Table())
    {
      hide Ready, Ci, Co, Loc, Room, Content, Linked, FatVolume.Volume.Fat, Aside, SnapOf;
      SaneParts();
      SaneBasics();
      EvolvedRefl(chain, Space());
      SaneSnap();
      AsideRefl(fs.g, chain, SnapOf(fs));
      ContentPrefix(L(), Disk(), chain, objsize, size);
      objsize := size;
    }

    /**
     * The writing branch of f_lseek's loop: fptr has moved to the end of the cluster of index `k`, which is stretched.
     */
    method SeekStretch(ghost k: nat) returns (full: bool)
      requires Sane() && fptr == Start(L(), k + 1) && k < |chain| && clust == chain[k] && clust != 0 &&
               fptr <= MaxSize(fs.g.kind) && Loose(k)
      modifies this`clust, this`objsize, this`sclust, this`chain, fs, fs.win, obj
      ensures Kept() && objsize == (if fptr > old(objsize) then fptr else old(objsize))
      ensures !full ==> k + 1 < |chain| && clust == chain[k + 1] && Loose(k + 1)
      ensures full ==> |chain| == k + 1 && clust == chain[k] && Tidy(k) && Full(Space())
      ensures k + 1 < |old(chain)| && fptr <= old(objsize) ==>
              !full && chain == old(chain) && Text() == old(Text()) && Space() == old(Space())
    {
      hide Sane, Text, Table, Room, Evolved, Start, Full, Taken, Tight, Aside, SnapOf;
      SaneParts();
      SaneBasics();
      EvolvedRefl(chain, Space());
      SaneSnap();
      AsideRefl(fs.g, chain, SnapOf(fs));
      assert Text()[..objsize] == Text();
      if fptr > objsize {
        RoomAt(L(), |chain|, k + 1);
        RaiseSize(fptr);
      }
      StartNext(L(), k);
      StartIndex(L(), k, fptr - 1);
      if fs.g.kind.EXFAT? { TightAfter(L(), |chain|, old(objsize), fptr); }
      ghost var chain1, space1 := chain, Space();
      var c := clust;
      var clst := Stretch(c, k);
      StretchEvolves(chain1, space1, Space(), c, k, clst);
      full := clst == 0;
      if !full { clust := clst; }
    }

    /**
     * One round of the cluster following loop of f_lseek, from the cluster of index `k`; `full` when it cannot be left.
     */
    method SeekRound(target: nat, ghost k: nat) returns (full: bool)
      requires Sane() && fptr == Start(L(), k) && k < |chain| && clust == chain[k] && Loose(k)
      requires Start(L(), k) + ClusterBytes(L()) < target <= MaxSize(fs.g.kind) && (!canWrite ==> target <= objsize)
      modifies this`clust, this`fptr, this`objsize, this`sclust, this`chain, fs, fs.win, obj
      ensures Kept() && fptr == Start(L(), k + 1) && objsize == (if fptr > old(objsize) then fptr else old(objsize))
      ensures !full ==> k + 1 < |chain| && clust == chain[k + 1] && Loose(k + 1)
      ensures full ==> |chain| == k + 1 && clust == chain[k] && Tidy(k) && Full(Space())
      ensures target <= old(objsize) ==>
              !full && chain == old(chain) && Text() == old(Text()) && Space() == old(Space())
    {
      hide Sane, Text, Table, Room, Evolved, Start, ClusterBytes, Stretched, Full, Aside, SnapOf;
      SaneParts();
      SaneBasics();
      StartNext(L(), k);
      SaneSnap();
      AsideRefl(fs.g, chain, SnapOf(fs));
      if objsize > Start(L(), k + 1) { RoomWithin(L(), |chain|, objsize, k + 1); }
      fptr := fptr + ClusterBytes(L());
      if canWrite {
        full := SeekStretch(k);
      } else {
        EvolvedRefl(chain, Space());
        assert Text()[..objsize] == Text();
        clust := NextCluster(clust, k);
        full := false;
      }
    }

    /**
     * fill_last_frag at the start of f_lseek: what is pending of the chain goes to the FAT, the file does not change.
     */
    method FlushFragment()
      requires Valid()
      modifies fs`disk, fs`wflag, fs`mirror, fs`winsect, fs.win, obj`nFrag
      ensures Valid() && Text() == old(Text()) && Table() == old(Table()) && (fs.g.kind.EXFAT? ==> obj.nFrag == 0)
      ensures Aside(fs.g, chain, old(SnapOf(fs)), SnapOf(fs))
    {
      hide Ci, Co, Loc, Room, Linked, WindowOff, TableOf, Ready, Content, Tight, Aside, SnapOf;
      SaneBasics();
      ghost var d := Disk();
      FlushOn(fs, obj, clust, chain);
      EffectiveAgrees(fs.g, chain, old(fs.disk), fs.disk, dirty, sect, buf[..]);
      ContentSame(L(), d, Disk(), chain, objsize);
    }

    /**
     * Where f_lseek starts: the current cluster when seeking in it or forward, else the first, allocated if missing.
     */
    method SeekStart(target: nat) returns (ok: bool, ghost k: nat)
      requires Valid() && (fs.g.kind.EXFAT? ==> obj.nFrag == 0) && 0 < target <= MaxSize(fs.g.kind) &&
               (!canWrite ==> target <= objsize)
      modifies this`clust, this`fptr, this`sclust, this`chain, fs, fs.win, obj
      ensures Kept() && objsize == old(objsize) && Text() == old(Text())
      ensures ok ==> k < |chain| && clust == chain[k] && fptr == Start(L(), k) && fptr < target && Loose(k)
      ensures !ok ==> fptr == 0 && chain == [] && Tidy(-1) && Full(Space())
      ensures target <= objsize ==> ok && chain == old(chain) && Space() == old(Space())
    {
      hide Sane, Text, Table, Room, Ci, Co, Evolved, Start, ClusterBytes, Full, Taken, Tight, Aside, SnapOf;
      SaneParts();
      SaneBasics();
      StartNext(L(), 0);
      EvolvedRefl(chain, Space());
      SaneSnap();
      AsideRefl(fs.g, chain, SnapOf(fs));
      assert Text()[..objsize] == Text();
      if target <= objsize { RoomWithin(L(), |chain|, objsize, 0); }
      SeekIndex(target);
      var bcs := ClusterBytes(L());
      ok, k := true, 0;
      if fptr > 0 && (target - 1) / bcs >= (fptr - 1) / bcs {
        k := Ci(L(), (fptr - 1) / 512);
        fptr := (fptr - 1) / bcs * bcs;
      } else {
        fptr := 0;
        ok := SeekFirst();
      }
    }

    /** Goes to the first cluster, which is allocated if the file has none. */
    method SeekFirst() returns (ok: bool)
      requires Sane() && Tidy(-1)
      modifies this`clust, this`sclust, this`chain, fs, fs.win, obj
      ensures Sane() && Text() == old(Text()) && Evolved(old(chain), old(Space()), chain, Space()) &&
              Aside(fs.g, chain, old(SnapOf(fs)), SnapOf(fs))
      ensures ok ==> chain != [] && clust == chain[0] && Loose(0)
      ensures !ok ==> chain == [] && Tidy(-1) && Full(Space())
      ensures old(chain) != [] ==> ok && chain == old(chain) && Space() == old(Space())
    {
      hide Sane, Text, Table, Evolved, Full, Taken, Tight, Aside, SnapOf;
      SaneBasics();
      FirstCluster();
      EvolvedRefl(chain, Space());
      SaneSnap();
      AsideRefl(fs.g, chain, SnapOf(fs));
      clust := sclust;
      if clust == 0 {
        clust := Stretch(0, 0);
        StretchEvolves(old(chain), old(Space()), Space(), 0, 0, clust);
      }
      ok := clust != 0;
    }

    lemma FirstCluster()
      requires Sane()
      ensures if sclust == 0 then chain == [] else chain != [] && sclust == chain[0]
    {
    }

    /** Seeking from the current cluster is allowed exactly when the target is not before it. */
    lemma SeekIndex(target: nat)
      requires Valid() && 0 < target
      ensures ClusterBytes(L()) > 0 &&
              (fptr > 0 ==> Ci(L(), (fptr - 1) / 512) < |chain| && clust == chain[Ci(L(), (fptr - 1) / 512)])
      ensures fptr > 0 && (target - 1) / ClusterBytes(L()) >= (fptr - 1) / ClusterBytes(L()) ==>
                Start(L(), Ci(L(), (fptr - 1) / 512)) < target
      ensures fptr > 0 ==> (fptr - 1) / ClusterBytes(L()) * ClusterBytes(L()) == Start(L(), Ci(L(), (fptr - 1) / 512))
    {
      hide Ci, Room, Loc, Sane, Tidy, Tight;
      SaneBasics();
      StartNext(L(), 0);
      if fptr > 0 {
        IndexByBytes(L(), fptr - 1);
        IndexByBytes(L(), target - 1);
        MulMono(ClusterBytes(L()), (fptr - 1) / ClusterBytes(L()), (target - 1) / ClusterBytes(L()));
      }
    }

    /** The cluster following loop of f_lseek. */
    method SeekWalk(target: nat, ghost from: nat) returns (full: bool, ghost k: nat)
      requires Sane() && from < |chain| && clust == chain[from] && fptr == Start(L(), from) &&
               fptr < target <= MaxSize(fs.g.kind) && Loose(from)
      requires !canWrite ==> target <= objsize
      modifies this`clust, this`fptr, this`objsize, this`sclust, this`chain, fs, fs.win, obj
      ensures Kept() && k < |chain| && clust == chain[k]
      ensures !full ==> fptr == Start(L(), k) && fptr < target <= fptr + ClusterBytes(L()) && Loose(k)
      ensures full ==> Tidy(k) && |chain| == k + 1 && fptr == Start(L(), k + 1) && fptr < target && Full(Space())
      ensures full ==> objsize == (if fptr > old(objsize) then fptr else old(objsize))
      ensures !full ==> objsize <= (if target > old(objsize) then target else old(objsize))
      ensures target <= old(objsize) ==>
              !full && chain == old(chain) && objsize == old(objsize) && Text() == old(Text()) &&
              Space() == old(Space())
    {
      hide Sane, Text, Table, Evolved, Start, ClusterBytes, Full, Aside, SnapOf;
      SaneBasics();
      EvolvedRefl(chain, Space());
      SaneSnap();
      AsideRefl(fs.g, chain, SnapOf(fs));
      assert Text()[..objsize] == Text();
      k, full := from, false;
      while !full && target - fptr > ClusterBytes(L())
        invariant Kept() && k < |chain| && clust == chain[k] && (!canWrite ==> target <= objsize) && fptr < target
        invariant !full ==> fptr == Start(L(), k) && Loose(k)
        invariant full ==> Tidy(k)
        invariant objsize <= (if target > old(objsize) then target else old(objsize))
        invariant full ==> |chain| == k + 1 && fptr == Start(L(), k + 1) && Full(Space())
        invariant full ==> objsize == (if fptr > old(objsize) then fptr else old(objsize))
        invariant !full ==> objsize == old(objsize) || objsize == fptr
        invariant target <= old(objsize) ==>
                  !full && chain == old(chain) && objsize == old(objsize) && Text() == old(Text()) &&
                  Space() == old(Space())
        decreases !full, target - fptr
      {
        ghost var chain1, space1, text1, mid := chain, Space(), Text(), SnapOf(fs);
        StartNext(L(), k);
        full := SeekRound(target, k);
        SaneBasics();
        EvolvedPrefix(chain1, space1, chain, Space());
        AsideTrans(fs.g, chain1, chain, old(SnapOf(fs)), mid, SnapOf(fs));
        EvolvedTrans(old(chain), old(Space()), chain1, space1, chain, Space());
        PrefixOfPrefix(Text(), text1, old(Text()));
        if !full { k := k + 1; }
      }
    }
    lemma LandIndex(target: nat, k: nat)
      requires Sane() && k < |chain| && Start(L(), k) < target <= Start(L(), k) + ClusterBytes(L())
      ensures Ci(L(), (target - 1) / 512) == k && Room(L(), |chain|, target)
      ensures target % 512 == (target - Start(L(), k)) % 512
      ensures target % 512 != 0 ==>
              Ci(L(), target / 512) == k && Co(L(), target / 512) == (target - Start(L(), k)) / 512
    {
      hide Sane, Ci, Co, Start, ClusterBytes;
      SaneBasics();
      LandAt(L(), k, target);
    }

    /** The end of f_lseek: sets fptr, the size and the sector buffer once the cluster is found. */
    method SeekLand(target: nat, ghost k: nat)
      requires Sane() && k < |chain| && clust == chain[k] && fptr == Start(L(), k) && target <= MaxSize(fs.g.kind) &&
               Loose(k)
      requires fptr < target <= fptr + ClusterBytes(L())
      modifies this`fptr, this`objsize, this`dirty, this`sect, this`held, buf, fs`disk
      ensures Valid() && Kept() && fptr == target && objsize == (if target > old(objsize) then target else old(objsize))
      ensures target <= old(objsize) ==> Text() == old(Text())
      ensures Table() == old(Table())
    {
      hide Sane, Text, Table, Room, Ci, Co, Loc, Evolved, Start, ClusterBytes, ClusterBase, Tight, Aside, SnapOf;
      SaneBasics();
      SaneParts();
      LandIndex(target, k);
      EvolvedRefl(chain, Space());
      SaneSnap();
      AsideRefl(fs.g, chain, SnapOf(fs));
      assert Text()[..objsize] == Text();
      var ofs := target - fptr;
      fptr := target;
      if fptr > objsize { RaiseSize(fptr); }
      if fs.g.kind.EXFAT? { TightAfter(L(), |chain|, old(objsize), fptr); }
      if ofs % 512 != 0 {
        WholeLoc(fptr / 512, 1);
        Cache(ClusterBase(L(), clust) + ofs / 512, fptr / 512);
      }
    }

    /** f_lseek: moves fptr to `ofs`; past the end it stretches a writable file, as far as free clusters go. */
    method Seek(ofs: nat)
      requires Valid() && ofs <= 0xFFFF_FFFF_FFFF_FFFF
      modifies this, buf, fs, fs.win, obj
      ensures Valid() && Kept() && objsize == (if fptr > old(objsize) then fptr else old(objsize))
      ensures !canWrite ==> fptr == Min(ofs, old(objsize))
      ensures canWrite ==> var goal := if fs.g.kind.EXFAT? then ofs else Min(ofs, 0xFFFF_FFFF);
              fptr <= goal && (fptr < goal ==> Full(Space()) && fptr == Start(L(), |chain|))
      ensures ofs <= old(objsize) ==>
              fptr == ofs && Text() == old(Text()) && chain == old(chain) && Space() == old(Space())
    {
      hide Sane, Text, Table, Room, Ci, Co, Evolved, Start, ClusterBytes, Full, Aside, SnapOf;
      SaneBasics();
      EvolvedRefl(chain, Space());
      assert Text()[..objsize] == Text();
      FlushFragment();
      ghost var flushed := SnapOf(fs);
      var target := ClipSeek(fs.g.kind, ofs, objsize, canWrite);
      StartNext(L(), 0);
      if target == 0 {
        fptr := 0;
        return;
      }
      var ok, k := SeekStart(target);
      SaneBasics();
      EvolvedPrefix(old(chain), old(Space()), chain, Space());
      AsideTrans(fs.g, old(chain), chain, old(SnapOf(fs)), flushed, SnapOf(fs));
      if ok {
        ghost var chain1, space1, mid := chain, Space(), SnapOf(fs);
        SeekOn(target, k);
        SaneBasics();
        EvolvedPrefix(chain1, space1, chain, Space());
        AsideTrans(fs.g, chain1, chain, old(SnapOf(fs)), mid, SnapOf(fs));
        EvolvedTrans(old(chain), old(Space()), chain1, space1, chain, Space());
      }
    }

    /** Walking and landing, once a start cluster is known. */
    method SeekOn(target: nat, ghost from: nat)
      requires Sane() && from < |chain| && clust == chain[from] && fptr == Start(L(), from) &&
               fptr < target <= MaxSize(fs.g.kind) && Loose(from)
      requires !canWrite ==> target <= objsize
      modifies this, buf, fs, fs.win, obj
      ensures Valid() && Kept() && objsize == (if fptr > old(objsize) then fptr else old(objsize)) && fptr <= target
      ensures fptr < target ==> Full(Space()) && fptr == Start(L(), |chain|)
      ensures target <= old(objsize) ==>
              fptr == target && Text() == old(Text()) && chain == old(chain) && Space() == old(Space())
    {
      hide Sane, Text, Table, Room, Ci, Co, Evolved, Start, ClusterBytes, Full, Aside, SnapOf;
      var full, k := SeekWalk(target, from);
      SaneBasics();
      if full {
        FullCursor(k);
      } else {
        ghost var chain1, space1, text1, mid := chain, Space(), Text(), SnapOf(fs);
        SeekLand(target, k);
        SaneBasics();
        EvolvedPrefix(chain1, space1, chain, Space());
        AsideTrans(fs.g, chain1, chain, old(SnapOf(fs)), mid, SnapOf(fs));
        EvolvedTrans(old(chain), old(Space()), chain1, space1, chain, Space());
        PrefixOfPrefix(Text(), text1, old(Text()));
      }
    }

    lemma FullCursor(k: nat)
      requires Sane() && k < |chain| && clust == chain[k] && fptr == Start(L(), k + 1) && fptr <= objsize
      ensures Cursor() && Here() == k
    {
      hide Sane, Ci;
      SaneBasics();
      StartNext(L(), k);
      StartIndex(L(), k, fptr - 1);
      StartNext(L(), k + 1);
    }

    /** Two cursors at the same place of the same chain agree on cluster and, inside a sector, on the sector:
        it does not matter whether a seek started from the current cluster or from the first. */
    static lemma CursorDetermined(a: File, b: File)
      requires a.Valid() && b.Valid() && a.fs == b.fs && a.chain == b.chain && a.fptr == b.fptr
      ensures a.fptr > 0 ==> a.clust == b.clust
      ensures a.fptr % 512 != 0 ==> a.sect == b.sect
    {
      hide Ci, Loc, Room;
    }

    lemma SaneParts()
      requires Sane()
      ensures buf.Length == 512 && Placed(L(), chain, fs.g.sectors) && Room(L(), |chain|, objsize)
      ensures |fs.disk| == fs.g.sectors && (!dirty ==> Disk() == fs.disk)
    {
    }

    lemma SaneSnap()
      requires Sane()
      ensures SnapOk(fs.g, SnapOf(fs))
    {
    }

    lemma SaneRange()
      requires Sane()
      ensures Apart(fs.g, chain) && fs.g.Ok()
    {
      LinkedRange(fs.g, fs.Fat(), TableOf(fs), obj.Fields(), chain);
    }

    lemma SaneBasics()
      requires Sane()
      ensures buf.Length == 512 && fs.g.csize > 0 && |fs.disk| == fs.g.sectors < 0xFFFF_FFFF && buf != fs.win
      ensures |Table()| == fs.g.nFatent && objsize <= MaxSize(fs.g.kind)
      ensures forall i | 0 <= i < |chain| :: chain[i] != 0
      ensures forall i, j | 0 <= i < j < |chain| :: chain[i] != chain[j]
      ensures fs.g.kind.EXFAT? && chain == [] ==> obj.nFrag == 0
    {
    }
  }

  /** The same buffer over agreeing disks gives agreeing disks. */
  lemma EffectiveAgrees(g: Geometry, chain: seq<nat>, d: seq<Sector>, e: seq<Sector>, dirty: bool, sect: nat,
      buf: Sector)
    requires Placed(LayoutOf(g), chain, |d|) && AgreeOn(LayoutOf(g), chain, d, e)
    ensures AgreeOn(LayoutOf(g), chain, Effective(d, dirty, sect, buf), Effective(e, dirty, sect, buf))
  {
  }

  /** The free count once `k` clusters were taken: lower by them, unless it is unknown. */
  ghost predicate Spent(p: Pool, p': Pool, k: nat) {
    if p.free <= |p.table| - 2 then k <= p.free && p'.free == p.free - k else p'.free == p.free
  }

  /**
   * Along a run of writes the chain only grows, by clusters that were free and are counted, and no other table entry
   * changes.
   */
  ghost predicate Evolved(chain: seq<nat>, p: Pool, chain': seq<nat>, p': Pool) {
    && chain <= chain' && |p'.table| == |p.table| && Spent(p, p', |chain'| - |chain|)
    && (forall c | 0 <= c < |p.table| && c !in chain' :: p'.table[c] == p.table[c])
    && (forall i | |chain| <= i < |chain'| :: 2 <= chain'[i] < |p.table| && p.table[chain'[i]] == 0)
  }

  lemma EvolvedPrefix(chain: seq<nat>, p: Pool, chain': seq<nat>, p': Pool)
    requires Evolved(chain, p, chain', p')
    ensures chain <= chain'
  {
  }

  /** Storing own sectors only. */
  lemma AsideStored(g: Geometry, own: seq<nat>, a: Snap, b: Snap, s: nat, cc: nat)
    requires SnapOk(g, a) && SnapOk(g, b) && b.winsect == a.winsect && b.win == a.win
    requires forall x | 0 <= x < |a.disk| && !(s <= x < s + cc) :: b.disk[x] == a.disk[x]
    requires forall x: nat | s <= x < s + cc :: Own(g, own, x) && x >= g.database
    ensures Aside(g, own, a, b)
  {
    hide Own, Aside;
    AsideData(g, own, a, b);
  }

  lemma EvolvedRefl(chain: seq<nat>, p: Pool)
    ensures Evolved(chain, p, chain, p)
  {
  }

  lemma EvolvedTrans(c0: seq<nat>, p0: Pool, c1: seq<nat>, p1: Pool, c2: seq<nat>, p2: Pool)
    requires Evolved(c0, p0, c1, p1) && Evolved(c1, p1, c2, p2) && (forall i, j | 0 <= i < j < |c2| :: c2[i] != c2[j])
    ensures Evolved(c0, p0, c2, p2)
  {
    forall i | |c0| <= i < |c2| ensures 2 <= c2[i] < |p0.table| && p0.table[c2[i]] == 0 {
      if i < |c1| {
        assert c2[i] == c1[i];
      } else {
        assert forall j | 0 <= j < |c1| :: c1[j] == c2[j] && c2[j] != c2[i];
        assert c2[i] !in c1;
      }
    }
  }

  lemma SliceJoin(data: seq<byte>, a: nat, b: nat, w: nat)
    requires a <= b <= |data| && w <= b - a
    ensures data[..a] + data[a..b][..w] == data[..a + w]
  {
  }

  /** How much f_write may transfer: on FAT12/16/32 the file pointer must not pass 4 GiB - 1. */
  function ClipWrite(kind: Kind, fptr: nat, btw: nat): (r: nat)
    requires fptr <= MaxSize(kind) && btw < 0x1_0000_0000
    ensures r == if kind.EXFAT? then btw else Min(btw, 0xFFFF_FFFF - fptr)
  {
    if !kind.EXFAT? && (fptr + btw) % 0x1_0000_0000 < fptr then 0xFFFF_FFFF - fptr else btw
  }

  /** The offset f_lseek aims for: below 4 GiB on FAT12/16/32, and within the file unless it may be written. */
  function ClipSeek(kind: Kind, ofs: nat, size: nat, writable: bool): (r: nat)
    requires size <= MaxSize(kind) && ofs <= 0xFFFF_FFFF_FFFF_FFFF
    ensures r <= MaxSize(kind)
    ensures r == if !writable then Min(ofs, size) else if kind.EXFAT? then ofs else Min(ofs, 0xFFFF_FFFF)
  {
    var o := if !kind.EXFAT? && ofs >= 0x1_0000_0000 then 0xFFFF_FFFF else ofs;
    if o > size && !writable then size else o
  }

  lemma RoomBound(l: Layout, n: nat, size: nat)
    requires 0 < l.csize <= 0x8000 && size > 0 && Room(l, n, size) && n <= 0x8000_0000
    ensures size <= 0x80_0000_0000_0000
  {
    var q := (size - 1) / 512;
    QuotRem(q, l.csize);
    MulMono(l.csize, q / l.csize, 0x8000_0000);
    MulMono(0x8000_0000, l.csize, 0x8000);
    assert l.csize * 0x8000_0000 == 0x8000_0000 * l.csize;
  }

  /**
   * Data up to `f` in the last cluster, or anywhere in a file that needs all its clusters, leaves it needing all of
   * them.
   */
  lemma TightAfter(l: Layout, n: nat, size: nat, f: nat)
    requires l.csize > 0 && 0 < f && Ci(l, (f - 1) / 512) < n && Room(l, n, size) &&
             (Tight(l, n, size) || Ci(l, (f - 1) / 512) + 1 == n)
    ensures Tight(l, n, if f > size then f else size)
  {
    if f > size {
      if size > 0 { DivMono((size - 1) / 512, (f - 1) / 512, l.csize); }
    } else {
      DivMono((f - 1) / 512, (size - 1) / 512, l.csize);
    }
  }

  lemma PrefixOfPrefix(a: seq<byte>, b: seq<byte>, c: seq<byte>)
    requires |c| <= |b| <= |a| && a[..|b|] == b && b[..|c|] == c
    ensures a[..|c|] == c
  {
  }

  lemma SpliceNothing(s: seq<byte>, f: nat)
    requires f <= |s|
    ensures Splice(s, f, []) == s
  {
  }

  /** The same by the extended chain: what follows the place is `r`, or the place is the end and the volume full. */
  lemma StretchOutcome(chain: seq<nat>, p: Pool, p': Pool, c: nat, i: nat, r: nat)
    requires Stretched(chain, p, p', c, i, r) && (if c == 0 then chain == [] else i < |chain|)
    ensures Evolved(chain, p, Extended(chain, c, i, r), p')
    ensures r == 0 ==> Extended(chain, c, i, r) == chain && Full(p') && |chain| == if c == 0 then 0 else i + 1
    ensures r != 0 ==> var e, j := Extended(chain, c, i, r), if c == 0 then 0 else i + 1;
            j < |e| && e[j] == r && if AtEnd(chain, c, i) then |e| == |chain| + 1 == j + 1 else e == chain
  {
    StretchEvolves(chain, p, p', c, i, r);
  }

  lemma StretchEvolves(chain: seq<nat>, p: Pool, p': Pool, c: nat, i: nat, r: nat)
    requires Stretched(chain, p, p', c, i, r)
    ensures Evolved(chain, p, if r != 0 && AtEnd(chain, c, i) then chain + [r] else chain, p')
  {
  }

  lemma HoldsParts(fs: Volume, o: LazyChain.Lazy, chain: seq<nat>)
    requires Holds(fs, o, chain)
    ensures Ready(fs) && Placed(LayoutOf(fs.g), chain, fs.g.sectors) && WindowOff(fs, chain)
    ensures Linked(fs.g, fs.Fat(), TableOf(fs), o, chain)
  {
  }

  lemma HoldsFrom(fs: Volume, o: LazyChain.Lazy, chain: seq<nat>)
    requires Ready(fs) && Linked(fs.g, fs.Fat(), TableOf(fs), o, chain)
    requires Placed(LayoutOf(fs.g), chain, fs.g.sectors) && WindowOff(fs, chain)
    ensures Holds(fs, o, chain)
  {
  }

  lemma HoldsPlaced(fs: Volume, o: LazyChain.Lazy, chain: seq<nat>)
    requires Holds(fs, o, chain)
    ensures |fs.disk| == fs.g.sectors && Placed(LayoutOf(fs.g), chain, fs.g.sectors) && Ready(fs)
  {
  }

  /** Everything a handle keeps when its chain is lengthened by `r`. */
  lemma GrowFacts(l: Layout, disk: seq<Sector>, chain: seq<nat>, r: nat, size: nat, held: int)
    requires Placed(l, chain, |disk|) && Placed(l, chain + [r], |disk|) && Room(l, |chain|, size)
    ensures Room(l, |chain| + 1, size) && Content(l, disk, chain + [r], size) == Content(l, disk, chain, size)
    ensures held >= 0 && Ci(l, held) < |chain| ==> Loc(l, chain + [r], held) == Loc(l, chain, held)
  {
    hide Ci, Loc, Content, ClusterBase;
    assert (chain + [r])[|chain|] == r;
    ContentGrow(l, disk, chain, r, size);
    if held >= 0 && Ci(l, held) < |chain| { SameLoc(l, chain, r, held); }
  }
}
