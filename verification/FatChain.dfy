/** create_chain and remove_chain on a mounted FAT12/16/32 volume, against the transitions of ChainSpec. */
module FatChain {
  import opened Bytes
  import opened FatTable
  import opened FatVolume
  import opened ChainSpec

  /** The allocator state a FAT12/16/32 volume holds. */
  ghost function AllocOf(fs: Volume): (a: Alloc)
    requires fs.Valid()
    reads fs, fs.win
    ensures a.Ok() && |a.fat| == fs.g.nFatent
  {
    Alloc(fs.Fat(), fs.freeClst, fs.lastClst, Width(fs.g.kind) - 1)
  }

  /** One round of the search loop of create_chain; `at` is the cluster looked at last. */
  method ScanRound(fs: Volume, scl: u32, at: u32, ghost j: nat) returns (stop: bool, ncl: u32)
    requires fs.Valid() && !fs.g.kind.EXFAT? && 1 <= scl < fs.g.nFatent
    requires j <= fs.g.nFatent - 2 && (j == fs.g.nFatent - 2 ==> scl == 1)
    requires at == if j == 0 then scl else Visit(fs.g.nFatent, scl, j - 1)
    modifies fs`disk, fs`wflag, fs`mirror, fs`winsect, fs.win
    ensures fs.Moved() && fs.Fat() == old(fs.Fat())
    ensures stop ==> ncl == Scan(fs.Fat(), scl, j) || (!fs.reliable && ncl == DISK_FAULT)
    ensures !stop ==> j < fs.g.nFatent - 2 && ncl == Visit(fs.g.nFatent, scl, j)
    ensures !stop ==> (j == fs.g.nFatent - 3 ==> scl == 1) && Scan(fs.Fat(), scl, j) == Scan(fs.Fat(), scl, j + 1)
  {
    VisitStep(fs.g.nFatent, scl, j);
    hide Visit, FatVolume.Volume.View, FatVolume.Volume.Fat, FatVolume.Mirrored;
    ncl := at + 1;
    stop := true;
    if ncl >= fs.g.nFatent {
      ncl := 2;
      if ncl > scl { return true, 0; }
    }
    var cs := fs.GetFat(ncl);
    if cs == 1 || cs == DISK_FAULT { ncl := cs; }
    else if cs != 0 {
      if ncl == scl { ncl := 0; } else { stop := false; }
    }
  }

  /** The search loop of create_chain, from cluster `scl`. */
  method ScanForFree(fs: Volume, scl: u32) returns (ncl: u32)
    requires fs.Valid() && !fs.g.kind.EXFAT? && 1 <= scl < fs.g.nFatent
    modifies fs`disk, fs`wflag, fs`mirror, fs`winsect, fs.win
    ensures fs.Moved() && fs.Fat() == old(fs.Fat())
    ensures ncl == Scan(fs.Fat(), scl, 0) || (!fs.reliable && ncl == DISK_FAULT)
  {
    hide Visit, FatVolume.Volume.View, FatVolume.Volume.Fat, FatVolume.Mirrored;
    ghost var fat := fs.Fat();
    ghost var j := 0;
    ncl := scl;
    var stop := false;
    while !stop
      invariant fs.Moved() && fs.Fat() == fat
      invariant !stop ==> j <= fs.g.nFatent - 2 && (j == fs.g.nFatent - 2 ==> scl == 1)
      invariant !stop ==> ncl == if j == 0 then scl else Visit(fs.g.nFatent, scl, j - 1)
      invariant !stop ==> Scan(fat, scl, 0) == Scan(fat, scl, j)
      invariant stop ==> ncl == Scan(fat, scl, 0) || (!fs.reliable && ncl == DISK_FAULT)
      decreases !stop, fs.g.nFatent - j
    {
      stop, ncl := ScanRound(fs, scl, ncl, j);
      j := j + 1;
    }
  }

  /** The part of create_chain that settles on a cluster, or on 0 (full), 1 (corrupt) or a disk error. */
  method ChooseCluster(fs: Volume, clst: u32) returns (ncl: u32)
    requires fs.Valid() && !fs.g.kind.EXFAT? && (clst == 0 || 2 <= clst < fs.g.nFatent)
    modifies fs`disk, fs`wflag, fs`mirror, fs`winsect, fs.win
    ensures fs.Moved() && fs.Fat() == old(fs.Fat())
    ensures ncl == Pick(AllocOf(fs), clst) || (!fs.reliable && ncl == DISK_FAULT)
  {
    hide Scan, FatVolume.Volume.View, FatVolume.Volume.Fat, FatVolume.Mirrored;
    if fs.freeClst == 0 { return 0; }
    var scl := clst;
    if clst == 0 {
      scl := if fs.lastClst == 0 || fs.lastClst >= fs.g.nFatent then 1 else fs.lastClst;
    } else {
      ncl := if clst + 1 >= fs.g.nFatent then 2 else clst + 1;
      var cs := fs.GetFat(ncl);
      if cs == 0 { return; }
      if cs == 1 || cs == DISK_FAULT { return cs; }
      if 2 <= fs.lastClst < fs.g.nFatent { scl := fs.lastClst; }
    }
    ncl := ScanForFree(fs, scl);
  }

  /** Marks `ncl` as the end of a chain and links it behind `clst` when that is not 0. */
  method TakeCluster(fs: Volume, clst: u32, ncl: u32) returns (res: Fresult)
    requires fs.Valid() && !fs.g.kind.EXFAT? && (clst == 0 || 2 <= clst < fs.g.nFatent) && 2 <= ncl < fs.g.nFatent
    modifies fs`disk, fs`wflag, fs`mirror, fs`winsect, fs.win
    ensures fs.FatsTouched() && res != INT_ERR
    ensures res == OK ==> fs.Fat() == Linkage(old(AllocOf(fs)), clst, ncl) && fs.g.InFat(fs.winsect)
    ensures fs.reliable ==> res == OK
  {
    EndMark(fs.g.kind);
    hide Mask, Width, FatTable.MaxClusters, FatVolume.Volume.View, FatVolume.Volume.Fat, FatVolume.Mirrored;
    res := fs.PutFat(ncl, 0xFFFF_FFFF);
    if res == OK && clst != 0 {
      res := fs.PutFat(clst, ncl);
    }
  }

  /** The allocating half of create_chain. */
  method AllocateCluster(fs: Volume, clst: u32) returns (ncl: u32)
    requires fs.Valid() && !fs.g.kind.EXFAT? && (clst == 0 || 2 <= clst < fs.g.nFatent)
    modifies fs, fs.win
    ensures fs.FatsTouched()
    ensures (AllocOf(fs), ncl) == Allocate(old(AllocOf(fs)), clst) || (!fs.reliable && ncl == DISK_FAULT)
    ensures fs.reliable && fs.Fat() != old(fs.Fat()) ==> fs.g.InFat(fs.winsect)
  {
    hide Pick, Linkage, FatVolume.Volume.View, FatVolume.Volume.Fat, FatVolume.Mirrored;
    ghost var a := AllocOf(fs);
    PickInRange(a, clst);
    ncl := ChooseCluster(fs, clst);
    if ncl >= 2 && ncl != DISK_FAULT {
      var res := TakeCluster(fs, clst, ncl);
      if res == OK {
        fs.lastClst := ncl;
        if fs.freeClst <= fs.g.nFatent - 2 { fs.freeClst := fs.freeClst - 1; }
      } else {
        ncl := DISK_FAULT;
      }
    }
  }

  /** The cluster taken carries an end mark of all ones, and the one before it names it. */
  predicate EndsAt(kind: Kind, fat: seq<nat>, clst: nat, r: nat) {
    2 <= r < |fat| ==>
      && fat[r] == (match kind case FAT12 => 0xFFF case FAT16 => 0xFFFF case _ => 0x0FFF_FFFF)
      && (2 <= clst < |fat| ==> fat[clst] == r)
  }

  /** create_chain: 0 no free cluster, 1 internal error, DISK_FAULT, or the cluster that follows `clst`. */
  method CreateChain(fs: Volume, clst: u32) returns (ncl: u32)
    requires fs.Valid() && !fs.g.kind.EXFAT?
    modifies fs, fs.win
    ensures fs.FatsTouched()
    ensures (AllocOf(fs), ncl) == Create(old(AllocOf(fs)), clst) || (!fs.reliable && ncl == DISK_FAULT)
    ensures ncl != DISK_FAULT && (clst == 0 || (2 <= clst < fs.g.nFatent && old(fs.Fat())[clst] >= fs.g.nFatent)) ==>
              Takes(old(fs.Fat()), old(fs.freeClst), old(fs.lastClst), clst, ncl) &&
              EndsAt(fs.g.kind, fs.Fat(), clst, ncl) && fs.lastClst == if ncl >= 2 then ncl else old(fs.lastClst)
    ensures ncl != DISK_FAULT && clst != 0 && (!(2 <= clst < fs.g.nFatent) || old(fs.Fat())[clst] < 2) ==>
              ncl == 1 && fs.Fat() == old(fs.Fat())
    ensures fs.reliable && fs.Fat() != old(fs.Fat()) ==> fs.g.InFat(fs.winsect)
  {
    hide Allocate, Takes, Meets, FatVolume.Volume.View, FatVolume.Volume.Fat, FatVolume.Mirrored;
    if clst == 0 || (2 <= clst < fs.g.nFatent && fs.Fat()[clst] >= fs.g.nFatent) { CreateTakes(AllocOf(fs), clst); }
    if clst != 0 {
      var cs := fs.GetFat(clst);
      if cs < 2 { return 1; }
      if cs == DISK_FAULT || cs < fs.g.nFatent { return cs; }
    }
    ncl := AllocateCluster(fs, clst);
  }

  /** One round of the release loop: frees `clst` and moves to its successor. */
  method ReleaseRound(fs: Volume, clst: u32) returns (more: bool, nxt: u32, res: Fresult)
    requires fs.Valid() && !fs.g.kind.EXFAT? && 2 <= clst < fs.g.nFatent
    modifies fs, fs.win
    ensures fs.FatsTouched()
    ensures more ==>
            res == OK && 2 <= nxt < fs.g.nFatent && Release(AllocOf(fs), nxt) == Release(old(AllocOf(fs)), clst)
    ensures more ==> fs.g.nFatent > Zeros(fs.Fat(), fs.g.nFatent) > old(Zeros(fs.Fat(), fs.g.nFatent))
    ensures !more && res != DISK_ERR ==> (AllocOf(fs), res == OK) == Release(old(AllocOf(fs)), clst)
    ensures fs.reliable ==> res != DISK_ERR
  {
    hide Zeros, Mask, FatVolume.Volume.View, FatVolume.Volume.Fat, FatVolume.Mirrored;
    ghost var a := AllocOf(fs);
    nxt := fs.GetFat(clst);
    more := false;
    if nxt == 0 {
      res := OK;
    } else if nxt == 1 {
      res := INT_ERR;
    } else if nxt == DISK_FAULT {
      res := DISK_ERR;
    } else {
      res := fs.PutFat(clst, 0);
      if res == OK {
        if fs.freeClst < fs.g.nFatent - 2 { fs.freeClst := fs.freeClst + 1; }
        assert AllocOf(fs) == FreeOne(a, clst);
        if nxt < fs.g.nFatent {
          more := true;
          ReleaseNext(a, clst);
        }
      }
    }
  }

  /** The release loop of remove_chain. */
  method ReleaseChain(fs: Volume, first: u32) returns (res: Fresult)
    requires fs.Valid() && !fs.g.kind.EXFAT? && 2 <= first < fs.g.nFatent
    modifies fs, fs.win
    ensures fs.FatsTouched()
    ensures res != DISK_ERR ==> (AllocOf(fs), res == OK) == Release(old(AllocOf(fs)), first)
    ensures fs.reliable ==> res != DISK_ERR
  {
    hide Release, Zeros, FatVolume.Volume.View, FatVolume.Volume.Fat, FatVolume.Mirrored;
    ghost var a := AllocOf(fs);
    var clst := first;
    res := OK;
    var more := true;
    while more
      invariant fs.FatsTouched()
      invariant more ==> 2 <= clst < fs.g.nFatent && Release(AllocOf(fs), clst) == Release(a, first)
      invariant !more && res != DISK_ERR ==> (AllocOf(fs), res == OK) == Release(a, first)
      invariant fs.reliable ==> res != DISK_ERR
      decreases more, fs.g.nFatent - Zeros(fs.Fat(), fs.g.nFatent)
    {
      more, clst, res := ReleaseRound(fs, clst);
    }
  }

  /** remove_chain from `clst`, ending the chain at `pclst` when that is not 0. */
  method RemoveChain(fs: Volume, clst: u32, pclst: u32) returns (res: Fresult)
    requires fs.Valid() && !fs.g.kind.EXFAT?
    modifies fs, fs.win
    ensures fs.FatsTouched()
    ensures res != DISK_ERR ==> (AllocOf(fs), res == OK) == Remove(old(AllocOf(fs)), clst, pclst)
    ensures res != DISK_ERR && (clst < 2 || clst >= fs.g.nFatent || pclst == 1 || pclst >= fs.g.nFatent) ==>
              res == INT_ERR && fs.Fat() == old(fs.Fat()) && fs.freeClst == old(fs.freeClst)
    ensures fs.reliable ==> res != DISK_ERR
  {
    EndMark(fs.g.kind);
    hide Mask, Width, Release, FatVolume.Volume.View, FatVolume.Volume.Fat, FatVolume.Mirrored;
    if clst < 2 || clst >= fs.g.nFatent { return INT_ERR; }
    if pclst != 0 {
      res := fs.PutFat(pclst, 0xFFFF_FFFF);
      if res != OK { return; }
    }
    res := ReleaseChain(fs, clst);
  }
}
