/** Whole runs through the window on a device that may fail: what readers see, and which copies can be trusted. */
module MirrorRun {
  import opened Bytes
  import opened FatVolume

  datatype Op = Sync | Move(sect: u32) | Get(clst: u32) | Put(clst: u32, val: u32)

  /** First-FAT sector `s` is not waiting in a dirty window. */
  predicate Clean(winsect: nat, wflag: bool, s: nat) { !(wflag && s == winsect) }

  /** A clean first-FAT sector equals its copy unless the last attempt to copy it failed. */
  lemma CleanMirrored(fs: Volume, s: nat)
    requires fs.Valid() && fs.g.nFats == 2 && fs.g.InFat(s) && Clean(fs.winsect, fs.wflag, s)
    ensures Differs(fs.g, fs.disk, s) ==> LastFailed(fs.mirror, s)
  {
    LostIsLastFailed(fs.mirror, s);
  }

  /** One operation, whatever the device does. */
  method Perform(fs: Volume, op: Op)
    requires fs.Valid()
    modifies fs`disk, fs`wflag, fs`mirror, fs`winsect, fs.win
    ensures fs.Valid() && Extends(old(fs.mirror), fs.mirror, fs.reliable) &&
            SameButFats(fs.g, old(fs.View()), fs.View())
    ensures !op.Put? ==> SameButMirror(fs.g, old(fs.View()), fs.View())
  {
    hide FatVolume.Volume.View, FatVolume.Volume.Fat, FatVolume.Mirrored, FatVolume.SyncStep, FatVolume.Reflects,
      FatVolume.Lost;
    match op
    case Sync =>
      var res;
      ghost var copied;
      res, copied := fs.SyncWindow();
    case Move(sect) =>
      var res := fs.MoveWindow(sect);
    case Get(clst) =>
      var val := fs.GetFat(clst);
    case Put(clst, val) =>
      var res := fs.PutFat(clst, val);
  }

  /**
   * Any run on any device: nothing outside the FATs changes for a reader, a run without put_fat changes nothing outside
   * the second FAT, and every clean first-FAT sector equals its copy unless its last mirror write failed.
   */
  method Run(fs: Volume, ops: seq<Op>)
    requires fs.Valid()
    modifies fs`disk, fs`wflag, fs`mirror, fs`winsect, fs.win
    ensures fs.Valid() && Extends(old(fs.mirror), fs.mirror, fs.reliable) &&
            SameButFats(fs.g, old(fs.View()), fs.View())
    ensures (forall k | 0 <= k < |ops| :: !ops[k].Put?) ==> SameButMirror(fs.g, old(fs.View()), fs.View())
    ensures forall s: nat | fs.g.nFats == 2 && fs.g.InFat(s) && Clean(fs.winsect, fs.wflag, s) &&
            Differs(fs.g, fs.disk, s) :: LastFailed(fs.mirror, s)
  {
    hide FatVolume.Volume.View, FatVolume.Mirrored, LastFailed, Differs;
    var i := 0;
    while i < |ops|
      invariant 0 <= i <= |ops| && fs.Valid() && Extends(old(fs.mirror), fs.mirror, fs.reliable)
      invariant SameButFats(fs.g, old(fs.View()), fs.View())
      invariant (forall k | 0 <= k < i :: !ops[k].Put?) ==> SameButMirror(fs.g, old(fs.View()), fs.View())
    {
      Perform(fs, ops[i]);
      i := i + 1;
    }
    forall s: nat | fs.g.nFats == 2 && fs.g.InFat(s) && Clean(fs.winsect, fs.wflag, s) && Differs(fs.g, fs.disk, s)
      ensures LastFailed(fs.mirror, s)
    {
      CleanMirrored(fs, s);
    }
  }

  /**
   * A volume mounted with equal FATs on a faultless device: every clean first-FAT sector equals its copy after any run.
   */
  method MountAndRun(g: Geometry, medium: seq<Sector>, ops: seq<Op>) returns (fs: Volume)
    requires g.Ok() && |medium| == g.sectors && g.nFats == 2
    requires forall s: nat | g.InFat(s) :: medium[s] == medium[s + g.fsize]
    ensures fs.Valid() && fs.g == g
    ensures forall s: nat | g.InFat(s) && Clean(fs.winsect, fs.wflag, s) :: fs.disk[s] == fs.disk[s + g.fsize]
  {
    fs := new Volume(g, medium, true);
    ghost var t := fs.mirror;
    assert forall s: nat | g.InFat(s) :: medium[s] == medium[s + g.fsize] && !Differs(g, medium, s);
    Run(fs, ops);
    ExtendsShrinks(t, fs.mirror);
    assert Lost(t) == t.initial;
    assert forall s: nat | g.InFat(s) && Clean(fs.winsect, fs.wflag, s) :: s !in fs.Stale();
  }
}
