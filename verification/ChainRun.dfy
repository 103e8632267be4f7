/**
 * Whole runs of create_chain and remove_chain on a mounted volume: the byte-level table follows the forest of chains.
 */
module ChainRun {
  import opened FatVolume
  import opened ChainSpec
  import opened FatChain

  lemma ForestEnds(a: Alloc, chains: seq<seq<nat>>, k: nat, i: nat)
    requires World(a, chains).Inv() && k < |chains| && i < |chains[k]|
    ensures 2 <= chains[k][i] < |a.fat|
  {
    assert Chain(a.fat, chains[k]);
  }

  /** One request, with the list of chains it should leave. */
  method Perform(fs: Volume, op: Op, chains: seq<seq<nat>>) returns (chains': seq<seq<nat>>)
    requires fs.Valid() && fs.reliable && !fs.g.kind.EXFAT?
    requires World(AllocOf(fs), chains).Inv() && World(AllocOf(fs), chains).Sensible(op)
    modifies fs, fs.win
    ensures fs.Valid() && SameButFats(fs.g, old(fs.View()), fs.View()) && Extends(old(fs.mirror), fs.mirror, true)
    ensures World(AllocOf(fs), chains') == World(old(AllocOf(fs)), chains).Step(op)
  {
    hide FatVolume.Volume.View, FatVolume.Volume.Fat, FatVolume.Mirrored, Forest, Create, Remove;
    ghost var a := AllocOf(fs);
    assert fs.g.nFatent < 0x1_0000_0000;
    if op.Truncate? {
      ForestEnds(a, chains, op.k, op.i);
      if op.i > 0 { ForestEnds(a, chains, op.k, op.i - 1); }
      var res := RemoveChain(fs, chains[op.k][op.i], if op.i == 0 then 0 else chains[op.k][op.i - 1]);
      chains' := Shortened(chains, op.k, op.i);
    } else {
      var k := Target(op);
      if k >= 0 { ForestEnds(a, chains, k, |chains[k]| - 1); }
      var ncl := CreateChain(fs, TailOf(chains, k));
      chains' := if ncl < 2 then chains else Grown(chains, k, ncl);
    }
  }

  /**
   * Every run keeps a disjoint acyclic forest of exactly the expected chains, an exact free count, and everything
   * outside the FATs.
   */
  method RunChains(fs: Volume, ops: seq<Op>, chains0: seq<seq<nat>>) returns (chains: seq<seq<nat>>)
    requires fs.Valid() && fs.reliable && !fs.g.kind.EXFAT?
    requires World(AllocOf(fs), chains0).Inv() && IsRun(World(AllocOf(fs), chains0), ops)
    modifies fs, fs.win
    ensures fs.Valid() && SameButFats(fs.g, old(fs.View()), fs.View()) && Extends(old(fs.mirror), fs.mirror, true)
    ensures World(AllocOf(fs), chains) == After(World(old(AllocOf(fs)), chains0), ops) &&
            World(AllocOf(fs), chains).Inv()
  {
    hide FatVolume.Volume.View, FatVolume.Volume.Fat, FatVolume.Mirrored, Forest;
    ghost var goal := After(World(AllocOf(fs), chains0), ops);
    chains := chains0;
    var i := 0;
    assert ops[0..] == ops;
    while i < |ops|
      invariant 0 <= i <= |ops| && fs.Valid() && SameButFats(fs.g, old(fs.View()), fs.View()) &&
                Extends(old(fs.mirror), fs.mirror, true)
      invariant World(AllocOf(fs), chains).Inv() && IsRun(World(AllocOf(fs), chains), ops[i..])
      invariant After(World(AllocOf(fs), chains), ops[i..]) == goal
    {
      ghost var w := World(AllocOf(fs), chains);
      RunStep(w, ops, i);
      StepKeepsInv(w, ops[i]);
      chains := Perform(fs, ops[i], chains);
      i := i + 1;
    }
  }

  lemma RunStep(w: World, ops: seq<Op>, i: nat)
    requires i < |ops| && w.a.Ok() && IsRun(w, ops[i..])
    ensures w.Sensible(ops[i]) && w.Step(ops[i]).a.Ok() && IsRun(w.Step(ops[i]), ops[i + 1..])
    ensures After(w, ops[i..]) == After(w.Step(ops[i]), ops[i + 1..])
  {
    assert ops[i..][0] == ops[i] && ops[i..][1..] == ops[i + 1..];
  }
}
