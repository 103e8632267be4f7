/** The exFAT "lazy" chain: a cluster list held partly in the object and only partly on the FAT. */
module LazyChain {
  import opened ChainSpec

  /**
   * Chain fields of FFOBJID. stat 0: chain on the FAT; 2: contiguous, nothing on the FAT;
   * 3: fragmented in this session, the first nCont links implied. nFrag counts the clusters of the
   * last fragment that are not written to the FAT yet.
   */
  datatype Lazy = Lazy(stat: nat, sclust: nat, nCont: nat, nFrag: nat)

  const EOC: nat := 0x7FFF_FFFF

  ghost predicate Distinct(ch: seq<nat>) {
    forall i, j | 0 <= i < j < |ch| :: ch[i] != ch[j]
  }

  ghost predicate InRange(ch: seq<nat>, n: nat) {
    forall i | 0 <= i < |ch| :: 2 <= ch[i] < n
  }

  /** Elements `lo` to `hi` follow each other by number. */
  ghost predicate Run(ch: seq<nat>, lo: nat, hi: nat)
    requires hi < |ch|
  {
    forall i | lo <= i <= hi :: ch[i] == ch[lo] + (i - lo)
  }

  /** Elements `lo` up to but excluding `hi` are linked to their successors on the table. */
  ghost predicate LinkedOn(fat: seq<nat>, ch: seq<nat>, lo: nat, hi: nat)
    requires hi < |ch| && InRange(ch, |fat|)
  {
    forall i | lo <= i < hi :: fat[ch[i]] == ch[i + 1]
  }

  /** The object and the table together stand for the cluster list `ch`. */
  ghost predicate Rep(o: Lazy, fat: seq<nat>, ch: seq<nat>) {
    && ch != [] && InRange(ch, |fat|) && Distinct(ch) && o.sclust == ch[0]
    && (o.stat == 0 || o.stat == 2 || o.stat == 3)
    && (o.stat == 2 ==> o.nFrag == 0 && Run(ch, 0, |ch| - 1))
    && (o.stat == 3 ==> o.nCont + 1 < |ch| && Run(ch, 0, o.nCont) && o.nFrag <= |ch| - 1 - o.nCont)
    && (o.stat == 0 ==> o.nFrag <= |ch|)
    && (o.stat != 2 ==>
          var from := if o.stat == 3 then o.nCont else 0;
          if o.nFrag == 0 then LinkedOn(fat, ch, from, |ch| - 1) && fat[ch[|ch| - 1]] >= |fat|
          else LinkedOn(fat, ch, from, |ch| - o.nFrag) && Run(ch, |ch| - o.nFrag, |ch| - 1))
  }

  /** An object's list depends on the FAT only at its own clusters. */
  lemma RepFrame(o: Lazy, fat: seq<nat>, fat': seq<nat>, ch: seq<nat>)
    requires Rep(o, fat, ch) && |fat'| == |fat| && forall i | 0 <= i < |ch| ::
             ch[i] < |fat| && fat'[ch[i]] == fat[ch[i]]
    ensures Rep(o, fat', ch)
  {
  }

  // ---------- the representation determines the list ----------

  /** Entry at which the implied links of the first fragment end. */
  function First(o: Lazy): nat { if o.stat == 3 then o.nCont else 0 }

  /** Element `i + 1` is found from element `i`, the object, the table and the length alone. */
  function Successor(o: Lazy, fat: seq<nat>, len: nat, i: nat, c: nat): nat
    requires c < |fat|
  {
    if o.stat == 2 || (o.stat == 3 && i < o.nCont) || i >= len - o.nFrag then c + 1 else fat[c]
  }

  lemma SuccessorIsNext(o: Lazy, fat: seq<nat>, ch: seq<nat>, i: nat)
    requires Rep(o, fat, ch) && i + 1 < |ch|
    ensures ch[i] < |fat| && Successor(o, fat, |ch|, i, ch[i]) == ch[i + 1]
  {
    if o.stat == 2 {
      assert ch[i] == ch[0] + i && ch[i + 1] == ch[0] + (i + 1);
    } else if o.stat == 3 && i < o.nCont {
      assert ch[i] == ch[0] + i && ch[i + 1] == ch[0] + (i + 1);
    } else if i >= |ch| - o.nFrag {
      var t := |ch| - o.nFrag;
      assert ch[i] == ch[t] + (i - t) && ch[i + 1] == ch[t] + (i + 1 - t);
    }
  }

  /** (stat, nCont, nFrag, partial FAT) and the cluster count determine the cluster list. */
  lemma {:induction false} RepIsUnique(o: Lazy, fat: seq<nat>, ch: seq<nat>, dh: seq<nat>)
    requires Rep(o, fat, ch) && Rep(o, fat, dh) && |ch| == |dh|
    ensures ch == dh
  {
    hide Rep;
    assert |ch| > 0 && ch[0] == dh[0] by { RepHead(o, fat, ch); RepHead(o, fat, dh); }
    var i := 0;
    while i + 1 < |ch|
      invariant i < |ch| && forall j | 0 <= j <= i :: ch[j] == dh[j]
    {
      SuccessorIsNext(o, fat, ch, i);
      SuccessorIsNext(o, fat, dh, i);
      i := i + 1;
    }
  }

  lemma RepHead(o: Lazy, fat: seq<nat>, ch: seq<nat>)
    requires Rep(o, fat, ch)
    ensures |ch| > 0 && ch[0] == o.sclust
  {
  }

  // ---------- fill_last_frag, fill_first_frag ----------

  /** fill_last_frag: writes the links of the last `k` clusters up to `lcl`, the last one to `term`. */
  function FillLast(fat: seq<nat>, lcl: nat, k: nat, term: nat): (r: seq<nat>)
    requires k <= lcl < |fat|
    ensures |r| == |fat|
    decreases k
  {
    if k == 0 then fat
    else FillLast(fat[lcl - k + 1 := if k > 1 then lcl - k + 2 else term], lcl, k - 1, term)
  }

  lemma {:induction false} FillLastAt(fat: seq<nat>, lcl: nat, k: nat, term: nat, c: nat)
    requires k <= lcl < |fat| && c < |fat|
    ensures FillLast(fat, lcl, k, term)[c] ==
            if lcl - k < c < lcl then c + 1 else if c == lcl && k > 0 then term else fat[c]
    decreases k
  {
    if k > 0 { FillLastAt(fat[lcl - k + 1 := if k > 1 then lcl - k + 2 else term], lcl, k - 1, term, c); }
  }

  /** fill_first_frag: links clusters `c`, `c + 1`, ... by number, `k` of them. */
  function FillFirst(fat: seq<nat>, c: nat, k: nat): (r: seq<nat>)
    requires c + k <= |fat|
    ensures |r| == |fat|
    decreases k
  {
    if k == 0 then fat else FillFirst(fat[c := c + 1], c + 1, k - 1)
  }

  lemma {:induction false} FillFirstAt(fat: seq<nat>, c: nat, k: nat, d: nat)
    requires c + k <= |fat| && d < |fat|
    ensures FillFirst(fat, c, k)[d] == if c <= d < c + k then d + 1 else fat[d]
    decreases k
  {
    if k > 0 { FillFirstAt(fat[c := c + 1], c + 1, k - 1, d); }
  }

  /** The members of a run are exactly a range of cluster numbers. */
  lemma RunMembers(ch: seq<nat>, lo: nat, hi: nat, i: nat)
    requires lo <= hi < |ch| && Run(ch, lo, hi) && Distinct(ch) && i < |ch|
    ensures ch[lo] <= ch[i] <= ch[hi] <==> lo <= i <= hi
  {
    assert ch[hi] == ch[lo] + (hi - lo);
    if ch[lo] <= ch[i] <= ch[hi] {
      var j := lo + (ch[i] - ch[lo]);
      assert ch[j] == ch[lo] + (j - lo);
      assert ch[j] == ch[i];
    }
    if lo <= i <= hi { assert ch[i] == ch[lo] + (i - lo); }
  }

  lemma RunCovers(ch: seq<nat>, lo: nat, hi: nat, c: nat)
    requires lo <= hi < |ch| && Run(ch, lo, hi)
    ensures ch[lo] <= c <= ch[lo] + (hi - lo) ==> c in ch
  {
    if ch[lo] <= c <= ch[lo] + (hi - lo) { assert ch[lo + (c - ch[lo])] == c; }
  }

  // ---------- tail append ----------

  /** `clst` can be the last cluster of the object. */
  predicate CanEndAt(o: Lazy, fat: seq<nat>, clst: nat) {
    (o.sclust <= clst || o.stat != 2) && o.nFrag <= clst && 1 <= clst < |fat|
  }

  /** The exFAT bookkeeping of create_chain when cluster `ncl` is put behind the last cluster `clst`. */
  function Append(o: Lazy, fat: seq<nat>, clst: nat, ncl: nat): (r: (Lazy, seq<nat>))
    requires CanEndAt(o, fat, clst)
    ensures |r.1| == |fat|
  {
    var o1 := if o.stat == 2 && ncl != clst + 1 then o.(nCont := clst - o.sclust, stat := 3) else o;
    if o1.stat == 2 then (o1, fat)
    else if ncl == clst + 1 then (o1.(nFrag := if o.nFrag > 0 then o.nFrag + 1 else 2), fat)
    else (o1.(nFrag := 1), FillLast(fat, clst, if o.nFrag == 0 then 1 else o.nFrag, ncl))
  }

  lemma RepBounds(o: Lazy, fat: seq<nat>, ch: seq<nat>)
    requires Rep(o, fat, ch)
    ensures ch != [] && o.nFrag < ch[|ch| - 1] && (o.stat == 2 ==> o.sclust <= ch[|ch| - 1])
    ensures 2 <= ch[|ch| - 1] < |fat| && Distinct(ch) && InRange(ch, |fat|)
  {
    if o.stat == 2 { assert ch[|ch| - 1] == ch[0] + (|ch| - 1); }
    if o.nFrag > 0 {
      var t := |ch| - o.nFrag;
      assert ch[|ch| - 1] == ch[t] + (|ch| - 1 - t);
    }
  }

  lemma RunExtend(ch: seq<nat>, lo: nat, c: nat)
    requires lo < |ch| && Run(ch, lo, |ch| - 1) && c == ch[|ch| - 1] + 1
    ensures Run(ch + [c], lo, |ch|)
  {
    assert ch[|ch| - 1] == ch[lo] + (|ch| - 1 - lo);
  }

  lemma DistinctExtend(ch: seq<nat>, c: nat, n: nat)
    requires Distinct(ch) && InRange(ch, n) && c !in ch && 2 <= c < n
    ensures Distinct(ch + [c]) && InRange(ch + [c], n)
  {
  }

  /** Writing the last fragment and its onward link completes the links up to the new cluster. */
  lemma FillLastLinks(fat: seq<nat>, ch: seq<nat>, lo: nat, t: nat, term: nat)
    requires InRange(ch, |fat|) && Distinct(ch) && lo <= t < |ch| && Run(ch, t, |ch| - 1)
    requires LinkedOn(fat, ch, lo, t)
    ensures |ch| - t <= ch[|ch| - 1]
    ensures var fat' := FillLast(fat, ch[|ch| - 1], |ch| - t, term);
            LinkedOn(fat', ch, lo, |ch| - 1) && fat'[ch[|ch| - 1]] == term
    ensures var fat' := FillLast(fat, ch[|ch| - 1], |ch| - t, term);
            forall c | 0 <= c < |fat| && c !in ch :: fat'[c] == fat[c]
  {
    var lcl, k := ch[|ch| - 1], |ch| - t;
    assert lcl == ch[t] + (|ch| - 1 - t);
    var fat' := FillLast(fat, lcl, k, term);
    forall i | lo <= i < |ch| - 1 ensures fat'[ch[i]] == ch[i + 1] {
      FillLastAt(fat, lcl, k, term, ch[i]);
      RunMembers(ch, t, |ch| - 1, i);
      if i >= t { assert ch[i] == ch[t] + (i - t) && ch[i + 1] == ch[t] + (i + 1 - t); }
    }
    FillLastAt(fat, lcl, k, term, lcl);
    forall c | 0 <= c < |fat| && c !in ch ensures fat'[c] == fat[c] {
      FillLastAt(fat, lcl, k, term, c);
      RunCovers(ch, t, |ch| - 1, c);
    }
  }

  /** A tail append turns the representation of `ch` into that of `ch + [ncl]`. */
  lemma AppendKeepsRep(o: Lazy, fat: seq<nat>, ch: seq<nat>, ncl: nat)
    requires Rep(o, fat, ch) && ncl !in ch && 2 <= ncl < |fat|
    ensures ch != [] && CanEndAt(o, fat, ch[|ch| - 1])
    ensures var (o', fat') := Append(o, fat, ch[|ch| - 1], ncl);
            Rep(o', fat', ch + [ncl]) && forall c | 0 <= c < |fat| && c !in ch :: fat'[c] == fat[c]
  {
    RepBounds(o, fat, ch);
    DistinctExtend(ch, ncl, |fat|);
    var clst := ch[|ch| - 1];
    if ncl == clst + 1 {
      AppendContiguous(o, fat, ch, ncl);
    } else {
      AppendFragment(o, fat, ch, ncl);
    }
  }

  lemma AppendContiguous(o: Lazy, fat: seq<nat>, ch: seq<nat>, ncl: nat)
    requires Rep(o, fat, ch) && Distinct(ch + [ncl]) && InRange(ch + [ncl], |fat|) && ncl == ch[|ch| - 1] + 1
    requires o.nFrag < ch[|ch| - 1] && (o.stat == 2 ==> o.sclust <= ch[|ch| - 1]) && ch[|ch| - 1] < |fat|
    ensures var (o', fat') := Append(o, fat, ch[|ch| - 1], ncl); Rep(o', fat', ch + [ncl]) && fat' == fat
  {
    var ch' := ch + [ncl];
    if o.stat == 2 {
      RunExtend(ch, 0, ncl);
    } else {
      var t := if o.nFrag == 0 then |ch| - 1 else |ch| - o.nFrag;
      RunExtend(ch, t, ncl);
      assert LinkedOn(fat, ch', First(o), t);
    }
  }

  lemma LinkedExtend(fat: seq<nat>, ch: seq<nat>, lo: nat, c: nat)
    requires ch != [] && InRange(ch, |fat|) && InRange(ch + [c], |fat|)
    requires LinkedOn(fat, ch, lo, |ch| - 1) && fat[ch[|ch| - 1]] == c
    ensures LinkedOn(fat, ch + [c], lo, |ch|)
  {
    forall i | lo <= i < |ch| ensures fat[(ch + [c])[i]] == (ch + [c])[i + 1] {
      if i < |ch| - 1 { assert fat[ch[i]] == ch[i + 1]; }
    }
  }

  /** Where the table starts to carry the links, and where the unwritten last fragment begins. */
  lemma RepLinks(o: Lazy, fat: seq<nat>, ch: seq<nat>) returns (from: nat, t: nat)
    requires Rep(o, fat, ch)
    ensures from == if o.stat == 2 then |ch| - 1 else First(o)
    ensures t == if o.nFrag == 0 then |ch| - 1 else |ch| - o.nFrag
    ensures from <= t < |ch| && InRange(ch, |fat|) && Run(ch, t, |ch| - 1) && LinkedOn(fat, ch, from, t)
    ensures o.stat == 2 ==> ch[|ch| - 1] == ch[0] + (|ch| - 1)
    ensures o.stat == 2 || o.stat == 3 ==> Run(ch, 0, if o.stat == 2 then |ch| - 1 else o.nCont)
  {
    from := if o.stat == 2 then |ch| - 1 else First(o);
    t := if o.nFrag == 0 then |ch| - 1 else |ch| - o.nFrag;
  }

  lemma RepOfPending(o: Lazy, fat: seq<nat>, ch: seq<nat>)
    requires |ch| >= 2 && InRange(ch, |fat|) && Distinct(ch) && o.sclust == ch[0] && o.nFrag == 1
    requires o.stat == 0 || (o.stat == 3 && o.nCont + 1 < |ch| && Run(ch, 0, o.nCont))
    requires LinkedOn(fat, ch, First(o), |ch| - 1)
    ensures Rep(o, fat, ch)
  {
  }

  lemma AppendFragment(o: Lazy, fat: seq<nat>, ch: seq<nat>, ncl: nat)
    requires Rep(o, fat, ch) && Distinct(ch) && InRange(ch, |fat|)
    requires Distinct(ch + [ncl]) && InRange(ch + [ncl], |fat|) && ncl != ch[|ch| - 1] + 1
    requires o.nFrag < ch[|ch| - 1] && (o.stat == 2 ==> o.sclust <= ch[|ch| - 1]) && ch[|ch| - 1] < |fat|
    ensures var (o', fat') := Append(o, fat, ch[|ch| - 1], ncl);
            Rep(o', fat', ch + [ncl]) && forall c | 0 <= c < |fat| && c !in ch :: fat'[c] == fat[c]
  {
    var from, t := RepLinks(o, fat, ch);
    assert o.sclust == ch[0] && (o.stat == 3 ==> o.nCont + 1 < |ch|) && o.stat in {0, 2, 3} &&
      (o.stat == 2 ==> o.nFrag == 0);
    hide FillLast, Rep, LinkedOn;
    FillLastLinks(fat, ch, from, t, ncl);
    var fat' := FillLast(fat, ch[|ch| - 1], |ch| - t, ncl);
    LinkedExtend(fat', ch, from, ncl);
    RepOfPending(Append(o, fat, ch[|ch| - 1], ncl).0, fat', ch + [ncl]);
  }

  /** A new chain starts out contiguous. */
  lemma NewChainRep(fat: seq<nat>, c: nat, nCont: nat)
    requires 2 <= c < |fat|
    ensures Rep(Lazy(2, c, nCont, 0), fat, [c])
  {
  }

  /** Any number of appends, one after another. */
  ghost function AppendAll(o: Lazy, fat: seq<nat>, ch: seq<nat>, more: seq<nat>): (r: (Lazy, seq<nat>))
    requires Rep(o, fat, ch) && Distinct(ch + more) && InRange(more, |fat|)
    ensures Rep(r.0, r.1, ch + more) && |r.1| == |fat|
    ensures forall c | 0 <= c < |fat| && c !in ch + more :: r.1[c] == fat[c]
    decreases |more|
  {
    if more == [] then
      assert ch + more == ch;
      (o, fat)
    else
      assert more[0] !in ch by {
        assert (ch + more)[|ch|] == more[0];
        forall i | 0 <= i < |ch| ensures ch[i] != more[0] { assert (ch + more)[i] == ch[i]; } }
      AppendKeepsRep(o, fat, ch, more[0]);
      var (o', fat') := Append(o, fat, ch[|ch| - 1], more[0]);
      assert (ch + [more[0]]) + more[1..] == ch + more;
      AppendAll(o', fat', ch + [more[0]], more[1..])
  }

  // ---------- writing the chain out ----------

  /** fill_first_frag followed by fill_last_frag(lcl, EOC). */
  function Finish(o: Lazy, fat: seq<nat>, lcl: nat): (r: seq<nat>)
    requires o.nFrag <= lcl < |fat| && (o.stat == 3 ==> o.sclust + o.nCont <= |fat|)
    ensures |r| == |fat|
  {
    FillLast(if o.stat == 3 then FillFirst(fat, o.sclust, o.nCont) else fat, lcl, o.nFrag, EOC)
  }

  lemma FillFirstLinks(o: Lazy, fat: seq<nat>, ch: seq<nat>)
    requires Rep(o, fat, ch) && o.stat == 3
    ensures o.sclust + o.nCont < |fat|
    ensures var fat' := FillFirst(fat, o.sclust, o.nCont);
            Rep(o.(stat := 0), fat', ch) && forall c | 0 <= c < |fat| && c !in ch :: fat'[c] == fat[c]
  {
    var n := o.nCont;
    assert ch[n] == ch[0] + n;
    var fat' := FillFirst(fat, o.sclust, n);
    forall i | 0 <= i < |ch| ensures fat'[ch[i]] == if i < n then ch[i + 1] else fat[ch[i]] {
      FillFirstAt(fat, o.sclust, n, ch[i]);
      RunMembers(ch, 0, n, i);
      if i < n { assert ch[i] == ch[0] + i && ch[i + 1] == ch[0] + (i + 1); }
    }
    forall c | 0 <= c < |fat| && c !in ch ensures fat'[c] == fat[c] {
      FillFirstAt(fat, o.sclust, n, c);
      RunCovers(ch, 0, n, c);
    }
  }

  /** Writing out a chain whose first fragment is on the table leaves exactly that chain there. */
  lemma FillLastEnds(o: Lazy, fat: seq<nat>, ch: seq<nat>)
    requires Rep(o, fat, ch) && o.stat == 0 && |fat| <= EOC
    ensures o.nFrag <= ch[|ch| - 1]
    ensures var fat' := FillLast(fat, ch[|ch| - 1], o.nFrag, EOC);
            Chain(fat', ch) && forall c | 0 <= c < |fat| && c !in ch :: fat'[c] == fat[c]
  {
    RepBounds(o, fat, ch);
    var from, t := RepLinks(o, fat, ch);
    if o.nFrag > 0 {
      hide FillLast, Rep;
      FillLastLinks(fat, ch, 0, t, EOC);
      ChainOfLinks(FillLast(fat, ch[|ch| - 1], o.nFrag, EOC), ch);
    } else {
      ChainOfLinks(fat, ch);
    }
  }

  /** fill_last_frag with an end mark leaves a representation of the same list with nothing pending. */
  lemma FlushKeepsRep(o: Lazy, fat: seq<nat>, ch: seq<nat>)
    requires Rep(o, fat, ch) && o.nFrag > 0 && |fat| <= EOC
    ensures o.nFrag < ch[|ch| - 1] < |fat|
    ensures Rep(o.(nFrag := 0), FillLast(fat, ch[|ch| - 1], o.nFrag, EOC), ch)
    ensures forall c | 0 <= c < |fat| && c !in ch :: FillLast(fat, ch[|ch| - 1], o.nFrag, EOC)[c] == fat[c]
  {
    RepBounds(o, fat, ch);
    var from, t := RepLinks(o, fat, ch);
    hide FillLast;
    FillLastLinks(fat, ch, from, t, EOC);
  }

  lemma ChainOfLinks(fat: seq<nat>, ch: seq<nat>)
    requires ch != [] && InRange(ch, |fat|) && Distinct(ch) && LinkedOn(fat, ch, 0, |ch| - 1) &&
             fat[ch[|ch| - 1]] >= |fat|
    ensures Chain(fat, ch)
  {
  }

  /** Once the chain is not contiguous, fill_first_frag and fill_last_frag leave exactly it on the table. */
  lemma FinishLeavesChain(o: Lazy, fat: seq<nat>, ch: seq<nat>)
    requires Rep(o, fat, ch) && o.stat != 2 && |fat| <= EOC
    ensures o.nFrag <= ch[|ch| - 1] < |fat| && (o.stat == 3 ==> o.sclust + o.nCont <= |fat|)
    ensures Chain(Finish(o, fat, ch[|ch| - 1]), ch)
    ensures forall c | 0 <= c < |fat| && c !in ch :: Finish(o, fat, ch[|ch| - 1])[c] == fat[c]
  {
    RepBounds(o, fat, ch);
    if o.stat == 3 {
      FillFirstLinks(o, fat, ch);
      FillLastEnds(o.(stat := 0), FillFirst(fat, o.sclust, o.nCont), ch);
    } else {
      FillLastEnds(o, fat, ch);
    }
  }

  // ---------- get_fat on a lazy chain ----------

  /** What get_fat generates or reads for cluster `c`; `clen` is the cluster count less one. */
  function NextOf(o: Lazy, fat: seq<nat>, clen: nat, c: nat): nat
    requires c < |fat|
  {
    var cofs := (c - o.sclust) % 0x1_0000_0000;
    if o.stat == 2 && cofs <= clen then (if cofs == clen then EOC else c + 1)
    else if o.stat == 3 && cofs < o.nCont then c + 1
    else if o.stat != 2 then (if o.nFrag != 0 then EOC else fat[c])
    else 1
  }

  ghost predicate RightNext(o: Lazy, fat: seq<nat>, ch: seq<nat>, i: nat)
    requires i < |ch| && InRange(ch, |fat|)
  {
    var nxt := NextOf(o, fat, |ch| - 1, ch[i]);
    if i + 1 < |ch| then nxt == ch[i + 1] else nxt >= |fat|
  }

  /** The 32-bit difference of two cluster numbers. */
  lemma Offset(c: nat, s: nat)
    requires c < 0x1_0000_0000 && s < 0x1_0000_0000
    ensures (c - s) % 0x1_0000_0000 == if c >= s then c - s else c - s + 0x1_0000_0000
  {
  }

  /**
   * get_fat follows the list correctly exactly where no unwritten last fragment stands in the way:
   * with one pending, clusters past the first fragment all look like the end of the chain.
   */
  lemma NextOfIsRight(o: Lazy, fat: seq<nat>, ch: seq<nat>, i: nat)
    requires Rep(o, fat, ch) && i < |ch| && |fat| <= EOC
    ensures InRange(ch, |fat|)
    ensures RightNext(o, fat, ch, i) <==> !(o.stat != 2 && o.nFrag != 0 && First(o) <= i < |ch| - 1)
  {
    var c := ch[i];
    Offset(c, o.sclust);
    var cofs := (c - o.sclust) % 0x1_0000_0000;
    if o.stat == 2 {
      assert ch[|ch| - 1] == ch[0] + (|ch| - 1) && c == ch[0] + i;
      if i + 1 < |ch| { assert ch[i + 1] == ch[0] + (i + 1); }
    } else if o.stat == 3 {
      var n := o.nCont;
      RunMembers(ch, 0, n, i);
      assert ch[n] == ch[0] + n;
      if i <= n {
        assert c == ch[0] + i;
        if i < n { assert ch[i + 1] == ch[0] + (i + 1); }
      } else {
        assert cofs >= n;
      }
    }
  }

  /**
   * A second cluster appended to an on-FAT object, the link not written yet: get_fat shows the first as the end of the
   * chain.
   */
  lemma PendingHidesNext()
    ensures var fat := [0, 0, EOC, 0];
            && Rep(Lazy(0, 2, 0, 0), fat, [2]) && CanEndAt(Lazy(0, 2, 0, 0), fat, 2)
            && Append(Lazy(0, 2, 0, 0), fat, 2, 3) == (Lazy(0, 2, 0, 2), fat)
            && Rep(Lazy(0, 2, 0, 2), fat, [2, 3]) && InRange([2, 3], |fat|)
            && !RightNext(Lazy(0, 2, 0, 2), fat, [2, 3], 0)
  {
    NextOfIsRight(Lazy(0, 2, 0, 2), [0, 0, EOC, 0], [2, 3], 0);
  }
}
