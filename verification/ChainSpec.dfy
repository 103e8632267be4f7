/** Cluster chains on the allocation table of a FAT12/16/32 volume, as pure state and transitions. */
module ChainSpec {

  /** The allocator state: table, free-count and hint of FATFS, and the end mark of this FAT kind. */
  datatype Alloc = Alloc(fat: seq<nat>, free: nat, last: nat, eoc: nat)
  {
    ghost predicate Ok() {
      3 <= |fat| <= eoc
    }

    /** A free count in range claims to be exact; anything above means "unknown". */
    ghost predicate Exact() {
      free <= |fat| - 2 ==> free == Zeros(fat, |fat|)
    }
  }

  /** Number of free clusters below `k`. */
  function Zeros(fat: seq<nat>, k: nat): (z: nat)
    requires k <= |fat|
    ensures k >= 2 ==> z <= k - 2
  {
    if k <= 2 then 0 else Zeros(fat, k - 1) + (if fat[k - 1] == 0 then 1 else 0)
  }

  lemma {:induction false} ZerosUpdate(fat: seq<nat>, k: nat, c: nat, v: nat)
    requires k <= |fat| && 2 <= c < |fat|
    ensures Zeros(fat[c := v], k) ==
            if c < k then Zeros(fat, k) - (if fat[c] == 0 then 1 else 0) + (if v == 0 then 1 else 0)
            else Zeros(fat, k)
  {
    if k > 2 { ZerosUpdate(fat, k - 1, c, v); }
  }

  lemma {:induction false} ZerosPositive(fat: seq<nat>, k: nat, c: nat)
    requires k <= |fat| && 2 <= c < k && fat[c] == 0
    ensures Zeros(fat, k) > 0
  {
    if c < k - 1 { ZerosPositive(fat, k - 1, c); }
  }

  // ---------- the cyclic search of create_chain ----------

  /** The `j`-th cluster looked at when the scan starts after `from`. */
  function Visit(n: nat, from: nat, j: nat): nat
    requires n >= 3
  {
    if from + 1 + j < n then from + 1 + j else from + 1 + j - (n - 2)
  }

  /** Outcome of the scan from its `j`-th look: a free cluster, 1 for a corrupt entry, 0 when all are taken. */
  function Scan(fat: seq<nat>, from: nat, j: nat): nat
    requires |fat| >= 3 && 1 <= from < |fat| && j <= |fat| - 2
    decreases |fat| - j
  {
    if j == |fat| - 2 then 0
    else
      var c := Visit(|fat|, from, j);
      if fat[c] == 0 then c else if fat[c] == 1 then 1 else Scan(fat, from, j + 1)
  }

  /** How the scan walks: one up, wrapping to 2; it ends back at its start, or past the top when it began at 1. */
  lemma VisitStep(n: nat, from: nat, j: nat)
    requires n >= 3 && 1 <= from < n && j <= n - 2 && (j == n - 2 ==> from == 1)
    ensures var prev := if j == 0 then from else Visit(n, from, j - 1);
            && 1 <= prev < n
            && (j == n - 2 <==> prev + 1 >= n && from == 1)
            && (j < n - 2 ==> Visit(n, from, j) == NextCluster(n, prev))
            && (j < n - 2 ==> (Visit(n, from, j) == from <==> j == n - 3 && from >= 2))
  {
  }

  /** The scan looks at every cluster. */
  lemma VisitReaches(n: nat, from: nat, c: nat) returns (j: nat)
    requires n >= 3 && 1 <= from < n && 2 <= c < n
    ensures j < n - 2 && Visit(n, from, j) == c
  {
    j := if c > from then c - from - 1 else c - from - 1 + (n - 2);
  }

  lemma {:induction false} ScanResult(fat: seq<nat>, from: nat, j: nat)
    requires |fat| >= 3 && 1 <= from < |fat| && j <= |fat| - 2
    ensures var r := Scan(fat, from, j);
            (r >= 2 ==> 2 <= r < |fat| && fat[r] == 0) &&
            (r == 0 ==> forall i | j <= i < |fat| - 2 :: fat[Visit(|fat|, from, i)] > 1) &&
            (r == 1 ==> exists i | j <= i < |fat| - 2 :: fat[Visit(|fat|, from, i)] == 1)
    decreases |fat| - j
  {
    if j < |fat| - 2 && fat[Visit(|fat|, from, j)] > 1 { ScanResult(fat, from, j + 1); }
  }

  ghost predicate NoneFree(fat: seq<nat>) {
    forall c | 2 <= c < |fat| :: fat[c] != 0
  }

  ghost predicate Sound(fat: seq<nat>) {
    forall c | 2 <= c < |fat| :: fat[c] != 1
  }

  /** From any hint, the scan of a table without corrupt entries fails exactly when no cluster is free. */
  lemma ScanComplete(fat: seq<nat>, from: nat)
    requires |fat| >= 3 && 1 <= from < |fat| && Sound(fat)
    ensures Scan(fat, from, 0) == 0 <==> NoneFree(fat)
    ensures Scan(fat, from, 0) != 1
  {
    ScanResult(fat, from, 0);
    if Scan(fat, from, 0) == 0 {
      forall c | 2 <= c < |fat| ensures fat[c] != 0 {
        var j := VisitReaches(|fat|, from, c);
      }
    }
  }

  /** What the scan returns is the first free cluster in cyclic order: everything it looked at before is in use. */
  lemma {:induction false} ScanIsFirst(fat: seq<nat>, from: nat, j: nat) returns (k: nat)
    requires |fat| >= 3 && 1 <= from < |fat| && j <= |fat| - 2 && Scan(fat, from, j) >= 2
    ensures j <= k < |fat| - 2 && Scan(fat, from, j) == Visit(|fat|, from, k) && fat[Visit(|fat|, from, k)] == 0
    ensures forall i | j <= i < k :: fat[Visit(|fat|, from, i)] > 1
    decreases |fat| - j
  {
    k := j;
    if fat[Visit(|fat|, from, j)] != 0 { k := ScanIsFirst(fat, from, j + 1); }
  }

  /**
   * How many clusters a walk upwards from `from`, wrapping from the top to 2, takes to reach `c`; a full turn for
   * `from` itself.
   */
  function Ahead(n: nat, from: nat, c: nat): int { if c > from then c - from else c - from + (n - 2) }

  /** Of the clusters that are free (0) or corrupt (1), `c` is the one such a walk meets first. */
  ghost predicate MetFirst(fat: seq<nat>, from: nat, c: nat) {
    && 2 <= c < |fat| && fat[c] <= 1
    && forall d | 2 <= d < |fat| && fat[d] <= 1 :: Ahead(|fat|, from, c) <= Ahead(|fat|, from, d)
  }

  /**
   * What a search upwards from behind `from` finds: the first free cluster, 1 if a corrupt entry comes before it, 0 if
   * all are in use.
   */
  ghost predicate Meets(fat: seq<nat>, from: nat, r: nat) {
    if forall d | 2 <= d < |fat| :: fat[d] > 1 then r == 0
    else exists c: nat :: MetFirst(fat, from, c) && r == if fat[c] == 0 then c else 1
  }

  lemma AheadVisit(n: nat, from: nat, j: nat)
    requires n >= 3 && 1 <= from < n && j < n - 2
    ensures 2 <= Visit(n, from, j) < n && Ahead(n, from, Visit(n, from, j)) == j + 1
  {
  }

  lemma {:induction false} ScanMeets(fat: seq<nat>, from: nat, j: nat)
    requires |fat| >= 3 && 1 <= from < |fat| && j <= |fat| - 2
    requires forall i | 0 <= i < j :: fat[Visit(|fat|, from, i)] > 1
    ensures Meets(fat, from, Scan(fat, from, j))
    decreases |fat| - j
  {
    var n := |fat|;
    if j == n - 2 {
      forall d | 2 <= d < n ensures fat[d] > 1 { var i := VisitReaches(n, from, d); }
    } else {
      var c := Visit(n, from, j);
      AheadVisit(n, from, j);
      if fat[c] <= 1 {
        forall d | 2 <= d < n && fat[d] <= 1 ensures Ahead(n, from, c) <= Ahead(n, from, d) {
          var i := VisitReaches(n, from, d);
          AheadVisit(n, from, i);
        }
        assert MetFirst(fat, from, c);
      } else {
        ScanMeets(fat, from, j + 1);
      }
    }
  }

  // ---------- create_chain ----------

  /**
   * The cluster create_chain takes, as its documentation has it: none when the count says so; for a new chain the first
   * free one after the hint, or from 2 on; behind `clst` the cluster next to it if that is free, else the first free
   * one after the hint if that is in range, else after `clst`.
   */
  ghost predicate Takes(fat: seq<nat>, free: nat, last: nat, clst: nat, r: nat) {
    var n, nxt := |fat|, if clst + 1 < |fat| then clst + 1 else 2;
    if free == 0 then r == 0
    else if clst == 0 then Meets(fat, if last == 0 || last >= n then 1 else last, r)
    else if 2 < n && fat[nxt] == 0 then r == nxt
    else if 2 < n && fat[nxt] == 1 then r == 1
    else Meets(fat, if 2 <= last < n then last else clst, r)
  }

  lemma PickTakes(a: Alloc, clst: nat)
    requires a.Ok() && clst < |a.fat|
    ensures Takes(a.fat, a.free, a.last, clst, Pick(a, clst))
  {
    var n := |a.fat|;
    ScanMeets(a.fat, if a.last == 0 || a.last >= n then 1 else a.last, 0);
    ScanMeets(a.fat, if 2 <= a.last < n then a.last else if clst == 0 then 1 else clst, 0);
  }

  function NextCluster(n: nat, c: nat): nat { if c + 1 < n then c + 1 else 2 }

  /** The cluster create_chain settles on: 0 for a full volume, 1 for a corrupt entry. */
  function Pick(a: Alloc, clst: nat): nat
    requires |a.fat| >= 3 && clst < |a.fat|
  {
    var n := |a.fat|;
    if a.free == 0 then 0
    else if clst == 0 then Scan(a.fat, if a.last == 0 || a.last >= n then 1 else a.last, 0)
    else
      var nxt := NextCluster(n, clst);
      if a.fat[nxt] <= 1 then if a.fat[nxt] == 0 then nxt else 1
      else Scan(a.fat, if 2 <= a.last < n then a.last else clst, 0)
  }

  /** The table after cluster `r` is taken and linked behind `clst` (0: a new chain). */
  function Linkage(a: Alloc, clst: nat, r: nat): (fat: seq<nat>)
    requires clst < |a.fat| && r < |a.fat|
    ensures |fat| == |a.fat|
  {
    var marked := a.fat[r := a.eoc];
    if clst == 0 then marked else marked[clst := r]
  }

  lemma PickInRange(a: Alloc, clst: nat)
    requires a.Ok() && clst < |a.fat|
    ensures Pick(a, clst) < |a.fat| && (Pick(a, clst) >= 2 ==> a.fat[Pick(a, clst)] == 0)
    ensures a.free == 0 ==> Pick(a, clst) == 0
  {
    var n := |a.fat|;
    ScanResult(a.fat, if a.last == 0 || a.last >= n then 1 else a.last, 0);
    ScanResult(a.fat, if 2 <= a.last < n then a.last else if clst == 0 then 1 else clst, 0);
  }

  /** Takes the picked cluster: new state and cluster number, or the unchanged state and a status. */
  function Allocate(a: Alloc, clst: nat): (r: (Alloc, nat))
    requires a.Ok() && clst < |a.fat|
  {
    var r := Pick(a, clst);
    if r < 2 then (a, r)
    else
      PickInRange(a, clst);
      (Alloc(Linkage(a, clst, r), if a.free <= |a.fat| - 2 then a.free - 1 else a.free, r, a.eoc), r)
  }

  /** create_chain without disk errors: new state and returned cluster number or status. */
  function Create(a: Alloc, clst: nat): (r: (Alloc, nat))
    requires a.Ok()
  {
    var n := |a.fat|;
    if clst == 0 then Allocate(a, 0)
    else if clst < 2 || clst >= n || a.fat[clst] < 2 then (a, 1)
    else if a.fat[clst] < n then (a, a.fat[clst])
    else Allocate(a, clst)
  }

  /** A call that has to allocate: what it takes, and what it leaves behind it. */
  lemma CreateTakes(a: Alloc, clst: nat)
    requires a.Ok() && (clst == 0 || (2 <= clst < |a.fat| <= a.fat[clst]))
    ensures var (a', r) := Create(a, clst);
            && Takes(a.fat, a.free, a.last, clst, r) && r < |a.fat|
            && (r < 2 ==> a' == a)
            && (r >= 2 ==>
              a'.last == r && |a'.fat| == |a.fat| && a.fat[r] == 0 && a'.fat[r] == a.eoc &&
              (clst != 0 ==> a'.fat[clst] == r))
  {
    PickTakes(a, clst);
    PickInRange(a, clst);
  }

  // ---------- remove_chain ----------

  function FreeOne(a: Alloc, c: nat): Alloc
    requires c < |a.fat|
  {
    a.(fat := a.fat[c := 0], free := if a.free < |a.fat| - 2 then a.free + 1 else a.free)
  }

  /** The release loop of remove_chain: it stops at a free or corrupt entry or past an end mark. */
  function Release(a: Alloc, c: nat): (r: (Alloc, bool))
    requires a.Ok() && 2 <= c < |a.fat|
    ensures r.0.Ok() && |r.0.fat| == |a.fat| && r.0.eoc == a.eoc
    decreases |a.fat| - Zeros(a.fat, |a.fat|)
  {
    var nxt := a.fat[c];
    if nxt < 2 then (a, nxt == 0)
    else
      ZerosUpdate(a.fat, |a.fat|, c, 0);
      var a' := FreeOne(a, c);
      if nxt < |a.fat| then Release(a', nxt) else (a', true)
  }

  lemma ReleaseNext(a: Alloc, c: nat)
    requires a.Ok() && 2 <= c < |a.fat| && 2 <= a.fat[c] < |a.fat|
    ensures Release(a, c) == Release(FreeOne(a, c), a.fat[c])
    ensures Zeros(FreeOne(a, c).fat, |a.fat|) == Zeros(a.fat, |a.fat|) + 1 <= |a.fat| - 2
  {
    ZerosUpdate(a.fat, |a.fat|, c, 0);
  }

  /** remove_chain without disk errors: new state and whether it succeeded. */
  function Remove(a: Alloc, clst: nat, pclst: nat): (r: (Alloc, bool))
    requires a.Ok()
  {
    var n := |a.fat|;
    if clst < 2 || clst >= n then (a, false)
    else if pclst == 0 then Release(a, clst)
    else if pclst < 2 || pclst >= n then (a, false)
    else Release(a.(fat := a.fat[pclst := a.eoc]), clst)
  }

  // ---------- the forest ----------

  /** `ch` is a whole chain: linked on the table in order, without repeats, ended by a mark. */
  ghost predicate Chain(fat: seq<nat>, ch: seq<nat>) {
    && ch != []
    && (forall i | 0 <= i < |ch| :: 2 <= ch[i] < |fat|)
    && (forall i | 0 <= i < |ch| - 1 :: fat[ch[i]] == ch[i + 1])
    && fat[ch[|ch| - 1]] >= |fat|
    && (forall i, j | 0 <= i < j < |ch| :: ch[i] != ch[j])
  }

  ghost predicate Disjoint(chains: seq<seq<nat>>) {
    forall k, l, c | 0 <= k < l < |chains| && c in chains[k] :: c !in chains[l]
  }

  ghost predicate InSome(chains: seq<seq<nat>>, c: nat) {
    exists k | 0 <= k < |chains| :: c in chains[k]
  }

  /** The used clusters are partitioned into whole chains. */
  ghost predicate Forest(fat: seq<nat>, chains: seq<seq<nat>>) {
    && (forall k | 0 <= k < |chains| :: Chain(fat, chains[k]))
    && Disjoint(chains)
    && (forall c | 2 <= c < |fat| && fat[c] != 0 :: InSome(chains, c))
  }

  /** Changing only clusters outside a chain leaves it whole. */
  lemma ChainKept(fat: seq<nat>, fat': seq<nat>, ch: seq<nat>)
    requires Chain(fat, ch) && |fat'| == |fat|
    requires forall i | 0 <= i < |ch| :: fat'[ch[i]] == fat[ch[i]]
    ensures Chain(fat', ch)
  {
  }

  lemma MemberIsUsed(fat: seq<nat>, ch: seq<nat>, c: nat)
    requires Chain(fat, ch) && c in ch
    ensures 2 <= c < |fat| && fat[c] >= 2
  {
    var i :| 0 <= i < |ch| && ch[i] == c;
    if i < |ch| - 1 { assert fat[ch[i]] == ch[i + 1]; }
  }

  lemma ForestIsSound(fat: seq<nat>, chains: seq<seq<nat>>)
    requires Forest(fat, chains)
    ensures Sound(fat)
  {
    forall c | 2 <= c < |fat| ensures fat[c] != 1 {
      if fat[c] != 0 {
        var k :| 0 <= k < |chains| && c in chains[k];
        MemberIsUsed(fat, chains[k], c);
      }
    }
  }

  /** On a table without corrupt entries Pick finds a free cluster, unless the count says zero or there is none. */
  lemma PickOutcome(a: Alloc, clst: nat)
    requires a.Ok() && Sound(a.fat) && (clst == 0 || 2 <= clst < |a.fat|)
    ensures var r := Pick(a, clst);
            (r == 0 <==> a.free == 0 || NoneFree(a.fat)) && r != 1 && (r != 0 ==> 2 <= r < |a.fat| && a.fat[r] == 0)
  {
    var n := |a.fat|;
    if a.free == 0 {
    } else if clst == 0 {
      var from := if a.last == 0 || a.last >= n then 1 else a.last;
      ScanComplete(a.fat, from);
      ScanResult(a.fat, from, 0);
    } else if a.fat[NextCluster(n, clst)] > 1 {
      var from := if 2 <= a.last < n then a.last else clst;
      ScanComplete(a.fat, from);
      ScanResult(a.fat, from, 0);
    }
  }

  /** With an exact or unknown count, Pick fails exactly on a full volume and never takes a used cluster. */
  lemma PickIsFree(a: Alloc, clst: nat)
    requires a.Ok() && a.Exact() && Sound(a.fat)
    requires clst == 0 || (2 <= clst < |a.fat|)
    ensures var r := Pick(a, clst);
            (r == 0 <==> NoneFree(a.fat)) && r != 1 && (r != 0 ==> 2 <= r < |a.fat| && a.fat[r] == 0)
  {
    hide Pick;
    PickOutcome(a, clst);
    if a.free == 0 {
      forall c | 2 <= c < |a.fat| ensures a.fat[c] != 0 {
        if a.fat[c] == 0 { ZerosPositive(a.fat, |a.fat|, c); }
      }
    }
  }

  // ---------- create_chain keeps the forest ----------

  /** The chains after create_chain took `r`: a new one, or chain `k` grown at its end. */
  function Grown(chains: seq<seq<nat>>, k: int, r: nat): seq<seq<nat>>
    requires -1 <= k < |chains|
  {
    if k == -1 then chains + [[r]] else chains[k := chains[k] + [r]]
  }

  /** The cluster to stretch: the last of chain `k`, or 0 for a new chain. */
  function TailOf(chains: seq<seq<nat>>, k: int): nat
    requires -1 <= k < |chains| && (k >= 0 ==> chains[k] != [])
  {
    if k == -1 then 0 else chains[k][|chains[k]| - 1]
  }

  lemma GrownChain(a: Alloc, ch: seq<nat>, r: nat)
    requires a.Ok() && Chain(a.fat, ch) && 2 <= r < |a.fat| && a.fat[r] == 0
    ensures Chain(Linkage(a, ch[|ch| - 1], r), ch + [r])
  {
    assert r !in ch by { if r in ch { MemberIsUsed(a.fat, ch, r); } }
    var last := ch[|ch| - 1];
    var fat' := Linkage(a, last, r);
    var ch' := ch + [r];
    forall i | 0 <= i < |ch'| - 1 ensures fat'[ch'[i]] == ch'[i + 1] {
      if i < |ch| - 1 { assert ch[i] != last && ch[i] != r; }
    }
  }

  /** Membership after growth. */
  lemma GrownMembers(chains: seq<seq<nat>>, k: int, r: nat, c: nat)
    requires -1 <= k < |chains|
    ensures InSome(Grown(chains, k, r), c) <==> InSome(chains, c) || c == r
  {
    var g := Grown(chains, k, r);
    if InSome(chains, c) {
      var l :| 0 <= l < |chains| && c in chains[l];
      assert c in g[l];
    }
    if c == r { assert c in g[if k == -1 then |chains| else k]; }
    if InSome(g, c) && c != r {
      var l :| 0 <= l < |g| && c in g[l];
      assert l < |chains| && c in chains[l];
    }
  }

  lemma GrownDisjoint(chains: seq<seq<nat>>, k: int, r: nat)
    requires -1 <= k < |chains| && Disjoint(chains) && !InSome(chains, r)
    ensures Disjoint(Grown(chains, k, r))
  {
  }

  lemma FreeIsInNone(fat: seq<nat>, chains: seq<seq<nat>>, r: nat)
    requires Forest(fat, chains) && r < |fat| && fat[r] == 0
    ensures !InSome(chains, r)
  {
    if InSome(chains, r) {
      var l :| 0 <= l < |chains| && r in chains[l];
      MemberIsUsed(fat, chains[l], r);
    }
  }

  lemma TailIsUsed(fat: seq<nat>, chains: seq<seq<nat>>, k: int)
    requires Forest(fat, chains) && |fat| >= 3 && -1 <= k < |chains|
    ensures k >= 0 ==> chains[k] != [] && TailOf(chains, k) in chains[k] && 2 <= TailOf(chains, k)
    ensures (k >= 0 ==> chains[k] != []) && TailOf(chains, k) < |fat|
    ensures k >= 0 ==> fat[TailOf(chains, k)] >= |fat|
  {
    if k >= 0 { assert Chain(fat, chains[k]); }
  }

  lemma LinkageElsewhere(a: Alloc, tail: nat, r: nat, ch: seq<nat>)
    requires Chain(a.fat, ch) && tail < |a.fat| && r < |a.fat| && r !in ch && (tail == 0 || tail !in ch)
    ensures Chain(Linkage(a, tail, r), ch)
  {
    var fat' := Linkage(a, tail, r);
    forall i | 0 <= i < |ch| ensures fat'[ch[i]] == a.fat[ch[i]] { assert ch[i] in ch; }
    ChainKept(a.fat, fat', ch);
  }

  lemma GrownIsChain(a: Alloc, chains: seq<seq<nat>>, k: int, r: nat, l: nat)
    requires a.Ok() && Forest(a.fat, chains) && -1 <= k < |chains| && 2 <= r < |a.fat| && a.fat[r] == 0
    requires (k >= 0 ==> chains[k] != []) && TailOf(chains, k) < |a.fat| && l < |Grown(chains, k, r)|
    ensures Chain(Linkage(a, TailOf(chains, k), r), Grown(chains, k, r)[l])
  {
    if l == |chains| {
      assert Grown(chains, k, r)[l] == [r];
    } else {
      var ch := chains[l];
      assert Chain(a.fat, ch);
      if l == k {
        GrownChain(a, ch, r);
      } else {
        OthersAvoid(chains, k, l);
        FreeIsInNone(a.fat, chains, r);
        assert r !in ch;
        LinkageElsewhere(a, TailOf(chains, k), r, ch);
      }
    }
  }

  /** Taking a free cluster behind a chain's end (or as a new chain) keeps the partition, touching no other chain. */
  lemma LinkageKeepsForest(a: Alloc, chains: seq<seq<nat>>, k: int, r: nat)
    requires a.Ok() && Forest(a.fat, chains) && -1 <= k < |chains| && 2 <= r < |a.fat| && a.fat[r] == 0
    ensures k >= 0 ==> chains[k] != []
    ensures TailOf(chains, k) < |a.fat| && Forest(Linkage(a, TailOf(chains, k), r), Grown(chains, k, r))
  {
    TailIsUsed(a.fat, chains, k);
    var fat' := Linkage(a, TailOf(chains, k), r);
    var g := Grown(chains, k, r);
    FreeIsInNone(a.fat, chains, r);
    forall l | 0 <= l < |g| ensures Chain(fat', g[l]) { GrownIsChain(a, chains, k, r, l); }
    GrownDisjoint(chains, k, r);
    forall c | 2 <= c < |fat'| && fat'[c] != 0 ensures InSome(g, c) { GrownMembers(chains, k, r, c); }
  }

  /** No other chain holds the end of chain `k`. */
  lemma OthersAvoid(chains: seq<seq<nat>>, k: int, l: nat)
    requires -1 <= k < |chains| && l < |chains| && l != k && Disjoint(chains)
    requires k >= 0 ==> chains[k] != []
    ensures k >= 0 ==> TailOf(chains, k) !in chains[l]
  {
    if k >= 0 { assert TailOf(chains, k) in chains[k]; }
  }

  // ---------- remove_chain keeps the forest ----------

  function ClearAll(fat: seq<nat>, s: seq<nat>): (r: seq<nat>)
    requires forall i | 0 <= i < |s| :: s[i] < |fat|
    ensures |r| == |fat|
    decreases |s|
  {
    if s == [] then fat else ClearAll(fat[s[0] := 0], s[1..])
  }

  lemma {:induction false} ClearAllAt(fat: seq<nat>, s: seq<nat>, c: nat)
    requires (forall i | 0 <= i < |s| :: s[i] < |fat|) && c < |fat|
    ensures ClearAll(fat, s)[c] == if c in s then 0 else fat[c]
    decreases |s|
  {
    if s != [] { ClearAllAt(fat[s[0] := 0], s[1..], c); }
  }

  /** Releasing from the head of a chain clears exactly that chain. */
  lemma {:induction false} ReleaseChain(a: Alloc, ch: seq<nat>)
    requires a.Ok() && Chain(a.fat, ch)
    ensures |ch| > 0 && 2 <= ch[0] < |a.fat| && (forall i | 0 <= i < |ch| :: ch[i] < |a.fat|)
    ensures Release(a, ch[0]).1 && Release(a, ch[0]).0.fat == ClearAll(a.fat, ch)
    decreases |ch|
  {
    MemberIsUsed(a.fat, ch, ch[0]);
    if |ch| > 1 {
      assert a.fat[ch[0]] == ch[1];
      var a' := FreeOne(a, ch[0]);
      assert ch[1..][0] == ch[1];
      forall i | 0 <= i < |ch| - 2 ensures a'.fat[ch[1..][i]] ==
        ch[1..][i + 1] { assert a.fat[ch[i + 1]] == ch[i + 2]; }
      assert Chain(a'.fat, ch[1..]);
      ReleaseChain(a', ch[1..]);
    } else {
      assert ch[1..] == [];
    }
  }

  /** A walk on the table, however it goes on. */
  ghost predicate Path(fat: seq<nat>, p: seq<nat>) {
    && p != []
    && (forall i | 0 <= i < |p| :: 2 <= p[i] < |fat|)
    && (forall i | 0 <= i < |p| - 1 :: fat[p[i]] == p[i + 1])
    && (forall i, j | 0 <= i < j < |p| :: p[i] != p[j])
  }

  lemma PathRest(fat: seq<nat>, p: seq<nat>)
    requires Path(fat, p) && |p| > 1
    ensures fat[p[0]] == p[1] && Path(fat[p[0] := 0], p[1..]) && p[|p| - 1] != p[0]
  {
    var fat', rest := fat[p[0] := 0], p[1..];
    forall i | 0 <= i < |rest| - 1 ensures fat'[rest[i]] == rest[i + 1] {
      assert fat[p[i + 1]] == p[i + 2];
    }
  }

  lemma ReleaseLast(a: Alloc, c: nat)
    requires a.Ok() && 2 <= c < |a.fat|
    ensures var v, r := a.fat[c], Release(a, c);
            && (v <= 1 ==> r.1 == (v == 0) && r.0 == a)
            && (2 <= v < |a.fat| && (v == c || a.fat[v] == 0) ==> r.1 && r.0.fat == a.fat[c := 0])
  {
    if 2 <= a.fat[c] < |a.fat| { ReleaseNext(a, c); }
  }

  /** On a corrupt table: behind a free entry all is well, a reserved one is an error, and a circle is freed once. */
  lemma {:induction false} ReleaseCorrupt(a: Alloc, p: seq<nat>)
    requires a.Ok() && Path(a.fat, p)
    ensures var v, r := a.fat[p[|p| - 1]], Release(a, p[0]);
            && (v <= 1 ==> r.1 == (v == 0) && r.0.fat == ClearAll(a.fat, p[..|p| - 1]))
            && (2 <= v < |a.fat| && (v in p || a.fat[v] == 0) ==> r.1 && r.0.fat == ClearAll(a.fat, p))
    decreases |p|
  {
    hide Release;
    var c, rest := p[0], p[1..];
    if |p| > 1 {
      PathRest(a.fat, p);
      ReleaseNext(a, c);
      ReleaseCorrupt(FreeOne(a, c), rest);
      assert p[..|p| - 1] == [c] + rest[..|rest| - 1];
      assert p == [c] + rest;
    } else {
      assert rest == [] && p[..0] == [];
      ReleaseLast(a, c);
    }
  }

  /** From any cluster, the release loop keeps a claimed free count exact. */
  lemma {:induction false} ReleaseExact(a: Alloc, c: nat)
    requires a.Ok() && a.Exact() && 2 <= c < |a.fat|
    ensures Release(a, c).0.Exact()
    decreases |a.fat| - Zeros(a.fat, |a.fat|)
  {
    var nxt := a.fat[c];
    if nxt >= 2 {
      ZerosUpdate(a.fat, |a.fat|, c, 0);
      if nxt < |a.fat| { ReleaseExact(FreeOne(a, c), nxt); }
    }
  }

  function Without<T>(s: seq<T>, k: nat): seq<T>
    requires k < |s|
  {
    s[..k] + s[k + 1..]
  }

  lemma ClearElsewhere(fat: seq<nat>, gone: seq<nat>, ch: seq<nat>)
    requires Chain(fat, ch) && (forall i | 0 <= i < |gone| :: gone[i] < |fat|) && (forall c | c in gone :: c !in ch)
    ensures Chain(ClearAll(fat, gone), ch)
  {
    forall i | 0 <= i < |ch| ensures ClearAll(fat, gone)[ch[i]] == fat[ch[i]] {
      assert ch[i] in ch;
      ClearAllAt(fat, gone, ch[i]);
    }
    ChainKept(fat, ClearAll(fat, gone), ch);
  }

  lemma WithoutAt(chains: seq<seq<nat>>, k: nat, l: nat) returns (m: nat)
    requires k < |chains| && l < |chains| - 1
    ensures |Without(chains, k)| == |chains| - 1 && m < |chains| && m != k && Without(chains, k)[l] == chains[m]
    ensures m == if l < k then l else l + 1
  {
    m := if l < k then l else l + 1;
  }

  lemma DropLeavesChains(fat: seq<nat>, chains: seq<seq<nat>>, k: nat, m: nat)
    requires Forest(fat, chains) && k < |chains| && m < |chains| && m != k
    requires forall i | 0 <= i < |chains[k]| :: chains[k][i] < |fat|
    ensures Chain(ClearAll(fat, chains[k]), chains[m])
  {
    assert Chain(fat, chains[m]);
    ClearElsewhere(fat, chains[k], chains[m]);
  }

  lemma DropDisjoint(chains: seq<seq<nat>>, k: nat)
    requires Disjoint(chains) && k < |chains|
    ensures Disjoint(Without(chains, k))
  {
    var rest := Without(chains, k);
    forall l, m, c | 0 <= l < m < |rest| && c in rest[l] ensures c !in rest[m] {
      var l' := WithoutAt(chains, k, l);
      var m' := WithoutAt(chains, k, m);
    }
  }

  lemma DropCovers(chains: seq<seq<nat>>, k: nat, c: nat)
    requires k < |chains| && InSome(chains, c) && c !in chains[k]
    ensures InSome(Without(chains, k), c)
  {
    var m :| 0 <= m < |chains| && c in chains[m];
    var l := if m < k then m else m - 1;
    var m' := WithoutAt(chains, k, l);
    assert c in Without(chains, k)[l];
  }

  /** Clearing one whole chain removes it from the partition and leaves the others as they were. */
  lemma DropKeepsForest(fat: seq<nat>, chains: seq<seq<nat>>, k: nat)
    requires Forest(fat, chains) && k < |chains|
    ensures forall i | 0 <= i < |chains[k]| :: chains[k][i] < |fat|
    ensures Forest(ClearAll(fat, chains[k]), Without(chains, k))
  {
    assert Chain(fat, chains[k]);
    var fat' := ClearAll(fat, chains[k]);
    var rest := Without(chains, k);
    forall l | 0 <= l < |rest| ensures Chain(fat', rest[l]) {
      var m := WithoutAt(chains, k, l);
      DropLeavesChains(fat, chains, k, m);
    }
    DropDisjoint(chains, k);
    forall c | 2 <= c < |fat'| && fat'[c] != 0 ensures InSome(rest, c) {
      ClearAllAt(fat, chains[k], c);
      DropCovers(chains, k, c);
    }
  }

  /** Chain `k` cut in two before its element `i`; the tail part goes last. */
  function Cut(chains: seq<seq<nat>>, k: nat, i: nat): seq<seq<nat>>
    requires k < |chains| && 0 < i < |chains[k]|
  {
    chains[k := chains[k][..i]] + [chains[k][i..]]
  }

  lemma CutPieces(fat: seq<nat>, ch: seq<nat>, i: nat, eoc: nat)
    requires Chain(fat, ch) && 0 < i < |ch| && eoc >= |fat|
    ensures Chain(fat[ch[i - 1] := eoc], ch[..i]) && Chain(fat[ch[i - 1] := eoc], ch[i..])
  {
    var fat' := fat[ch[i - 1] := eoc];
    forall j | 0 <= j < i - 1 ensures fat'[ch[..i][j]] == ch[..i][j + 1] { assert ch[j] != ch[i - 1]; }
    forall j | 0 <= j < |ch| - i ensures fat'[ch[i..][j]] == fat[ch[i + j]] { assert ch[i + j] != ch[i - 1]; }
    forall j | 0 <= j < |ch| - i - 1 ensures fat'[ch[i..][j]] ==
      ch[i..][j + 1] { assert fat[ch[i + j]] == ch[i + j + 1]; }
  }

  lemma CutMembers(chains: seq<seq<nat>>, k: nat, i: nat, c: nat)
    requires k < |chains| && 0 < i < |chains[k]| && InSome(chains, c)
    ensures InSome(Cut(chains, k, i), c)
  {
    var m :| 0 <= m < |chains| && c in chains[m];
    var cut := Cut(chains, k, i);
    if m == k {
      var j :| 0 <= j < |chains[k]| && chains[k][j] == c;
      if j < i { assert cut[k][j] == c; } else { assert cut[|chains|][j - i] == c; }
    } else {
      assert c in cut[m];
    }
  }

  lemma CutDisjoint(fat: seq<nat>, chains: seq<seq<nat>>, k: nat, i: nat)
    requires Forest(fat, chains) && k < |chains| && 0 < i < |chains[k]|
    ensures Disjoint(Cut(chains, k, i))
  {
    var ch := chains[k];
    assert Chain(fat, ch);
    assert forall c | c in ch[..i] :: c !in ch[i..];
    assert forall c | c in ch[..i] || c in ch[i..] :: c in ch;
  }

  lemma UpdateElsewhere(fat: seq<nat>, c: nat, v: nat, ch: seq<nat>)
    requires Chain(fat, ch) && c < |fat| && c !in ch
    ensures Chain(fat[c := v], ch)
  {
    forall j | 0 <= j < |ch| ensures fat[c := v][ch[j]] == fat[ch[j]] { assert ch[j] in ch; }
    ChainKept(fat, fat[c := v], ch);
  }

  /** Ending a chain early splits it into two chains of the partition. */
  lemma CutKeepsForest(fat: seq<nat>, chains: seq<seq<nat>>, k: nat, i: nat, eoc: nat)
    requires Forest(fat, chains) && k < |chains| && 0 < i < |chains[k]| && eoc >= |fat| >= 3
    ensures chains[k][i - 1] < |fat| && Forest(fat[chains[k][i - 1] := eoc], Cut(chains, k, i))
  {
    var ch := chains[k];
    assert Chain(fat, ch);
    var fat' := fat[ch[i - 1] := eoc];
    var cut := Cut(chains, k, i);
    CutPieces(fat, ch, i, eoc);
    forall l | 0 <= l < |cut| ensures Chain(fat', cut[l]) {
      if l != k && l < |chains| {
        assert Chain(fat, chains[l]);
        assert ch[i - 1] in ch && ch[i - 1] !in chains[l];
        UpdateElsewhere(fat, ch[i - 1], eoc, chains[l]);
      }
    }
    CutDisjoint(fat, chains, k, i);
    forall c | 2 <= c < |fat'| && fat'[c] != 0 ensures InSome(cut, c) {
      if c == ch[i - 1] { assert c in chains[k]; }
      CutMembers(chains, k, i, c);
    }
  }

  /** The chains after remove_chain from element `i` of chain `k`. */
  function Shortened(chains: seq<seq<nat>>, k: nat, i: nat): seq<seq<nat>>
    requires k < |chains| && i < |chains[k]|
  {
    if i == 0 then Without(chains, k) else chains[k := chains[k][..i]]
  }

  /** remove_chain frees exactly the suffix, ends its predecessor and touches no other chain. */
  lemma RemoveKeepsForest(a: Alloc, chains: seq<seq<nat>>, k: nat, i: nat)
    requires a.Ok() && Forest(a.fat, chains) && k < |chains| && i < |chains[k]|
    ensures var r := Remove(a, chains[k][i], if i == 0 then 0 else chains[k][i - 1]);
            r.1 && Forest(r.0.fat, Shortened(chains, k, i))
  {
    assert Chain(a.fat, chains[k]);
    if i == 0 {
      ReleaseChain(a, chains[k]);
      DropKeepsForest(a.fat, chains, k);
    } else {
      TruncateKeepsForest(a, chains, k, i);
    }
  }

  lemma CutTail(a: Alloc, chains: seq<seq<nat>>, k: nat, i: nat)
    requires a.Ok() && Forest(a.fat, chains) && k < |chains| && 0 < i < |chains[k]|
    ensures 2 <= chains[k][i] < |a.fat| && 2 <= chains[k][i - 1] < |a.fat|
    ensures Forest(a.fat[chains[k][i - 1] := a.eoc], Cut(chains, k, i))
    ensures Chain(a.fat[chains[k][i - 1] := a.eoc], Cut(chains, k, i)[|chains|])
  {
    assert Chain(a.fat, chains[k]);
    CutKeepsForest(a.fat, chains, k, i, a.eoc);
  }

  lemma TruncateKeepsForest(a: Alloc, chains: seq<seq<nat>>, k: nat, i: nat)
    requires a.Ok() && Forest(a.fat, chains) && k < |chains| && 0 < i < |chains[k]|
    ensures var r := Remove(a, chains[k][i], chains[k][i - 1]);
            r.1 && Forest(r.0.fat, Shortened(chains, k, i))
  {
    hide Forest, Chain;
    CutTail(a, chains, k, i);
    var a' := a.(fat := a.fat[chains[k][i - 1] := a.eoc]);
    var cut := Cut(chains, k, i);
    assert cut[|chains|][0] == chains[k][i];
    ReleaseChain(a', cut[|chains|]);
    DropKeepsForest(a'.fat, cut, |chains|);
    assert Without(cut, |chains|) == Shortened(chains, k, i);
  }

  lemma RemoveExact(a: Alloc, chains: seq<seq<nat>>, k: nat, i: nat)
    requires a.Ok() && a.Exact() && Forest(a.fat, chains) && k < |chains| && i < |chains[k]|
    ensures Remove(a, chains[k][i], if i == 0 then 0 else chains[k][i - 1]).0.Exact()
  {
    var ch := chains[k];
    assert Chain(a.fat, ch);
    if i == 0 {
      ReleaseExact(a, ch[0]);
    } else {
      MemberIsUsed(a.fat, ch, ch[i - 1]);
      ZerosUpdate(a.fat, |a.fat|, ch[i - 1], a.eoc);
      ReleaseExact(a.(fat := a.fat[ch[i - 1] := a.eoc]), ch[i]);
    }
  }

  lemma CreateExact(a: Alloc, chains: seq<seq<nat>>, k: int)
    requires a.Ok() && a.Exact() && Forest(a.fat, chains) && -1 <= k < |chains|
    ensures k >= 0 ==> chains[k] != []
    ensures Create(a, TailOf(chains, k)).0.Ok() && Create(a, TailOf(chains, k)).0.Exact()
  {
    TailIsUsed(a.fat, chains, k);
    ForestIsSound(a.fat, chains);
    hide Forest, Pick;
    var tail := TailOf(chains, k);
    PickIsFree(a, tail);
    var r := Pick(a, tail);
    if r >= 2 {
      ZerosUpdate(a.fat, |a.fat|, r, a.eoc);
      ZerosPositive(a.fat, |a.fat|, r);
      if tail != 0 { ZerosUpdate(a.fat[r := a.eoc], |a.fat|, tail, r); }
    }
  }

  // ---------- whole runs ----------

  datatype Op = NewChain | Extend(k: nat) | Truncate(k: nat, i: nat)

  /** The chain a create_chain request stretches; -1 for a new chain. */
  function Target(op: Op): int {
    match op
    case Extend(k) => k
    case _ => -1
  }

  datatype World = World(a: Alloc, chains: seq<seq<nat>>)
  {
    ghost predicate Inv() {
      a.Ok() && a.Exact() && Forest(a.fat, chains)
    }

    /** Requests that name a chain, or a cluster of a chain. */
    predicate Sensible(op: Op) {
      match op
      case NewChain => true
      case Extend(k) => k < |chains| && chains[k] != []
      case Truncate(k, i) => k < |chains| && i < |chains[k]|
    }

    /** One call of create_chain or remove_chain, with the effect it should have on the list of chains. */
    ghost function Step(op: Op): World
      requires a.Ok() && Sensible(op)
    {
      match op
      case Truncate(k, i) =>
        World(Remove(a, chains[k][i], if i == 0 then 0 else chains[k][i - 1]).0, Shortened(chains, k, i))
      case _ =>
        var k := Target(op);
        var r := Create(a, TailOf(chains, k));
        World(r.0, if r.1 < 2 then chains else Grown(chains, k, r.1))
    }
  }

  /** create_chain on the end of chain `k` (-1: a new one) succeeds exactly while a cluster is free. */
  lemma CreateKeepsForest(a: Alloc, chains: seq<seq<nat>>, k: int)
    requires a.Ok() && a.Exact() && Forest(a.fat, chains) && -1 <= k < |chains|
    ensures k >= 0 ==> chains[k] != []
    ensures var (a', r) := Create(a, TailOf(chains, k));
            (r == 0 <==> NoneFree(a.fat)) && r != 1 &&
            (r != 0 ==> 2 <= r < |a.fat| && a.fat[r] == 0) &&
            Forest(a'.fat, if r == 0 then chains else Grown(chains, k, r))
  {
    hide Forest, Pick, Linkage;
    ForestIsSound(a.fat, chains);
    TailIsUsed(a.fat, chains, k);
    var tail := TailOf(chains, k);
    PickIsFree(a, tail);
    var r := Pick(a, tail);
    if r >= 2 { LinkageKeepsForest(a, chains, k, r); }
  }

  /** Every step keeps the forest and the count. */
  lemma StepKeepsInv(w: World, op: Op)
    requires w.Inv() && w.Sensible(op)
    ensures w.Step(op).Inv()
  {
    match op
    case Truncate(k, i) =>
      RemoveKeepsForest(w.a, w.chains, k, i);
      RemoveExact(w.a, w.chains, k, i);
    case _ =>
      CreateExact(w.a, w.chains, Target(op));
      CreateKeepsForest(w.a, w.chains, Target(op));
  }

  /** A run: each request is sensible when its turn comes. */
  ghost predicate IsRun(w: World, ops: seq<Op>)
    requires w.a.Ok()
    decreases |ops|
  {
    ops == [] || (w.Sensible(ops[0]) && w.Step(ops[0]).a.Ok() && IsRun(w.Step(ops[0]), ops[1..]))
  }

  ghost function After(w: World, ops: seq<Op>): World
    requires w.a.Ok() && IsRun(w, ops)
    decreases |ops|
  {
    if ops == [] then w else After(w.Step(ops[0]), ops[1..])
  }

  /**
   * Over every run the table stays a disjoint acyclic forest of exactly the expected chains, with an exact free count.
   */
  lemma {:induction false} RunKeepsForest(w: World, ops: seq<Op>)
    requires w.Inv() && IsRun(w, ops)
    ensures After(w, ops).Inv()
    decreases |ops|
  {
    if ops != [] {
      StepKeepsInv(w, ops[0]);
      RunKeepsForest(w.Step(ops[0]), ops[1..]);
    }
  }

  // ---------- create_chain on one file ----------

  /** The table after a successful tail allocation behind `chain`. */
  ghost predicate Lengthened(fat: seq<nat>, fat': seq<nat>, chain: seq<nat>, r: nat) {
    && |fat'| == |fat| && 2 <= r < |fat| && fat[r] == 0 && r !in chain
    && Chain(fat', chain + [r]) && Sound(fat')
    && forall c | 0 <= c < |fat| && c !in chain && c != r :: fat'[c] == fat[c]
  }

  lemma LinkageLengthens(a: Alloc, chain: seq<nat>, r: nat)
    requires a.Ok() && Sound(a.fat) && (chain != [] ==> Chain(a.fat, chain)) && 2 <= r < |a.fat| && a.fat[r] == 0
    ensures var tail := if chain == [] then 0 else chain[|chain| - 1];
            tail < |a.fat| && Lengthened(a.fat, Linkage(a, tail, r), chain, r)
  {
    if chain == [] {
      assert chain + [r] == [r];
    } else {
      if r in chain { MemberIsUsed(a.fat, chain, r); }
      GrownChain(a, chain, r);
      assert chain[|chain| - 1] in chain;
    }
  }

  /** create_chain from a file's chain: it follows inside the chain and lengthens it at the end. */
  lemma CreateOnChain(a: Alloc, chain: seq<nat>, c: nat, i: nat)
    requires a.Ok() && Sound(a.fat)
    requires if c == 0 then chain == [] else Chain(a.fat, chain) && i < |chain| && c == chain[i]
    ensures var (a', r) := Create(a, c);
            if c != 0 && i + 1 < |chain| then a' == a && r == chain[i + 1] && 2 <= r < |a.fat|
            else if r == 0 then a' == a && (a.free == 0 || NoneFree(a.fat))
            else Lengthened(a.fat, a'.fat, chain, r) && a.free > 0 &&
                 a'.free == if a.free <= |a.fat| - 2 then a.free - 1 else a.free
  {
    hide Pick, Linkage, Lengthened;
    PickInRange(a, c);
    if c == 0 || i + 1 == |chain| {
      PickOutcome(a, c);
      if Pick(a, c) >= 2 { LinkageLengthens(a, chain, Pick(a, c)); }
    } else {
      assert a.fat[c] == chain[i + 1];
    }
  }
}
