/** Where the bytes of a file lie on the disk, and what writing sectors does to them. */
module FileData {
  import opened Bytes
  import opened Arith

  /** Cluster geometry: sectors per cluster and first data sector. */
  datatype Layout = Layout(csize: nat, database: nat)

  function ClusterBase(l: Layout, c: nat): nat
    requires c >= 2
  {
    l.database + l.csize * (c - 2)
  }

  /** Index in the chain of the cluster that holds file sector `q`, and the sector's place in that cluster. */
  function Ci(l: Layout, q: nat): nat
    requires l.csize > 0
  {
    q / l.csize
  }

  function Co(l: Layout, q: nat): nat
    requires l.csize > 0
  {
    q % l.csize
  }

  /** The sector that holds file sector `q` of a chain. */
  function Loc(l: Layout, chain: seq<nat>, q: nat): nat
    requires l.csize > 0 && Ci(l, q) < |chain| && forall i | 0 <= i < |chain| :: chain[i] >= 2
  {
    ClusterBase(l, chain[Ci(l, q)]) + Co(l, q)
  }

  /** Chain clusters are distinct and lie on the disk. */
  ghost predicate Placed(l: Layout, chain: seq<nat>, sectors: nat) {
    && l.csize > 0
    && (forall i | 0 <= i < |chain| :: chain[i] >= 2 && ClusterBase(l, chain[i]) + l.csize <= sectors)
    && (forall i, j | 0 <= i < j < |chain| :: chain[i] != chain[j])
  }

  /** `size` bytes fit in `n` clusters. */
  predicate Room(l: Layout, n: nat, size: nat)
    requires l.csize > 0
  {
    size == 0 || Ci(l, (size - 1) / 512) < n
  }

  /** Every byte below `size` has a cluster. */
  lemma RoomFor(l: Layout, n: nat, size: nat, p: nat)
    requires l.csize > 0 && Room(l, n, size) && p < size
    ensures Ci(l, p / 512) < n
  {
    DivMono(p / 512, (size - 1) / 512, l.csize);
  }

  lemma ClusterUnique(l: Layout, c: nat, j: nat, d: nat, k: nat)
    requires l.csize > 0 && c >= 2 && d >= 2 && j < l.csize && k < l.csize
    requires ClusterBase(l, c) + j == ClusterBase(l, d) + k
    ensures c == d && j == k
  {
    RemainderIs(l.csize * (c - 2) + j, l.csize, c - 2, j);
    RemainderIs(l.csize * (c - 2) + j, l.csize, d - 2, k);
  }

  lemma SameQuot(q: nat, k: nat, c: nat)
    requires c > 0 && q % c + k < c
    ensures (q + k) / c == q / c && (q + k) % c == q % c + k
  {
    QuotRem(q, c);
    RemainderIs(q + k, c, q / c, q % c + k);
  }

  /** Consecutive file sectors of one cluster are consecutive on the disk. */
  lemma LocStep(l: Layout, chain: seq<nat>, sectors: nat, q: nat, k: nat)
    requires Placed(l, chain, sectors) && Ci(l, q) < |chain| && Co(l, q) + k < l.csize
    ensures Ci(l, q + k) == Ci(l, q) && Co(l, q + k) == Co(l, q) + k
    ensures Loc(l, chain, q + k) == Loc(l, chain, q) + k < sectors
  {
    hide ClusterBase;
    SameQuot(q, k, l.csize);
  }

  /** Of all file sectors, exactly `q` to `q + cc - 1` lie in the `cc` disk sectors from that of `q` on. */
  lemma LocRange(l: Layout, chain: seq<nat>, sectors: nat, q: nat, cc: nat, r: nat)
    requires Placed(l, chain, sectors) && Ci(l, q) < |chain| && Ci(l, r) < |chain| && Co(l, q) + cc <= l.csize
    ensures Loc(l, chain, q) <= Loc(l, chain, r) < Loc(l, chain, q) + cc <==> q <= r < q + cc
  {
    hide ClusterBase;
    if q <= r < q + cc {
      LocStep(l, chain, sectors, q, r - q);
    } else if Loc(l, chain, q) <= Loc(l, chain, r) < Loc(l, chain, q) + cc {
      LocBack(l, chain, sectors, q, cc, r);
    }
  }

  lemma SameCluster(l: Layout, chain: seq<nat>, sectors: nat, a: nat, x: nat, b: nat, y: nat)
    requires Placed(l, chain, sectors) && a < |chain| && b < |chain| && x < l.csize && y < l.csize
    requires ClusterBase(l, chain[a]) + x == ClusterBase(l, chain[b]) + y
    ensures a == b && x == y
  {
    ClusterUnique(l, chain[a], x, chain[b], y);
  }

  lemma LocBack(l: Layout, chain: seq<nat>, sectors: nat, q: nat, cc: nat, r: nat)
    requires Placed(l, chain, sectors) && Ci(l, q) < |chain| && Ci(l, r) < |chain| && Co(l, q) + cc <= l.csize
    requires Loc(l, chain, q) <= Loc(l, chain, r) < Loc(l, chain, q) + cc
    ensures q <= r < q + cc
  {
    hide ClusterBase;
    var a, x, b, y := Ci(l, q), Co(l, q), Ci(l, r), Co(l, r);
    QuotRem(q, l.csize);
    QuotRem(r, l.csize);
    var k := Loc(l, chain, r) - Loc(l, chain, q);
    assert ClusterBase(l, chain[a]) + (x + k) == ClusterBase(l, chain[b]) + y;
    hide Loc;
    SameCluster(l, chain, sectors, a, x + k, b, y);
    assert l.csize * a == l.csize * b;
  }

  // ---------- contents ----------

  /** The byte at file position `p`. */
  ghost function ByteAt(l: Layout, disk: seq<Sector>, chain: seq<nat>, p: nat): byte
    requires Placed(l, chain, |disk|) && Ci(l, p / 512) < |chain|
  {
    LocStep(l, chain, |disk|, p / 512, 0);
    disk[Loc(l, chain, p / 512)][p % 512]
  }

  /** The file: its first `size` bytes. */
  ghost function Content(l: Layout, disk: seq<Sector>, chain: seq<nat>, size: nat): (b: seq<byte>)
    requires Placed(l, chain, |disk|) && Room(l, |chain|, size)
    ensures |b| == size
  {
    if size == 0 then []
    else
      assert Room(l, |chain|, size - 1) by { if size > 1 { RoomFor(l, |chain|, size, size - 2); } }
      Content(l, disk, chain, size - 1) + [ByteAt(l, disk, chain, size - 1)]
  }

  lemma {:induction false} ContentAt(l: Layout, disk: seq<Sector>, chain: seq<nat>, size: nat, p: nat)
    requires Placed(l, chain, |disk|) && Room(l, |chain|, size) && p < size
    ensures Ci(l, p / 512) < |chain| && Content(l, disk, chain, size)[p] == ByteAt(l, disk, chain, p)
  {
    RoomFor(l, |chain|, size, p);
    if p < size - 1 {
      RoomFor(l, |chain|, size, size - 2);
      ContentAt(l, disk, chain, size - 1, p);
    }
  }

  /** Writing `data` over `s` at offset `f`, growing it if needed. */
  function Splice(s: seq<byte>, f: nat, data: seq<byte>): (r: seq<byte>)
    requires f <= |s|
    ensures |r| == if f + |data| > |s| then f + |data| else |s|
  {
    if f + |data| >= |s| then s[..f] + data else s[..f] + data + s[f + |data|..]
  }

  lemma SpliceAt(s: seq<byte>, f: nat, data: seq<byte>, p: nat)
    requires f <= |s| && p < |Splice(s, f, data)|
    ensures Splice(s, f, data)[p] == (if f <= p < f + |data| then data[p - f] else s[p])
    ensures !(f <= p < f + |data|) ==> p < |s|
  {
  }

  /** Two writes, the second where the first ended, are one write. */
  lemma SpliceTwice(s: seq<byte>, f: nat, a: seq<byte>, b: seq<byte>)
    requires f <= |s|
    ensures Splice(Splice(s, f, a), f + |a|, b) == Splice(s, f, a + b)
  {
  }

  lemma SameLoc(l: Layout, chain: seq<nat>, c: nat, q: nat)
    requires l.csize > 0 && (forall i | 0 <= i < |chain| :: chain[i] >= 2) && c >= 2
    ensures Ci(l, q) < |chain| ==> Loc(l, chain + [c], q) == Loc(l, chain, q)
  {
  }

  lemma ByteGrow(l: Layout, disk: seq<Sector>, chain: seq<nat>, c: nat, p: nat)
    requires Placed(l, chain, |disk|) && Placed(l, chain + [c], |disk|) && Ci(l, p / 512) < |chain|
    ensures ByteAt(l, disk, chain + [c], p) == ByteAt(l, disk, chain, p)
  {
    assert (chain + [c])[|chain|] == c;
    hide Loc;
    LocStep(l, chain, |disk|, p / 512, 0);
    SameLoc(l, chain, c, p / 512);
  }

  /** New sectors at the end of the chain do not change what is already in the file. */
  lemma ContentGrow(l: Layout, disk: seq<Sector>, chain: seq<nat>, c: nat, size: nat)
    requires Placed(l, chain, |disk|) && Placed(l, chain + [c], |disk|) && Room(l, |chain|, size)
    ensures Room(l, |chain| + 1, size) && Content(l, disk, chain + [c], size) == Content(l, disk, chain, size)
  {
    assert Room(l, |chain| + 1, size);
    hide ByteAt, Content;
    forall p | 0 <= p < size ensures Content(l, disk, chain + [c], size)[p] == Content(l, disk, chain, size)[p] {
      ContentAt(l, disk, chain, size, p);
      ContentAt(l, disk, chain + [c], size, p);
      ByteGrow(l, disk, chain, c, p);
    }
  }

  /** The two disks agree on every sector of the chain. */
  ghost predicate AgreeOn(l: Layout, chain: seq<nat>, d: seq<Sector>, e: seq<Sector>)
    requires Placed(l, chain, |d|)
  {
    |d| == |e| && forall q: nat | Ci(l, q) < |chain| ::
      Loc(l, chain, q) < |d| && e[Loc(l, chain, q)] == d[Loc(l, chain, q)]
  }

  /** Disks that agree on the chain's sectors hold the same file. */
  lemma ContentSame(l: Layout, disk: seq<Sector>, disk': seq<Sector>, chain: seq<nat>, size: nat)
    requires Placed(l, chain, |disk|) && AgreeOn(l, chain, disk, disk') && Room(l, |chain|, size)
    ensures Content(l, disk', chain, size) == Content(l, disk, chain, size)
  {
    forall p | 0 <= p < size ensures Content(l, disk', chain, size)[p] == Content(l, disk, chain, size)[p] {
      ContentAt(l, disk, chain, size, p);
      ContentAt(l, disk', chain, size, p);
    }
  }

  /**
   * Sectors `q` to `q + cc - 1` of the file were rewritten so that `data` stands at position `f`, nothing else changed.
   */
  ghost predicate Rewritten(l: Layout, disk: seq<Sector>, disk': seq<Sector>, chain: seq<nat>, size: nat, q: nat,
      cc: nat, f: nat, data: seq<byte>)
    requires Placed(l, chain, |disk|) && Ci(l, q) < |chain| && Co(l, q) + cc <= l.csize
  {
    var s := Loc(l, chain, q);
    && |disk'| == |disk|
    && 512 * q <= f && f + |data| <= 512 * (q + cc)
    && (forall x | 0 <= x < |disk| && !(s <= x < s + cc) :: disk'[x] == disk[x])
    && (forall p | 512 * q <= p < 512 * (q + cc) && s + (p / 512 - q) < |disk| ::
          disk'[s + (p / 512 - q)][p % 512] ==
          if f <= p < f + |data| then data[p - f] else if p < size then disk[s + (p / 512 - q)][p % 512]
            else disk'[s + (p / 512 - q)][p % 512])
  }

  lemma RewrittenByte(l: Layout, disk: seq<Sector>, disk': seq<Sector>, chain: seq<nat>, size: nat, q: nat, cc: nat,
      f: nat, data: seq<byte>, p: nat)
    requires Placed(l, chain, |disk|) && Ci(l, q) < |chain| && Co(l, q) + cc <= l.csize
    requires Rewritten(l, disk, disk', chain, size, q, cc, f, data) && Ci(l, p / 512) < |chain|
    ensures f <= p < f + |data| ==> ByteAt(l, disk', chain, p) == data[p - f]
    ensures !(f <= p < f + |data|) && p < size ==> ByteAt(l, disk', chain, p) == ByteAt(l, disk, chain, p)
  {
    var r := p / 512;
    LocRange(l, chain, |disk|, q, cc, r);
    if q <= r < q + cc { LocStep(l, chain, |disk|, q, r - q); } else { LocStep(l, chain, |disk|, r, 0); }
  }

  /** Rewriting sectors splices the data into the file, and the file still fits its chain. */
  lemma WriteLands(l: Layout, disk: seq<Sector>, disk': seq<Sector>, chain: seq<nat>, size: nat, q: nat, cc: nat,
      f: nat, data: seq<byte>)
    requires Placed(l, chain, |disk|) && Ci(l, q) < |chain| && Co(l, q) + cc <= l.csize && Room(l, |chain|, size) &&
             f <= size
    requires Rewritten(l, disk, disk', chain, size, q, cc, f, data) && data != []
    ensures var size' := if f + |data| > size then f + |data| else size;
            Room(l, |chain|, size') && Content(l, disk', chain, size') == Splice(Content(l, disk, chain, size), f, data)
  {
    var size' := if f + |data| > size then f + |data| else size;
    var top := (f + |data| - 1) / 512;
    assert q <= top < q + cc;
    LocStep(l, chain, |disk|, q, top - q);
    var was := Content(l, disk, chain, size);
    forall p | 0 <= p < size' ensures Content(l, disk', chain, size')[p] == Splice(was, f, data)[p] {
      ContentAt(l, disk', chain, size', p);
      RewrittenByte(l, disk, disk', chain, size, q, cc, f, data, p);
      SpliceAt(was, f, data, p);
      if p < size { ContentAt(l, disk, chain, size, p); }
    }
  }

  // ---------- cursor arithmetic ----------

  /**
   * The cluster index of the byte before `f` and of the byte at `f`: equal inside a cluster, one apart at its start.
   */
  lemma IndexBefore(l: Layout, f: nat)
    requires f > 0 && l.csize > 0
    ensures f % 512 != 0 || Co(l, f / 512) != 0 ==> Ci(l, (f - 1) / 512) == Ci(l, f / 512)
    ensures f % 512 == 0 && Co(l, f / 512) == 0 ==> Ci(l, (f - 1) / 512) + 1 == Ci(l, f / 512)
  {
    var q, c := f / 512, l.csize;
    if f % 512 != 0 {
      assert (f - 1) / 512 == q;
    } else {
      assert (f - 1) / 512 == q - 1;
      QuotRem(q, c);
      if q % c != 0 {
        RemainderIs(q - 1, c, q / c, q % c - 1);
      } else {
        assert q - 1 == c * (q / c - 1) + (c - 1);
        RemainderIs(q - 1, c, q / c - 1, c - 1);
      }
    }
  }

  lemma IndexZero(l: Layout)
    requires l.csize > 0
    ensures Ci(l, 0) == 0 && Co(l, 0) == 0
  {
    RemainderIs(0, l.csize, 0, 0);
  }

  /** A file sector of the chain lies in the data area, inside its cluster. */
  lemma LocIn(l: Layout, chain: seq<nat>, sectors: nat, q: nat)
    requires Placed(l, chain, sectors) && Ci(l, q) < |chain|
    ensures l.database <= Loc(l, chain, q) < sectors && Co(l, q) < l.csize
  {
    QuotRem(q, l.csize);
    var c := chain[Ci(l, q)];
    assert 0 <= l.csize * (c - 2);
  }

  /** Sector `k` of a buffer. */
  function Piece(bytes: seq<byte>, k: nat): Sector
    requires 512 * k + 512 <= |bytes|
  {
    bytes[512 * k..512 * k + 512]
  }

  lemma PieceAt(bytes: seq<byte>, j: nat)
    requires |bytes| % 512 == 0 && j < |bytes|
    ensures 512 * (j / 512) + 512 <= |bytes| && Piece(bytes, j / 512)[j % 512] == bytes[j]
  {
  }

  /** A whole-sector buffer with its sector `i` replaced. */
  lemma PieceReplaced(bytes: seq<byte>, i: nat, s: Sector, k: nat)
    requires 512 * i + 512 <= |bytes| && 512 * k + 512 <= |bytes|
    ensures var r := bytes[..512 * i] + s + bytes[512 * i + 512..];
            |r| == |bytes| && Piece(r, k) == if k == i then s else Piece(bytes, k)
  {
    var r := bytes[..512 * i] + s + bytes[512 * i + 512..];
    if k < i {
      assert Piece(r, k) == Piece(bytes, k);
    } else if k > i {
      assert Piece(r, k) == Piece(bytes, k);
    } else {
      assert Piece(r, k) == s;
    }
  }

  /** Byte `o` of file sector `r`, seen from file sector `q` of the same cluster. */
  lemma ContentIn(l: Layout, disk: seq<Sector>, chain: seq<nat>, size: nat, q: nat, r: nat, o: nat)
    requires Placed(l, chain, |disk|) && Room(l, |chain|, size) && Ci(l, q) < |chain|
    requires q <= r && Co(l, q) + (r - q) < l.csize && o < 512 && 512 * r + o < size
    ensures Loc(l, chain, q) + (r - q) < |disk|
    ensures Content(l, disk, chain, size)[512 * r + o] == disk[Loc(l, chain, q) + (r - q)][o]
  {
    hide Ci, Co, Loc, Content, Room;
    var p := 512 * r + o;
    assert p / 512 == r && p % 512 == o;
    ContentAt(l, disk, chain, size, p);
    LocStep(l, chain, |disk|, q, r - q);
  }

  /** Whole sectors read from the disk place of file sector `q` are the file's bytes there. */
  lemma ReadGives(l: Layout, disk: seq<Sector>, chain: seq<nat>, size: nat, q: nat, cc: nat, bytes: seq<byte>)
    requires Placed(l, chain, |disk|) && Room(l, |chain|, size) && Ci(l, q) < |chain| && Co(l, q) + cc <= l.csize
    requires |bytes| == 512 * cc && 512 * (q + cc) <= size && Loc(l, chain, q) + cc <= |disk|
    requires forall k | 0 <= k < cc :: Piece(bytes, k) == disk[Loc(l, chain, q) + k]
    ensures bytes == Content(l, disk, chain, size)[512 * q..512 * (q + cc)]
  {
    var c := Content(l, disk, chain, size)[512 * q..512 * (q + cc)];
    forall j | 0 <= j < |bytes| ensures c[j] == bytes[j] { ReadGivesAt(l, disk, chain, size, q, cc, bytes, j); }
  }

  lemma ReadGivesAt(l: Layout, disk: seq<Sector>, chain: seq<nat>, size: nat, q: nat, cc: nat, bytes: seq<byte>, j: nat)
    requires Placed(l, chain, |disk|) && Room(l, |chain|, size) && Ci(l, q) < |chain| && Co(l, q) + cc <= l.csize
    requires |bytes| == 512 * cc && 512 * (q + cc) <= size && Loc(l, chain, q) + cc <= |disk| && j < |bytes|
    requires forall k | 0 <= k < cc :: Piece(bytes, k) == disk[Loc(l, chain, q) + k]
    ensures Content(l, disk, chain, size)[512 * q + j] == bytes[j]
  {
    hide Ci, Co, Loc, Content, Room, Piece;
    var i, o := j / 512, j % 512;
    assert j == 512 * i + o && i < cc;
    PieceAt(bytes, j);
    ContentIn(l, disk, chain, size, q, q + i, o);
    assert 512 * (q + i) + o == 512 * q + j;
  }

  /** Bytes `f` to `f + w - 1` within one sector. */
  lemma ReadPartGives(l: Layout, disk: seq<Sector>, chain: seq<nat>, size: nat, f: nat, w: nat)
    requires Placed(l, chain, |disk|) && Room(l, |chain|, size) && Ci(l, f / 512) < |chain| && f % 512 + w <= 512 &&
             f + w <= size
    ensures Loc(l, chain, f / 512) < |disk|
    ensures disk[Loc(l, chain, f / 512)][f % 512..f % 512 + w] == Content(l, disk, chain, size)[f..f + w]
  {
    hide Ci, Co, Loc, Content, Room;
    var q, o := f / 512, f % 512;
    LocIn(l, chain, |disk|, q);
    var s := disk[Loc(l, chain, q)][o..o + w];
    var c := Content(l, disk, chain, size)[f..f + w];
    forall j | 0 <= j < w ensures s[j] == c[j] {
      ContentIn(l, disk, chain, size, q, q, o + j);
      assert 512 * q + (o + j) == f + j;
    }
  }

  /** A transfer of `w` bytes from `f` that stays in file sectors `q` to `q + cc - 1` ends in the same cluster. */
  lemma AdvanceIndex(l: Layout, q: nat, cc: nat, f: nat, w: nat)
    requires l.csize > 0 && Co(l, q) + cc <= l.csize && w > 0 && 512 * q <= f && f + w <= 512 * (q + cc)
    ensures Ci(l, (f + w - 1) / 512) == Ci(l, q)
  {
    SameQuot(q, (f + w - 1) / 512 - q, l.csize);
  }

  lemma PartIndex(l: Layout, f: nat, w: nat)
    requires l.csize > 0 && w > 0 && f % 512 + w <= 512
    ensures Ci(l, (f + w - 1) / 512) == Ci(l, f / 512) && ((f + w) % 512 != 0 ==> (f + w) / 512 == f / 512)
  {
    assert (f + w - 1) / 512 == f / 512;
  }

  /** Whole sectors written over file sectors `q` to `q + cc - 1`. */
  lemma WholeRewritten(l: Layout, disk: seq<Sector>, disk': seq<Sector>, chain: seq<nat>, size: nat, q: nat, cc: nat,
      bytes: seq<byte>)
    requires Placed(l, chain, |disk|) && Ci(l, q) < |chain| && Co(l, q) + cc <= l.csize && |disk'| == |disk|
    requires |bytes| == 512 * cc && Loc(l, chain, q) + cc <= |disk|
    requires forall x | 0 <= x < |disk| && !(Loc(l, chain, q) <= x < Loc(l, chain, q) + cc) :: disk'[x] == disk[x]
    requires forall k | 0 <= k < cc :: disk'[Loc(l, chain, q) + k] == Piece(bytes, k)
    ensures Rewritten(l, disk, disk', chain, size, q, cc, 512 * q, bytes)
  {
    hide Ci, Co, Loc, Piece;
    var s := Loc(l, chain, q);
    forall p | 512 * q <= p < 512 * (q + cc) && s + (p / 512 - q) < |disk| ensures disk'[s + (p / 512 - q)][p % 512] ==
      bytes[p - 512 * q] {
      var j := p - 512 * q;
      assert j / 512 == p / 512 - q && j % 512 == p % 512;
      PieceAt(bytes, j);
    }
  }

  /** Bytes put into one sector of the file; past the end of the file the rest of the sector does not matter. */
  lemma PartRewritten(l: Layout, disk: seq<Sector>, chain: seq<nat>, size: nat, f: nat, data: seq<byte>, new': Sector)
    requires Placed(l, chain, |disk|) && Ci(l, f / 512) < |chain| && f % 512 + |data| <= 512 &&
             Loc(l, chain, f / 512) < |disk|
    requires Co(l, f / 512) + 1 <= l.csize
    requires forall i | 0 <= i < 512 ::
               new'[i] == if f % 512 <= i < f % 512 + |data| then data[i - f % 512]
                          else if 512 * (f / 512) + i < size then disk[Loc(l, chain, f / 512)][i] else new'[i]
    ensures Rewritten(l, disk, disk[Loc(l, chain, f / 512) := new'], chain, size, f / 512, 1, f, data)
  {
    hide Ci, Co, Loc;
    var q, s := f / 512, Loc(l, chain, f / 512);
    forall p | 512 * q <= p < 512 * (q + 1)
      ensures new'[p % 512] == if f <= p < f + |data| then data[p - f] else if p < size then disk[s][p % 512]
              else new'[p % 512]
    {
      assert p / 512 == q && p == 512 * q + p % 512 && f == 512 * q + f % 512;
    }
  }

  // ---------- seeking ----------

  /** Bytes per cluster. */
  function ClusterBytes(l: Layout): nat { l.csize * 512 }

  /** File position at which the cluster of index `k` starts. */
  function Start(l: Layout, k: nat): nat { ClusterBytes(l) * k }

  /** A cluster boundary is where the cluster of its index starts. */
  lemma StartOf(l: Layout, f: nat)
    requires l.csize > 0 && f % 512 == 0 && Co(l, f / 512) == 0
    ensures f == Start(l, Ci(l, f / 512))
  {
    var q := f / 512;
    var k := Ci(l, q);
    QuotRem(q, l.csize);
    assert f == 512 * q && q == l.csize * k;
    assert Start(l, k) == 512 * (l.csize * k);
  }

  lemma StartNext(l: Layout, k: nat)
    requires l.csize > 0
    ensures Start(l, k + 1) == Start(l, k) + ClusterBytes(l) && Start(l, 0) == 0 && ClusterBytes(l) >= 512
    ensures Start(l, k) % 512 == 0 && Start(l, k) / 512 == l.csize * k
  {
    assert Start(l, k) == 512 * (l.csize * k);
    assert l.csize * 512 >= 1 * 512;
  }

  /** The positions of the cluster of index `k`. */
  lemma StartIndex(l: Layout, k: nat, p: nat)
    requires l.csize > 0 && Start(l, k) <= p < Start(l, k) + ClusterBytes(l)
    ensures Ci(l, p / 512) == k && Co(l, p / 512) == (p - Start(l, k)) / 512
  {
    var q, c := p / 512, l.csize;
    var o := (p - Start(l, k)) / 512;
    assert Start(l, k) == 512 * (c * k);
    assert q == c * k + o && o < c;
    RemainderIs(q, c, k, o);
  }

  /** Dividing by the cluster size in bytes gives the cluster index. */
  lemma IndexByBytes(l: Layout, p: nat)
    requires l.csize > 0
    ensures p / ClusterBytes(l) == Ci(l, p / 512) && Start(l, Ci(l, p / 512)) <= p < Start(l, Ci(l, p / 512)) +
            ClusterBytes(l)
  {
    var q, c := p / 512, l.csize;
    QuotRem(q, c);
    var k, x := q / c, q % c;
    assert p == 512 * (c * k + x) + p % 512;
    assert p == ClusterBytes(l) * k + (512 * x + p % 512);
    RemainderIs(p, ClusterBytes(l), k, 512 * x + p % 512);
  }

  /** A file may end with any of its clusters. */
  lemma RoomAt(l: Layout, n: nat, k: nat)
    requires l.csize > 0 && k <= n
    ensures Room(l, n, Start(l, k))
  {
    if k > 0 {
      StartNext(l, k - 1);
      StartIndex(l, k - 1, Start(l, k) - 1);
    } else {
      StartNext(l, 0);
    }
  }

  lemma RoomWithin(l: Layout, n: nat, size: nat, k: nat)
    requires l.csize > 0 && Room(l, n, size) && Start(l, k) < size
    ensures k < n
  {
    StartNext(l, k);
    StartIndex(l, k, Start(l, k));
    RoomFor(l, n, size, Start(l, k));
  }

  /** A longer file starts with the shorter one. */
  lemma ContentPrefix(l: Layout, disk: seq<Sector>, chain: seq<nat>, size: nat, size': nat)
    requires Placed(l, chain, |disk|) && Room(l, |chain|, size) && Room(l, |chain|, size') && size <= size'
    ensures Content(l, disk, chain, size')[..size] == Content(l, disk, chain, size)
  {
    hide Ci, Loc, Room, Content, ByteAt;
    var c, c' := Content(l, disk, chain, size), Content(l, disk, chain, size');
    forall p | 0 <= p < size ensures c'[..size][p] == c[p] {
      ContentAt(l, disk, chain, size, p);
      ContentAt(l, disk, chain, size', p);
    }
  }

  /** A seek target in the cluster of index `k`: its place seen from the start of that cluster. */
  lemma LandAt(l: Layout, k: nat, target: nat)
    requires l.csize > 0 && Start(l, k) < target <= Start(l, k) + ClusterBytes(l)
    ensures Ci(l, (target - 1) / 512) == k && target % 512 == (target - Start(l, k)) % 512
    ensures target % 512 != 0 ==> Ci(l, target / 512) == k && Co(l, target / 512) == (target - Start(l, k)) / 512
  {
    StartNext(l, k);
    StartNext(l, k + 1);
    StartIndex(l, k, target - 1);
    var m, o := Start(l, k) / 512, target - Start(l, k);
    RemainderIs(target, 512, m + o / 512, o % 512);
    if target % 512 != 0 { StartIndex(l, k, target); }
  }
}
