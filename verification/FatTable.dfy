/** The byte-packed file allocation table as a pure value: entry layout for FAT12, FAT16, FAT32 and exFAT. */
module FatTable {
  import opened Bytes

  datatype Kind = FAT12 | FAT16 | FAT32 | EXFAT

  /** Number of values an entry can show to get_fat (the read mask plus one). */
  function Width(kind: Kind): nat {
    match kind
    case FAT12 => 0x1000
    case FAT16 => 0x1_0000
    case FAT32 => 0x1000_0000
    case EXFAT => 0x8000_0000
  }

  /** A stored value as get_fat shows it. */
  function Mask(kind: Kind, v: nat): (r: nat)
    ensures r < Width(kind) && (v < Width(kind) ==> r == v)
  {
    match kind
    case FAT12 => v % 0x1000
    case FAT16 => v % 0x1_0000
    case FAT32 => v % 0x1000_0000
    case EXFAT => v % 0x8000_0000
  }

  /** The end-of-chain value 0xFFFFFFFF shows as the largest entry, above every cluster number. */
  lemma EndMark(kind: Kind)
    ensures Mask(kind, 0xFFFF_FFFF) == Width(kind) - 1
    ensures MaxClusters(kind) + 2 < Width(kind)
  {
  }

  /** Largest cluster count the mount code accepts for each kind. */
  function MaxClusters(kind: Kind): nat {
    match kind
    case FAT12 => 0xFF5
    case FAT16 => 0xFFF5
    case FAT32 => 0x0FFF_FFF5
    case EXFAT => 0x7FFF_FFFD
  }

  function EntryOffset(kind: Kind, c: nat): nat {
    match kind
    case FAT12 => c + c / 2
    case FAT16 => 2 * c
    case FAT32 => 4 * c
    case EXFAT => 4 * c
  }

  function EntrySize(kind: Kind): nat {
    if kind.FAT12? || kind.FAT16? then 2 else 4
  }

  predicate Fits(kind: Kind, bytes: seq<byte>, c: nat) {
    EntryOffset(kind, c) + EntrySize(kind) <= |bytes|
  }

  /** A FAT12 entry from its two bytes: the upper or lower twelve bits of the word. */
  function Unpack12(c: nat, b0: byte, b1: byte): (v: nat)
    ensures v < 0x1000
  {
    var w := LdWord(b0, b1);
    if c % 2 == 1 then w / 0x10 else w % 0x1000
  }

  function Entry(kind: Kind, bytes: seq<byte>, c: nat): (v: nat)
    requires Fits(kind, bytes, c)
    ensures v < Width(kind)
  {
    var o := EntryOffset(kind, c);
    match kind
    case FAT12 => Unpack12(c, bytes[o], bytes[o + 1])
    case FAT16 => LdWord(bytes[o], bytes[o + 1])
    case FAT32 => Mask(kind, LdDword(bytes[o], bytes[o + 1], bytes[o + 2], bytes[o + 3]))
    case EXFAT => Mask(kind, LdDword(bytes[o], bytes[o + 1], bytes[o + 2], bytes[o + 3]))
  }

  /** Byte `k` of the table. */
  function At(bytes: seq<byte>, k: nat): nat { if k < |bytes| then bytes[k] else 0 }

  /**
   * Where the entries are, as the formats lay them out: little-endian in one, two or four bytes, on FAT12 in one and a
   * half.
   */
  lemma EntryBytes(kind: Kind, bytes: seq<byte>, c: nat)
    requires Fits(kind, bytes, c)
    ensures Entry(kind, bytes, c) == match kind
              case FAT12 =>
                if c % 2 == 0 then At(bytes, c / 2 * 3) + At(bytes, c / 2 * 3 + 1) % 0x10 * 0x100
                else At(bytes, c / 2 * 3 + 1) / 0x10 + At(bytes, c / 2 * 3 + 2) * 0x10
              case FAT16 => At(bytes, 2 * c) + At(bytes, 2 * c + 1) * 0x100
              case FAT32 =>
                At(bytes, 4 * c) + At(bytes, 4 * c + 1) * 0x100 + At(bytes, 4 * c + 2) * 0x1_0000 +
                  At(bytes, 4 * c + 3) % 0x10 * 0x100_0000
              case EXFAT =>
                At(bytes, 4 * c) + At(bytes, 4 * c + 1) * 0x100 + At(bytes, 4 * c + 2) * 0x1_0000 +
                  At(bytes, 4 * c + 3) % 0x80 * 0x100_0000
  {
    var o := EntryOffset(kind, c);
    match kind
    case FAT12 =>
      var b0: nat, b1: nat := bytes[o], bytes[o + 1];
      if c % 2 == 0 {
        RemainderIs(LdWord(bytes[o], bytes[o + 1]), 0x1000, b1 / 0x10, b0 + b1 % 0x10 * 0x100);
      } else {
        RemainderIs(LdWord(bytes[o], bytes[o + 1]), 0x10, b0 / 0x10 + b1 * 0x10, b0 % 0x10);
      }
    case FAT16 =>
    case FAT32 => DwordCut(bytes[o], bytes[o + 1], bytes[o + 2], bytes[o + 3]);
    case EXFAT => DwordCut(bytes[o], bytes[o + 1], bytes[o + 2], bytes[o + 3]);
  }

  lemma DwordCut(b0: byte, b1: byte, b2: byte, b3: byte)
    ensures var low: nat, top: nat := b0 as nat + b1 as nat * 0x100 + b2 as nat * 0x1_0000, b3;
            && Mask(FAT32, LdDword(b0, b1, b2, b3)) == low + top % 0x10 * 0x100_0000
            && Mask(EXFAT, LdDword(b0, b1, b2, b3)) == low + top % 0x80 * 0x100_0000
  {
    var low: nat, top: nat := b0 as nat + b1 as nat * 0x100 + b2 as nat * 0x1_0000, b3;
    RemainderIs(LdDword(b0, b1, b2, b3), 0x1000_0000, top / 0x10, low + top % 0x10 * 0x100_0000);
    RemainderIs(LdDword(b0, b1, b2, b3), 0x8000_0000, top / 0x80, low + top % 0x80 * 0x100_0000);
  }

  /** First byte of a FAT12 entry after a store; an odd entry shares it with its lower neighbour. */
  function Low12(old0: byte, c: nat, v: nat): byte {
    if c % 2 == 1 then old0 % 0x10 + v % 0x10 * 0x10 else v % 0x100
  }

  /** Second byte of a FAT12 entry after a store; an even entry shares it with its upper neighbour. */
  function High12(old1: byte, c: nat, v: nat): byte {
    if c % 2 == 1 then v / 0x10 % 0x100 else old1 / 0x10 * 0x10 + v / 0x100 % 0x10
  }

  /** The dword put_fat stores: FAT32 keeps the four reserved bits, exFAT overwrites the whole entry. */
  function Merge32(kind: Kind, old3: byte, v: u32): u32 {
    if kind.FAT32? then v % 0x1000_0000 + old3 / 0x10 * 0x1000_0000 else v
  }

  function StoreDword(bytes: seq<byte>, o: nat, w: u32): (r: seq<byte>)
    requires o + 4 <= |bytes|
    ensures |r| == |bytes|
  {
    bytes[o := Byte0(w)][o + 1 := Byte1(w)][o + 2 := Byte2(w)][o + 3 := Byte3(w)]
  }

  /** The table's bytes after entry `c` is set to `v`. */
  function StoreEntry(kind: Kind, bytes: seq<byte>, c: nat, v: u32): (r: seq<byte>)
    requires Fits(kind, bytes, c)
    ensures |r| == |bytes|
  {
    var o := EntryOffset(kind, c);
    match kind
    case FAT12 => bytes[o := Low12(bytes[o], c, v)][o + 1 := High12(bytes[o + 1], c, v)]
    case FAT16 => bytes[o := Byte0(v)][o + 1 := Byte1(v)]
    case FAT32 => StoreDword(bytes, o, Merge32(kind, bytes[o + 3], v))
    case EXFAT => StoreDword(bytes, o, Merge32(kind, bytes[o + 3], v))
  }

  lemma StoredOwn12(old0: byte, old1: byte, c: nat, v: u32)
    ensures var w := LdWord(Low12(old0, c, v), High12(old1, c, v));
            (if c % 2 == 1 then w / 0x10 else w % 0x1000) == v % 0x1000
  {
    if c % 2 == 1 {
      var q := v / 0x10;
      RemainderIs(v, 0x1000, q / 0x100, 0x10 * (q % 0x100) + v % 0x10);
      RemainderIs(LdWord(Low12(old0, c, v), High12(old1, c, v)), 0x10, v % 0x10 + 0x10 * (q % 0x100), old0 % 0x10);
    } else {
      var p := v / 0x100;
      RemainderIs(v, 0x1000, p / 0x10, 0x100 * (p % 0x10) + v % 0x100);
      RemainderIs(LdWord(Low12(old0, c, v), High12(old1, c, v)), 0x1000, old1 / 0x10, 0x100 * (p % 0x10) + v % 0x100);
    }
  }

  lemma MergeKeepsValue(kind: Kind, old3: byte, v: u32)
    requires kind.FAT32? || kind.EXFAT?
    ensures Mask(kind, Merge32(kind, old3, v)) == Mask(kind, v)
  {
  }

  /** A store is read back masked to the entry width. */
  lemma StoreThenLoad(kind: Kind, bytes: seq<byte>, c: nat, v: u32)
    requires Fits(kind, bytes, c)
    ensures Entry(kind, StoreEntry(kind, bytes, c, v), c) == Mask(kind, v)
  {
    var o := EntryOffset(kind, c);
    match kind
    case FAT12 => StoredOwn12(bytes[o], bytes[o + 1], c, v);
    case FAT16 => StoreLoadWord(v);
    case FAT32 =>
      MergeKeepsValue(kind, bytes[o + 3], v);
      StoreLoadDword(Merge32(kind, bytes[o + 3], v));
    case EXFAT =>
      MergeKeepsValue(kind, bytes[o + 3], v);
      StoreLoadDword(Merge32(kind, bytes[o + 3], v));
  }

  /** The lower neighbour of an odd FAT12 entry keeps its four bits in the shared byte. */
  lemma LowNibbleKept(old0: byte, other: byte, c: nat, v: u32)
    requires c % 2 == 1
    ensures Unpack12(c - 1, other, Low12(old0, c, v)) == Unpack12(c - 1, other, old0)
  {
    hide LdWord, Low12;
    Low12Odd(old0, c, v);
    LowerNibbles(other, old0);
    LowerNibbles(other, Low12(old0, c, v));
  }

  lemma Low12Odd(old0: byte, c: nat, v: u32)
    requires c % 2 == 1
    ensures Low12(old0, c, v) % 0x10 == old0 % 0x10
  {
    RemainderIs(Low12(old0, c, v), 0x10, v % 0x10, old0 % 0x10);
  }

  /** The lower twelve bits of a word: its first byte, then the lower four of its second. */
  lemma LowerNibbles(b0: byte, b1: byte)
    ensures LdWord(b0, b1) % 0x1000 == b0 + 0x100 * (b1 % 0x10)
  {
    RemainderIs(LdWord(b0, b1), 0x1000, b1 / 0x10, b0 + 0x100 * (b1 % 0x10));
  }

  /** The upper neighbour of an even FAT12 entry keeps its four bits in the shared byte. */
  lemma HighNibbleKept(old1: byte, other: byte, c: nat, v: u32)
    requires c % 2 == 0
    ensures Unpack12(c + 1, High12(old1, c, v), other) == Unpack12(c + 1, old1, other)
  {
    hide LdWord, High12;
    High12Even(old1, c, v);
    UpperNibbles(High12(old1, c, v), other);
    UpperNibbles(old1, other);
  }

  lemma High12Even(old1: byte, c: nat, v: u32)
    requires c % 2 == 0
    ensures High12(old1, c, v) / 0x10 == old1 / 0x10
  {
    RemainderIs(High12(old1, c, v), 0x10, old1 / 0x10, v / 0x100 % 0x10);
  }

  /** The upper twelve bits of a word: the upper four of its first byte, then its second byte. */
  lemma UpperNibbles(b0: byte, b1: byte)
    ensures LdWord(b0, b1) / 0x10 == b0 / 0x10 + 0x10 * b1
  {
    RemainderIs(LdWord(b0, b1), 0x10, b0 / 0x10 + 0x10 * b1, b0 % 0x10);
  }

  /** A store changes no other entry, although FAT12 entries overlap by half a byte. */
  lemma StoreElsewhere(kind: Kind, bytes: seq<byte>, c: nat, v: u32, d: nat)
    requires Fits(kind, bytes, c) && Fits(kind, bytes, d) && c != d
    ensures Entry(kind, StoreEntry(kind, bytes, c, v), d) == Entry(kind, bytes, d)
  {
    var o := EntryOffset(kind, c);
    var p := EntryOffset(kind, d);
    if kind.FAT12? {
      if d + 1 == c && c % 2 == 1 {
        assert p + 1 == o;
        LowNibbleKept(bytes[o], bytes[p], c, v);
      } else if d == c + 1 && c % 2 == 0 {
        assert p == o + 1;
        HighNibbleKept(bytes[o + 1], bytes[p + 1], c, v);
      } else {
        assert p + 1 < o || o + 1 < p;
      }
    }
  }

  /** The four reserved bits of a FAT32 entry, which get_fat does not show, survive a store. */
  lemma ReservedKept(bytes: seq<byte>, c: nat, v: u32)
    requires Fits(FAT32, bytes, c)
    ensures StoreEntry(FAT32, bytes, c, v)[4 * c + 3] / 0x10 == bytes[4 * c + 3] / 0x10
  {
    var top := bytes[4 * c + 3];
    var w := Merge32(FAT32, top, v);
    assert w < 0x1_0000_0000;
    RemainderIs(w, 0x1000_0000, top / 0x10, v % 0x1000_0000);
    TopNibble(w);
  }

  lemma TopNibble(w: u32)
    ensures Byte3(w) / 0x10 == w / 0x1000_0000
  {
  }

  lemma FitsMonotone(kind: Kind, bytes: seq<byte>, c: nat, d: nat)
    requires c <= d && Fits(kind, bytes, d)
    ensures Fits(kind, bytes, c)
  {
    if kind.FAT12? { assert c / 2 <= d / 2; }
  }

  ghost predicate FitsAll(kind: Kind, bytes: seq<byte>, n: nat) {
    forall c | 0 <= c < n :: Fits(kind, bytes, c)
  }

  /** The allocation table as the array get_fat shows. */
  ghost function Table(kind: Kind, bytes: seq<byte>, n: nat): (t: seq<nat>)
    requires FitsAll(kind, bytes, n)
    ensures |t| == n
  {
    if n == 0 then []
    else
      assert Fits(kind, bytes, n - 1);
      Table(kind, bytes, n - 1) + [Entry(kind, bytes, n - 1)]
  }

  lemma {:induction false} TableAt(kind: Kind, bytes: seq<byte>, n: nat, c: nat)
    requires FitsAll(kind, bytes, n) && c < n
    ensures Fits(kind, bytes, c) && Table(kind, bytes, n)[c] == Entry(kind, bytes, c)
  {
    assert Fits(kind, bytes, c);
    if c < n - 1 { TableAt(kind, bytes, n - 1, c); }
  }

  /** Byte strings that agree on every entry but `c` give tables that agree everywhere else. */
  lemma TablesAgree(kind: Kind, bytes: seq<byte>, bytes': seq<byte>, n: nat, c: nat)
    requires FitsAll(kind, bytes, n) && FitsAll(kind, bytes', n)
    requires forall d | 0 <= d < n && d != c ::
             Fits(kind, bytes, d) && Fits(kind, bytes', d) && Entry(kind, bytes', d) == Entry(kind, bytes, d)
    ensures forall d | 0 <= d < n && d != c :: Table(kind, bytes', n)[d] == Table(kind, bytes, n)[d]
  {
    forall d | 0 <= d < n && d != c ensures Table(kind, bytes', n)[d] == Table(kind, bytes, n)[d] {
      TableAt(kind, bytes, n, d);
      TableAt(kind, bytes', n, d);
    }
  }

  /** put_fat is an array store, get_fat an array load: one cell changes, masked to its width. */
  lemma StoreIsArrayUpdate(kind: Kind, bytes: seq<byte>, n: nat, c: nat, v: u32)
    requires FitsAll(kind, bytes, n) && c < n
    ensures Fits(kind, bytes, c) && FitsAll(kind, StoreEntry(kind, bytes, c, v), n)
    ensures Table(kind, StoreEntry(kind, bytes, c, v), n) == Table(kind, bytes, n)[c := Mask(kind, v)]
  {
    assert Fits(kind, bytes, c);
    var bytes' := StoreEntry(kind, bytes, c, v);
    forall d | 0 <= d < n ensures Fits(kind, bytes', d) { assert Fits(kind, bytes, d); }
    forall d | 0 <= d < n ensures Table(kind, bytes', n)[d] == Table(kind, bytes, n)[c := Mask(kind, v)][d] {
      TableAt(kind, bytes, n, d);
      TableAt(kind, bytes', n, d);
      if d == c { StoreThenLoad(kind, bytes, c, v); } else { StoreElsewhere(kind, bytes, c, v, d); }
    }
  }
}
