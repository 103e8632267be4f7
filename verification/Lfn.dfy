/** Long file names on FAT: directory entries of thirteen units each, written top entry first and read back. */
module Lfn {
  import opened Bytes

  const MAX_LFN: nat := 255
  const LAST_FLAG: nat := 0x40
  const LFN_ATTR: byte := 0x0F

  /** Where unit `s` of an entry lies. */
  function UnitOffset(s: nat): (o: nat)
    requires s < 13
    ensures o + 1 < 32 && o != 11 && o != 12 && o != 13 && o != 26 && o != 27 && o > 0 && o + 1 != 11 && o + 1 != 26
    ensures o == [1, 3, 5, 7, 9, 14, 16, 18, 20, 22, 24, 28, 30][s]
  {
    if s < 5 then 1 + 2 * s else if s < 11 then 14 + 2 * (s - 5) else 28 + 2 * (s - 11)
  }

  lemma UnitsApart(s: nat, t: nat)
    requires s < t < 13
    ensures UnitOffset(s) + 1 < UnitOffset(t)
  {
  }

  function UnitAt(dir: seq<byte>, s: nat): nat
    requires |dir| == 32 && s < 13
  {
    LdWord(dir[UnitOffset(s)], dir[UnitOffset(s) + 1])
  }

  /** A storable name: 1 to 255 units, none of them 0 or 0xFFFF. */
  predicate IsName(name: seq<nat>) {
    1 <= |name| <= MAX_LFN && forall i | 0 <= i < |name| :: 0 < name[i] < 0xFFFF
  }

  /** The name's unit `i`, its terminator, then filler. */
  function Piece(name: seq<nat>, i: nat): nat {
    if i < |name| then name[i] else if i == |name| then 0 else 0xFFFF
  }

  /** Entries a name needs. */
  function Entries(n: nat): (r: nat)
    ensures n <= 13 * r < n + 13
  {
    (n + 12) / 13
  }

  /** A buffer that holds `name` with its terminator. */
  predicate Buffered(buf: seq<nat>, name: seq<nat>) {
    |buf| == MAX_LFN + 1 && |name| <= MAX_LFN && buf[..|name|] == name && buf[|name|] == 0
  }

  /** Entry `ord` of `name`. */
  predicate Holds(dir: seq<byte>, name: seq<nat>, ord: nat, sum: byte) {
    && |dir| == 32 && 1 <= ord <= 20
    && dir[0] == (if ord * 13 >= |name| then ord + LAST_FLAG else ord)
    && dir[11] == LFN_ATTR && dir[12] == 0 && dir[13] == sum && dir[26] == 0 == dir[27]
    && forall s | 0 <= s < 13 :: UnitAt(dir, s) == Piece(name, (ord - 1) * 13 + s)
  }

  /** st_word of one unit. */
  method StoreUnit(dir: array<byte>, s: nat, v: nat, ghost name: seq<nat>, ghost at: nat)
    requires dir.Length == 32 && s < 13 && v < 0x1_0000 && v == Piece(name, at + s)
    requires forall t | 0 <= t < s :: UnitAt(dir[..], t) == Piece(name, at + t)
    modifies dir
    ensures forall t | 0 <= t < s + 1 :: UnitAt(dir[..], t) == Piece(name, at + t)
    ensures forall k | 0 <= k < 32 && (k == 0 || k == 11 || k == 12 || k == 13 || k == 26 || k == 27) ::
            dir[k] == old(dir[k])
  {
    ghost var was := dir[..];
    var o := UnitOffset(s);
    dir[o] := v % 0x100;
    dir[o + 1] := v / 0x100;
    forall t | 0 <= t < s + 1
      ensures UnitAt(dir[..], t) == Piece(name, at + t)
    {
      if t < s {
        UnitsApart(t, s);
        assert UnitAt(was, t) == Piece(name, at + t);
      }
    }
  }

  /** put_lfn: with the name in the buffer, the entry holds its part; the top entry carries the last flag. */
  method PutLfn(lfn: array<nat>, dir: array<byte>, ord: nat, sum: byte, ghost name: seq<nat>)
    requires IsName(name) && Buffered(lfn[..], name) && dir.Length == 32 && 1 <= ord <= Entries(|name|)
    modifies dir
    ensures Holds(dir[..], name, ord, sum)
  {
    dir[13], dir[11], dir[12], dir[26], dir[27] := sum, LFN_ATTR, 0, 0, 0;
    ghost var at := (ord - 1) * 13;
    var i, s, wc := (ord - 1) * 13, 0, 0;
    while s < 13
      invariant 0 <= s <= 13 && i <= |name| + 1
      invariant wc == 0xFFFF ==> i == |name| + 1 && at + s >= i
      invariant wc != 0xFFFF ==> i == at + s && i <= |name|
      invariant forall t | 0 <= t < s :: UnitAt(dir[..], t) == Piece(name, at + t)
      invariant dir[13] == sum && dir[11] == LFN_ATTR && dir[12] == 0 && dir[26] == 0 == dir[27]
    {
      if wc != 0xFFFF {
        assert i < |name| ==> lfn[..][..|name|][i] == name[i];
        wc := lfn[i];
        i := i + 1;
      }
      StoreUnit(dir, s, wc, name, at);
      if wc == 0 { wc := 0xFFFF; }
      s := s + 1;
    }
    assert i < |name| ==> lfn[..][..|name|][i] == name[i];
    ghost var was := dir[..];
    dir[0] := if wc == 0xFFFF || lfn[i] == 0 then ord + LAST_FLAG else ord;
    forall t | 0 <= t < 13
      ensures UnitAt(dir[..], t) == Piece(name, (ord - 1) * 13 + t)
    {
      assert UnitAt(was, t) == Piece(name, at + t);
    }
  }

  // ---------- pick_lfn ----------

  /** The order byte without its last flag. */
  function Strip(b: byte): nat {
    if b / 0x40 % 2 == 1 then b - 0x40 else b
  }

  /** Positions of the buffer that entry `ord` of `name` fills; the top entry also ends the name. */
  predicate Fills(name: seq<nat>, ord: nat, i: nat) {
    (ord - 1) * 13 <= i <= |name| && (i < ord * 13 || ord * 13 >= |name|)
  }

  predicate Placed(now: seq<nat>, was: seq<nat>, name: seq<nat>, ord: nat) {
    |now| == |was| && forall i | 0 <= i < |now| :: now[i] == if Fills(name, ord, i) then Piece(name, i) else was[i]
  }

  /** pick_lfn: never outside the buffer; an entry of a name puts exactly its part there. */
  method PickLfn(buf: array<nat>, dir: seq<byte>, ghost name: seq<nat>, ghost ord: nat, ghost sum: byte)
      returns (ok: bool)
    requires buf.Length == MAX_LFN + 1 && |dir| == 32
    modifies buf
    ensures IsName(name) && Holds(dir, name, ord, sum) && ord <= Entries(|name|) ==>
            ok && Placed(buf[..], old(buf[..]), name, ord)
  {
    ghost var good := IsName(name) && Holds(dir, name, ord, sum) && ord <= Entries(|name|);
    ghost var was := buf[..];
    if dir[26] != 0 || dir[27] != 0 || Strip(dir[0]) == 0 { return false; }
    ghost var at := (ord - 1) * 13;
    var i, s, wc := (Strip(dir[0]) - 1) * 13, 0, 1;
    ok := true;
    while s < 13 && ok
      invariant 0 <= s <= 13 && 0 <= i
      invariant good ==> ok && i <= |name| + 1
      invariant good && wc != 0 ==> i == at + s && i <= |name|
      invariant good && wc == 0 ==> i == |name| + 1 && i <= at + s
      invariant good ==> forall k | 0 <= k < buf.Length :: buf[k] == if at <= k < i then Piece(name, k) else was[k]
    {
      var uc := UnitAt(dir, s);
      if wc != 0 {
        if i >= MAX_LFN + 1 {
          ok := false;
        } else {
          wc := uc;
          buf[i] := uc;
          i := i + 1;
        }
      } else if uc != 0xFFFF {
        ok := false;
      }
      s := s + 1;
    }
    if ok && dir[0] / 0x40 % 2 == 1 && wc != 0 {
      if i >= MAX_LFN + 1 { ok := false; } else { buf[i] := 0; }
    }
  }

  // ---------- cmp_lfn ----------

  /** Unit `i`, 0 from the terminator on. */
  function Unit(name: seq<nat>, i: nat): nat {
    if i < |name| then name[i] else 0
  }

  /** The buffer agrees with the part of `name` in entry `ord`, up to case. */
  predicate Agrees(buf: seq<nat>, name: seq<nat>, ord: nat, up: nat -> nat)
    requires |buf| == MAX_LFN + 1 && |name| <= MAX_LFN
  {
    forall i | 0 <= i < |buf| && Fills(name, ord, i) :: up(buf[i]) == up(Unit(name, i))
  }

  /** cmp_lfn; `up` is ff_wtoupper, of which only 0 maps to 0. */
  method CmpLfn(buf: seq<nat>, dir: seq<byte>, up: nat -> nat, ghost name: seq<nat>, ghost ord: nat, ghost sum: byte)
      returns (ok: bool)
    requires |buf| == MAX_LFN + 1 && |dir| == 32 && (forall u :: up(u) == 0 <==> u == 0)
    requires IsName(name) && Holds(dir, name, ord, sum) && ord <= Entries(|name|)
    ensures ok <==> Agrees(buf, name, ord, up)
  {
    hide UnitAt;
    ghost var at := (ord - 1) * 13;
    if dir[26] != 0 || dir[27] != 0 { return false; }
    var i, s, wc := (dir[0] % 0x40 - 1) * 13, 0, 1;
    ok := true;
    while s < 13 && ok
      invariant 0 <= s <= 13 && at <= i <= |name| + 1
      invariant wc != 0 && ok ==> i == at + s && i <= |name|
      invariant wc == 0 ==> i == |name| + 1 && i <= at + s
      invariant ok ==> forall k | at <= k < i :: up(buf[k]) == up(Unit(name, k))
      invariant !ok ==> exists k | at <= k < at + 13 && k <= |name| :: up(buf[k]) != up(Unit(name, k))
    {
      var uc := UnitAt(dir, s);
      if wc != 0 {
        if i >= MAX_LFN + 1 || up(uc) != up(buf[i]) {
          ok := false;
          assert up(buf[i]) != up(Unit(name, i));
        } else {
          i := i + 1;
          wc := uc;
        }
      } else if uc != 0xFFFF {
        ok := false;
      }
      s := s + 1;
    }
    if ok && dir[0] / 0x40 % 2 == 1 && wc != 0 && buf[i] != 0 {
      ok := false;
      assert Fills(name, ord, i) && up(buf[i]) != up(Unit(name, i));
    }
  }

  /** The entry in which position `i` of a name is checked. */
  function EntryFor(n: nat, i: nat): nat {
    if i == n && n % 13 == 0 then n / 13 else i / 13 + 1
  }

  lemma EntryForFills(name: seq<nat>, i: nat)
    requires IsName(name) && i <= |name|
    ensures var ord := EntryFor(|name|, i); 1 <= ord <= Entries(|name|) && Fills(name, ord, i)
  {
  }

  predicate SameUpToCase(a: seq<nat>, b: seq<nat>, up: nat -> nat) {
    |a| == |b| && forall i | 0 <= i < |a| :: up(a[i]) == up(b[i])
  }

  /**
   * Every entry of `a` is accepted against a buffer holding `b` exactly when the names agree up to case, lengths
   * included.
   */
  lemma AcceptedIffSame(buf: seq<nat>, a: seq<nat>, b: seq<nat>, up: nat -> nat)
    requires IsName(a) && IsName(b) && Buffered(buf, b) && (forall u :: up(u) == 0 <==> u == 0)
    ensures (forall ord | 1 <= ord <= Entries(|a|) :: Agrees(buf, a, ord, up)) <==> SameUpToCase(a, b, up)
  {
    assert forall i | 0 <= i < |b| :: buf[i] == buf[..|b|][i] == b[i];
    if forall ord | 1 <= ord <= Entries(|a|) :: Agrees(buf, a, ord, up) {
      forall i | 0 <= i <= |a|
        ensures up(buf[i]) == up(Unit(a, i))
      {
        EntryForFills(a, i);
        assert Agrees(buf, a, EntryFor(|a|, i), up);
      }
      var m := if |a| <= |b| then |a| else |b|;
      assert up(buf[m]) == up(Unit(a, m));
      assert (Unit(a, m) == 0 <==> m == |a|) && (buf[m] == 0 <==> m == |b|);
    }
  }

  // ---------- writing and reading a whole name ----------

  /** The LFN loop of dir_register: entries Entries(n), ..., 2, 1. */
  method RegisterLfn(lfn: array<nat>, sum: byte, ghost name: seq<nat>, len: nat) returns (entries: seq<seq<byte>>)
    requires IsName(name) && Buffered(lfn[..], name) && len == |name|
    ensures |entries| == Entries(len)
    ensures forall k | 0 <= k < |entries| :: Holds(entries[k], name, Entries(len) - k, sum)
  {
    entries := [];
    var n := (len + 12) / 13;
    while n > 0
      invariant 0 <= n <= Entries(len) && |entries| == Entries(len) - n
      invariant forall k | 0 <= k < |entries| :: Holds(entries[k], name, Entries(len) - k, sum)
    {
      var dir := new byte[32](_ => 0);
      PutLfn(lfn, dir, n, sum, name);
      entries := entries + [dir[..]];
      n := n - 1;
    }
  }

  /** sum_sfn. */
  function SumSfn(dir: seq<byte>, n: nat): byte
    requires n <= |dir|
  {
    if n == 0 then 0
    else
      var sum := SumSfn(dir, n - 1);
      (sum / 2 + sum * 128 + dir[n - 1]) % 256
  }

  /** One byte to the right in a circle. */
  function RotateRight(b: byte): byte { if b % 2 == 0 then b / 2 else 0x80 + b / 2 }

  /** Each byte of the name goes onto the sum of those before it, rotated. */
  lemma SumStep(dir: seq<byte>, n: nat)
    requires n < |dir|
    ensures SumSfn(dir, 0) == 0 && SumSfn(dir, n + 1) == (RotateRight(SumSfn(dir, n)) + dir[n]) % 0x100
  {
    var s: nat := SumSfn(dir, n);
    var x: nat := RotateRight(SumSfn(dir, n)) + dir[n];
    assert s / 2 + s * 128 + dir[n] == 0x100 * (s / 2) + x;
    RemainderIs(0x100 * (s / 2) + x, 0x100, s / 2 + x / 0x100, x % 0x100);
  }

  lemma RotateApart(a: byte, b: byte, c: byte, d: byte)
    requires a != b || c != d
    ensures (a == b || c == d) ==> (RotateRight(a) + c) % 0x100 != (RotateRight(b) + d) % 0x100
  {
    var x: nat, y: nat := RotateRight(a) + c, RotateRight(b) + d;
    if a == b {
      assert x - y == c - d;
      NearApart(x, y);
    } else if c == d {
      assert x - y == RotateRight(a) - RotateRight(b) != 0;
      NearApart(x, y);
    }
  }

  lemma NearApart(x: nat, y: nat)
    requires x != y && -0x100 < x - y < 0x100
    ensures x % 0x100 != y % 0x100
  {
  }

  /** A change of any one byte changes the sum. */
  lemma {:induction false} SumChanges(a: seq<byte>, b: seq<byte>, k: nat, n: nat)
    requires |a| == |b| && k < n <= |a| && a[k] != b[k] && forall i | 0 <= i < |a| && i != k :: a[i] == b[i]
    ensures SumSfn(a, n) != SumSfn(b, n)
  {
    SumStep(a, n - 1);
    SumStep(b, n - 1);
    if k < n - 1 {
      SumChanges(a, b, k, n - 1);
    } else {
      SumSfnPrefix(a, b, n - 1);
    }
    RotateApart(SumSfn(a, n - 1), SumSfn(b, n - 1), a[n - 1], b[n - 1]);
  }

  /** A directory entry dir_read stops at: in use, not a dot entry, not a volume label, not part of a long name. */
  predicate IsShort(dir: seq<byte>) {
    && |dir| == 32 && dir[0] != 0 && dir[0] != 0xE5 && dir[0] != 0x2E
    && dir[11] % 0x40 != LFN_ATTR && dir[11] % 0x20 != 0x08
  }

  /** What an LFN entry does to the expected order: the next one down, or 0xFF when the sequence broke. */
  method ReadLfnEntry(buf: array<nat>, dir: seq<byte>, ord0: byte, sum0: byte, ghost name: seq<nat>, ghost n: nat,
      ghost s: byte) returns (ord: byte, sum: byte)
    requires buf.Length == MAX_LFN + 1 && |dir| == 32
    modifies buf
    ensures IsName(name) && Holds(dir, name, n, s) && n <= Entries(|name|) &&
            (n < Entries(|name|) ==> ord0 == n && sum0 == s) ==>
              ord == n - 1 && sum == s && Placed(buf[..], old(buf[..]), name, n)
    ensures ord == 0 ==> dir[0] % 0x40 == 1 && dir[13] == sum
  {
    ord, sum := ord0, sum0;
    var b := dir[0] as nat;
    if b / 0x40 % 2 == 1 {
      sum := dir[13];
      b := b - 0x40;
      ord := b;
    }
    if b == ord && sum == dir[13] {
      var ok := PickLfn(buf, dir, name, n, s);
      ord := if ok then (ord + 255) % 256 else 0xFF;
    } else {
      ord := 0xFF;
    }
  }

  /** The part of the name that the entries above `ord` have put into the buffer. */
  predicate Filled(buf: seq<nat>, name: seq<nat>, ord: nat) {
    |buf| == MAX_LFN + 1 && |name| <= MAX_LFN &&
      (ord < Entries(|name|) ==> forall i | ord * 13 <= i <= |name| && i >= 0 :: buf[i] == Piece(name, i))
  }

  /** The entries of one name in directory order, then its short entry. */
  predicate IsSet(entries: seq<seq<byte>>, name: seq<nat>) {
    && IsName(name) && |entries| == Entries(|name|) + 1 && IsShort(entries[|entries| - 1])
    && forall k | 0 <= k < |entries| - 1 ::
      Holds(entries[k], name, |entries| - 1 - k, SumSfn(entries[|entries| - 1], 11))
  }

  /** An entry dir_read passes over: deleted, a dot entry, a volume label, or a piece of some long name. */
  predicate Skipped(dir: seq<byte>) {
    |dir| == 32 && dir[0] != 0 && !IsShort(dir)
  }

  /** Entries that are passed over, then from `p` on the set of `name`, then anything. */
  predicate SetAt(entries: seq<seq<byte>>, p: nat, name: seq<nat>) {
    && IsName(name) && p + Entries(|name|) < |entries| && IsShort(entries[p + Entries(|name|)])
    && (forall k | 0 <= k < p :: Skipped(entries[k]))
    && forall k | p <= k < p + Entries(|name|) ::
      Holds(entries[k], name, p + Entries(|name|) - k, SumSfn(entries[p + Entries(|name|)], 11))
  }

  /** A set written behind entries that are passed over, whatever follows it. */
  lemma SetAmong(before: seq<seq<byte>>, entries: seq<seq<byte>>, after: seq<seq<byte>>, name: seq<nat>)
    requires IsSet(entries, name) && forall k | 0 <= k < |before| :: Skipped(before[k])
    ensures SetAt(before + entries + after, |before|, name)
  {
    var all, p := before + entries + after, |before|;
    assert all[p + |entries| - 1] == entries[|entries| - 1];
    assert forall k | p <= k < p + |entries| :: all[k] == entries[k - p];
  }

  /** The last entry of a long name, the one next to its short entry, with the checksum of that. */
  predicate Closes(dir: seq<byte>, sum: byte) {
    |dir| == 32 && dir[11] % 0x40 == LFN_ATTR && dir[0] % 0x40 == 1 && dir[13] == sum
  }

  /**
   * The loop of dir_read on a FAT volume: skips to the next short entry; `has` says that a valid long name precedes it.
   */
  method DirRead(entries: seq<seq<byte>>, buf: array<nat>, ghost p: nat, ghost name: seq<nat>)
      returns (at: nat, has: bool)
    requires (forall k | 0 <= k < |entries| :: |entries[k]| == 32) && buf.Length == MAX_LFN + 1
    modifies buf
    ensures at <= |entries|
    ensures SetAt(entries, p, name) ==> at == p + Entries(|name|) && has && Buffered(buf[..], name)
    ensures (forall k | 0 <= k < at :: Skipped(entries[k])) && (at < |entries| ==> !Skipped(entries[at]))
    ensures has ==> 0 < at < |entries| && IsShort(entries[at]) && Closes(entries[at - 1], SumSfn(entries[at], 11))
  {
    hide Holds, IsShort, IsName, Skipped, Closes;
    ghost var good := SetAt(entries, p, name);
    ghost var last := Entries(|name|);
    ghost var sfn: byte := if good then SumSfn(entries[p + last], 11) else 0;
    NameFits(name);
    var ord: byte, sum: byte := 0xFF, 0xFF;
    at, has := 0, false;
    var go := true;
    while at < |entries| && go
      invariant at <= |entries|
      invariant good && go ==> at <= p + last && Filled(buf[..], name, if at <= p then last else p + last - at)
      invariant good && go && at > p ==> ord == p + last - at && sum == sfn
      invariant good && !go ==> at == p + last && has && Buffered(buf[..], name)
      invariant (forall k | 0 <= k < at :: Skipped(entries[k])) && (!go ==> at < |entries| && !Skipped(entries[at]))
      invariant go ==> !has && (ord == 0 ==> at > 0 && Closes(entries[at - 1], sum))
      invariant has ==> 0 < at < |entries| && IsShort(entries[at]) && Closes(entries[at - 1], SumSfn(entries[at], 11))
      decreases |entries| - at, go
    {
      go, has, ord, sum := ReadStep(entries[at], buf, ord, sum, name, p + last - at, sfn, good && p <= at < p + last);
      if go { at := at + 1; }
    }
  }

  lemma NameFits(name: seq<nat>)
    ensures IsName(name) ==> 1 <= |name| <= MAX_LFN && Entries(|name|) >= 1
  {
  }

  /** How dir_read tells an entry of a long name from the others. */
  lemma LongEntry(dir: seq<byte>, name: seq<nat>, n: nat, s: byte)
    requires Holds(dir, name, n, s)
    ensures |dir| == 32 && dir[0] != 0 && dir[0] != 0xE5 && dir[0] != 0x2E && dir[11] % 0x40 == LFN_ATTR
  {
  }

  /** Masking an attribute with AM_MASK first does not change what its lower bits say. */
  lemma LowerBits(attr: byte)
    ensures attr % 0x40 % 0x20 == attr % 0x20
  {
  }

  /** One entry: a short entry ends the loop, an LFN entry is checked and picked, anything else breaks a sequence. */
  method ReadStep(dir: seq<byte>, buf: array<nat>, ord0: byte, sum0: byte, ghost name: seq<nat>, ghost n: int,
      ghost s: byte, ghost long: bool)
    returns (go: bool, has: bool, ord: byte, sum: byte)
    requires |dir| == 32 && buf.Length == MAX_LFN + 1
    requires long ==>
             IsName(name) && n >= 1 && Holds(dir, name, n, s) && n <= Entries(|name|) && Filled(buf[..], name, n)
    requires long && n < Entries(|name|) ==> ord0 == n && sum0 == s
    modifies buf
    ensures long ==> go && ord == n - 1 && sum == s && Filled(buf[..], name, n - 1)
    ensures IsShort(dir) ==> !go && has == (ord0 == 0 && sum0 == SumSfn(dir, 11)) && buf[..] == old(buf[..])
    ensures go <==> Skipped(dir)
    ensures if go then !has && (ord == 0 ==> Closes(dir, sum)) else has ==> IsShort(dir)
  {
    hide Holds, Filled, IsName, SumSfn, Entries, Placed;
    if long { LongEntry(dir, name, n, s); }
    LowerBits(dir[11]);
    go, has, ord, sum := true, false, ord0, sum0;
    var b, attr := dir[0], dir[11] % 0x40;
    if b == 0 {
      go := false;
    } else if b == 0xE5 || b == 0x2E || attr % 0x20 == 0x08 {
      ord := 0xFF;
    } else if attr == LFN_ATTR {
      ghost var was := buf[..];
      ord, sum := ReadLfnEntry(buf, dir, ord0, sum0, name, if n >= 0 then n else 0, s);
      if long { FilledMore(buf[..], was, name, n); }
    } else {
      go := false;
      has := ord == 0 && sum == SumSfn(dir, 11);
    }
  }

  lemma FilledMore(now: seq<nat>, was: seq<nat>, name: seq<nat>, n: nat)
    requires 1 <= n && Filled(was, name, n) && Placed(now, was, name, n)
    ensures Filled(now, name, n - 1)
  {
  }

  lemma {:induction false} SumSfnPrefix(a: seq<byte>, b: seq<byte>, n: nat)
    requires n <= |a| && n <= |b| && a[..n] == b[..n]
    ensures SumSfn(a, n) == SumSfn(b, n)
  {
    if n > 0 {
      assert a[..n - 1] == a[..n][..n - 1] && b[..n - 1] == b[..n][..n - 1];
      assert a[n - 1] == a[..n][n - 1] && b[n - 1] == b[..n][n - 1];
      SumSfnPrefix(a, b, n - 1);
    }
  }

  /** The NT flags of a short entry: lower-case body and lower-case extension. */
  function NtFlags(flags: byte): (r: byte)
    ensures r == 0 || r == 0x08 || r == 0x10 || r == 0x18
    ensures r / 8 == flags / 8 % 4
  {
    flags / 8 % 4 * 8
  }

  /** The short entry: the name `fn`, the NT flags, and nothing else yet. */
  ghost predicate ShortOf(dir: seq<byte>, fn: seq<byte>, flags: byte) {
    && |dir| == 32 && |fn| == 11 && dir[..11] == fn && dir[12] / 8 == flags / 8 % 4 && dir[12] % 8 == 0
    && forall k | 11 <= k < 32 && k != 12 :: dir[k] == 0
  }

  /**
   * dir_register for a name that needs a long one: its entries, each with the checksum of the short name, then the
   * short entry. DirRead reads them back as the same name.
   */
  method DirRegister(lfn: array<nat>, fn: seq<byte>, flags: byte, ghost name: seq<nat>, len: nat)
      returns (entries: seq<seq<byte>>)
    requires IsName(name) && Buffered(lfn[..], name) && len == |name|
    requires |fn| == 11 && fn[0] != 0 && fn[0] != 0xE5 && fn[0] != 0x2E
    ensures IsSet(entries, name) && ShortOf(entries[|entries| - 1], fn, flags)
    ensures forall k | 0 <= k < |entries| - 1 :: |entries[k]| == 32 && entries[k][13] == SumSfn(fn, 11)
  {
    var sum := SumSfn(fn, 11);
    entries := RegisterLfn(lfn, sum, name, len);
    var short := fn + [0, NtFlags(flags)] + seq(19, _ => 0);
    assert short[..11] == fn[..11];
    SumSfnPrefix(fn, short, 11);
    entries := entries + [short];
  }
}
