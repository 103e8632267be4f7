/** Physical region pages: the descriptor built for a buffer, and the walk a controller makes over it. */
module NvmePrp {
  import Bytes
  import opened Arith

  const PAGE_SIZE: nat := 4096
  const LIST_ENTRIES: nat := 512

  /** nvme_calc_num_pages. */
  function NumPages(addr: nat, size: nat): (n: nat)
    requires size > 0
    ensures n >= 1
  {
    (addr + size - 1) / 4096 - addr / 4096 + 1
  }

  /** nvme_calc_max_transfer_size in 64-bit arithmetic, for the exponents the shift is defined for. */
  function MaxTransfer(mdts: nat): (r: nat)
    requires mdts < 64
    ensures r <= LIST_ENTRIES * PAGE_SIZE
  {
    if mdts == 0 then 512 * 4096 else Min(512 * 4096, Pow2(mdts) * 4096 % 0x1_0000_0000_0000_0000)
  }

  lemma Pow2Four()
    ensures Pow2(4) == 16
  {
    assert Pow2(1) == 2 && Pow2(2) == 4;
  }

  lemma Powers()
    ensures Pow2(12) == 0x1000 && Pow2(52) == 0x10_0000_0000_0000 && Pow2(64) == 0x1_0000_0000_0000_0000
  {
    hide Pow2;
    Pow2Four();
    Pow2Sum(4, 4);
    Pow2Sum(8, 4);
    Pow2Sum(8, 8);
    Pow2Sum(16, 16);
    Pow2Sum(32, 16);
    Pow2Sum(48, 4);
    Pow2Sum(52, 12);
  }

  /**
   * The limit is a limit exactly for exponents below 52; from there on the product wraps to 0, which means no limit.
   */
  lemma LimitPositive(mdts: nat)
    requires mdts < 64
    ensures 0 < MaxTransfer(mdts) <= LIST_ENTRIES * PAGE_SIZE <==> mdts < 52
    ensures mdts >= 52 ==> MaxTransfer(mdts) == 0
  {
    Powers();
    if mdts >= 52 {
      Pow2Sum(mdts - 52, 52);
      var k := Pow2(mdts - 52);
      assert Pow2(mdts) * 4096 == 0x1_0000_0000_0000_0000 * k;
      Bytes.RemainderIs(Pow2(mdts) * 4096, 0x1_0000_0000_0000_0000, k, 0);
    } else {
      Pow2Sum(mdts, 51 - mdts);
      Pow2Sum(51, 1);
      assert Pow2(51) == 0x8_0000_0000_0000;
      MulMono(Pow2(mdts), 1, Pow2(51 - mdts));
      assert Pow2(mdts) <= Pow2(51);
      Bytes.RemainderIs(Pow2(mdts) * 4096, 0x1_0000_0000_0000_0000, 0, Pow2(mdts) * 4096);
    }
  }

  /**
   * Where it is a limit, it is what the controller reports in pages of 4 KiB, or 2 MiB if that is less or nothing is
   * reported.
   */
  lemma LimitIs(mdts: nat)
    requires mdts < 52
    ensures MaxTransfer(mdts) <= 0x20_0000 && (mdts > 0 ==> MaxTransfer(mdts) <= 0x1000 * Pow2(mdts))
    ensures MaxTransfer(mdts) == 0x20_0000 || (mdts > 0 && MaxTransfer(mdts) == 0x1000 * Pow2(mdts))
  {
    if mdts > 0 {
      Powers();
      Pow2Sum(mdts, 51 - mdts);
      Pow2Sum(51, 1);
      MulMono(Pow2(mdts), 1, Pow2(51 - mdts));
      Bytes.RemainderIs(Pow2(mdts) * 4096, 0x1_0000_0000_0000_0000, 0, Pow2(mdts) * 4096);
    }
  }

  /** A controller that reports 52 makes the driver treat its transfers as unlimited. */
  lemma LimitWraps()
    ensures MaxTransfer(52) == 0
  {
    LimitPositive(52);
  }

  /** A transfer within the limit spans at most 513 pages, so its list fits one page of entries. */
  lemma PagesFit(addr: nat, size: nat)
    requires 0 < size <= LIST_ENTRIES * PAGE_SIZE
    ensures NumPages(addr, size) <= LIST_ENTRIES + 1
  {
  }

  /** Byte `b` of the buffer, through the page tables. */
  function PhysByte(translate: nat -> nat, addr: nat, b: nat): nat {
    translate((addr + b) / 4096 * 4096) + (addr + b) % 4096
  }

  /** Byte `b` as a controller finds it: PRP1 up to the first page end, then PRP2 as a page or as a list of pages. */
  function WalkByte(prp1: nat, prp2: nat, list: seq<nat>, size: nat, b: nat): nat
    requires size > 0 && |list| == LIST_ENTRIES
  {
    var at := prp1 % 4096 + b;
    var pages := (prp1 % 4096 + size - 1) / 4096 + 1;
    if at < 4096 then prp1 + b
    else if pages == 2 then prp2 + at % 4096
    else if at / 4096 - 1 < |list| then list[at / 4096 - 1] + at % 4096
    else 0
  }

  /** Every page of the buffer is mapped. */
  predicate Mapped(translate: nat -> nat, addr: nat, n: nat) {
    forall i | 0 <= i < n :: translate(PageAt(addr, i)) != 0
  }

  function PageAt(addr: nat, i: nat): nat {
    addr / 4096 * 4096 + i * 4096
  }

  /**
   * What nvme_setup_prp demands: a buffer, a permitted size, every page mapped, and a list that fits when one is
   * needed.
   */
  predicate Describable(translate: nat -> nat, addr: nat, size: nat, maxTransfer: nat, listReady: bool) {
    && addr != 0 && size != 0 && (maxTransfer == 0 || size <= maxTransfer)
    && Mapped(translate, addr, NumPages(addr, size))
    && (NumPages(addr, size) <= 2 || (NumPages(addr, size) - 1 <= LIST_ENTRIES && listReady))
  }

  /** Without a limit, what does not fit one page of list entries is still refused. */
  lemma UnlimitedStillFits(translate: nat -> nat, addr: nat, size: nat, listReady: bool)
    requires Describable(translate, addr, size, 0, listReady)
    ensures NumPages(addr, size) <= LIST_ENTRIES + 1 && size <= (LIST_ENTRIES + 1) * PAGE_SIZE
  {
  }

  /** Position `at` of the buffer's page run, split into page and offset. */
  lemma Locate(addr: nat, size: nat, b: nat)
    requires b < size
    ensures var at := addr % 4096 + b;
            && (addr + b) / 4096 * 4096 == PageAt(addr, at / 4096) && (addr + b) % 4096 == at % 4096
            && at / 4096 < NumPages(addr, size) == (addr % 4096 + size - 1) / 4096 + 1
  {
  }

  /** How many pages a buffer touches, from its offset in the first and its size. */
  lemma PagesIff(addr: nat, size: nat)
    requires size > 0
    ensures NumPages(addr, size) <= 2 <==> addr % 4096 + size <= 0x2000
    ensures NumPages(addr, size) - 1 <= LIST_ENTRIES <==> addr % 4096 + size <= 513 * 4096
  {
    assert addr + size - 1 == addr / 4096 * 4096 + (addr % 4096 + size - 1);
    Bytes.RemainderIs(addr + size - 1, 4096, addr / 4096 + (addr % 4096 + size - 1) / 4096,
      (addr % 4096 + size - 1) % 4096);
  }

  /** The page that byte `b` of the buffer lies in is mapped. */
  predicate ByteMapped(translate: nat -> nat, addr: nat, b: nat) { translate((addr + b) / 4096 * 4096) != 0 }

  /** The pages demanded are those the buffer's bytes lie in, and no others. */
  lemma MappedIff(translate: nat -> nat, addr: nat, size: nat)
    requires size > 0
    ensures Mapped(translate, addr, NumPages(addr, size)) <==> forall b | 0 <= b < size ::
            ByteMapped(translate, addr, b)
  {
    var n := NumPages(addr, size);
    if Mapped(translate, addr, n) {
      forall b | 0 <= b < size ensures ByteMapped(translate, addr, b) { Locate(addr, size, b); }
    }
    if forall b | 0 <= b < size :: ByteMapped(translate, addr, b) {
      forall i | 0 <= i < n ensures translate(PageAt(addr, i)) != 0 {
        var b := if i == 0 then 0 else i * 4096 - addr % 4096;
        PageOfByte(addr, size, i, b);
        assert ByteMapped(translate, addr, b);
      }
    }
  }

  /** The first byte the buffer has in its page `i`. */
  lemma PageOfByte(addr: nat, size: nat, i: nat, b: int)
    requires size > 0 && i < NumPages(addr, size) && b == if i == 0 then 0 else i * 4096 - addr % 4096
    ensures 0 <= b < size && (addr + b) / 4096 * 4096 == PageAt(addr, i)
  {
    if i > 0 { Bytes.RemainderIs(addr + b, 4096, addr / 4096 + i, 0); }
  }

  predicate Described(translate: nat -> nat, addr: nat, n: nat, prp1: nat, prp2: nat, list: seq<nat>) {
    && prp1 == translate(PageAt(addr, 0)) + addr % 4096
    && (n == 2 ==> prp2 == translate(PageAt(addr, 1)))
    && (n > 2 ==> n - 1 <= |list| && forall i | 1 <= i < n :: list[i - 1] == translate(PageAt(addr, i)))
  }

  /** The walk over the descriptor meets exactly the bytes the page tables give. */
  lemma WalkIsTranslation(translate: nat -> nat, addr: nat, size: nat, prp1: nat, prp2: nat, list: seq<nat>, b: nat)
    requires b < size && |list| == LIST_ENTRIES && (forall p :: translate(p) % 4096 == 0)
    requires Described(translate, addr, NumPages(addr, size), prp1, prp2, list)
    ensures WalkByte(prp1, prp2, list, size, b) == PhysByte(translate, addr, b)
  {
    hide PageAt, NumPages;
    Locate(addr, size, b);
    var at, base := addr % 4096 + b, translate(PageAt(addr, 0));
    assert base % 4096 == 0;
    assert prp1 % 4096 == addr % 4096;
    assert at / 4096 >= 1 ==> at / 4096 - 1 < |list| ==> NumPages(addr, size) > 2 ==>
      list[at / 4096 - 1] == translate(PageAt(addr, at / 4096));
  }

  method SetupPrp(translate: nat -> nat, addr: nat, size: nat, maxTransfer: nat, listReady: bool, listPhys: nat,
      list: array<nat>)
    returns (ok: bool, prp1: nat, prp2: nat)
    requires list.Length == LIST_ENTRIES && forall p :: translate(p) % 4096 == 0
    modifies list
    ensures ok <==> Describable(translate, addr, size, maxTransfer, listReady)
    ensures ok <==>
              addr != 0 && size != 0 && (maxTransfer == 0 || size <= maxTransfer) &&
              (forall b | 0 <= b < size :: ByteMapped(translate, addr, b)) &&
              (addr % 4096 + size <= 0x2000 || (addr % 4096 + size <= 513 * 4096 && listReady))
    ensures ok ==> forall b | 0 <= b < size :: WalkByte(prp1, prp2, list[..], size, b) == PhysByte(translate, addr, b)
    ensures ok && NumPages(addr, size) > 2 ==> prp2 == listPhys
  {
    ok, prp1, prp2 := false, 0, 0;
    if size > 0 {
      MappedIff(translate, addr, size);
      PagesIff(addr, size);
    }
    if addr == 0 || size == 0 || (maxTransfer > 0 && size > maxTransfer) { return; }
    var base, off, n := addr / 4096 * 4096, addr % 4096, NumPages(addr, size);
    var first := translate(base);
    assert PageAt(addr, 0) == base;
    if first == 0 { return; }
    prp1 := first + off;
    if n > 1 {
      var second := translate(base + 4096);
      assert PageAt(addr, 1) == base + 4096;
      if second == 0 { return; }
      if n == 2 {
        prp2 := second;
      } else {
        if n - 1 > LIST_ENTRIES || !listReady { return; }
        prp2 := listPhys;
        var filled := FillList(translate, addr, n, second, list);
        if !filled { return; }
      }
    }
    ok := true;
    forall b | 0 <= b < size
      ensures WalkByte(prp1, prp2, list[..], size, b) == PhysByte(translate, addr, b)
    {
      WalkIsTranslation(translate, addr, size, prp1, prp2, list[..], b);
    }
  }

  method FillList(translate: nat -> nat, addr: nat, n: nat, second: nat, list: array<nat>) returns (ok: bool)
    requires list.Length == LIST_ENTRIES && 2 < n <= LIST_ENTRIES + 1 && second == translate(PageAt(addr, 1))
    modifies list
    ensures ok <==> forall i | 2 <= i < n :: translate(PageAt(addr, i)) != 0
    ensures ok ==> forall i | 1 <= i < n :: list[i - 1] == translate(PageAt(addr, i))
  {
    list[0] := second;
    ok := true;
    var i := 2;
    while i < n && ok
      invariant 2 <= i <= n
      invariant ok ==> forall j | 1 <= j < i :: list[j - 1] == translate(PageAt(addr, j))
      invariant ok ==> forall j | 2 <= j < i :: translate(PageAt(addr, j)) != 0
      invariant !ok ==> i < n && translate(PageAt(addr, i)) == 0
      decreases ok, n - i
    {
      var pa := translate(PageAt(addr, i));
      if pa == 0 {
        ok := false;
      } else {
        list[i - 1] := pa;
        i := i + 1;
      }
    }
  }
}
