/**
 Write protection of flash pages (board/b_l475e/osa_flash.c): each bank has two protected areas, and pages are added
 to them and taken out of them.

 The option bytes are read and programmed by the hardware layer; whether programming an area works is a parameter.
 */
module WriteProtect {
  // What a page field of the option bytes holds.
  type page = x: int | 0 <= x < 0x100

  const FLASH_BASE: nat := 0x0800_0000
  const FLASH_PAGE_SIZE: nat := 0x800
  const UNUSED: page := 0xFF

  // The range that is protected, on a device with two banks of 512 KB.
  const KM_FLASH_ADDR_START: nat := 0x080F_F000
  const KM_FLASH_ADDR_SIZE: nat := 0x1000
  const FLASH_BANK_SIZE: nat := 0x8_0000
  const KM_START: page := 254
  const KM_END: page := 255

  // ---------------------------------------------------------------- pages and banks

  function GetPage(addr: nat, bankSize: nat): nat
    requires FLASH_BASE <= addr
  {
    if addr < FLASH_BASE + bankSize then (addr - FLASH_BASE) / FLASH_PAGE_SIZE
    else (addr - (FLASH_BASE + bankSize)) / FLASH_PAGE_SIZE
  }

  datatype Bank = Bank1 | Bank2

  function GetBank(addr: nat, bankSize: nat, swapped: bool): Bank {
    if !swapped then (if addr < FLASH_BASE + bankSize then Bank1 else Bank2)
    else (if addr < FLASH_BASE + bankSize then Bank2 else Bank1)
  }

  // Page p has an address of the stretch in it.
  ghost predicate Covers(addr: nat, size: nat, bankSize: nat, p: int)
    requires FLASH_BASE <= addr
  {
    exists x :: addr <= x < addr + size && GetPage(x, bankSize) == p
  }

  // In one bank the pages from the first address's to the last one's are exactly those that have an address of the
  // stretch in them.
  lemma PagesCoverStretch(addr: nat, size: nat, bankSize: nat, swapped: bool, p: int)
    requires FLASH_BASE <= addr && size > 0
    requires GetBank(addr, bankSize, swapped) == GetBank(addr + size - 1, bankSize, swapped)
    ensures GetPage(addr, bankSize) <= p <= GetPage(addr + size - 1, bankSize) <==> Covers(addr, size, bankSize, p)
  {
    var base := if addr < FLASH_BASE + bankSize then FLASH_BASE else FLASH_BASE + bankSize;
    if GetPage(addr, bankSize) <= p <= GetPage(addr + size - 1, bankSize) {
      var x: nat := if addr > base + p * FLASH_PAGE_SIZE then addr else base + p * FLASH_PAGE_SIZE;
      assert addr <= x < addr + size && GetPage(x, bankSize) == p;
    }
  }

  // The protected range is the last two pages of the second bank of addresses.
  lemma KmPages(swapped: bool)
    ensures GetPage(KM_FLASH_ADDR_START, FLASH_BANK_SIZE) == KM_START
    ensures GetPage(KM_FLASH_ADDR_START + KM_FLASH_ADDR_SIZE - 1, FLASH_BANK_SIZE) == KM_END
    ensures GetBank(KM_FLASH_ADDR_START, FLASH_BANK_SIZE, swapped) ==
            GetBank(KM_FLASH_ADDR_START + KM_FLASH_ADDR_SIZE - 1, FLASH_BANK_SIZE, swapped)
  {}

  // ---------------------------------------------------------------- areas

  datatype Area = Area(start: page, end: page) {
    predicate InUse() {
      start <= end
    }

    predicate Has(p: int) {
      start <= p <= end
    }

    // The area has a page of s..e.
    predicate Meets(s: page, e: page) {
      InUse() && start <= e && s <= end
    }

    // The area has a page of s..e, or one next to it.
    predicate Touches(s: page, e: page) {
      start <= e + 1 && s <= end + 1
    }

    predicate Contains(s: page, e: page) {
      start <= s && e <= end
    }

    // Pages are left on both sides of s..e.
    predicate Surrounds(s: page, e: page) {
      start < s && e < end
    }
  }

  // Both areas are in use and cannot take s..e in. An area that starts at page 0 and ends before e is not seen to
  // touch a range that starts at page 0, because StartPage - 1 wraps around.
  predicate NoRoom(a: Area, b: Area, s: page, e: page) {
    && a.InUse() && (a.Touches(s, e) ==> s == 0 == a.start && a.end < e)
    && b.InUse() && (b.Touches(s, e) ==> s == 0 == b.start && b.end < e)
  }

  // Such a range is refused although an area has pages of it.
  lemma PageZeroRefused()
    ensures NoRoom(Area(0, 1), Area(10, 12), 0, 3) && Area(0, 1).Meets(0, 3)
  {}

  // Which areas are to be programmed, and with what.
  datatype Plan = Plan(a: Area, b: Area, wrpA: bool, wrpB: bool, ok: bool)

  predicate Guarded(a: Area, b: Area, p: int) {
    a.Has(p) || b.Has(p)
  }

  // StartPage - 1 in 32 bits
  function Before(s: page): int {
    if s == 0 then 0xFFFF_FFFF else s - 1
  }

  // Success makes the protected pages the old ones and s..e exactly, by programming at most one area. It fails
  // exactly when there is no room.
  method PlanEnable(a0: Area, b0: Area, s: page, e: page) returns (plan: Plan)
    requires s <= e
    ensures plan.ok <==> !NoRoom(a0, b0, s, e)
    ensures plan.ok ==> forall p :: Guarded(plan.a, plan.b, p) <==> Guarded(a0, b0, p) || s <= p <= e
    ensures !(plan.wrpA && plan.wrpB) && (!plan.ok ==> !plan.wrpA && !plan.wrpB)
    ensures (!plan.wrpA ==> plan.a == a0) && (!plan.wrpB ==> plan.b == b0)
    ensures plan.ok && !a0.Meets(s, e) && !b0.Meets(s, e) ==> Grown(a0, b0, plan, s, e)
  {
    plan := Plan(a0, b0, false, false, true);
    if a0.start <= s && a0.end >= Before(s) {
      if a0.end < e { plan := plan.(a := a0.(end := e), wrpA := true); }
    } else if a0.start <= e + 1 && a0.end >= e {
      if a0.start > s { plan := plan.(a := a0.(start := s), wrpA := true); }
    } else if a0.start > s && a0.end < e {
      plan := plan.(a := Area(s, e), wrpA := true);
    } else if b0.start <= s && b0.end >= Before(s) {
      if b0.end < e { plan := plan.(b := b0.(end := e), wrpB := true); }
    } else if b0.start <= e + 1 && b0.end >= e {
      if b0.start > s { plan := plan.(b := b0.(start := s), wrpB := true); }
    } else if b0.start > s && b0.end < e {
      plan := plan.(b := Area(s, e), wrpB := true);
    } else if a0.start > a0.end {
      plan := plan.(a := Area(s, e), wrpA := true);
    } else if b0.start > b0.end {
      plan := plan.(b := Area(s, e), wrpB := true);
    } else {
      plan := plan.(ok := false);
    }
  }

  // One area has taken in s..e at one of its ends, and the other one is as it was.
  predicate Grown(a0: Area, b0: Area, plan: Plan, s: page, e: page) {
    || (plan.b == b0 && plan.a.Contains(s, e) && !plan.a.Surrounds(s, e))
    || (plan.a == a0 && plan.b.Contains(s, e) && !plan.b.Surrounds(s, e))
  }

  // s..e lies within an area with pages left on both sides, and the other area is in use.
  predicate CannotSplit(a: Area, b: Area, s: page, e: page) {
    (a.Surrounds(s, e) && b.InUse()) || (!a.Contains(s, e) && b.Surrounds(s, e) && a.InUse())
  }

  // An area keeps what it has before s..e, and another, unused one takes over what it has after it.
  predicate IsSplit(whole: Area, unused: Area, head: Area, tail: Area, s: page, e: page) {
    && whole.Surrounds(s, e) && !unused.InUse()
    && head == Area(whole.start, s - 1) && tail == Area(e + 1, whole.end)
  }

  // The area that contains s..e is the only one that has any of its pages, or none has.
  predicate OnlyOneMeets(a: Area, b: Area, s: page, e: page) {
    || (a.Contains(s, e) && !b.Meets(s, e))
    || (!a.Contains(s, e) && b.Contains(s, e) && !a.Meets(s, e))
    || (!a.Meets(s, e) && !b.Meets(s, e))
  }

  // Success never adds a page nor takes one outside s..e; it takes all of s..e exactly if one area has it to itself.
  // It fails exactly when the area cannot be split.
  method PlanDisable(a0: Area, b0: Area, s: page, e: page) returns (plan: Plan)
    requires s <= e
    ensures plan.ok <==> !CannotSplit(a0, b0, s, e)
    ensures plan.ok ==> forall p :: Guarded(plan.a, plan.b, p) ==> Guarded(a0, b0, p)
    ensures plan.ok ==> forall p :: Guarded(a0, b0, p) && !(s <= p <= e) ==> Guarded(plan.a, plan.b, p)
    ensures plan.ok ==>
      (OnlyOneMeets(a0, b0, s, e) <==> forall p :: s <= p <= e ==> !Guarded(plan.a, plan.b, p))
    ensures !plan.ok ==> !plan.wrpA && !plan.wrpB
    ensures (!plan.wrpA ==> plan.a == a0) && (!plan.wrpB ==> plan.b == b0)
    ensures plan.wrpA && plan.wrpB ==> IsSplit(a0, b0, plan.a, plan.b, s, e) || IsSplit(b0, a0, plan.b, plan.a, s, e)
    ensures a0.Surrounds(s, e) && !b0.InUse() ==> plan.wrpA && plan.wrpB && IsSplit(a0, b0, plan.a, plan.b, s, e)
    ensures b0.Surrounds(s, e) && !a0.InUse() ==> plan.wrpA && plan.wrpB && IsSplit(b0, a0, plan.b, plan.a, s, e)
  {
    plan := Plan(a0, b0, false, false, true);
    if a0.start == s && a0.end == e {
      plan := plan.(a := Area(UNUSED, 0), wrpA := true);
    } else if a0.start == s && a0.end > e {
      plan := plan.(a := a0.(start := e + 1), wrpA := true);
    } else if a0.start < s && a0.end == e {
      plan := plan.(a := a0.(end := s - 1), wrpA := true);
    } else if a0.start < s && a0.end > e {
      if b0.start > b0.end {
        plan := plan.(b := Area(e + 1, a0.end), wrpB := true);
        plan := plan.(a := a0.(end := s - 1), wrpA := true);
      } else {
        plan := plan.(ok := false);
      }
    } else if b0.start == s && b0.end == e {
      plan := plan.(b := Area(UNUSED, 0), wrpB := true);
    } else if b0.start == s && b0.end > e {
      plan := plan.(b := b0.(start := e + 1), wrpB := true);
    } else if b0.start < s && b0.end == e {
      plan := plan.(b := b0.(end := s - 1), wrpB := true);
    } else if b0.start < s && b0.end > e {
      if a0.start > a0.end {
        plan := plan.(a := Area(e + 1, b0.end), wrpA := true);
        plan := plan.(b := b0.(end := s - 1), wrpB := true);
      } else {
        plan := plan.(ok := false);
      }
    }
    if plan.ok { ClearedExactly(a0, b0, plan, s, e); }
  }

  // What unprotecting makes of one area, the other one being as it was.
  ghost predicate Cut(was: Area, now: Area, s: page, e: page) {
    && was.Contains(s, e)
    && forall p :: now.Has(p) <==> was.Has(p) && !(s <= p <= e)
  }

  // The first area is cut, or the second one, or neither contains s..e.
  ghost predicate CutOne(a0: Area, b0: Area, plan: Plan, s: page, e: page) {
    || (Cut(a0, plan.a, s, e) && plan.b == b0)
    || (!a0.Contains(s, e) && Cut(b0, plan.b, s, e) && plan.a == a0)
    || IsSplit(a0, b0, plan.a, plan.b, s, e)
    || IsSplit(b0, a0, plan.b, plan.a, s, e)
    || (!a0.Contains(s, e) && !b0.Contains(s, e) && plan.a == a0 && plan.b == b0)
  }

  lemma ClearedExactly(a0: Area, b0: Area, plan: Plan, s: page, e: page)
    requires s <= e && CutOne(a0, b0, plan, s, e)
    ensures OnlyOneMeets(a0, b0, s, e) <==> forall p :: s <= p <= e ==> !Guarded(plan.a, plan.b, p)
  {
    if !OnlyOneMeets(a0, b0, s, e) {
      var other := if a0.Contains(s, e) || (b0.Meets(s, e) && !b0.Contains(s, e)) then b0 else a0;
      var p := if other.start > s then other.start else s;
      assert s <= p <= e && Guarded(plan.a, plan.b, p);
    }
  }

  // ---------------------------------------------------------------- the option bytes

  class OptionBytes {
    var a: Area
    var b: Area

    constructor (a: Area, b: Area)
      ensures this.a == a && this.b == b
    {
      this.a, this.b := a, b;
    }

    // Pages s..e are protected or unprotected. Protecting is all or nothing. Unprotecting keeps the pages outside s..e
    // unless the first area is split and only its own half is programmed. When programming the first area fails the
    // option bytes are locked, so that the second one is not programmed either.
    method Configure(enable: bool, s: page, e: page, doA: bool, doB: bool) returns (status: int)
      requires s <= e
      modifies this
      ensures status == 0 || status == -1
      ensures enable && status == 0 ==> forall p :: Guarded(a, b, p) <==> Guarded(old(a), old(b), p) || s <= p <= e
      ensures enable && status == -1 ==> a == old(a) && b == old(b)
      ensures enable && doA && doB ==> (status == -1 <==> NoRoom(old(a), old(b), s, e))
      ensures enable && status == 0 && !old(a).Meets(s, e) && !old(b).Meets(s, e) ==>
        Grown(old(a), old(b), Plan(a, b, true, true, true), s, e)
      ensures !enable ==> forall p :: Guarded(a, b, p) ==> Guarded(old(a), old(b), p)
      ensures !enable && status == 0 ==>
        (OnlyOneMeets(old(a), old(b), s, e) <==> forall p :: s <= p <= e ==> !Guarded(a, b, p))
      ensures !enable && doA && doB ==> (status == -1 <==> CannotSplit(old(a), old(b), s, e))
      ensures !enable ==>
        (LosesTail(old(a), old(b), s, e, doA, doB) <==>
         exists p :: !(s <= p <= e) && Guarded(old(a), old(b), p) && !Guarded(a, b, p))
      ensures !enable && LosesTail(old(a), old(b), s, e, doA, doB) ==>
        status == -1 && forall p :: e < p ==> !Guarded(a, b, p)
    {
      var plan;
      if enable { plan := PlanEnable(a, b, s, e); } else { plan := PlanDisable(a, b, s, e); }
      status := if plan.ok then 0 else -1;
      var locked := false;
      if plan.wrpA {
        if doA { a := plan.a; } else { status, locked := -1, true; }
      }
      if plan.wrpB {
        if doB && !locked { b := plan.b; } else { status := -1; }
      }
      if !enable && LosesTail(old(a), old(b), s, e, doA, doB) {
        ghost var p := old(a).end;
        assert !(s <= p <= e) && Guarded(old(a), old(b), p) && !Guarded(a, b, p);
      }
    }

    // Protecting free pages and unprotecting them again restores the protected pages, and always can.
    method ProtectForAWhile(s: page, e: page) returns (on: int, off: int)
      requires s <= e && !a.Meets(s, e) && !b.Meets(s, e)
      modifies this
      ensures on == 0 ==> off == 0
      ensures on == 0 || (a == old(a) && b == old(b))
      ensures forall p :: Guarded(a, b, p) <==> Guarded(old(a), old(b), p)
    {
      on := Configure(true, s, e, true, true);
      if on != 0 { return on, -1; }
      ghost var a1, b1 := a, b;
      off := Configure(false, s, e, true, true);
      forall p ensures Guarded(a, b, p) <==> Guarded(old(a), old(b), p) {
        assert Guarded(a1, b1, p) <==> Guarded(old(a), old(b), p) || s <= p <= e;
        if s <= p <= e {
          assert !Guarded(a, b, p) && !Guarded(old(a), old(b), p);
        } else {
          assert !LosesTail(a1, b1, s, e, true, true);
        }
      }
    }

    // The range of the code, at the end of its bank. Protecting it fails exactly if both areas are in use and end
    // before page 253. Unprotecting never fails and never touches another page; it clears both pages exactly if one
    // area has them to itself.
    method ConfigWRP(enable: bool, swapped: bool, rdpLevel2: bool, doA: bool, doB: bool) returns (status: int)
      modifies this
      ensures rdpLevel2 ==> status == -1 && a == old(a) && b == old(b)
      ensures enable && status == 0 ==>
        forall p :: Guarded(a, b, p) <==>
          Guarded(old(a), old(b), p) || Covers(KM_FLASH_ADDR_START, KM_FLASH_ADDR_SIZE, FLASH_BANK_SIZE, p)
      ensures enable && status == -1 ==> a == old(a) && b == old(b)
      ensures enable && !rdpLevel2 && doA && doB ==>
        (status == -1 <==> old(a).InUse() && old(b).InUse() && old(a).end < KM_START - 1 && old(b).end < KM_START - 1)
      ensures !enable && !rdpLevel2 && doA && doB ==> status == 0
      ensures !enable ==> forall p :: Guarded(a, b, p) ==> Guarded(old(a), old(b), p)
      ensures !enable ==> forall p :: p < KM_START ==> (Guarded(a, b, p) <==> Guarded(old(a), old(b), p))
      ensures !enable && status == 0 ==>
        (!Guarded(a, b, KM_START) && !Guarded(a, b, KM_END) <==> OnlyOneMeets(old(a), old(b), KM_START, KM_END))
    {
      if rdpLevel2 { return -1; }
      KmPages(swapped);
      var startPage := GetPage(KM_FLASH_ADDR_START, FLASH_BANK_SIZE);
      var endPage := GetPage(KM_FLASH_ADDR_START + KM_FLASH_ADDR_SIZE - 1, FLASH_BANK_SIZE);
      var startBank := GetBank(KM_FLASH_ADDR_START, FLASH_BANK_SIZE, swapped);
      var endBank := GetBank(KM_FLASH_ADDR_START + KM_FLASH_ADDR_SIZE - 1, FLASH_BANK_SIZE, swapped);
      if startBank != endBank { return -1; }
      status := Configure(enable, startPage, endPage, doA, doB);
      forall p
        ensures startPage <= p <= endPage <==> Covers(KM_FLASH_ADDR_START, KM_FLASH_ADDR_SIZE, FLASH_BANK_SIZE, p)
      {
        PagesCoverStretch(KM_FLASH_ADDR_START, KM_FLASH_ADDR_SIZE, FLASH_BANK_SIZE, swapped, p);
      }
      assert !LosesTail(old(a), old(b), startPage, endPage, doA, doB);
    }
  }

  // The first area is split, and it is programmed while the one that takes over its tail is not.
  predicate LosesTail(a: Area, b: Area, s: page, e: page, doA: bool, doB: bool) {
    a.Surrounds(s, e) && !b.InUse() && doA && !doB
  }

  // No area reaches past the range of the code, so splitting never comes up there, nor does page 0.
  lemma KmNeverSplits(a: Area, b: Area, doA: bool, doB: bool)
    ensures !CannotSplit(a, b, KM_START, KM_END) && !LosesTail(a, b, KM_START, KM_END, doA, doB)
    ensures NoRoom(a, b, KM_START, KM_END) <==>
      a.InUse() && b.InUse() && a.end < KM_START - 1 && b.end < KM_START - 1
  {}

  // What fails there: with an area that ends inside the range, unprotecting succeeds and leaves page 254 protected.
  method UnprotectLeavesPage() returns (status: int, stillProtected: bool)
    ensures status == 0 && stillProtected
  {
    var bytes := new OptionBytes(Area(200, 254), Area(UNUSED, 0));
    assert !OnlyOneMeets(bytes.a, bytes.b, KM_START, KM_END) && !Guarded(bytes.a, bytes.b, KM_END);
    status := bytes.ConfigWRP(false, false, false, true, true);
    stillProtected := Guarded(bytes.a, bytes.b, KM_START);
  }

  // On another range, unprotecting pages 12 to 14 of 10 to 20 loses page 18 if the second area cannot be programmed.
  method SplitLosesTail() returns (status: int, stillProtected: bool)
    ensures status == -1 && !stillProtected
  {
    var bytes := new OptionBytes(Area(10, 20), Area(UNUSED, 0));
    assert LosesTail(bytes.a, bytes.b, 12, 14, true, false);
    status := bytes.Configure(false, 12, 14, true, false);
    stillProtected := Guarded(bytes.a, bytes.b, 18);
  }
}
