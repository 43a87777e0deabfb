/** The SMMU page tables (bdk/mem/smmu.c): a directory of 1024 slots per domain, each slot a 4MB
    region or a table of 1024 pages, allocated from a heap that only grows. */
module Smmu {
  import opened Options

  const ENTRIES := 1024
  const VIRTUAL_PAGES := 0x10_0000
  const PHYSICAL_PAGES := 0x40_0000
  const SMMU_4MB_REGION := 0
  const SMMU_PAGE_TABLE := 1
  const SMMU_ATTR_ALL := 7
  const SZ_PAGE := 0x1000
  const SZ_4M := 0x40_0000

  /** A 32-bit entry. The three bit-field layouts share these bits: `tbl.table` and `pte.page` are the
      low 22 bits, `huge.page` the upper 12 of those. */
  datatype Entry = Entry(lo: nat, hi: nat, next: nat, attr: nat)
  {
    function Frame(): nat { hi * ENTRIES + lo }

    function WithFrame(frame: nat): Entry { this.(lo := frame % ENTRIES, hi := frame / ENTRIES % 0x1000) }
  }

  const ZERO := Entry(0, 0, 0, 0)

  datatype Mapping = Mapping(page: nat, attr: nat)

  /** A page without permissions does not translate. */
  function Permit(page: nat, attr: nat): Option<Mapping>
  {
    if attr == 0 then None else Some(Mapping(page, attr))
  }

  type Pages = map<nat, seq<Entry>>

  function Cell(pages: Pages, frame: nat, i: nat): Entry
  {
    if frame in pages && i < |pages[frame]| then pages[frame][i] else ZERO
  }

  function Slot(pages: Pages, dir: nat, v: nat): Entry { Cell(pages, dir, v / ENTRIES) }

  /** The walk of virtual page v from a directory. */
  function Translate(pages: Pages, dir: nat, v: nat): Option<Mapping>
  {
    var pde := Slot(pages, dir, v);
    if pde.next == SMMU_4MB_REGION then Permit(pde.hi * ENTRIES + v % ENTRIES, pde.attr)
    else
      var pte := Cell(pages, pde.Frame(), v % ENTRIES);
      Permit(pte.Frame(), pte.attr)
  }

  /** The slot of v holds a 4MB region with some permission. */
  predicate PermittedRegion(pages: Pages, dir: nat, v: nat)
  {
    var pde := Slot(pages, dir, v);
    pde.next == SMMU_4MB_REGION && pde.attr != 0
  }

  datatype Owner = Owner(dir: nat, slot: nat)

  /** Every slot is a region, or refers to a table that no other slot refers to. */
  ghost predicate SlotOk(pages: Pages, dirs: set<nat>, owners: map<nat, Owner>, dir: nat, slot: nat)
  {
    var pde := Cell(pages, dir, slot);
    pde.next == SMMU_4MB_REGION ||
    (pde.next == SMMU_PAGE_TABLE && pde.attr == SMMU_ATTR_ALL && pde.Frame() in pages && pde.Frame() !in dirs &&
     pde.Frame() in owners && owners[pde.Frame()] == Owner(dir, slot))
  }

  ghost predicate Consistent(pages: Pages, dirs: set<nat>, owners: map<nat, Owner>, nextPage: nat)
  {
    (forall p :: p in pages ==> |pages[p]| == ENTRIES && p < nextPage) &&
    (forall p :: p in owners ==> p < nextPage) &&
    (forall d :: d in dirs ==> d in pages) &&
    (forall d, s :: d in dirs && 0 <= s < ENTRIES ==> SlotOk(pages, dirs, owners, d, s))
  }

  // ----- What the three kinds of writes do to the translations -----

  /** A table whose entries carry their own frame and no permission. */
  ghost predicate FreshTable(page: seq<Entry>, slot: nat)
  {
    |page| == ENTRIES && forall i :: 0 <= i < ENTRIES ==> page[i] == Entry(i, slot, 0, 0)
  }

  /** A fresh table in a slot without permissions changes no translation anywhere. */
  lemma InstallTable(pages: Pages, dirs: set<nat>, owners: map<nat, Owner>, nextPage: nat, dir: nat, slot: nat,
                     table: seq<Entry>)
    returns (pages': Pages, owners': map<nat, Owner>)
    requires Consistent(pages, dirs, owners, nextPage) && dir in dirs && slot < ENTRIES && nextPage < VIRTUAL_PAGES
    requires Cell(pages, dir, slot).attr == 0 && FreshTable(table, slot)
    ensures pages' == pages[nextPage := table][dir := pages[dir][slot :=
                        pages[dir][slot].WithFrame(nextPage).(next := SMMU_PAGE_TABLE, attr := SMMU_ATTR_ALL)]]
    ensures owners' == owners[nextPage := Owner(dir, slot)]
    ensures Consistent(pages', dirs, owners', nextPage + 1)
    ensures forall d, v: nat :: d in dirs && v < VIRTUAL_PAGES ==> Translate(pages', d, v) == Translate(pages, d, v)
    ensures Cell(pages', dir, slot).Frame() == nextPage && Cell(pages', dir, slot).next == SMMU_PAGE_TABLE
  {
    pages' := pages[nextPage := table][dir := pages[dir][slot :=
                pages[dir][slot].WithFrame(nextPage).(next := SMMU_PAGE_TABLE, attr := SMMU_ATTR_ALL)]];
    owners' := owners[nextPage := Owner(dir, slot)];
    forall d, s | d in dirs && 0 <= s < ENTRIES ensures SlotOk(pages', dirs, owners', d, s) {
      assert SlotOk(pages, dirs, owners, d, s);
    }
    forall d, v: nat | d in dirs && v < VIRTUAL_PAGES ensures Translate(pages', d, v) == Translate(pages, d, v) {
      assert SlotOk(pages, dirs, owners, d, v / ENTRIES);
    }
  }

  /** A page table entry written through the slot of v changes the translation of v and no other. */
  lemma WritePte(pages: Pages, dirs: set<nat>, owners: map<nat, Owner>, nextPage: nat, dir: nat, v: nat, pte: Entry)
    returns (pages': Pages)
    requires Consistent(pages, dirs, owners, nextPage) && dir in dirs && v < VIRTUAL_PAGES
    requires Slot(pages, dir, v).next == SMMU_PAGE_TABLE
    ensures var t := Slot(pages, dir, v).Frame();
            t in pages && |pages[t]| == ENTRIES && pages' == pages[t := pages[t][v % ENTRIES := pte]]
    ensures Consistent(pages', dirs, owners, nextPage)
    ensures forall d, w: nat :: d in dirs && w < VIRTUAL_PAGES ==>
              Translate(pages', d, w) ==
              if d == dir && w == v then Permit(pte.Frame(), pte.attr) else Translate(pages, d, w)
    ensures forall w: nat :: Slot(pages', dir, w) == Slot(pages, dir, w)
  {
    assert SlotOk(pages, dirs, owners, dir, v / ENTRIES);
    var t := Slot(pages, dir, v).Frame();
    pages' := pages[t := pages[t][v % ENTRIES := pte]];
    forall d, s | d in dirs && 0 <= s < ENTRIES ensures SlotOk(pages', dirs, owners, d, s) {
      assert SlotOk(pages, dirs, owners, d, s);
    }
    forall d, w: nat | d in dirs && w < VIRTUAL_PAGES
      ensures Translate(pages', d, w) ==
              if d == dir && w == v then Permit(pte.Frame(), pte.attr) else Translate(pages, d, w)
    {
      assert SlotOk(pages, dirs, owners, d, w / ENTRIES);
    }
  }

  /** A 4MB region written to a slot changes the translations of that slot and no other. */
  lemma WriteRegion(pages: Pages, dirs: set<nat>, owners: map<nat, Owner>, nextPage: nat, dir: nat, slot: nat,
                    pde: Entry)
    returns (pages': Pages)
    requires Consistent(pages, dirs, owners, nextPage) && dir in dirs && slot < ENTRIES && pde.next == SMMU_4MB_REGION
    ensures dir in pages && |pages[dir]| == ENTRIES && pages' == pages[dir := pages[dir][slot := pde]]
    ensures Consistent(pages', dirs, owners, nextPage)
    ensures forall d, w: nat :: d in dirs && w < VIRTUAL_PAGES ==>
              Translate(pages', d, w) ==
              if d == dir && w / ENTRIES == slot then Permit(pde.hi * ENTRIES + w % ENTRIES, pde.attr)
              else Translate(pages, d, w)
  {
    pages' := pages[dir := pages[dir][slot := pde]];
    forall d, s | d in dirs && 0 <= s < ENTRIES ensures SlotOk(pages', dirs, owners, d, s) {
      assert SlotOk(pages, dirs, owners, d, s);
    }
    forall d, w: nat | d in dirs && w < VIRTUAL_PAGES
      ensures Translate(pages', d, w) ==
              if d == dir && w / ENTRIES == slot then Permit(pde.hi * ENTRIES + w % ENTRIES, pde.attr)
              else Translate(pages, d, w)
    {
      assert SlotOk(pages, dirs, owners, d, w / ENTRIES);
    }
  }

  /** A new page that becomes a directory without permissions adds a domain that translates nothing. */
  lemma AddDirectory(pages: Pages, dirs: set<nat>, owners: map<nat, Owner>, nextPage: nat, pages': Pages)
    requires Consistent(pages, dirs, owners, nextPage)
    requires nextPage in pages' && NoPermissions(pages'[nextPage]) && pages' == pages[nextPage := pages'[nextPage]]
    ensures Consistent(pages', dirs + {nextPage}, owners, nextPage + 1) && nextPage !in dirs
    ensures forall v: nat :: v < VIRTUAL_PAGES ==> Translate(pages', nextPage, v) == None
    ensures forall d, v: nat :: d in dirs && v < VIRTUAL_PAGES ==> Translate(pages', d, v) == Translate(pages, d, v)
  {
    var dirs' := dirs + {nextPage};
    forall d, s | d in dirs' && 0 <= s < ENTRIES ensures SlotOk(pages', dirs', owners, d, s) {
      if d != nextPage { assert SlotOk(pages, dirs, owners, d, s); }
    }
    forall d, v: nat | d in dirs && v < VIRTUAL_PAGES ensures Translate(pages', d, v) == Translate(pages, d, v) {
      assert SlotOk(pages, dirs, owners, d, v / ENTRIES);
    }
  }

  /** A directory whose slots carry their own 4MB frame and no permission. */
  ghost predicate FreshDirectory(pdir: seq<Entry>)
  {
    |pdir| == ENTRIES && forall s :: 0 <= s < ENTRIES ==> pdir[s] == Entry(0, s, 0, 0)
  }

  ghost predicate NoPermissions(pdir: seq<Entry>)
  {
    |pdir| == ENTRIES && forall s :: 0 <= s < ENTRIES ==> pdir[s].next == SMMU_4MB_REGION && pdir[s].attr == 0
  }

  // ----- The plain map that a range of mappings makes of an old one -----

  /** n pages from v0 on, mapped to frames from p0 on; the frame field has 22 bits. */
  function Mapped(old': Option<Mapping>, v: nat, v0: nat, p0: nat, n: nat, attr: nat): Option<Mapping>
  {
    if v0 <= v < v0 + n then Permit((p0 + (v - v0)) % PHYSICAL_PAGES, attr % 8) else old'
  }

  /** r regions of 4MB from slot s0 on, mapped to 4MB frames from f0 on; the field has 12 bits. */
  function MappedHuge(old': Option<Mapping>, v: nat, s0: nat, f0: nat, r: nat, attr: nat): Option<Mapping>
  {
    if s0 <= v / ENTRIES < s0 + r then Permit((f0 + (v / ENTRIES - s0)) % 0x1000 * ENTRIES + v % ENTRIES, attr % 8)
    else old'
  }

  lemma FrameOfRegion(f: nat, i: nat)
    requires i < ENTRIES
    ensures (ENTRIES * f + i) % PHYSICAL_PAGES == f % 0x1000 * ENTRIES + i
  {
    var q, r := f / 0x1000, f % 0x1000;
    assert f == 0x1000 * q + r;
    assert ENTRIES * f + i == PHYSICAL_PAGES * q + (r * ENTRIES + i);
  }

  /** Mapping regions is mapping all their pages. */
  lemma HugeIsPages(old': Option<Mapping>, v: nat, s0: nat, f0: nat, r: nat, attr: nat)
    ensures MappedHuge(old', v, s0, f0, r, attr) == Mapped(old', v, ENTRIES * s0, ENTRIES * f0, ENTRIES * r, attr)
  {
    var s, i := v / ENTRIES, v % ENTRIES;
    assert v == ENTRIES * s + i;
    if s0 <= s < s0 + r {
      var f := f0 + (s - s0);
      FrameOfRegion(f, i);
      assert ENTRIES * f0 + (v - ENTRIES * s0) == ENTRIES * f + i;
    }
  }

  class Mmu {
    var nextPage: nat   // `smmu_heap`, as a page number
    var pages: Pages
    ghost var dirs: set<nat>
    ghost var owners: map<nat, Owner>

    ghost predicate Valid()
      reads this
    {
      Consistent(pages, dirs, owners, nextPage) && nextPage <= VIRTUAL_PAGES
    }

    constructor (heapPage: nat)
      requires heapPage <= VIRTUAL_PAGES
      ensures Valid() && dirs == {} && nextPage == heapPage
    {
      nextPage, pages, dirs, owners := heapPage, map[], {}, map[];
    }

    /** `smmu_page_zalloc(1)` */
    method PageZalloc() returns (page: nat)
      modifies `nextPage, `pages
      ensures page == old(nextPage) && nextPage == page + 1
      ensures page in pages && |pages[page]| == ENTRIES && pages == old(pages)[page := pages[page]]
      ensures forall i :: 0 <= i < ENTRIES ==> pages[page][i] == ZERO
    {
      page := nextPage;
      pages := pages[page := seq(ENTRIES, i => ZERO)];
      nextPage := nextPage + 1;
    }

    /** `_smmu_pdir_alloc` */
    method PdirAlloc() returns (pdir: nat)
      modifies `nextPage, `pages
      ensures pdir == old(nextPage) && nextPage == pdir + 1
      ensures pdir in pages && FreshDirectory(pages[pdir]) && pages == old(pages)[pdir := pages[pdir]]
    {
      pdir := PageZalloc();
      for pdn := 0 to ENTRIES
        invariant nextPage == pdir + 1
        invariant pdir in pages && |pages[pdir]| == ENTRIES && pages == old(pages)[pdir := pages[pdir]]
        invariant forall i :: 0 <= i < pdn ==> pages[pdir][i] == Entry(0, i, 0, 0)
        invariant forall i :: pdn <= i < ENTRIES ==> pages[pdir][i] == ZERO
      {
        pages := pages[pdir := pages[pdir][pdn := pages[pdir][pdn].(hi := pdn)]];
      }
    }

    /** `smmu_domain_init`: a new domain, which translates nothing. */
    method DomainInit() returns (ptb: nat)
      requires Valid() && nextPage < VIRTUAL_PAGES
      modifies this
      ensures Valid() && ptb !in old(dirs) && dirs == old(dirs) + {ptb}
      ensures forall v: nat :: v < VIRTUAL_PAGES ==> Translate(pages, ptb, v) == None
      ensures forall d, v: nat :: d in old(dirs) && v < VIRTUAL_PAGES ==>
                Translate(pages, d, v) == Translate(old(pages), d, v)
    {
      hide Consistent, Translate;
      ptb := PdirAlloc();
      AddDirectory(old(pages), dirs, owners, ptb, pages);
      dirs := dirs + {ptb};
    }

    /** The initialised table of `_smmu_get_pte`, lines 217-225 */
    method TableAlloc(pdn: nat) returns (ptbl: nat)
      requires pdn < ENTRIES
      modifies `nextPage, `pages
      ensures ptbl == old(nextPage) && nextPage == ptbl + 1
      ensures ptbl in pages && FreshTable(pages[ptbl], pdn) && pages == old(pages)[ptbl := pages[ptbl]]
    {
      ptbl := PageZalloc();
      var addr := pdn * SZ_4M;
      for pn := 0 to ENTRIES
        invariant addr == pdn * SZ_4M + pn * SZ_PAGE && nextPage == ptbl + 1
        invariant ptbl in pages && |pages[ptbl]| == ENTRIES && pages == old(pages)[ptbl := pages[ptbl]]
        invariant forall i :: 0 <= i < pn ==> pages[ptbl][i] == Entry(i, pdn, 0, 0)
        invariant forall i :: pn <= i < ENTRIES ==> pages[ptbl][i] == ZERO
      {
        assert addr / SZ_PAGE == pdn * ENTRIES + pn;
        pages := pages[ptbl := pages[ptbl][pn := pages[ptbl][pn].WithFrame(addr / SZ_PAGE)]];
        addr := addr + SZ_PAGE;
      }
    }

    /** `_smmu_get_pte`: the table behind the slot of virtual page v, made on demand. It looks only at
        the permissions, so for a permitted 4MB region it returns what is not a table. */
    method GetTable(dir: nat, v: nat) returns (table: nat)
      requires Valid() && dir in dirs && v < VIRTUAL_PAGES
      requires Slot(pages, dir, v).attr == 0 ==> nextPage < VIRTUAL_PAGES
      modifies this
      ensures Valid() && dirs == old(dirs)
      ensures forall d, w: nat :: d in dirs && w < VIRTUAL_PAGES ==>
                Translate(pages, d, w) == Translate(old(pages), d, w)
      ensures table == Slot(pages, dir, v).Frame()
      ensures if PermittedRegion(old(pages), dir, v) then pages == old(pages)
              else Slot(pages, dir, v).next == SMMU_PAGE_TABLE
      ensures if Slot(old(pages), dir, v).attr == 0
              then nextPage == old(nextPage) + 1 && pages.Keys == old(pages.Keys) + {old(nextPage)}
              else nextPage == old(nextPage) && pages.Keys == old(pages.Keys)
      ensures forall w: nat :: w < VIRTUAL_PAGES && w / ENTRIES != v / ENTRIES ==>
                Slot(pages, dir, w) == Slot(old(pages), dir, w)
    {
      hide Consistent, Translate, FreshTable;
      SlotFacts(pages, dirs, owners, nextPage, dir, v);
      var pdn := v / ENTRIES;
      if Slot(pages, dir, v).attr != 0 { return Slot(pages, dir, v).Frame(); }
      ghost var pages0 := pages;
      table := TableAlloc(pdn);
      ghost var pages1, owners1 := InstallTable(pages0, dirs, owners, table, dir, pdn, pages[table]);
      var pde := pages[dir][pdn].WithFrame(table).(next := SMMU_PAGE_TABLE, attr := SMMU_ATTR_ALL);
      pages := pages[dir := pages[dir][pdn := pde]];
      assert pages == pages1;
      owners := owners1;
    }

    /** One turn of the loop of `smmu_map`. */
    method MapPage(dir: nat, v: nat, frame: nat, attr: nat)
      requires Valid() && dir in dirs && v < VIRTUAL_PAGES
      requires Slot(pages, dir, v).attr == 0 ==> nextPage < VIRTUAL_PAGES
      requires PermittedRegion(pages, dir, v) ==> Slot(pages, dir, v).Frame() !in pages
      modifies this
      ensures Valid() && dirs == old(dirs)
      ensures forall d, w: nat :: d in dirs && w < VIRTUAL_PAGES ==>
                Translate(pages, d, w) ==
                if d == dir && w == v && !PermittedRegion(old(pages), dir, v)
                then Permit(frame % PHYSICAL_PAGES, attr % 8) else Translate(old(pages), d, w)
      ensures PermittedRegion(old(pages), dir, v) ==> pages == old(pages)
      ensures !PermittedRegion(old(pages), dir, v) ==>
                Slot(pages, dir, v).next == SMMU_PAGE_TABLE && Slot(pages, dir, v).attr != 0
      ensures if Slot(old(pages), dir, v).attr == 0
              then nextPage == old(nextPage) + 1 && pages.Keys == old(pages.Keys) + {old(nextPage)}
              else nextPage == old(nextPage) && pages.Keys == old(pages.Keys)
      ensures forall w: nat :: w < VIRTUAL_PAGES && w / ENTRIES != v / ENTRIES ==>
                Slot(pages, dir, w) == Slot(old(pages), dir, w)
    {
      hide Consistent, Translate;
      var table := GetTable(dir, v);
      SlotFacts(pages, dirs, owners, nextPage, dir, v);
      // A write through a permitted region goes to memory that holds no table.
      if table in pages {
        var old' := Cell(pages, table, v % ENTRIES);
        var pte := old'.WithFrame(frame).(attr := attr % 8);
        FrameField(old', frame);
        ghost var pages1 := WritePte(pages, dirs, owners, nextPage, dir, v, pte);
        pages := pages[table := pages[table][v % ENTRIES := pte]];
        assert pages == pages1;
      }
    }

    /** `smmu_map`: each page of a range that does not wrap gets the requested frame and permissions,
        unless its slot holds a permitted 4MB region, and no other page of any domain changes. */
    method Map(ptb: nat, iova: nat, iopa: nat, count: nat, attr: nat)
      requires Valid() && ptb in dirs
      requires iova < 0x1_0000_0000 && iova / SZ_PAGE + count <= VIRTUAL_PAGES
      requires nextPage + SlotSpan(iova / SZ_PAGE, count) <= VIRTUAL_PAGES
      requires RegionsApart(pages, nextPage, ptb, iova / SZ_PAGE, count)
      modifies this
      ensures Valid() && dirs == old(dirs)
      ensures forall d, v: nat :: d in dirs && v < VIRTUAL_PAGES ==>
                Translate(pages, d, v) == AfterMap(old(pages), ptb, iova / SZ_PAGE, iopa / SZ_PAGE, count, attr, d, v)
    {
      hide Consistent, Translate, Slot, Cell, Progress, AfterMap, PermittedRegion;
      ghost var pages0, next0, v0, p0 := pages, nextPage, iova / SZ_PAGE, iopa / SZ_PAGE;
      var va, pa := iova, iopa;
      NothingMapped(pages, nextPage, ptb, v0, p0, attr);
      for i := 0 to count
        invariant Valid() && dirs == old(dirs)
        invariant i < count ==> va / SZ_PAGE == v0 + i
        invariant pa / SZ_PAGE == p0 + i
        invariant Progress(pages0, next0, ptb, v0, i, pages, nextPage)
        invariant forall d, v: nat :: d in dirs && v < VIRTUAL_PAGES ==>
                    Translate(pages, d, v) == AfterMap(pages0, ptb, v0, p0, i, attr, d, v)
      {
        ghost var pages1, next1 := pages, nextPage;
        BeforeStep(pages0, next0, ptb, v0, count, i, pages, nextPage);
        MapPage(ptb, va / SZ_PAGE, pa / SZ_PAGE, attr);
        AfterStep(pages0, next0, ptb, v0, i, pages1, next1, pages, nextPage);
        forall d, v: nat | d in dirs && v < VIRTUAL_PAGES
          ensures Translate(pages, d, v) == AfterMap(pages0, ptb, v0, p0, i + 1, attr, d, v)
        {
          AfterMapStep(pages0, ptb, v0, p0, i, attr, d, v);
          SameRegions(pages0, next0, ptb, v0, i, pages1, next1);
        }
        va, pa := (va + SZ_PAGE) % 0x1_0000_0000, pa + SZ_PAGE;
      }
    }

    /** `smmu_map_huge`: each region of a range that does not wrap gets the requested 4MB frame and
        permissions, and no page outside the range changes. */
    method MapHuge(ptb: nat, iova: nat, iopa: nat, regions: nat, attr: nat)
      requires Valid() && ptb in dirs
      requires iova < 0x1_0000_0000 && iova / SZ_4M + regions <= ENTRIES
      modifies `pages
      ensures Valid()
      ensures forall d, v: nat :: d in dirs && v < VIRTUAL_PAGES ==>
                Translate(pages, d, v) == AfterMapHuge(old(pages), ptb, iova / SZ_4M, iopa / SZ_4M, regions, attr, d, v)
    {
      hide Consistent, Translate;
      ghost var pages0, s0, f0 := pages, iova / SZ_4M, iopa / SZ_4M;
      var va, pa := iova, iopa;
      for i := 0 to regions
        invariant Valid()
        invariant i < regions ==> va / SZ_4M == s0 + i
        invariant pa / SZ_4M == f0 + i
        invariant forall d, v: nat :: d in dirs && v < VIRTUAL_PAGES ==>
                    Translate(pages, d, v) == AfterMapHuge(pages0, ptb, s0, f0, i, attr, d, v)
      {
        var pdn := va / SZ_4M;
        var pde := Cell(pages, ptb, pdn).(hi := pa / SZ_4M % 0x1000, next := SMMU_4MB_REGION, attr := attr % 8);
        ghost var pages1 := WriteRegion(pages, dirs, owners, nextPage, ptb, pdn, pde);
        pages := pages[ptb := pages[ptb][pdn := pde]];
        assert pages == pages1;
        va, pa := (va + SZ_4M) % 0x1_0000_0000, pa + SZ_4M;
      }
    }
  }

  /** The plain map after mapping r regions in domain ptb. */
  function AfterMapHuge(pages: Pages, ptb: nat, s0: nat, f0: nat, r: nat, attr: nat, d: nat, v: nat): Option<Mapping>
  {
    if d == ptb then MappedHuge(Translate(pages, d, v), v, s0, f0, r, attr) else Translate(pages, d, v)
  }

  /** `smmu_map_huge` of r regions and `smmu_map` of their pages make the same translations, page by page,
      exactly when the page is outside the range, its slot held no permitted 4MB region, or that region has
      the requested frame and permissions already. */
  lemma HugeMapsLikePages(pages: Pages, ptb: nat, s0: nat, f0: nat, r: nat, attr: nat, d: nat, v: nat)
    ensures AfterMapHuge(pages, ptb, s0, f0, r, attr, d, v) ==
            AfterMap(pages, ptb, ENTRIES * s0, ENTRIES * f0, ENTRIES * r, attr, d, v) <==>
            (d == ptb && s0 <= v / ENTRIES < s0 + r && PermittedRegion(pages, ptb, v) ==>
               var pde := Slot(pages, ptb, v);
               pde.hi == (f0 + v / ENTRIES - s0) % 0x1000 && pde.attr == attr % 8)
  {
    HugeIsPages(Translate(pages, d, v), v, s0, f0, r, attr);
  }

  /** The plain map after mapping count pages in domain ptb. */
  function AfterMap(pages: Pages, ptb: nat, v0: nat, p0: nat, count: nat, attr: nat, d: nat, v: nat): Option<Mapping>
  {
    if d == ptb && !PermittedRegion(pages, ptb, v)
    then Mapped(Translate(pages, d, v), v, v0, p0, count, attr)
    else Translate(pages, d, v)
  }

  /** One more page */
  lemma AfterMapStep(pages: Pages, ptb: nat, v0: nat, p0: nat, i: nat, attr: nat, d: nat, v: nat)
    ensures AfterMap(pages, ptb, v0, p0, i + 1, attr, d, v) ==
            if d == ptb && v == v0 + i && !PermittedRegion(pages, ptb, v)
            then Permit((p0 + i) % PHYSICAL_PAGES, attr % 8)
            else AfterMap(pages, ptb, v0, p0, i, attr, d, v)
  {
    hide Translate;
  }

  lemma NothingMapped(pages: Pages, next: nat, ptb: nat, v0: nat, p0: nat, attr: nat)
    ensures forall d, v :: AfterMap(pages, ptb, v0, p0, 0, attr, d, v) == Translate(pages, d, v)
    ensures Progress(pages, next, ptb, v0, 0, pages, next)
  {
    hide Translate;
  }

  lemma SameRegions(pages0: Pages, next0: nat, ptb: nat, v0: nat, i: nat, pages: Pages, next: nat)
    requires Progress(pages0, next0, ptb, v0, i, pages, next)
    ensures forall v: nat :: v < VIRTUAL_PAGES ==> (PermittedRegion(pages, ptb, v) <==> PermittedRegion(pages0, ptb, v))
  {
    hide PermittedRegion;
  }

  /** In bytes: after mapping a page-aligned range, the address `iova + k` of a page without a permitted region
      translates to `iopa + k` with the requested permissions, or not at all when there are none. */
  lemma MapsAddresses(pages: Pages, ptb: nat, iova: nat, iopa: nat, count: nat, attr: nat, k: nat)
    requires iova % SZ_PAGE == 0 && iopa % SZ_PAGE == 0 && attr <= SMMU_ATTR_ALL
    requires k < SZ_PAGE * count && iopa + k < SZ_PAGE * PHYSICAL_PAGES
    requires !PermittedRegion(pages, ptb, (iova + k) / SZ_PAGE)
    ensures var m := AfterMap(pages, ptb, iova / SZ_PAGE, iopa / SZ_PAGE, count, attr, ptb, (iova + k) / SZ_PAGE);
            if attr == 0 then m == None
            else m.Some? && m.value.attr == attr && m.value.page * SZ_PAGE + (iova + k) % SZ_PAGE == iopa + k
  {
    hide Translate, PermittedRegion;
    PageOfByte(iova, k);
    PageOfByte(iopa, k);
    assert k / SZ_PAGE < count && (iopa + k) / SZ_PAGE < PHYSICAL_PAGES;
  }

  lemma PageOfByte(a: nat, k: nat)
    requires a % SZ_PAGE == 0
    ensures (a + k) / SZ_PAGE == a / SZ_PAGE + k / SZ_PAGE && (a + k) % SZ_PAGE == k % SZ_PAGE
    ensures (a + k) / SZ_PAGE * SZ_PAGE + (a + k) % SZ_PAGE == a + k
  {
  }

  /** The same for 4MB regions, whatever their slots held. */
  lemma MapsHugeAddresses(pages: Pages, ptb: nat, iova: nat, iopa: nat, r: nat, attr: nat, k: nat)
    requires iova % SZ_4M == 0 && iopa % SZ_4M == 0 && attr <= SMMU_ATTR_ALL
    requires k < SZ_4M * r && iopa + k < SZ_PAGE * PHYSICAL_PAGES
    ensures var m := AfterMapHuge(pages, ptb, iova / SZ_4M, iopa / SZ_4M, r, attr, ptb, (iova + k) / SZ_PAGE);
            if attr == 0 then m == None
            else m.Some? && m.value.attr == attr && m.value.page * SZ_PAGE + (iova + k) % SZ_PAGE == iopa + k
  {
    hide Translate, PermittedRegion, MappedHuge;
    var v := (iova + k) / SZ_PAGE;
    HugeIsPages(Translate(pages, ptb, v), v, iova / SZ_4M, iopa / SZ_4M, r, attr);
    RegionPages(iova);
    RegionPages(iopa);
    PageOfByte(iova, k);
    PageOfByte(iopa, k);
    assert k / SZ_PAGE < ENTRIES * r && (iopa + k) / SZ_PAGE < PHYSICAL_PAGES;
  }

  lemma RegionPages(a: nat)
    requires a % SZ_4M == 0
    ensures a % SZ_PAGE == 0 && ENTRIES * (a / SZ_4M) == a / SZ_PAGE
  {
  }

  /** Pages outside the range, and all pages of other domains, keep their translations. */
  lemma MapsNothingElse(pages: Pages, ptb: nat, v0: nat, p0: nat, n: nat, attr: nat, d: nat, v: nat)
    requires d != ptb || v < v0 || v0 + n <= v
    ensures AfterMap(pages, ptb, v0, p0, n, attr, d, v) == Translate(pages, d, v)
    ensures d != ptb || v < ENTRIES * v0 || ENTRIES * (v0 + n) <= v ==>
              AfterMapHuge(pages, ptb, v0, p0, n, attr, d, v) == Translate(pages, d, v)
  {
    hide Translate, PermittedRegion;
    if d != ptb || v < ENTRIES * v0 || ENTRIES * (v0 + n) <= v { HugeOutside(v, v0, n); }
  }

  lemma HugeOutside(v: nat, s0: nat, r: nat)
    ensures s0 <= v / ENTRIES < s0 + r <==> ENTRIES * s0 <= v < ENTRIES * (s0 + r)
  {
  }

  /** The first slot that i pages from v0 on have not touched. */
  function Reach(v0: nat, i: nat): nat
  {
    if i == 0 then v0 / ENTRIES else (v0 + i - 1) / ENTRIES + 1
  }

  /** No permitted 4MB region in the range covers the pages of the table heap. */
  ghost predicate RegionsApart(pages: Pages, nextPage: nat, ptb: nat, v0: nat, count: nat)
  {
    forall v: nat :: v0 <= v < v0 + count && PermittedRegion(pages, ptb, v) ==>
      Slot(pages, ptb, v).Frame() !in pages &&
      !(nextPage <= Slot(pages, ptb, v).Frame() < nextPage + SlotSpan(v0, count))
  }

  /** What i turns of the loop have done to the slots and the heap. */
  ghost predicate Progress(pages0: Pages, next0: nat, ptb: nat, v0: nat, i: nat, pages: Pages, next: nat)
  {
    (forall v: nat :: v < VIRTUAL_PAGES ==> (PermittedRegion(pages, ptb, v) <==> PermittedRegion(pages0, ptb, v))) &&
    (forall v: nat :: v < VIRTUAL_PAGES && (PermittedRegion(pages0, ptb, v) || Reach(v0, i) <= v / ENTRIES) ==>
       Slot(pages, ptb, v) == Slot(pages0, ptb, v)) &&
    (i > 0 ==> Slot(pages, ptb, v0 + i - 1).attr != 0) &&
    next0 <= next <= next0 + (Reach(v0, i) - v0 / ENTRIES) &&
    (forall p :: p in pages ==> p in pages0 || next0 <= p < next)
  }

  lemma BeforeStep(pages0: Pages, next0: nat, ptb: nat, v0: nat, count: nat, i: nat, pages: Pages, next: nat)
    requires Progress(pages0, next0, ptb, v0, i, pages, next) && i < count && v0 + count <= VIRTUAL_PAGES
    requires next0 + SlotSpan(v0, count) <= VIRTUAL_PAGES && RegionsApart(pages0, next0, ptb, v0, count)
    ensures Slot(pages, ptb, v0 + i).attr == 0 ==> next < VIRTUAL_PAGES
    ensures PermittedRegion(pages, ptb, v0 + i) ==> Slot(pages, ptb, v0 + i).Frame() !in pages
  {
    hide Cell;
    var v := v0 + i;
    if i > 0 && v / ENTRIES == (v - 1) / ENTRIES { assert Slot(pages, ptb, v) == Slot(pages, ptb, v - 1); }
  }

  lemma AfterStep(pages0: Pages, next0: nat, ptb: nat, v0: nat, i: nat, pages1: Pages, next1: nat,
                  pages: Pages, next: nat)
    requires Progress(pages0, next0, ptb, v0, i, pages1, next1) && v0 + i < VIRTUAL_PAGES
    requires if Slot(pages1, ptb, v0 + i).attr == 0 then next == next1 + 1 && pages.Keys == pages1.Keys + {next1}
             else next == next1 && pages.Keys == pages1.Keys
    requires PermittedRegion(pages1, ptb, v0 + i) ==> pages == pages1
    requires PermittedRegion(pages1, ptb, v0 + i) || Slot(pages, ptb, v0 + i).next == SMMU_PAGE_TABLE
    requires PermittedRegion(pages1, ptb, v0 + i) || Slot(pages, ptb, v0 + i).attr != 0
    requires forall w: nat :: w < VIRTUAL_PAGES && w / ENTRIES != (v0 + i) / ENTRIES ==>
               Slot(pages, ptb, w) == Slot(pages1, ptb, w)
    ensures Progress(pages0, next0, ptb, v0, i + 1, pages, next)
  {
    hide Cell;
    var v := v0 + i;
    forall w: nat | w < VIRTUAL_PAGES
      ensures PermittedRegion(pages, ptb, w) <==> PermittedRegion(pages0, ptb, w)
      ensures PermittedRegion(pages0, ptb, w) || Reach(v0, i + 1) <= w / ENTRIES ==>
                Slot(pages, ptb, w) == Slot(pages0, ptb, w)
    {
      if w / ENTRIES == v / ENTRIES {
        assert Slot(pages, ptb, w) == Slot(pages, ptb, v) && Slot(pages1, ptb, w) == Slot(pages1, ptb, v);
      }
    }
    if i > 0 && v / ENTRIES == (v - 1) / ENTRIES { assert Slot(pages1, ptb, v) == Slot(pages1, ptb, v - 1); }
  }

  /** The number of slots that count pages from v0 on touch. */
  function SlotSpan(v0: nat, count: nat): nat
  {
    if count == 0 then 0 else (v0 + count - 1) / ENTRIES - v0 / ENTRIES + 1
  }

  lemma FrameField(e: Entry, frame: nat)
    ensures e.WithFrame(frame).Frame() == frame % PHYSICAL_PAGES
  {
  }

  lemma SlotFacts(pages: Pages, dirs: set<nat>, owners: map<nat, Owner>, nextPage: nat, dir: nat, v: nat)
    requires Consistent(pages, dirs, owners, nextPage) && dir in dirs && v < VIRTUAL_PAGES
    ensures dir in pages && |pages[dir]| == ENTRIES && dir < nextPage
    ensures var pde := Slot(pages, dir, v);
            pde.next == SMMU_4MB_REGION || (pde.next == SMMU_PAGE_TABLE && pde.attr != 0 && pde.Frame() in pages)
  {
    assert SlotOk(pages, dirs, owners, dir, v / ENTRIES);
  }
}
