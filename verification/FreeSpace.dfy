/** The bump allocator for the target (patcher/hotpatch.c): pages are mapped when
    they are needed, and what is left of an old mapping is discarded. */
module FreeSpace {
  import opened Bytes
  import opened Registers

  datatype Region = Region(start: word, size: nat)

  predicate Disjoint(a: Region, b: Region)
  {
    a.start + a.size <= b.start || b.start + b.size <= a.start
  }

  predicate Within(a: Region, b: Region)
  {
    b.start <= a.start && a.start + a.size <= b.start + b.size
  }

  predicate PairwiseDisjoint(rs: seq<Region>)
  {
    forall i, j :: 0 <= i < j < |rs| ==> Disjoint(rs[i], rs[j])
  }

  /** mmap hands out addresses that are not in use. */
  predicate Fresh(pages: seq<Region>, page: Region)
  {
    page.start + page.size < WORD && forall p :: p in pages ==> Disjoint(p, page)
  }

  function Pages(howMuch: nat, pageSize: nat): nat
    requires pageSize > 0
  {
    (howMuch + pageSize - 1) / pageSize
  }

  lemma PagesEnough(howMuch: nat, pageSize: nat)
    requires pageSize > 0
    ensures howMuch <= Pages(howMuch, pageSize) * pageSize < howMuch + pageSize
  {
    var n := howMuch + pageSize - 1;
    assert n == pageSize * (n / pageSize) + n % pageSize;
  }

  class Space {
    const pageSize: nat
    var addrFreeSpace: word
    var freeSpaceLeft: nat
    /** Everything mapped so far, and everything handed out. */
    ghost var pages: seq<Region>
    ghost var regions: seq<Region>

    ghost predicate Valid()
      reads this
    {
      && pageSize > 0
      && PairwiseDisjoint(pages) && PairwiseDisjoint(regions)
      && (forall p :: p in pages ==> p.start + p.size < WORD)
      && (forall r :: r in regions ==> exists p :: p in pages && Within(r, p))
      && (freeSpaceLeft > 0 ==> pages != [] && Within(Free(), pages[|pages| - 1]))
      && forall r :: r in regions ==> freeSpaceLeft > 0 ==> Disjoint(r, Free())
    }

    function Free(): Region reads this { Region(addrFreeSpace, freeSpaceLeft) }

    constructor (pageSize: nat)
      requires pageSize > 0
      ensures Valid() && pages == [] && regions == [] && this.pageSize == pageSize
    {
      this.pageSize := pageSize;
      addrFreeSpace, freeSpaceLeft := 0, 0;
      pages, regions := [], [];
    }

    /** reserveFreeSpaceInTarget; mapped is what mmap returns when it is called. */
    method Reserve(howMuch: u32, where: word, mapped: word) returns (a: word)
      requires Valid() && Fresh(pages, Region(mapped, Pages(howMuch, pageSize) * pageSize))
      modifies this
      ensures Valid() && regions == old(regions) && a == addrFreeSpace
      ensures freeSpaceLeft >= howMuch
      ensures old(pages) <= pages && |pages| <= |old(pages)| + 1
      ensures howMuch <= old(freeSpaceLeft) && (where == 0 || where == old(addrFreeSpace)) ==> Free() == old(Free()) && pages == old(pages)
    {
      PagesEnough(howMuch, pageSize);
      if howMuch <= freeSpaceLeft && (where == 0 || addrFreeSpace == where) {
        return addrFreeSpace;
      }
      addrFreeSpace, freeSpaceLeft := mapped, Pages(howMuch, pageSize) * pageSize;
      ApartFromRegions(pages, regions, Region(mapped, freeSpaceLeft));
      pages := pages + [Region(mapped, freeSpaceLeft)];
      return addrFreeSpace;
    }

    /** getFreeSpaceInTarget: the new region overlaps nothing handed out before and
        lies in a mapping. */
    method Get(howMuch: u32, mapped: word) returns (a: word)
      requires Valid() && Fresh(pages, Region(mapped, Pages(howMuch, pageSize) * pageSize))
      modifies this
      ensures Valid() && old(pages) <= pages
      ensures regions == old(regions) + (if howMuch > 0 then [Region(a, howMuch)] else [])
      ensures howMuch > 0 ==> exists p :: p in pages && Within(Region(a, howMuch), p)
      ensures howMuch > 0 ==> forall r :: r in old(regions) ==> Disjoint(r, Region(a, howMuch))
    {
      hide PairwiseDisjoint; hide Pages;
      a := Reserve(howMuch, 0, mapped);
      if howMuch > 0 {
        ghost var region := Region(a, howMuch);
        assert Within(region, pages[|pages| - 1]) && pages[|pages| - 1] in pages;
        assert forall r :: r in regions ==> Disjoint(r, region);
        DisjointSnoc(regions, region);
        regions := regions + [region];
      }
      freeSpaceLeft := freeSpaceLeft - howMuch;
      addrFreeSpace := addrFreeSpace + howMuch;
    }
  }

  lemma DisjointSnoc(rs: seq<Region>, r: Region)
    requires PairwiseDisjoint(rs) && forall x :: x in rs ==> Disjoint(x, r)
    ensures PairwiseDisjoint(rs + [r])
  {
  }

  /** A fresh page meets no region, because regions lie in older pages. */
  lemma ApartFromRegions(pages: seq<Region>, regions: seq<Region>, page: Region)
    requires Fresh(pages, page) && forall r :: r in regions ==> exists p :: p in pages && Within(r, p)
    ensures forall r :: r in regions ==> Disjoint(r, page)
  {
    forall r | r in regions ensures Disjoint(r, page) {
      var p :| p in pages && Within(r, p);
      assert Disjoint(p, page);
    }
  }
}
