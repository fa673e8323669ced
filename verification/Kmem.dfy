/**
 The kernel's own page budget: a fixed carve of pages, handed out fresh until it is spent, and a stack
 of dead objects' pages that are handed out again first.
 */
module Kmem {
  import opened Basics

  /** The size of the carve, in pages. */
  const KERNEL_OBJ_PAGES: nat := 1024

  const PAGE_BYTES: nat := 4096

  const ZERO_PAGE: Bytes := seq(PAGE_BYTES, _ => 0)

  class Pool {
    /** The first page number of the region, once carved. */
    var region: Option<nat>
    /** How many pages of the region have been retyped. */
    var carved: nat
    const free: array<nat>
    var freeLen: nat
    var memory: map<nat, Bytes>

    /** The pages some kernel object lives in. */
    ghost var out: set<nat>

    /** Every page carved is either out or on the stack, and nowhere twice. */
    ghost predicate Valid()
      reads this, free
    {
      && free.Length == KERNEL_OBJ_PAGES
      && freeLen <= carved <= KERNEL_OBJ_PAGES
      && (region.None? ==> carved == 0)
      && (forall i, j :: 0 <= i < j < freeLen ==> free[i] != free[j])
      && (forall i :: 0 <= i < freeLen ==> free[i] !in out && IsCarved(free[i]))
      && (forall p :: p in out ==> IsCarved(p))
      && |out| + freeLen == carved
    }

    predicate IsCarved(p: nat)
      reads this
    {
      region.Some? && region.value <= p < region.value + carved
    }

    constructor ()
      ensures Valid() && out == {} && freeLen == 0 && region.None?
    {
      region, carved, freeLen, memory, out := None, 0, 0, map[], {};
      free := new nat[KERNEL_OBJ_PAGES];
    }

    /**
     One page, zeroed: a recycled one if there is any, else the next of the carve. `grant` is where the
     frame allocator puts the carve, if it can; it is asked only once.
     */
    method TakePage(grant: Option<nat>) returns (r: Option<nat>)
      requires Valid()
      modifies this
      ensures Valid()
      ensures r.Some? ==> r.value !in old(out) && out == old(out) + {r.value} && r.value in memory && memory[r.value] == ZERO_PAGE
      ensures r.Some? ==> forall p :: p in old(memory) && p != r.value ==> p in memory && memory[p] == old(memory)[p]
      ensures r.None? ==> out == old(out) && memory == old(memory)
      ensures old(region).Some? ==> region == old(region) && (r.None? <==> old(carved) == KERNEL_OBJ_PAGES && old(freeLen) == 0)
      ensures old(region).None? ==> region == grant && (r.None? <==> grant.None?)
      ensures old(freeLen) > 0 ==> r == Some(old(free[freeLen - 1])) && freeLen == old(freeLen) - 1 && carved == old(carved)
      ensures old(freeLen) == 0 && r.Some? ==> r.value == region.value + old(carved) && carved == old(carved) + 1 && freeLen == 0
    {
      if freeLen > 0 {
        freeLen := freeLen - 1;
        var p := free[freeLen];
        memory := memory[p := ZERO_PAGE];
        out := out + {p};
        return Some(p);
      }
      if region.None? {
        if grant.None? {
          return None;
        }
        region := grant;
      }
      if carved == KERNEL_OBJ_PAGES {
        return None;
      }
      var p := region.value + carved;
      carved := carved + 1;
      memory := memory[p := ZERO_PAGE];
      out := out + {p};
      return Some(p);
    }

    /** A dead object's page comes home, with whatever bytes the object left in it. The stack has room for it. */
    method Recycle(p: nat, left: Bytes)
      requires Valid() && p in out
      modifies this, free
      ensures Valid() && out == old(out) - {p} && freeLen == old(freeLen) + 1
      ensures free[..freeLen] == old(free[..freeLen]) + [p] && region == old(region) && carved == old(carved)
      ensures memory == old(memory)[p := left]
    {
      OutSize(p);
      memory := memory[p := left];
      out := out - {p};
      free[freeLen] := p;
      freeLen := freeLen + 1;
    }

    /** A page that is out leaves room on the stack. */
    lemma {:induction false} OutSize(p: nat)
      requires Valid() && p in out
      ensures freeLen < KERNEL_OBJ_PAGES && |out - {p}| == |out| - 1
    {
      assert |out| > 0;
    }
  }
}
