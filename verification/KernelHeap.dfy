/** The kernel allocator as the driver sees it: live allocations by pointer. Pointers are
    allocation identities, handed out once; `freed` records every release in order. */
module KernelHeap {
  import opened Bytes
  import opened CommandLog

  /** How `krealloc` ends: it fails, or succeeds in the same place or in a new one. */
  datatype ReallocOutcome = Fails | InPlace | Moves

  /** An allocation brought to `n` bytes: the common prefix is kept, the rest is arbitrary. */
  function Resized(b: seq<byte>, n: nat, junk: seq<byte>): (r: seq<byte>)
    ensures |r| == n
  {
    seq(n, i requires 0 <= i < n => if i < |b| then b[i] else JunkAt(junk, i))
  }

  class Heap {
    var mem: map<nat, seq<byte>>
    var next: nat
    ghost var freed: seq<nat>

    /** Every allocation ever made is live or was freed, exactly once. */
    ghost predicate Valid()
      reads this
    {
      && 0 < next
      && (forall p :: p in mem ==> 0 < p < next)
      && (forall p :: p in freed ==> 0 < p < next && p !in mem)
      && (forall i, j :: 0 <= i < j < |freed| ==> freed[i] != freed[j])
      && (forall p :: 0 < p < next ==> p in mem || p in freed)
    }

    constructor ()
      ensures Valid() && mem == map[] && freed == []
    {
      mem, next, freed := map[], 1, [];
    }

    /** `krealloc(p, n, GFP_KERNEL)`; `p` is NULL or live. */
    method Krealloc(p: nat, n: nat, how: ReallocOutcome, junk: seq<byte>) returns (q: nat)
      requires Valid() && n > 0
      requires p == 0 || p in mem
      modifies this
      ensures Valid()
      ensures how == Fails ==> q == 0 && mem == old(mem) && freed == old(freed)
      ensures how != Fails ==>
                && q != 0
                && (if how == InPlace && p != 0 then q == p else q !in old(mem))
                && mem == (old(mem) - {p})[q := Resized(if p == 0 then [] else old(mem)[p], n, junk)]
                && freed == old(freed) + if p != 0 && q != p then [p] else []
    {
      if how == Fails {
        q := 0;
      } else if how == InPlace && p != 0 {
        q := p;
        mem := (mem - {p})[q := Resized(mem[p], n, junk)];
      } else {
        q := next;
        next := next + 1;
        mem := mem[q := Resized(if p == 0 then [] else mem[p], n, junk)];
        if p != 0 {
          mem := mem - {p};
          freed := freed + [p];
        }
      }
    }

    /** `kfree(p)`; freeing anything but a live allocation is ruled out. */
    method Kfree(p: nat)
      requires Valid() && p in mem
      modifies this
      ensures Valid()
      ensures mem == old(mem) - {p} && freed == old(freed) + [p]
    {
      mem := mem - {p};
      freed := freed + [p];
    }

    /** Copy `bytes` into a live allocation from offset `at` on. */
    method CopyIn(p: nat, at: nat, bytes: seq<byte>)
      requires Valid() && p in mem && at + |bytes| <= |mem[p]|
      modifies this
      ensures Valid() && freed == old(freed)
      ensures mem == old(mem)[p := old(mem)[p][..at] + bytes + old(mem)[p][at + |bytes|..]]
    {
      mem := mem[p := mem[p][..at] + bytes + mem[p][at + |bytes|..]];
    }
  }
}
