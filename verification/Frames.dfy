/** Physical page frames: the free list and reference counts of the page allocator, and the frames' contents. */
module Frames {
  import opened Sequences
  import opened Word32

  const FRAME_COUNT := 0x10_0000

  class FrameTable {
    var free: set<nat>
    var refcount: map<nat, nat>
    var ram: map<nat, seq<Byte>>

    ghost predicate Valid()
      reads this
    {
      && refcount.Keys == ram.Keys
      && (forall f :: f in refcount ==> 0 < f < FRAME_COUNT)
      && (forall f :: f in free ==> f in refcount && refcount[f] == 0)
    }

    /** get_free_page: frame 0 when none is left. */
    method GetFreePage() returns (f: nat)
      requires Valid()
      modifies this`free
      ensures Valid()
      ensures f == 0 <==> old(free) == {}
      ensures f == 0 ==> free == {}
      ensures f != 0 ==> f in old(free) && free == old(free) - {f}
    {
      if free == {} {
        return 0;
      }
      f :| f in free;
      free := free - {f};
    }

    /** The count kept by add_page_to_proc. */
    method Share(f: nat)
      requires Valid() && f in refcount && f !in free
      modifies this`refcount
      ensures Valid()
      ensures refcount == old(refcount)[f := old(refcount[f]) + 1]
    {
      refcount := refcount[f := refcount[f] + 1];
    }

    /** One round of release_proc_pages: a frame is freed when its last reference goes. */
    method Drop(f: nat)
      requires Valid() && f in refcount && refcount[f] > 0
      modifies this`refcount, this`free
      ensures Valid()
      ensures refcount == old(refcount)[f := old(refcount[f]) - 1]
      ensures free == (if refcount[f] == 0 then old(free) + {f} else old(free))
    {
      refcount := refcount[f := refcount[f] - 1];
      if refcount[f] == 0 {
        free := free + {f};
      }
    }

    /** The loop of release_proc_pages over one page list. */
    method DropAll(fs: seq<nat>)
      requires Valid() && NoDup(fs) && forall f :: f in fs ==> f in refcount && refcount[f] > 0
      modifies this`refcount, this`free
      ensures Valid() && refcount.Keys == old(refcount.Keys)
      ensures forall f :: f in refcount ==> refcount[f] == old(refcount[f]) - (if f in fs then 1 else 0)
      ensures forall f :: f in free <==> f in old(free) || (f in fs && refcount[f] == 0)
    {
      var k := 0;
      while k < |fs|
        invariant 0 <= k <= |fs|
        invariant Valid() && refcount.Keys == old(refcount.Keys)
        invariant forall f :: f in refcount ==> refcount[f] == old(refcount[f]) - (if f in fs[..k] then 1 else 0)
        invariant forall f :: f in free <==> f in old(free) || (f in fs[..k] && refcount[f] == 0)
      {
        assert fs[k] !in fs[..k] && fs[..k + 1] == fs[..k] + [fs[k]];
        Drop(fs[k]);
        k := k + 1;
      }
      assert fs[..k] == fs;
    }

    /** Take n free frames, each with one reference; false when there are not enough. */
    method TakeFrames(n: nat) returns (ok: bool, fs: seq<nat>)
      requires Valid()
      modifies this`refcount, this`free
      ensures !ok ==> free == {}
      ensures ok ==> Valid() && |fs| == n && Took(old(free), old(refcount), free, refcount, fs)
    {
      fs := [];
      TookNone(free, refcount);
      while |fs| < n
        invariant |fs| <= n && Valid()
        invariant Took(old(free), old(refcount), free, refcount, fs)
        decreases n - |fs|
      {
        ghost var free1, ref1 := free, refcount;
        var f := GetFreePage();
        if f == 0 {
          return false, fs;
        }
        TookMore(old(free), old(refcount), free1, ref1, fs, f);
        Share(f);
        fs := fs + [f];
      }
      return true, fs;
    }

    method WriteFrame(f: nat, page: seq<Byte>)
      requires Valid() && f in ram
      modifies this`ram
      ensures Valid()
      ensures ram == old(ram)[f := page]
    {
      ram := ram[f := page];
    }

    /** memcpy of a whole page between two frames. */
    method CopyFrame(dst: nat, src: nat)
      requires Valid() && dst in ram && src in ram
      modifies this`ram
      ensures Valid()
      ensures ram == old(ram)[dst := old(ram[src])]
    {
      ram := ram[dst := ram[src]];
    }
  }

  /** Frames fs were taken from the free list, and each has one reference more. */
  ghost predicate Took(free: set<nat>, ref: map<nat, nat>, free': set<nat>, ref': map<nat, nat>, fs: seq<nat>) {
    && NoDup(fs)
    && (forall f :: f in fs ==> f in free)
    && free' == free - Elems(fs)
    && ref'.Keys == ref.Keys
    && (forall f :: f in ref ==> ref'[f] == ref[f] + (if f in fs then 1 else 0))
  }

  lemma TookNone(free: set<nat>, ref: map<nat, nat>)
    ensures Took(free, ref, free, ref, [])
  {
  }

  lemma TookMore(free: set<nat>, ref: map<nat, nat>, free': set<nat>, ref': map<nat, nat>, fs: seq<nat>, f: nat)
    requires Took(free, ref, free', ref', fs) && f in free' && f in ref
    ensures Took(free, ref, free' - {f}, ref'[f := ref'[f] + 1], fs + [f])
  {
  }

  lemma TookBoth(free: set<nat>, ref: map<nat, nat>, free1: set<nat>, ref1: map<nat, nat>, fs: seq<nat>,
                 free2: set<nat>, ref2: map<nat, nat>, gs: seq<nat>)
    requires Took(free, ref, free1, ref1, fs) && Took(free1, ref1, free2, ref2, gs)
    ensures Took(free, ref, free2, ref2, fs + gs)
  {
    var all := fs + gs;
    forall i, j | 0 <= i < j < |all|
      ensures all[i] != all[j]
    {
      if i < |fs| <= j {
        assert all[i] in fs && all[j] in gs;
      }
    }
  }
}
