/** LLPool<char>: a bump allocator that hands out regions of fixed-size
    buckets and frees them only all at once. */
module LLPool {
  import opened StdLib

  /** Bucket::sBucketSize. */
  const BUCKET_SIZE: nat := 4096 * 16

  /** A pointer into the pool: which bucket, and the offset in it. */
  datatype Ptr = Ptr(bucket: nat, offset: nat)

  /** A region handed out by Add: `len` chars of bucket `bucket` from `start`. */
  datatype Region = Region(bucket: nat, start: nat, len: nat)

  predicate Disjoint(a: Region, b: Region)
  {
    a.bucket != b.bucket || a.start + a.len <= b.start || b.start + b.len <= a.start
  }

  class Pool {
    /** m_buckets, each Bucket's char array. */
    var buckets: seq<array<char>>
    /** Each Bucket's nextPtr, as an offset from its topPtr. */
    var nexts: seq<nat>
    /** Every region handed out since the last Clear, in order. */
    ghost var regions: seq<Region>
    /** What each region held when Add returned it. */
    ghost var stored: seq<seq<char>>

    ghost predicate Valid()
      reads this, buckets
    {
      Shaped() && Placed() && Apart() && Kept()
    }

    /** Every bucket is a distinct array of BUCKET_SIZE chars whose nextPtr
        lies strictly before its endPtr. */
    ghost predicate Shaped()
      reads this, buckets
    {
      |nexts| == |buckets| &&
      (forall i :: 0 <= i < |buckets| ==> buckets[i].Length == BUCKET_SIZE && nexts[i] < BUCKET_SIZE) &&
      (forall i, j :: 0 <= i < j < |buckets| ==> buckets[i] != buckets[j])
    }

    /** Every region lies in the used part of its bucket. */
    ghost predicate Placed()
      reads this
    {
      |nexts| == |buckets| &&
      forall i :: 0 <= i < |regions| ==>
        regions[i].bucket < |buckets| && regions[i].start + regions[i].len <= nexts[regions[i].bucket]
    }

    ghost predicate Apart()
      reads this
    {
      forall i, j :: 0 <= i < j < |regions| ==> Disjoint(regions[i], regions[j])
    }

    /** Every region still holds what it held when it was handed out. */
    ghost predicate Kept()
      reads this, buckets
    {
      |stored| == |regions| && forall i :: 0 <= i < |regions| ==> Holds(regions[i], stored[i])
    }

    /** The chars of region `r` are `data`. */
    ghost predicate Holds(r: Region, data: seq<char>)
      reads this, buckets
    {
      |data| == r.len && r.bucket < |buckets| && r.start + r.len <= buckets[r.bucket].Length &&
      buckets[r.bucket][r.start..r.start + r.len] == data
    }

    constructor ()
      ensures Valid() && buckets == [] && regions == []
    {
      buckets := [];
      nexts := [];
      regions := [];
      stored := [];
    }

    /** Gives every bucket back; nothing handed out before stays valid. */
    method Clear()
      modifies this
      ensures Valid() && buckets == [] && nexts == [] && regions == [] && stored == []
    {
      buckets := [];
      nexts := [];
      regions := [];
      stored := [];
    }

    /** Reserves `len` chars, copies `obj` into them when it is given, and
        returns where they are. A new bucket is opened when the reservation
        would reach the end of the current one. */
    method Add(obj: Option<seq<char>>, len: nat) returns (p: Ptr)
      requires Valid() && len < BUCKET_SIZE
      requires obj.Some? ==> |obj.value| == len
      modifies this, if buckets == [] then {} else {buckets[|buckets| - 1]}
      ensures Valid()
      ensures |buckets| == |old(buckets)| +
        (if old(buckets) == [] || old(nexts[|nexts| - 1]) + len >= BUCKET_SIZE then 1 else 0)
      ensures buckets[..|old(buckets)|] == old(buckets)
      ensures old(nexts) != [] ==> nexts[..|old(nexts)| - 1] == old(nexts[..|nexts| - 1])
      ensures |buckets| > |old(buckets)| ==> nexts[..|old(nexts)|] == old(nexts)
      ensures p.bucket == |buckets| - 1 && p.offset + len == nexts[p.bucket] < BUCKET_SIZE
      ensures p.bucket == |old(buckets)| - 1 ==> p.offset == old(nexts[|nexts| - 1])
      ensures p.bucket != |old(buckets)| - 1 ==> p.offset == 0
      ensures regions == old(regions) + [Region(p.bucket, p.offset, len)]
      ensures forall i :: 0 <= i < |old(regions)| ==> Disjoint(regions[i], regions[|old(regions)|])
      ensures stored[..|old(stored)|] == old(stored)
      ensures obj.Some? ==> stored[|old(stored)|] == obj.value
    {
      MakeRoom(len);
      p := Reserve(obj, len);
    }

    /** The first half of Add: makes sure there is a last bucket with room
        for `len` more chars, pushing a new one when needed. */
    method MakeRoom(len: nat)
      requires Valid() && len < BUCKET_SIZE
      modifies this
      ensures Valid() && regions == old(regions) && stored == old(stored)
      ensures |buckets| == |old(buckets)| +
        (if old(buckets) == [] || old(nexts[|nexts| - 1]) + len >= BUCKET_SIZE then 1 else 0)
      ensures buckets[..|old(buckets)|] == old(buckets) && nexts[..|old(nexts)|] == old(nexts)
      ensures |buckets| > |old(buckets)| ==> nexts[|nexts| - 1] == 0 && fresh(buckets[|buckets| - 1])
      ensures nexts[|nexts| - 1] + len < BUCKET_SIZE
    {
      if |buckets| == 0 {
        var b := new char[BUCKET_SIZE];
        buckets := buckets + [b];
        nexts := nexts + [0];
      }
      if nexts[|buckets| - 1] + len >= BUCKET_SIZE {
        var b := new char[BUCKET_SIZE];
        buckets := buckets + [b];
        nexts := nexts + [0];
      }
      assert Placed() by {
        forall i | 0 <= i < |regions|
          ensures regions[i].bucket < |buckets| && regions[i].start + regions[i].len <= nexts[regions[i].bucket]
        {
          assert old(regions[i].start + regions[i].len <= nexts[regions[i].bucket]);
        }
      }
      assert Kept() by {
        forall i | 0 <= i < |regions|
          ensures Holds(regions[i], stored[i])
        {
          assert old(Holds(regions[i], stored[i]));
          assert buckets[regions[i].bucket] == old(buckets[regions[i].bucket]);
        }
      }
    }

    /** The second half of Add: copies `obj` (when given) to the free
        part of the last bucket, then takes `len` chars from it. */
    method Reserve(obj: Option<seq<char>>, len: nat) returns (p: Ptr)
      requires Valid() && buckets != [] && nexts[|nexts| - 1] + len < BUCKET_SIZE
      requires obj.Some? ==> |obj.value| == len
      modifies this, buckets[|buckets| - 1]
      ensures Valid() && buckets == old(buckets)
      ensures p == Ptr(|buckets| - 1, old(nexts[|nexts| - 1]))
      ensures nexts == old(nexts[|nexts| - 1 := nexts[|nexts| - 1] + len])
      ensures regions == old(regions) + [Region(p.bucket, p.offset, len)]
      ensures forall i :: 0 <= i < |old(regions)| ==> Disjoint(regions[i], regions[|old(regions)|])
      ensures stored[..|old(stored)|] == old(stored)
      ensures obj.Some? ==> stored[|old(stored)|] == obj.value
    {
      if obj.Some? {
        Copy(obj.value);
      }
      p := Take(len);
    }

    /** memcpy into the free part of the last bucket; every region keeps
        its contents because none reaches past nextPtr. */
    method Copy(data: seq<char>)
      requires Valid() && buckets != [] && nexts[|nexts| - 1] + |data| < BUCKET_SIZE
      modifies buckets[|buckets| - 1]
      ensures Valid()
      ensures buckets[|buckets| - 1][nexts[|nexts| - 1]..nexts[|nexts| - 1] + |data|] == data
    {
      var bucket := buckets[|buckets| - 1];
      var off := nexts[|buckets| - 1];
      ghost var before := bucket[..];
      forall k | 0 <= k < |data| {
        bucket[off + k] := data[k];
      }
      assert bucket[off..off + |data|] == data;
      assert forall k :: 0 <= k < off ==> bucket[k] == before[k];
      assert Kept() by {
        forall i | 0 <= i < |regions|
          ensures Holds(regions[i], stored[i])
        {
          assert old(Holds(regions[i], stored[i]));
          if regions[i].bucket == |buckets| - 1 {
            KeptBelow(before, bucket[..], off, regions[i].start, regions[i].len);
          } else {
            assert buckets[regions[i].bucket] != bucket;
          }
        }
      }
    }

    /** Advances the last bucket's nextPtr by `len` and records the region
        passed over. */
    method Take(len: nat) returns (p: Ptr)
      requires Valid() && buckets != [] && nexts[|nexts| - 1] + len < BUCKET_SIZE
      modifies this
      ensures Valid() && buckets == old(buckets)
      ensures p == Ptr(|buckets| - 1, old(nexts[|nexts| - 1]))
      ensures nexts == old(nexts[|nexts| - 1 := nexts[|nexts| - 1] + len])
      ensures regions == old(regions) + [Region(p.bucket, p.offset, len)]
      ensures forall i :: 0 <= i < |old(regions)| ==> Disjoint(regions[i], regions[|old(regions)|])
      ensures stored == old(stored) + [buckets[p.bucket][p.offset..p.offset + len]]
    {
      var last := |buckets| - 1;
      var off := nexts[last];
      p := Ptr(last, off);
      nexts := nexts[last := off + len];
      regions := regions + [Region(last, off, len)];
      stored := stored + [buckets[last][off..off + len]];
      assert Placed() by {
        forall i | 0 <= i < |regions|
          ensures regions[i].bucket < |buckets| && regions[i].start + regions[i].len <= nexts[regions[i].bucket]
        {
          if i < |regions| - 1 {
            assert old(regions[i].start + regions[i].len <= nexts[regions[i].bucket]);
          }
        }
      }
      assert Kept() by {
        forall i | 0 <= i < |regions|
          ensures Holds(regions[i], stored[i])
        {
          if i < |regions| - 1 {
            assert old(Holds(regions[i], stored[i]));
          }
        }
      }
    }
  }

  /** Writes at or after `off` leave a region that ends by `off` as it was. */
  lemma KeptBelow(before: seq<char>, after: seq<char>, off: nat, start: nat, len: nat)
    requires |before| == |after| && start + len <= off <= |before|
    requires forall k :: 0 <= k < off ==> after[k] == before[k]
    ensures after[start..start + len] == before[start..start + len]
  {
  }
}
