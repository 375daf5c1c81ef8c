/** The ready-priority bitmap of the port: recorded priorities as bits of one word, the highest found by CLZ. */
module ReadyPriorities {

  type Priority = p: bv32 | p < 32

  predicate HasBit(b: bv32, p: bv32)
    requires p < 32
  {
    (b >> p) & 1 == 1
  }

  /** The bitmap stands for exactly this set of priorities. */
  ghost predicate Represents(b: bv32, ready: set<Priority>) {
    forall p: Priority :: HasBit(b, p) <==> p in ready
  }

  function WithBit(b: bv32, p: Priority): bv32 {
    b | (1 << p)
  }

  function WithoutBit(b: bv32, p: Priority): bv32 {
    b & !(1 << p)
  }

  /** CLZ: how often the word can be shifted left before its top bit is set; 32 for zero. */
  function CountLeadingZeros(b: bv32, limit: bv32): bv32
    requires limit <= 32
    decreases limit
  {
    if limit == 0 || b & 0x8000_0000 != 0 then 0 else 1 + CountLeadingZeros(b << 1, limit - 1)
  }

  class ReadySet {
    var bitmap: bv32
    ghost var ready: set<Priority>

    ghost predicate Valid()
      reads this
    {
      Represents(bitmap, ready)
    }

    constructor ()
      ensures Valid() && ready == {}
    {
      bitmap, ready := 0, {};
      new;
      forall p: Priority
        ensures !HasBit(0, p)
      {
        NoBits(p);
      }
    }

    /** portRECORD_READY_PRIORITY. */
    method Record(p: Priority)
      requires Valid()
      modifies this
      ensures Valid() && ready == old(ready) + {p}
    {
      hide Represents, WithBit, WithoutBit;
      RecordRepresents(bitmap, ready, p);
      bitmap := WithBit(bitmap, p);
      ready := ready + {p};
    }

    /** portRESET_READY_PRIORITY. */
    method Reset(p: Priority)
      requires Valid()
      modifies this
      ensures Valid() && ready == old(ready) - {p}
    {
      hide Represents, WithBit, WithoutBit;
      ResetRepresents(bitmap, ready, p);
      bitmap := WithoutBit(bitmap, p);
      ready := ready - {p};
    }

    /** portGET_HIGHEST_PRIORITY, which the kernel uses only when some priority is ready. */
    method Highest() returns (top: bv32)
      requires Valid() && ready != {}
      ensures top < 32 && top in ready && forall q :: q in ready ==> q <= top
    {
      hide Represents, CountLeadingZeros;
      ghost var p :| p in ready;
      HighestBit(bitmap, ready, p);
      top := 31 - CountLeadingZeros(bitmap, 32);
    }
  }

  lemma RecordRepresents(b: bv32, ready: set<Priority>, p: Priority)
    requires Represents(b, ready)
    ensures Represents(WithBit(b, p), ready + {p})
  {
    hide HasBit, WithBit, WithoutBit;
    forall q: Priority
      ensures HasBit(WithBit(b, p), q) <==> q in ready + {p}
    {
      SetBit(b, p, q);
    }
  }

  lemma ResetRepresents(b: bv32, ready: set<Priority>, p: Priority)
    requires Represents(b, ready)
    ensures Represents(WithoutBit(b, p), ready - {p})
  {
    hide HasBit, WithBit, WithoutBit;
    forall q: Priority
      ensures HasBit(WithoutBit(b, p), q) <==> q in ready - {p}
    {
      ClearBit(b, p, q);
    }
  }

  lemma HighestBit(b: bv32, ready: set<Priority>, p: Priority)
    requires Represents(b, ready) && p in ready
    ensures var top := 31 - CountLeadingZeros(b, 32);
            top < 32 && top in ready && forall q :: q in ready ==> q <= top
  {
    hide HasBit, CountLeadingZeros;
    var z := CountLeadingZeros(b, 32);
    LeadingZeros(b, 32);
    assert HasBit(b, p);
    FewerThanAll(p, z);
    forall q | q in ready
      ensures q <= 31 - z
    {
      assert HasBit(b, q);
      NotAbove(q, z);
    }
  }

  lemma FewerThanAll(p: Priority, z: bv32)
    requires z <= 32 && !(31 - p < z)
    ensures z < 32 && 31 - z < 32
  {
  }

  lemma NotAbove(q: Priority, z: bv32)
    requires z < 32 && !(31 - q < z)
    ensures q <= 31 - z
  {
  }

  /** The counted bits are clear and, if the count stopped short of the limit, the next one is set. */
  lemma {:induction false} LeadingZeros(b: bv32, limit: bv32)
    requires limit <= 32
    ensures var z := CountLeadingZeros(b, limit);
            && z <= limit
            && (z < limit ==> HasBit(b, 31 - z))
            && (forall q: Priority :: 31 - q < z ==> !HasBit(b, q))
    decreases limit
  {
    hide HasBit;
    if limit != 0 {
      TopBit(b);
      if b & 0x8000_0000 == 0 {
        LeadingZeros(b << 1, limit - 1);
        var z := CountLeadingZeros(b << 1, limit - 1);
        hide CountLeadingZeros;
        CountedOne(b, z, limit);
        forall q: Priority | 31 - q < 1 + z
          ensures !HasBit(b, q)
        {
          LowerBit(b, b << 1, q, z);
        }
      }
    }
  }

  lemma CountedOne(b: bv32, z: bv32, limit: bv32)
    requires 0 < limit <= 32 && z <= limit - 1 && (z < limit - 1 ==> HasBit(b << 1, 31 - z))
    ensures 1 + z <= limit && (1 + z < limit ==> HasBit(b, 31 - (1 + z)))
  {
    hide HasBit;
    if 1 + z < limit {
      ShiftedBit(b, 31 - z);
      assert 31 - z - 1 == 31 - (1 + z);
    }
  }

  lemma LowerBit(b: bv32, shifted: bv32, q: Priority, z: bv32)
    requires shifted == b << 1 && !HasBit(b, 31) && z <= 32 && 31 - q < 1 + z
    requires forall p: Priority :: 31 - p < z ==> !HasBit(shifted, p)
    ensures !HasBit(b, q)
  {
    hide HasBit;
    if q < 31 {
      ShiftedBit(b, q + 1);
      var p: Priority := q + 1;
      assert 31 - p < z;
    }
  }

  lemma TopBit(b: bv32)
    ensures HasBit(b, 31) <==> b & 0x8000_0000 != 0
  {
  }

  lemma ShiftedBit(b: bv32, k: bv32)
    requires 1 <= k < 32
    ensures HasBit(b << 1, k) <==> HasBit(b, k - 1)
  {
  }

  lemma NoBits(p: Priority)
    ensures !HasBit(0, p)
  {
  }

  lemma SetBit(b: bv32, p: Priority, q: Priority)
    ensures HasBit(WithBit(b, p), q) <==> q == p || HasBit(b, q)
  {
  }

  lemma ClearBit(b: bv32, p: Priority, q: Priority)
    ensures HasBit(WithoutBit(b, p), q) <==> q != p && HasBit(b, q)
  {
  }
}
