/** Where the fields of an object lie (src/object.c:147-153, 213-238, 283-293): the fields of each class
    in the search order follow those of the classes before it. */
module ClassLayout {

  ghost function Sum(sizes: seq<nat>): nat {
    if sizes == [] then 0 else Sum(sizes[..|sizes| - 1]) + sizes[|sizes| - 1]
  }

  lemma {:induction false} SumAppend(sizes: seq<nat>, n: nat)
    ensures Sum(sizes + [n]) == Sum(sizes) + n
  {
    assert (sizes + [n])[..|sizes|] == sizes;
  }

  /** Where the fields of class i start. */
  ghost function Offset(sizes: seq<nat>, i: nat): nat
    requires i <= |sizes|
  {
    Sum(sizes[..i])
  }

  lemma {:induction false} OffsetEnds(sizes: seq<nat>)
    ensures Offset(sizes, 0) == 0 && Offset(sizes, |sizes|) == Sum(sizes)
  {
    assert sizes[..0] == [] && sizes[..|sizes|] == sizes;
  }

  lemma {:induction false} OffsetStep(sizes: seq<nat>, i: nat)
    requires i < |sizes|
    ensures Offset(sizes, i + 1) == Offset(sizes, i) + sizes[i]
  {
    assert sizes[..i + 1][..i] == sizes[..i];
  }

  lemma {:induction false} OffsetsGrow(sizes: seq<nat>, i: nat, j: nat)
    requires i <= j <= |sizes|
    ensures Offset(sizes, i) <= Offset(sizes, j)
    ensures i < j ==> Offset(sizes, i) + sizes[i] <= Offset(sizes, j)
  {
    if i < j {
      OffsetsGrow(sizes, i, j - 1);
      OffsetStep(sizes, j - 1);
    }
  }

  /** Slots are in range, and different fields have different slots. */
  lemma {:induction false} SlotsAreDistinct(sizes: seq<nat>, i: nat, o: nat, j: nat, p: nat)
    requires i < |sizes| && o < sizes[i] && j < |sizes| && p < sizes[j]
    ensures Offset(sizes, i) + o < Sum(sizes)
    ensures Offset(sizes, i) + o == Offset(sizes, j) + p <==> i == j && o == p
  {
    assert sizes[..|sizes|] == sizes;
    OffsetStep(sizes, i);
    OffsetsGrow(sizes, i + 1, |sizes|);
    if i < j {
      OffsetsGrow(sizes, i, j);
    } else if j < i {
      OffsetsGrow(sizes, j, i);
    }
  }

  /** Every slot belongs to a field of some class. */
  lemma {:induction false} SlotsAreUsed(sizes: seq<nat>, slot: nat) returns (i: nat, o: nat)
    requires slot < Sum(sizes)
    ensures i < |sizes| && o < sizes[i] && Offset(sizes, i) + o == slot
  {
    i := 0;
    assert sizes[..0] == [];
    assert sizes[..|sizes|] == sizes;
    while slot >= Offset(sizes, i) + (if i < |sizes| then sizes[i] else 0)
      invariant i <= |sizes| && Offset(sizes, i) <= slot
      decreases |sizes| - i
    {
      OffsetStep(sizes, i);
      i := i + 1;
    }
    o := slot - Offset(sizes, i);
  }

  /** The layout of a first base is kept: its sizes are a prefix. */
  lemma {:induction false} PrefixKeepsOffsets(base: seq<nat>, sizes: seq<nat>, i: nat)
    requires base <= sizes && i <= |base|
    ensures Offset(base, i) == Offset(sizes, i)
  {
    assert base[..i] == sizes[..i];
  }

  /** One more field in the last class moves nothing. */
  lemma {:induction false} LastGrows(front: seq<nat>, n: nat)
    ensures Sum(front + [n + 1]) == Sum(front + [n]) + 1
    ensures forall i :: 0 <= i <= |front| ==> Offset(front + [n + 1], i) == Offset(front + [n], i)
  {
    assert (front + [n + 1])[..|front|] == front == (front + [n])[..|front|];
    forall i | 0 <= i <= |front|
      ensures Offset(front + [n + 1], i) == Offset(front + [n], i)
    {
      assert (front + [n + 1])[..i] == (front + [n])[..i];
    }
  }
}
