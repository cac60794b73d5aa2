/**
 * Single-byte bit-flag sets, as the `bitflags` registers of the Hubris
 * drivers use them: a byte built as the union of the masks whose condition
 * holds, and the proof that testing each mask of a disjoint family recovers
 * exactly those conditions.
 */
module BitFlags {
  /** Non-zero masks, pairwise disjoint. */
  predicate DisjointMasks(ms: seq<bv8>)
  {
    (forall k :: 0 <= k < |ms| ==> ms[k] != 0) &&
    (forall j, k :: 0 <= j < |ms| && 0 <= k < |ms| && j != k ==> ms[j] & ms[k] == 0)
  }

  /** A mask when its condition holds, nothing otherwise. */
  function Pick(cond: bool, mask: bv8): bv8
  {
    if cond then mask else 0
  }

  /** The union of the masks whose condition holds. */
  function UnionOf(ms: seq<bv8>, cs: seq<bool>): bv8
    requires |ms| == |cs|
  {
    if |ms| == 0 then 0 else Pick(cs[0], ms[0]) | UnionOf(ms[1..], cs[1..])
  }

  /** A mask disjoint from every mask of a union has no bit in it. */
  lemma {:induction false} UnionMissing(ms: seq<bv8>, cs: seq<bool>, a: bv8)
    requires |ms| == |cs|
    requires forall k :: 0 <= k < |ms| ==> ms[k] & a == 0
    ensures UnionOf(ms, cs) & a == 0
  {
    if |ms| > 0 {
      UnionMissing(ms[1..], cs[1..], a);
      var p, r := Pick(cs[0], ms[0]), UnionOf(ms[1..], cs[1..]);
      assert p & a == 0 && r & a == 0;
      assert (p | r) & a == 0;
    }
  }

  /** The first of a set of disjoint masks is in their union exactly when its condition holds. */
  lemma UnionHasFirst(ms: seq<bv8>, cs: seq<bool>)
    requires |ms| == |cs| && DisjointMasks(ms) && 0 < |ms|
    ensures UnionOf(ms, cs) & ms[0] != 0 <==> cs[0]
  {
    assert forall j :: 0 <= j < |ms[1..]| ==> ms[1..][j] & ms[0] == 0 by {
      forall j | 0 <= j < |ms[1..]|
        ensures ms[1..][j] & ms[0] == 0
      {
        assert ms[1..][j] == ms[j + 1];
      }
    }
    UnionMissing(ms[1..], cs[1..], ms[0]);
  }

  /** A later mask sees nothing of the first mask's contribution. */
  lemma UnionSkipFirst(ms: seq<bv8>, cs: seq<bool>, k: nat)
    requires |ms| == |cs| && DisjointMasks(ms) && 0 < k < |ms|
    ensures UnionOf(ms, cs) & ms[k] == UnionOf(ms[1..], cs[1..]) & ms[k]
  {
    var p, r, m := Pick(cs[0], ms[0]), UnionOf(ms[1..], cs[1..]), ms[k];
    assert ms[0] & m == 0;
    assert p & m == 0;
    assert (p | r) & m == r & m;
  }

  /** Each of a set of disjoint masks is in their union exactly when its condition holds. */
  lemma {:induction false} UnionHas(ms: seq<bv8>, cs: seq<bool>, k: nat)
    requires |ms| == |cs| && DisjointMasks(ms) && k < |ms|
    ensures UnionOf(ms, cs) & ms[k] != 0 <==> cs[k]
  {
    if k == 0 {
      UnionHasFirst(ms, cs);
    } else {
      assert DisjointMasks(ms[1..]) by {
        forall j | 0 <= j < |ms[1..]|
          ensures ms[1..][j] == ms[j + 1]
        {
        }
      }
      UnionHas(ms[1..], cs[1..], k - 1);
      assert ms[1..][k - 1] == ms[k] && cs[1..][k - 1] == cs[k];
      UnionSkipFirst(ms, cs, k);
    }
  }

  /** Each mask's test on a byte, in mask order. */
  function Decode(b: bv8, ms: seq<bv8>): (cs: seq<bool>)
    ensures |cs| == |ms|
    ensures forall k :: 0 <= k < |ms| ==> cs[k] == (b & ms[k] != 0)
  {
    if |ms| == 0 then [] else [b & ms[0] != 0] + Decode(b, ms[1..])
  }

  /** Decoding the union of a disjoint family gives back the chosen conditions. */
  lemma DecodeUnion(ms: seq<bv8>, cs: seq<bool>)
    requires |ms| == |cs| && DisjointMasks(ms)
    ensures Decode(UnionOf(ms, cs), ms) == cs
  {
    forall k | 0 <= k < |ms|
      ensures Decode(UnionOf(ms, cs), ms)[k] == cs[k]
    {
      UnionHas(ms, cs, k);
    }
  }
}
