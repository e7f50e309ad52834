/** 256-bit identifiers and the depth measure of the Kademlia table
    (flarch/src/nodeids.rs, KNode::get_depth in dht_router/kademlia.rs). */
module NodeIds {
  import opened Prelude

  type Id = s: seq<bv8> | |s| == 32 witness seq(32, _ => 0)

  /** The mask of bit i of a byte, bit 0 being the most significant one. */
  function Mask(i: nat): bv8
    requires i < 8
  {
    [0x80, 0x40, 0x20, 0x10, 0x08, 0x04, 0x02, 0x01][i]
  }

  predicate Bit(b: bv8, i: nat)
    requires i < 8
  {
    b & Mask(i) != 0
  }

  predicate IdBit(a: Id, i: nat)
    requires i < 256
  {
    Bit(a[i / 8], i % 8)
  }

  /** First position at or after i where two ids differ, capped at 255. */
  function FirstDifference(a: Id, b: Id, i: nat): (d: nat)
    requires i <= 255
    ensures i <= d <= 255
    ensures forall j :: i <= j < d ==> IdBit(a, j) == IdBit(b, j)
    ensures d < 255 ==> IdBit(a, d) != IdBit(b, d)
    decreases 255 - i
  {
    if i == 255 || IdBit(a, i) != IdBit(b, i) then i else FirstDifference(a, b, i + 1)
  }

  /** Length of the common prefix, where the last bit never counts. */
  function Depth(a: Id, b: Id): nat { FirstDifference(a, b, 0) }

  /** Two ids which differ in nothing but the last bit. */
  predicate Siblings(a: Id, b: Id) { a != b && Depth(a, b) == 255 }

  lemma XorBit(a: bv8, b: bv8, i: nat)
    requires i < 8
    ensures ((a ^ b) & Mask(i) != 0) <==> (Bit(a, i) != Bit(b, i))
  {
    assert i == 0 || i == 1 || i == 2 || i == 3 || i == 4 || i == 5 || i == 6 || i == 7;
  }

  lemma EqualBits(a: bv8, b: bv8)
    requires forall i: nat :: i < 8 ==> Bit(a, i) == Bit(b, i)
    ensures a == b
  {
    assert Bit(a, 0) == Bit(b, 0) && Bit(a, 1) == Bit(b, 1);
    assert Bit(a, 2) == Bit(b, 2) && Bit(a, 3) == Bit(b, 3);
    assert Bit(a, 4) == Bit(b, 4) && Bit(a, 5) == Bit(b, 5);
    assert Bit(a, 6) == Bit(b, 6) && Bit(a, 7) == Bit(b, 7);
  }

  /** Ids are determined by their bits. */
  lemma EqualIds(a: Id, b: Id)
    requires forall i: nat :: i < 256 ==> IdBit(a, i) == IdBit(b, i)
    ensures a == b
  {
    forall j | 0 <= j < 32 ensures a[j] == b[j] {
      forall i: nat | i < 8 ensures Bit(a[j], i) == Bit(b[j], i) {
        assert IdBit(a, 8 * j + i) == IdBit(b, 8 * j + i);
      }
      EqualBits(a[j], b[j]);
    }
  }

  lemma DifferAt(a: Id, b: Id, index: nat, i: nat)
    requires index < 32 && i < 8
    ensures ((a[index] ^ b[index]) & Mask(i) != 0)
      <==> (IdBit(a, 8 * index + i) != IdBit(b, 8 * index + i))
  {
    XorBit(a[index], b[index], i);
    assert (8 * index + i) / 8 == index && (8 * index + i) % 8 == i;
  }

  lemma DepthIs(a: Id, b: Id, d: nat)
    requires d < 256 && IdBit(a, d) != IdBit(b, d)
    requires forall j: nat :: j < d ==> IdBit(a, j) == IdBit(b, j)
    ensures Depth(a, b) == d
  {
  }

  /** The byte-wise scan of the source computes the bit-wise depth. */
  method GetDepth(root: Id, id: Id) returns (d: nat)
    ensures d == Depth(root, id)
  {
    var index := 0;
    while index < 32
      invariant 0 <= index <= 32
      invariant forall j: nat :: j < 8 * index ==> IdBit(root, j) == IdBit(id, j)
    {
      var x := root[index] ^ id[index];
      var i := 0;
      while i < 8
        invariant 0 <= i <= 8
        invariant forall j: nat :: j < 8 * index + i ==> IdBit(root, j) == IdBit(id, j)
      {
        DifferAt(root, id, index, i);
        if x & Mask(i) != 0 {
          DepthIs(root, id, 8 * index + i);
          return 8 * index + i;
        }
        i := i + 1;
      }
      index := index + 1;
    }
    return 255;
  }

  lemma CommonPrefix(a: Id, b: Id, n: nat)
    requires n <= 255
    requires forall j :: 0 <= j < n ==> IdBit(a, j) == IdBit(b, j)
    ensures Depth(a, b) >= n
  {
  }

  lemma DepthSymmetric(a: Id, b: Id)
    ensures Depth(a, b) == Depth(b, a)
  {
    CommonPrefix(b, a, Depth(a, b));
    CommonPrefix(a, b, Depth(b, a));
  }

  lemma DepthSelf(a: Id)
    ensures Depth(a, a) == 255
  {
  }

  /** The ultrametric law: two sides of a triangle bound the third from below. */
  lemma Ultrametric(a: Id, b: Id, c: Id)
    ensures Depth(a, c) >= Min(Depth(a, b), Depth(b, c))
  {
    CommonPrefix(a, c, Min(Depth(a, b), Depth(b, c)));
  }

  /** Every triangle is isosceles: the shallow side is shared. */
  lemma Isosceles(a: Id, b: Id, c: Id)
    requires Depth(a, b) < Depth(b, c)
    ensures Depth(a, c) == Depth(a, b)
  {
    Ultrametric(a, b, c);
    Ultrametric(a, c, b);
    DepthSymmetric(b, c);
  }

  /** Bits are binary: two ids leaving c at the same position agree there. */
  lemma SameDepthIsCloser(c: Id, a: Id, b: Id)
    requires Depth(c, a) == Depth(c, b) < 255
    ensures Depth(a, b) > Depth(c, a)
  {
    forall j | 0 <= j < Depth(c, a) + 1 ensures IdBit(a, j) == IdBit(b, j) {
      assert j < Depth(c, a) ==> IdBit(c, j) == IdBit(a, j) && IdBit(c, j) == IdBit(b, j);
    }
    CommonPrefix(a, b, Depth(c, a) + 1);
  }

  /** An id has at most one sibling. */
  lemma OneSibling(a: Id, b: Id, c: Id)
    requires Siblings(a, b) && Siblings(a, c)
    ensures b == c
  {
    if IdBit(a, 255) == IdBit(b, 255) { EqualIds(a, b); }
    if IdBit(a, 255) == IdBit(c, 255) { EqualIds(a, c); }
    forall i: nat | i < 256 ensures IdBit(b, i) == IdBit(c, i) {
      if i < 255 { assert IdBit(a, i) == IdBit(b, i) && IdBit(a, i) == IdBit(c, i); }
    }
    EqualIds(b, c);
  }
}
