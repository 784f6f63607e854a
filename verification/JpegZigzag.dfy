/** The zig-zag order of a block. */
module JpegZigzag {
  import opened JpegBlock

  /** Number of the coefficient at place z (ITU-T T.81 Figure A.6). */
  function Zigzag(z: nat): (k: nat)
    requires z < 64
    ensures k < 64
  {
    if z < 8 then [0, 1, 5, 6, 14, 15, 27, 28][z]
    else if z < 16 then [2, 4, 7, 13, 16, 26, 29, 42][z - 8]
    else if z < 24 then [3, 8, 12, 17, 25, 30, 41, 43][z - 16]
    else if z < 32 then [9, 11, 18, 24, 31, 40, 44, 53][z - 24]
    else if z < 40 then [10, 19, 23, 32, 39, 45, 52, 54][z - 32]
    else if z < 48 then [20, 22, 33, 38, 46, 51, 55, 60][z - 40]
    else if z < 56 then [21, 34, 37, 47, 50, 56, 59, 61][z - 48]
    else [35, 36, 48, 49, 57, 58, 62, 63][z - 56]
  }

  lemma LowNumbers(k: nat)
    requires 0 <= k < 32
    ensures Zigzag(Dezigzag(k)) == k
  {
    if k < 8 {
      assert Dezigzag(k) == [0, 1, 8, 16, 9, 2, 3, 10][k];
    } else if k < 16 {
      assert Dezigzag(k) == [17, 24, 32, 25, 18, 11, 4, 5][k - 8];
    } else if k < 24 {
      assert Dezigzag(k) == [12, 19, 26, 33, 40, 48, 41, 34][k - 16];
    } else {
      assert Dezigzag(k) == [27, 20, 13, 6, 7, 14, 21, 28][k - 24];
    }
  }

  lemma HighNumbers(k: nat)
    requires 32 <= k < 64
    ensures Zigzag(Dezigzag(k)) == k
  {
    if k < 40 {
      assert Dezigzag(k) == [35, 42, 49, 56, 57, 50, 43, 36][k - 32];
    } else if k < 48 {
      assert Dezigzag(k) == [29, 22, 15, 23, 30, 37, 44, 51][k - 40];
    } else if k < 56 {
      assert Dezigzag(k) == [58, 59, 52, 45, 38, 31, 39, 46][k - 48];
    } else {
      assert Dezigzag(k) == [53, 60, 61, 54, 47, 55, 62, 63][k - 56];
    }
  }

  lemma UpperPlaces(z: nat)
    requires 0 <= z < 32
    ensures Dezigzag(Zigzag(z)) == z
  {
    if z < 8 {
      assert Zigzag(z) == [0, 1, 5, 6, 14, 15, 27, 28][z];
    } else if z < 16 {
      assert Zigzag(z) == [2, 4, 7, 13, 16, 26, 29, 42][z - 8];
    } else if z < 24 {
      assert Zigzag(z) == [3, 8, 12, 17, 25, 30, 41, 43][z - 16];
    } else {
      assert Zigzag(z) == [9, 11, 18, 24, 31, 40, 44, 53][z - 24];
    }
  }

  lemma LowerPlaces(z: nat)
    requires 32 <= z < 64
    ensures Dezigzag(Zigzag(z)) == z
  {
    if z < 40 {
      assert Zigzag(z) == [10, 19, 23, 32, 39, 45, 52, 54][z - 32];
    } else if z < 48 {
      assert Zigzag(z) == [20, 22, 33, 38, 46, 51, 55, 60][z - 40];
    } else if z < 56 {
      assert Zigzag(z) == [21, 34, 37, 47, 50, 56, 59, 61][z - 48];
    } else {
      assert Zigzag(z) == [35, 36, 48, 49, 57, 58, 62, 63][z - 56];
    }
  }

  /** The decoder's table is the order of the standard, backwards. */
  lemma NumberOfPlace(k: nat)
    requires k < 64
    ensures Zigzag(Dezigzag(k)) == k
  {
    if k < 32 { LowNumbers(k); } else { HighNumbers(k); }
  }

  lemma PlaceOfNumber(z: nat)
    requires z < 64
    ensures Dezigzag(Zigzag(z)) == z
  {
    if z < 32 { UpperPlaces(z); } else { LowerPlaces(z); }
  }
}
