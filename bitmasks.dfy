/** A shape in the 3x3 generation window packed into a 9-bit integer:
    cell (r, c) is bit 3r+c. Shifts and bit tests follow Python's `>>` and
    `& 1` on non-negative integers. */
module Bitmasks {
  import opened Matrices

  /** b >> k. */
  function Shift(b: nat, k: nat): nat {
    if k == 0 then b else Shift(b / 2, k - 1)
  }

  /** (b >> k) & 1. */
  function Bit(b: nat, k: nat): int {
    Shift(b, k) % 2
  }

  /** 2 ** k. */
  function Pow2(k: nat): nat {
    if k == 0 then 1 else 2 * Pow2(k - 1)
  }

  /** bin(b).count('1'): the number of set bits of b. */
  function PopCount(b: nat): nat {
    if b == 0 then 0 else b % 2 + PopCount(b / 2)
  }

  /** The set positions among the n lowest bits. */
  ghost function BitSet(b: nat, n: nat): set<int> {
    set k | 0 <= k < n && Bit(b, k) == 1
  }

  /** The filled cells of the 3x3 window, each as its bit index 3r+c. */
  ghost function Cells(b: nat): set<int> {
    BitSet(b, 9)
  }

  /** The bits of b above bit 0 are the bits of b / 2. */
  lemma BitOfHalf(b: nat, k: nat)
    ensures Bit(b, k + 1) == Bit(b / 2, k)
  {
  }

  /** Shifting out all bits of a number below 2 ** n leaves 0. */
  lemma {:induction false} ShiftBelowPow2(b: nat, n: nat)
    requires b < Pow2(n)
    ensures Shift(b, n) == 0
  {
    if n > 0 {
      ShiftBelowPow2(b / 2, n - 1);
    }
  }

  /** The set bits of b are those among its n lowest bits plus those of b >> n. */
  lemma {:induction false} PopCountSplit(b: nat, n: nat)
    ensures PopCount(b) == |BitSet(b, n)| + PopCount(Shift(b, n))
  {
    if n > 0 {
      PopCountSplit(b / 2, n - 1);
      BitSetCount(b, n);
      assert PopCount(b) == b % 2 + PopCount(b / 2);
    }
  }

  /** Among the n lowest bits, bit 0 comes first and the rest are the n - 1 lowest bits of b / 2. */
  lemma BitSetCount(b: nat, n: nat)
    requires n > 0
    ensures |BitSet(b, n)| == b % 2 + |BitSet(b / 2, n - 1)|
  {
    var upper := BitSet(b / 2, n - 1);
    var raised := InjectiveImageSize(upper, (k: int) => k + 1);
    var low: set<int> := if b % 2 == 1 then {0} else {};
    forall k | k in BitSet(b, n) ensures k in low + raised {
      if k > 0 {
        BitOfHalf(b, k - 1);
        assert k - 1 in upper;
      }
    }
    forall k | k in low + raised ensures k in BitSet(b, n) {
      if k > 0 {
        BitOfHalf(b, k - 1);
      }
    }
    assert BitSet(b, n) == low + raised;
    assert low !! raised;
  }

  /** In a number below 512 the nine window bits are all its bits. */
  lemma CellCount(b: nat)
    requires b < 512
    ensures |Cells(b)| == PopCount(b)
  {
    assert Pow2(9) == 512;
    ShiftBelowPow2(b, 9);
    PopCountSplit(b, 9);
  }

  /** No bit of 0 is set. */
  lemma {:induction false} ZeroHasNoBits(k: nat)
    ensures Bit(0, k) == 0
  {
    if k > 0 {
      ZeroHasNoBits(k - 1);
    }
  }

  /** bitmask_to_2D: the 3x3 matrix whose cell (r, c) is bit 3r+c of b. */
  function Decode(b: nat): (m: Matrix)
    ensures IsSquare(m, 3)
  {
    seq(3, r requires 0 <= r < 3 => seq(3, c requires 0 <= c < 3 => Bit(b, 3 * r + c)))
  }

  /** The n lowest bits of b, least significant first. */
  function BitsOf(b: nat, n: nat): seq<int> {
    seq(n, k requires 0 <= k < n => Bit(b, k))
  }

  /** The number whose binary digits, least significant first, are bits. */
  function EncodeBits(bits: seq<int>): int {
    if bits == [] then 0 else bits[0] + 2 * EncodeBits(bits[1..])
  }

  /** The cells of a 3x3 matrix in row-major order. */
  function Flatten(m: Matrix): seq<int>
    requires IsSquare(m, 3)
  {
    m[0] + m[1] + m[2]
  }

  /** Re-encoding a 3x3 matrix: cell (r, c) becomes bit 3r+c. */
  function Encode(m: Matrix): int
    requires IsSquare(m, 3)
  {
    EncodeBits(Flatten(m))
  }

  /** Reading the n lowest bits and encoding them again gives back any number below 2 ** n. */
  lemma {:induction false} EncodeBitsOf(b: nat, n: nat)
    requires b < Pow2(n)
    ensures EncodeBits(BitsOf(b, n)) == b
  {
    if n > 0 {
      EncodeBitsOf(b / 2, n - 1);
      assert BitsOf(b, n)[1..] == BitsOf(b / 2, n - 1) by {
        forall k | 0 <= k < n - 1 ensures BitsOf(b, n)[1..][k] == BitsOf(b / 2, n - 1)[k] {
          BitOfHalf(b, k);
        }
      }
    }
  }

  /** Encoding a list of 0/1 digits and reading the bits back gives the list. */
  lemma {:induction false} BitsOfEncode(bits: seq<int>)
    requires forall k :: 0 <= k < |bits| ==> bits[k] == 0 || bits[k] == 1
    ensures EncodeBits(bits) >= 0
    ensures BitsOf(EncodeBits(bits) as nat, |bits|) == bits
  {
    if bits != [] {
      var rest := bits[1..];
      BitsOfEncode(rest);
      var e := EncodeBits(bits);
      assert e / 2 == EncodeBits(rest) && e % 2 == bits[0];
      forall k | 0 <= k < |bits| ensures Bit(e, k) == bits[k] {
        if k > 0 {
          BitOfHalf(e, k - 1);
          assert Bit(EncodeBits(rest), k - 1) == BitsOf(EncodeBits(rest), |rest|)[k - 1];
        }
      }
    }
  }

  /** The row-major flattening of the decoded matrix is the list of the nine window bits. */
  lemma FlattenDecode(b: nat)
    ensures Flatten(Decode(b)) == BitsOf(b, 9)
  {
    var m := Decode(b);
    forall k | 0 <= k < 9 ensures Flatten(m)[k] == Bit(b, k) {
      assert Flatten(m)[k] == m[k / 3][k % 3];
    }
  }

  /** Decoding a mask below 512 and encoding the matrix again gives back the mask. */
  lemma EncodeDecode(b: nat)
    requires b < 512
    ensures Encode(Decode(b)) == b
  {
    FlattenDecode(b);
    assert Pow2(9) == 512;
    EncodeBitsOf(b, 9);
  }

  /** Encoding a 3x3 0/1 matrix gives a mask below 512 that decodes to the matrix. */
  lemma DecodeEncode(m: Matrix)
    requires IsSquare(m, 3) && IsBinary(m)
    ensures 0 <= Encode(m) < 512
    ensures Decode(Encode(m) as nat) == m
  {
    var bits := Flatten(m);
    forall k | 0 <= k < 9 ensures bits[k] == m[k / 3][k % 3] {
    }
    BitsOfEncode(bits);
    var e := Encode(m) as nat;
    NineBitsBelow512(bits);
    var d := Decode(e);
    forall r, c | 0 <= r < 3 && 0 <= c < 3 ensures d[r][c] == m[r][c] {
      assert BitsOf(e, 9)[3 * r + c] == bits[3 * r + c];
    }
    assert forall r :: 0 <= r < 3 ==> d[r] == m[r];
  }

  /** Nine binary digits encode to a number below 512. */
  lemma NineBitsBelow512(bits: seq<int>)
    requires |bits| == 9 && forall k :: 0 <= k < 9 ==> bits[k] == 0 || bits[k] == 1
    ensures 0 <= EncodeBits(bits) < 512
  {
    EncodeBitsBound(bits);
    assert Pow2(9) == 512;
  }

  /** A list of n binary digits encodes to a number below 2 ** n. */
  lemma {:induction false} EncodeBitsBound(bits: seq<int>)
    requires forall k :: 0 <= k < |bits| ==> bits[k] == 0 || bits[k] == 1
    ensures 0 <= EncodeBits(bits) < Pow2(|bits|)
  {
    if bits != [] {
      EncodeBitsBound(bits[1..]);
    }
  }

  /** Decoding is injective on the masks below 512. */
  lemma DecodeInjective(b1: nat, b2: nat)
    requires b1 < 512 && b2 < 512
    ensures Decode(b1) == Decode(b2) <==> b1 == b2
  {
    if Decode(b1) == Decode(b2) {
      EncodeDecode(b1);
      EncodeDecode(b2);
    }
  }

  /** The decoded matrix holds only 0 and 1. */
  lemma DecodeIsBinary(b: nat)
    ensures IsBinary(Decode(b))
  {
    var m := Decode(b);
    forall i, j | 0 <= i < 3 && 0 <= j < 3 ensures m[i][j] == 0 || m[i][j] == 1 {
      assert m[i][j] == Bit(b, 3 * i + j);
    }
  }

  /** The filled cells of the decoded matrix are the window cells of the mask. */
  lemma DecodeFilledCount(b: nat)
    ensures FilledCount(Decode(b)) == |Cells(b)|
  {
    var m := Decode(b);
    var f := (k: int) => (k / 3, k % 3);
    var image := InjectiveImageSize(Cells(b), f);
    forall p | p in FilledCells(m) ensures p in image {
      assert 3 * p.0 + p.1 in Cells(b);
      assert f(3 * p.0 + p.1) == p;
    }
    forall p | p in image ensures p in FilledCells(m) {
      var k :| k in Cells(b) && f(k) == p;
      assert m[k / 3][k % 3] == Bit(b, k);
    }
    assert FilledCells(m) == image;
  }
}
