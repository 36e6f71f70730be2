/** Bit lengths, and big-endian digits in bases 128 and 256. */
module Bits {
  import opened Common

  function Pow2(k: nat): (p: nat)
    ensures p >= 1
  {
    if k == 0 then 1 else 2 * Pow2(k - 1)
  }

  /** Python's int.bit_length() of a non-negative integer. */
  function BitLength(n: nat): nat {
    if n == 0 then 0 else 1 + BitLength(n / 2)
  }

  /** Python's int.bit_length(): that of the absolute value. */
  function BitLengthOf(v: int): nat {
    BitLength(if v < 0 then -v else v)
  }

  lemma {:induction false} Pow2Monotone(a: nat, b: nat)
    requires a <= b
    ensures Pow2(a) <= Pow2(b)
    decreases b
  {
    if a < b {
      Pow2Monotone(a, b - 1);
    }
  }

  lemma Pow2Step8(k: nat)
    ensures Pow2(k + 8) == 256 * Pow2(k)
  {
    assert Pow2(k + 2) == 4 * Pow2(k);
    assert Pow2(k + 4) == 4 * Pow2(k + 2);
    assert Pow2(k + 6) == 4 * Pow2(k + 4);
    assert Pow2(k + 8) == 4 * Pow2(k + 6);
  }

  lemma Pow2Values()
    ensures Pow2(7) == 128 && Pow2(8) == 256 && Pow2(16) == 0x1_0000 && Pow2(32) == 0x1_0000_0000
  {
    Pow2Step24(8);
  }

  lemma Pow2Of64()
    ensures Pow2(64) == 0x1_0000_0000_0000_0000
  {
    Pow2Values();
    Pow2Step24(32);
    Pow2Step8(56);
  }

  lemma Pow2Step24(k: nat)
    ensures Pow2(k + 8) == 0x100 * Pow2(k)
    ensures Pow2(k + 16) == 0x1_0000 * Pow2(k)
    ensures Pow2(k + 24) == 0x100_0000 * Pow2(k)
  {
    Pow2Step8(k);
    Pow2Step8(k + 8);
    Pow2Step8(k + 16);
  }

  /** The bit length of n is the least k with n < 2^k. */
  lemma {:induction false} BitLengthIsLeast(n: nat, k: nat)
    ensures BitLength(n) <= k <==> n < Pow2(k)
    decreases k
  {
    if k > 0 && n > 0 {
      BitLengthIsLeast(n / 2, k - 1);
    }
  }

  // ------------------------------------------------------------ positional digits

  /** n in base 128, most significant digit first, without leading zeros. */
  function Septets(n: nat): (ds: seq<nat>)
    ensures forall i :: 0 <= i < |ds| ==> ds[i] < 128
    ensures n > 0 ==> |ds| > 0 && ds[0] > 0
  {
    if n == 0 then [] else Septets(n / 128) + [n % 128]
  }

  /** The number a big-endian digit sequence denotes. */
  function Number(ds: seq<nat>, base: nat): nat {
    if ds == [] then 0 else Number(ds[..|ds| - 1], base) * base + ds[|ds| - 1]
  }

  /** Python's n.to_bytes(k, "big"). */
  function ToBytes(n: nat, k: nat): (b: Bytes)
    requires n < Pow2(8 * k)
    ensures |b| == k
    decreases k
  {
    if k == 0 then [] else
    Pow2Step8(8 * (k - 1));
    ToBytes(n / 256, k - 1) + [n % 256]
  }

  lemma {:induction false} SeptetsDenote(n: nat)
    ensures Number(Septets(n), 128) == n
  {
    if n > 0 {
      SeptetsDenote(n / 128);
      var front := Septets(n / 128);
      assert (front + [n % 128])[..|front|] == front;
    }
  }

  lemma {:induction false} BytesDenote(n: nat, k: nat)
    requires n < Pow2(8 * k)
    ensures Number(ToBytes(n, k), 256) == n
    decreases k
  {
    if k > 0 {
      Pow2Step8(8 * (k - 1));
      BytesDenote(n / 256, k - 1);
      var front := ToBytes(n / 256, k - 1);
      assert (front + [n % 256])[..|front|] == front;
    }
  }

  /** The formula (bit_length + 6) // 7 counts base-128 digits. */
  lemma {:induction false} SeptetCount(n: nat)
    ensures |Septets(n)| == (BitLength(n) + 6) / 7
  {
    if n >= 128 {
      SeptetCount(n / 128);
      BitLengthShift7(n);
    } else if n > 0 {
      BitLengthIsLeast(n, 7);
      assert Pow2(7) == 128;
      assert Septets(n / 128) == [];
    }
  }

  lemma BitLengthShift7(n: nat)
    requires n >= 128
    ensures BitLength(n) == 7 + BitLength(n / 128)
  {
    var a := n / 2; var b := a / 2; var c := b / 2; var d := c / 2; var e := d / 2; var f := e / 2;
    assert BitLength(n) == 1 + BitLength(a) && BitLength(a) == 1 + BitLength(b);
    assert BitLength(b) == 1 + BitLength(c) && BitLength(c) == 1 + BitLength(d);
    assert BitLength(d) == 1 + BitLength(e) && BitLength(e) == 1 + BitLength(f);
    assert f / 2 == n / 128;
  }

  /** The top bit of k big-endian bytes says whether the number reaches half of their range. */
  lemma {:induction false} TopBit(n: nat, k: nat)
    requires k >= 1 && n < Pow2(8 * k)
    ensures ToBytes(n, k)[0] >= 128 <==> n >= Pow2(8 * k - 1)
    decreases k
  {
    if k == 1 {
      assert ToBytes(n / 256, 0) == [];
      assert Pow2(7) == 128;
    } else {
      Pow2Step8(8 * (k - 1));
      TopBit(n / 256, k - 1);
      var j: nat := 8 * k - 9;
      Pow2Step8(j);
      assert n / 256 >= Pow2(j) <==> n >= 256 * Pow2(j);
    }
  }
}
