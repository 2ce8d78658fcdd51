/** Bit fields of a frame: composing sampled bits least significant first,
    decomposing a value back into bits, and the even parity of a data word. */
module Fields {
  import opened Values

  function Pow2(n: nat): (r: nat)
    ensures r >= 1
  {
    if n == 0 then 1 else 2 * Pow2(n - 1)
  }

  /** Every bit of the group is `'0'` or `'1'`. */
  predicate AllBits(bits: seq<Value>)
  {
    forall i :: 0 <= i < |bits| ==> IsBit(bits[i])
  }

  /** The number whose binary digits, least significant first, are `bits`,
      reading every bit other than `One` as a zero digit. */
  function BitsValue(bits: seq<Value>): (v: nat)
    ensures v < Pow2(|bits|)
  {
    if bits == [] then 0
    else (if bits[0] == One then 1 else 0) + 2 * BitsValue(bits[1..])
  }

  /** The `n` low binary digits of `v`, least significant first. */
  function ToBits(v: nat, n: nat): (bits: seq<Value>)
    ensures |bits| == n && AllBits(bits)
  {
    if n == 0 then [] else [if v % 2 == 1 then One else Zero] + ToBits(v / 2, n - 1)
  }

  /** How many bits of the group are `One`. */
  function CountOnes(bits: seq<Value>): nat
  {
    if bits == [] then 0 else (if bits[0] == One then 1 else 0) + CountOnes(bits[1..])
  }

  lemma HalfOf(d: nat, r: nat)
    requires d < 2
    ensures (d + 2 * r) % 2 == d && (d + 2 * r) / 2 == r
  {
  }

  /** Composing defined bits and decomposing the value gives the bits back. */
  lemma {:induction false} ToBitsOfBitsValue(bits: seq<Value>)
    requires AllBits(bits)
    ensures ToBits(BitsValue(bits), |bits|) == bits
  {
    if bits != [] {
      ToBitsOfBitsValue(bits[1..]);
      HalfOf(if bits[0] == One then 1 else 0, BitsValue(bits[1..]));
      assert bits == [bits[0]] + bits[1..];
    }
  }

  /** Decomposing a value that fits in `n` bits and composing again gives the value back. */
  lemma {:induction false} BitsValueOfToBits(v: nat, n: nat)
    requires v < Pow2(n)
    ensures BitsValue(ToBits(v, n)) == v
  {
    if n > 0 {
      BitsValueOfToBits(v / 2, n - 1);
      var bits := ToBits(v, n);
      assert bits[1..] == ToBits(v / 2, n - 1);
    }
  }

  lemma {:induction false} BitsValueSnoc(bits: seq<Value>, b: Value)
    ensures BitsValue(bits + [b]) == BitsValue(bits) + (if b == One then Pow2(|bits|) else 0)
  {
    if bits != [] {
      BitsValueSnoc(bits[1..], b);
      assert (bits + [b])[1..] == bits[1..] + [b];
    } else {
      assert (bits + [b])[1..] == [];
    }
  }

  /** The value `bits_lsb_first_to_int` returns, and whether it is defined:
      defined exactly for a non-empty group of defined bits, and then the
      group is the value's binary form, least significant bit first. */
  function LsbFirstToInt(bits: seq<Value>): (r: (int, bool))
    ensures r.1 <==> |bits| > 0 && AllBits(bits)
    ensures !r.1 ==> r.0 == 0
    ensures r.1 ==> 0 <= r.0 < Pow2(|bits|) && ToBits(r.0, |bits|) == bits
  {
    if bits == [] || !AllBits(bits) then (0, false)
    else
      ToBitsOfBitsValue(bits);
      (BitsValue(bits), true)
  }

  /** `bits_lsb_first_to_int`: rejects an empty group or one with an `X`/`Z`
      bit, otherwise sets bit `i` of the result for every `One` at position
      `i`. Because the value is below `2^i` when bit `i` is set, the source's
      `v |= 1 << i` is the addition of `2^i`. */
  method BitsLsbFirstToInt(bits: seq<Value>) returns (v: int, ok: bool)
    ensures (v, ok) == LsbFirstToInt(bits)
  {
    if bits == [] || !AllBits(bits) {
      return 0, false;
    }
    v := 0;
    var i := 0;
    while i < |bits|
      invariant 0 <= i <= |bits|
      invariant v == BitsValue(bits[..i])
    {
      BitsValueSnoc(bits[..i], bits[i]);
      assert bits[..i + 1] == bits[..i] + [bits[i]];
      if bits[i] == One {
        v := v + Pow2(i);
      }
      i := i + 1;
    }
    assert bits[..|bits|] == bits;
    ok := true;
  }

  /** The number of one digits in the binary form of `n`. */
  function PopCount(n: nat): nat
  {
    if n == 0 then 0 else n % 2 + PopCount(n / 2)
  }

  /** `parity_even_32`: the parity of the number of ones in the low 32 bits of
      `v` (Python's `v & 0xFFFFFFFF` is the Euclidean remainder, for negative
      `v` too). */
  function ParityEven32(v: int): (p: int)
    ensures p == 0 || p == 1
  {
    PopCount(v % 0x1_0000_0000) % 2
  }

  lemma PopCountStep(d: nat, r: nat)
    requires d < 2
    ensures PopCount(d + 2 * r) == d + PopCount(r)
  {
    HalfOf(d, r);
  }

  lemma {:induction false} PopCountOfBits(bits: seq<Value>)
    requires AllBits(bits)
    ensures PopCount(BitsValue(bits)) == CountOnes(bits)
  {
    if bits != [] {
      PopCountOfBits(bits[1..]);
      PopCountStep(if bits[0] == One then 1 else 0, BitsValue(bits[1..]));
    }
  }

  lemma {:induction false} CountOnesSnoc(bits: seq<Value>, b: Value)
    ensures CountOnes(bits + [b]) == CountOnes(bits) + (if b == One then 1 else 0)
  {
    if bits != [] {
      CountOnesSnoc(bits[1..], b);
      assert (bits + [b])[1..] == bits[1..] + [b];
    } else {
      assert (bits + [b])[1..] == [];
    }
  }

  lemma Pow2_32()
    ensures Pow2(32) == 0x1_0000_0000
  {
    assert Pow2(8) == 0x100;
    assert Pow2(16) == 0x1_0000;
    assert Pow2(24) == 0x100_0000;
  }

  /** The parity of a 32-bit data word is the parity of the number of ones
      among its 32 bits. */
  lemma ParityOfBits(bits: seq<Value>)
    requires |bits| == 32 && AllBits(bits)
    ensures ParityEven32(BitsValue(bits)) == CountOnes(bits) % 2
  {
    var v := BitsValue(bits);
    Pow2_32();
    assert 0 <= v < 0x1_0000_0000;
    assert v % 0x1_0000_0000 == v;
    PopCountOfBits(bits);
  }

  lemma EvenAfterParityBit(bits: seq<Value>, p: Value)
    requires p == if CountOnes(bits) % 2 == 1 then One else Zero
    ensures CountOnes(bits + [p]) % 2 == 0
  {
    CountOnesSnoc(bits, p);
  }

  /** Appending the parity bit to a 32-bit data word makes the count of ones
      even (section B4.2 of the ARM Debug Interface Architecture
      Specification ADIv5.2). */
  lemma ParityBitEvens(bits: seq<Value>)
    requires |bits| == 32 && AllBits(bits)
    ensures CountOnes(bits + [if ParityEven32(BitsValue(bits)) == 1 then One else Zero]) % 2 == 0
  {
    ParityOfBits(bits);
    EvenAfterParityBit(bits, if ParityEven32(BitsValue(bits)) == 1 then One else Zero);
  }
}
