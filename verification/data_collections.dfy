/**
 * The two data collections messages carry. A discrete collection (coils or
 * inputs) travels packed eight to a byte, the first discrete in the least
 * significant bit of the first byte; a register collection travels as
 * big-endian 16-bit values.
 */
module DataCollections {
  import opened Wrappers
  import opened Bytes
  import opened Exceptions

  function Pow2(k: nat): (r: nat)
    ensures r >= 1
  {
    if k == 0 then 1 else 2 * Pow2(k - 1)
  }

  /** The low `k` bits of `b`, least significant first. */
  function BitsOf(b: nat, k: nat): (r: seq<bool>)
    ensures |r| == k
  {
    if k == 0 then [] else [b % 2 == 1] + BitsOf(b / 2, k - 1)
  }

  /** The number whose bits, least significant first, are `bits`. */
  function ValueOf(bits: seq<bool>): nat {
    if |bits| == 0 then 0 else (if bits[0] then 1 else 0) + 2 * ValueOf(bits[1..])
  }

  function Falses(n: nat): (r: seq<bool>)
    ensures |r| == n && forall i :: 0 <= i < n ==> !r[i]
  {
    seq(n, _ => false)
  }

  lemma {:induction false} ValueOfBound(bits: seq<bool>)
    ensures ValueOf(bits) < Pow2(|bits|)
  {
    if |bits| > 0 {
      ValueOfBound(bits[1..]);
    }
  }

  lemma {:induction false} BitsOfValueOf(bits: seq<bool>)
    ensures BitsOf(ValueOf(bits), |bits|) == bits
  {
    if |bits| > 0 {
      BitsOfValueOf(bits[1..]);
      assert [bits[0]] + bits[1..] == bits;
    }
  }

  lemma {:induction false} ValueOfBitsOf(b: nat, k: nat)
    requires b < Pow2(k)
    ensures ValueOf(BitsOf(b, k)) == b
  {
    if k > 0 {
      ValueOfBitsOf(b / 2, k - 1);
      assert BitsOf(b, k)[1..] == BitsOf(b / 2, k - 1);
    }
  }

  /** Trailing false bits do not change the value. */
  lemma {:induction false} ValueOfPadding(bits: seq<bool>, n: nat)
    ensures ValueOf(bits + Falses(n)) == ValueOf(bits)
  {
    if |bits| > 0 {
      assert (bits + Falses(n))[1..] == bits[1..] + Falses(n);
      ValueOfPadding(bits[1..], n);
    } else if n > 0 {
      assert bits + Falses(n) == Falses(n);
      assert Falses(n)[1..] == Falses(n - 1) == bits + Falses(n - 1);
      ValueOfPadding(bits, n - 1);
    }
  }

  // ---- DiscreteCollection ----

  /** The number of bytes the discretes occupy on the wire, as the 8-bit count a message carries. */
  function DiscreteByteCount(discretes: seq<bool>): (r: byte)
    ensures |discretes| <= 2040 ==> 8 * r >= |discretes| && 8 * r < |discretes| + 8
  {
    ((|discretes| + 7) / 8) % 0x100
  }

  /** The discretes packed eight to a byte, least significant bit first. */
  function DiscreteNetworkBytes(discretes: seq<bool>): (r: seq<byte>)
    ensures |r| == (|discretes| + 7) / 8
  {
    if |discretes| == 0 then []
    else
      var n := if |discretes| < 8 then |discretes| else 8;
      ValueOfBound(discretes[..n]);
      assert Pow2(n) <= 256 by { Pow2Monotone(n, 8); }
      [ValueOf(discretes[..n])] + DiscreteNetworkBytes(discretes[n..])
  }

  lemma {:induction false} Pow2Monotone(a: nat, b: nat)
    requires a <= b
    ensures Pow2(a) <= Pow2(b)
  {
    if a < b {
      Pow2Monotone(a, b - 1);
    }
  }

  /** The discretes of a byte sequence: eight per byte, least significant bit first. */
  function DiscretesFromBytes(bytes: seq<byte>): (r: seq<bool>)
    ensures |r| == 8 * |bytes|
  {
    if |bytes| == 0 then [] else BitsOf(bytes[0], 8) + DiscretesFromBytes(bytes[1..])
  }

  /** The discretes followed by false up to a whole number of bytes. */
  function Padded(discretes: seq<bool>): (r: seq<bool>)
    ensures |r| == 8 * ((|discretes| + 7) / 8) && r[..|discretes|] == discretes
  {
    discretes + Falses(8 * ((|discretes| + 7) / 8) - |discretes|)
  }

  /** Packing the discretes and reading them back gives them padded with false to a whole byte. */
  lemma {:induction false} DiscretesRoundTrip(discretes: seq<bool>)
    ensures DiscretesFromBytes(DiscreteNetworkBytes(discretes)) == Padded(discretes)
  {
    if |discretes| == 0 {
    } else if |discretes| <= 8 {
      var pad := Falses(8 - |discretes|);
      assert discretes[..|discretes|] == discretes;
      ValueOfPadding(discretes, 8 - |discretes|);
      BitsOfValueOf(discretes + pad);
      var nb := DiscreteNetworkBytes(discretes);
      assert nb == [ValueOf(discretes)] + DiscreteNetworkBytes(discretes[|discretes|..]);
      assert discretes[|discretes|..] == [];
      assert nb[1..] == [];
    } else {
      var nb := DiscreteNetworkBytes(discretes);
      DiscretesRoundTrip(discretes[8..]);
      ValueOfBound(discretes[..8]);
      BitsOfValueOf(discretes[..8]);
      assert nb[1..] == DiscreteNetworkBytes(discretes[8..]);
      calc {
        DiscretesFromBytes(nb);
        BitsOf(nb[0], 8) + DiscretesFromBytes(nb[1..]);
        discretes[..8] + Padded(discretes[8..]);
        { assert 8 * ((|discretes| + 7) / 8) - |discretes| == 8 * ((|discretes| - 8 + 7) / 8) - (|discretes| - 8); }
        discretes[..8] + (discretes[8..] + Falses(8 * ((|discretes| + 7) / 8) - |discretes|));
        { assert discretes[..8] + discretes[8..] == discretes; }
        Padded(discretes);
      }
    }
  }

  /** Unpacking bytes and packing the discretes again gives the same bytes. */
  lemma {:induction false} DiscreteBytesRoundTrip(bytes: seq<byte>)
    ensures DiscreteNetworkBytes(DiscretesFromBytes(bytes)) == bytes
  {
    if |bytes| > 0 {
      var d := DiscretesFromBytes(bytes);
      assert d[..8] == BitsOf(bytes[0], 8);
      assert d[8..] == DiscretesFromBytes(bytes[1..]);
      assert Pow2(8) == 256;
      ValueOfBitsOf(bytes[0], 8);
      DiscreteBytesRoundTrip(bytes[1..]);
      if |bytes| == 1 {
        assert d[8..] == [];
      }
      assert [bytes[0]] + bytes[1..] == bytes;
    }
  }

  /** Padding does not change the bytes on the wire. */
  lemma PaddedNetworkBytes(discretes: seq<bool>)
    ensures DiscreteNetworkBytes(Padded(discretes)) == DiscreteNetworkBytes(discretes)
  {
    DiscretesRoundTrip(discretes);
    DiscreteBytesRoundTrip(DiscreteNetworkBytes(discretes));
  }

  lemma DiscreteByteCountExamples()
    ensures DiscreteByteCount([true, true, false, false, false, false, false, false, false]) == 2
    ensures DiscreteByteCount([true, true, false, false, false, false, false, false]) == 1
  {
  }

  lemma DiscreteNetworkBytesExample()
    ensures DiscreteNetworkBytes([true, true]) == [3]
  {
    assert [true, true][..2] == [true, true];
    assert [true, true][2..] == [];
  }

  lemma DiscretesFromBytesExample()
    ensures DiscretesFromBytes([194]) == [false, true, false, false, false, false, true, true]
  {
    assert BitsOf(194, 8) == [false, true, false, false, false, false, true, true];
    assert DiscretesFromBytes([194]) == BitsOf(194, 8) + DiscretesFromBytes([]);
  }

  lemma DiscretesFromBytesOrder()
    ensures DiscretesFromBytes([1, 2]) ==
      [true, false, false, false, false, false, false, false,
       false, true, false, false, false, false, false, false]
  {
    BitsOfOneAndTwo();
    assert DiscretesFromBytes([2]) == BitsOf(2, 8) + DiscretesFromBytes([]);
    assert [1, 2][1..] == [2];
    assert DiscretesFromBytes([1, 2]) == BitsOf(1, 8) + DiscretesFromBytes([2]);
  }

  lemma BitsOfOneAndTwo()
    ensures BitsOf(1, 8) == [true, false, false, false, false, false, false, false]
    ensures BitsOf(2, 8) == [false, true, false, false, false, false, false, false]
  {
    var zeros := [false, false, false, false, false, false];
    assert BitsOf(0, 1) == [false];
    assert BitsOf(0, 2) == [false, false];
    assert BitsOf(0, 3) == [false, false, false];
    assert BitsOf(0, 4) == [false, false, false, false];
    assert BitsOf(0, 5) == [false, false, false, false, false];
    assert BitsOf(0, 6) == zeros;
    assert BitsOf(0, 7) == [false] + zeros;
    assert BitsOf(1, 7) == [true] + zeros;
  }

  // ---- RegisterCollection ----

  /** The number of bytes the registers occupy on the wire, as the 8-bit count a message carries. */
  function RegisterByteCount(registers: seq<u16>): (r: byte)
    ensures |registers| <= 127 ==> r == 2 * |registers|
  {
    (2 * |registers|) % 0x100
  }

  /** The registers as big-endian pairs of bytes. */
  function RegisterNetworkBytes(registers: seq<u16>): (r: seq<byte>)
    ensures |r| == 2 * |registers|
  {
    if |registers| == 0 then [] else HostToNetworkOrder(registers[0]) + RegisterNetworkBytes(registers[1..])
  }

  /**
   * The registers of a byte sequence, two big-endian bytes each; an odd
   * number of bytes raises FormatException.
   */
  function RegistersFromBytes(bytes: seq<byte>): (r: Result<seq<u16>, Exception>)
    ensures r.Success? <==> |bytes| % 2 == 0
    ensures r.Failure? ==> r.error == FormatException
    ensures r.Success? ==> 2 * |r.value| == |bytes|
  {
    if |bytes| % 2 != 0 then Failure(FormatException)
    else if |bytes| == 0 then Success([])
    else
      var rest := RegistersFromBytes(bytes[2..]);
      Success([NetworkToHostOrder(bytes, 0)] + rest.value)
  }

  /** Writing registers to bytes and reading them back gives the registers. */
  lemma {:induction false} RegistersRoundTrip(registers: seq<u16>)
    ensures RegistersFromBytes(RegisterNetworkBytes(registers)) == Success(registers)
  {
    if |registers| > 0 {
      var b := RegisterNetworkBytes(registers);
      assert b[2..] == RegisterNetworkBytes(registers[1..]);
      NetworkOrderRoundTrip(registers[0], [], b[2..]);
      assert b == [] + HostToNetworkOrder(registers[0]) + b[2..];
      RegistersRoundTrip(registers[1..]);
      assert [registers[0]] + registers[1..] == registers;
    }
  }

  /** Reading an even number of bytes as registers and writing them back gives the bytes. */
  lemma {:induction false} RegisterBytesRoundTrip(bytes: seq<byte>)
    requires |bytes| % 2 == 0
    ensures RegistersFromBytes(bytes).Success?
    ensures RegisterNetworkBytes(RegistersFromBytes(bytes).value) == bytes
  {
    if |bytes| > 0 {
      RegisterBytesRoundTrip(bytes[2..]);
      HostOrderRoundTrip(bytes, 0);
      var regs := RegistersFromBytes(bytes).value;
      assert regs[1..] == RegistersFromBytes(bytes[2..]).value;
      assert bytes[..2] + bytes[2..] == bytes;
    }
  }
}
