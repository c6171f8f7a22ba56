/**
 * Checksums and hexadecimal text used by the serial transports: the LRC of
 * the ASCII mode, the CRC-16 of the RTU mode, and the two-digit upper-case
 * hexadecimal text of the ASCII mode (MODBUS over Serial Line Specification
 * and Implementation Guide V1.02, sections 2.5.2.2 and 6.2).
 */
module ModbusUtility {
  import opened Wrappers
  import opened Bytes
  import opened Exceptions

  function Sum(data: seq<byte>): nat {
    if |data| == 0 then 0 else Sum(data[..|data| - 1]) + data[|data| - 1]
  }

  /**
   * Longitudinal redundancy check: the 8-bit sum of the bytes, with
   * wrap-around, negated in two's complement.
   */
  function CalculateLrc(data: seq<byte>): (r: byte)
    ensures (Sum(data) + r) % 0x100 == 0
  {
    (0x100 - Sum(data) % 0x100) % 0x100
  }

  lemma LrcExamples()
    ensures CalculateLrc([17, 1, 0, 19, 0, 37]) == 182
    ensures CalculateLrc([2, 1, 0, 0, 0, 1]) == 252
  {
    assert Sum([17, 1, 0, 19, 0, 37]) == 74 by {
      assert [17, 1, 0, 19, 0, 37][..5] == [17, 1, 0, 19, 0];
      assert [17, 1, 0, 19, 0] [..4] == [17, 1, 0, 19];
      assert [17, 1, 0, 19][..3] == [17, 1, 0];
      assert [17, 1, 0][..2] == [17, 1];
      assert [17, 1][..1] == [17];
      assert [17][..0] == [];
    }
    assert Sum([2, 1, 0, 0, 0, 1]) == 4 by {
      assert [2, 1, 0, 0, 0, 1][..5] == [2, 1, 0, 0, 0];
      assert [2, 1, 0, 0, 0][..4] == [2, 1, 0, 0];
      assert [2, 1, 0, 0][..3] == [2, 1, 0];
      assert [2, 1, 0][..2] == [2, 1];
      assert [2, 1][..1] == [2];
      assert [2][..0] == [];
    }
  }

  /** One bit step of the CRC-16 register, reflected polynomial 0xA001. */
  function CrcStep(crc: bv16): bv16 {
    if crc & 1 == 1 then (crc >> 1) ^ 0xA001 else crc >> 1
  }

  /** The register after one byte has been shifted in. */
  function CrcUpdate(crc: bv16, b: byte): bv16 {
    var c := crc ^ (b as bv16);
    CrcStep(CrcStep(CrcStep(CrcStep(CrcStep(CrcStep(CrcStep(CrcStep(c))))))))
  }

  /** The CRC-16 register after all of `data`, starting from 0xFFFF. */
  function CrcRegister(data: seq<byte>): bv16 {
    if |data| == 0 then 0xFFFF else CrcUpdate(CrcRegister(data[..|data| - 1]), data[|data| - 1])
  }

  /** The CRC-16 of `data` as it is sent: low byte first. */
  function CalculateCrc(data: seq<byte>): (r: seq<byte>)
    ensures |r| == 2
  {
    var v := CrcRegister(data) as int;
    [v % 0x100, v / 0x100]
  }

  /**
   * A known value of the MODBUS CRC-16: the register runs from 0xFFFF
   * through each byte, and the low byte is sent first.
   */
  lemma CrcExample()
    ensures CalculateCrc([1, 1]) == [193, 224]
  {
    assert CrcRegister([1, 1]) == 0xE0C1 by {
      assert [1, 1][..1] == [1] && [1][..0] == [];
      assert CrcUpdate(0xFFFF, 1) == 0x807E;
      assert CrcUpdate(0x807E, 1) == 0xE0C1;
    }
  }

  /** The upper-case hexadecimal digit of `n`. */
  function HexDigit(n: nat): (c: char)
    requires n < 16
  {
    if n < 10 then (48 + n) as char else (55 + n) as char
  }

  lemma HexDigitValue(n: nat)
    requires n < 16
    ensures HexValue(HexDigit(n)) == Some(n)
  {
  }

  /** The value of a hexadecimal digit of either case, or None for any other character. */
  function HexValue(c: char): (r: Option<nat>)
    ensures r.Some? ==> r.value < 16
  {
    if '0' <= c <= '9' then Some(c as int - 48)
    else if 'A' <= c <= 'F' then Some(c as int - 55)
    else if 'a' <= c <= 'f' then Some(c as int - 87)
    else None
  }

  /** Each byte as two upper-case hexadecimal digits. */
  function GetAsciiChars(data: seq<byte>): (r: string)
    ensures |r| == 2 * |data|
  {
    if |data| == 0 then "" else [HexDigit(data[0] / 16), HexDigit(data[0] % 16)] + GetAsciiChars(data[1..])
  }

  /** The ASCII codes of `s` (every character below 128). */
  function AsciiBytes(s: string): (r: seq<byte>)
    requires forall i :: 0 <= i < |s| ==> s[i] as int < 0x80
    ensures |r| == |s|
    ensures forall i :: 0 <= i < |s| ==> r[i] == s[i] as int
  {
    if |s| == 0 then [] else [s[0] as int] + AsciiBytes(s[1..])
  }

  /** The bytes of the hexadecimal text of `data`, as the ASCII transport writes them. */
  function GetAsciiBytes(data: seq<byte>): (r: seq<byte>)
    ensures |r| == 2 * |data|
  {
    HexCharsAreAscii(data);
    AsciiBytes(GetAsciiChars(data))
  }

  /** Every character of the hexadecimal text is a digit or an upper-case letter A to F. */
  lemma {:induction false} HexCharsAreAscii(data: seq<byte>)
    ensures forall i :: 0 <= i < |GetAsciiChars(data)| ==>
      GetAsciiChars(data)[i] as int < 0x80 && HexValue(GetAsciiChars(data)[i]).Some?
  {
    if |data| > 0 {
      HexCharsAreAscii(data[1..]);
    }
  }

  /**
   * The bytes written as pairs of hexadecimal digits in `hex`. An odd number
   * of characters, or a character that is not a hexadecimal digit, raises
   * FormatException.
   */
  function HexToBytes(hex: string): (r: Result<seq<byte>, Exception>)
    ensures r.Success? ==> 2 * |r.value| == |hex|
    ensures r.Failure? ==> r.error == FormatException
    ensures |hex| % 2 == 1 ==> r.Failure?
  {
    if |hex| % 2 != 0 then Failure(FormatException)
    else if |hex| == 0 then Success([])
    else
      var hi := HexValue(hex[0]);
      var lo := HexValue(hex[1]);
      if hi.None? || lo.None? then Failure(FormatException)
      else
        var rest :- HexToBytes(hex[2..]);
        Success([hi.value * 16 + lo.value] + rest)
  }

  /** Reading back the hexadecimal text of a byte sequence gives the bytes. */
  lemma {:induction false} HexRoundTrip(data: seq<byte>)
    ensures HexToBytes(GetAsciiChars(data)) == Success(data)
  {
    if |data| > 0 {
      HexRoundTrip(data[1..]);
      var h := GetAsciiChars(data);
      assert h[2..] == GetAsciiChars(data[1..]);
      HexDigitValue(data[0] / 16);
      HexDigitValue(data[0] % 16);
      assert [data[0]] + data[1..] == data;
    }
  }

  /** The hexadecimal text of `data` followed by `rest` splits at the end of the text. */
  lemma {:induction false} GetAsciiCharsConcat(a: seq<byte>, b: seq<byte>)
    ensures GetAsciiChars(a + b) == GetAsciiChars(a) + GetAsciiChars(b)
  {
    if |a| > 0 {
      assert (a + b)[1..] == a[1..] + b;
      GetAsciiCharsConcat(a[1..], b);
    } else {
      assert a + b == b;
    }
  }

  lemma AsciiExample()
    ensures GetAsciiChars([2, 1, 0, 0, 0, 1]) + GetAsciiChars([252]) == "020100000001FC"
  {
  }
}
