/**
 * Fixed-width unsigned integers and the network (big-endian) byte order that
 * the Modbus protocol uses for every 16-bit field.
 */
module Bytes {
  type byte = x: int | 0 <= x < 0x100
  type u16 = x: int | 0 <= x < 0x1_0000
  type u32 = x: int | 0 <= x < 0x1_0000_0000

  /** The two bytes of `v`, most significant first. */
  function HostToNetworkOrder(v: u16): (r: seq<byte>)
    ensures |r| == 2
  {
    [v / 0x100, v % 0x100]
  }

  /** The 16-bit value stored big-endian at `s[offset]`, `s[offset + 1]`. */
  function NetworkToHostOrder(s: seq<byte>, offset: nat): (r: u16)
    requires offset + 2 <= |s|
    ensures HostToNetworkOrder(r) == s[offset..offset + 2]
  {
    (s[offset] as int) * 0x100 + (s[offset + 1] as int)
  }

  /** Two sequences that agree on two bytes read the same value there. */
  lemma SameWord(s: seq<byte>, i: nat, t: seq<byte>, j: nat)
    requires i + 2 <= |s| && j + 2 <= |t| && s[i] == t[j] && s[i + 1] == t[j + 1]
    ensures NetworkToHostOrder(s, i) == NetworkToHostOrder(t, j)
  {
  }

  /** Writing a value in network order and reading it back gives the value. */
  lemma NetworkOrderRoundTrip(v: u16, prefix: seq<byte>, suffix: seq<byte>)
    ensures NetworkToHostOrder(prefix + HostToNetworkOrder(v) + suffix, |prefix|) == v
  {
    var s := prefix + HostToNetworkOrder(v) + suffix;
    assert s[|prefix|] == v / 0x100 && s[|prefix| + 1] == v % 0x100;
  }

  /** Reading two bytes and writing the value back gives the same two bytes. */
  lemma HostOrderRoundTrip(s: seq<byte>, offset: nat)
    requires offset + 2 <= |s|
    ensures HostToNetworkOrder(NetworkToHostOrder(s, offset)) == s[offset..offset + 2]
  {
  }
}
