/** Byte strings and the hash-pad masking of `TE::Encrypt` and
    `TE::CombineShares`: a byte-wise XOR of a digest with the message (or
    with the masked payload V). A `char` of the C++ `std::string` is a byte
    here; the casts to and from `uint8_t` do not change its bits. */
module Masking {

  type Bytes = seq<bv8>

  /** What `std::string(s.c_str())` holds: a string built from a C pointer
      keeps everything before the first NUL byte. */
  function CStr(s: Bytes): (r: Bytes)
    ensures r <= s
    ensures 0 !in r
    ensures |r| < |s| ==> s[|r|] == 0
  {
    if s == [] || s[0] == 0 then [] else [s[0]] + CStr(s[1..])
  }

  /** A string without NUL bytes survives being rebuilt from `c_str()` unchanged. */
  lemma {:induction false} CStrOfNulFree(s: Bytes)
    requires 0 !in s
    ensures CStr(s) == s
  {
    if s != [] {
      assert s[0] in s;
      assert forall k :: 0 <= k < |s[1..]| ==> s[1..][k] == s[k + 1];
      CStrOfNulFree(s[1..]);
      assert s == [s[0]] + s[1..];
    }
  }

  /** A string rebuilt from `c_str()` ends at the first NUL: whatever follows a NUL byte
      at position k does not matter. */
  lemma {:induction false} CStrStopsAtNul(s: Bytes, k: nat, tail: Bytes)
    requires k < |s| && s[k] == 0
    ensures CStr(s[..k + 1] + tail) == CStr(s)
  {
    var s' := s[..k + 1] + tail;
    if s[0] != 0 {
      assert s'[0] == s[0];
      assert s'[1..] == s[1..][..k] + tail;
      CStrStopsAtNul(s[1..], k - 1, tail);
    }
  }

  /** The valarray expression `lhs ^ rhs` for operands of equal size. */
  function Xor(pad: Bytes, data: Bytes): (r: Bytes)
    requires |pad| == |data|
    ensures |r| == |data|
    ensures forall i :: 0 <= i < |data| ==> r[i] == pad[i] ^ data[i]
  {
    seq(|data|, i requires 0 <= i < |data| => pad[i] ^ data[i])
  }

  /** XOR with a fixed pad is an involution. */
  lemma XorInvolution(pad: Bytes, data: Bytes)
    requires |pad| == |data|
    ensures |Xor(pad, data)| == |data|
    ensures Xor(pad, Xor(pad, data)) == data
  {
  }

  /** XOR with the same pad cannot map two strings to one: the masked
      payload determines the message. */
  lemma XorInjective(pad: Bytes, data1: Bytes, data2: Bytes)
    requires |pad| == |data1| == |data2|
    ensures Xor(pad, data1) == Xor(pad, data2) <==> data1 == data2
  {
    if Xor(pad, data1) == Xor(pad, data2) {
      XorInvolution(pad, data1);
      XorInvolution(pad, data2);
    }
  }

  /** The masking step: XOR the pad with the data and append the result, one
      byte at a time, to an initially empty string. The source leaves the
      result undefined for operands of different sizes. */
  method Mask(pad: Bytes, data: Bytes) returns (out: Bytes)
    requires |pad| == |data|
    ensures |out| == |data|
    ensures forall i :: 0 <= i < |data| ==> out[i] == pad[i] ^ data[i]
    ensures out == Xor(pad, data)
  {
    out := [];
    var i := 0;
    while i < |data|
      invariant i <= |data|
      invariant |out| == i
      invariant forall k :: 0 <= k < i ==> out[k] == pad[k] ^ data[k]
    {
      out := out + [pad[i] ^ data[i]];
      i := i + 1;
    }
  }
}
