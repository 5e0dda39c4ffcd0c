/**
 * Unsigned variable-length integers as written by the pool-signature
 * patcher: unsigned LEB128 (DWARF section 7.6), the base-128 varint of
 * Protocol Buffers.  Seven payload bits per byte, least-significant group
 * first, the continuation bit (128) set on every byte except the last.
 */
module Varint {
  import opened Wrappers

  type byte = b: int | 0 <= b < 256

  /** 128^k */
  function Pow128(k: nat): (p: nat)
    ensures p >= 1
  {
    if k == 0 then 1 else 128 * Pow128(k - 1)
  }

  /** The encoder (the `UVarint` writer). */
  function UVarint(v: nat): (r: seq<byte>)
    ensures |r| >= 1
    ensures v < 128 <==> |r| == 1
  {
    if v < 128 then [v] else [v % 128 + 128] + UVarint(v / 128)
  }

  /** Every byte but the last carries the continuation bit; the last does not. */
  lemma {:induction false} UVarintShape(v: nat)
    ensures var r := UVarint(v);
            r[|r| - 1] < 128 && forall i :: 0 <= i < |r| - 1 ==> r[i] >= 128
  {
    if v >= 128 {
      UVarintShape(v / 128);
      var r, q := UVarint(v), UVarint(v / 128);
      assert r == [v % 128 + 128] + q;
      assert forall i :: 1 <= i < |r| ==> r[i] == q[i - 1];
    }
  }

  /** The number a sequence of groups stands for, least-significant group first. */
  function GroupsValue(r: seq<byte>): nat
  {
    if r == [] then 0 else r[0] % 128 + 128 * GroupsValue(r[1..])
  }

  /**
   * Reads one varint from the front of `s`: its value and the number of
   * bytes it occupies, or None when `s` ends before a final byte.
   */
  function DecodeUVarint(s: seq<byte>): Option<(nat, nat)>
  {
    if s == [] then None
    else if s[0] < 128 then Some((s[0], 1))
    else match DecodeUVarint(s[1..])
      case None => None
      case Some((v, n)) => Some((s[0] - 128 + 128 * v, n + 1))
  }

  lemma {:induction false} UVarintValue(v: nat)
    ensures GroupsValue(UVarint(v)) == v
  {
    if v >= 128 {
      UVarintValue(v / 128);
      assert UVarint(v)[1..] == UVarint(v / 128);
    }
  }

  /** Decoding the encoding of `v` followed by anything gives back `v` and the encoding's width. */
  lemma {:induction false} DecodeEncode(v: nat, rest: seq<byte>)
    ensures DecodeUVarint(UVarint(v) + rest) == Some((v, |UVarint(v)|))
  {
    var s := UVarint(v) + rest;
    if v >= 128 {
      assert s[1..] == UVarint(v / 128) + rest;
      DecodeEncode(v / 128, rest);
    }
  }

  /** The encoding is prefix-free: two encodings followed by anything can only agree when the values do. */
  lemma EncodingInjective(v: nat, w: nat, rest1: seq<byte>, rest2: seq<byte>)
    requires UVarint(v) + rest1 == UVarint(w) + rest2
    ensures v == w && rest1 == rest2
  {
    DecodeEncode(v, rest1);
    DecodeEncode(w, rest2);
    assert rest1 == (UVarint(v) + rest1)[|UVarint(v)|..];
    assert rest2 == (UVarint(w) + rest2)[|UVarint(w)|..];
  }

  /** A value below 128^k takes at most k bytes. */
  lemma {:induction false} UVarintLengthBound(v: nat, k: nat)
    requires k >= 1 && v < Pow128(k)
    ensures |UVarint(v)| <= k
  {
    if v >= 128 {
      assert k >= 2;
      assert v / 128 < Pow128(k - 1);
      UVarintLengthBound(v / 128, k - 1);
    }
  }

  /** Every 64-bit value fits the ten bytes the pool template reserves per placeholder. */
  lemma UVarintFits64(v: nat)
    requires v < 0x1_0000_0000_0000_0000
    ensures 1 <= |UVarint(v)| <= 10
  {
    assert Pow128(10) == 0x40_0000_0000_0000_0000 by {
      assert Pow128(2) == 0x4000;
      assert Pow128(4) == 0x1000_0000;
      assert Pow128(6) == 0x400_0000_0000;
      assert Pow128(8) == 0x1_0000_0000_0000_00;
    }
    UVarintLengthBound(v, 10);
  }
}
