/** UTF-8 encoding of names.

    A Rust `String` is stored as UTF-8: `str::len` counts bytes, and `str::as_bytes`
    is the byte sequence the registry uses as its storage key. This module gives the
    encoding of a Dafny `string` (a sequence of Unicode scalar values), a decoder that
    inverts it, and the facts the registry needs: distinct names have distinct keys,
    and the byte length of an ASCII name is its character count.
 */
module Utf8 {

  import opened Wrappers

  type byte = b: int | 0 <= b < 0x100

  /** True for a Unicode scalar value: a code point that is not a surrogate. */
  predicate IsScalar(n: int) {
    (0 <= n < 0xD800) || (0xE000 <= n < 0x11_0000)
  }

  predicate IsAscii(c: char) {
    c as int < 0x80
  }

  /** The UTF-8 bytes of one character: one to four bytes, by code point range. */
  function EncodeChar(c: char): (bs: seq<byte>)
    ensures 1 <= |bs| <= 4
    ensures |bs| == 1 <==> IsAscii(c)
  {
    var n := c as int;
    if n < 0x80 then
      [n]
    else if n < 0x800 then
      [0xC0 + n / 0x40, 0x80 + n % 0x40]
    else if n < 0x1_0000 then
      [0xE0 + n / 0x1000, 0x80 + (n / 0x40) % 0x40, 0x80 + n % 0x40]
    else
      [0xF0 + n / 0x4_0000, 0x80 + (n / 0x1000) % 0x40, 0x80 + (n / 0x40) % 0x40, 0x80 + n % 0x40]
  }

  /** The UTF-8 encoding of a string, character by character. */
  function Encode(s: string): (bs: seq<byte>)
    ensures |s| <= |bs| <= 4 * |s|
  {
    if s == [] then [] else EncodeChar(s[0]) + Encode(s[1..])
  }

  /** The number of bytes a sequence announces by its leading byte; 0 if the byte
      cannot start a character. */
  function Width(lead: byte): (w: nat)
    ensures w <= 4
  {
    if lead < 0x80 then 1
    else if 0xC0 <= lead < 0xE0 then 2
    else if 0xE0 <= lead < 0xF0 then 3
    else if 0xF0 <= lead < 0xF8 then 4
    else 0
  }

  /** The code point carried by one encoded character. */
  function CodePoint(bs: seq<byte>): int
    requires 1 <= |bs| <= 4 && Width(bs[0]) == |bs|
  {
    var b := seq(|bs|, i requires 0 <= i < |bs| => bs[i] as int);
    if |bs| == 1 then b[0]
    else if |bs| == 2 then (b[0] - 0xC0) * 0x40 + (b[1] - 0x80)
    else if |bs| == 3 then (b[0] - 0xE0) * 0x1000 + (b[1] - 0x80) * 0x40 + (b[2] - 0x80)
    else (b[0] - 0xF0) * 0x4_0000 + (b[1] - 0x80) * 0x1000 + (b[2] - 0x80) * 0x40 + (b[3] - 0x80)
  }

  /** A decoder for the encoding above: it reads one character at a time by the
      width its leading byte announces, and fails on a truncated sequence or on a
      value that is not a scalar. */
  function Decode(bs: seq<byte>): Option<string>
    decreases |bs|
  {
    if bs == [] then Some([])
    else
      var w := Width(bs[0]);
      if w == 0 || w > |bs| then None
      else
        var n := CodePoint(bs[..w]);
        if !IsScalar(n) then None
        else
          match Decode(bs[w..])
          case None => None
          case Some(rest) => Some([n as char] + rest)
  }

  /** The leading byte of an encoded character announces its length, and the
      bytes carry its code point back. */
  lemma EncodeCharInverse(c: char)
    ensures Width(EncodeChar(c)[0]) == |EncodeChar(c)|
    ensures CodePoint(EncodeChar(c)) == c as int
  {
    var n := c as int;
    var bs := EncodeChar(c);
    if n < 0x80 {
    } else if n < 0x800 {
      assert n == (n / 0x40) * 0x40 + n % 0x40;
    } else if n < 0x1_0000 {
      assert n / 0x40 == (n / 0x1000) * 0x40 + (n / 0x40) % 0x40;
      assert n == (n / 0x40) * 0x40 + n % 0x40;
    } else {
      assert n / 0x1000 == (n / 0x4_0000) * 0x40 + (n / 0x1000) % 0x40;
      assert n / 0x40 == (n / 0x1000) * 0x40 + (n / 0x40) % 0x40;
      assert n == (n / 0x40) * 0x40 + n % 0x40;
    }
  }

  /** Decoding undoes encoding. */
  lemma {:induction false} DecodeEncode(s: string)
    ensures Decode(Encode(s)) == Some(s)
  {
    if s != [] {
      var head, tail := EncodeChar(s[0]), Encode(s[1..]);
      var bs := head + tail;
      EncodeCharInverse(s[0]);
      assert bs[0] == head[0];
      assert bs[..|head|] == head;
      assert bs[|head|..] == tail;
      DecodeEncode(s[1..]);
      assert [s[0]] + s[1..] == s;
    }
  }

  /** Distinct names have distinct byte keys. */
  lemma EncodeInjective(a: string, b: string)
    requires Encode(a) == Encode(b)
    ensures a == b
  {
    DecodeEncode(a);
    DecodeEncode(b);
  }

  /** A string is as long in bytes as in characters exactly when it is all ASCII,
      and then its bytes are its code points. */
  lemma {:induction false} AsciiEncoding(s: string)
    ensures |Encode(s)| == |s| <==> forall i :: 0 <= i < |s| ==> IsAscii(s[i])
    ensures (forall i :: 0 <= i < |s| ==> IsAscii(s[i])) ==>
              forall i :: 0 <= i < |s| ==> Encode(s)[i] == s[i] as int
  {
    if s != [] {
      AsciiEncoding(s[1..]);
      assert forall i :: 1 <= i < |s| ==> s[i] == s[1..][i - 1];
    }
  }
}
