/** UTF-16LE strings as internal/utf16le writes and reads them. A string is its sequence of UTF-16 code
    units; the translation between those and Go's UTF-8 strings is not modelled. */
module Utf16 {
  import opened Bytes

  type Unit = u: int | 0 <= u < 0x1_0000
  type Str = seq<Unit>

  /** EncodeStringToBytes */
  function Encode(s: Str): (b: Bytes)
    ensures |b| == 2 * |s|
  {
    if s == [] then [] else Encode(s[..|s| - 1]) + LE16(s[|s| - 1])
  }

  /** The code units of a byte string; an odd last byte is dropped. */
  function Units(b: Bytes): (s: Str)
    ensures |s| == |b| / 2
    ensures forall i :: 0 <= i < |s| ==> s[i] == U16(b, 2 * i)
  {
    seq(|b| / 2, i requires 0 <= i < |b| / 2 => U16(b, 2 * i))
  }

  /** One trailing NUL goes. */
  function Strip(s: Str): Str {
    if s != [] && s[|s| - 1] == 0 then s[..|s| - 1] else s
  }

  /** DecodeToString */
  function Decode(b: Bytes): Str { Strip(Units(b)) }

  lemma {:induction false} EncodeAt(s: Str, i: nat)
    requires i < |s|
    ensures Encode(s)[2 * i..2 * i + 2] == LE16(s[i])
  {
    if i < |s| - 1 {
      EncodeAt(s[..|s| - 1], i);
      assert Encode(s)[2 * i..2 * i + 2] == Encode(s[..|s| - 1])[2 * i..2 * i + 2];
    }
  }

  /** Low byte first. */
  lemma EncodedUnit(s: Str, i: nat)
    requires i < |s|
    ensures Encode(s)[2 * i] == s[i] % 256 && Encode(s)[2 * i + 1] == s[i] / 256
  {
    hide Encode;
    EncodeAt(s, i);
    var b := Encode(s)[2 * i..2 * i + 2];
    assert b == [s[i] % 256, s[i] / 256];
    assert b[0] == Encode(s)[2 * i] && b[1] == Encode(s)[2 * i + 1];
  }

  lemma UnitsOfEncode(s: Str)
    ensures Units(Encode(s)) == s
  {
    forall i | 0 <= i < |s| ensures Units(Encode(s))[i] == s[i] {
      EncodeAt(s, i);
      ReadLE16(Encode(s), 2 * i, s[i]);
    }
  }

  /** Decoding gives the string back if and only if it does not end in a NUL. */
  lemma DecodeOfEncode(s: Str)
    ensures Decode(Encode(s)) == Strip(s)
    ensures Decode(Encode(s)) == s <==> s == [] || s[|s| - 1] != 0
    ensures s != [] && s[|s| - 1] == 0 ==> Decode(Encode(s)) == s[..|s| - 1]
  {
    UnitsOfEncode(s);
  }
}
