/**
 * Byte-level building blocks shared by the kernel side and the user-space
 * tools: the byte type, ASCII text, fixed-width unsigned integers in either
 * byte order, and hexadecimal text in the two cases the system prints
 * ("%02x" in the measurement list, "%02hhX" in the debug helper) together
 * with the decoder the PCR replay script applies to it.
 */
module Bytes {

  type byte = x: int | 0 <= x < 256

  datatype Option<+T> = None | Some(value: T)

  const SPACE: byte := 32
  const NEWLINE: byte := 10

  function Repeat(b: byte, n: nat): (r: seq<byte>)
    ensures |r| == n
    ensures forall i :: 0 <= i < n ==> r[i] == b
  {
    if n == 0 then [] else [b] + Repeat(b, n - 1)
  }

  function Min(a: int, b: int): int { if a <= b then a else b }

  function Pow256(n: nat): (r: nat)
    ensures r >= 1
  {
    if n == 0 then 1 else 256 * Pow256(n - 1)
  }

  // ---------------------------------------------------------------------
  // Fixed-width unsigned integers

  /** The n least significant bytes of x, least significant first. */
  function LittleEndian(x: nat, n: nat): (r: seq<byte>)
    ensures |r| == n
  {
    if n == 0 then [] else [x % 256] + LittleEndian(x / 256, n - 1)
  }

  function FromLittleEndian(bs: seq<byte>): nat
  {
    if bs == [] then 0 else bs[0] + 256 * FromLittleEndian(bs[1..])
  }

  function Reverse(s: seq<byte>): (r: seq<byte>)
    ensures |r| == |s|
  {
    if s == [] then [] else Reverse(s[1..]) + [s[0]]
  }

  /** Position i of the reversal holds the byte i places from the end. */
  lemma {:induction false} ReverseAt(s: seq<byte>)
    ensures forall i :: 0 <= i < |s| ==> Reverse(s)[i] == s[|s| - 1 - i]
  {
    if s != [] {
      ReverseAt(s[1..]);
    }
  }

  lemma {:induction false} ReverseReverse(s: seq<byte>)
    ensures Reverse(Reverse(s)) == s
  {
    ReverseAt(s);
    ReverseAt(Reverse(s));
    var r := Reverse(Reverse(s));
    assert |r| == |s|;
    forall i | 0 <= i < |s| ensures r[i] == s[i] {
      assert r[i] == Reverse(s)[|s| - 1 - i];
    }
  }

  /** A 32-bit field as the kernel stores it: little endian, or big endian. */
  function U32Bytes(x: nat, little: bool): (r: seq<byte>)
    ensures |r| == 4
  {
    if little then LittleEndian(x, 4) else Reverse(LittleEndian(x, 4))
  }

  function FromU32Bytes(bs: seq<byte>, little: bool): nat
  {
    if little then FromLittleEndian(bs) else FromLittleEndian(Reverse(bs))
  }

  lemma {:induction false} LittleEndianRoundTrip(x: nat, n: nat)
    requires x < Pow256(n)
    ensures FromLittleEndian(LittleEndian(x, n)) == x
  {
    if n > 0 {
      var q := x / 256;
      assert x < 256 * Pow256(n - 1);
      assert q < Pow256(n - 1);
      LittleEndianRoundTrip(q, n - 1);
      var s := LittleEndian(x, n);
      assert s[1..] == LittleEndian(q, n - 1);
    }
  }

  /** Decoding the four bytes of a 32-bit field gives back its value. */
  lemma U32RoundTrip(x: nat, little: bool)
    requires x < 0x1_0000_0000
    ensures FromU32Bytes(U32Bytes(x, little), little) == x
  {
    assert Pow256(4) == 0x1_0000_0000;
    LittleEndianRoundTrip(x, 4);
    if !little {
      ReverseReverse(LittleEndian(x, 4));
    }
  }

  // ---------------------------------------------------------------------
  // Hexadecimal text

  function HexDigitLower(n: nat): (c: byte)
    requires n < 16
  {
    if n < 10 then 48 + n else 87 + n
  }

  function HexDigitUpper(n: nat): (c: byte)
    requires n < 16
  {
    if n < 10 then 48 + n else 55 + n
  }

  /** The value of one hexadecimal digit of either case. */
  function HexValue(c: byte): Option<nat>
  {
    if 48 <= c <= 57 then Some(c - 48)
    else if 97 <= c <= 102 then Some(c - 87)
    else if 65 <= c <= 70 then Some(c - 55)
    else None
  }

  /** Two lower-case digits per byte, in byte order ("%02x" per byte). */
  function HexLower(s: seq<byte>): seq<byte>
  {
    if s == [] then [] else [HexDigitLower(s[0] / 16), HexDigitLower(s[0] % 16)] + HexLower(s[1..])
  }

  /** Two upper-case digits per byte, in byte order ("%02hhX" per byte). */
  function HexUpper(s: seq<byte>): seq<byte>
  {
    if s == [] then [] else [HexDigitUpper(s[0] / 16), HexDigitUpper(s[0] % 16)] + HexUpper(s[1..])
  }

  /** Hexadecimal text back to bytes; None for an odd length or a non-digit. */
  function Unhex(t: seq<byte>): Option<seq<byte>>
    decreases |t|
  {
    if t == [] then Some([])
    else if |t| == 1 then None
    else
      match (HexValue(t[0]), HexValue(t[1]), Unhex(t[2..]))
      case (Some(hi), Some(lo), Some(rest)) =>
        if hi * 16 + lo < 256 then Some([hi * 16 + lo] + rest) else None
      case _ => None
  }

  /** ASCII lower-casing, as Python's str.lower() acts on ASCII text. */
  function LowerAscii(s: seq<byte>): (r: seq<byte>)
    ensures |r| == |s|
    ensures forall i :: 0 <= i < |s| ==> r[i] == if 65 <= s[i] <= 90 then s[i] + 32 else s[i]
  {
    if s == [] then [] else [if 65 <= s[0] <= 90 then s[0] + 32 else s[0]] + LowerAscii(s[1..])
  }

  lemma {:induction false} HexLowerAt(s: seq<byte>, i: nat)
    requires i < |s|
    ensures |HexLower(s)| == 2 * |s|
    ensures HexLower(s)[2 * i] == HexDigitLower(s[i] / 16)
    ensures HexLower(s)[2 * i + 1] == HexDigitLower(s[i] % 16)
  {
    HexLowerLength(s);
    if i > 0 {
      HexLowerAt(s[1..], i - 1);
    }
  }

  lemma {:induction false} HexLowerLength(s: seq<byte>)
    ensures |HexLower(s)| == 2 * |s|
  {
    if s != [] {
      HexLowerLength(s[1..]);
    }
  }

  lemma {:induction false} HexUpperLength(s: seq<byte>)
    ensures |HexUpper(s)| == 2 * |s|
  {
    if s != [] {
      HexUpperLength(s[1..]);
    }
  }

  lemma {:induction false} HexLowerAppend(s: seq<byte>, t: seq<byte>)
    ensures HexLower(s + t) == HexLower(s) + HexLower(t)
  {
    if s != [] {
      assert (s + t)[1..] == s[1..] + t;
      HexLowerAppend(s[1..], t);
    } else {
      assert s + t == t;
    }
  }

  lemma {:induction false} HexUpperAppend(s: seq<byte>, t: seq<byte>)
    ensures HexUpper(s + t) == HexUpper(s) + HexUpper(t)
  {
    if s != [] {
      assert (s + t)[1..] == s[1..] + t;
      HexUpperAppend(s[1..], t);
    } else {
      assert s + t == t;
    }
  }

  /** Lower-case hex text decodes back to the bytes it was printed from. */
  lemma {:induction false} UnhexHexLower(s: seq<byte>)
    ensures Unhex(HexLower(s)) == Some(s)
  {
    if s != [] {
      var t := HexLower(s);
      assert t[2..] == HexLower(s[1..]);
      UnhexHexLower(s[1..]);
      HexLowerLength(s);
      assert HexValue(t[0]) == Some(s[0] / 16);
      assert HexValue(t[1]) == Some(s[0] % 16);
      assert (s[0] / 16) * 16 + s[0] % 16 == s[0];
      assert [s[0]] + s[1..] == s;
    }
  }

  /** Upper-case hex text decodes back to the bytes it was printed from. */
  lemma {:induction false} UnhexHexUpper(s: seq<byte>)
    ensures Unhex(HexUpper(s)) == Some(s)
  {
    if s != [] {
      var t := HexUpper(s);
      assert t[2..] == HexUpper(s[1..]);
      UnhexHexUpper(s[1..]);
      HexUpperLength(s);
      assert HexValue(t[0]) == Some(s[0] / 16);
      assert HexValue(t[1]) == Some(s[0] % 16);
      assert (s[0] / 16) * 16 + s[0] % 16 == s[0];
      assert [s[0]] + s[1..] == s;
    }
  }

  /** The two printers differ only in letter case. */
  lemma {:induction false} LowerHexUpper(s: seq<byte>)
    ensures LowerAscii(HexUpper(s)) == HexLower(s)
  {
    if s != [] {
      var head := [HexDigitUpper(s[0] / 16), HexDigitUpper(s[0] % 16)];
      LowerAsciiAppend(head, HexUpper(s[1..]));
      LowerHexUpper(s[1..]);
      assert LowerAscii(head) == [HexDigitLower(s[0] / 16), HexDigitLower(s[0] % 16)];
    }
  }

  /** Lower-case hex text is left as it is by lower-casing. */
  lemma {:induction false} LowerHexLower(s: seq<byte>)
    ensures LowerAscii(HexLower(s)) == HexLower(s)
  {
    if s != [] {
      var head := [HexDigitLower(s[0] / 16), HexDigitLower(s[0] % 16)];
      LowerAsciiAppend(head, HexLower(s[1..]));
      LowerHexLower(s[1..]);
      assert LowerAscii(head) == head;
    }
  }

  lemma {:induction false} LowerAsciiAppend(s: seq<byte>, t: seq<byte>)
    ensures LowerAscii(s + t) == LowerAscii(s) + LowerAscii(t)
  {
    var r := LowerAscii(s + t);
    assert |r| == |LowerAscii(s) + LowerAscii(t)|;
    forall i | 0 <= i < |r| ensures r[i] == (LowerAscii(s) + LowerAscii(t))[i] {
      if i < |s| {
        assert (s + t)[i] == s[i];
      } else {
        assert (s + t)[i] == t[i - |s|];
      }
    }
  }
}
