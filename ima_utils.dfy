/**
 * print_util from ima_utils.c: the debug helper that writes each byte of a
 * buffer as two upper-case hex digits into a 1024-byte stack buffer and
 * prints it after a caller-given prefix.
 *
 * The printed line is the result; the kernel log is not modelled.
 */
module ImaUtils {
  import opened Bytes
  import ImaFs

  const PRINT_BUFFER_SIZE: nat := 1024

  /**
   * The loop of print_util: byte i goes to offsets 2i and 2i + 1, and
   * sprintf's NUL lands after the last pair. With length 0 the buffer is
   * never written, so what printk would read is undefined: None. The caller
   * must keep 2 * length + 1 within the buffer, since print_util does not.
   */
  method PrintUtil(toBePrinted: array<byte>, length: nat, stringBefore: seq<byte>) returns (printed: Option<seq<byte>>)
    requires length <= toBePrinted.Length
    requires 2 * length + 1 <= PRINT_BUFFER_SIZE
    ensures length == 0 ==> printed == None
    ensures length > 0 ==> printed == Some(stringBefore + [SPACE] + HexUpper(toBePrinted[..length]))
  {
    var stringToPrint := new byte[PRINT_BUFFER_SIZE];
    var offset := 0;
    for i := 0 to length
      invariant offset == 2 * i
      invariant stringToPrint[..offset] == HexUpper(toBePrinted[..i])
      invariant i > 0 ==> stringToPrint[offset] == 0
    {
      ghost var before := stringToPrint[..offset];
      PutHexPair(stringToPrint, offset, toBePrinted[i]);
      ghost var pair := stringToPrint[offset..offset + 3];
      assert stringToPrint[..offset + 2] == before + pair[..2];
      assert stringToPrint[offset + 2] == pair[2] == 0;
      assert toBePrinted[..i + 1] == toBePrinted[..i] + [toBePrinted[i]];
      HexUpperAppend(toBePrinted[..i], [toBePrinted[i]]);
      offset := offset + 2;
    }
    if length == 0 {
      return None;
    }
    var hex := stringToPrint[..offset];
    HexUpperNoNul(toBePrinted[..length]);
    assert stringToPrint[..] == hex + [0] + stringToPrint[offset + 1..];
    CStringStopsAtNul(hex, stringToPrint[offset + 1..]);
    printed := Some(stringBefore + [SPACE] + ImaFs.CString(stringToPrint[..]));
  }

  /** sprintf(buf + offset, "%02hhX", b): two digits, then the terminating NUL. */
  method PutHexPair(buf: array<byte>, offset: nat, b: byte)
    requires offset + 3 <= buf.Length
    modifies buf
    ensures buf[..offset] == old(buf[..offset])
    ensures buf[offset..offset + 3] == HexUpper([b]) + [0]
    ensures buf[offset + 3..] == old(buf[offset + 3..])
  {
    buf[offset] := HexDigitUpper(b / 16);
    buf[offset + 1] := HexDigitUpper(b % 16);
    buf[offset + 2] := 0;
  }

  /** Upper-case hex text holds no NUL. */
  lemma HexUpperNoNul(s: seq<byte>)
    ensures 0 !in HexUpper(s)
  {
    HexUpperLength(s);
    var t := HexUpper(s);
    forall k | 0 <= k < |t| ensures t[k] != 0 {
      HexUpperAt(s, k / 2);
      assert k == 2 * (k / 2) || k == 2 * (k / 2) + 1;
    }
  }

  lemma {:induction false} HexUpperAt(s: seq<byte>, i: nat)
    requires i < |s|
    ensures |HexUpper(s)| == 2 * |s|
    ensures HexUpper(s)[2 * i] == HexDigitUpper(s[i] / 16)
    ensures HexUpper(s)[2 * i + 1] == HexDigitUpper(s[i] % 16)
  {
    HexUpperLength(s);
    if i > 0 {
      HexUpperAt(s[1..], i - 1);
    }
  }

  /** printk's "%s" reads a NUL-free text followed by a NUL as exactly that text. */
  lemma {:induction false} CStringStopsAtNul(h: seq<byte>, rest: seq<byte>)
    requires 0 !in h
    ensures ImaFs.CString(h + [0] + rest) == h
  {
    var s := h + [0] + rest;
    if h != [] {
      assert s[0] == h[0] && s[1..] == h[1..] + [0] + rest;
      CStringStopsAtNul(h[1..], rest);
    }
  }

  /** The printed digits decode back to the bytes, and lower-cased they are the measurement list's "%02x" text. */
  lemma PrintedHexDecodes(s: seq<byte>)
    ensures Unhex(HexUpper(s)) == Some(s)
    ensures LowerAscii(HexUpper(s)) == HexLower(s)
    ensures |HexUpper(s)| == 2 * |s|
  {
    UnhexHexUpper(s);
    LowerHexUpper(s);
    HexUpperLength(s);
  }
}
