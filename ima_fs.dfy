/**
 * The securityfs side of a namespace: the positional iterator over the
 * measurement list, the binary and ASCII record writers, and the
 * validation and busy-flag logic of the `active` and `policy` files.
 *
 * A seq_file is the byte sequence it has accumulated. A template field's
 * field_show callback is a function parameter from the field id, the show
 * type and the field data to the bytes it writes. The opaque policy calls
 * (ima_parse_add_rule, ima_check_policy, ima_init_namespace) and the
 * outcomes of memory and file operations are parameters too.
 */
module ImaFs {
  import opened Bytes
  import opened Ima

  const EFAULT: int := 14
  const PAGE_SIZE: nat := 4096
  const INT_MAX: nat := 0x7FFF_FFFF
  const SIZE_T_LIMIT: nat := 0x1_0000_0000_0000_0000

  /** "ima", the name of the original template. */
  const IMA_TEMPLATE_IMA_NAME: seq<byte> := [105, 109, 97]

  /** A seq_file: the bytes written to it so far. */
  class SeqFile {
    var buf: seq<byte>

    constructor ()
      ensures buf == []
    {
      buf := [];
    }
  }

  // ---------------------------------------------------------------------
  // ima_measurements_start / ima_measurements_next

  /**
   * Walks the list counting `pos` down and returns the element at 0-based
   * index pos, or None when pos is negative or past the end.
   */
  method MeasurementsStart(ns: Namespace, pos: int) returns (r: Option<nat>)
    ensures r == if 0 <= pos < |ns.measurements| then Some(pos) else None
  {
    var l := pos;
    var i := 0;
    while i < |ns.measurements|
      invariant 0 <= i <= |ns.measurements|
      invariant l == pos - i
      invariant pos < 0 || pos >= i
    {
      if l == 0 {
        return Some(i);
      }
      l := l - 1;
      i := i + 1;
    }
    return None;
  }

  /** Advances the position and returns the successor of element v, or None at the end of the list. */
  method MeasurementsNext(ns: Namespace, v: nat, pos: int) returns (r: Option<nat>, newPos: int)
    requires v < |ns.measurements|
    ensures newPos == pos + 1
    ensures r == if v + 1 < |ns.measurements| then Some(v + 1) else None
  {
    newPos := pos + 1;
    if v + 1 == |ns.measurements| {
      return None, newPos;
    }
    return Some(v + 1), newPos;
  }

  // ---------------------------------------------------------------------
  // ima_putc / ima_print_digest

  /** Writes the first datalen bytes of data, in order. */
  method Putc(m: SeqFile, data: seq<byte>, datalen: nat)
    requires datalen <= |data|
    modifies m
    ensures m.buf == old(m.buf) + data[..datalen]
  {
    var k := 0;
    while k < datalen
      invariant 0 <= k <= datalen
      invariant m.buf == old(m.buf) + data[..k]
    {
      assert data[..k + 1] == data[..k] + [data[k]];
      m.buf := m.buf + [data[k]];
      k := k + 1;
    }
  }

  /** Writes the first size bytes of digest as lower-case hex, two characters per byte. */
  method PrintDigest(m: SeqFile, digest: seq<byte>, size: nat)
    requires size <= |digest|
    modifies m
    ensures m.buf == old(m.buf) + HexLower(digest[..size])
  {
    for i := 0 to size
      invariant m.buf == old(m.buf) + HexLower(digest[..i])
    {
      assert digest[..i + 1] == digest[..i] + [digest[i]];
      HexLowerAppend(digest[..i], [digest[i]]);
      m.buf := m.buf + [HexDigitLower(digest[i] / 16), HexDigitLower(digest[i] % 16)];
    }
  }

  // ---------------------------------------------------------------------
  // Records

  datatype ShowType = ShowAscii | ShowBinary | ShowBinaryNoFieldLen | ShowBinaryOldStringFmt

  /** field->field_show: the bytes a field writes for a show type and its data. */
  type FieldShow = (seq<byte>, ShowType, FieldData) -> seq<byte>

  /** The name a record carries: the descriptor's name, or its format string when the name is empty. */
  function TemplateName(desc: TemplateDesc): seq<byte>
  {
    if desc.name != [] then desc.name else desc.fmt
  }

  /** How a field of the binary record is shown: the "ima" template writes "d" and "n" in their old formats. */
  function ShowTypeFor(isImaTemplate: bool, fieldId: seq<byte>): ShowType
  {
    if isImaTemplate && fieldId == [100] then ShowBinaryNoFieldLen
    else if isImaTemplate && fieldId == [110] then ShowBinaryOldStringFmt
    else ShowBinary
  }

  /**
   * The fixed part of a binary record: the SHA-1 template digest, the name
   * length, the name and, except for the "ima" template, the data length.
   * The pcr is not part of it. `little` is the byte order of the two
   * 32-bit fields (little endian under ima_canonical_fmt or on a
   * little-endian CPU).
   */
  function BinaryHeader(e: TemplateEntry, little: bool): seq<byte>
    requires WellFormed(e)
  {
    var name := TemplateName(e.desc);
    e.digests[IMA_SHA1_IDX].digest[..TPM_DIGEST_SIZE] + U32Bytes(|name|, little) + name +
    (if name == IMA_TEMPLATE_IMA_NAME then [] else U32Bytes(e.templateDataLen, little))
  }

  /** The bytes the first n fields write in a binary record. */
  function BinaryFields(e: TemplateEntry, fieldShow: FieldShow, n: nat): seq<byte>
    requires WellFormed(e) && n <= |e.desc.fieldIds|
  {
    if n == 0 then []
    else
      var isIma := TemplateName(e.desc) == IMA_TEMPLATE_IMA_NAME;
      BinaryFields(e, fieldShow, n - 1) +
      fieldShow(e.desc.fieldIds[n - 1], ShowTypeFor(isIma, e.desc.fieldIds[n - 1]), e.templateData[n - 1])
  }

  function BinaryRecord(e: TemplateEntry, little: bool, fieldShow: FieldShow): seq<byte>
    requires WellFormed(e)
  {
    BinaryHeader(e, little) + BinaryFields(e, fieldShow, |e.desc.fieldIds|)
  }

  /**
   * ima_measurements_show: writes the binary record of the entry, or
   * returns -1 and writes nothing when the queue node holds no entry.
   */
  method MeasurementsShow(m: SeqFile, e: Option<TemplateEntry>, little: bool, fieldShow: FieldShow) returns (r: int)
    requires e.Some? ==> WellFormed(e.value)
    modifies m
    ensures e.None? ==> r == -1 && m.buf == old(m.buf)
    ensures e.Some? ==> r == 0 && m.buf == old(m.buf) + BinaryRecord(e.value, little, fieldShow)
  {
    if e.None? {
      return -1;
    }
    var entry := e.value;
    var isImaTemplate := PutBinaryHeader(m, entry, little);
    PutBinaryFields(m, entry, isImaTemplate, fieldShow);
    r := 0;
  }

  /** The field loop of ima_measurements_show: each field shown in its binary show type. */
  method PutBinaryFields(m: SeqFile, entry: TemplateEntry, isImaTemplate: bool, fieldShow: FieldShow)
    requires WellFormed(entry) && isImaTemplate == (TemplateName(entry.desc) == IMA_TEMPLATE_IMA_NAME)
    modifies m
    ensures m.buf == old(m.buf) + BinaryFields(entry, fieldShow, |entry.desc.fieldIds|)
  {
    var fieldIds, data := entry.desc.fieldIds, entry.templateData;
    ghost var start := m.buf;
    for i := 0 to |fieldIds|
      invariant m.buf == start + BinaryFields(entry, fieldShow, i)
    {
      var show := ChooseShow(isImaTemplate, fieldIds[i]);
      var shown := fieldShow(fieldIds[i], show, data[i]);
      assert BinaryFields(entry, fieldShow, i + 1) == BinaryFields(entry, fieldShow, i) + shown;
      m.buf := m.buf + shown;
    }
  }


  /** The show type of one field: "d" and "n" of the "ima" template in their old formats. */
  method ChooseShow(isImaTemplate: bool, fieldId: seq<byte>) returns (show: ShowType)
    ensures show == ShowTypeFor(isImaTemplate, fieldId)
    ensures show != ShowBinary <==> isImaTemplate && (fieldId == [100] || fieldId == [110])
  {
    show := ShowBinary;
    if isImaTemplate && fieldId == [100] {
      show := ShowBinaryNoFieldLen;
    }
    if isImaTemplate && fieldId == [110] {
      show := ShowBinaryOldStringFmt;
    }
  }

  /**
   * The first part of ima_measurements_show: digest, name length, name and
   * (except for "ima") data length; reports whether the template is "ima".
   * The pcr it converts at ima_fs.c:159 is never written.
   */
  method PutBinaryHeader(m: SeqFile, entry: TemplateEntry, little: bool) returns (isImaTemplate: bool)
    requires WellFormed(entry)
    modifies m
    ensures m.buf == old(m.buf) + BinaryHeader(entry, little)
    ensures isImaTemplate == (TemplateName(entry.desc) == IMA_TEMPLATE_IMA_NAME)
  {
    var templateName := if entry.desc.name != [] then entry.desc.name else entry.desc.fmt;
    ghost var start := m.buf;
    ghost var digest := entry.digests[IMA_SHA1_IDX].digest[..TPM_DIGEST_SIZE];
    var nameLen := U32Bytes(|templateName|, little);
    isImaTemplate := templateName == IMA_TEMPLATE_IMA_NAME;
    ghost var dataLen := if isImaTemplate then [] else U32Bytes(entry.templateDataLen, little);
    assert BinaryHeader(entry, little) == digest + nameLen + templateName + dataLen;

    Putc(m, entry.digests[IMA_SHA1_IDX].digest, TPM_DIGEST_SIZE);
    Putc(m, nameLen, 4);
    assert nameLen[..4] == nameLen;
    Putc(m, templateName, |templateName|);
    assert templateName[..|templateName|] == templateName;
    if !isImaTemplate {
      var len := U32Bytes(entry.templateDataLen, little);
      Putc(m, len, 4);
      assert len[..4] == len;
    }
    assert m.buf == start + digest + nameLen + templateName + dataLen;
    AppendAssoc(start, digest, nameLen, templateName, dataLen);
  }

  lemma AppendAssoc(s: seq<byte>, a: seq<byte>, b: seq<byte>, c: seq<byte>, d: seq<byte>)
    ensures s + a + b + c + d == s + (a + b + c + d)
  {
  }

  /** The fixed fields a reader recovers from a binary record. */
  datatype BinaryFixed = BinaryFixed(digest: seq<byte>, name: seq<byte>, dataLen: Option<nat>)

  /**
   * Reads the fixed part back: the digest, the name and, unless the name is
   * "ima", the data length; also returns where the fields start.
   */
  function ParseBinaryHeader(b: seq<byte>, little: bool): Option<(BinaryFixed, nat)>
  {
    if |b| < 24 then None
    else
      var n := FromU32Bytes(b[20..24], little);
      if |b| < 24 + n then None
      else
        var name := b[24..24 + n];
        if name == IMA_TEMPLATE_IMA_NAME then Some((BinaryFixed(b[..20], name, None), 24 + n))
        else if |b| < 28 + n then None
        else Some((BinaryFixed(b[..20], name, Some(FromU32Bytes(b[24 + n..28 + n], little))), 28 + n))
  }

  /**
   * A binary record parses back to the entry's SHA-1 digest, its template
   * name and (except for "ima") its data length, and the fields follow.
   */
  lemma BinaryRecordRoundTrip(e: TemplateEntry, little: bool, fieldShow: FieldShow)
    requires WellFormed(e)
    ensures
      var name := TemplateName(e.desc);
      var fixed := BinaryFixed(e.digests[IMA_SHA1_IDX].digest[..TPM_DIGEST_SIZE], name,
                               if name == IMA_TEMPLATE_IMA_NAME then None else Some(e.templateDataLen));
      var start := |BinaryHeader(e, little)|;
      ParseBinaryHeader(BinaryRecord(e, little, fieldShow), little) == Some((fixed, start)) &&
      BinaryRecord(e, little, fieldShow)[start..] == BinaryFields(e, fieldShow, |e.desc.fieldIds|)
  {
    var name := TemplateName(e.desc);
    var b := BinaryRecord(e, little, fieldShow);
    var d := e.digests[IMA_SHA1_IDX].digest[..TPM_DIGEST_SIZE];
    U32RoundTrip(|name|, little);
    U32RoundTrip(e.templateDataLen, little);
    assert b[..20] == d;
    assert b[20..24] == U32Bytes(|name|, little);
    assert b[24..24 + |name|] == name;
    if name != IMA_TEMPLATE_IMA_NAME {
      assert b[24 + |name|..28 + |name|] == U32Bytes(e.templateDataLen, little);
    }
  }

  /** Two entries that differ only in their pcr have the same binary record. */
  lemma PcrNotEmitted(e: TemplateEntry, pcr: int, little: bool, fieldShow: FieldShow)
    requires WellFormed(e)
    ensures BinaryRecord(e.(pcr := pcr), little, fieldShow) == BinaryRecord(e, little, fieldShow)
  {
    var e' := e.(pcr := pcr);
    assert forall n :: 0 <= n <= |e.desc.fieldIds| ==> BinaryFields(e', fieldShow, n) == BinaryFields(e, fieldShow, n) by {
      forall n | 0 <= n <= |e.desc.fieldIds|
        ensures BinaryFields(e', fieldShow, n) == BinaryFields(e, fieldShow, n)
      {
        BinaryFieldsIgnorePcr(e, pcr, fieldShow, n);
      }
    }
  }

  lemma {:induction false} BinaryFieldsIgnorePcr(e: TemplateEntry, pcr: int, fieldShow: FieldShow, n: nat)
    requires WellFormed(e) && n <= |e.desc.fieldIds|
    ensures BinaryFields(e.(pcr := pcr), fieldShow, n) == BinaryFields(e, fieldShow, n)
  {
    if n > 0 {
      BinaryFieldsIgnorePcr(e, pcr, fieldShow, n - 1);
    }
  }

  /**
   * The size tally counts a pcr field the record does not carry: for a
   * named, non-"ima" template the fixed part written is four bytes short
   * of the fixed part counted.
   */
  lemma AccountedVersusEmitted(e: TemplateEntry, little: bool)
    requires WellFormed(e) && e.desc.name != [] && e.desc.name != IMA_TEMPLATE_IMA_NAME
    ensures |BinaryHeader(e, little)| + 4 == EntrySize(e) - e.templateDataLen
  {
  }

  // ---------------------------------------------------------------------
  // ima_ascii_measurements_show

  /** Decimal digits of n, most significant first. */
  function Decimal(n: nat): (r: seq<byte>)
    ensures |r| >= 1
    ensures forall i :: 0 <= i < |r| ==> 48 <= r[i] <= 57
  {
    if n < 10 then [48 + n] else Decimal(n / 10) + [48 + n % 10]
  }

  /** "%2d": the decimal value with a leading '-' when negative, right-aligned in two columns. */
  function FormatPcr(pcr: int): seq<byte>
  {
    var s := if pcr < 0 then [45] + Decimal(-pcr) else Decimal(pcr);
    if |s| < 2 then [SPACE] + s else s
  }

  /** The bytes the first n fields write in an ASCII record: a space each, then the field unless its data is empty. */
  function AsciiFields(e: TemplateEntry, fieldShow: FieldShow, n: nat): seq<byte>
    requires WellFormed(e) && n <= |e.desc.fieldIds|
  {
    if n == 0 then []
    else
      AsciiFields(e, fieldShow, n - 1) + [SPACE] +
      (if e.templateData[n - 1].len == 0 then []
       else fieldShow(e.desc.fieldIds[n - 1], ShowAscii, e.templateData[n - 1]))
  }

  /** The start of an ASCII line: pcr, SHA-1 template digest in hex, template name. */
  function AsciiHead(e: TemplateEntry): seq<byte>
    requires WellFormed(e)
  {
    FormatPcr(e.pcr) + [SPACE] + HexLower(e.digests[IMA_SHA1_IDX].digest[..TPM_DIGEST_SIZE]) +
    [SPACE] + TemplateName(e.desc)
  }

  /** One line of ascii_runtime_measurements. */
  function AsciiRecord(e: TemplateEntry, fieldShow: FieldShow): seq<byte>
    requires WellFormed(e)
  {
    AsciiHead(e) + AsciiFields(e, fieldShow, |e.desc.fieldIds|) + [NEWLINE]
  }

  /**
   * ima_ascii_measurements_show: writes the ASCII line of the entry, or
   * returns -1 and writes nothing when the queue node holds no entry.
   */
  method AsciiMeasurementsShow(m: SeqFile, e: Option<TemplateEntry>, fieldShow: FieldShow) returns (r: int)
    requires e.Some? ==> WellFormed(e.value)
    modifies m
    ensures e.None? ==> r == -1 && m.buf == old(m.buf)
    ensures e.Some? ==> r == 0 && m.buf == old(m.buf) + AsciiRecord(e.value, fieldShow)
  {
    if e.None? {
      return -1;
    }
    var entry := e.value;
    PutAsciiHead(m, entry);
    PutAsciiFields(m, entry, fieldShow);
    m.buf := m.buf + [NEWLINE];
    r := 0;
  }

  /** The field loop of ima_ascii_measurements_show: a space, then the field unless its data is empty. */
  method PutAsciiFields(m: SeqFile, entry: TemplateEntry, fieldShow: FieldShow)
    requires WellFormed(entry)
    modifies m
    ensures m.buf == old(m.buf) + AsciiFields(entry, fieldShow, |entry.desc.fieldIds|)
  {
    var fieldIds, data := entry.desc.fieldIds, entry.templateData;
    for i := 0 to |fieldIds|
      invariant m.buf == old(m.buf) + AsciiFields(entry, fieldShow, i)
    {
      m.buf := m.buf + [SPACE];
      if data[i].len != 0 {
        m.buf := m.buf + fieldShow(fieldIds[i], ShowAscii, data[i]);
      }
    }
  }

  /** The first part of ima_ascii_measurements_show: "%2d ", the digest in hex, " %s" with the template name. */
  method PutAsciiHead(m: SeqFile, entry: TemplateEntry)
    requires WellFormed(entry)
    modifies m
    ensures m.buf == old(m.buf) + AsciiHead(entry)
  {
    var templateName := if entry.desc.name != [] then entry.desc.name else entry.desc.fmt;
    ghost var start := m.buf;
    ghost var pcr := FormatPcr(entry.pcr);
    ghost var hex := HexLower(entry.digests[IMA_SHA1_IDX].digest[..TPM_DIGEST_SIZE]);
    m.buf := m.buf + (FormatPcr(entry.pcr) + [SPACE]);
    PrintDigest(m, entry.digests[IMA_SHA1_IDX].digest, TPM_DIGEST_SIZE);
    m.buf := m.buf + ([SPACE] + templateName);
    assert m.buf == start + (pcr + [SPACE]) + hex + ([SPACE] + templateName);
    assert AsciiHead(entry) == pcr + [SPACE] + hex + [SPACE] + templateName;
    AppendAssoc(start, pcr, [SPACE], hex, [SPACE] + templateName);
    assert AsciiHead(entry) == pcr + [SPACE] + hex + ([SPACE] + templateName);
  }

  /** With at least one field, the ASCII fields start with a space. */
  lemma {:induction false} AsciiFieldsStartWithSpace(e: TemplateEntry, fieldShow: FieldShow, n: nat)
    requires WellFormed(e) && 1 <= n <= |e.desc.fieldIds|
    ensures |AsciiFields(e, fieldShow, n)| >= 1 && AsciiFields(e, fieldShow, n)[0] == SPACE
  {
    if n > 1 {
      AsciiFieldsStartWithSpace(e, fieldShow, n - 1);
    }
  }

  // ---------------------------------------------------------------------
  // ima_write_active

  /** The outcome of memdup_user_nul: the copied bytes, or a negative errno. */
  datatype UserCopy = Copied(bytes: seq<byte>) | CopyFailed(err: int)

  /** A C string: the bytes up to the first NUL. */
  function CString(s: seq<byte>): (r: seq<byte>)
    ensures |r| <= |s| && r == s[..|r|]
    ensures forall i :: 0 <= i < |r| ==> r[i] != 0
    ensures |r| < |s| ==> s[|r|] == 0
    ensures 0 !in s ==> r == s
  {
    if s == [] || s[0] == 0 then [] else [s[0]] + CString(s[1..])
  }

  function DigitsValue(s: seq<byte>): nat
    requires forall i :: 0 <= i < |s| ==> 48 <= s[i] <= 57
  {
    if s == [] then 0 else DigitsValue(s[..|s| - 1]) * 10 + (s[|s| - 1] - 48)
  }

  /** The number of leading decimal digits. */
  function DigitRun(s: seq<byte>): (r: nat)
    ensures r <= |s|
    ensures forall i :: 0 <= i < r ==> 48 <= s[i] <= 57
    ensures r < |s| ==> !(48 <= s[r] <= 57)
  {
    if s == [] || !(48 <= s[0] <= 57) then 0 else 1 + DigitRun(s[1..])
  }

  /**
   * kstrtouint(s, 10) on a string shorter than three characters: an
   * optional '+', one or more decimal digits, an optional newline, and
   * nothing else; None stands for -EINVAL. Strings this short cannot
   * overflow.
   */
  function KstrToUint(s: seq<byte>): Option<nat>
    requires |s| < 3
  {
    var t := if |s| > 0 && s[0] == 43 then s[1..] else s;
    var d := DigitRun(t);
    if d == 0 then None
    else if t[d..] == [] || t[d..] == [NEWLINE] then Some(DigitsValue(t[..d]))
    else None
  }

  /** The strings of fewer than three characters that kstrtouint reads as 1. */
  lemma KstrToUintOne(s: seq<byte>)
    requires |s| < 3 && forall i :: 0 <= i < |s| ==> s[i] != 0
    ensures KstrToUint(s) == Some(1) <==> s in {[49], [49, 10], [43, 49], [48, 49]}
  {
    var t := if |s| > 0 && s[0] == 43 then s[1..] else s;
    assert KstrToUint(s) == Some(1) <==> ReadsAsOne(t);
    if |s| > 0 && s[0] == 43 {
      assert s == [43] + t;
      if |t| == 1 {
        ReadsAsOneSingle(t);
        assert t == [49] <==> s == [43, 49];
      }
    } else if |s| == 1 {
      ReadsAsOneSingle(s);
    } else if |s| == 2 {
      ReadsAsOnePair(s);
    }
  }

  /** After the sign: a digit run worth 1, then nothing or a newline. */
  predicate ReadsAsOne(t: seq<byte>)
  {
    var d := DigitRun(t);
    d > 0 && (t[d..] == [] || t[d..] == [NEWLINE]) && DigitsValue(t[..d]) == 1
  }

  lemma ReadsAsOneSingle(t: seq<byte>)
    requires |t| == 1
    ensures ReadsAsOne(t) <==> t == [49]
  {
    assert t[..1] == t && t[1..] == [] && t == [t[0]];
    if 48 <= t[0] <= 57 {
      assert DigitRun(t) == 1;
      assert DigitsValue(t) == t[0] - 48 by {
        assert t[..0] == [];
      }
    }
  }

  lemma ReadsAsOnePair(t: seq<byte>)
    requires |t| == 2
    ensures ReadsAsOne(t) <==> t == [49, 10] || t == [48, 49]
  {
    assert DigitRun(t) == if 48 <= t[0] <= 57 then 1 + DigitRun(t[1..]) else 0;
    assert t[1..] == [t[1]];
    if 48 <= t[0] <= 57 {
      assert DigitsValue([t[0]]) == t[0] - 48 by {
        assert [t[0]][..0] == [];
      }
      if 48 <= t[1] <= 57 {
        assert DigitRun(t) == 2 && t[..2] == t && t[2..] == [];
        assert DigitsValue(t) == DigitsValue([t[0]]) * 10 + (t[1] - 48) by {
          assert t[..1] == [t[0]];
        }
      } else {
        assert DigitRun(t) == 1 && t[..1] == [t[0]] && t[1..] == [t[1]];
      }
    }
  }

  /**
   * ima_write_active: -EBUSY for an active namespace; -EINVAL for three or
   * more bytes or a partial write; the copy error; -EINVAL unless the text
   * reads as 1 or if initialising the namespace fails; otherwise count.
   */
  function WriteActive(ns: Namespace?, count: nat, ppos: int, copy: UserCopy, initErr: int): (r: int)
    reads ns
    requires copy.Copied? ==> |copy.bytes| == count
  {
    if NsIsActive(ns) then -EBUSY
    else if count >= 3 || ppos != 0 then -EINVAL
    else match copy
      case CopyFailed(err) => err
      case Copied(bytes) =>
        match KstrToUint(CString(bytes))
        case None => -EINVAL
        case Some(active) =>
          if active != 1 then -EINVAL
          else if initErr != 0 then -EINVAL
          else count
  }

  /**
   * A write to `active` succeeds exactly when the namespace is inactive, the
   * write is whole and shorter than three bytes, the copy succeeds, the text
   * reads as 1 and initialisation succeeds; it then consumes the whole write.
   */
  lemma WriteActiveAccepts(ns: Namespace?, count: nat, ppos: int, copy: UserCopy, initErr: int)
    requires copy.Copied? ==> |copy.bytes| == count
    requires copy.CopyFailed? ==> copy.err < 0
    ensures WriteActive(ns, count, ppos, copy, initErr) >= 0 <==>
              !NsIsActive(ns) && count < 3 && ppos == 0 && copy.Copied? &&
              KstrToUint(CString(copy.bytes)) == Some(1) && initErr == 0
    ensures WriteActive(ns, count, ppos, copy, initErr) >= 0 ==> WriteActive(ns, count, ppos, copy, initErr) == count
    ensures NsIsActive(ns) ==> WriteActive(ns, count, ppos, copy, initErr) == -EBUSY
  {
  }

  /** "1\n" and "1\0" activate an inactive namespace whose initialisation succeeds. */
  lemma WriteActiveExamples(ns: Namespace?)
    ensures !NsIsActive(ns) ==> WriteActive(ns, 2, 0, Copied([49, 10]), 0) == 2
    ensures !NsIsActive(ns) ==> WriteActive(ns, 2, 0, Copied([49, 0]), 0) == 2
    ensures !NsIsActive(ns) ==> WriteActive(ns, 1, 0, Copied([50]), 0) == -EINVAL
  {
    var newline: seq<byte> := [49, 10];
    var nul: seq<byte> := [49, 0];
    var two: seq<byte> := [50];
    assert CString(newline) == newline;
    assert CString(nul) == [49] by {
      assert nul[1..] == [0];
    }
    assert CString(two) == two;
    KstrToUintOne(newline);
    KstrToUintOne([49]);
    KstrToUintOne(two);
  }

  // ---------------------------------------------------------------------
  // ima_open_policy / ima_release_policy

  /** Bit number of IMA_FS_BUSY in ima_fs_flags. */
  const IMA_FS_BUSY: bv64 := 0
  const O_ACCMODE: bv32 := 3
  const O_RDONLY: bv32 := 0
  const O_WRONLY: bv32 := 1

  /**
   * Opening the policy file: -EACCES for an inactive namespace or a
   * non-writing open (reading the policy is not configured); -EBUSY when
   * another writer holds it; otherwise the busy bit is set.
   */
  method OpenPolicy(ns: Namespace?, fFlags: bv32) returns (r: int)
    modifies {ns}`fsFlags
    ensures !NsIsActive(ns) ==> r == -EACCES
    ensures NsIsActive(ns) && fFlags & O_WRONLY == 0 ==> r == -EACCES
    ensures ns != null && (r == -EACCES || r == -EBUSY) ==> ns.fsFlags == old(ns.fsFlags)
    ensures NsIsActive(ns) && fFlags & O_WRONLY != 0 ==>
              (r == -EBUSY <==> old(TestBit(ns.fsFlags, IMA_FS_BUSY))) &&
              (r == 0 <==> !old(TestBit(ns.fsFlags, IMA_FS_BUSY))) &&
              TestBit(ns.fsFlags, IMA_FS_BUSY) &&
              ns.fsFlags == old(ns.fsFlags) | (1 << IMA_FS_BUSY)
  {
    if !NsIsActive(ns) {
      return -EACCES;
    }
    if fFlags & O_WRONLY == 0 {
      return -EACCES;
    }
    var wasBusy := ns.fsFlags & (1 << IMA_FS_BUSY) != 0;
    ns.fsFlags := ns.fsFlags | (1 << IMA_FS_BUSY);
    if wasBusy {
      return -EBUSY;
    }
    return 0;
  }

  /**
   * An integrity_audit_msg about the policy: operation "policy_update", no
   * inode and no file name; what remains is the cause, the result and the
   * info.
   */
  datatype PolicyAudit = PolicyAudit(cause: string, result: int, info: int)

  /**
   * Releasing the policy file after a write: a policy that was invalid, or
   * that ima_check_policy rejects, has its new rules deleted; a valid one is
   * applied. Either way valid_policy is back at 1 and the busy bit is clear.
   * For init_ima_ns the outcome is audited as "completed" or "failed", with
   * the result 1 for a failure. Releasing a read-only open changes nothing.
   */
  method ReleasePolicy(ns: Namespace, isInitNs: bool, fFlags: bv32, checkPolicy: int)
    returns (r: int, audit: Option<PolicyAudit>)
    modifies ns`validPolicy, ns`fsFlags, ns`rulesDeleted, ns`policyUpdates
    ensures r == 0
    ensures fFlags & O_ACCMODE == O_RDONLY ==>
              audit == None &&
              ns.validPolicy == old(ns.validPolicy) && ns.fsFlags == old(ns.fsFlags) &&
              ns.rulesDeleted == old(ns.rulesDeleted) && ns.policyUpdates == old(ns.policyUpdates)
    ensures fFlags & O_ACCMODE != O_RDONLY ==>
              ns.fsFlags == ClearBusy(old(ns.fsFlags))
    ensures fFlags & O_ACCMODE != O_RDONLY ==>
              var invalid := old(ns.validPolicy) == 0 || checkPolicy < 0;
              ns.validPolicy == (if invalid then 1 else old(ns.validPolicy)) &&
              ns.rulesDeleted == old(ns.rulesDeleted) + (if invalid then 1 else 0) &&
              ns.policyUpdates == old(ns.policyUpdates) + (if invalid then 0 else 1) &&
              audit == (if isInitNs then Some(PolicyAudit(if invalid then "failed" else "completed", if invalid then 1 else 0, 0))
                        else None)
  {
    r, audit := 0, None;
    if fFlags & O_ACCMODE == O_RDONLY {
      return;
    }
    var cause := if ns.validPolicy != 0 then "completed" else "failed";
    if ns.validPolicy != 0 && checkPolicy < 0 {
      cause := "failed";
      ns.validPolicy := 0;
    }
    if isInitNs {
      audit := Some(PolicyAudit(cause, if ns.validPolicy == 0 then 1 else 0, 0));
    }
    var cleared := ClearBusy(ns.fsFlags);
    if ns.validPolicy == 0 {
      ns.rulesDeleted := ns.rulesDeleted + 1;
      ns.validPolicy := 1;
    } else {
      ns.policyUpdates := ns.policyUpdates + 1;
    }
    ns.fsFlags := cleared;
  }

  /** clear_bit(IMA_FS_BUSY, flags): the busy bit is clear afterwards. */
  function ClearBusy(flags: bv64): (r: bv64)
    ensures !TestBit(r, IMA_FS_BUSY)
    ensures r | 1 == flags | 1
  {
    flags & !(1 << IMA_FS_BUSY)
  }

  // ---------------------------------------------------------------------
  // ima_read_policy / ima_write_policy

  /** The outcome of kernel_read_file_from_path: the file's bytes, or a negative errno. */
  datatype FileRead = FileData(data: seq<byte>) | ReadFailed(err: int)

  /** ima_parse_add_rule on one rule: a negative errno, or the count of bytes it accounts for. */
  type RuleParser = seq<byte> -> int

  /**
   * strsep(&s, "\n") on a C string: the text up to the first newline or
   * NUL, and what remains after the newline (nothing once the string ends).
   */
  function StrSep(s: seq<byte>): (r: (seq<byte>, Option<seq<byte>>))
    ensures r.1.Some? ==> |r.1.value| < |s| && s == r.0 + [NEWLINE] + r.1.value
    ensures r.1.None? ==> r.0 == CString(s)
    ensures forall i :: 0 <= i < |r.0| ==> r.0[i] != NEWLINE && r.0[i] != 0
  {
    if s == [] || s[0] == 0 then ([], None)
    else if s[0] == NEWLINE then ([], Some(s[1..]))
    else
      var rest := StrSep(s[1..]);
      assert rest.1.Some? ==> s == [s[0]] + rest.0 + [NEWLINE] + rest.1.value;
      ([s[0]] + rest.0, rest.1)
  }

  /**
   * The rule loop of ima_read_policy from a given point: while bytes remain
   * to be accounted for and strsep yields a rule, parse it and subtract its
   * count from the size_t size (wrapping); stop at the first error. Returns
   * the remaining size and the last parse result. The subtraction is exact
   * when the count fits and taken modulo 2^64 when it does not.
   */
  function ConsumeRules(datap: Option<seq<byte>>, size: nat, rc: int, parse: RuleParser): (nat, int)
    requires size < SIZE_T_LIMIT
    decreases Walkable(datap)
  {
    if size > 0 && datap.Some? then
      var (p, rest) := StrSep(datap.value);
      var rc' := parse(p);
      if rc' < 0 then (size, rc')
      else ConsumeRules(rest, if rc' <= size then size - rc' else (size - rc') % SIZE_T_LIMIT, rc', parse)
    else (size, rc)
  }

  /** The bytes strsep can still walk: the rest and its terminator, or none once datap is NULL. */
  function Walkable(datap: Option<seq<byte>>): nat
  {
    if datap.Some? then |datap.value| + 1 else 0
  }

  /**
   * What ima_read_policy returns for a path, the file read from it, the
   * memory after the file's buffer and the rule parser. The buffer
   * kernel_read_file_from_path fills holds exactly the file and no NUL
   * after it, so strsep walks on into `beyond`, the bytes that follow the
   * buffer up to the first NUL.
   */
  function ReadPolicyResult(path: seq<byte>, file: FileRead, beyond: seq<byte>, parse: RuleParser): int
    requires file.FileData? ==> |file.data| <= INT_MAX
  {
    match file
    case ReadFailed(err) => err
    case FileData(data) =>
      var (size, rc) := ConsumeRules(Some(data + beyond), |data|, 0, parse);
      if rc < 0 then rc else if size != 0 then -EINVAL else |CString(path)|
  }

  /**
   * ima_read_policy: loads the rules of the file named by path (cut at its
   * first newline), one line at a time.
   */
  method ReadPolicy(path: seq<byte>, file: FileRead, beyond: seq<byte>, parse: RuleParser) returns (r: int)
    requires file.FileData? ==> |file.data| <= INT_MAX
    ensures r == ReadPolicyResult(path, file, beyond, parse)
  {
    var pathlen := |CString(path)|;
    if file.ReadFailed? {
      return file.err;
    }
    var size: nat := |file.data|;
    var rc := 0;
    var datap: Option<seq<byte>> := Some(file.data + beyond);
    ghost var total := ConsumeRules(datap, size, rc, parse);
    while size > 0 && datap.Some?
      invariant size < SIZE_T_LIMIT
      invariant ConsumeRules(datap, size, rc, parse) == total
      decreases Walkable(datap)
    {
      var split := StrSep(datap.value);
      datap := split.1;
      rc := parse(split.0);
      if rc < 0 {
        break;
      }
      size := if rc <= size then size - rc else (size - rc) % SIZE_T_LIMIT;
    }
    if rc < 0 {
      return rc;
    } else if size != 0 {
      return -EINVAL;
    }
    return pathlen;
  }

  /** A parser that accepts every rule and accounts for the rule and its newline. */
  ghost predicate CountsRuleAndNewline(parse: RuleParser)
  {
    forall t :: parse(t) == |t| + 1
  }

  /**
   * strsep on a string followed by more bytes: a newline inside the string
   * ends the rule there, and otherwise the rule runs on into what follows.
   */
  lemma StrSepAppend(s: seq<byte>, a: seq<byte>)
    requires 0 !in s
    ensures StrSep(s).1.Some? ==> StrSep(s + a) == (StrSep(s).0, Some(StrSep(s).1.value + a))
    ensures StrSep(s).1.None? ==> StrSep(s + a) == (s + StrSep(a).0, StrSep(a).1)
  {
    if StrSep(s).1.Some? {
      StrSepFound(s, a);
    } else {
      StrSepRunsOn(s, a);
    }
  }

  lemma {:induction false} StrSepFound(s: seq<byte>, a: seq<byte>)
    requires 0 !in s && StrSep(s).1.Some?
    ensures StrSep(s + a) == (StrSep(s).0, Some(StrSep(s).1.value + a))
    decreases |s|
  {
    assert s != [];
    assert (s + a)[1..] == s[1..] + a;
    if s[0] != NEWLINE {
      StrSepFound(s[1..], a);
    }
  }

  lemma {:induction false} StrSepRunsOn(s: seq<byte>, a: seq<byte>)
    requires 0 !in s && StrSep(s).1.None?
    ensures StrSep(s + a) == (s + StrSep(a).0, StrSep(a).1)
    decreases |s|
  {
    if s == [] {
      assert s + a == a && s + StrSep(a).0 == StrSep(a).0;
    } else {
      var t := s[1..];
      assert (s + a)[1..] == t + a;
      StrSepRunsOn(t, a);
      var rest := StrSep(t + a);
      assert StrSep(s + a) == ([s[0]] + rest.0, rest.1);
      assert [s[0]] + (t + StrSep(a).0) == s + StrSep(a).0;
    }
  }

  /** With such a parser every parse result, and so the last one, is positive. */
  lemma {:induction false} ConsumeRulesNonNegative(datap: Option<seq<byte>>, size: nat, rc: int, parse: RuleParser)
    requires size < SIZE_T_LIMIT && CountsRuleAndNewline(parse) && rc >= 0
    ensures ConsumeRules(datap, size, rc, parse).1 >= 0
    decreases Walkable(datap)
  {
    if size > 0 && datap.Some? {
      var (p, rest) := StrSep(datap.value);
      var used := parse(p);
      assert used == |p| + 1;
      ConsumeRulesNonNegative(rest, if used <= size then size - used else (size - used) % SIZE_T_LIMIT, used, parse);
    }
  }

  /** Subtracting a rule's length from the remaining size in size_t arithmetic, when it fits. */
  lemma SizeAfterRule(size: nat, used: nat, rest: nat)
    requires size == used + rest && size < SIZE_T_LIMIT
    ensures (size - used) % SIZE_T_LIMIT == rest
  {
  }

  /**
   * A file that is empty or ends with a newline is accounted for exactly:
   * the size reaches 0 at its last newline, before strsep leaves the buffer.
   */
  lemma {:induction false} ConsumeRulesTerminated(s: seq<byte>, beyond: seq<byte>, rc: int, parse: RuleParser)
    requires 0 !in s && (s == [] || s[|s| - 1] == NEWLINE)
    requires |s| < SIZE_T_LIMIT && CountsRuleAndNewline(parse)
    ensures ConsumeRules(Some(s + beyond), |s|, rc, parse).0 == 0
    decreases |s|
  {
    if s != [] {
      var split := StrSep(s);
      assert s[|s| - 1] == NEWLINE;
      assert split.1.Some?;
      var p, t := split.0, split.1.value;
      StrSepAppend(s, beyond);
      assert parse(p) == |p| + 1;
      SizeAfterRule(|s|, |p| + 1, |t|);
      if t != [] {
        assert s[|s| - 1] == t[|t| - 1];
      }
      ConsumeRulesTerminated(t, beyond, |p| + 1, parse);
    }
  }

  /** One strsep takes the rule and its separator from what is left to walk. */
  lemma StrSepWalk(v: seq<byte>)
    ensures |StrSep(v).0| + 1 + Walkable(StrSep(v).1) <= |v| + 1
  {
  }

  /** Subtracting more than the size left wraps it in size_t arithmetic. */
  lemma SizeWraps(size: nat, used: nat)
    requires size < used < size + SIZE_T_LIMIT
    ensures (size - used) % SIZE_T_LIMIT == SIZE_T_LIMIT - (used - size)
  {
  }

  /**
   * Once the size exceeds what strsep can still walk, later rules take
   * less than it holds, so it never comes back to 0.
   */
  lemma {:induction false} ConsumeRulesOverrun(datap: Option<seq<byte>>, size: nat, rc: int, parse: RuleParser)
    requires size < SIZE_T_LIMIT && CountsRuleAndNewline(parse)
    requires size > Walkable(datap)
    ensures ConsumeRules(datap, size, rc, parse).0 >= size - Walkable(datap)
    decreases Walkable(datap), 1
  {
    if datap.Some? {
      var split := StrSep(datap.value);
      StrSepWalk(datap.value);
      var used := parse(split.0);
      assert used == |split.0| + 1;
      ConsumeRulesFits(datap.value, size, rc, parse, split.0, split.1, used);
      OverrunStep(datap.value, size, rc, parse, split.1, used);
    }
  }

  /** One turn of ConsumeRulesOverrun, once the rule is known to fit. */
  lemma {:induction false} OverrunStep(v: seq<byte>, size: nat, rc: int, parse: RuleParser,
                                       rest: Option<seq<byte>>, used: nat)
    requires CountsRuleAndNewline(parse)
    requires |v| + 1 < size < SIZE_T_LIMIT && 0 < used && used + Walkable(rest) <= |v| + 1
    requires ConsumeRules(Some(v), size, rc, parse) == ConsumeRules(rest, size - used, used, parse)
    ensures ConsumeRules(Some(v), size, rc, parse).0 >= size - |v| - 1
    decreases |v| + 1, 0
  {
    ConsumeRulesOverrun(rest, size - used, used, parse);
  }

  /** A rule that fits in the size left takes exactly its own bytes from it. */
  lemma ConsumeRulesFits(v: seq<byte>, size: nat, rc: int, parse: RuleParser,
                         p: seq<byte>, rest: Option<seq<byte>>, used: int)
    requires StrSep(v) == (p, rest) && parse(p) == used && 0 <= used <= size < SIZE_T_LIMIT && 0 < size
    ensures ConsumeRules(Some(v), size, rc, parse) == ConsumeRules(rest, size - used, used, parse)
  {
    SizeAfterRule(size, used, size - used);
  }

  /**
   * A file whose last line has no newline: the last rule runs past the
   * buffer, takes more than the size left, and the size wraps and never
   * returns to 0, whatever the bytes after the buffer are.
   */
  lemma {:induction false} ConsumeRulesUnterminated(s: seq<byte>, beyond: seq<byte>, rc: int, parse: RuleParser)
    requires 0 !in s && s != [] && s[|s| - 1] != NEWLINE
    requires |s| + |beyond| + 1 < SIZE_T_LIMIT && CountsRuleAndNewline(parse)
    ensures ConsumeRules(Some(s + beyond), |s|, rc, parse).0 != 0
    decreases |s|
  {
    var split := StrSep(s);
    StrSepAppend(s, beyond);
    if split.1.Some? {
      var p, t := split.0, split.1.value;
      assert parse(p) == |p| + 1;
      SizeAfterRule(|s|, |p| + 1, |t|);
      assert s[|s| - 1] == t[|t| - 1];
      ConsumeRulesUnterminated(t, beyond, |p| + 1, parse);
    } else {
      LastRuleRunsOver(s, beyond, rc, parse);
    }
  }

  /** The last rule of a file without a final newline, when it is the only one left. */
  lemma LastRuleRunsOver(s: seq<byte>, beyond: seq<byte>, rc: int, parse: RuleParser)
    requires 0 !in s && s != [] && StrSep(s).1.None?
    requires |s| + |beyond| + 1 < SIZE_T_LIMIT && CountsRuleAndNewline(parse)
    ensures ConsumeRules(Some(s + beyond), |s|, rc, parse).0 != 0
  {
    StrSepRunsOn(s, beyond);
    var tail := StrSep(beyond);
    StrSepWalk(beyond);
    RunOverStep(s + beyond, |s|, rc, parse, s + tail.0, tail.1);
  }

  /** A rule longer than the size left: the size wraps, beyond what strsep can still walk. */
  lemma RunOverStep(v: seq<byte>, size: nat, rc: int, parse: RuleParser, p: seq<byte>, rest: Option<seq<byte>>)
    requires StrSep(v) == (p, rest) && CountsRuleAndNewline(parse)
    requires 0 < size < SIZE_T_LIMIT && size < |p| + 1 < size + SIZE_T_LIMIT
    requires SIZE_T_LIMIT - (|p| + 1 - size) > Walkable(rest)
    ensures ConsumeRules(Some(v), size, rc, parse).0 != 0
  {
    assert parse(p) == |p| + 1;
    ConsumeRulesWraps(v, size, rc, parse, p, rest, |p| + 1);
    ConsumeRulesOverrun(rest, SIZE_T_LIMIT - (|p| + 1 - size), |p| + 1, parse);
  }

  /** A rule that takes more than the size left wraps the size_t size around. */
  lemma ConsumeRulesWraps(v: seq<byte>, size: nat, rc: int, parse: RuleParser,
                          p: seq<byte>, rest: Option<seq<byte>>, used: int)
    requires StrSep(v) == (p, rest) && parse(p) == used && 0 < size < used < size + SIZE_T_LIMIT
    requires size < SIZE_T_LIMIT
    ensures ConsumeRules(Some(v), size, rc, parse) == ConsumeRules(rest, SIZE_T_LIMIT - (used - size), used, parse)
  {
    SizeWraps(size, used);
  }

  /**
   * Loading a policy file whose rules all parse: the write of its path
   * succeeds exactly when the file is empty or ends with a newline, and
   * fails with -EINVAL otherwise, whatever lies after the file's buffer.
   */
  lemma ReadPolicyNeedsFinalNewline(path: seq<byte>, data: seq<byte>, beyond: seq<byte>, parse: RuleParser)
    requires |data| <= INT_MAX && CountsRuleAndNewline(parse)
    requires 0 !in data && |data| + |beyond| + 1 < SIZE_T_LIMIT
    ensures data == [] || data[|data| - 1] == NEWLINE ==> ReadPolicyResult(path, FileData(data), beyond, parse) == |CString(path)|
    ensures data != [] && data[|data| - 1] != NEWLINE ==> ReadPolicyResult(path, FileData(data), beyond, parse) == -EINVAL
  {
    ConsumeRulesNonNegative(Some(data + beyond), |data|, 0, parse);
    if data == [] || data[|data| - 1] == NEWLINE {
      ConsumeRulesTerminated(data, beyond, 0, parse);
    } else {
      ConsumeRulesUnterminated(data, beyond, 0, parse);
    }
  }

  /** The number of bytes ima_write_policy copies: datalen, clamped to PAGE_SIZE - 1. */
  function WriteLength(datalen: nat): (r: nat)
    ensures r <= PAGE_SIZE - 1
    ensures datalen < PAGE_SIZE ==> r == datalen
    ensures datalen >= PAGE_SIZE ==> r == PAGE_SIZE - 1
  {
    if datalen >= PAGE_SIZE then PAGE_SIZE - 1 else datalen
  }

  /** The audit record of a rule refused because init_ima_ns requires signed policies. */
  const SIGNED_POLICY_AUDIT: PolicyAudit := PolicyAudit("signed policy required", 1, 0)

  /**
   * ima_write_policy: copies at most PAGE_SIZE - 1 bytes; a text starting
   * with '/' names a policy file to load, anything else is one rule, which
   * init_ima_ns refuses, with an audit record, when it requires signed
   * policies. Any error after the activity check marks the policy invalid.
   *
   * `userBuf` holds the bytes readable at the user pointer, `allocOk` the
   * outcome of the allocation, `lockErr` that of mutex_lock_interruptible;
   * `file` and `beyond` are what a policy file load reads.
   */
  method WritePolicy(ns: Namespace, isInitNs: bool, userBuf: seq<byte>, datalen: nat, ppos: int,
                     allocOk: bool, lockErr: int, appraisePolicy: bool,
                     file: FileRead, beyond: seq<byte>, parse: RuleParser)
    returns (result: int, audit: Option<PolicyAudit>)
    requires lockErr <= 0
    requires file.FileData? ==> |file.data| <= INT_MAX
    modifies ns`validPolicy
    ensures !NsIsActive(ns) ==> result == -EACCES && ns.validPolicy == old(ns.validPolicy)
    ensures NsIsActive(ns) && ppos != 0 ==> result == -EINVAL
    ensures NsIsActive(ns) && ppos == 0 && !allocOk ==> result == -ENOMEM
    ensures NsIsActive(ns) && ppos == 0 && allocOk && |userBuf| < WriteLength(datalen) ==> result == -EFAULT
    ensures NsIsActive(ns) && ppos == 0 && allocOk && |userBuf| >= WriteLength(datalen) ==>
              var data := CString(userBuf[..WriteLength(datalen)]);
              var signedRequired := lockErr == 0 && !(data != [] && data[0] == 47) && isInitNs && appraisePolicy;
              result == (if lockErr < 0 then lockErr
                         else if data != [] && data[0] == 47 then ReadPolicyResult(data, file, beyond, parse)
                         else if signedRequired then -EACCES
                         else parse(data)) &&
              audit == if signedRequired then Some(SIGNED_POLICY_AUDIT) else None
    ensures !(NsIsActive(ns) && ppos == 0 && allocOk && |userBuf| >= WriteLength(datalen)) ==> audit == None
    ensures NsIsActive(ns) ==> ns.validPolicy == if result < 0 then 0 else old(ns.validPolicy)
  {
    audit := None;
    if !NsIsActive(ns) {
      return -EACCES, None;
    }
    var len := if datalen >= PAGE_SIZE then PAGE_SIZE - 1 else datalen;

    result := -EINVAL;
    if ppos == 0 {
      if !allocOk {
        result := -ENOMEM;
      } else if |userBuf| < len {
        result := -EFAULT;
      } else {
        var data := CString(userBuf[..len]);
        result := lockErr;
        if lockErr >= 0 {
          if data != [] && data[0] == 47 {
            result := ReadPolicy(data, file, beyond, parse);
          } else if isInitNs && appraisePolicy {
            audit := Some(SIGNED_POLICY_AUDIT);
            result := -EACCES;
          } else {
            result := parse(data);
          }
        }
      }
    }
    if result < 0 {
      ns.validPolicy := 0;
    }
  }
}
