/**
 * check_PCR10.py: replays ascii_runtime_measurements as a SHA-1 PCR hash
 * chain and compares the running value with the PCR 10 value given on the
 * command line, extending a per-namespace virtual PCR on the way.
 *
 * The log text is the bytes of the file. The script opens it in text mode
 * as UTF-8, so "\r\n" and a lone "\r" reach it as "\n" (TranslateNewlines).
 * Every byte of a multi-byte UTF-8 character is at least 0x80, so the
 * ASCII separators below fall between characters, never inside one. SHA-1
 * is the function parameter H. The command line is the sequence argv.
 */
module CheckPcr10 {
  import opened Bytes
  import opened Ima
  import opened ImaQueue
  import opened ImaFs

  // ---------------------------------------------------------------------
  // Python text handling

  /** str.isspace on an ASCII character: \t \n \v \f \r, the separators \x1c-\x1f, and space. */
  predicate IsSpace(c: byte)
  {
    9 <= c <= 13 || 28 <= c <= 31 || c == 32
  }

  predicate SpaceFree(w: seq<byte>)
  {
    forall i :: 0 <= i < |w| ==> !IsSpace(w[i])
  }

  predicate AllSpace(s: seq<byte>)
  {
    forall i :: 0 <= i < |s| ==> IsSpace(s[i])
  }

  /** The number of whitespace bytes at the start. */
  function LeadingSpaces(s: seq<byte>): (n: nat)
    ensures n <= |s|
  {
    if s != [] && IsSpace(s[0]) then 1 + LeadingSpaces(s[1..]) else 0
  }

  lemma {:induction false} LeadingSpacesAt(s: seq<byte>)
    ensures forall i :: 0 <= i < LeadingSpaces(s) ==> IsSpace(s[i])
    ensures LeadingSpaces(s) < |s| ==> !IsSpace(s[LeadingSpaces(s)])
  {
    if s != [] && IsSpace(s[0]) {
      LeadingSpacesAt(s[1..]);
      forall i | 1 <= i < LeadingSpaces(s) ensures IsSpace(s[i]) {
        assert s[i] == s[1..][i - 1];
      }
    }
  }

  /** The number of whitespace bytes at the end. */
  function TrailingSpaces(s: seq<byte>): (n: nat)
    ensures n <= |s|
  {
    if s != [] && IsSpace(s[|s| - 1]) then 1 + TrailingSpaces(s[..|s| - 1]) else 0
  }

  lemma {:induction false} TrailingSpacesAt(s: seq<byte>)
    ensures forall i :: |s| - TrailingSpaces(s) <= i < |s| ==> IsSpace(s[i])
    ensures TrailingSpaces(s) < |s| ==> !IsSpace(s[|s| - 1 - TrailingSpaces(s)])
  {
    if s != [] && IsSpace(s[|s| - 1]) {
      var init := s[..|s| - 1];
      TrailingSpacesAt(init);
      forall i | |s| - TrailingSpaces(s) <= i < |s| - 1 ensures IsSpace(s[i]) {
        assert s[i] == init[i];
      }
    }
  }

  /** str.lstrip(): the text without its leading whitespace. */
  function StripLeft(s: seq<byte>): seq<byte>
  {
    s[LeadingSpaces(s)..]
  }

  /** str.rstrip(): the text without its trailing whitespace. */
  function StripRight(s: seq<byte>): seq<byte>
  {
    s[..|s| - TrailingSpaces(s)]
  }

  /** str.strip(). */
  function Strip(s: seq<byte>): seq<byte>
  {
    StripRight(StripLeft(s))
  }

  /** lstrip() leaves nothing exactly of an all-whitespace text, and otherwise starts at a non-whitespace byte. */
  lemma StripLeftEmpty(s: seq<byte>)
    ensures StripLeft(s) == [] <==> AllSpace(s)
    ensures StripLeft(s) != [] ==> !IsSpace(StripLeft(s)[0])
  {
    LeadingSpacesAt(s);
    var n := LeadingSpaces(s);
    if n < |s| {
      assert StripLeft(s)[0] == s[n];
    }
  }

  /** rstrip() leaves nothing exactly of an all-whitespace text. */
  lemma StripRightEmpty(s: seq<byte>)
    ensures StripRight(s) == [] <==> AllSpace(s)
  {
    TrailingSpacesAt(s);
  }

  /** A line strips to nothing exactly when it is all whitespace. */
  lemma StripEmpty(s: seq<byte>)
    ensures Strip(s) == [] <==> AllSpace(s)
  {
    var l := StripLeft(s);
    StripLeftEmpty(s);
    StripRightEmpty(l);
    if l != [] {
      assert !AllSpace(l) by {
        assert !IsSpace(l[0]);
      }
    }
  }

  /** The longest prefix free of whitespace. */
  function WordPrefix(s: seq<byte>): (w: seq<byte>)
    ensures |w| <= |s| && w == s[..|w|] && SpaceFree(w)
    ensures |w| < |s| ==> IsSpace(s[|w|])
    ensures s != [] && !IsSpace(s[0]) ==> w != []
  {
    if s == [] || IsSpace(s[0]) then [] else [s[0]] + WordPrefix(s[1..])
  }

  /** str.split() with no separator: the maximal runs of non-whitespace, in order. */
  function Words(s: seq<byte>): (ws: seq<seq<byte>>)
    decreases |s|
  {
    if s == [] then []
    else if IsSpace(s[0]) then Words(s[1..])
    else
      var w := WordPrefix(s);
      [w] + Words(s[|w|..])
  }

  predicate ValidWords(ws: seq<seq<byte>>)
  {
    forall k :: 0 <= k < |ws| ==> ws[k] != [] && SpaceFree(ws[k])
  }

  /** Every token str.split() yields is non-empty and free of whitespace. */
  lemma {:induction false} WordsValid(s: seq<byte>)
    ensures ValidWords(Words(s))
    decreases |s|
  {
    if s != [] {
      if IsSpace(s[0]) {
        WordsValid(s[1..]);
      } else {
        var w := WordPrefix(s);
        WordsValid(s[|w|..]);
        var ws := Words(s);
        assert ws == [w] + Words(s[|w|..]);
        forall k | 1 <= k < |ws| ensures ws[k] == Words(s[|w|..])[k - 1] {
        }
      }
    }
  }

  lemma {:induction false} WordPrefixAppend(x: seq<byte>, c: byte, y: seq<byte>)
    requires IsSpace(c)
    ensures WordPrefix(x + [c] + y) == WordPrefix(x)
  {
    if x != [] && !IsSpace(x[0]) {
      assert (x + [c] + y)[1..] == x[1..] + [c] + y;
      WordPrefixAppend(x[1..], c, y);
    }
  }

  /** Whitespace between two texts separates their tokens: split() of the whole is the two splits joined. */
  lemma {:induction false} WordsAppend(x: seq<byte>, c: byte, y: seq<byte>)
    requires IsSpace(c)
    ensures Words(x + [c] + y) == Words(x) + Words(y)
    decreases |x|
  {
    var s := x + [c] + y;
    if x == [] {
      assert s[1..] == y;
    } else if IsSpace(x[0]) {
      assert s[1..] == x[1..] + [c] + y;
      WordsAppend(x[1..], c, y);
    } else {
      var w := WordPrefix(x);
      WordPrefixAppend(x, c, y);
      assert s[|w|..] == x[|w|..] + [c] + y;
      WordsAppend(x[|w|..], c, y);
    }
  }

  lemma {:induction false} WordsAllSpace(s: seq<byte>)
    requires AllSpace(s)
    ensures Words(s) == []
  {
    if s != [] {
      WordsAllSpace(s[1..]);
    }
  }

  /** A non-empty text without whitespace is one token. */
  lemma WordsSingle(w: seq<byte>)
    requires w != [] && SpaceFree(w)
    ensures Words(w) == [w]
  {
    WordPrefixWhole(w);
    assert w[|w|..] == [];
  }

  lemma {:induction false} WordPrefixWhole(w: seq<byte>)
    requires SpaceFree(w)
    ensures WordPrefix(w) == w
  {
    if w != [] {
      WordPrefixWhole(w[1..]);
    }
  }

  /** Stripping a line does not change its tokens. */
  lemma WordsStrip(s: seq<byte>)
    ensures Words(Strip(s)) == Words(s)
  {
    WordsStripLeft(s);
    WordsStripRight(StripLeft(s));
  }

  lemma {:induction false} WordsStripLeft(s: seq<byte>)
    ensures Words(StripLeft(s)) == Words(s)
  {
    if s != [] && IsSpace(s[0]) {
      WordsStripLeft(s[1..]);
      assert StripLeft(s) == StripLeft(s[1..]);
    }
  }

  lemma WordsStripRight(s: seq<byte>)
    ensures Words(StripRight(s)) == Words(s)
  {
    var r := StripRight(s);
    var tail := s[|r|..];
    TrailingSpacesAt(s);
    if tail != [] {
      assert s == r + [tail[0]] + tail[1..];
      assert IsSpace(tail[0]);
      assert AllSpace(tail[1..]) by {
        forall i | 0 <= i < |tail| - 1 ensures IsSpace(tail[1..][i]) {
          assert tail[1..][i] == s[|r| + 1 + i];
        }
      }
      WordsAppend(r, tail[0], tail[1..]);
      WordsAllSpace(tail[1..]);
      assert Words(s) == Words(r) + [];
    } else {
      assert r == s;
    }
  }

  /** " ".join(ws). */
  function JoinSpace(ws: seq<seq<byte>>): seq<byte>
  {
    if ws == [] then []
    else if |ws| == 1 then ws[0]
    else ws[0] + [SPACE] + JoinSpace(ws[1..])
  }

  /** split() undoes " ".join() of valid tokens. */
  lemma {:induction false} WordsJoinSpace(ws: seq<seq<byte>>)
    requires ValidWords(ws)
    ensures Words(JoinSpace(ws)) == ws
  {
    if ws != [] {
      WordsSingle(ws[0]);
      if |ws| > 1 {
        WordsJoinSpace(ws[1..]);
        WordsAppend(ws[0], SPACE, JoinSpace(ws[1..]));
      }
    }
  }

  const CARRIAGE_RETURN: byte := 13

  /** Universal newlines of a text-mode read: "\r\n" and a lone "\r" both become "\n". */
  function TranslateNewlines(s: seq<byte>): (r: seq<byte>)
    ensures CARRIAGE_RETURN !in r
    decreases |s|
  {
    if s == [] then []
    else if s[0] == CARRIAGE_RETURN then
      [NEWLINE] + TranslateNewlines(if |s| > 1 && s[1] == NEWLINE then s[2..] else s[1..])
    else [s[0]] + TranslateNewlines(s[1..])
  }

  /** Text without a carriage return passes the translation unchanged. */
  lemma {:induction false} TranslateNewlinesKeeps(s: seq<byte>, rest: seq<byte>)
    requires CARRIAGE_RETURN !in s
    ensures TranslateNewlines(s + rest) == s + TranslateNewlines(rest)
    decreases |s|
  {
    if s != [] {
      assert (s + rest)[1..] == s[1..] + rest;
      TranslateNewlinesKeeps(s[1..], rest);
      assert [s[0]] + (s[1..] + TranslateNewlines(rest)) == s + TranslateNewlines(rest);
    } else {
      assert s + rest == rest;
    }
  }

  /** A carriage return ends a line, alone or before a newline. */
  lemma CarriageReturnEndsLine(line: seq<byte>, lf: bool, rest: seq<byte>)
    requires NEWLINE !in line && CARRIAGE_RETURN !in line
    requires !lf ==> rest == [] || rest[0] != NEWLINE
    ensures var cr := if lf then [CARRIAGE_RETURN, NEWLINE] else [CARRIAGE_RETURN];
            SplitLines(TranslateNewlines(line + cr + rest)) == [line] + SplitLines(TranslateNewlines(rest))
  {
    var cr: seq<byte> := if lf then [CARRIAGE_RETURN, NEWLINE] else [CARRIAGE_RETURN];
    TranslateNewlinesKeeps(line, cr + rest);
    assert line + cr + rest == line + (cr + rest);
    TranslateCarriageReturn(lf, rest);
    assert line + ([NEWLINE] + TranslateNewlines(rest)) == line + [NEWLINE] + TranslateNewlines(rest);
    SplitLinesAppend(line, TranslateNewlines(rest));
  }

  /** "\r\n", or a "\r" not followed by "\n", reads as one newline. */
  lemma TranslateCarriageReturn(lf: bool, rest: seq<byte>)
    requires !lf ==> rest == [] || rest[0] != NEWLINE
    ensures var cr := if lf then [CARRIAGE_RETURN, NEWLINE] else [CARRIAGE_RETURN];
            TranslateNewlines(cr + rest) == [NEWLINE] + TranslateNewlines(rest)
  {
    var cr: seq<byte> := if lf then [CARRIAGE_RETURN, NEWLINE] else [CARRIAGE_RETURN];
    if lf {
      assert (cr + rest)[2..] == rest;
    } else {
      assert (cr + rest)[1..] == rest;
    }
  }

  /** str.split("\n"): the pieces between newlines, including an empty last piece after a final newline. */
  function SplitLines(s: seq<byte>): (r: seq<seq<byte>>)
    ensures |r| >= 1
    ensures forall k :: 0 <= k < |r| ==> NEWLINE !in r[k]
  {
    if s == [] then [[]]
    else
      var rest := SplitLines(s[1..]);
      if s[0] == NEWLINE then [[]] + rest
      else
        assert NEWLINE !in [s[0]] + rest[0];
        [[s[0]] + rest[0]] + rest[1..]
  }

  /** "\n".join(lines). */
  function JoinLines(ls: seq<seq<byte>>): seq<byte>
  {
    if ls == [] then []
    else if |ls| == 1 then ls[0]
    else ls[0] + [NEWLINE] + JoinLines(ls[1..])
  }

  /** Joining the pieces with newlines gives the text back. */
  lemma {:induction false} JoinSplitLines(s: seq<byte>)
    ensures JoinLines(SplitLines(s)) == s
  {
    if s != [] {
      var rest := SplitLines(s[1..]);
      JoinSplitLines(s[1..]);
      if s[0] != NEWLINE {
        if |rest| == 1 {
          assert s == [s[0]] + rest[0];
        } else {
          assert rest == [rest[0]] + rest[1..];
          assert JoinLines(rest) == rest[0] + [NEWLINE] + JoinLines(rest[1..]);
          assert s == [s[0]] + rest[0] + [NEWLINE] + JoinLines(rest[1..]);
        }
      }
    }
  }

  /** A newline-free line followed by a newline is the first piece. */
  lemma {:induction false} SplitLinesAppend(line: seq<byte>, rest: seq<byte>)
    requires NEWLINE !in line
    ensures SplitLines(line + [NEWLINE] + rest) == [line] + SplitLines(rest)
  {
    var s := line + [NEWLINE] + rest;
    if line == [] {
      assert s[1..] == rest;
    } else {
      assert s[1..] == line[1..] + [NEWLINE] + rest;
      SplitLinesAppend(line[1..], rest);
      assert [line[0]] + line[1..] == line;
    }
  }

  // ---------------------------------------------------------------------
  // The replay

  /** SHA-1, the hash the script extends with (Hash.compute_hash for 'sha1'). */
  type Hasher = seq<byte> -> seq<byte>

  /** START_HASH: twenty zero bytes, the reset value of a SHA-1 PCR. */
  const START_HASH: seq<byte> := Repeat(0, SHA1_DIGEST_SIZE)
  /** FF_HASH: twenty 0xff bytes, the value a violation extends with. */
  const FF_HASH: seq<byte> := Repeat(0xff, SHA1_DIGEST_SIZE)
  /** "ima-dig-imaid", the template whose lines also carry a namespace digest and id. */
  const IMA_DIG_IMAID: seq<byte> := [105, 109, 97, 45, 100, 105, 103, 45, 105, 109, 97, 105, 100]

  /** What one line of the log contributes. */
  datatype LineResult =
    | Blank                                                  // skipped
    | Short                                                  // fewer than five tokens: sys.exit(-1)
    | BadHex                                                 // codecs.decode raises
    | Accepted(templateHash: seq<byte>, vpcrDigest: Option<seq<byte>>)

  /** How a run ends. */
  datatype Outcome =
    | Usage                                                  // wrong argument count: exit status 1
    | Aborted                                                // a short line: sys.exit(-1)
    | Crashed                                                // an uncaught decoding error
    | Validated(runningHash: seq<byte>, vpcr: seq<byte>)     // "PCR 10 validated correctly!"
    | Mismatch(runningHash: seq<byte>, vpcr: seq<byte>)      // "PCR 10 does NOT match!" and the hash

  /** The exit status of a run (sys.exit(-1) is 255 to the shell). */
  function ExitStatus(o: Outcome): (status: nat)
    ensures status == 0 <==> o.Validated? || o.Mismatch?
  {
    match o
    case Usage => 1
    case Aborted => 255
    case Crashed => 1
    case _ => 0
  }

  /** The hash a line extends with: a zero template hash is replaced by FF_HASH. */
  function ExtendValue(h: seq<byte>): (r: seq<byte>)
    ensures r != START_HASH
    ensures h != START_HASH ==> r == h
  {
    if h == START_HASH then
      assert FF_HASH[0] != START_HASH[0];
      FF_HASH
    else h
  }

  /**
   * The loop body on one line: strip, skip if blank, split, require five
   * tokens, decode the template hash, and for an ima-dig-imaid line of the
   * namespace decode the digest before the id.
   */
  function ParseLine(line: seq<byte>, nsId: seq<byte>): LineResult
  {
    var stripped := Strip(line);
    if stripped == [] then Blank
    else ParseTokens(Words(stripped), nsId)
  }

  /**
   * A line is skipped exactly when it is all whitespace, ends the run when
   * it has fewer than five tokens, and otherwise extends with its second
   * token decoded (zeros replaced); its vPCR digest is used exactly for an
   * ima-dig-imaid line whose last token is the namespace id.
   */
  lemma ParseLineCases(line: seq<byte>, nsId: seq<byte>)
    ensures ParseLine(line, nsId) == Blank <==> AllSpace(line)
    ensures ParseLine(line, nsId) == Short <==> !AllSpace(line) && |Words(line)| < 5
    ensures ParseLine(line, nsId).Accepted? ==>
              (|Words(line)| >= 5 && Unhex(Words(line)[1]).Some? &&
               ParseLine(line, nsId).templateHash == ExtendValue(Unhex(Words(line)[1]).value))
    ensures ParseLine(line, nsId).Accepted? ==>
              (ParseLine(line, nsId).vpcrDigest.Some? <==>
               Words(line)[2] == IMA_DIG_IMAID && Words(line)[|Words(line)| - 1] == nsId)
  {
    StripEmpty(line);
    WordsStrip(line);
  }

  function ParseTokens(tokens: seq<seq<byte>>, nsId: seq<byte>): (r: LineResult)
    ensures r != Blank
    ensures r == Short <==> |tokens| < 5
    ensures r.Accepted? ==> (|tokens| >= 5 && Unhex(tokens[1]).Some? &&
              r.templateHash == ExtendValue(Unhex(tokens[1]).value))
    ensures r.Accepted? ==>
              (r.vpcrDigest.Some? <==> tokens[2] == IMA_DIG_IMAID && tokens[|tokens| - 1] == nsId)
    ensures r == BadHex ==> (|tokens| >= 5 && (Unhex(tokens[1]).None? || tokens[2] == IMA_DIG_IMAID))
  {
    if |tokens| < 5 then Short
    else
      match Unhex(tokens[1])
      case None => BadHex
      case Some(h) =>
        if tokens[2] == IMA_DIG_IMAID && tokens[|tokens| - 1] == nsId then
          match Unhex(tokens[|tokens| - 2])
          case None => BadHex
          case Some(v) => Accepted(ExtendValue(h), Some(v))
        else Accepted(ExtendValue(h), None)
  }

  /** The running value matches the argument: both in lower case. */
  predicate Matches(running: seq<byte>, pcrVal: seq<byte>)
  {
    LowerAscii(HexLower(running)) == LowerAscii(pcrVal)
  }

  /** What each line of the log contributes, in order. */
  function ParseLines(lines: seq<seq<byte>>, parse: LineParser): (rs: seq<LineResult>)
    ensures |rs| == |lines|
  {
    if lines == [] then [] else [parse(lines[0])] + ParseLines(lines[1..], parse)
  }

  lemma {:induction false} ParseLinesAt(lines: seq<seq<byte>>, parse: LineParser, i: nat)
    requires i < |lines|
    ensures ParseLines(lines, parse)[i] == parse(lines[i])
  {
    if i > 0 {
      ParseLinesAt(lines[1..], parse, i - 1);
    }
  }

  /** How the script reads one line, for the given namespace id. */
  type LineParser = seq<byte> -> LineResult

  function ParserFor(nsId: seq<byte>): LineParser
  {
    line => ParseLine(line, nsId)
  }

  /** The for-loop over the parsed lines from a given running hash and vPCR. */
  function Run(rs: seq<LineResult>, pcrVal: seq<byte>, H: Hasher, running: seq<byte>, vpcr: seq<byte>): Outcome
    decreases |rs|
  {
    if rs == [] then Mismatch(running, vpcr)
    else
      match rs[0]
      case Blank => Run(rs[1..], pcrVal, H, running, vpcr)
      case Short => Aborted
      case BadHex => Crashed
      case Accepted(th, v) =>
        var vpcr' := if v.Some? then H(vpcr + v.value) else vpcr;
        var running' := H(running + th);
        if Matches(running', pcrVal) then Validated(running', vpcr')
        else Run(rs[1..], pcrVal, H, running', vpcr')
  }

  /** A whole run: the argument check, then the loop from the zero hash over the lines of the log. */
  function ReplaySpec(argv: seq<seq<byte>>, logText: seq<byte>, H: Hasher): Outcome
  {
    if |argv| != 3 then Usage
    else Run(ParseLines(SplitLines(TranslateNewlines(logText)), ParserFor(argv[2])), argv[1], H, START_HASH, START_HASH)
  }

  /**
   * The script's main block: the argument check, then the loop over the
   * lines of the log.
   */
  method Replay(argv: seq<seq<byte>>, logText: seq<byte>, H: Hasher) returns (outcome: Outcome)
    ensures outcome == ReplaySpec(argv, logText, H)
    ensures |argv| != 3 ==> outcome == Usage
  {
    if |argv| != 3 {
      return Usage;
    }
    var lines := SplitLines(TranslateNewlines(logText));
    outcome := ReplayLines(lines, argv[1], argv[2], H);
  }

  /** The for-loop over the lines, with the early stop at a match. */
  method ReplayLines(lines: seq<seq<byte>>, pcrVal: seq<byte>, nsId: seq<byte>, H: Hasher) returns (outcome: Outcome)
    ensures outcome == Run(ParseLines(lines, ParserFor(nsId)), pcrVal, H, START_HASH, START_HASH)
  {
    var running, vpcr := START_HASH, START_HASH;
    ghost var rs := ParseLines(lines, ParserFor(nsId));
    ghost var total := Run(rs, pcrVal, H, running, vpcr);
    var i := 0;
    while i < |lines|
      invariant 0 <= i <= |lines|
      invariant Run(rs[i..], pcrVal, H, running, vpcr) == total
    {
      ghost var rest := rs[i..];
      assert rest[0] == rs[i] && rest[1..] == rs[i + 1..];
      var r := ReadLine(lines[i], nsId);
      ParseLinesAt(lines, ParserFor(nsId), i);
      if r.Short? {
        return Aborted;
      } else if r.BadHex? {
        return Crashed;
      } else if r.Accepted? {
        var found;
        running, vpcr, found := ExtendBoth(running, vpcr, r, pcrVal, H);
        if found {
          return Validated(running, vpcr);
        }
      }
      i := i + 1;
    }
    return Mismatch(running, vpcr);
  }

  /** One accepted line: extend the vPCR (for the namespace's lines) and the running hash, then compare. */
  method ExtendBoth(running: seq<byte>, vpcr: seq<byte>, r: LineResult, pcrVal: seq<byte>, H: Hasher)
    returns (running': seq<byte>, vpcr': seq<byte>, found: bool)
    requires r.Accepted?
    ensures vpcr' == if r.vpcrDigest.Some? then H(vpcr + r.vpcrDigest.value) else vpcr
    ensures running' == H(running + r.templateHash)
    ensures found == Matches(running', pcrVal)
  {
    vpcr' := vpcr;
    if r.vpcrDigest.Some? {
      vpcr' := H(vpcr + r.vpcrDigest.value);
    }
    running' := H(running + r.templateHash);
    found := LowerAscii(HexLower(running')) == LowerAscii(pcrVal);
  }

  /**
   * The body of the loop up to the extends: strip, skip a blank line, split,
   * check the token count, decode the template hash (zeros become 0xff) and,
   * for an ima-dig-imaid line of the namespace, the digest before the id.
   */
  method ReadLine(rawLine: seq<byte>, nsId: seq<byte>) returns (r: LineResult)
    ensures r == ParseLine(rawLine, nsId)
  {
    var line := Strip(rawLine);
    if line == [] {
      return Blank;
    }
    r := ReadTokens(Words(line), nsId);
  }

  /** The token checks of the loop body, once the line is split. */
  method ReadTokens(tokens: seq<seq<byte>>, nsId: seq<byte>) returns (r: LineResult)
    ensures r == ParseTokens(tokens, nsId)
  {
    if |tokens| < 5 {
      return Short;
    }
    var decoded := Unhex(tokens[1]);
    if decoded.None? {
      return BadHex;
    }
    var templateHash := decoded.value;
    if templateHash == START_HASH {
      templateHash := FF_HASH;
    }
    var digest := None;
    if tokens[2] == IMA_DIG_IMAID && tokens[|tokens| - 1] == nsId {
      var v := Unhex(tokens[|tokens| - 2]);
      if v.None? {
        return BadHex;
      }
      digest := v;
    }
    r := Accepted(templateHash, digest);
  }

  // ---------------------------------------------------------------------
  // What the replay computes

  /** Extending a SHA-1 PCR with a sequence of values, oldest first. */
  function Chain(H: Hasher, start: seq<byte>, values: seq<seq<byte>>): seq<byte>
    decreases |values|
  {
    if values == [] then start else Chain(H, H(start + values[0]), values[1..])
  }

  lemma {:induction false} ChainSnoc(H: Hasher, start: seq<byte>, values: seq<seq<byte>>, v: seq<byte>)
    ensures Chain(H, start, values + [v]) == H(Chain(H, start, values) + v)
    decreases |values|
  {
    if values != [] {
      assert (values + [v])[1..] == values[1..] + [v];
      ChainSnoc(H, H(start + values[0]), values[1..], v);
    } else {
      assert values + [v] == [v];
    }
  }

  /** The template hashes the accepted lines extend the running hash with, in order. */
  function ExtendedHashes(rs: seq<LineResult>): seq<seq<byte>>
  {
    if rs == [] then []
    else ExtendedHashes(rs[..|rs| - 1]) + (if rs[|rs| - 1].Accepted? then [rs[|rs| - 1].templateHash] else [])
  }

  /** The namespace digests the accepted lines extend the vPCR with, in order. */
  function VpcrDigests(rs: seq<LineResult>): seq<seq<byte>>
  {
    if rs == [] then []
    else
      VpcrDigests(rs[..|rs| - 1]) +
      (if rs[|rs| - 1].Accepted? && rs[|rs| - 1].vpcrDigest.Some? then [rs[|rs| - 1].vpcrDigest.value] else [])
  }

  /** Every line of the first n is blank or accepted. */
  predicate Clean(rs: seq<LineResult>, n: nat)
    requires n <= |rs|
  {
    forall j :: 0 <= j < n ==> rs[j].Blank? || rs[j].Accepted?
  }

  /** No accepted line among the first n leaves a running hash that matches. */
  predicate NoMatchBefore(rs: seq<LineResult>, n: nat, pcrVal: seq<byte>, H: Hasher, start: seq<byte>)
    requires n <= |rs|
  {
    forall j :: 0 <= j < n && rs[j].Accepted? ==> !Matches(Chain(H, start, ExtendedHashes(rs[..j + 1])), pcrVal)
  }

  /**
   * Over a clean prefix without a match, the loop has extended the running
   * hash with exactly the prefix's template hashes, and the vPCR with its
   * namespace digests.
   */
  lemma {:induction false} RunPrefix(rs: seq<LineResult>, k: nat, pcrVal: seq<byte>, H: Hasher,
                                     running: seq<byte>, vpcr: seq<byte>)
    requires k <= |rs| && Clean(rs, k) && NoMatchBefore(rs, k, pcrVal, H, running)
    ensures Run(rs, pcrVal, H, running, vpcr) ==
              Run(rs[k..], pcrVal, H, Chain(H, running, ExtendedHashes(rs[..k])), Chain(H, vpcr, VpcrDigests(rs[..k])))
  {
    if k == 0 {
      assert rs[..0] == [] && rs[0..] == rs;
    } else {
      var j := k - 1;
      RunPrefix(rs, j, pcrVal, H, running, vpcr);
      var e, v := ExtendedHashes(rs[..j]), VpcrDigests(rs[..j]);
      assert rs[..k][..j] == rs[..j] && rs[..k][j] == rs[j];
      var rest := rs[j..];
      assert rest[0] == rs[j] && rest[1..] == rs[k..];
      match rs[j]
      case Blank =>
        assert ExtendedHashes(rs[..k]) == e + [] == e;
        assert VpcrDigests(rs[..k]) == v + [] == v;
      case Accepted(th, d) =>
        assert ExtendedHashes(rs[..k]) == e + [th];
        ChainSnoc(H, running, e, th);
        if d.Some? {
          assert VpcrDigests(rs[..k]) == v + [d.value];
          ChainSnoc(H, vpcr, v, d.value);
        } else {
          assert VpcrDigests(rs[..k]) == v + [] == v;
        }
    }
  }

  /**
   * The loop stops at the first line after which the running hash matches:
   * it reports the chain over the template hashes up to and including that
   * line.
   */
  lemma StopsAtFirstMatch(rs: seq<LineResult>, k: nat, pcrVal: seq<byte>, H: Hasher, running: seq<byte>, vpcr: seq<byte>)
    requires k < |rs| && Clean(rs, k) && rs[k].Accepted? && NoMatchBefore(rs, k, pcrVal, H, running)
    requires Matches(Chain(H, running, ExtendedHashes(rs[..k + 1])), pcrVal)
    ensures Run(rs, pcrVal, H, running, vpcr) ==
              Validated(Chain(H, running, ExtendedHashes(rs[..k + 1])), Chain(H, vpcr, VpcrDigests(rs[..k + 1])))
  {
    RunPrefix(rs, k, pcrVal, H, running, vpcr);
    var e, v := ExtendedHashes(rs[..k]), VpcrDigests(rs[..k]);
    assert rs[..k + 1][..k] == rs[..k] && rs[..k + 1][k] == rs[k];
    var rest := rs[k..];
    assert rest[0] == rs[k];
    var th, d := rs[k].templateHash, rs[k].vpcrDigest;
    assert ExtendedHashes(rs[..k + 1]) == e + [th];
    ChainSnoc(H, running, e, th);
    if d.Some? {
      assert VpcrDigests(rs[..k + 1]) == v + [d.value];
      ChainSnoc(H, vpcr, v, d.value);
    } else {
      assert VpcrDigests(rs[..k + 1]) == v + [] == v;
    }
  }

  /**
   * A clean log in which no line matches is read to the end: the result is
   * a mismatch carrying the chain over all the template hashes, and the
   * vPCR is the chain over the namespace's digests.
   */
  lemma ReadsToEnd(rs: seq<LineResult>, pcrVal: seq<byte>, H: Hasher, running: seq<byte>, vpcr: seq<byte>)
    requires Clean(rs, |rs|) && NoMatchBefore(rs, |rs|, pcrVal, H, running)
    ensures Run(rs, pcrVal, H, running, vpcr) ==
              Mismatch(Chain(H, running, ExtendedHashes(rs)), Chain(H, vpcr, VpcrDigests(rs)))
  {
    RunPrefix(rs, |rs|, pcrVal, H, running, vpcr);
    assert rs[..|rs|] == rs && rs[|rs|..] == [];
  }

  /** A line with too few tokens or a bad hex token ends the run once reached. */
  lemma StopsAtBadLine(rs: seq<LineResult>, k: nat, pcrVal: seq<byte>, H: Hasher, running: seq<byte>, vpcr: seq<byte>)
    requires k < |rs| && Clean(rs, k) && NoMatchBefore(rs, k, pcrVal, H, running)
    requires rs[k].Short? || rs[k].BadHex?
    ensures Run(rs, pcrVal, H, running, vpcr) == if rs[k].Short? then Aborted else Crashed
  {
    RunPrefix(rs, k, pcrVal, H, running, vpcr);
    assert rs[k..][0] == rs[k];
  }

  /** A reported validation always matches the argument. */
  lemma {:induction false} ValidatedMatches(rs: seq<LineResult>, pcrVal: seq<byte>, H: Hasher, running: seq<byte>, vpcr: seq<byte>)
    ensures Run(rs, pcrVal, H, running, vpcr).Validated? ==> Matches(Run(rs, pcrVal, H, running, vpcr).runningHash, pcrVal)
    decreases |rs|
  {
    if rs != [] {
      match rs[0]
      case Blank =>
        ValidatedMatches(rs[1..], pcrVal, H, running, vpcr);
      case Short =>
      case BadHex =>
      case Accepted(th, d) =>
        var vpcr' := if d.Some? then H(vpcr + d.value) else vpcr;
        ValidatedMatches(rs[1..], pcrVal, H, H(running + th), vpcr');
    }
  }

  // ---------------------------------------------------------------------
  // The kernel's ASCII list as the script reads it

  /** A violation replays as the kernel extends it: the zero digest becomes the SHA-1 bank's poison value. */
  lemma ViolationReplaysAsPoison(b: TpmBank)
    requires PoisonWidth(b) == SHA1_DIGEST_SIZE
    ensures PoisonDigest(b).digest[..SHA1_DIGEST_SIZE] == ExtendValue(START_HASH)
  {
    var d := PoisonDigest(b).digest[..SHA1_DIGEST_SIZE];
    assert forall j :: 0 <= j < SHA1_DIGEST_SIZE ==> d[j] == FF_HASH[j];
  }

  lemma HexLowerSpaceFree(d: seq<byte>)
    ensures SpaceFree(HexLower(d))
  {
    HexLowerLength(d);
    var t := HexLower(d);
    forall k | 0 <= k < |t| ensures !IsSpace(t[k]) {
      HexLowerAt(d, k / 2);
      assert k == 2 * (k / 2) || k == 2 * (k / 2) + 1;
    }
  }

  /** The pcr column is a single token. */
  lemma WordsFormatPcr(pcr: int)
    ensures |Words(FormatPcr(pcr))| == 1
  {
    var s := if pcr < 0 then [45] + Decimal(-pcr) else Decimal(pcr);
    assert SpaceFree(s) by {
      forall k | 0 <= k < |s| ensures !IsSpace(s[k]) {
        if pcr < 0 && k > 0 {
          assert s[k] == Decimal(-pcr)[k - 1];
        }
      }
    }
    WordsSingle(s);
    if |s| < 2 {
      WordsAppend([], SPACE, s);
      assert [] + [SPACE] + s == FormatPcr(pcr);
    }
  }

  /** The template name and the fields: the name is the first token. */
  lemma WordsNameFields(name: seq<byte>, fields: seq<byte>)
    requires name != [] && SpaceFree(name)
    requires fields == [] || fields[0] == SPACE
    ensures |Words(name + fields)| >= 1 && Words(name + fields)[0] == name
  {
    WordsSingle(name);
    if fields != [] {
      WordsAppend(name, SPACE, fields[1..]);
      assert name + [SPACE] + fields[1..] == name + fields;
    } else {
      assert name + fields == name;
    }
  }

  /** Three space-separated parts: a one-token head, a token, and a text with at least one token. */
  lemma WordsThreeParts(head: seq<byte>, w: seq<byte>, tail: seq<byte>)
    requires |Words(head)| == 1 && w != [] && SpaceFree(w) && |Words(tail)| >= 1
    ensures var ws := Words(head + [SPACE] + (w + [SPACE] + tail));
            |ws| >= 3 && ws[1] == w && ws[2] == Words(tail)[0]
  {
    WordsSingle(w);
    WordsAppend(w, SPACE, tail);
    WordsAppend(head, SPACE, w + [SPACE] + tail);
  }

  /**
   * The line ima_ascii_measurements_show writes, less its newline, splits
   * into the pcr, the SHA-1 template digest in lower-case hex and the
   * template name, then the fields; this holds when the name is a single
   * token.
   */
  lemma AsciiLineTokens(e: TemplateEntry, fieldShow: FieldShow)
    requires WellFormed(e) && TemplateName(e.desc) != [] && SpaceFree(TemplateName(e.desc))
    ensures var ws := Words(AsciiHead(e) + AsciiFields(e, fieldShow, |e.desc.fieldIds|));
            |ws| >= 3 && ws[1] == HexLower(e.digests[IMA_SHA1_IDX].digest[..TPM_DIGEST_SIZE]) &&
            ws[2] == TemplateName(e.desc)
  {
    var d := e.digests[IMA_SHA1_IDX].digest[..TPM_DIGEST_SIZE];
    var hex := HexLower(d);
    var name := TemplateName(e.desc);
    var fields := AsciiFields(e, fieldShow, |e.desc.fieldIds|);
    if |e.desc.fieldIds| > 0 {
      AsciiFieldsStartWithSpace(e, fieldShow, |e.desc.fieldIds|);
    }
    WordsNameFields(name, fields);
    HexLowerLength(d);
    HexLowerSpaceFree(d);
    WordsFormatPcr(e.pcr);
    WordsThreeParts(FormatPcr(e.pcr), hex, name + fields);
    assert AsciiHead(e) + fields == FormatPcr(e.pcr) + [SPACE] + (hex + [SPACE] + (name + fields));
  }

  /**
   * The script reads the kernel's line as intended: it is never skipped,
   * and when it is accepted it extends with the SHA-1 template digest the
   * kernel printed (a zero digest becoming the poison value). Only an
   * ima-dig-imaid line can fail to decode.
   */
  lemma AsciiLineReplays(e: TemplateEntry, fieldShow: FieldShow, nsId: seq<byte>)
    requires WellFormed(e) && TemplateName(e.desc) != [] && SpaceFree(TemplateName(e.desc))
    ensures var r := ParseLine(AsciiHead(e) + AsciiFields(e, fieldShow, |e.desc.fieldIds|), nsId);
            r != Blank &&
            (r.Accepted? ==> r.templateHash == ExtendValue(e.digests[IMA_SHA1_IDX].digest[..TPM_DIGEST_SIZE])) &&
            (r.BadHex? ==> TemplateName(e.desc) == IMA_DIG_IMAID)
  {
    var line := AsciiHead(e) + AsciiFields(e, fieldShow, |e.desc.fieldIds|);
    var d := e.digests[IMA_SHA1_IDX].digest[..TPM_DIGEST_SIZE];
    AsciiLineTokens(e, fieldShow);
    UnhexHexLower(d);
    StripEmpty(line);
    WordsStrip(line);
    var ws := Words(line);
    if AllSpace(line) {
      WordsAllSpace(line);
      assert false;
    }
    assert ParseLine(line, nsId) == ParseTokens(ws, nsId);
  }

  /**
   * A record with neither a newline nor a carriage return in it is exactly
   * one line of the text the script reads and splits.
   */
  lemma AsciiRecordIsOneLine(e: TemplateEntry, fieldShow: FieldShow, rest: seq<byte>)
    requires WellFormed(e)
    requires NEWLINE !in AsciiHead(e) + AsciiFields(e, fieldShow, |e.desc.fieldIds|)
    requires CARRIAGE_RETURN !in AsciiHead(e) + AsciiFields(e, fieldShow, |e.desc.fieldIds|)
    ensures SplitLines(TranslateNewlines(AsciiRecord(e, fieldShow) + rest)) ==
              [AsciiHead(e) + AsciiFields(e, fieldShow, |e.desc.fieldIds|)] + SplitLines(TranslateNewlines(rest))
  {
    var line := AsciiHead(e) + AsciiFields(e, fieldShow, |e.desc.fieldIds|);
    assert CARRIAGE_RETURN !in line + [NEWLINE];
    TranslateNewlinesKeeps(line + [NEWLINE], rest);
    SplitLinesAppend(line, TranslateNewlines(rest));
  }
}
