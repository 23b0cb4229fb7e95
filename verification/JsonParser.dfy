/**
 The parser of src/giga_spi_8adc/cJSON.c as it runs: a parse_buffer whose offset and
 depth move, and strings unescaped into an output block whose size a first scan
 computes.  Every write into that block is within it, for any input at all.
 */
module JsonParser {
  import opened Common
  import opened JsonText

  // ---- the size computed by the first scan is enough ------------------------------------------

  /** How many escapes the first scan, standing at p, starts before position i. */
  function Starts(s: seq<byte>, p: nat, i: nat): nat
    decreases i - p
  {
    if p >= i then 0
    else if p < |s| && s[p] == BACKSLASH then 1 + Starts(s, p + 2, i)
    else Starts(s, p + 1, i)
  }

  lemma {:induction false} ScanCountsStarts(s: seq<byte>, i: nat, skipped: nat)
    requires i <= |s|
    ensures var r := ScanString(s, i, skipped);
            r.Scan? ==> r.skipped == skipped + Starts(s, i, r.end) && Starts(s, i, r.end + 1) == Starts(s, i, r.end)
    decreases |s| - i
  {
    if i < |s| && s[i] != QUOTE {
      if s[i] != BACKSLASH {
        ScanCountsStarts(s, i + 1, skipped);
      } else if i + 1 < |s| {
        ScanCountsStarts(s, i + 2, skipped + 1);
      }
    }
  }

  lemma {:induction false} OneStep(s: seq<byte>, p: nat, i: nat)
    ensures Starts(s, p, i) <= Starts(s, p, i + 1) <= Starts(s, p, i) + 1
    ensures i < |s| && s[i] != BACKSLASH ==> Starts(s, p, i + 1) == Starts(s, p, i)
    decreases i - p
  {
    if p < i {
      OneStep(s, if p < |s| && s[p] == BACKSLASH then p + 2 else p + 1, i);
    }
  }

  /** Escapes start at least two bytes apart. */
  lemma {:induction false} TwoSteps(s: seq<byte>, p: nat, i: nat)
    ensures Starts(s, p, i + 2) <= Starts(s, p, i) + 1
    decreases i - p
  {
    if p < i {
      TwoSteps(s, if p < |s| && s[p] == BACKSLASH then p + 2 else p + 1, i);
    } else if p < i + 2 && p < |s| && s[p] == BACKSLASH {
    } else {
      OneStep(s, p + 1, i + 1);
    }
  }

  /** Wherever the second scan stands, in step with the first or not, a piece writes no
      more bytes than it reads, less the backslashes the first scan counted there. */
  lemma PieceFits(s: seq<byte>, start: nat, i: nat, end: nat)
    requires start <= i < end < |s|
    ensures var p := ReadPiece(s, i, end);
            p.Piece? ==>
              && i + p.length <= end + 1
              && |p.bytes| + Starts(s, start, i + p.length) <= p.length + Starts(s, start, i)
  {
    var p := ReadPiece(s, i, end);
    if p.Piece? {
      if p.length == 1 {
        OneStep(s, start, i);
      } else {
        TwoSteps(s, start, i);
        if p.length >= 6 {
          TwoSteps(s, start, i + 2);
          TwoSteps(s, start, i + 4);
        }
        if p.length == 12 {
          TwoSteps(s, start, i + 6);
          TwoSteps(s, start, i + 8);
          TwoSteps(s, start, i + 10);
        }
      }
    }
  }

  lemma {:induction false} UnescapedFits(s: seq<byte>, start: nat, i: nat, end: nat)
    requires start <= i <= end + 1 && end < |s|
    ensures var u := Unescape(s, i, end);
            u.Bytes? ==> |u.bytes| + Starts(s, start, end + 1) <= (end + 1 - i) + Starts(s, start, i)
    decreases end - i
  {
    if i < end {
      PieceFits(s, start, i, end);
      var p := ReadPiece(s, i, end);
      if p.Piece? {
        UnescapedFits(s, start, i + p.length, end);
      }
    } else if i == end {
      OneStep(s, start, end);
    }
  }

  /** For every input: the bytes produced, with their NUL, fit what the first scan asked for. */
  lemma OutputFits(s: seq<byte>, at: nat)
    requires at < |s|
    ensures var scan := ScanString(s, at + 1, 0);
            scan.Scan? ==>
              var size := scan.end - at - scan.skipped + 1;    // allocation_length + sizeof("")
              var u := Unescape(s, at + 1, scan.end);
              u.Bytes? ==> |u.bytes| + 1 <= size
  {
    var scan := ScanString(s, at + 1, 0);
    if scan.Scan? {
      ScanCountsStarts(s, at + 1, 0);
      UnescapedFits(s, at + 1, at + 1, scan.end);
    }
  }

  /** The scans can fall out of step: after bad hex the second one takes the backslash
      before the closing quote for an escape, and ends one byte past that quote. */
  lemma ScansCanDisagree()
    ensures var s := [QUOTE, BACKSLASH, 117, 48, 48, 48, BACKSLASH, BACKSLASH, QUOTE];
            && ScanString(s, 1, 0) == Scan(8, 2)
            && Unescape(s, 1, 8) == Bytes([0, QUOTE])
            && ReadPiece(s, 7, 8) == Piece([QUOTE], 2)
  {
    var s := [QUOTE, BACKSLASH, 117, 48, 48, 48, BACKSLASH, BACKSLASH, QUOTE];
    assert ScanString(s, 1, 0) == ScanString(s, 3, 1) == ScanString(s, 4, 1) == ScanString(s, 5, 1);
    assert ScanString(s, 5, 1) == ScanString(s, 6, 1) == ScanString(s, 8, 2);
    assert Hex4(s, 3) == 0;
    assert ReadPiece(s, 1, 8) == Piece([0], 6);
    assert Unescape(s, 7, 8) == Bytes([QUOTE] + []);
    assert Unescape(s, 1, 8) == Bytes([0] + [QUOTE]);
  }

  // ---- UTF-8 ----------------------------------------------------------------------------------

  /** The code point of one whole sequence, as section 3 of RFC 3629 has it; -1 for anything
      else, overlong forms and surrogates included. */
  function DecodeUtf8(bytes: seq<byte>): int {
    if bytes == [] || !Trails(bytes) then -1
    else
      var lead: int := bytes[0];
      if |bytes| == 1 then if lead < 0x80 then lead else -1
      else if |bytes| == 2 && 0xC0 <= lead < 0xE0 then InRange(Trail(bytes, lead - 0xC0), 0x80, 0x7FF)
      else if |bytes| == 3 && 0xE0 <= lead < 0xF0 then
        InRange(Trail(bytes[1..], Trail(bytes, lead - 0xE0)), 0x800, 0xFFFF)
      else if |bytes| == 4 && 0xF0 <= lead < 0xF8 then
        InRange(Trail(bytes[2..], Trail(bytes[1..], Trail(bytes, lead - 0xF0))), 0x1_0000, 0x10FFFF)
      else -1
  }

  function InRange(cp: int, low: int, high: int): int {
    if low <= cp <= high && !(0xD800 <= cp <= 0xDFFF) then cp else -1
  }

  function Trail(bytes: seq<byte>, high: int): int
    requires |bytes| >= 2
  {
    0x40 * high + (bytes[1] as int - 0x80)
  }

  predicate Trails(bytes: seq<byte>) {
    forall i :: 1 <= i < |bytes| ==> 0x80 <= bytes[i] < 0xC0
  }

  lemma Utf8Decodes(cp: CodePoint)
    ensures DecodeUtf8(Utf8(cp)) == cp
  {
    var low, mid := cp % 0x40, cp / 0x40;
    assert cp == mid * 0x40 + low;
    if cp >= 0x800 {
      assert mid == (mid / 0x40) * 0x40 + mid % 0x40;
      assert mid / 0x40 == cp / 0x1000;
    }
    if cp >= 0x1_0000 {
      var top := mid / 0x40;
      assert top == (top / 0x40) * 0x40 + top % 0x40;
      assert top / 0x40 == cp / 0x4_0000;
    }
  }

  /** Six bits at a time, the value falls apart again. */
  lemma TrailSplits(high: nat, low: nat)
    requires low < 0x40
    ensures (0x40 * high + low) / 0x40 == high && (0x40 * high + low) % 0x40 == low
  {
  }

  /** The encoding and no other sequence decodes to the code point. */
  lemma Utf8Exactly(bytes: seq<byte>, cp: CodePoint)
    ensures DecodeUtf8(bytes) == cp <==> bytes == Utf8(cp)
  {
    Utf8Decodes(cp);
    if DecodeUtf8(bytes) == cp && |bytes| > 1 {
      assert Trails(bytes) && 0x80 <= bytes[1] < 0xC0;
      if |bytes| == 2 {
        TrailSplits(bytes[0] - 0xC0, bytes[1] - 0x80);
      } else if |bytes| == 3 {
        DecodesThree(bytes, cp);
      } else {
        DecodesFour(bytes, cp);
      }
    }
  }

  lemma DecodesThree(bytes: seq<byte>, cp: CodePoint)
    requires |bytes| == 3 && DecodeUtf8(bytes) == cp
    ensures bytes == Utf8(cp)
  {
    var a: nat, b: nat, c: nat := bytes[0] - 0xE0, bytes[1] - 0x80, bytes[2] - 0x80;
    TrailSplits(a, b);
    TrailSplits(0x40 * a + b, c);
    assert cp == 0x40 * (0x40 * a + b) + c;
    assert cp / 0x1000 == cp / 0x40 / 0x40;
  }

  lemma DecodesFour(bytes: seq<byte>, cp: CodePoint)
    requires |bytes| == 4 && DecodeUtf8(bytes) == cp
    ensures bytes == Utf8(cp)
  {
    var a: nat, b: nat, c: nat, d: nat := bytes[0] - 0xF0, bytes[1] - 0x80, bytes[2] - 0x80, bytes[3] - 0x80;
    TrailSplits(a, b);
    TrailSplits(0x40 * a + b, c);
    TrailSplits(0x40 * (0x40 * a + b) + c, d);
    assert cp == 0x40 * (0x40 * (0x40 * a + b) + c) + d;
    assert cp / 0x1000 == cp / 0x40 / 0x40 && cp / 0x4_0000 == cp / 0x40 / 0x40 / 0x40;
  }

  // ---- the code -------------------------------------------------------------------------------

  /** What has been produced so far in front of what the second scan has still to produce. */
  function Joined(done: seq<byte>, rest: Unescaped): Unescaped {
    if rest.BadEscape? then BadEscape else Bytes(done + rest.bytes)
  }

  lemma NothingBefore(rest: Unescaped)
    ensures Joined([], rest) == rest
  {
    if rest.Bytes? {
      assert [] + rest.bytes == rest.bytes;
    }
  }

  lemma NothingMore(s: seq<byte>, i: nat, end: nat, done: seq<byte>)
    requires end < |s| && i >= end
    ensures Joined(done, Unescape(s, i, end)) == Bytes(done)
  {
    assert done + [] == done;
  }

  /** Items in front of the rest of the list. */
  function After<T>(done: seq<T>, rest: Parsed<seq<T>>): Parsed<seq<T>> {
    match rest
    case Ok(more, next) => Ok(done + more, next)
    case Err(why) => Err(why)
  }

  /** The code point shifted right by six bits, n times. */
  function Shifted(cp: nat, n: nat): nat {
    if n == 0 then cp else Shifted(cp, n - 1) / 0x40
  }

  lemma ShiftedMore(cp: nat, n: nat)
    ensures Shifted(cp, 0) == cp && Shifted(cp, n + 1) == Shifted(cp, n) / 0x40
  {
  }

  function FirstByteMark(length: nat): nat {
    if length == 1 then 0 else if length == 2 then 0xC0 else if length == 3 then 0xE0 else 0xF0
  }

  /** The bytes of a sequence, as the encoding loop finds them from its end. */
  lemma Utf8Bytes(cp: CodePoint)
    ensures var length := |Utf8(cp)|;
            && (forall k :: 1 <= k < length ==> Utf8(cp)[k] == 0x80 + Shifted(cp, length - 1 - k) % 0x40)
            && Utf8(cp)[0] == FirstByteMark(length) + Shifted(cp, length - 1)
  {
    assert Shifted(cp, 1) == cp / 0x40;
    assert Shifted(cp, 2) == cp / 0x40 / 0x40 == cp / 0x1000;
    assert Shifted(cp, 3) == cp / 0x1000 / 0x40 == cp / 0x4_0000;
  }

  /** The C string in a block is what stands before its first NUL. */
  lemma {:induction false} UpToNulOfBlock(block: seq<byte>, n: nat)
    requires n < |block| && block[n] == 0
    ensures UpToNul(block) == UpToNul(block[..n])
    decreases n
  {
    if n > 0 && block[0] != 0 {
      UpToNulOfBlock(block[1..], n - 1);
      assert block[1..][..n - 1] == block[..n][1..];
    }
  }

  /** The value of the first n hexadecimal digits, if they are. */
  function HexPrefix(s: seq<byte>, at: nat, n: nat): Nibble
    requires at + n <= |s|
  {
    if n == 0 then Nibble(0)
    else
      var high, low := HexPrefix(s, at, n - 1), HexValue(s[at + n - 1]);
      if high.Nibble? && low.Nibble? then Nibble(16 * high.value + low.value) else NotHex
  }

  lemma HexPrefixIsHex4(s: seq<byte>, at: nat)
    requires at + 4 <= |s|
    ensures HexPrefix(s, at, 4).Nibble? ==> HexPrefix(s, at, 4).value == Hex4(s, at)
  {
    if HexPrefix(s, at, 4).Nibble? {
      assert HexPrefix(s, at, 3).Nibble? && HexPrefix(s, at, 2).Nibble? && HexPrefix(s, at, 1).Nibble?;
      var a, b, c, d := HexValue(s[at]), HexValue(s[at + 1]), HexValue(s[at + 2]), HexValue(s[at + 3]);
      assert HexPrefix(s, at, 1).value == 16 * HexPrefix(s, at, 0).value + a.value == a.value;
      assert HexPrefix(s, at, 2).value == 16 * a.value + b.value;
      assert HexPrefix(s, at, 3).value == 16 * (16 * a.value + b.value) + c.value;
    }
  }

  /** parse_hex4: the loop over four bytes. */
  method ParseHex4(s: seq<byte>, at: nat) returns (h: nat)
    requires at + 4 <= |s|
    ensures h == Hex4(s, at)
  {
    h := 0;
    var i := 0;
    while i < 4
      invariant i <= 4
      invariant HexPrefix(s, at, i).Nibble?
      invariant h == HexPrefix(s, at, i).value * (if i < 4 then 16 else 1)
    {
      var c := s[at + i];
      if 48 <= c <= 57 {
        h := h + (c - 48);
      } else if 65 <= c <= 70 {
        h := h + (10 + c - 65);
      } else if 97 <= c <= 102 {
        h := h + (10 + c - 97);
      } else {
        assert HexValue(s[at + i]).NotHex?;
        return 0;
      }
      if i < 3 {
        h := h * 16;
      }
      i := i + 1;
    }
    HexPrefixIsHex4(s, at);
  }

  /** The encoding half of utf16_literal_to_utf8: the sequence is written from its last byte back. */
  method EncodeUtf8(cp: CodePoint, output: array<byte>, at: nat) returns (utf8Length: nat)
    requires at + |Utf8(cp)| <= output.Length
    modifies output
    ensures utf8Length == |Utf8(cp)|
    ensures output[..at] == old(output[..at]) && output[at..at + utf8Length] == Utf8(cp)
  {
    hide Shifted;
    hide FirstByteMark;
    var codepoint: nat := cp;
    Utf8Bytes(cp);
    ShiftedMore(cp, 0);
    utf8Length := if codepoint < 0x80 then 1 else if codepoint < 0x800 then 2 else if codepoint < 0x1_0000 then 3 else 4;
    assert utf8Length == |Utf8(cp)|;
    hide Utf8;
    var firstByteMark := FirstByteMark(utf8Length);
    var position := utf8Length - 1;
    while position > 0
      invariant 0 <= position < utf8Length
      invariant codepoint == Shifted(cp, utf8Length - 1 - position)
      invariant output[..at] == old(output[..at])
      invariant forall k :: position < k < utf8Length ==> output[at + k] == Utf8(cp)[k]
    {
      output[at + position] := 0x80 + codepoint % 0x40;    // (codepoint | 0x80) & 0xBF
      ShiftedMore(cp, utf8Length - 1 - position);
      codepoint := codepoint / 0x40;
      position := position - 1;
    }
    output[at] := firstByteMark + codepoint;
    assert forall k :: 0 <= k < utf8Length ==> output[at..at + utf8Length][k] == Utf8(cp)[k];
  }

  /** parse_buffer: the text, where the parser stands in it and how deep. */
  class ParseBuffer {
    const content: seq<byte>
    var offset: nat
    var depth: nat

    constructor (text: seq<byte>)
      ensures content == text && offset == 0 && depth == 0
    {
      content := text;
      offset := 0;
      depth := 0;
    }

    ghost predicate Valid()
      reads this
    {
      offset <= |content|
    }

    predicate CanAccess(c: byte)
      reads this
    {
      offset < |content| && content[offset] == c
    }

    /** buffer_skip_whitespace. */
    method SkipWhitespace()
      requires Valid()
      modifies `offset
      ensures Valid() && offset == JsonText.SkipWhitespace(content, old(offset))
    {
      if offset >= |content| {
        return;
      }
      while offset < |content| && content[offset] <= 32
        invariant offset <= |content|
        invariant offset < |content| ==>
                    JsonText.SkipWhitespace(content, offset) == JsonText.SkipWhitespace(content, old(offset))
        invariant offset == |content| ==>
                    JsonText.SkipWhitespace(content, old(offset)) == |content| - 1
      {
        offset := offset + 1;
      }
      if offset == |content| {
        offset := offset - 1;
      }
    }

    /** One escape of the second scan. */
    method ReadEscape(input: nat, end: nat, output: array<byte>, at: nat) returns (length: nat, written: nat)
      requires input < end < |content| && content[input] == BACKSLASH
      requires ReadPiece(content, input, end).Piece? ==> at + |ReadPiece(content, input, end).bytes| <= output.Length
      modifies output
      ensures length == 0 <==> ReadPiece(content, input, end).BadPiece?
      ensures length > 0 ==> at + written <= output.Length && output[..at] == old(output[..at])
      ensures length > 0 ==> ReadPiece(content, input, end) == Piece(output[at..at + written], length)
    {
      length := 2;
      written := 1;
      var c := content[input + 1];
      match c
      case 98 => output[at] := 8;
      case 102 => output[at] := 12;
      case 110 => output[at] := 10;
      case 114 => output[at] := 13;
      case 116 => output[at] := 9;
      case 34 => output[at] := c;
      case 92 => output[at] := c;
      case 47 => output[at] := c;
      case 117 => length, written := ReadUtf16Literal(input, end, output, at);
      case _ => length := 0;
    }

    /** utf16_literal_to_utf8. */
    method ReadUtf16Literal(input: nat, end: nat, output: array<byte>, at: nat) returns (length: nat, written: nat)
      requires input < end < |content|
      requires var u := ReadUtf16(content, input, end); u.Literal? ==> at + |Utf8(u.codepoint)| <= output.Length
      modifies output
      ensures var u := ReadUtf16(content, input, end);
              if u.Literal? then
                && length == u.length && written == |Utf8(u.codepoint)|
                && output[..at] == old(output[..at]) && output[at..at + written] == Utf8(u.codepoint)
              else length == 0
    {
      hide Hex4;
      hide Utf8;
      length, written := 0, 0;
      if end - input < 6 {
        return;
      }
      var firstCode := ParseHex4(content, input + 2);
      if 0xDC00 <= firstCode <= 0xDFFF {
        return;
      }
      var codepoint: CodePoint;
      if 0xD800 <= firstCode <= 0xDBFF {
        var second := input + 6;
        if end - second < 6 {
          return;
        }
        if content[second] != BACKSLASH || content[second + 1] != 117 {
          return;
        }
        var secondCode := ParseHex4(content, second + 2);
        if secondCode < 0xDC00 || secondCode > 0xDFFF {
          return;
        }
        length := 12;
        codepoint := 0x1_0000 + (firstCode % 0x400) * 0x400 + secondCode % 0x400;
      } else {
        length := 6;
        codepoint := firstCode;
      }
      written := EncodeUtf8(codepoint, output, at);
    }

    /** parse_string: size the output with a first scan, fill it with a second one. */
    method ParseString() returns (r: Parsed<CString>)
      requires offset < |content|
      modifies `offset
      ensures r == JsonText.ParseString(content, old(offset))
      ensures r.Ok? ==> offset == r.next
    {
      var start := offset + 1;
      var inputEnd, skippedBytes := start, 0;
      if content[offset] != QUOTE {
        offset := start;
        return Err(Malformed);
      }
      while inputEnd < |content| && content[inputEnd] != QUOTE
        invariant start <= inputEnd <= |content|
        invariant ScanString(content, start, 0) == ScanString(content, inputEnd, skippedBytes)
      {
        if content[inputEnd] == BACKSLASH {
          if inputEnd + 1 >= |content| {
            offset := start;
            return Err(Malformed);
          }
          skippedBytes := skippedBytes + 1;
          inputEnd := inputEnd + 1;
        }
        inputEnd := inputEnd + 1;
      }
      if inputEnd >= |content| || content[inputEnd] != QUOTE {
        offset := start;
        return Err(Malformed);
      }
      ScanCountsStarts(content, start, 0);
      StartsAreFew(content, start, inputEnd);
      var allocationLength := inputEnd - offset - skippedBytes;
      var output := new byte[allocationLength + 1];
      var inputPointer := start;
      r, inputPointer := FillString(start, inputEnd, output);
      if r.Err? {
        offset := inputPointer;
        return;
      }
      offset := inputEnd;
      offset := offset + 1;
    }

    /** The second loop of parse_string, into a block of the size the first one found. */
    method FillString(start: nat, inputEnd: nat, output: array<byte>) returns (r: Parsed<CString>, inputPointer: nat)
      requires start <= inputEnd < |content|
      requires output.Length == inputEnd + 2 - start - Starts(content, start, inputEnd + 1)
      modifies output
      ensures var u := Unescape(content, start, inputEnd);
              r == if u.BadEscape? then Err(Malformed) else Ok(UpToNul(u.bytes), inputEnd + 1)
    {
      hide Joined;
      hide Unescape;
      hide ReadPiece;
      hide Starts;
      hide ScanString;
      inputPointer := start;
      var outputPointer: nat := 0;
      NoStarts(content, start);
      NothingBefore(Unescape(content, start, inputEnd));
      RoomFor(content, start, start, inputEnd);
      while inputPointer < inputEnd
        invariant start <= inputPointer <= inputEnd + 1
        invariant outputPointer + Starts(content, start, inputPointer) <= inputPointer - start
        invariant Starts(content, start, inputPointer) <= Starts(content, start, inputEnd + 1)
        invariant outputPointer < output.Length
        invariant Unescape(content, start, inputEnd)
                  == Joined(output[..outputPointer], Unescape(content, inputPointer, inputEnd))
      {
        PieceFits(content, start, inputPointer, inputEnd);
        ghost var piece := ReadPiece(content, inputPointer, inputEnd);
        ghost var done := output[..outputPointer];
        if piece.Piece? {
          RoomFor(content, start, inputPointer + piece.length, inputEnd);
        }
        PieceJoins(content, inputPointer, inputEnd, done);
        PlainPiece(content, inputPointer, inputEnd);
        if content[inputPointer] != BACKSLASH {
          output[outputPointer] := content[inputPointer];
          assert output[..outputPointer + 1] == done + piece.bytes;
          outputPointer := outputPointer + 1;
          inputPointer := inputPointer + 1;
        } else {
          var sequenceLength, written := ReadEscape(inputPointer, inputEnd, output, outputPointer);
          if sequenceLength == 0 {
            return Err(Malformed), inputPointer;
          }
          assert output[..outputPointer + written] == done + piece.bytes;
          outputPointer := outputPointer + written;
          inputPointer := inputPointer + sequenceLength;
        }
      }
      ghost var all := output[..outputPointer];
      NothingMore(content, inputPointer, inputEnd, all);
      output[outputPointer] := 0;
      UpToNulOfBlock(output[..], outputPointer);
      assert output[..][..outputPointer] == all;
      r := Ok(UpToNul(output[..]), inputEnd + 1);
    }

    /** parse_number; strtod, a function of the C library, is the specification's. */
    method ParseNumber() returns (r: Parsed<Value>)
      requires offset < |content|
      modifies `offset
      ensures r == JsonText.ParseNumber(content, old(offset))
      ensures r.Ok? ==> offset == r.next
    {
      r := JsonText.ParseNumber(content, offset);
      if r.Ok? {
        offset := r.next;
      }
    }

    /** strncmp at the current offset, guarded by can_read. */
    method Reads(text: seq<byte>) returns (yes: bool)
      requires Valid()
      ensures yes == At(content, offset, text)
    {
      if offset + |text| > |content| {
        return text == [];
      }
      var i: nat := 0;
      while i < |text|
        invariant i <= |text|
        invariant At(content, offset, text) == At(content, offset + i, text[i..])
      {
        if content[offset + i] != text[i] {
          return false;
        }
        i := i + 1;
      }
      return true;
    }

    /** parse_value: on success the item, the offset behind it and the depth as it was. */
    method ParseValue() returns (r: Parsed<Value>)
      requires Valid()
      modifies this
      ensures r == JsonText.ParseValue(content, old(offset), old(depth))
      ensures r.Ok? ==> offset == r.next && depth == old(depth)
      decreases |content| - offset, 1
    {
      var word := Reads(NULL_TEXT);
      if word {
        offset := offset + 4;
        return Ok(Null, offset);
      }
      word := Reads(FALSE_TEXT);
      if word {
        offset := offset + 5;
        return Ok(False, offset);
      }
      word := Reads(TRUE_TEXT);
      if word {
        offset := offset + 4;
        return Ok(True, offset);
      }
      if CanAccess(QUOTE) {
        var text := ParseString();
        if text.Err? {
          return Err(text.why);
        }
        return Ok(Str(text.value), offset);
      }
      if offset < |content| && (content[offset] == MINUS || 48 <= content[offset] <= 57) {
        r := ParseNumber();
        return;
      }
      if CanAccess(LBRACKET) {
        r := ParseArray();
        return;
      }
      if CanAccess(LBRACE) {
        r := ParseObject();
        return;
      }
      return Err(Malformed);
    }

    method ParseArray() returns (r: Parsed<Value>)
      requires CanAccess(LBRACKET)
      modifies this
      ensures r == JsonText.ParseArray(content, old(offset), old(depth))
      ensures r.Ok? ==> offset == r.next && depth == old(depth)
      decreases |content| - offset, 0
    {
      hide JsonText.ParseItems;
      hide JsonText.ParseValue;
      hide JsonText.SkipWhitespace;
      hide After;
      if depth >= NESTING_LIMIT {
        return Err(Malformed);
      }
      depth := depth + 1;
      offset := offset + 1;
      SkipWhitespace();
      if CanAccess(RBRACKET) {
        depth := depth - 1;
        offset := offset + 1;
        return Ok(Arr([]), offset);
      }
      if offset >= |content| {
        offset := offset - 1;
        return Err(Malformed);
      }
      offset := offset - 1;
      ghost var first := offset + 1;
      ghost var entry := old(offset);
      var items: seq<Value> := [];
      AfterNone(JsonText.ParseItems(content, first, depth));
      while true
        invariant entry <= offset < |content| && depth == old(depth) + 1
        invariant JsonText.ParseItems(content, first, depth)
                  == After(items, JsonText.ParseItems(content, offset + 1, depth))
        decreases |content| - offset
      {
        ghost var from := offset + 1;
        AfterItem(content, from, depth, items);
        offset := offset + 1;
        SkipWhitespace();
        var item := ParseValue();
        if item.Err? {
          return Err(item.why);
        }
        SkipWhitespace();
        items := items + [item.value];
        if !CanAccess(COMMA) {
          break;
        }
      }
      if !CanAccess(RBRACKET) {
        return Err(Malformed);
      }
      depth := depth - 1;
      offset := offset + 1;
      r := Ok(Arr(items), offset);
    }

    /** The body of the object loop: the name, the colon and the value. */
    method ParseMember() returns (r: Parsed<Member>)
      requires offset < |content|
      modifies this
      ensures r == JsonText.ParseMember(content, old(offset), old(depth))
      ensures r.Ok? ==> offset == r.next && depth == old(depth)
      decreases |content| - offset, 2
    {
      hide JsonText.ParseString;
      hide JsonText.ParseValue;
      hide JsonText.SkipWhitespace;
      SkipWhitespace();
      var name := ParseString();
      if name.Err? {
        return Err(name.why);
      }
      SkipWhitespace();
      if !CanAccess(COLON) {
        return Err(Malformed);
      }
      offset := offset + 1;
      SkipWhitespace();
      var value := ParseValue();
      if value.Err? {
        return Err(value.why);
      }
      return Ok(Member(name.value, value.value), offset);
    }

    method ParseObject() returns (r: Parsed<Value>)
      requires CanAccess(LBRACE)
      modifies this
      ensures r == JsonText.ParseObject(content, old(offset), old(depth))
      ensures r.Ok? ==> offset == r.next && depth == old(depth)
      decreases |content| - offset, 0
    {
      hide JsonText.ParseMembers;
      hide JsonText.ParseMember;
      hide JsonText.SkipWhitespace;
      hide After;
      if depth >= NESTING_LIMIT {
        return Err(Malformed);
      }
      depth := depth + 1;
      offset := offset + 1;
      SkipWhitespace();
      if CanAccess(RBRACE) {
        depth := depth - 1;
        offset := offset + 1;
        return Ok(Obj([]), offset);
      }
      if offset >= |content| {
        offset := offset - 1;
        return Err(Malformed);
      }
      offset := offset - 1;
      ghost var first := offset + 1;
      ghost var entry := old(offset);
      var members: seq<Member> := [];
      AfterNone(JsonText.ParseMembers(content, first, depth));
      while true
        invariant entry <= offset < |content| && depth == old(depth) + 1
        invariant JsonText.ParseMembers(content, first, depth)
                  == After(members, JsonText.ParseMembers(content, offset + 1, depth))
        decreases |content| - offset
      {
        ghost var from := offset + 1;
        if offset + 1 >= |content| {
          NoMembers(content, depth);
          return Err(Malformed);
        }
        offset := offset + 1;
        AfterMember(content, from, depth, members);
        var member := ParseMember();
        if member.Err? {
          return Err(member.why);
        }
        SkipWhitespace();
        members := members + [member.value];
        if !CanAccess(COMMA) {
          break;
        }
      }
      if !CanAccess(RBRACE) {
        return Err(Malformed);
      }
      depth := depth - 1;
      offset := offset + 1;
      r := Ok(Obj(members), offset);
    }
  }

  /** One turn of the array loop, seen from the whole list. */
  lemma AfterItem(s: seq<byte>, from: nat, depth: nat, done: seq<Value>)
    requires from <= |s|
    ensures var item := ParseValue(s, SkipWhitespace(s, from), depth);
            After(done, ParseItems(s, from, depth))
            == if item.Err? then Err(item.why)
               else
                 var after := SkipWhitespace(s, item.next);
                 if Sees(s, after, COMMA) then After(done + [item.value], ParseItems(s, after + 1, depth))
                 else if Sees(s, after, RBRACKET) then Ok(done + [item.value], after + 1)
                 else Err(Malformed)
  {
    hide ParseValue;
    hide SkipWhitespace;
    var item := ParseValue(s, SkipWhitespace(s, from), depth);
    if item.Ok? {
      var after := SkipWhitespace(s, item.next);
      if Sees(s, after, COMMA) {
        AfterOneMore(done, item.value, ParseItems(s, after + 1, depth));
      }
    }
  }

  lemma NoMembers(s: seq<byte>, depth: nat)
    ensures ParseMembers(s, |s|, depth) == Err(Malformed)
    ensures forall done: seq<Member> :: After(done, ParseMembers(s, |s|, depth)) == Err(Malformed)
  {
  }

  lemma AfterOneMore<T>(done: seq<T>, x: T, rest: Parsed<seq<T>>)
    ensures rest.Ok? ==> After(done, Ok([x] + rest.value, rest.next)) == After(done + [x], rest)
  {
    if rest.Ok? {
      assert done + ([x] + rest.value) == done + [x] + rest.value;
    }
  }

  lemma AfterNone<T>(rest: Parsed<seq<T>>)
    ensures After([], rest) == rest
  {
    if rest.Ok? {
      assert [] + rest.value == rest.value;
    }
  }

  lemma AfterMember(s: seq<byte>, from: nat, depth: nat, done: seq<Member>)
    requires from < |s|
    ensures var member := ParseMember(s, from, depth);
            After(done, ParseMembers(s, from, depth))
            == if member.Err? then Err(member.why)
               else
                 var after := SkipWhitespace(s, member.next);
                 if Sees(s, after, COMMA) then After(done + [member.value], ParseMembers(s, after + 1, depth))
                 else if Sees(s, after, RBRACE) then Ok(done + [member.value], after + 1)
                 else Err(Malformed)
  {
    hide ParseMember;
    hide SkipWhitespace;
    var member := ParseMember(s, from, depth);
    if member.Ok? {
      var after := SkipWhitespace(s, member.next);
      if Sees(s, after, COMMA) {
        AfterOneMore(done, member.value, ParseMembers(s, after + 1, depth));
      }
    }
  }

  /** cJSON_ParseWithLengthOpts. */
  method ParseWithLength(text: seq<byte>, requireNul: bool) returns (r: Parsed<Value>)
    ensures r == ParseText(text, requireNul)
  {
    if text == [] {
      return Err(Malformed);
    }
    var buffer := new ParseBuffer(text);
    if |text| > 4 && text[0] == 0xEF && text[1] == 0xBB && text[2] == 0xBF {
      buffer.offset := buffer.offset + 3;
    }
    buffer.SkipWhitespace();
    r := buffer.ParseValue();
    if r.Err? {
      return;
    }
    if requireNul {
      buffer.SkipWhitespace();
      if buffer.offset >= |text| || text[buffer.offset] != 0 {
        return Err(Malformed);
      }
    }
    r := Ok(r.value, buffer.offset);
  }

  lemma NoStarts(s: seq<byte>, i: nat)
    ensures Starts(s, i, i) == 0
  {
  }

  lemma PlainPiece(s: seq<byte>, i: nat, end: nat)
    requires i < end < |s|
    ensures s[i] != BACKSLASH ==> ReadPiece(s, i, end) == Piece([s[i]], 1)
  {
  }

  /** A piece moves from what is to be produced to what has been. */
  lemma PieceJoins(s: seq<byte>, i: nat, end: nat, done: seq<byte>)
    requires i < end < |s|
    ensures var p := ReadPiece(s, i, end);
            Joined(done, Unescape(s, i, end))
            == if p.BadPiece? then BadEscape else Joined(done + p.bytes, Unescape(s, i + p.length, end))
  {
    var p := ReadPiece(s, i, end);
    if p.Piece? {
      var rest := Unescape(s, i + p.length, end);
      if rest.Bytes? {
        assert done + (p.bytes + rest.bytes) == (done + p.bytes) + rest.bytes;
      }
    }
  }

  lemma {:induction false} StartsAreFew(s: seq<byte>, p: nat, i: nat)
    requires p <= i
    ensures 2 * Starts(s, p, i) <= i - p + 1
    decreases i - p
  {
    if p < i {
      if p < |s| && s[p] == BACKSLASH {
        if p + 2 <= i {
          StartsAreFew(s, p + 2, i);
        }
      } else {
        StartsAreFew(s, p + 1, i);
      }
    }
  }

  lemma {:induction false} RoomFor(s: seq<byte>, p: nat, i: nat, end: nat)
    requires p <= i <= end + 1
    ensures Starts(s, p, i) <= Starts(s, p, end + 1)
    ensures i - p - Starts(s, p, i) <= end + 1 - p - Starts(s, p, end + 1)
    decreases end + 1 - i
  {
    if i <= end {
      RoomFor(s, p, i + 1, end);
      OneStep(s, p, i);
    }
  }
}
