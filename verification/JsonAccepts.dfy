/**
 The other direction: whatever the parser of src/giga_spi_8adc/cJSON.c accepts is written in
 the grammar and parsed to what it means, strings up to the first \u without four
 hexadecimal digits behind it.
 */
module JsonAccepts {
  import opened Common
  import opened JsonText
  import opened JsonGrammar

  // ---- what is accepted -----------------------------------------------------------------------

  predicate IsLoose(c: Char) {
    c.Loose? && |c.digits| == 4 && !Hex(c.digits)
  }

  /** Legal characters to the end, or to an escape without four hexadecimal digits. */
  ghost predicate AcceptedChars(chars: seq<Char>) {
    LegalChars(chars) || exists j :: 0 <= j < |chars| && IsLoose(chars[j]) && LegalChars(chars[..j])
  }

  ghost predicate Accepted(x: Spelling, depth: nat)
    decreases x
  {
    match x
    case SpelledNumber(_, digits) => LegalDigits(digits)
    case SpelledString(chars) => AcceptedChars(chars)
    case SpelledArray(blank, items) => depth < 1000 && Blank(blank) && AcceptedItems(items, depth + 1)
    case SpelledObject(blank, members) => depth < 1000 && Blank(blank) && AcceptedMembers(members, depth + 1)
    case _ => true
  }

  ghost predicate AcceptedItems(items: seq<SpelledItem>, depth: nat)
    decreases items
  {
    items == [] ||
    (Blank(items[0].before) && Accepted(items[0].value, depth) && Blank(items[0].after) && AcceptedItems(items[1..], depth))
  }

  ghost predicate AcceptedMembers(members: seq<SpelledMember>, depth: nat)
    decreases members
  {
    members == [] ||
    (var m := members[0];
     && Blank(m.before) && AcceptedChars(m.name) && Blank(m.beforeColon) && Blank(m.afterColon)
     && Accepted(m.value, depth) && Blank(m.after) && AcceptedMembers(members[1..], depth))
  }

  // ---- strings ----------------------------------------------------------------------------------

  /** The character the second scan reads at i. */
  lemma CharAt(s: seq<byte>, i: nat, end: nat) returns (c: Char)
    requires i < end < |s| && s[end] == QUOTE && ReadPiece(s, i, end).Piece?
    ensures CharMeans(c) == ReadPiece(s, i, end).bytes
    ensures CharRead(s, i, end, c, ReadPiece(s, i, end).length)
  {
    if s[i] != BACKSLASH {
      c := Plain(s[i]);
    } else if s[i + 1] == 117 {
      c := LiteralChar(s, i, end);
    } else if i + 1 == end {
      c := Slip;
    } else {
      c := Short(s[i + 1] as char);
      LetterRead(s[i + 1]);
      assert s[i..i + 2] == [s[i], s[i + 1]];
    }
  }

  lemma LetterRead(letter: byte)
    requires letter != 117 && SimpleEscape(letter).Ok?
    ensures ShortByte(letter as char) == Some(SimpleEscape(letter).value)
    ensures WrittenChar(Short(letter as char)) == [BACKSLASH, letter]
  {
  }

  lemma SameNibble(b: byte)
    ensures Digit16(b).Some? <==> HexValue(b).Nibble?
    ensures Digit16(b).Some? ==> HexValue(b).value == Digit16(b).value
  {
  }

  lemma FourBytes(s: seq<byte>, i: nat)
    requires i + 4 <= |s|
    ensures var d := s[i..i + 4];
            |d| == 4 && (if Hex(d) then Hex4(s, i) == Number16(d) else Hex4(s, i) == 0)
  {
    var d := s[i..i + 4];
    assert d[0] == s[i] && d[1] == s[i + 1] && d[2] == s[i + 2] && d[3] == s[i + 3];
    SameNibble(s[i]);
    SameNibble(s[i + 1]);
    SameNibble(s[i + 2]);
    SameNibble(s[i + 3]);
  }

  /** What a \u that is read consists of. */
  lemma LiteralParts(s: seq<byte>, i: nat, end: nat)
    requires i < end < |s| && s[i] == BACKSLASH && s[i + 1] == 117 && ReadPiece(s, i, end).Piece?
    ensures var p, first := ReadPiece(s, i, end), Hex4(s, i + 2);
            && i + 6 <= end && !(0xDC00 <= first <= 0xDFFF)
            && if 0xD800 <= first <= 0xDBFF then
                 && p.length == 12 && i + 12 <= end && s[i + 6] == BACKSLASH && s[i + 7] == 117
                 && var second := Hex4(s, i + 8);
                    0xDC00 <= second <= 0xDFFF
                    && p.bytes == Utf8(0x1_0000 + (first % 0x400) * 0x400 + second % 0x400)
               else p.length == 6 && p.bytes == Utf8(first)
  {
    hide Hex4;
    hide Utf8;
  }

  lemma LiteralChar(s: seq<byte>, i: nat, end: nat) returns (c: Char)
    requires i < end < |s| && s[i] == BACKSLASH && s[i + 1] == 117 && ReadPiece(s, i, end).Piece?
    ensures var p := ReadPiece(s, i, end);
            && CharMeans(c) == p.bytes && c != Slip && !c.Plain?
            && i + p.length <= end && WrittenChar(c) == s[i..i + p.length]
            && (LegalChar(c) || IsLoose(c))
  {
    hide Hex4;
    hide Number16;
    hide Utf8;
    hide Hex;
    hide ReadPiece;
    LiteralParts(s, i, end);
    FourBytes(s, i + 2);
    NulIsOneByte();
    var first := Hex4(s, i + 2);
    var d := s[i + 2..i + 6];
    assert s[i..i + 6] == [BACKSLASH, 117] + d;
    if 0xD800 <= first <= 0xDBFF {
      FourBytes(s, i + 8);
      var e := s[i + 8..i + 12];
      assert s[i + 6..i + 12] == [BACKSLASH, 117] + e;
      assert s[i..i + 12] == s[i..i + 6] + s[i + 6..i + 12];
      SurrogatesMean(first, Hex4(s, i + 8));
      c := Pair(d, e);
    } else {
      c := if Hex(d) then Code(d) else Loose(d);
    }
  }

  lemma NulIsOneByte()
    ensures Utf8(0) == [0]
  {
  }

  /** Both scans stand at i. */
  ghost predicate InStep(s: seq<byte>, i: nat, end: nat) {
    i <= end < |s| && exists k: nat, k': nat :: ScanString(s, i, k) == Scan(end, k')
  }

  lemma InStepByte(s: seq<byte>, i: nat, end: nat)
    requires InStep(s, i, end) && i < end
    ensures s[i] != QUOTE && (s[i] == BACKSLASH ==> i + 2 <= end && InStep(s, i + 2, end))
    ensures s[i] != BACKSLASH ==> InStep(s, i + 1, end)
  {
    var k: nat, k': nat :| ScanString(s, i, k) == Scan(end, k');
    if s[i] == BACKSLASH {
      assert ScanString(s, i + 2, k + 1) == Scan(end, k');
    } else {
      assert ScanString(s, i + 1, k) == Scan(end, k');
    }
  }

  lemma FourInStep(s: seq<byte>, i: nat, end: nat)
    requires i + 6 <= end && InStep(s, i, end) && s[i] == BACKSLASH && Hex(s[i + 2..i + 6])
    ensures InStep(s, i + 6, end)
  {
    var d := s[i + 2..i + 6];
    assert d[0] == s[i + 2] && d[1] == s[i + 3] && d[2] == s[i + 4] && d[3] == s[i + 5];
    SameDigit(s[i + 2]);
    SameDigit(s[i + 3]);
    SameDigit(s[i + 4]);
    SameDigit(s[i + 5]);
    InStepByte(s, i, end);
    hide InStep;
    InStepByte(s, i + 2, end);
    InStepByte(s, i + 3, end);
    InStepByte(s, i + 4, end);
    InStepByte(s, i + 5, end);
  }

  /** A character as it stands in the input. */
  ghost predicate CharRead(s: seq<byte>, i: nat, end: nat, c: Char, length: nat)
    requires i < end < |s|
  {
    && (c == Slip <==> s[i] == BACKSLASH && s[i + 1] != 117 && i + 1 == end)
    && (c == Slip ==> length == 2)
    && (c != Slip ==> i + length <= end && WrittenChar(c) == s[i..i + length])
    && (LegalChar(c) || IsLoose(c) || c == Slip || (c == Plain(QUOTE) && s[i] == QUOTE))
  }

  lemma OneOrTwoInStep(s: seq<byte>, i: nat, end: nat, c: Char, length: nat)
    requires InStep(s, i, end) && i < end && CharRead(s, i, end, c, length) && (c.Plain? || c.Short? || c == Slip)
    ensures LegalChar(c) && InStep(s, i + length, end)
  {
    InStepByte(s, i, end);
    hide InStep;
    if c != Slip {
      assert |WrittenChar(c)| == length && WrittenChar(c)[0] == s[i];
    }
  }

  lemma CodeInStep(s: seq<byte>, i: nat, end: nat, c: Char, length: nat)
    requires InStep(s, i, end) && i < end && CharRead(s, i, end, c, length) && c.Code?
    ensures InStep(s, i + length, end)
  {
    assert end < |s| && LegalChar(c);
    hide InStep;
    hide Number16;
    assert |WrittenChar(c)| == length == 6;
    assert s[i..i + 6][0] == s[i] && s[i..i + 6][2..] == s[i + 2..i + 6] && WrittenChar(c)[2..] == c.digits;
    FourInStep(s, i, end);
  }

  lemma PairInStep(s: seq<byte>, i: nat, end: nat, c: Char, length: nat)
    requires InStep(s, i, end) && i < end && CharRead(s, i, end, c, length) && c.Pair?
    ensures InStep(s, i + length, end)
  {
    assert end < |s| && LegalChar(c);
    hide InStep;
    hide Number16;
    var w := WrittenChar(c);
    assert |w| == length == 12;
    assert w[2..6] == c.high && w[8..12] == c.low && w[0] == w[6] == BACKSLASH;
    assert s[i..i + 12][2..6] == s[i + 2..i + 6] && s[i..i + 12][8..12] == s[i + 8..i + 12];
    assert s[i..i + 12][0] == s[i] && s[i..i + 12][6] == s[i + 6];
    hide Hex;
    FourInStep(s, i, end);
    FourInStep(s, i + 6, end);
  }

  /** A legal character leaves the scans in step, and in step no other is read but a loose escape. */
  lemma StaysInStep(s: seq<byte>, i: nat, end: nat, c: Char, length: nat)
    requires InStep(s, i, end) && i < end && CharRead(s, i, end, c, length)
    ensures LegalChar(c) || IsLoose(c)
    ensures LegalChar(c) ==> InStep(s, i + length, end)
  {
    hide InStep;
    hide Hex;
    match c
    case Code(_) => CodeInStep(s, i, end, c, length);
    case Pair(_, _) => PairInStep(s, i, end, c, length);
    case Loose(_) =>
    case _ => OneOrTwoInStep(s, i, end, c, length);
  }

  lemma PieceFirst(s: seq<byte>, i: nat, end: nat)
    requires i < end < |s| && Unescape(s, i, end).Bytes?
    ensures var p := ReadPiece(s, i, end);
            && p.Piece? && Unescape(s, i + p.length, end).Bytes?
            && Unescape(s, i, end).bytes == p.bytes + Unescape(s, i + p.length, end).bytes
  {
    hide ReadPiece;
  }

  lemma NoChars(s: seq<byte>, end: nat)
    requires end < |s|
    ensures WrittenChars([]) == s[end..end] && CharsMean([]) == [] && AcceptedChars([]) && Unescape(s, end, end) == Bytes([])
  {
  }

  lemma {:induction false} CharsAccepted(s: seq<byte>, i: nat, end: nat) returns (chars: seq<Char>)
    requires i <= end < |s| && s[end] == QUOTE && Unescape(s, i, end).Bytes?
    ensures WrittenChars(chars) == s[i..end] && CharsMean(chars) == Unescape(s, i, end).bytes
    ensures InStep(s, i, end) ==> AcceptedChars(chars)
    decreases end - i
  {
    hide InStep;
    hide ReadPiece;
    hide AcceptedChars;
    hide LegalChar;
    hide WrittenChar;
    hide CharMeans;
    hide Unescape;
    hide WrittenChars;
    hide CharsMean;
    if i == end {
      chars := [];
      NoChars(s, end);
    } else {
      PieceFirst(s, i, end);
      var n := ReadPiece(s, i, end).length;
      var c := CharAt(s, i, end);
      if InStep(s, i, end) {
        StaysInStep(s, i, end, c, n);
      }
      if c == Slip {
        chars := [Slip];
        EndOfSlip(s, end);
        OneChar(Slip);
        SlipWritten(s, i);
      } else {
        var rest := CharsAccepted(s, i + n, end);
        chars := [c] + rest;
        FirstChar(chars);
        assert chars[1..] == rest;
        assert s[i..end] == s[i..i + n] + s[i + n..end];
        if LegalChar(c) {
          LegalInFront(c, rest);
        } else if IsLoose(c) {
          LooseInFront(c, rest);
        }
      }
    }
  }

  lemma EndOfSlip(s: seq<byte>, end: nat)
    requires end < |s|
    ensures Unescape(s, end + 1, end) == Bytes([])
  {
  }

  lemma SlipWritten(s: seq<byte>, i: nat)
    requires i + 1 < |s| && s[i] == BACKSLASH
    ensures WrittenChar(Slip) == s[i..i + 1] && !LegalChar(Slip) && !IsLoose(Slip)
  {
  }

  lemma LegalInFront(c: Char, rest: seq<Char>)
    requires LegalChar(c)
    ensures AcceptedChars(rest) ==> AcceptedChars([c] + rest)
  {
    if AcceptedChars(rest) && !LegalChars(rest) {
      var j :| 0 <= j < |rest| && IsLoose(rest[j]) && LegalChars(rest[..j]);
      var chars := [c] + rest;
      assert chars[..j + 1] == [c] + rest[..j];
      assert IsLoose(chars[j + 1]) && LegalChars(chars[..j + 1]);
    }
  }

  lemma LooseInFront(c: Char, rest: seq<Char>)
    requires IsLoose(c)
    ensures AcceptedChars([c] + rest)
  {
    var chars := [c] + rest;
    assert IsLoose(chars[0]) && LegalChars(chars[..0]);
  }

  /** A string that is read is written in the grammar. */
  lemma StringAccepted(s: seq<byte>, at: nat) returns (chars: seq<Char>)
    requires at < |s| && ParseString(s, at).Ok?
    ensures AcceptedChars(chars) && s[at..ParseString(s, at).next] == WrittenString(chars)
    ensures UpToNul(CharsMean(chars)) == ParseString(s, at).value
  {
    hide ScanString;
    hide Unescape;
    hide WrittenChars;
    hide CharsMean;
    hide UpToNul;
    var scan := ScanString(s, at + 1, 0);
    StartsInStep(s, at + 1);
    chars := CharsAccepted(s, at + 1, scan.end);
    assert s[at..scan.end + 1] == [QUOTE] + s[at + 1..scan.end] + [QUOTE];
  }

  lemma StartsInStep(s: seq<byte>, i: nat)
    requires i <= |s| && ScanString(s, i, 0).Scan?
    ensures InStep(s, i, ScanString(s, i, 0).end)
  {
    assert ScanString(s, i, 0) == Scan(ScanString(s, i, 0).end, ScanString(s, i, 0).skipped);
  }

  // ---- values ---------------------------------------------------------------------------------

  lemma {:induction false} SkippedBlank(s: seq<byte>, i: nat)
    requires i <= |s|
    ensures Blank(s[i..SkipWhitespace(s, i)])
    decreases |s| - i
  {
    if !(i + 1 >= |s| || s[i] > 32) {
      SkippedBlank(s, i + 1);
      var j := SkipWhitespace(s, i + 1);
      assert s[i..j] == [s[i]] + s[i + 1..j];
    }
  }

  lemma AtSlice(s: seq<byte>, i: nat, t: seq<byte>)
    requires At(s, i, t) && t != []
    ensures i + |t| <= |s| && s[i..i + |t|] == t
  {
    AtIsSlice(s, i, t);
  }

  lemma WordAccepted(s: seq<byte>, at: nat, depth: nat) returns (x: Spelling)
    requires at <= |s| && (At(s, at, NULL_TEXT) || At(s, at, FALSE_TEXT) || At(s, at, TRUE_TEXT))
    ensures ParseValue(s, at, depth).Ok? && Reads(s, at, ParseValue(s, at, depth), x, depth)
  {
    WordBytes();
    x := if At(s, at, NULL_TEXT) then SpelledNull else if At(s, at, FALSE_TEXT) then SpelledFalse else SpelledTrue;
    AtSlice(s, at, if At(s, at, NULL_TEXT) then NULL_TEXT else if At(s, at, FALSE_TEXT) then FALSE_TEXT else TRUE_TEXT);
  }

  /** The result of a parse is what x means, and x is what stands there. */
  ghost predicate Reads(s: seq<byte>, at: nat, r: Parsed<Value>, x: Spelling, depth: nat) {
    r.Ok? && Accepted(x, depth) && Means(x) == r.value && at <= r.next <= |s| && s[at..r.next] == Written(x)
  }

  lemma NumberAccepted(s: seq<byte>, at: nat, depth: nat) returns (x: Spelling)
    requires at < |s| && ParseNumber(s, at).Ok?
    ensures Reads(s, at, ParseNumber(s, at), x, depth)
  {
    hide NumberOf;
    hide EndOfDigits;
    hide Written;
    hide Means;
    hide Accepted;
    var first := if s[at] == MINUS then at + 1 else at;
    var end := EndOfDigits(s, first);
    DigitsFound(s, first);
    var digits := s[first..end];
    assert forall k :: 0 <= k < |digits| ==> IsDigit(digits[k]);
    x := SpelledNumber(s[at] == MINUS, digits);
    NumberSpelled(x.negative, digits, end, depth);
    if x.negative {
      assert s[at..end] == [s[at]] + digits;
    }
  }

  lemma NumberSpelled(negative: bool, digits: seq<byte>, next: nat, depth: nat)
    requires digits != [] && AllDigits(digits) && NumberRead(NumberOf(digits), negative, next).Ok?
    ensures var x := SpelledNumber(negative, digits);
            && Accepted(x, depth) && NumberRead(NumberOf(digits), negative, next) == Ok(Means(x), next)
            && Written(x) == (if negative then [MINUS] + digits else digits)
  {
    hide NumberOf;
    assert [] + digits == digits;
  }

  lemma StringValueAccepted(s: seq<byte>, at: nat, depth: nat) returns (x: Spelling)
    requires at < |s| && s[at] == QUOTE && ParseValue(s, at, depth).Ok?
    ensures Reads(s, at, ParseValue(s, at, depth), x, depth)
  {
    hide ParseString;
    hide At;
    hide WrittenString;
    hide AcceptedChars;
    NotAWord(s, at);
    var chars := StringAccepted(s, at);
    x := SpelledString(chars);
  }

  /** Whatever is parsed is written in the grammar. */
  lemma {:induction false} ValueAccepted(s: seq<byte>, at: nat, depth: nat) returns (x: Spelling)
    requires at <= |s| && ParseValue(s, at, depth).Ok?
    ensures Reads(s, at, ParseValue(s, at, depth), x, depth)
    decreases |s| - at, 1
  {
    hide At;
    hide ParseString;
    hide ParseNumber;
    hide ParseArray;
    hide ParseObject;
    hide Reads;
    if At(s, at, NULL_TEXT) || At(s, at, FALSE_TEXT) || At(s, at, TRUE_TEXT) {
      x := WordAccepted(s, at, depth);
    } else if Sees(s, at, QUOTE) {
      x := StringValueAccepted(s, at, depth);
    } else if s[at] == MINUS || IsDigit(s[at]) {
      x := NumberAccepted(s, at, depth);
    } else if s[at] == LBRACKET {
      x := ArrayAccepted(s, at, depth);
    } else {
      x := ObjectAccepted(s, at, depth);
    }
  }

  /** More white space in front of the first item. */
  lemma {:induction false} ItemsBehind(blank: seq<byte>, items: seq<SpelledItem>, depth: nat) returns (more: seq<SpelledItem>)
    requires items != [] && AcceptedItems(items, depth) && Blank(blank)
    ensures more != [] && AcceptedItems(more, depth) && ItemsMean(more) == ItemsMean(items)
    ensures WrittenItems(more) == blank + WrittenItems(items)
  {
    hide Accepted;
    hide Written;
    hide Means;
    var first := items[0].(before := blank + items[0].before);
    more := [first] + items[1..];
    assert more[1..] == items[1..];
    var tail := if |items| == 1 then [] else [COMMA] + WrittenItems(items[1..]);
    var middle := Written(first.value) + first.after;
    assert blank + items[0].before + Written(first.value) + first.after + tail
           == blank + (items[0].before + Written(first.value) + first.after + tail);
  }

  lemma {:induction false} ArrayAccepted(s: seq<byte>, at: nat, depth: nat) returns (x: Spelling)
    requires Sees(s, at, LBRACKET) && ParseArray(s, at, depth).Ok?
    ensures Reads(s, at, ParseArray(s, at, depth), x, depth)
    decreases |s| - at, 0
  {
    hide SkipWhitespace;
    hide ParseItems;
    hide Accepted;
    hide Written;
    hide Means;
    hide Blank;
    hide WrittenItems;
    hide ItemsMean;
    hide AcceptedItems;
    var first := SkipWhitespace(s, at + 1);
    SkippedBlank(s, at + 1);
    var blank := s[at + 1..first];
    if s[first] == RBRACKET {
      x := SpelledArray(blank, []);
      assert s[at..first + 1] == [LBRACKET] + blank + [RBRACKET];
      EmptyArray(blank, depth);
    } else {
      var items := ItemsAccepted(s, first, depth + 1);
      var end := ParseItems(s, first, depth + 1).next;
      var more := ItemsBehind(blank, items, depth + 1);
      NoBlank();
      x := SpelledArray([], more);
      assert s[at..end] == [LBRACKET] + (blank + WrittenItems(items)) + [RBRACKET] by {
        assert s[at..end] == [s[at]] + s[at + 1..first] + s[first..end];
      }
      FullArray(more, depth);
    }
  }

  lemma {:induction false} EmptyArray(blank: seq<byte>, depth: nat)
    requires depth < NESTING_LIMIT && Blank(blank)
    ensures var x := SpelledArray(blank, []);
            Accepted(x, depth) && Means(x) == Arr([]) && Written(x) == [LBRACKET] + blank + [RBRACKET]
  {
  }

  lemma {:induction false} FullArray(items: seq<SpelledItem>, depth: nat)
    requires depth < NESTING_LIMIT && items != [] && AcceptedItems(items, depth + 1)
    ensures var x := SpelledArray([], items);
            && Accepted(x, depth) && Means(x) == Arr(ItemsMean(items))
            && Written(x) == [LBRACKET] + WrittenItems(items) + [RBRACKET]
  {
  }

  /** One item in front of others. */
  lemma {:induction false} ItemInFront(item: SpelledItem, rest: seq<SpelledItem>, depth: nat)
    requires Blank(item.before) && Accepted(item.value, depth) && Blank(item.after) && AcceptedItems(rest, depth)
    ensures var items := [item] + rest;
            && AcceptedItems(items, depth)
            && ItemsMean(items) == [Means(item.value)] + ItemsMean(rest)
            && WrittenItems(items) == item.before + Written(item.value) + item.after
                                      + (if rest == [] then [] else [COMMA] + WrittenItems(rest))
            && (rest == [] ==> ItemsMean(rest) == [])
  {
    var items := [item] + rest;
    assert items[1..] == rest;
    hide Accepted;
    hide Written;
    hide Means;
    hide Blank;
  }

  lemma {:induction false} ItemsAccepted(s: seq<byte>, at: nat, depth: nat) returns (items: seq<SpelledItem>)
    requires at <= |s| && ParseItems(s, at, depth).Ok?
    ensures items != [] && AcceptedItems(items, depth) && ItemsMean(items) == ParseItems(s, at, depth).value
    ensures s[at..ParseItems(s, at, depth).next] == WrittenItems(items) + [RBRACKET]
    decreases |s| - at, 2
  {
    hide SkipWhitespace;
    hide ParseValue;
    hide Blank;
    hide Accepted;
    hide Written;
    hide Means;
    hide AcceptedItems;
    hide WrittenItems;
    hide ItemsMean;
    var start := SkipWhitespace(s, at);
    SkippedBlank(s, at);
    var x := ValueAccepted(s, start, depth);
    var next := ParseValue(s, start, depth).next;
    var after := SkipWhitespace(s, next);
    SkippedBlank(s, next);
    var item := SpelledItem(s[at..start], x, s[next..after]);
    Sliced(s, at, start, next, after);
    if s[after] == COMMA {
      var rest := ItemsAccepted(s, after + 1, depth);
      ItemInFront(item, rest, depth);
      items := [item] + rest;
      CommaBetween(s, at, after, ParseItems(s, after + 1, depth).next, WrittenItems(rest), RBRACKET);
    } else {
      NoItems(depth);
      ItemInFront(item, [], depth);
      items := [item] + [];
      Closed(s, at, after);
    }
  }

  lemma Sliced(s: seq<byte>, a: nat, b: nat, c: nat, d: nat)
    requires a <= b <= c <= d <= |s|
    ensures s[a..d] == s[a..b] + s[b..c] + s[c..d]
  {
  }

  lemma Closed(s: seq<byte>, at: nat, after: nat)
    requires at <= after < |s|
    ensures s[at..after + 1] == s[at..after] + [] + [s[after]]
  {
  }

  lemma CommaBetween(s: seq<byte>, at: nat, after: nat, end: nat, rest: seq<byte>, close: byte)
    requires at <= after < end <= |s| && s[after] == COMMA && s[after + 1..end] == rest + [close]
    ensures s[at..end] == s[at..after] + ([COMMA] + rest) + [close]
  {
    Sliced(s, at, after, after + 1, end);
    assert s[after..after + 1] == [COMMA];
    assert s[at..after] + [COMMA] + (rest + [close]) == s[at..after] + ([COMMA] + rest) + [close];
  }

  lemma TailAfter(s: seq<byte>, at: nat, next: nat, after: nat, head: seq<byte>, tail: seq<byte>)
    requires at <= next <= after <= |s| && s[at..next] == head + tail
    ensures s[at..after] == head + (tail + s[next..after])
  {
    assert s[at..after] == s[at..next] + s[next..after];
  }

  lemma NoItems(depth: nat)
    ensures AcceptedItems([], depth)
  {
  }

  lemma {:induction false} MembersBehind(blank: seq<byte>, members: seq<SpelledMember>, depth: nat)
    returns (more: seq<SpelledMember>)
    requires members != [] && AcceptedMembers(members, depth) && Blank(blank)
    ensures more != [] && AcceptedMembers(more, depth) && MembersMean(more) == MembersMean(members)
    ensures WrittenMembers(more) == blank + WrittenMembers(members)
  {
    hide Accepted;
    hide AcceptedChars;
    hide Written;
    hide WrittenString;
    hide Means;
    hide CharsMean;
    hide UpToNul;
    var m := members[0];
    var first := m.(before := blank + m.before);
    more := [first] + members[1..];
    assert more[1..] == members[1..];
    var tail := if |members| == 1 then [] else [COMMA] + WrittenMembers(members[1..]);
    var middle := [COLON] + m.afterColon + Written(m.value) + m.after;
    assert ((blank + m.before) + WrittenString(m.name) + m.beforeColon) + middle + tail
           == blank + ((m.before + WrittenString(m.name) + m.beforeColon) + middle + tail);
  }

  lemma {:induction false} ObjectAccepted(s: seq<byte>, at: nat, depth: nat) returns (x: Spelling)
    requires Sees(s, at, LBRACE) && ParseObject(s, at, depth).Ok?
    ensures Reads(s, at, ParseObject(s, at, depth), x, depth)
    decreases |s| - at, 0
  {
    hide SkipWhitespace;
    hide ParseMembers;
    hide Accepted;
    hide Written;
    hide Means;
    hide Blank;
    hide WrittenMembers;
    hide MembersMean;
    hide AcceptedMembers;
    var first := SkipWhitespace(s, at + 1);
    SkippedBlank(s, at + 1);
    var blank := s[at + 1..first];
    if s[first] == RBRACE {
      x := SpelledObject(blank, []);
      assert s[at..first + 1] == [LBRACE] + blank + [RBRACE];
      EmptyObject(blank, depth);
    } else {
      var members := MembersAccepted(s, first, depth + 1);
      var end := ParseMembers(s, first, depth + 1).next;
      var more := MembersBehind(blank, members, depth + 1);
      NoBlank();
      x := SpelledObject([], more);
      assert s[at..end] == [LBRACE] + (blank + WrittenMembers(members)) + [RBRACE] by {
        assert s[at..end] == [s[at]] + s[at + 1..first] + s[first..end];
      }
      FullObject(more, depth);
    }
  }

  lemma {:induction false} EmptyObject(blank: seq<byte>, depth: nat)
    requires depth < NESTING_LIMIT && Blank(blank)
    ensures var x := SpelledObject(blank, []);
            Accepted(x, depth) && Means(x) == Obj([]) && Written(x) == [LBRACE] + blank + [RBRACE]
  {
  }

  lemma {:induction false} FullObject(members: seq<SpelledMember>, depth: nat)
    requires depth < NESTING_LIMIT && members != [] && AcceptedMembers(members, depth + 1)
    ensures var x := SpelledObject([], members);
            && Accepted(x, depth) && Means(x) == Obj(MembersMean(members))
            && Written(x) == [LBRACE] + WrittenMembers(members) + [RBRACE]
  {
  }

  /** A member as it stands in the input, up to the end of its value. */
  ghost predicate MemberRead(s: seq<byte>, at: nat, r: Parsed<Member>, m: SpelledMember, depth: nat) {
    && r.Ok? && at <= r.next <= |s| && m.after == []
    && Blank(m.before) && AcceptedChars(m.name) && Blank(m.beforeColon) && Blank(m.afterColon) && Accepted(m.value, depth)
    && r.value == Member(UpToNul(CharsMean(m.name)), Means(m.value))
    && s[at..r.next] == (m.before + WrittenString(m.name) + m.beforeColon) + ([COLON] + m.afterColon + Written(m.value))
  }

  lemma {:induction false} SixStretches<T>(s: seq<T>, a: nat, b: nat, c: nat, d: nat, e: nat, f: nat)
    requires a <= b <= c <= d < e <= f <= |s|
    ensures s[a..f] == (s[a..b] + s[b..c] + s[c..d]) + ([s[d]] + s[d + 1..e] + s[e..f])
  {
    assert s[a..d] == s[a..b] + s[b..c] + s[c..d];
    assert s[d..f] == [s[d]] + s[d + 1..e] + s[e..f];
    assert s[a..f] == s[a..d] + s[d..f];
  }

  lemma {:induction false} MemberAccepted(s: seq<byte>, at: nat, depth: nat) returns (m: SpelledMember)
    requires at < |s| && ParseMember(s, at, depth).Ok?
    ensures MemberRead(s, at, ParseMember(s, at, depth), m, depth)
    decreases |s| - at, 2
  {
    hide SkipWhitespace;
    hide ParseValue;
    hide ParseString;
    hide Blank;
    hide Accepted;
    hide AcceptedChars;
    hide Written;
    hide WrittenString;
    hide Means;
    hide CharsMean;
    hide UpToNul;
    var name := SkipWhitespace(s, at);
    SkippedBlank(s, at);
    var chars := StringAccepted(s, name);
    var next := ParseString(s, name).next;
    var colon := SkipWhitespace(s, next);
    SkippedBlank(s, next);
    var value := SkipWhitespace(s, colon + 1);
    SkippedBlank(s, colon + 1);
    var x := ValueAccepted(s, value, depth);
    var end := ParseValue(s, value, depth).next;
    m := SpelledMember(s[at..name], chars, s[next..colon], s[colon + 1..value], x, []);
    SixStretches(s, at, name, next, colon, value, end);
  }

  /** One member in front of others. */
  lemma {:induction false} MemberInFront(m: SpelledMember, rest: seq<SpelledMember>, depth: nat)
    requires Blank(m.before) && AcceptedChars(m.name) && Blank(m.beforeColon) && Blank(m.afterColon)
    requires Accepted(m.value, depth) && Blank(m.after) && AcceptedMembers(rest, depth)
    ensures var members := [m] + rest;
            && AcceptedMembers(members, depth)
            && MembersMean(members) == [Member(UpToNul(CharsMean(m.name)), Means(m.value))] + MembersMean(rest)
            && WrittenMembers(members)
               == (m.before + WrittenString(m.name) + m.beforeColon) + ([COLON] + m.afterColon + Written(m.value) + m.after)
                  + (if rest == [] then [] else [COMMA] + WrittenMembers(rest))
            && (rest == [] ==> MembersMean(rest) == [])
  {
    var members := [m] + rest;
    assert members[1..] == rest;
    hide Accepted;
    hide AcceptedChars;
    hide Written;
    hide WrittenString;
    hide Means;
    hide CharsMean;
    hide UpToNul;
    hide Blank;
  }

  lemma {:induction false} MembersAccepted(s: seq<byte>, at: nat, depth: nat) returns (members: seq<SpelledMember>)
    requires at <= |s| && ParseMembers(s, at, depth).Ok?
    ensures members != [] && AcceptedMembers(members, depth) && MembersMean(members) == ParseMembers(s, at, depth).value
    ensures s[at..ParseMembers(s, at, depth).next] == WrittenMembers(members) + [RBRACE]
    decreases |s| - at, 3
  {
    hide SkipWhitespace;
    hide ParseMember;
    hide Blank;
    hide Accepted;
    hide AcceptedChars;
    hide Written;
    hide WrittenString;
    hide Means;
    hide CharsMean;
    hide UpToNul;
    hide AcceptedMembers;
    hide WrittenMembers;
    hide MembersMean;
    var bare := MemberAccepted(s, at, depth);
    var next := ParseMember(s, at, depth).next;
    var after := SkipWhitespace(s, next);
    SkippedBlank(s, next);
    var m := bare.(after := s[next..after]);
    var head, tail := m.before + WrittenString(m.name) + m.beforeColon, [COLON] + m.afterColon + Written(m.value);
    TailAfter(s, at, next, after, head, tail);
    if s[after] == COMMA {
      var rest := MembersAccepted(s, after + 1, depth);
      MemberInFront(m, rest, depth);
      members := [m] + rest;
      CommaBetween(s, at, after, ParseMembers(s, after + 1, depth).next, WrittenMembers(rest), RBRACE);
    } else {
      NoMembers(depth);
      MemberInFront(m, [], depth);
      members := [m] + [];
      Closed(s, at, after);
    }
  }

  lemma NoMembers(depth: nat)
    ensures AcceptedMembers([], depth)
  {
  }

  // ---- whole texts ----------------------------------------------------------------------------

  /** Whatever text parses is a byte order mark or none, white space, a value in the grammar that
      means the result, and, if a NUL was asked for, white space up to that NUL. */
  lemma {:induction false} TextAccepted(s: seq<byte>, requireNul: bool)
    returns (bom: seq<byte>, before: seq<byte>, x: Spelling, after: seq<byte>)
    requires ParseText(s, requireNul).Ok?
    ensures (bom == [] || bom == [0xEF, 0xBB, 0xBF]) && Blank(before) && Accepted(x, 0) && Blank(after)
    ensures ParseText(s, requireNul).value == Means(x)
    ensures ParseText(s, requireNul).next <= |s|
    ensures s[..ParseText(s, requireNul).next] == bom + before + Written(x) + after
    ensures if requireNul then Sees(s, ParseText(s, requireNul).next, 0) else after == []
  {
    hide SkipWhitespace;
    hide ParseValue;
    hide Blank;
    hide Accepted;
    hide Written;
    hide Means;
    var start := if |s| > 4 && s[0] == 0xEF && s[1] == 0xBB && s[2] == 0xBF then 3 else 0;
    bom := s[..start];
    var at := SkipWhitespace(s, start);
    SkippedBlank(s, start);
    before := s[start..at];
    x := ValueAccepted(s, at, 0);
    var next := ParseValue(s, at, 0).next;
    NoBlank();
    after := [];
    if requireNul {
      SkippedBlank(s, next);
      after := s[next..SkipWhitespace(s, next)];
    }
    Sliced(s, 0, start, at, next);
    assert s[..next] == s[0..next] && s[..start] == s[0..start];
    assert s[..next + |after|] == s[..next] + after;
  }

  lemma NoBlank()
    ensures Blank([])
  {
  }

  // ---- other escapes --------------------------------------------------------------------------

  lemma {:induction false} ScansPast(s: seq<byte>, i: nat, k: nat, skipped: nat)
    requires i <= k && k + 1 < |s| && s[k] == BACKSLASH
    requires forall j :: i <= j < k ==> s[j] != QUOTE && s[j] != BACKSLASH
    ensures ScanString(s, i, skipped).Scan? ==> ScanString(s, i, skipped).end >= k + 2
    decreases k - i
  {
    if i < k {
      ScansPast(s, i + 1, k, skipped);
    } else {
      assert ScanString(s, i, skipped) == ScanString(s, i + 2, skipped + 1);
    }
  }

  lemma {:induction false} StopsAtEscape(s: seq<byte>, i: nat, k: nat, end: nat)
    requires i <= k < end < |s| && s[k] == BACKSLASH && s[k + 1] != 117 && ShortByte(s[k + 1] as char).None?
    requires forall j :: i <= j < k ==> s[j] != QUOTE && s[j] != BACKSLASH
    ensures Unescape(s, i, end) == BadEscape
    decreases k - i
  {
    if i < k {
      StopsAtEscape(s, i + 1, k, end);
    } else if SimpleEscape(s[k + 1]).Ok? {
      LetterRead(s[k + 1]);
    }
  }

  /** A backslash before any byte but the eight of section 7 and `u` fails the parse, whatever
      follows. */
  lemma {:induction false} OtherEscapesFail(before: seq<byte>, letter: byte, rest: seq<byte>, requireNul: bool)
    requires IsPlain(before) && letter != 'u' as nat
    requires letter !in {0x22, 0x5C, 0x2F, 0x62, 0x66, 0x6E, 0x72, 0x74}
    ensures ParseText([0x22] + before + [0x5C, letter] + rest, requireNul).Err?
  {
    var s := [0x22] + before + [0x5C, letter] + rest;
    var k := 1 + |before|;
    assert s[0] == 0x22 && s[k] == 0x5C && s[k + 1] == letter;
    assert forall j :: 1 <= j < k ==> s[j] == before[j - 1];
    ScansPast(s, 1, k, 0);
    if ScanString(s, 1, 0).Scan? {
      StopsAtEscape(s, 1, k, ScanString(s, 1, 0).end);
    }
    assert ParseString(s, 0).Err?;
    hide ParseString;
    hide At;
    NotAWord(s, 0);
    SkipOver(s, 0, 0);
  }

  lemma FractionAt(s: seq<byte>, at: nat, first: nat, end: nat)
    requires at < |s| && first == (if s[at] == MINUS then at + 1 else at) && first < end < |s|
    requires EndOfDigits(s, first) == end && StartsFraction(s, end)
    ensures ParseNumber(s, at) == Err(Fractional)
  {
    hide EndOfDigits;
  }

  /** An integer with a point, an `e` or an `E` behind it is a number of the kind the model sets apart. */
  lemma {:induction false} FractionsAreSetApart(negative: bool, digits: seq<byte>, next: byte, rest: seq<byte>, requireNul: bool)
    requires digits != [] && AllDigits(digits) && next in {0x2E, 0x45, 0x65}
    ensures ParseText((if negative then [0x2D] else []) + digits + [next] + rest, requireNul) == Err(Fractional)
  {
    var sign: seq<byte> := if negative then [0x2D] else [];
    var s := sign + digits + [next] + rest;
    var first, end := |sign|, |sign| + |digits|;
    assert s[end] == next;
    forall k | first <= k < end ensures IsDigit(s[k]) {
      assert s[k] == digits[k - first];
    }
    DigitsEnd(s, first, end);
    assert negative ==> s[0] == 0x2D;
    FractionAt(s, 0, first, end);
    hide EndOfDigits;
    hide ParseNumber;
    hide ParseString;
    hide At;
    NotAWord(s, 0);
    SkipOver(s, 0, 0);
  }
}
