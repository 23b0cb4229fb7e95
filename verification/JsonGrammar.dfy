/**
 JSON as RFC 8259 spells it, apart from the code: a text with its choices of white space,
 escapes and digits, what it is written as and what it means; and that the parser of
 src/giga_spi_8adc/cJSON.c reads every such text as what it means.
 */
module JsonGrammar {
  import opened Common
  import opened JsonText

  // ---- the grammar --------------------------------------------------------------------------

  /** One character of a string: a byte as it is, one of the two-character escapes, a code point
      as four hexadecimal digits, or one as a surrogate pair.  The code accepts besides four bytes
      that are not all hexadecimal digits, for a code point 0, and, when such digits have brought
      its two scans out of step, a backslash before the closing quote, for a quote. */
  datatype Char =
    | Plain(b: byte)
    | Short(letter: char)
    | Code(digits: seq<byte>)
    | Pair(high: seq<byte>, low: seq<byte>)
    | Loose(digits: seq<byte>)
    | Slip

  datatype Spelling =
    | SpelledNull
    | SpelledFalse
    | SpelledTrue
    | SpelledNumber(negative: bool, digits: seq<byte>)
    | SpelledString(chars: seq<Char>)
    | SpelledArray(blank: seq<byte>, items: seq<SpelledItem>)         // blank: when there are none
    | SpelledObject(blank: seq<byte>, members: seq<SpelledMember>)

  datatype SpelledItem = SpelledItem(before: seq<byte>, value: Spelling, after: seq<byte>)

  datatype SpelledMember = SpelledMember(
    before: seq<byte>, name: seq<Char>, beforeColon: seq<byte>, afterColon: seq<byte>, value: Spelling, after: seq<byte>)

  /** The codes of ASCII characters. */
  function Ascii(text: string): (bytes: seq<byte>)
    requires forall i :: 0 <= i < |text| ==> text[i] < 128 as char
    ensures |bytes| == |text|
  {
    seq(|text|, i requires 0 <= i < |text| => text[i] as nat)
  }

  /** Section 7: what the two-character escapes stand for. */
  function ShortByte(letter: char): Option<byte> {
    match letter
    case '\"' => Some(0x22)    // quotation mark
    case '\\' => Some(0x5C)    // reverse solidus
    case '/' => Some(0x2F)     // solidus
    case 'b' => Some(0x08)     // backspace
    case 'f' => Some(0x0C)     // form feed
    case 'n' => Some(0x0A)     // line feed
    case 'r' => Some(0x0D)     // carriage return
    case 't' => Some(0x09)     // tab
    case _ => None
  }

  function Digit16(b: byte): Option<nat> {
    if '0' as nat <= b <= '9' as nat then Some(b - '0' as nat)
    else if 'a' as nat <= b <= 'f' as nat then Some(b - 'a' as nat + 10)
    else if 'A' as nat <= b <= 'F' as nat then Some(b - 'A' as nat + 10)
    else None
  }

  predicate Hex(digits: seq<byte>) {
    |digits| == 4 && forall k :: 0 <= k < 4 ==> Digit16(digits[k]).Some?
  }

  function Number16(digits: seq<byte>): (n: nat)
    requires Hex(digits)
    ensures n < 0x1_0000
  {
    assert forall k :: 0 <= k < 4 ==> Digit16(digits[k]).value < 16;
    0x1000 * Digit16(digits[0]).value + 0x100 * Digit16(digits[1]).value
    + 0x10 * Digit16(digits[2]).value + Digit16(digits[3]).value
  }

  predicate LegalChar(c: Char) {
    match c
    case Plain(b) => b != '\"' as nat && b != '\\' as nat
    case Short(letter) => ShortByte(letter).Some?
    case Code(digits) => Hex(digits) && !(0xD800 <= Number16(digits) <= 0xDFFF)
    case Pair(high, low) =>
      Hex(high) && Hex(low) && 0xD800 <= Number16(high) <= 0xDBFF && 0xDC00 <= Number16(low) <= 0xDFFF
    case _ => false
  }

  function WrittenChar(c: Char): seq<byte> {
    match c
    case Plain(b) => [b]
    case Short(letter) => ['\\' as nat, if letter < 128 as char then letter as nat else 0]
    case Code(digits) => ['\\' as nat, 'u' as nat] + digits
    case Pair(high, low) => (['\\' as nat, 'u' as nat] + high) + (['\\' as nat, 'u' as nat] + low)
    case Loose(digits) => ['\\' as nat, 'u' as nat] + digits
    case Slip => ['\\' as nat]
  }

  /** Of an escape that spells nothing, nothing. */
  function CharMeans(c: Char): seq<byte> {
    match c
    case Plain(b) => [b]
    case Short(letter) => if ShortByte(letter).Some? then [ShortByte(letter).value] else []
    case Code(digits) => if LegalChar(c) then Utf8(Number16(digits)) else []
    case Pair(high, low) =>
      if LegalChar(c) then Utf8(0x1_0000 + 0x400 * (Number16(high) - 0xD800) + (Number16(low) - 0xDC00)) else []
    case Loose(_) => [0]
    case Slip => ['\"' as nat]
  }

  predicate LegalChars(chars: seq<Char>) {
    forall i :: 0 <= i < |chars| ==> LegalChar(chars[i])
  }

  function WrittenChars(chars: seq<Char>): seq<byte> {
    if chars == [] then [] else WrittenChar(chars[0]) + WrittenChars(chars[1..])
  }

  function CharsMean(chars: seq<Char>): seq<byte> {
    if chars == [] then [] else CharMeans(chars[0]) + CharsMean(chars[1..])
  }

  function WrittenString(chars: seq<Char>): seq<byte> {
    ['\"' as nat] + WrittenChars(chars) + ['\"' as nat]
  }

  /** What the parser takes for white space. */
  predicate Blank(text: seq<byte>) {
    forall i :: 0 <= i < |text| ==> text[i] <= 32
  }

  predicate AllDigits(digits: seq<byte>) {
    forall i :: 0 <= i < |digits| ==> '0' as nat <= digits[i] <= '9' as nat
  }

  function Number10(digits: seq<byte>): nat {
    if AllDigits(digits) then NumberOf(digits) else 0
  }

  /** Digits whose number is exact in the model, or overflows. */
  predicate LegalDigits(digits: seq<byte>) {
    digits != [] && AllDigits(digits) && (Number10(digits) < EXACT_LIMIT || Number10(digits) >= OVERFLOW_LIMIT)
  }

  function Written(x: Spelling): seq<byte>
    decreases x
  {
    match x
    case SpelledNull => Ascii("null")
    case SpelledFalse => Ascii("false")
    case SpelledTrue => Ascii("true")
    case SpelledNumber(negative, digits) => (if negative then ['-' as nat] else []) + digits
    case SpelledString(chars) => WrittenString(chars)
    case SpelledArray(blank, items) =>
      ['[' as nat] + (if items == [] then blank else WrittenItems(items)) + [']' as nat]
    case SpelledObject(blank, members) =>
      ['{' as nat] + (if members == [] then blank else WrittenMembers(members)) + ['}' as nat]
  }

  function WrittenItems(items: seq<SpelledItem>): seq<byte>
    decreases items
  {
    if items == [] then []
    else
      items[0].before + Written(items[0].value) + items[0].after
      + (if |items| == 1 then [] else [',' as nat] + WrittenItems(items[1..]))
  }

  function WrittenMembers(members: seq<SpelledMember>): seq<byte>
    decreases members
  {
    if members == [] then []
    else
      var m := members[0];
      (m.before + WrittenString(m.name) + m.beforeColon) + ([':' as nat] + m.afterColon + Written(m.value) + m.after)
      + (if |members| == 1 then [] else [',' as nat] + WrittenMembers(members[1..]))
  }

  /** The value; a string as the C string it is kept as. */
  function Means(x: Spelling): Value
    decreases x
  {
    match x
    case SpelledNull => Null
    case SpelledFalse => False
    case SpelledTrue => True
    case SpelledNumber(negative, digits) =>
      var n := Number10(digits);
      if n >= OVERFLOW_LIMIT then Infinite(negative)
      else if n < EXACT_LIMIT then Num(if negative then 0 - n else n)
      else Null    // not a legal spelling in the model
    case SpelledString(chars) => Str(UpToNul(CharsMean(chars)))
    case SpelledArray(_, items) => Arr(ItemsMean(items))
    case SpelledObject(_, members) => Obj(MembersMean(members))
  }

  function ItemsMean(items: seq<SpelledItem>): (values: seq<Value>)
    decreases items
  {
    if items == [] then [] else [Means(items[0].value)] + ItemsMean(items[1..])
  }

  function MembersMean(members: seq<SpelledMember>): (values: seq<Member>)
    decreases members
  {
    if members == [] then []
    else [Member(UpToNul(CharsMean(members[0].name)), Means(members[0].value))] + MembersMean(members[1..])
  }

  /** White space where it may stand, legal strings and numbers, and arrays and objects nested no
      deeper than 1000, `depth` of them around this one. */
  predicate Legal(x: Spelling, depth: nat)
    decreases x
  {
    match x
    case SpelledNumber(_, digits) => LegalDigits(digits)
    case SpelledString(chars) => LegalChars(chars)
    case SpelledArray(blank, items) => depth < 1000 && Blank(blank) && LegalItems(items, depth + 1)
    case SpelledObject(blank, members) => depth < 1000 && Blank(blank) && LegalMembers(members, depth + 1)
    case _ => true
  }

  predicate LegalItems(items: seq<SpelledItem>, depth: nat)
    decreases items
  {
    items == [] ||
    (Blank(items[0].before) && Legal(items[0].value, depth) && Blank(items[0].after) && LegalItems(items[1..], depth))
  }

  predicate LegalMembers(members: seq<SpelledMember>, depth: nat)
    decreases members
  {
    members == [] ||
    (var m := members[0];
     && Blank(m.before) && LegalChars(m.name) && Blank(m.beforeColon) && Blank(m.afterColon)
     && Legal(m.value, depth) && Blank(m.after) && LegalMembers(members[1..], depth))
  }

  // ---- texts inside an input ----------------------------------------------------------------

  lemma {:induction false} AtSplit(s: seq<byte>, i: nat, a: seq<byte>, b: seq<byte>)
    ensures At(s, i, a + b) <==> At(s, i, a) && At(s, i + |a|, b)
    decreases |a|
  {
    if a == [] {
      assert a + b == b;
    } else {
      assert (a + b)[1..] == a[1..] + b;
      AtSplit(s, i + 1, a[1..], b);
    }
  }

  lemma AtSplit3(s: seq<byte>, i: nat, a: seq<byte>, b: seq<byte>, c: seq<byte>)
    requires At(s, i, a + b + c)
    ensures At(s, i, a) && At(s, i + |a|, b) && At(s, i + |a| + |b|, c)
  {
    AtSplit(s, i, a + b, c);
    AtSplit(s, i, a, b);
  }

  lemma {:induction false} AtByte(s: seq<byte>, i: nat, t: seq<byte>, k: nat)
    requires At(s, i, t) && k < |t|
    ensures i + k < |s| && s[i + k] == t[k]
    decreases k
  {
    if k > 0 {
      AtByte(s, i + 1, t[1..], k - 1);
    }
  }

  lemma AtSameStart(s: seq<byte>, i: nat, t: seq<byte>)
    requires t != []
    ensures At(s, i, t) ==> Sees(s, i, t[0])
  {
  }

  /** The converse, and what the parser's own comparisons amount to. */
  lemma {:induction false} AtIsSlice(s: seq<byte>, i: nat, t: seq<byte>)
    requires i + |t| <= |s|
    ensures At(s, i, t) <==> s[i..i + |t|] == t
    decreases |t|
  {
    if t != [] {
      AtIsSlice(s, i + 1, t[1..]);
      assert s[i..i + |t|] == [s[i]] + s[i + 1..i + 1 + |t[1..]|];
      assert t == [t[0]] + t[1..];
    }
  }

  lemma {:induction false} SkipOver(s: seq<byte>, i: nat, j: nat)
    requires i <= j < |s| && s[j] > 32
    requires forall k :: i <= k < j ==> s[k] <= 32
    ensures SkipWhitespace(s, i) == j
    decreases j - i
  {
    if i < j {
      SkipOver(s, i + 1, j);
    }
  }

  // ---- numbers ------------------------------------------------------------------------------

  /** No byte that would continue a number follows. */
  predicate NumberEnds(s: seq<byte>, i: nat) {
    i < |s| ==> !IsDigit(s[i]) && !StartsFraction(s, i)
  }

  lemma {:induction false} DigitsEnd(s: seq<byte>, i: nat, j: nat)
    requires i <= j <= |s| && (forall k :: i <= k < j ==> IsDigit(s[k]))
    requires j < |s| ==> !IsDigit(s[j])
    ensures EndOfDigits(s, i) == j
    decreases j - i
  {
    if i < j {
      DigitsEnd(s, i + 1, j);
    }
  }

  /** What the parser makes of a sign and a run of digits. */
  lemma NumberAt(s: seq<byte>, at: nat, first: nat, end: nat)
    requires at < |s| && first == (if s[at] == MINUS then at + 1 else at) && first < end <= |s|
    requires EndOfDigits(s, first) == end && !StartsFraction(s, end)
    ensures forall k :: first <= k < end ==> IsDigit(s[k])
    ensures ParseNumber(s, at) == NumberRead(NumberOf(s[first..end]), s[at] == MINUS, end)
  {
    hide NumberOf;
    hide NumberRead;
    DigitsFound(s, first);
    hide EndOfDigits;
  }

  /** Digits seen in an input are its run of digits. */
  lemma DigitsSeen(s: seq<byte>, first: nat, digits: seq<byte>)
    requires digits != [] && (forall k :: 0 <= k < |digits| ==> IsDigit(digits[k]))
    requires At(s, first, digits) && NumberEnds(s, first + |digits|)
    ensures var end := first + |digits|;
            && end <= |s| && IsDigit(s[first])
            && EndOfDigits(s, first) == end && s[first..end] == digits
  {
    AtIsSlice(s, first, digits);
    hide At;
    hide EndOfDigits;
    var end := first + |digits|;
    forall k | first <= k < end ensures IsDigit(s[k]) {
      assert s[k] == s[first..end][k - first];
    }
    DigitsEnd(s, first, end);
  }

  // ---- strings ------------------------------------------------------------------------------

  lemma PieceUnescaped(s: seq<byte>, i: nat, end: nat, bytes: seq<byte>, length: nat, rest: seq<byte>)
    requires i < end < |s| && length > 0 && ReadPiece(s, i, end) == Piece(bytes, length)
    requires Unescape(s, i + length, end) == Bytes(rest)
    ensures Unescape(s, i, end) == Bytes(bytes + rest)
  {
    hide ReadPiece;
  }


  lemma HexDigitsRead(s: seq<byte>, i: nat, digits: seq<byte>)
    requires Hex(digits) && At(s, i, digits)
    ensures i + 4 <= |s| && Hex4(s, i) == Number16(digits)
    ensures forall k :: i <= k < i + 4 ==> s[k] != QUOTE && s[k] != BACKSLASH
  {
    AtByte(s, i, digits, 0);
    AtByte(s, i, digits, 1);
    AtByte(s, i, digits, 2);
    AtByte(s, i, digits, 3);
    hide At;
    SameDigit(digits[0]);
    SameDigit(digits[1]);
    SameDigit(digits[2]);
    SameDigit(digits[3]);
  }

  lemma SameDigit(b: byte)
    ensures Digit16(b).Some? ==> HexValue(b) == Nibble(Digit16(b).value) && b != QUOTE && b != BACKSLASH
  {
  }

  /** One literal of an escape. */
  lemma LiteralAt(s: seq<byte>, i: nat, digits: seq<byte>)
    requires Hex(digits) && At(s, i, ['\\' as nat, 'u' as nat] + digits)
    ensures i + 6 <= |s| && s[i] == BACKSLASH && s[i + 1] == 117 && Hex4(s, i + 2) == Number16(digits)
    ensures forall k :: i + 2 <= k < i + 6 ==> s[k] != QUOTE && s[k] != BACKSLASH
  {
    var start: seq<byte> := ['\\' as nat, 'u' as nat];
    AtSplit(s, i, start, digits);
    AtByte(s, i, start, 0);
    AtByte(s, i, start, 1);
    HexDigitsRead(s, i + 2, digits);
  }

  lemma SurrogatesMean(high: nat, low: nat)
    requires 0xD800 <= high <= 0xDBFF && 0xDC00 <= low <= 0xDFFF
    ensures 0x1_0000 + (high % 0x400) * 0x400 + low % 0x400 == 0x1_0000 + 0x400 * (high - 0xD800) + (low - 0xDC00)
  {
    assert high % 0x400 == high - 0xD800 && low % 0x400 == low - 0xDC00;
  }

  lemma ShortReads(letter: char)
    requires ShortByte(letter).Some?
    ensures letter < 128 as char && letter as nat != 117
    ensures SimpleEscape(letter as nat) == Ok(ShortByte(letter).value, 2)
  {
  }

  /** The second scan reads a character as what it means. */
  lemma CharReads(s: seq<byte>, i: nat, end: nat, c: Char)
    requires LegalChar(c) && At(s, i, WrittenChar(c)) && i + |WrittenChar(c)| <= end < |s|
    ensures |WrittenChar(c)| > 0 && ReadPiece(s, i, end) == Piece(CharMeans(c), |WrittenChar(c)|)
  {
    hide Hex4;
    hide Number16;
    hide At;
    hide Utf8;
    hide SimpleEscape;
    match c
    case Plain(b) =>
      AtByte(s, i, WrittenChar(c), 0);
    case Short(letter) =>
      AtByte(s, i, WrittenChar(c), 0);
      AtByte(s, i, WrittenChar(c), 1);
      ShortReads(letter);
    case Code(digits) =>
      LiteralAt(s, i, digits);
    case Pair(high, low) =>
      AtSplit(s, i, ['\\' as nat, 'u' as nat] + high, ['\\' as nat, 'u' as nat] + low);
      LiteralAt(s, i, high);
      LiteralAt(s, i + 6, low);
      SurrogatesMean(Number16(high), Number16(low));
  }

  lemma ScanPlain(s: seq<byte>, i: nat, k: nat)
    requires i < |s| && s[i] != QUOTE && s[i] != BACKSLASH
    ensures ScanString(s, i, k) == ScanString(s, i + 1, k)
  {
  }

  lemma ScanLiteral(s: seq<byte>, i: nat, k: nat)
    requires i + 6 <= |s| && s[i] == BACKSLASH && forall j :: i + 2 <= j < i + 6 ==> s[j] != QUOTE && s[j] != BACKSLASH
    ensures ScanString(s, i, k) == ScanString(s, i + 6, k + 1)
  {
    assert ScanString(s, i, k) == ScanString(s, i + 2, k + 1);
    ScanPlain(s, i + 2, k + 1);
    ScanPlain(s, i + 3, k + 1);
    ScanPlain(s, i + 4, k + 1);
    ScanPlain(s, i + 5, k + 1);
  }

  /** The first scan steps over a character as a whole. */
  lemma CharScans(s: seq<byte>, i: nat, c: Char, k: nat) returns (k': nat)
    requires LegalChar(c) && At(s, i, WrittenChar(c)) && i + |WrittenChar(c)| < |s|
    ensures ScanString(s, i, k) == ScanString(s, i + |WrittenChar(c)|, k')
  {
    hide Hex4;
    hide Number16;
    hide At;
    k' := k;
    match c
    case Plain(b) =>
      AtByte(s, i, WrittenChar(c), 0);
    case Short(letter) =>
      AtByte(s, i, WrittenChar(c), 0);
      k' := k + 1;
    case Code(digits) =>
      LiteralAt(s, i, digits);
      hide ScanString;
      ScanLiteral(s, i, k);
      k' := k + 1;
    case Pair(high, low) =>
      AtSplit(s, i, ['\\' as nat, 'u' as nat] + high, ['\\' as nat, 'u' as nat] + low);
      LiteralAt(s, i, high);
      LiteralAt(s, i + 6, low);
      hide ScanString;
      ScanLiteral(s, i, k);
      ScanLiteral(s, i + 6, k + 1);
      k' := k + 2;
  }

  lemma FirstChar(chars: seq<Char>)
    requires chars != []
    ensures WrittenChars(chars) == WrittenChar(chars[0]) + WrittenChars(chars[1..])
    ensures CharsMean(chars) == CharMeans(chars[0]) + CharsMean(chars[1..])
  {
  }

  lemma ScanQuote(s: seq<byte>, i: nat, k: nat)
    requires Sees(s, i, QUOTE)
    ensures ScanString(s, i, k) == Scan(i, k)
  {
  }

  lemma {:induction false} CharsScan(s: seq<byte>, i: nat, chars: seq<Char>, k: nat)
    requires LegalChars(chars) && At(s, i, WrittenChars(chars)) && Sees(s, i + |WrittenChars(chars)|, QUOTE)
    ensures var r := ScanString(s, i, k); r.Scan? && r.end == i + |WrittenChars(chars)|
    decreases |chars|
  {
    hide At;
    hide WrittenChar;
    hide LegalChar;
    hide ScanString;
    hide WrittenChars;
    if chars == [] {
      NoCharsRead(s, i);
      ScanQuote(s, i, k);
    } else {
      FirstChar(chars);
      AtSplit(s, i, WrittenChar(chars[0]), WrittenChars(chars[1..]));
      var k' := CharScans(s, i, chars[0], k);
      CharsScan(s, i + |WrittenChar(chars[0])|, chars[1..], k');
    }
  }

  lemma NoCharsRead(s: seq<byte>, i: nat)
    ensures WrittenChars([]) == [] && CharsMean([]) == []
    ensures i < |s| ==> Unescape(s, i, i) == Bytes([])
  {
  }

  lemma {:induction false} CharsRead(s: seq<byte>, i: nat, end: nat, chars: seq<Char>)
    requires LegalChars(chars) && At(s, i, WrittenChars(chars)) && end == i + |WrittenChars(chars)| < |s|
    ensures Unescape(s, i, end) == Bytes(CharsMean(chars))
    decreases |chars|
  {
    hide At;
    hide LegalChar;
    hide WrittenChar;
    hide CharMeans;
    hide ReadPiece;
    hide WrittenChars;
    hide CharsMean;
    hide Unescape;
    if chars == [] {
      NoCharsRead(s, i);
    } else {
      FirstChar(chars);
      var w := |WrittenChar(chars[0])|;
      AtSplit(s, i, WrittenChar(chars[0]), WrittenChars(chars[1..]));
      CharReads(s, i, end, chars[0]);
      CharsRead(s, i + w, end, chars[1..]);
      PieceUnescaped(s, i, end, CharMeans(chars[0]), w, CharsMean(chars[1..]));
    }
  }

  /** A string in any spelling is read as what it means. */
  lemma StringReads(s: seq<byte>, at: nat, chars: seq<Char>)
    requires LegalChars(chars) && At(s, at, WrittenString(chars))
    ensures Sees(s, at, QUOTE)
    ensures ParseString(s, at) == Ok(UpToNul(CharsMean(chars)), at + |WrittenString(chars)|)
  {
    hide ScanString;
    hide Unescape;
    hide WrittenChars;
    hide At;
    AtSplit3(s, at, ['"' as nat], WrittenChars(chars), ['"' as nat]);
    AtByte(s, at, ['"' as nat], 0);
    AtByte(s, at + 1 + |WrittenChars(chars)|, ['"' as nat], 0);
    CharsScan(s, at + 1, chars, 0);
    CharsRead(s, at + 1, at + 1 + |WrittenChars(chars)|, chars);
  }

  // ---- values -------------------------------------------------------------------------------

  lemma WordBytes()
    ensures Ascii("null") == NULL_TEXT && Ascii("false") == FALSE_TEXT && Ascii("true") == TRUE_TEXT
  {
  }

  /** The first byte of a value: not white space and no closing bracket. */
  predicate StartsValue(c: byte) {
    32 < c < 128 && c != RBRACKET && c != RBRACE
  }

  lemma SpellingStarts(x: Spelling, depth: nat)
    requires Legal(x, depth)
    ensures Written(x) != [] && StartsValue(Written(x)[0])
  {
    WordBytes();
  }

  lemma StartsAt(s: seq<byte>, at: nat, x: Spelling, depth: nat)
    requires Legal(x, depth) && At(s, at, Written(x))
    ensures at < |s| && StartsValue(s[at])
  {
    SpellingStarts(x, depth);
    AtByte(s, at, Written(x), 0);
  }

  /** White space is skipped up to the first byte that is none. */
  lemma BlankSkips(s: seq<byte>, i: nat, blank: seq<byte>)
    requires Blank(blank) && At(s, i, blank) && i + |blank| < |s| && s[i + |blank|] > 32
    ensures SkipWhitespace(s, i) == i + |blank|
  {
    forall k | i <= k < i + |blank| ensures s[k] <= 32 {
      AtByte(s, i, blank, k - i);
    }
    SkipOver(s, i, i + |blank|);
  }

  /** A number ends before white space as before a comma or a bracket. */
  lemma BlankEndsNumber(s: seq<byte>, i: nat, blank: seq<byte>)
    requires Blank(blank) && At(s, i, blank) && i + |blank| < |s|
    requires s[i + |blank|] == COMMA || s[i + |blank|] == RBRACKET || s[i + |blank|] == RBRACE
    ensures NumberEnds(s, i)
  {
    if blank != [] {
      AtByte(s, i, blank, 0);
    }
  }

  /** A value whose first byte starts none of the three words. */
  lemma NotAWord(s: seq<byte>, at: nat)
    requires at < |s| && (s[at] == QUOTE || s[at] == MINUS || IsDigit(s[at]) || s[at] == LBRACKET || s[at] == LBRACE)
    ensures !At(s, at, NULL_TEXT) && !At(s, at, FALSE_TEXT) && !At(s, at, TRUE_TEXT)
  {
    AtSameStart(s, at, NULL_TEXT);
    AtSameStart(s, at, FALSE_TEXT);
    AtSameStart(s, at, TRUE_TEXT);
  }


  lemma WordReads(s: seq<byte>, at: nat, x: Spelling, depth: nat)
    requires x.SpelledNull? || x.SpelledFalse? || x.SpelledTrue?
    requires At(s, at, Written(x))
    ensures ParseValue(s, at, depth) == Ok(Means(x), at + |Written(x)|)
  {
    WordBytes();
    AtByte(s, at, Written(x), 0);
    AtSameStart(s, at, NULL_TEXT);
    AtSameStart(s, at, FALSE_TEXT);
  }

  lemma NumberReads(s: seq<byte>, at: nat, x: Spelling, depth: nat)
    requires x.SpelledNumber? && Legal(x, depth) && At(s, at, Written(x)) && NumberEnds(s, at + |Written(x)|)
    ensures ParseValue(s, at, depth) == Ok(Means(x), at + |Written(x)|)
  {
    hide At;
    hide NumberOf;
    hide ParseNumber;
    hide ParseString;
    hide EndOfDigits;
    var sign: seq<byte> := if x.negative then ['-' as nat] else [];
    AtSplit(s, at, sign, x.digits);
    if x.negative {
      AtByte(s, at, sign, 0);
    }
    var first := at + |sign|;
    DigitsSeen(s, first, x.digits);
    NumberAt(s, at, first, first + |x.digits|);
    NotAWord(s, at);
  }

  lemma StringValueReads(s: seq<byte>, at: nat, chars: seq<Char>, depth: nat)
    requires LegalChars(chars) && At(s, at, WrittenString(chars))
    ensures ParseValue(s, at, depth) == Ok(Str(UpToNul(CharsMean(chars))), at + |WrittenString(chars)|)
  {
    hide At;
    hide ParseNumber;
    hide ParseString;
    StringReads(s, at, chars);
    NotAWord(s, at);
  }

  lemma ParseArrayValue(s: seq<byte>, at: nat, depth: nat)
    requires Sees(s, at, LBRACKET)
    ensures ParseValue(s, at, depth) == ParseArray(s, at, depth)
  {
    hide At;
    NotAWord(s, at);
  }

  lemma ParseObjectValue(s: seq<byte>, at: nat, depth: nat)
    requires Sees(s, at, LBRACE)
    ensures ParseValue(s, at, depth) == ParseObject(s, at, depth)
  {
    hide At;
    NotAWord(s, at);
  }


  /** Wherever a legal spelling stands in an input, the parser reads what it means and stops right
      behind it. */
  lemma {:induction false} SpellingReads(s: seq<byte>, at: nat, x: Spelling, depth: nat)
    requires Legal(x, depth) && At(s, at, Written(x))
    requires x.SpelledNumber? ==> NumberEnds(s, at + |Written(x)|)
    ensures ParseValue(s, at, depth) == Ok(Means(x), at + |Written(x)|)
    decreases x, 1
  {
    hide At;
    hide ParseValue;
    hide ParseArray;
    hide ParseObject;
    match x
    case SpelledNumber(_, _) => NumberReads(s, at, x, depth);
    case SpelledString(chars) => StringValueReads(s, at, chars, depth);
    case SpelledArray(_, _) =>
      ArrayReads(s, at, x, depth);
      ParseArrayValue(s, at, depth);
    case SpelledObject(_, _) =>
      ObjectReads(s, at, x, depth);
      ParseObjectValue(s, at, depth);
    case _ => WordReads(s, at, x, depth);
  }

  lemma Bracketed(s: seq<byte>, at: nat, open: byte, inside: seq<byte>, close: byte)
    requires At(s, at, [open] + inside + [close])
    ensures Sees(s, at, open) && At(s, at + 1, inside) && Sees(s, at + 1 + |inside|, close)
  {
    AtSplit3(s, at, [open], inside, [close]);
    AtByte(s, at, [open], 0);
    AtByte(s, at + 1 + |inside|, [close], 0);
  }

  lemma ArrayIs(x: Spelling, depth: nat)
    requires x.SpelledArray? && Legal(x, depth)
    ensures depth < NESTING_LIMIT && Blank(x.blank) && LegalItems(x.items, depth + 1)
    ensures Written(x) == [LBRACKET] + (if x.items == [] then x.blank else WrittenItems(x.items)) + [RBRACKET]
    ensures Means(x) == Arr(ItemsMean(x.items))
  {
  }

  lemma {:induction false} ArrayReads(s: seq<byte>, at: nat, x: Spelling, depth: nat)
    requires x.SpelledArray? && Legal(x, depth) && At(s, at, Written(x))
    ensures Sees(s, at, LBRACKET)
    ensures ParseArray(s, at, depth) == Ok(Means(x), at + |Written(x)|)
    decreases x, 0
  {
    hide At;
    hide Written;
    hide WrittenItems;
    hide Means;
    hide Legal;
    hide LegalItems;
    hide Blank;
    hide ParseItems;
    hide SkipWhitespace;
    ArrayIs(x, depth);
    var inside := if x.items == [] then x.blank else WrittenItems(x.items);
    Bracketed(s, at, LBRACKET, inside, RBRACKET);
    if x.items == [] {
      BlankSkips(s, at + 1, x.blank);
    } else {
      var v := ItemStart(s, at + 1, x.items, depth + 1);
      SkipOver(s, v, v);
      ItemsRead(s, v, at + 1, x.items, depth + 1);
    }
  }

  lemma {:induction false} ItemsAre(items: seq<SpelledItem>, depth: nat)
    requires items != [] && LegalItems(items, depth)
    ensures WrittenItems(items)
            == items[0].before + Written(items[0].value) + items[0].after
               + (if |items| == 1 then [] else [COMMA] + WrittenItems(items[1..]))
    ensures Blank(items[0].before) && Legal(items[0].value, depth) && Blank(items[0].after) && LegalItems(items[1..], depth)
  {
    hide Written;
    hide Legal;
    hide Blank;
  }

  /** Where the first item's value starts, behind its white space. */
  lemma ItemStart(s: seq<byte>, at: nat, items: seq<SpelledItem>, depth: nat) returns (v: nat)
    requires items != [] && LegalItems(items, depth) && At(s, at, WrittenItems(items))
    ensures v == at + |items[0].before| && v < |s| && s[v] > 32 && s[v] != RBRACKET
    ensures SkipWhitespace(s, at) == v
    ensures At(s, v, Written(items[0].value))
    ensures var next := v + |Written(items[0].value)|;
            && At(s, next, items[0].after)
            && At(s, next + |items[0].after|, if |items| == 1 then [] else [COMMA] + WrittenItems(items[1..]))
            && at + |WrittenItems(items)|
               == next + |items[0].after| + (if |items| == 1 then 0 else 1 + |WrittenItems(items[1..])|)
  {
    hide Blank;
    hide Legal;
    hide LegalItems;
    hide WrittenItems;
    hide At;
    hide Written;
    hide SkipWhitespace;
    ItemsAre(items, depth);
    var rest := if |items| == 1 then [] else [COMMA] + WrittenItems(items[1..]);
    AtSplit(s, at, items[0].before + Written(items[0].value) + items[0].after, rest);
    AtSplit3(s, at, items[0].before, Written(items[0].value), items[0].after);
    v := at + |items[0].before|;
    StartsAt(s, v, items[0].value, depth);
    BlankSkips(s, at, items[0].before);
  }

  lemma FirstItem(items: seq<SpelledItem>)
    requires items != []
    ensures |items| == 1 <==> items[1..] == []
    ensures ItemsMean(items) == [Means(items[0].value)] + ItemsMean(items[1..])
    ensures |items| == 1 ==> ItemsMean(items) == [Means(items[0].value)]
  {
  }

  lemma FirstMember(members: seq<SpelledMember>)
    requires members != []
    ensures |members| == 1 <==> members[1..] == []
    ensures MembersMean(members)
            == [Member(UpToNul(CharsMean(members[0].name)), Means(members[0].value))] + MembersMean(members[1..])
    ensures |members| == 1 ==> MembersMean(members) == [Member(UpToNul(CharsMean(members[0].name)), Means(members[0].value))]
  {
  }

  /** The item list stands at `at`, the loop before it at `from`. */
  lemma {:induction false} ItemsRead(s: seq<byte>, from: nat, at: nat, items: seq<SpelledItem>, depth: nat)
    requires items != [] && LegalItems(items, depth) && At(s, at, WrittenItems(items))
    requires Sees(s, at + |WrittenItems(items)|, RBRACKET)
    requires from <= |s| && SkipWhitespace(s, from) == at + |items[0].before|
    ensures ParseItems(s, from, depth) == Ok(ItemsMean(items), at + |WrittenItems(items)| + 1)
    decreases items, 2
  {
    hide At;
    hide Written;
    hide Means;
    hide WrittenItems;
    hide ParseItems;
    hide ParseValue;
    hide SkipWhitespace;
    var v := ItemStart(s, at, items, depth);
    var item, rest := items[0], items[1..];
    var next := v + |Written(item.value)|;
    var after := next + |item.after|;
    if rest != [] {
      AtSplit(s, after, [COMMA], WrittenItems(rest));
      AtByte(s, after, [COMMA], 0);
    }
    BlankEndsNumber(s, next, item.after);
    BlankSkips(s, next, item.after);
    SpellingReads(s, v, item.value, depth);
    FirstItem(items);
    hide ItemsMean;
    if rest == [] {
      LastItemParsed(s, from, depth, Means(item.value), next, after);
    } else {
      var v' := ItemStart(s, after + 1, rest, depth);
      ItemsRead(s, after + 1, after + 1, rest, depth);
      NextItemParsed(s, from, depth, Means(item.value), next, after, ItemsMean(rest), after + 1 + |WrittenItems(rest)| + 1);
    }
  }

  lemma LastItemParsed(s: seq<byte>, from: nat, depth: nat, item: Value, next: nat, after: nat)
    requires from <= |s| && ParseValue(s, SkipWhitespace(s, from), depth) == Ok(item, next)
    requires SkipWhitespace(s, next) == after && Sees(s, after, RBRACKET)
    ensures ParseItems(s, from, depth) == Ok([item], after + 1)
  {
    hide ParseValue;
    hide SkipWhitespace;
  }

  lemma NextItemParsed(s: seq<byte>, from: nat, depth: nat, item: Value, next: nat, after: nat, items: seq<Value>, end: nat)
    requires from <= |s| && ParseValue(s, SkipWhitespace(s, from), depth) == Ok(item, next)
    requires SkipWhitespace(s, next) == after && Sees(s, after, COMMA) && ParseItems(s, after + 1, depth) == Ok(items, end)
    ensures ParseItems(s, from, depth) == Ok([item] + items, end)
  {
    hide ParseValue;
    hide SkipWhitespace;
  }

  lemma ObjectIs(x: Spelling, depth: nat)
    requires x.SpelledObject? && Legal(x, depth)
    ensures depth < NESTING_LIMIT && Blank(x.blank) && LegalMembers(x.members, depth + 1)
    ensures Written(x) == [LBRACE] + (if x.members == [] then x.blank else WrittenMembers(x.members)) + [RBRACE]
    ensures Means(x) == Obj(MembersMean(x.members))
  {
  }

  lemma {:induction false} ObjectReads(s: seq<byte>, at: nat, x: Spelling, depth: nat)
    requires x.SpelledObject? && Legal(x, depth) && At(s, at, Written(x))
    ensures Sees(s, at, LBRACE)
    ensures ParseObject(s, at, depth) == Ok(Means(x), at + |Written(x)|)
    decreases x, 0
  {
    hide At;
    hide Written;
    hide WrittenMembers;
    hide Means;
    hide Legal;
    hide LegalMembers;
    hide Blank;
    hide ParseMembers;
    hide SkipWhitespace;
    ObjectIs(x, depth);
    var inside := if x.members == [] then x.blank else WrittenMembers(x.members);
    Bracketed(s, at, LBRACE, inside, RBRACE);
    if x.members == [] {
      BlankSkips(s, at + 1, x.blank);
    } else {
      var v := MemberStart(s, at + 1, x.members, depth + 1);
      SkipOver(s, v, v);
      MembersRead(s, v, at + 1, x.members, depth + 1);
    }
  }

  /** The parts of a member list, one behind the other. */
  lemma MemberParts(s: seq<byte>, at: nat, members: seq<SpelledMember>)
    requires members != [] && At(s, at, WrittenMembers(members))
    ensures var m := members[0];
            var v := at + |m.before|;
            var colon := v + |WrittenString(m.name)| + |m.beforeColon|;
            var next := colon + 1 + |m.afterColon| + |Written(m.value)|;
            && At(s, at, m.before) && At(s, v, WrittenString(m.name))
            && At(s, v + |WrittenString(m.name)|, m.beforeColon) && Sees(s, colon, COLON)
            && At(s, colon + 1, m.afterColon) && At(s, colon + 1 + |m.afterColon|, Written(m.value))
            && At(s, next, m.after)
            && At(s, next + |m.after|, if |members| == 1 then [] else [COMMA] + WrittenMembers(members[1..]))
            && at + |WrittenMembers(members)|
               == next + |m.after| + (if |members| == 1 then 0 else 1 + |WrittenMembers(members[1..])|)
  {
    hide At;
    hide Written;
    hide WrittenString;
    hide WrittenMembers;
    var m := members[0];
    var rest := if |members| == 1 then [] else [COMMA] + WrittenMembers(members[1..]);
    var head, tail := m.before + WrittenString(m.name) + m.beforeColon, [COLON] + m.afterColon + Written(m.value) + m.after;
    MembersAre(members);
    AtSplit3(s, at, head, tail, rest);
    AtSplit3(s, at, m.before, WrittenString(m.name), m.beforeColon);
    TailParts(s, at + |head|, m.afterColon, Written(m.value), m.after);
  }

  lemma MembersAre(members: seq<SpelledMember>)
    requires members != []
    ensures var m := members[0];
            WrittenMembers(members)
            == (m.before + WrittenString(m.name) + m.beforeColon) + ([COLON] + m.afterColon + Written(m.value) + m.after)
               + (if |members| == 1 then [] else [COMMA] + WrittenMembers(members[1..]))
  {
  }

  lemma TailParts(s: seq<byte>, colon: nat, afterColon: seq<byte>, value: seq<byte>, after: seq<byte>)
    requires At(s, colon, [COLON] + afterColon + value + after)
    ensures Sees(s, colon, COLON) && At(s, colon + 1, afterColon)
    ensures At(s, colon + 1 + |afterColon|, value) && At(s, colon + 1 + |afterColon| + |value|, after)
  {
    AtSplit(s, colon, [COLON] + afterColon + value, after);
    AtSplit3(s, colon, [COLON], afterColon, value);
    AtByte(s, colon, [COLON], 0);
  }

  /** Where the first member's name starts, behind its white space. */
  lemma MemberStart(s: seq<byte>, at: nat, members: seq<SpelledMember>, depth: nat) returns (v: nat)
    requires members != [] && LegalMembers(members, depth) && At(s, at, WrittenMembers(members))
    ensures v == at + |members[0].before| && v < |s| && s[v] == QUOTE
    ensures SkipWhitespace(s, at) == v
  {
    hide At;
    hide Written;
    hide WrittenMembers;
    hide SkipWhitespace;
    MemberParts(s, at, members);
    v := at + |members[0].before|;
    AtByte(s, v, WrittenString(members[0].name), 0);
    BlankSkips(s, at, members[0].before);
  }

  lemma {:induction false} MembersLegal(members: seq<SpelledMember>, depth: nat)
    requires members != [] && LegalMembers(members, depth)
    ensures var m := members[0];
            && Blank(m.before) && LegalChars(m.name) && Blank(m.beforeColon) && Blank(m.afterColon)
            && Legal(m.value, depth) && Blank(m.after) && LegalMembers(members[1..], depth)
  {
    hide Legal;
    hide Blank;
    hide LegalChars;
  }

  /** The member list stands at `at`, the loop before it at `from`. */
  lemma {:induction false} MembersRead(s: seq<byte>, from: nat, at: nat, members: seq<SpelledMember>, depth: nat)
    requires members != [] && LegalMembers(members, depth) && At(s, at, WrittenMembers(members))
    requires Sees(s, at + |WrittenMembers(members)|, RBRACE)
    requires from < |s| && SkipWhitespace(s, from) == at + |members[0].before|
    ensures ParseMembers(s, from, depth) == Ok(MembersMean(members), at + |WrittenMembers(members)| + 1)
    decreases members, 2
  {
    hide At;
    hide Written;
    hide Means;
    hide WrittenMembers;
    hide WrittenString;
    hide ParseMembers;
    hide ParseMember;
    hide ParseValue;
    hide SkipWhitespace;
    hide Blank;
    hide LegalChars;
    hide Legal;
    hide LegalMembers;
    hide MembersMean;
    hide CharsMean;
    hide UpToNul;
    MembersLegal(members, depth);
    FirstMember(members);
    var m, rest := members[0], members[1..];
    var next := MemberHere(s, from, at, members, depth);
    var after := next + |m.after|;
    var member := Member(UpToNul(CharsMean(m.name)), Means(m.value));
    if rest == [] {
      LastMemberParsed(s, from, depth, member, next, after);
    } else {
      var v' := MemberStart(s, after + 1, rest, depth);
      MembersRead(s, after + 1, after + 1, rest, depth);
      NextMemberParsed(s, from, depth, member, next, after, MembersMean(rest), after + 1 + |WrittenMembers(rest)| + 1);
    }
  }

  /** The first member of a list, read, and what stands behind it. */
  lemma {:induction false} MemberHere(s: seq<byte>, from: nat, at: nat, members: seq<SpelledMember>, depth: nat) returns (next: nat)
    requires members != [] && LegalMembers(members, depth) && At(s, at, WrittenMembers(members))
    requires Sees(s, at + |WrittenMembers(members)|, RBRACE)
    requires from < |s| && SkipWhitespace(s, from) == at + |members[0].before|
    ensures var m, rest := members[0], members[1..];
            var after := next + |m.after|;
            && ParseMember(s, from, depth) == Ok(Member(UpToNul(CharsMean(m.name)), Means(m.value)), next)
            && SkipWhitespace(s, next) == after
            && (rest != [] ==> Sees(s, after, COMMA) && At(s, after + 1, WrittenMembers(rest)))
            && at + |WrittenMembers(members)| == after + (if rest == [] then 0 else 1 + |WrittenMembers(rest)|)
    decreases members, 1
  {
    hide At;
    hide Written;
    hide Means;
    hide WrittenMembers;
    hide WrittenString;
    hide ParseMember;
    hide ParseValue;
    hide SkipWhitespace;
    hide Blank;
    hide LegalChars;
    hide Legal;
    var m, rest := members[0], members[1..];
    assert rest == [] <==> |members| == 1;
    var value := at + |m.before| + |WrittenString(m.name)| + |m.beforeColon| + 1 + |m.afterColon|;
    next := value + |Written(m.value)|;
    MemberParts(s, at, members);
    AfterMember(s, next, m.after, rest);
    StartsAt(s, value, m.value, depth);
    SpellingReads(s, value, m.value, depth);
    MemberReads(s, from, at + |m.before|, m, depth, value - |m.afterColon| - 1, value);
  }

  /** Behind a member's value: white space, and a comma or the closing brace. */
  lemma AfterMember(s: seq<byte>, next: nat, after: seq<byte>, rest: seq<SpelledMember>)
    requires Blank(after) && At(s, next, after)
    requires rest == [] ==> Sees(s, next + |after|, RBRACE)
    requires rest != [] ==> At(s, next + |after|, [COMMA] + WrittenMembers(rest))
    ensures NumberEnds(s, next) && SkipWhitespace(s, next) == next + |after|
    ensures rest != [] ==> Sees(s, next + |after|, COMMA) && At(s, next + |after| + 1, WrittenMembers(rest))
  {
    hide At;
    hide WrittenMembers;
    hide SkipWhitespace;
    if rest != [] {
      AtSplit(s, next + |after|, [COMMA], WrittenMembers(rest));
      AtByte(s, next + |after|, [COMMA], 0);
    }
    BlankEndsNumber(s, next, after);
    BlankSkips(s, next, after);
  }

  /** One member, its value read already. */
  lemma MemberReads(s: seq<byte>, from: nat, v: nat, m: SpelledMember, depth: nat, colon: nat, value: nat)
    requires LegalChars(m.name) && Blank(m.beforeColon) && Blank(m.afterColon)
    requires from < |s| && SkipWhitespace(s, from) == v && At(s, v, WrittenString(m.name))
    requires colon == v + |WrittenString(m.name)| + |m.beforeColon| && value == colon + 1 + |m.afterColon|
    requires At(s, v + |WrittenString(m.name)|, m.beforeColon) && Sees(s, colon, COLON)
    requires At(s, colon + 1, m.afterColon) && value < |s| && s[value] > 32
    requires ParseValue(s, value, depth).Ok?
    ensures ParseMember(s, from, depth)
            == Ok(Member(UpToNul(CharsMean(m.name)), ParseValue(s, value, depth).value), ParseValue(s, value, depth).next)
  {
    hide At;
    hide WrittenString;
    hide ParseString;
    hide ParseValue;
    hide SkipWhitespace;
    StringReads(s, v, m.name);
    BlankSkips(s, v + |WrittenString(m.name)|, m.beforeColon);
    BlankSkips(s, colon + 1, m.afterColon);
  }

  lemma LastMemberParsed(s: seq<byte>, from: nat, depth: nat, m: Member, next: nat, after: nat)
    requires from < |s| && ParseMember(s, from, depth) == Ok(m, next)
    requires SkipWhitespace(s, next) == after && Sees(s, after, RBRACE)
    ensures ParseMembers(s, from, depth) == Ok([m], after + 1)
  {
    hide ParseMember;
    hide SkipWhitespace;
  }

  lemma NextMemberParsed(s: seq<byte>, from: nat, depth: nat, m: Member, next: nat, after: nat, members: seq<Member>, end: nat)
    requires from < |s| && ParseMember(s, from, depth) == Ok(m, next)
    requires SkipWhitespace(s, next) == after && Sees(s, after, COMMA) && ParseMembers(s, after + 1, depth) == Ok(members, end)
    ensures ParseMembers(s, from, depth) == Ok([m] + members, end)
  {
    hide ParseMember;
    hide SkipWhitespace;
  }

  // ---- whole texts --------------------------------------------------------------------------

  lemma {:induction false} SkipToLast(s: seq<byte>, i: nat)
    requires i < |s| && forall k :: i <= k < |s| - 1 ==> s[k] <= 32
    ensures SkipWhitespace(s, i) == |s| - 1
    decreases |s| - i
  {
    if i < |s| - 1 {
      SkipToLast(s, i + 1);
    }
  }

  lemma {:induction false} AtMiddle(a: seq<byte>, t: seq<byte>, b: seq<byte>)
    ensures At(a + t + b, |a|, t)
  {
    AtIsSlice(a + t + b, |a|, t);
    assert (a + t + b)[|a|..|a| + |t|] == t;
  }

  /** A text is a byte order mark or none, white space, a value, white space, and the NUL that ends
      a C string: it parses to what the value means, up to the NUL if that is asked for, up to the
      end of the value if not. */
  lemma {:induction false} TextReads(mark: bool, before: seq<byte>, x: Spelling, after: seq<byte>)
    requires Legal(x, 0) && Blank(before) && Blank(after)
    ensures var bom: seq<byte> := if mark then [0xEF, 0xBB, 0xBF] else [];
            var text := bom + before + Written(x) + (after + [0]);
            && ParseText(text, true) == Ok(Means(x), |text| - 1)
            && ParseText(text, false) == Ok(Means(x), |bom| + |before| + |Written(x)|)
  {
    hide At;
    hide Written;
    hide Means;
    hide Legal;
    hide ParseValue;
    hide SkipWhitespace;
    var bom: seq<byte> := if mark then [0xEF, 0xBB, 0xBF] else [];
    var w, tail := Written(x), after + [0];
    var text := bom + before + w + tail;
    var at, next := |bom| + |before|, |bom| + |before| + |w|;
    SpellingStarts(x, 0);
    assert text[at] == w[0];
    assert forall k :: |bom| <= k < at ==> text[k] == before[k - |bom|];
    SkipOver(text, |bom|, at);
    AtMiddle(bom + before, w, tail);
    assert forall k :: next <= k < |text| ==> text[k] == tail[k - next];
    assert NumberEnds(text, next);
    SpellingReads(text, at, x, 0);
    SkipToLast(text, next);
    FirstBytes(text, mark, before, w, tail);
  }

  lemma {:induction false} FirstBytes(text: seq<byte>, mark: bool, before: seq<byte>, w: seq<byte>, tail: seq<byte>)
    requires text == (if mark then [0xEF, 0xBB, 0xBF] else []) + before + w + tail
    requires Blank(before) && w != [] && StartsValue(w[0]) && tail != []
    ensures mark ==> |text| > 4 && text[0] == 0xEF && text[1] == 0xBB && text[2] == 0xBF
    ensures !mark ==> text != [] && text[0] != 0xEF
  {
    if !mark {
      assert text[0] == if before != [] then before[0] else w[0];
    }
  }

  // ---- the two-character escapes --------------------------------------------------------------

  function Plains(text: seq<byte>): (chars: seq<Char>)
    ensures |chars| == |text| && forall i :: 0 <= i < |text| ==> chars[i] == Plain(text[i])
  {
    seq(|text|, i requires 0 <= i < |text| => Plain(text[i]))
  }

  predicate IsPlain(text: seq<byte>) {
    forall i :: 0 <= i < |text| ==> text[i] != 0x22 && text[i] != 0x5C && text[i] != 0
  }

  lemma EmptyInFront(a: seq<byte>)
    ensures [] + a == a
  {
  }

  lemma Regroup(a: seq<byte>, b: seq<byte>, c: seq<byte>)
    ensures a + (b + c) == a + b + c
  {
  }

  lemma {:induction false} CharsAppend(a: seq<Char>, b: seq<Char>)
    ensures LegalChars(a + b) <==> LegalChars(a) && LegalChars(b)
    ensures WrittenChars(a + b) == WrittenChars(a) + WrittenChars(b)
    ensures CharsMean(a + b) == CharsMean(a) + CharsMean(b)
    decreases |a|
  {
    hide WrittenChar;
    hide CharMeans;
    hide LegalChar;
    hide WrittenChars;
    hide CharsMean;
    assert forall i :: |a| <= i < |a + b| ==> (a + b)[i] == b[i - |a|];
    if a == [] {
      assert a + b == b;
      NoCharsRead([], 0);
      EmptyInFront(WrittenChars(b));
      EmptyInFront(CharsMean(b));
    } else {
      assert (a + b)[1..] == a[1..] + b;
      FirstChar(a + b);
      FirstChar(a);
      CharsAppend(a[1..], b);
      Regroup(WrittenChar(a[0]), WrittenChars(a[1..]), WrittenChars(b));
      Regroup(CharMeans(a[0]), CharsMean(a[1..]), CharsMean(b));
    }
  }

  lemma OneChar(c: Char)
    ensures WrittenChars([c]) == WrittenChar(c) && CharsMean([c]) == CharMeans(c)
  {
    hide WrittenChar;
    hide CharMeans;
    hide WrittenChars;
    hide CharsMean;
    FirstChar([c]);
    assert [c][1..] == [];
    NoCharsRead([], 0);
  }

  lemma {:induction false} PlainsAre(text: seq<byte>)
    requires IsPlain(text)
    ensures LegalChars(Plains(text)) && WrittenChars(Plains(text)) == text && CharsMean(Plains(text)) == text
    decreases |text|
  {
    if text != [] {
      assert Plains(text)[1..] == Plains(text[1..]);
      PlainsAre(text[1..]);
      assert text == [text[0]] + text[1..];
    }
  }

  /** A string without a NUL, as a whole text. */
  lemma {:induction false} StringTextReads(chars: seq<Char>)
    requires LegalChars(chars) && forall i :: 0 <= i < |CharsMean(chars)| ==> CharsMean(chars)[i] != 0
    ensures ParseText(WrittenString(chars) + [0], true) == Ok(Str(CharsMean(chars)), |WrittenString(chars)|)
  {
    hide WrittenChars;
    hide CharsMean;
    hide ParseText;
    UpToNulOfPlain(CharsMean(chars));
    TextReads(false, [], SpelledString(chars), []);
    var w := WrittenString(chars);
    assert [] + [] + w + ([] + [0]) == w + [0];
  }

  lemma {:induction false} UpToNulOfPlain(text: seq<byte>)
    requires forall i :: 0 <= i < |text| ==> text[i] != 0
    ensures UpToNul(text) == text
    decreases |text|
  {
    if text != [] {
      UpToNulOfPlain(text[1..]);
      assert text == [text[0]] + text[1..];
    }
  }

  /** Each escape of section 7, between any plain bytes, stands for its byte. */
  lemma {:induction false} EscapeStandsFor(before: seq<byte>, letter: byte, meant: byte, after: seq<byte>)
    requires IsPlain(before) && IsPlain(after)
    requires (letter, meant) in
               {(0x22, 0x22), (0x5C, 0x5C), (0x2F, 0x2F), (0x62, 0x08), (0x66, 0x0C), (0x6E, 0x0A), (0x72, 0x0D), (0x74, 0x09)}
    ensures var text := [0x22] + before + [0x5C, letter] + after + [0x22];
            ParseText(text + [0], true) == Ok(Str(before + [meant] + after), |text|)
  {
    hide CharsMean;
    hide WrittenChars;
    hide ParseText;
    var one := [Short(letter as char)];
    LetterMeans(letter, meant);
    PlainsAre(before);
    PlainsAre(after);
    CharsAppend(Plains(before) + one, Plains(after));
    CharsAppend(Plains(before), one);
    var bytes := before + [meant] + after;
    assert forall i :: 0 <= i < |bytes| ==> bytes[i] != 0;
    StringTextReads(Plains(before) + one + Plains(after));
    Regroup([0x22], before, [0x5C, letter]);
    Regroup([0x22], before + [0x5C, letter], after);
  }

  lemma LetterMeans(letter: byte, meant: byte)
    requires (letter, meant) in
               {(0x22, 0x22), (0x5C, 0x5C), (0x2F, 0x2F), (0x62, 0x08), (0x66, 0x0C), (0x6E, 0x0A), (0x72, 0x0D), (0x74, 0x09)}
    ensures var one := [Short(letter as char)];
            LegalChars(one) && WrittenChars(one) == [0x5C, letter] && CharsMean(one) == [meant] && meant != 0
  {
    OneChar(Short(letter as char));
  }
}
