/**
 The text forms of src/giga_spi_8adc/cJSON.c: what its printer writes and what its
 parser accepts.  Positions are offsets into the whole input, as in the source's
 parse_buffer.
 */
module JsonText {
  import opened Common

  const NESTING_LIMIT: nat := 1000    // CJSON_NESTING_LIMIT

  /** Integers of up to fifteen digits: a double holds them exactly and "%1.15g" prints them plainly. */
  const EXACT_LIMIT: nat := 1_000_000_000_000_000
  type Exact = n: int | -(EXACT_LIMIT as int) < n < EXACT_LIMIT

  /** From 2^1024 - 2^970 on, the nearest double is infinite. */
  const TWO_TO_97: nat := 0x2_0000_0000_0000_0000_0000_0000
  const TWO_TO_485: nat := TWO_TO_97 * TWO_TO_97 * TWO_TO_97 * TWO_TO_97 * TWO_TO_97
  const OVERFLOW_LIMIT: nat := (0x40_0000_0000_0000 - 1) * TWO_TO_485 * TWO_TO_485

  type CString = s: seq<byte> | 0 !in s

  /** A cJSON item; a number is its valuedouble. */
  datatype Value =
    | Null
    | False
    | True
    | Num(number: Exact)
    | Infinite(negative: bool)
    | Str(text: CString)
    | Arr(items: seq<Value>)
    | Obj(members: seq<Member>)

  datatype Member = Member(name: CString, value: Value)

  datatype Failure =
    | Malformed
    | Fractional    // a number with a fraction or an exponent
    | Inexact       // an integer of sixteen digits or more, still within a double's range

  datatype Parsed<T> = Ok(value: T, next: nat) | Err(why: Failure)

  const QUOTE: byte := 34
  const COMMA: byte := 44
  const MINUS: byte := 45
  const DOT: byte := 46
  const COLON: byte := 58
  const LBRACKET: byte := 91
  const BACKSLASH: byte := 92
  const RBRACKET: byte := 93
  const LBRACE: byte := 123
  const RBRACE: byte := 125
  const TAB: byte := 9
  const LF: byte := 10
  const SPACE: byte := 32

  const NULL_TEXT: seq<byte> := [110, 117, 108, 108]
  const FALSE_TEXT: seq<byte> := [102, 97, 108, 115, 101]
  const TRUE_TEXT: seq<byte> := [116, 114, 117, 101]

  // ---- printing -------------------------------------------------------------------------

  function Digits(n: nat): (text: seq<byte>)
    ensures text != [] && forall i :: 0 <= i < |text| ==> IsDigit(text[i])
  {
    if n < 10 then [48 + n] else Digits(n / 10) + [48 + n % 10]
  }

  function Decimal(n: int): seq<byte> {
    if n < 0 then [MINUS] + Digits(-n) else Digits(n)
  }

  function HexDigit(n: nat): byte
    requires n < 16
  {
    if n < 10 then 48 + n else 87 + n
  }

  /** What print_string_ptr writes for one byte. */
  function Escape(c: byte): seq<byte> {
    match c
    case 34 => [BACKSLASH, QUOTE]
    case 92 => [BACKSLASH, BACKSLASH]
    case 8 => [BACKSLASH, 98]
    case 12 => [BACKSLASH, 102]
    case 10 => [BACKSLASH, 110]
    case 13 => [BACKSLASH, 114]
    case 9 => [BACKSLASH, 116]
    case _ =>
      if c > 31 then [c]
      else [BACKSLASH, 117, 48, 48, HexDigit(c / 16), HexDigit(c % 16)]
  }

  function Escaped(text: seq<byte>): seq<byte> {
    if text == [] then [] else Escape(text[0]) + Escaped(text[1..])
  }

  function Quoted(text: seq<byte>): seq<byte> {
    [QUOTE] + Escaped(text) + [QUOTE]
  }

  function Tabs(n: nat): (text: seq<byte>)
    ensures |text| == n && forall i :: 0 <= i < n ==> text[i] == TAB
  {
    seq(n, _ => TAB)
  }

  function Print(v: Value, format: bool, depth: nat): seq<byte>
    decreases v
  {
    match v
    case Null => NULL_TEXT
    case False => FALSE_TEXT
    case True => TRUE_TEXT
    case Num(n) => Decimal(n)
    case Infinite(_) => NULL_TEXT
    case Str(text) => Quoted(text)
    case Arr(items) => [LBRACKET] + PrintItems(items, format, depth + 1) + [RBRACKET]
    case Obj(members) =>
      Open(format) + PrintMembers(members, format, depth + 1) + Close(format, depth)
  }

  function Open(format: bool): seq<byte> {
    if format then [LBRACE, LF] else [LBRACE]
  }

  function Close(format: bool, depth: nat): seq<byte> {
    Indent(format, depth) + [RBRACE]
  }

  function ItemSeparator(format: bool, last: bool): seq<byte> {
    if last then [] else if format then [COMMA, SPACE] else [COMMA]
  }

  function PrintItems(items: seq<Value>, format: bool, depth: nat): seq<byte>
    decreases items
  {
    if items == [] then []
    else
      Print(items[0], format, depth) + ItemSeparator(format, |items| == 1)
      + PrintItems(items[1..], format, depth)
  }

  function Indent(format: bool, depth: nat): seq<byte> {
    if format then Tabs(depth) else []
  }

  function Colon(format: bool): seq<byte> {
    if format then [COLON, TAB] else [COLON]
  }

  function MemberHead(name: CString, format: bool, depth: nat): seq<byte> {
    Indent(format, depth) + Quoted(name) + Colon(format)
  }

  function MemberEnd(format: bool, last: bool): seq<byte> {
    (if last then [] else [COMMA]) + (if format then [LF] else [])
  }

  function PrintMembers(members: seq<Member>, format: bool, depth: nat): seq<byte>
    decreases members
  {
    if members == [] then []
    else
      MemberHead(members[0].name, format, depth) + Print(members[0].value, format, depth)
      + MemberEnd(format, |members| == 1) + PrintMembers(members[1..], format, depth)
  }

  /** Arrays and objects nest no deeper than the limit. */
  ghost predicate Nested(v: Value, depth: nat)
    decreases v
  {
    match v
    case Arr(items) => depth < NESTING_LIMIT && forall i :: 0 <= i < |items| ==> Nested(items[i], depth + 1)
    case Obj(members) => depth < NESTING_LIMIT && forall i :: 0 <= i < |members| ==> Nested(members[i].value, depth + 1)
    case _ => true
  }

  /** No number in the value is infinite. */
  ghost predicate Finite(v: Value)
    decreases v
  {
    match v
    case Infinite(_) => false
    case Arr(items) => forall i :: 0 <= i < |items| ==> Finite(items[i])
    case Obj(members) => forall i :: 0 <= i < |members| ==> Finite(members[i].value)
    case _ => true
  }

  /** What is left of a value in print: infinite numbers print as null. */
  function Nulled(v: Value): Value
    decreases v
  {
    match v
    case Infinite(_) => Null
    case Arr(items) => Arr(NulledItems(items))
    case Obj(members) => Obj(NulledMembers(members))
    case _ => v
  }

  function NulledItems(items: seq<Value>): seq<Value>
    decreases items
  {
    if items == [] then [] else [Nulled(items[0])] + NulledItems(items[1..])
  }

  function NulledMembers(members: seq<Member>): seq<Member>
    decreases members
  {
    if members == [] then []
    else [Member(members[0].name, Nulled(members[0].value))] + NulledMembers(members[1..])
  }

  // ---- parsing --------------------------------------------------------------------------

  predicate IsDigit(c: byte) {
    48 <= c <= 57
  }

  /** can_access_at_index(0) and the byte there is c. */
  predicate Sees(s: seq<byte>, i: nat, c: byte) {
    i < |s| && s[i] == c
  }

  /** The text t stands in s at offset i. */
  predicate At(s: seq<byte>, i: nat, t: seq<byte>): (yes: bool)
    ensures yes && t != [] ==> i + |t| <= |s|
    decreases |t|
  {
    t == [] || (i < |s| && s[i] == t[0] && At(s, i + 1, t[1..]))
  }

  /** buffer_skip_whitespace: it never runs off a non-empty rest. */
  function SkipWhitespace(s: seq<byte>, i: nat): (j: nat)
    requires i <= |s|
    ensures i <= j <= |s| && (i < |s| ==> j < |s|)
    decreases |s| - i
  {
    if i + 1 >= |s| || s[i] > 32 then i else SkipWhitespace(s, i + 1)
  }

  function EndOfDigits(s: seq<byte>, i: nat): (j: nat)
    requires i <= |s|
    ensures i <= j <= |s|
    decreases |s| - i
  {
    if i < |s| && IsDigit(s[i]) then EndOfDigits(s, i + 1) else i
  }

  function NumberOf(digits: seq<byte>): nat
    requires forall i :: 0 <= i < |digits| ==> IsDigit(digits[i])
  {
    if digits == [] then 0
    else
      var last := |digits| - 1;
      assert IsDigit(digits[last]);
      10 * NumberOf(digits[..last]) + (digits[last] - 48)
  }

  /** The saturation of parse_number: the valueint that goes with a valuedouble. */
  function Clamp(n: int): (r: int)
    ensures -0x8000_0000 <= r <= 0x7FFF_FFFF
  {
    if n >= 0x7FFF_FFFF then 0x7FFF_FFFF else if n <= -0x8000_0000 then -0x8000_0000 else n
  }

  /** What strtod makes of an integer literal of this size and sign. */
  function NumberRead(size: nat, negative: bool, next: nat): Parsed<Value> {
    if size >= OVERFLOW_LIMIT then Ok(Infinite(negative), next)
    else if size < EXACT_LIMIT then Ok(Num(if negative then 0 - size else size), next)
    else Err(Inexact)
  }

  lemma DigitsFound(s: seq<byte>, i: nat)
    requires i <= |s|
    ensures var j := EndOfDigits(s, i);
            && (forall k :: i <= k < j ==> IsDigit(s[k]))
            && (j < |s| ==> !IsDigit(s[j]))
    decreases |s| - i
  {
    if i < |s| && IsDigit(s[i]) {
      DigitsFound(s, i + 1);
    }
  }

  predicate StartsFraction(s: seq<byte>, i: nat) {
    i < |s| && (s[i] == DOT || s[i] == 69 || s[i] == 101)    // '.', 'E' or 'e'
  }

  /** parse_number: strtod on the run of number characters. */
  function ParseNumber(s: seq<byte>, at: nat): (r: Parsed<Value>)
    requires at < |s|
    ensures r.Ok? ==> at < r.next <= |s|
  {
    var first := if s[at] == MINUS then at + 1 else at;
    var end := EndOfDigits(s, first);
    if StartsFraction(s, end) && (end > first || s[end] == DOT) then Err(Fractional)
    else if end == first then Err(Malformed)
    else
      DigitsFound(s, first);
      NumberRead(NumberOf(s[first..end]), s[at] == MINUS, end)
  }

  datatype Scan = Scan(end: nat, skipped: nat) | NoEnd

  /** The first scan of parse_string: the closing quote, and how many backslashes it stepped over. */
  function ScanString(s: seq<byte>, i: nat, skipped: nat): (r: Scan)
    requires i <= |s|
    ensures r.Scan? ==> i <= r.end < |s| && s[r.end] == QUOTE && r.skipped >= skipped
    decreases |s| - i
  {
    if i == |s| then NoEnd
    else if s[i] == QUOTE then Scan(i, skipped)
    else if s[i] != BACKSLASH then ScanString(s, i + 1, skipped)
    else if i + 1 >= |s| then NoEnd
    else ScanString(s, i + 2, skipped + 1)
  }

  datatype Nibble = Nibble(value: nat) | NotHex

  function HexValue(c: byte): (r: Nibble)
    ensures r.Nibble? ==> r.value < 16
  {
    if 48 <= c <= 57 then Nibble(c - 48)
    else if 65 <= c <= 70 then Nibble(10 + c - 65)
    else if 97 <= c <= 102 then Nibble(10 + c - 97)
    else NotHex
  }

  /** parse_hex4: anything that is not four hexadecimal digits reads as 0. */
  function Hex4(s: seq<byte>, i: nat): (h: nat)
    requires i + 4 <= |s|
    ensures h < 0x1_0000
  {
    var a, b, c, d := HexValue(s[i]), HexValue(s[i + 1]), HexValue(s[i + 2]), HexValue(s[i + 3]);
    if a.Nibble? && b.Nibble? && c.Nibble? && d.Nibble? then
      4096 * a.value + 256 * b.value + 16 * c.value + d.value
    else 0
  }

  /** A Unicode code point outside the surrogates. */
  type CodePoint = n: nat | n <= 0x10FFFF && !(0xD800 <= n <= 0xDFFF)

  function Utf8(cp: CodePoint): (bytes: seq<byte>)
    ensures 1 <= |bytes| <= 4 && (cp < 0x1_0000 ==> |bytes| <= 3)
  {
    if cp < 0x80 then [cp]
    else if cp < 0x800 then [0xC0 + cp / 0x40, 0x80 + cp % 0x40]
    else if cp < 0x1_0000 then [0xE0 + cp / 0x1000, 0x80 + cp / 0x40 % 0x40, 0x80 + cp % 0x40]
    else [0xF0 + cp / 0x4_0000, 0x80 + cp / 0x1000 % 0x40, 0x80 + cp / 0x40 % 0x40, 0x80 + cp % 0x40]
  }

  datatype Utf16 = Literal(codepoint: CodePoint, length: nat) | BadLiteral

  /** utf16_literal_to_utf8: one \uXXXX, or the two of a surrogate pair. */
  function ReadUtf16(s: seq<byte>, i: nat, end: nat): (r: Utf16)
    requires i < end <= |s|
    ensures r.Literal? ==>
              || (r.length == 6 && r.codepoint < 0x1_0000 && i + 6 <= end)
              || (r.length == 12 && i + 12 <= end)
  {
    if end - i < 6 then BadLiteral
    else
      var first := Hex4(s, i + 2);
      if 0xDC00 <= first <= 0xDFFF then BadLiteral
      else if 0xD800 <= first <= 0xDBFF then
        if end - (i + 6) < 6 || s[i + 6] != BACKSLASH || s[i + 7] != 117 then BadLiteral
        else
          var second := Hex4(s, i + 8);
          if second < 0xDC00 || second > 0xDFFF then BadLiteral
          else Literal(0x1_0000 + (first % 0x400) * 0x400 + second % 0x400, 12)
      else Literal(first, 6)
  }

  /** The byte a two-character escape stands for. */
  function SimpleEscape(c: byte): Parsed<byte> {
    match c
    case 98 => Ok(8, 2)
    case 102 => Ok(12, 2)
    case 110 => Ok(10, 2)
    case 114 => Ok(13, 2)
    case 116 => Ok(9, 2)
    case 34 => Ok(c, 2)
    case 92 => Ok(c, 2)
    case 47 => Ok(c, 2)
    case _ => Err(Malformed)
  }

  datatype Unescaped = Bytes(bytes: seq<byte>) | BadEscape

  /** What is produced at input position i, and how many input bytes it takes. */
  datatype Piece = Piece(bytes: seq<byte>, length: nat) | BadPiece

  function ReadPiece(s: seq<byte>, i: nat, end: nat): (p: Piece)
    requires i < end < |s|
    ensures p.Piece? ==> p.length >= 1
  {
    if s[i] != BACKSLASH then Piece([s[i]], 1)
    else if s[i + 1] == 117 then
      var u := ReadUtf16(s, i, end);
      if u.Literal? then Piece(Utf8(u.codepoint), u.length) else BadPiece
    else
      var e := SimpleEscape(s[i + 1]);
      if e.Ok? then Piece([e.value], 2) else BadPiece
  }

  /** The second scan of parse_string.  It may step past `end`, one byte at most. */
  function Unescape(s: seq<byte>, i: nat, end: nat): Unescaped
    requires end < |s|
    decreases end - i
  {
    if i >= end then Bytes([])
    else
      var p := ReadPiece(s, i, end);
      if p.BadPiece? then BadEscape
      else
        var rest := Unescape(s, i + p.length, end);
        if rest.BadEscape? then BadEscape else Bytes(p.bytes + rest.bytes)
  }

  /** The C string that starts at a byte sequence followed by a NUL. */
  function UpToNul(bytes: seq<byte>): (text: CString)
  {
    if bytes == [] || bytes[0] == 0 then [] else [bytes[0]] + UpToNul(bytes[1..])
  }

  function ParseString(s: seq<byte>, at: nat): (r: Parsed<CString>)
    requires at < |s|
    ensures r.Ok? ==> at < r.next <= |s|
  {
    if s[at] != QUOTE then Err(Malformed)
    else
      var scan := ScanString(s, at + 1, 0);
      if scan.NoEnd? then Err(Malformed)
      else
        var u := Unescape(s, at + 1, scan.end);
        if u.BadEscape? then Err(Malformed) else Ok(UpToNul(u.bytes), scan.end + 1)
  }

  function ParseValue(s: seq<byte>, at: nat, depth: nat): (r: Parsed<Value>)
    requires at <= |s|
    ensures r.Ok? ==> at < r.next <= |s|
    decreases |s| - at, 1
  {
    if At(s, at, NULL_TEXT) then Ok(Null, at + 4)
    else if At(s, at, FALSE_TEXT) then Ok(False, at + 5)
    else if At(s, at, TRUE_TEXT) then Ok(True, at + 4)
    else if Sees(s, at, QUOTE) then
      match ParseString(s, at)
      case Ok(text, next) => Ok(Str(text), next)
      case Err(why) => Err(why)
    else if at < |s| && (s[at] == MINUS || IsDigit(s[at])) then ParseNumber(s, at)
    else if Sees(s, at, LBRACKET) then ParseArray(s, at, depth)
    else if Sees(s, at, LBRACE) then ParseObject(s, at, depth)
    else Err(Malformed)
  }

  function ParseArray(s: seq<byte>, at: nat, depth: nat): (r: Parsed<Value>)
    requires Sees(s, at, LBRACKET)
    ensures r.Ok? ==> at < r.next <= |s|
    decreases |s| - at, 0
  {
    if depth >= NESTING_LIMIT then Err(Malformed)
    else
      var first := SkipWhitespace(s, at + 1);
      if Sees(s, first, RBRACKET) then Ok(Arr([]), first + 1)
      else if first == |s| then Err(Malformed)
      else
        match ParseItems(s, first, depth + 1)
        case Ok(items, next) => Ok(Arr(items), next)
        case Err(why) => Err(why)
  }

  /** The array loop: one item, then a comma and more items or the closing bracket. */
  function ParseItems(s: seq<byte>, at: nat, depth: nat): (r: Parsed<seq<Value>>)
    requires at <= |s|
    ensures r.Ok? ==> at < r.next <= |s| && r.value != []
    decreases |s| - at, 2
  {
    match ParseValue(s, SkipWhitespace(s, at), depth)
    case Err(why) => Err(why)
    case Ok(item, next) =>
      var after := SkipWhitespace(s, next);
      if Sees(s, after, COMMA) then
        match ParseItems(s, after + 1, depth)
        case Ok(items, end) => Ok([item] + items, end)
        case Err(why) => Err(why)
      else if Sees(s, after, RBRACKET) then Ok([item], after + 1)
      else Err(Malformed)
  }

  function ParseObject(s: seq<byte>, at: nat, depth: nat): (r: Parsed<Value>)
    requires Sees(s, at, LBRACE)
    ensures r.Ok? ==> at < r.next <= |s|
    decreases |s| - at, 0
  {
    if depth >= NESTING_LIMIT then Err(Malformed)
    else
      var first := SkipWhitespace(s, at + 1);
      if Sees(s, first, RBRACE) then Ok(Obj([]), first + 1)
      else if first == |s| then Err(Malformed)
      else
        match ParseMembers(s, first, depth + 1)
        case Ok(members, next) => Ok(Obj(members), next)
        case Err(why) => Err(why)
  }

  /** The name, the colon and the value of one member. */
  function ParseMember(s: seq<byte>, at: nat, depth: nat): (r: Parsed<Member>)
    requires at < |s|
    ensures r.Ok? ==> at < r.next <= |s|
    decreases |s| - at, 2
  {
    match ParseString(s, SkipWhitespace(s, at))
    case Err(why) => Err(why)
    case Ok(name, next) =>
      var colon := SkipWhitespace(s, next);
      if !Sees(s, colon, COLON) then Err(Malformed)
      else
        match ParseValue(s, SkipWhitespace(s, colon + 1), depth)
        case Ok(value, end) => Ok(Member(name, value), end)
        case Err(why) => Err(why)
  }

  /** The object loop; nothing after a comma is an error of its own. */
  function ParseMembers(s: seq<byte>, at: nat, depth: nat): (r: Parsed<seq<Member>>)
    requires at <= |s|
    ensures r.Ok? ==> at < r.next <= |s| && r.value != []
    decreases |s| - at, 3
  {
    if at == |s| then Err(Malformed)
    else
      match ParseMember(s, at, depth)
      case Err(why) => Err(why)
      case Ok(member, next) =>
        var after := SkipWhitespace(s, next);
        if Sees(s, after, COMMA) then
          match ParseMembers(s, after + 1, depth)
          case Ok(members, end) => Ok([member] + members, end)
          case Err(why) => Err(why)
        else if Sees(s, after, RBRACE) then Ok([member], after + 1)
        else Err(Malformed)
  }

  /** cJSON_ParseWithLengthOpts: an optional byte order mark, one value, and if asked for, a NUL. */
  function ParseText(s: seq<byte>, requireNul: bool): (r: Parsed<Value>)
  {
    if s == [] then Err(Malformed)
    else
      var start := if |s| > 4 && s[0] == 0xEF && s[1] == 0xBB && s[2] == 0xBF then 3 else 0;
      match ParseValue(s, SkipWhitespace(s, start), 0)
      case Err(why) => Err(why)
      case Ok(value, next) =>
        if !requireNul then Ok(value, next)
        else
          var end := SkipWhitespace(s, next);
          if Sees(s, end, 0) then Ok(value, end) else Err(Malformed)
  }
}
