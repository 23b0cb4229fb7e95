/**
 Printing and parsing of src/giga_spi_8adc/cJSON.c undo each other: on every value that
 prints, formatted or not, and on every text that parses, except that a number that
 overflowed a double prints as null.  What is printed is one of the spellings of the
 grammar, so it reads as what it means.
 */
module JsonRoundTrip {
  import opened Common
  import opened JsonText
  import opened JsonGrammar

  // ---- what is printed, as a spelling -------------------------------------------------------

  /** How a byte of a string is printed. */
  function CharOf(c: byte): Char {
    match c
    case 34 => Short('"')
    case 92 => Short('\\')
    case 8 => Short('b')
    case 12 => Short('f')
    case 10 => Short('n')
    case 13 => Short('r')
    case 9 => Short('t')
    case _ => if c > 31 then Plain(c) else Code([48, 48, HexDigit(c / 16), HexDigit(c % 16)])
  }

  function CharsOf(text: seq<byte>): (chars: seq<Char>)
    ensures |chars| == |text|
  {
    if text == [] then [] else [CharOf(text[0])] + CharsOf(text[1..])
  }

  function Size(n: int): nat {
    if n < 0 then -n else n
  }

  /** How a value is printed. */
  function Spell(v: Value, format: bool, depth: nat): Spelling
    decreases v
  {
    match v
    case Null => SpelledNull
    case False => SpelledFalse
    case True => SpelledTrue
    case Num(n) => SpelledNumber(n < 0, Digits(Size(n)))
    case Infinite(_) => SpelledNull
    case Str(text) => SpelledString(CharsOf(text))
    case Arr(items) => SpelledArray([], SpellItems(items, format, depth + 1, true))
    case Obj(members) =>
      SpelledObject(LineFeed(format) + Indent(format, depth), SpellMembers(members, format, depth + 1))
  }

  function LineFeed(format: bool): seq<byte> {
    if format then [LF] else []
  }

  function SpellItems(items: seq<Value>, format: bool, depth: nat, first: bool): (spelled: seq<SpelledItem>)
    ensures |spelled| == |items|
    decreases items
  {
    if items == [] then []
    else
      [SpelledItem(if first || !format then [] else [SPACE], Spell(items[0], format, depth), [])]
      + SpellItems(items[1..], format, depth, false)
  }

  /** `depth` is that of the members, at least 1. */
  function SpellMembers(members: seq<Member>, format: bool, depth: nat): (spelled: seq<SpelledMember>)
    ensures |spelled| == |members|
    decreases members
  {
    if members == [] then []
    else
      [SpelledMember(LineFeed(format) + Indent(format, depth), CharsOf(members[0].name), [], if format then [TAB] else [],
                     Spell(members[0].value, format, depth),
                     if |members| == 1 then LineFeed(format) + Indent(format, Outer(depth)) else [])]
      + SpellMembers(members[1..], format, depth)
  }

  function Outer(depth: nat): nat {
    if depth == 0 then 0 else depth - 1
  }

  lemma HexDigitIs(n: nat)
    requires n < 16
    ensures Digit16(HexDigit(n)) == Some(n)
  {
  }

  lemma CharOfIs(c: byte)
    ensures LegalChar(CharOf(c)) && WrittenChar(CharOf(c)) == Escape(c) && CharMeans(CharOf(c)) == [c]
  {
    if c <= 31 {
      HexDigitIs(c / 16);
      HexDigitIs(c % 16);
    }
  }

  lemma {:induction false} CharsOfAre(text: seq<byte>)
    ensures LegalChars(CharsOf(text))
    ensures WrittenChars(CharsOf(text)) == Escaped(text)
    ensures CharsMean(CharsOf(text)) == text
  {
    hide CharOf;
    hide CharsOf;
    hide WrittenChar;
    hide WrittenChars;
    hide CharMeans;
    hide CharsMean;
    hide Escape;
    hide Escaped;
    hide LegalChar;
    FirstByte(text);
    NoCharsRead([], 0);
    if text != [] {
      CharOfIs(text[0]);
      CharsOfAre(text[1..]);
      FirstChar(CharsOf(text));
      assert forall i :: 1 <= i < |CharsOf(text)| ==> CharsOf(text)[i] == CharsOf(text[1..])[i - 1];
    }
  }

  lemma FirstByte(text: seq<byte>)
    ensures text == [] ==> CharsOf(text) == [] && Escaped(text) == []
    ensures text != [] ==>
              && CharsOf(text) == [CharOf(text[0])] + CharsOf(text[1..]) && CharsOf(text)[1..] == CharsOf(text[1..])
              && Escaped(text) == Escape(text[0]) + Escaped(text[1..])
              && text == [text[0]] + text[1..]
  {
    hide CharOf;
    hide Escape;
  }

  lemma {:induction false} NumberOfDigits(n: nat)
    ensures NumberOf(Digits(n)) == n
  {
    if n < 10 {
      assert [48 + n][..0] == [];
    } else {
      NumberOfDigits(n / 10);
      var d := Digits(n);
      assert d[..|d| - 1] == Digits(n / 10);
    }
  }

  lemma ExactIsSmall(n: Exact)
    ensures Size(n) < EXACT_LIMIT <= OVERFLOW_LIMIT
  {
  }

  lemma NumberIsSpelled(n: Exact)
    ensures var x := SpelledNumber(n < 0, Digits(Size(n)));
            Legal(x, 0) && Written(x) == Decimal(n) && Means(x) == Num(n)
  {
    NumberOfDigits(Size(n));
    ExactIsSmall(n);
    hide Digits;
    hide NumberOf;
  }

  lemma QuotedIsWritten(text: CString)
    ensures WrittenString(CharsOf(text)) == Quoted(text) && LegalChars(CharsOf(text))
    ensures UpToNul(CharsMean(CharsOf(text))) == text
  {
    CharsOfAre(text);
    UpToNulOfString(text);
  }

  lemma {:induction false} UpToNulOfString(text: CString)
    ensures UpToNul(text) == text
    decreases |text|
  {
    if text != [] {
      assert text[0] in text;
      assert forall c :: c in text[1..] ==> c in text;
      UpToNulOfString(text[1..]);
      assert text == [text[0]] + text[1..];
    }
  }

  lemma BlankIndent(format: bool, depth: nat)
    ensures Blank(LineFeed(format) + Indent(format, depth))
  {
  }

  ghost predicate SpelledAs(v: Value, format: bool, depth: nat) {
    var x := Spell(v, format, depth);
    Legal(x, depth) && Written(x) == Print(v, format, depth) && Means(x) == Nulled(v)
  }

  lemma WordIsSpelled(v: Value, format: bool, depth: nat)
    requires v.Null? || v.False? || v.True? || v.Infinite?
    ensures SpelledAs(v, format, depth)
  {
    WordBytes();
  }

  lemma NumberSpell(v: Value, format: bool, depth: nat)
    requires v.Num?
    ensures Spell(v, format, depth) == SpelledNumber(v.number < 0, Digits(Size(v.number)))
    ensures Print(v, format, depth) == Decimal(v.number) && Nulled(v) == v
  {
    hide Digits;
    hide Decimal;
  }

  lemma NumberIsSpelledAs(v: Value, format: bool, depth: nat)
    requires v.Num?
    ensures SpelledAs(v, format, depth)
  {
    hide Spell;
    hide Print;
    hide Nulled;
    hide Written;
    hide Means;
    NumberSpell(v, format, depth);
    NumberIsSpelled(v.number);
  }

  lemma StringIsSpelledAs(v: Value, format: bool, depth: nat)
    requires v.Str?
    ensures SpelledAs(v, format, depth)
  {
    QuotedIsWritten(v.text);
    hide WrittenString;
    hide Quoted;
    hide CharsOf;
  }

  /** Every value that prints is printed as a legal spelling of what is left of it in print. */
  lemma {:induction false} PrintIsWritten(v: Value, format: bool, depth: nat)
    requires Nested(v, depth)
    ensures SpelledAs(v, format, depth)
    decreases v, 2
  {
    hide SpelledAs;
    match v
    case Num(_) => NumberIsSpelledAs(v, format, depth);
    case Str(_) => StringIsSpelledAs(v, format, depth);
    case Arr(_) => ArrayIsWritten(v, format, depth);
    case Obj(_) => ObjectIsWritten(v, format, depth);
    case _ => WordIsSpelled(v, format, depth);
  }

  lemma {:induction false} ArrayIsWritten(v: Value, format: bool, depth: nat)
    requires v.Arr? && Nested(v, depth)
    ensures SpelledAs(v, format, depth)
    decreases v, 1
  {
    NestedItems(v, depth);
    hide SpelledAs;
    hide ItemsSpelledAs;
    hide Nested;
    ItemsAreWritten(v.items, format, depth + 1, true);
    ArraySpelled(v, format, depth);
  }

  lemma NestedItems(v: Value, depth: nat)
    requires v.Arr? && Nested(v, depth)
    ensures depth < NESTING_LIMIT && forall i :: 0 <= i < |v.items| ==> Nested(v.items[i], depth + 1)
  {
  }

  lemma {:induction false} ArraySpelled(v: Value, format: bool, depth: nat)
    requires v.Arr? && depth < NESTING_LIMIT && ItemsSpelledAs(v.items, format, depth + 1, true)
    ensures SpelledAs(v, format, depth)
  {
    hide Spell;
    hide SpellItems;
    hide Print;
    hide PrintItems;
    hide Written;
    hide WrittenItems;
    hide Means;
    hide ItemsMean;
    hide Nulled;
    hide NulledItems;
    hide Legal;
    hide LegalItems;
    ArrayParts(v, format, depth);
    var x := Spell(v, format, depth);
    NoItems(v.items, format, depth + 1);
    LegalArray(x, depth);
    ArrayIs(x, depth);
  }

  lemma {:induction false} LegalArray(x: Spelling, depth: nat)
    requires x.SpelledArray? && x.blank == [] && depth < NESTING_LIMIT && LegalItems(x.items, depth + 1)
    ensures Legal(x, depth)
  {
  }

  lemma {:induction false} ArrayParts(v: Value, format: bool, depth: nat)
    requires v.Arr?
    ensures Spell(v, format, depth) == SpelledArray([], SpellItems(v.items, format, depth + 1, true))
    ensures |SpellItems(v.items, format, depth + 1, true)| == |v.items|
    ensures Print(v, format, depth) == [LBRACKET] + PrintItems(v.items, format, depth + 1) + [RBRACKET]
    ensures Nulled(v) == Arr(NulledItems(v.items))
  {
  }

  lemma NoItems(items: seq<Value>, format: bool, depth: nat)
    ensures items == [] ==> PrintItems(items, format, depth) == [] && SpellItems(items, format, depth, true) == []
  {
  }

  /** The first item, in front of the others. */
  lemma {:induction false} FirstItemWritten(items: seq<Value>, format: bool, depth: nat, first: bool)
    requires items != []
    ensures var x := SpellItems(items, format, depth, first);
            var before := if first || !format then [] else [SPACE];
            && x == [SpelledItem(before, Spell(items[0], format, depth), [])] + SpellItems(items[1..], format, depth, false)
            && x[1..] == SpellItems(items[1..], format, depth, false)
            && PrintItems(items, format, depth)
               == Print(items[0], format, depth) + ItemSeparator(format, |items| == 1) + PrintItems(items[1..], format, depth)
            && (|items| == 1 ==> PrintItems(items[1..], format, depth) == [])
  {
    hide Print;
    hide Spell;
  }

  ghost predicate ItemsSpelledAs(items: seq<Value>, format: bool, depth: nat, first: bool) {
    var x := SpellItems(items, format, depth, first);
    && LegalItems(x, depth) && ItemsMean(x) == NulledItems(items)
    && WrittenItems(x) == (if first || items == [] || !format then [] else [SPACE]) + PrintItems(items, format, depth)
  }

  lemma {:induction false} ItemsAreWritten(items: seq<Value>, format: bool, depth: nat, first: bool)
    requires forall i :: 0 <= i < |items| ==> Nested(items[i], depth)
    ensures ItemsSpelledAs(items, format, depth, first)
    decreases items, 0
  {
    hide ItemsSpelledAs;
    hide SpelledAs;
    hide Nested;
    if items == [] {
      NoItemsSpelled(format, depth, first);
    } else {
      var rest := items[1..];
      assert forall i :: 0 <= i < |rest| ==> rest[i] == items[i + 1];
      PrintIsWritten(items[0], format, depth);
      ItemsAreWritten(rest, format, depth, false);
      MoreItems(items, format, depth, first);
    }
  }

  lemma NoItemsSpelled(format: bool, depth: nat, first: bool)
    ensures ItemsSpelledAs([], format, depth, first)
  {
    NoItemsWritten(format, depth, first);
  }

  lemma {:induction false} MoreItemsMean(items: seq<Value>, format: bool, depth: nat, first: bool)
    requires items != [] && SpelledAs(items[0], format, depth) && ItemsSpelledAs(items[1..], format, depth, false)
    ensures var x := SpellItems(items, format, depth, first);
            LegalItems(x, depth) && ItemsMean(x) == NulledItems(items)
  {
    hide Print;
    hide Written;
    hide WrittenItems;
    hide LegalItems;
    hide ItemsMean;
    hide Spell;
    hide Means;
    hide Nulled;
    hide Legal;
    hide PrintItems;
    hide SpellItems;
    FirstItemWritten(items, format, depth, first);
    FirstSpelled(SpellItems(items, format, depth, first), depth);
  }

  lemma {:induction false} MoreItemsWritten(items: seq<Value>, format: bool, depth: nat, first: bool)
    requires items != [] && SpelledAs(items[0], format, depth) && ItemsSpelledAs(items[1..], format, depth, false)
    ensures WrittenItems(SpellItems(items, format, depth, first))
            == (if first || !format then [] else [SPACE]) + PrintItems(items, format, depth)
  {
    hide Print;
    hide Written;
    hide WrittenItems;
    hide LegalItems;
    hide ItemsMean;
    hide Spell;
    hide Means;
    hide Nulled;
    hide Legal;
    hide PrintItems;
    hide SpellItems;
    hide NulledItems;
    var rest := items[1..];
    FirstItemWritten(items, format, depth, first);
    FirstSpelled(SpellItems(items, format, depth, first), depth);
    var before := if first || !format then [] else [SPACE];
    if rest != [] {
      JoinItems(before, Print(items[0], format, depth), if format then [SPACE] else [], PrintItems(rest, format, depth));
    }
  }

  lemma {:induction false} MoreItems(items: seq<Value>, format: bool, depth: nat, first: bool)
    requires items != [] && SpelledAs(items[0], format, depth) && ItemsSpelledAs(items[1..], format, depth, false)
    ensures ItemsSpelledAs(items, format, depth, first)
  {
    hide *;
    MoreItemsMean(items, format, depth, first);
    MoreItemsWritten(items, format, depth, first);
    ItemsSpelledIf(items, format, depth, first);
  }

  lemma {:induction false} ItemsSpelledIf(items: seq<Value>, format: bool, depth: nat, first: bool)
    requires var x := SpellItems(items, format, depth, first);
             && LegalItems(x, depth) && ItemsMean(x) == NulledItems(items)
             && WrittenItems(x) == (if first || items == [] || !format then [] else [SPACE]) + PrintItems(items, format, depth)
    ensures ItemsSpelledAs(items, format, depth, first)
  {
    hide LegalItems;
    hide ItemsMean;
    hide NulledItems;
    hide WrittenItems;
    hide PrintItems;
    hide SpellItems;
  }

  lemma NoItemsWritten(format: bool, depth: nat, first: bool)
    ensures SpellItems([], format, depth, first) == [] && PrintItems([], format, depth) == []
    ensures LegalItems([], depth) && ItemsMean([]) == [] && NulledItems([]) == [] && WrittenItems([]) == []
  {
  }

  /** A list of spelled items, by its first. */
  lemma {:induction false} FirstSpelled(x: seq<SpelledItem>, depth: nat)
    requires x != []
    ensures LegalItems(x, depth)
            <==> Blank(x[0].before) && Legal(x[0].value, depth) && Blank(x[0].after) && LegalItems(x[1..], depth)
    ensures ItemsMean(x) == [Means(x[0].value)] + ItemsMean(x[1..])
    ensures WrittenItems(x)
            == x[0].before + Written(x[0].value) + x[0].after + (if |x| == 1 then [] else [COMMA] + WrittenItems(x[1..]))
  {
    hide Means;
    hide Legal;
    hide Written;
  }

  lemma JoinItems(before: seq<byte>, text: seq<byte>, space: seq<byte>, rest: seq<byte>)
    ensures before + text + [] + ([COMMA] + (space + rest)) == before + (text + ([COMMA] + space) + rest)
  {
  }

  /** The line feed in front of the members, the members' lines and the closing indentation are
      the members' own white space. */
  lemma {:induction false} MembersAreWritten(members: seq<Member>, format: bool, depth: nat)
    requires members != [] && depth > 0 && forall i :: 0 <= i < |members| ==> Nested(members[i].value, depth)
    ensures var x := SpellMembers(members, format, depth);
            && LegalMembers(x, depth) && MembersMean(x) == NulledMembers(members)
            && WrittenMembers(x)
               == LineFeed(format) + PrintMembers(members, format, depth) + Indent(format, depth - 1)
    decreases members, 0
  {
    hide Print;
    hide Written;
    hide WrittenString;
    hide WrittenMembers;
    hide Quoted;
    hide Spell;
    hide SpellMembers;
    hide PrintMembers;
    hide Indent;
    hide LineFeed;
    hide Means;
    hide Nulled;
    hide Nested;
    hide Legal;
    hide LegalChars;
    hide Blank;
    hide CharsOf;
    hide CharsMean;
    hide MembersMean;
    hide NulledMembers;
    hide LegalMembers;
    var m, rest := members[0], members[1..];
    assert forall i :: 0 <= i < |rest| ==> rest[i] == members[i + 1];
    PrintIsWritten(m.value, format, depth);
    QuotedIsWritten(m.name);
    BlankIndent(format, depth);
    BlankIndent(format, depth - 1);
    if rest == [] {
      OneMember(m, members, format, depth);
    } else {
      MembersAreWritten(rest, format, depth);
      MoreMembers(m, members, format, depth);
    }
    FirstMemberSpelled(members, format, depth);
  }

  /** The first member, in front of the others: legal, and meaning the first. */
  lemma {:induction false} FirstMemberSpelled(members: seq<Member>, format: bool, depth: nat)
    requires members != [] && depth > 0
    requires Legal(Spell(members[0].value, format, depth), depth)
    requires Means(Spell(members[0].value, format, depth)) == Nulled(members[0].value)
    requires LegalChars(CharsOf(members[0].name)) && UpToNul(CharsMean(CharsOf(members[0].name))) == members[0].name
    requires Blank(LineFeed(format) + Indent(format, depth)) && Blank(LineFeed(format) + Indent(format, depth - 1))
    requires members[1..] != [] ==>
               LegalMembers(SpellMembers(members[1..], format, depth), depth)
               && MembersMean(SpellMembers(members[1..], format, depth)) == NulledMembers(members[1..])
    ensures LegalMembers(SpellMembers(members, format, depth), depth)
    ensures MembersMean(SpellMembers(members, format, depth)) == NulledMembers(members)
  {
    hide Spell;
    hide Means;
    hide Nulled;
    hide Legal;
    hide CharsOf;
    hide CharsMean;
    hide UpToNul;
    hide LegalChars;
    hide Indent;
    var x := SpellMembers(members, format, depth);
    assert x[1..] == SpellMembers(members[1..], format, depth);
    if members[1..] == [] {
      NothingSpelled(format, depth);
    }
  }

  lemma NothingSpelled(format: bool, depth: nat)
    ensures SpellMembers([], format, depth) == [] && LegalMembers([], depth) && MembersMean([]) == [] && NulledMembers([]) == []
  {
  }

  lemma ColonIs(format: bool)
    ensures [COLON] + (if format then [TAB] else []) == Colon(format)
  {
  }

  lemma Regrouped(lf: seq<byte>, indent: seq<byte>, name: seq<byte>, colon: seq<byte>, tab: seq<byte>, value: seq<byte>,
                  after: seq<byte>, more: seq<byte>)
    ensures ((lf + indent) + name + []) + (colon + tab + value + after) + more
            == lf + ((indent + name + (colon + tab)) + value + (after + more))
  {
  }

  lemma {:induction false} PrintedMembers(members: seq<Member>, format: bool, depth: nat)
    requires members != []
    ensures PrintMembers(members, format, depth)
            == MemberHead(members[0].name, format, depth) + Print(members[0].value, format, depth)
               + ((if |members| == 1 then [] else [COMMA]) + LineFeed(format) + PrintMembers(members[1..], format, depth))
    ensures |members| == 1 ==> PrintMembers(members[1..], format, depth) == []
  {
    var head, text := MemberHead(members[0].name, format, depth), Print(members[0].value, format, depth);
    var end, rest := MemberEnd(format, |members| == 1), PrintMembers(members[1..], format, depth);
    assert end == (if |members| == 1 then [] else [COMMA]) + LineFeed(format);
    assert head + text + end + rest == head + text + (end + rest);
  }

  lemma {:induction false} OneMember(m: Member, members: seq<Member>, format: bool, depth: nat)
    requires members == [m] && depth > 0
    requires WrittenString(CharsOf(m.name)) == Quoted(m.name)
    requires Written(Spell(m.value, format, depth)) == Print(m.value, format, depth)
    ensures WrittenMembers(SpellMembers(members, format, depth))
            == LineFeed(format) + PrintMembers(members, format, depth) + Indent(format, depth - 1)
  {
    hide Print;
    hide Written;
    hide Spell;
    hide Quoted;
    hide WrittenString;
    hide Indent;
    hide CharsOf;
    hide LineFeed;
    hide PrintMembers;
    var lf, indent, close := LineFeed(format), Indent(format, depth), Indent(format, depth - 1);
    var tab: seq<byte> := if format then [TAB] else [];
    var text := Print(m.value, format, depth);
    ColonIs(format);
    PrintedMembers(members, format, depth);
    assert WrittenMembers(SpellMembers(members, format, depth))
           == ((lf + indent) + Quoted(m.name) + []) + ([COLON] + tab + text + (lf + close)) + [];
    hide WrittenMembers;
    Regrouped(lf, indent, Quoted(m.name), [COLON], tab, text, lf + close, []);
    var head := MemberHead(m.name, format, depth);
    assert PrintMembers(members, format, depth) == head + text + lf;
    assert lf + (head + text + ((lf + close) + [])) == lf + (head + text + lf) + close;
  }

  lemma {:induction false} MoreMembers(m: Member, members: seq<Member>, format: bool, depth: nat)
    requires |members| > 1 && m == members[0] && depth > 0
    requires WrittenString(CharsOf(m.name)) == Quoted(m.name)
    requires Written(Spell(m.value, format, depth)) == Print(m.value, format, depth)
    requires WrittenMembers(SpellMembers(members[1..], format, depth))
             == LineFeed(format) + PrintMembers(members[1..], format, depth) + Indent(format, depth - 1)
    ensures WrittenMembers(SpellMembers(members, format, depth))
            == LineFeed(format) + PrintMembers(members, format, depth) + Indent(format, depth - 1)
  {
    hide Print;
    hide Written;
    hide Spell;
    hide Quoted;
    hide WrittenString;
    hide Indent;
    hide PrintMembers;
    var lf, indent, close := LineFeed(format), Indent(format, depth), Indent(format, depth - 1);
    var tab: seq<byte> := if format then [TAB] else [];
    var text, rest := Print(m.value, format, depth), PrintMembers(members[1..], format, depth);
    var more := [COMMA] + (lf + rest + close);
    ColonIs(format);
    PrintedMembers(members, format, depth);
    var x := SpellMembers(members, format, depth);
    assert x[1..] == SpellMembers(members[1..], format, depth);
    assert WrittenMembers(x) == ((lf + indent) + Quoted(m.name) + []) + ([COLON] + tab + text + []) + more;
    hide WrittenMembers;
    Regrouped(lf, indent, Quoted(m.name), [COLON], tab, text, [], more);
    var head := MemberHead(m.name, format, depth);
    assert PrintMembers(members, format, depth) == head + text + ([COMMA] + lf + rest);
    assert lf + (head + text + ([] + more)) == lf + (head + text + ([COMMA] + lf + rest)) + close;
  }

  lemma {:induction false} ObjectIsWritten(v: Value, format: bool, depth: nat)
    requires v.Obj? && Nested(v, depth)
    ensures SpelledAs(v, format, depth)
    decreases v, 1
  {
    BlankIndent(format, depth);
    if v.members == [] {
      NoMembers(v, format, depth);
    } else {
      MembersAreWritten(v.members, format, depth + 1);
      SomeMembers(v, format, depth);
    }
  }

  lemma {:induction false} ObjectParts(v: Value, format: bool, depth: nat)
    requires v.Obj?
    ensures Spell(v, format, depth)
            == SpelledObject(LineFeed(format) + Indent(format, depth), SpellMembers(v.members, format, depth + 1))
    ensures |SpellMembers(v.members, format, depth + 1)| == |v.members|
    ensures Print(v, format, depth)
            == ([LBRACE] + LineFeed(format)) + PrintMembers(v.members, format, depth + 1) + (Indent(format, depth) + [RBRACE])
    ensures v.members == [] ==> PrintMembers(v.members, format, depth + 1) == []
    ensures Nulled(v) == Obj(NulledMembers(v.members)) && (v.members == [] ==> NulledMembers(v.members) == [])
  {
    assert Open(format) == [LBRACE] + LineFeed(format);
  }

  lemma {:induction false} ObjectSpelled(x: Spelling, depth: nat)
    requires x.SpelledObject? && depth < NESTING_LIMIT && Blank(x.blank) && LegalMembers(x.members, depth + 1)
    ensures Legal(x, depth) && Means(x) == Obj(MembersMean(x.members))
    ensures Written(x) == [LBRACE] + (if x.members == [] then x.blank else WrittenMembers(x.members)) + [RBRACE]
    ensures x.members == [] ==> MembersMean(x.members) == []
  {
  }

  lemma {:induction false} NoMembers(v: Value, format: bool, depth: nat)
    requires v == Obj([]) && depth < NESTING_LIMIT && Blank(LineFeed(format) + Indent(format, depth))
    ensures SpelledAs(v, format, depth)
  {
    ObjectParts(v, format, depth);
    var x := Spell(v, format, depth);
    assert LegalMembers(x.members, depth + 1);
    ObjectSpelled(x, depth);
    hide Indent;
    hide LineFeed;
    hide Spell;
    hide Print;
    hide Written;
    hide Means;
    hide Legal;
    hide Blank;
    var lf, close := LineFeed(format), Indent(format, depth);
    assert ([LBRACE] + lf) + [] + (close + [RBRACE]) == [LBRACE] + (lf + close) + [RBRACE];
  }

  lemma {:induction false} SomeMembers(v: Value, format: bool, depth: nat)
    requires v.Obj? && v.members != [] && depth < NESTING_LIMIT && Blank(LineFeed(format) + Indent(format, depth))
    requires var x := SpellMembers(v.members, format, depth + 1);
             && LegalMembers(x, depth + 1) && MembersMean(x) == NulledMembers(v.members)
             && WrittenMembers(x) == LineFeed(format) + PrintMembers(v.members, format, depth + 1) + Indent(format, depth)
    ensures SpelledAs(v, format, depth)
  {
    hide Indent;
    hide LineFeed;
    hide Spell;
    hide Print;
    hide Written;
    hide Means;
    hide Nulled;
    hide Legal;
    hide Blank;
    hide PrintMembers;
    hide SpellMembers;
    hide LegalMembers;
    hide MembersMean;
    hide NulledMembers;
    hide WrittenMembers;
    ObjectParts(v, format, depth);
    ObjectSpelled(Spell(v, format, depth), depth);
    var lf, close, lines := LineFeed(format), Indent(format, depth), PrintMembers(v.members, format, depth + 1);
    assert ([LBRACE] + lf) + lines + (close + [RBRACE]) == [LBRACE] + (lf + lines + close) + [RBRACE];
  }

  // ---- back again ---------------------------------------------------------------------------

  /** Wherever a printed value stands in an input, the parser reads that value back, its infinite
      numbers as null, and stops right behind it. */
  lemma ParsePrinted(s: seq<byte>, at: nat, v: Value, format: bool, depth: nat)
    requires Nested(v, depth) && At(s, at, Print(v, format, depth))
    requires NumberEnds(s, at + |Print(v, format, depth)|)
    ensures ParseValue(s, at, depth) == Ok(Nulled(v), at + |Print(v, format, depth)|)
  {
    hide At;
    hide Written;
    hide Spell;
    hide Print;
    hide Means;
    hide Nulled;
    hide Legal;
    hide NumberEnds;
    hide ParseValue;
    PrintIsWritten(v, format, depth);
    SpellingReads(s, at, Spell(v, format, depth), depth);
  }

  lemma ParsePrintedString(s: seq<byte>, at: nat, text: CString)
    requires At(s, at, Quoted(text))
    ensures ParseString(s, at) == Ok(text, at + |Quoted(text)|)
  {
    QuotedIsWritten(text);
    StringReads(s, at, CharsOf(text));
  }

  lemma PrintStarts(v: Value, format: bool, depth: nat)
    ensures var text := Print(v, format, depth); text != [] && StartsValue(text[0])
  {
  }

  // ---- UTF-16 escapes -----------------------------------------------------------------------

  lemma HexDigitReads(n: nat)
    requires n < 16
    ensures HexValue(HexDigit(n)) == Nibble(n)
  {
  }

  function Hex4Text(h: nat): seq<byte>
    requires h < 0x1_0000
  {
    [HexDigit(h / 4096), HexDigit(h / 256 % 16), HexDigit(h / 16 % 16), HexDigit(h % 16)]
  }

  /** A code point as RFC 8259, section 7, escapes it: one \uXXXX, or two for a surrogate pair. */
  function Utf16Escape(cp: CodePoint): seq<byte> {
    if cp < 0x1_0000 then [BACKSLASH, 117] + Hex4Text(cp)
    else
      [BACKSLASH, 117] + Hex4Text(0xD800 + (cp - 0x1_0000) / 0x400)
      + ([BACKSLASH, 117] + Hex4Text(0xDC00 + (cp - 0x1_0000) % 0x400))
  }

  /** One digit of an escape reads as its value. */
  lemma DigitReads(s: seq<byte>, i: nat, h: nat, k: nat)
    requires h < 0x1_0000 && k < 4 && At(s, i, [BACKSLASH, 117] + Hex4Text(h))
    ensures i + 6 <= |s|
    ensures HexValue(s[i + 2 + k])
            == Nibble(if k == 0 then h / 4096 else if k == 1 then h / 256 % 16 else if k == 2 then h / 16 % 16 else h % 16)
  {
    hide At;
    hide HexValue;
    hide HexDigit;
    AtByte(s, i, [BACKSLASH, 117] + Hex4Text(h), 2 + k);
    AtByte(s, i, [BACKSLASH, 117] + Hex4Text(h), 5);
    HexDigitReads(if k == 0 then h / 4096 else if k == 1 then h / 256 % 16 else if k == 2 then h / 16 % 16 else h % 16);
  }

  lemma FourDigits(h: nat)
    requires h < 0x1_0000
    ensures 4096 * (h / 4096) + 256 * (h / 256 % 16) + 16 * (h / 16 % 16) + h % 16 == h
  {
    assert h / 256 == 16 * (h / 4096) + h / 256 % 16;
    assert h / 16 == 16 * (h / 256) + h / 16 % 16;
  }

  lemma Hex4Reads(s: seq<byte>, i: nat, h: nat)
    requires h < 0x1_0000 && At(s, i, [BACKSLASH, 117] + Hex4Text(h))
    ensures i + 6 <= |s| && s[i] == BACKSLASH && s[i + 1] == 117 && Hex4(s, i + 2) == h
  {
    hide At;
    hide HexValue;
    hide Hex4Text;
    AtByte(s, i, [BACKSLASH, 117] + Hex4Text(h), 0);
    AtByte(s, i, [BACKSLASH, 117] + Hex4Text(h), 1);
    DigitReads(s, i, h, 0);
    DigitReads(s, i, h, 1);
    DigitReads(s, i, h, 2);
    DigitReads(s, i, h, 3);
    FourDigits(h);
  }

  /** Every code point but the surrogates' own, escaped so, is read as its UTF-8 bytes. */
  lemma Utf16EscapeReads(s: seq<byte>, i: nat, end: nat, cp: CodePoint)
    requires At(s, i, Utf16Escape(cp)) && i + |Utf16Escape(cp)| <= end < |s|
    ensures ReadPiece(s, i, end) == Piece(Utf8(cp), |Utf16Escape(cp)|)
  {
    hide At;
    hide Hex4;
    hide Utf8;
    hide Hex4Text;
    if cp < 0x1_0000 {
      Hex4TextSize(cp);
      Hex4Reads(s, i, cp);
    } else {
      var high, low := 0xD800 + (cp - 0x1_0000) / 0x400, 0xDC00 + (cp - 0x1_0000) % 0x400;
      Hex4TextSize(high);
      Hex4TextSize(low);
      AtSplit(s, i, [BACKSLASH, 117] + Hex4Text(high), [BACKSLASH, 117] + Hex4Text(low));
      Hex4Reads(s, i, high);
      Hex4Reads(s, i + 6, low);
      PairIsCodePoint(cp);
    }
  }

  lemma Hex4TextSize(h: nat)
    requires h < 0x1_0000
    ensures |Hex4Text(h)| == 4
  {
  }

  lemma PairIsCodePoint(cp: CodePoint)
    requires cp >= 0x1_0000
    ensures var high, low := 0xD800 + (cp - 0x1_0000) / 0x400, 0xDC00 + (cp - 0x1_0000) % 0x400;
            && 0xD800 <= high <= 0xDBFF && 0xDC00 <= low <= 0xDFFF
            && 0x1_0000 + (high % 0x400) * 0x400 + low % 0x400 == cp
  {
    var q := (cp - 0x1_0000) / 0x400;
    assert q < 0x400;
    assert (0xD800 + q) % 0x400 == q;
  }

  // ---- numbers ------------------------------------------------------------------------------

  /** Any integer in decimal, of any size, is read as what strtod makes of it. */
  lemma ParsePrintedNumber(s: seq<byte>, at: nat, n: int)
    requires At(s, at, Decimal(n)) && NumberEnds(s, at + |Decimal(n)|)
    ensures at < |s| && (s[at] == MINUS || IsDigit(s[at]))
    ensures ParseNumber(s, at) == NumberRead(Size(n), n < 0, at + |Decimal(n)|)
  {
    hide Digits;
    hide At;
    hide NumberOf;
    hide NumberRead;
    hide EndOfDigits;
    hide ParseNumber;
    hide Decimal;
    var digits := Digits(Size(n));
    var first := if n < 0 then at + 1 else at;
    SignSeen(s, at, n);
    DigitsSeen(s, first, digits);
    NumberOfDigits(Size(n));
    NumberAt(s, at, first, first + |digits|);
  }

  /** The sign, and the digits behind it. */
  lemma SignSeen(s: seq<byte>, at: nat, n: int)
    requires At(s, at, Decimal(n))
    ensures var first := if n < 0 then at + 1 else at;
            && at + |Decimal(n)| == first + |Digits(Size(n))|
            && At(s, first, Digits(Size(n)))
            && (n < 0 ==> at < |s| && s[at] == MINUS)
  {
    hide Digits;
    hide At;
    if n < 0 {
      AtSplit(s, at, [MINUS], Digits(-n));
      AtByte(s, at, [MINUS], 0);
    }
  }

  // ---- whole texts --------------------------------------------------------------------------

  lemma AtStart(t: seq<byte>, tail: seq<byte>)
    ensures At(t + tail, 0, t)
  {
    AtIsSlice(t + tail, 0, t);
  }

  /** Nothing is lost in print exactly when no number is infinite. */
  lemma {:induction false} NulledSame(v: Value)
    ensures Nulled(v) == v <==> Finite(v)
    decreases v, 1
  {
    match v
    case Arr(items) => NulledItemsSame(items);
    case Obj(members) => NulledMembersSame(members);
    case _ =>
  }

  lemma {:induction false} NulledItemsSame(items: seq<Value>)
    ensures NulledItems(items) == items <==> forall i :: 0 <= i < |items| ==> Finite(items[i])
    decreases items, 0
  {
    if items != [] {
      NulledSame(items[0]);
      var rest := items[1..];
      NulledItemsSame(rest);
      assert items == [items[0]] + rest;
      assert NulledItems(items)[1..] == NulledItems(rest);
      assert forall i :: 0 <= i < |rest| ==> rest[i] == items[i + 1];
    }
  }

  lemma {:induction false} NulledMembersSame(members: seq<Member>)
    ensures NulledMembers(members) == members <==> forall i :: 0 <= i < |members| ==> Finite(members[i].value)
    decreases members, 0
  {
    if members != [] {
      NulledSame(members[0].value);
      var rest := members[1..];
      NulledMembersSame(rest);
      assert members == [members[0]] + rest;
      assert NulledMembers(members)[1..] == NulledMembers(rest);
      assert forall i :: 0 <= i < |rest| ==> rest[i] == members[i + 1];
    }
  }

  /** What is printed parses back, infinite numbers as null, and the parser stops at its end:
      with the NUL that ends a C string, whether or not that NUL is required, and on the bare
      bytes.  It is the same value again exactly when no number in it is infinite. */
  lemma PrintThenParse(v: Value, format: bool, requireNul: bool)
    requires Nested(v, 0)
    ensures var text := Print(v, format, 0);
            && ParseText(text + [0], requireNul) == Ok(Nulled(v), |text|)
            && ParseText(text, false) == Ok(Nulled(v), |text|)
    ensures Nulled(v) == v <==> Finite(v)
  {
    hide Print;
    hide At;
    hide ParseValue;
    hide Nulled;
    var text := Print(v, format, 0);
    NulledSame(v);
    PrintStarts(v, format, 0);
    AtStart(text, [0]);
    AtStart(text, []);
    assert text + [] == text;
    SkipOver(text + [0], 0, 0);
    SkipOver(text, 0, 0);
    ParsePrinted(text + [0], 0, v, format, 0);
    ParsePrinted(text, 0, v, format, 0);
  }

  lemma NestedArray(items: seq<Value>, depth: nat)
    requires depth < NESTING_LIMIT && forall i :: 0 <= i < |items| ==> Nested(items[i], depth + 1)
    ensures Nested(Arr(items), depth)
  {
  }

  lemma NestedObject(members: seq<Member>, depth: nat)
    requires depth < NESTING_LIMIT && forall i :: 0 <= i < |members| ==> Nested(members[i].value, depth + 1)
    ensures Nested(Obj(members), depth)
  {
  }

  lemma LeafNested(v: Value, depth: nat)
    requires !v.Arr? && !v.Obj?
    ensures Nested(v, depth)
  {
  }

  /** Arrays and objects come out of the two loops. */
  lemma ParsedKinds(s: seq<byte>, at: nat, depth: nat)
    requires at <= |s| && ParseValue(s, at, depth).Ok?
    ensures var v := ParseValue(s, at, depth).value;
            && (v.Arr? ==> Sees(s, at, LBRACKET) && ParseArray(s, at, depth) == ParseValue(s, at, depth))
            && (v.Obj? ==> Sees(s, at, LBRACE) && ParseObject(s, at, depth) == ParseValue(s, at, depth))
  {
    hide ParseItems;
    hide ParseMembers;
    hide ParseString;
    hide NumberOf;
    hide At;
  }

  lemma ParsedArray(s: seq<byte>, at: nat, depth: nat)
    requires Sees(s, at, LBRACKET) && ParseArray(s, at, depth).Ok?
    ensures var r, first := ParseArray(s, at, depth), SkipWhitespace(s, at + 1);
            && depth < NESTING_LIMIT && at < first <= |s| && r.value.Arr?
            && (r.value.items != [] ==>
                  ParseItems(s, first, depth + 1).Ok? && ParseItems(s, first, depth + 1).value == r.value.items)
  {
    hide ParseItems;
  }

  lemma ParsedObject(s: seq<byte>, at: nat, depth: nat)
    requires Sees(s, at, LBRACE) && ParseObject(s, at, depth).Ok?
    ensures var r, first := ParseObject(s, at, depth), SkipWhitespace(s, at + 1);
            && depth < NESTING_LIMIT && at < first <= |s| && r.value.Obj?
            && (r.value.members != [] ==>
                  ParseMembers(s, first, depth + 1).Ok? && ParseMembers(s, first, depth + 1).value == r.value.members)
  {
    hide ParseMembers;
  }

  /** Whatever parses, parses to a value within the nesting limit. */
  lemma {:induction false} ParsedIsNested(s: seq<byte>, at: nat, depth: nat)
    requires at <= |s|
    ensures var r := ParseValue(s, at, depth); r.Ok? ==> Nested(r.value, depth)
    decreases |s| - at, 1
  {
    hide ParseValue;
    hide ParseArray;
    hide ParseObject;
    hide ParseItems;
    hide ParseMembers;
    hide SkipWhitespace;
    hide Nested;
    var r := ParseValue(s, at, depth);
    if r.Ok? {
      ParsedKinds(s, at, depth);
      var first := if at < |s| then SkipWhitespace(s, at + 1) else at;
      if r.value.Arr? {
        ParsedArray(s, at, depth);
        ParsedItemsAreNested(s, first, depth + 1);
        NestedArray(r.value.items, depth);
      } else if r.value.Obj? {
        ParsedObject(s, at, depth);
        ParsedMembersAreNested(s, first, depth + 1);
        NestedObject(r.value.members, depth);
      } else {
        LeafNested(r.value, depth);
      }
    }
  }

  lemma {:induction false} ParsedItemsAreNested(s: seq<byte>, at: nat, depth: nat)
    requires at <= |s|
    ensures var r := ParseItems(s, at, depth);
            r.Ok? ==> forall i :: 0 <= i < |r.value| ==> Nested(r.value[i], depth)
    decreases |s| - at, 2
  {
    hide ParseValue;
    hide Nested;
    hide SkipWhitespace;
    var start := SkipWhitespace(s, at);
    ParsedIsNested(s, start, depth);
    var item := ParseValue(s, start, depth);
    if item.Ok? {
      var after := SkipWhitespace(s, item.next);
      if Sees(s, after, COMMA) {
        ParsedItemsAreNested(s, after + 1, depth);
        var rest := ParseItems(s, after + 1, depth);
        if rest.Ok? {
          var all := [item.value] + rest.value;
          assert ParseItems(s, at, depth).value == all;
          assert forall i :: 1 <= i < |all| ==> all[i] == rest.value[i - 1];
        }
      }
    }
  }

  lemma {:induction false} ParsedMembersAreNested(s: seq<byte>, at: nat, depth: nat)
    requires at <= |s|
    ensures var r := ParseMembers(s, at, depth);
            r.Ok? ==> forall i :: 0 <= i < |r.value| ==> Nested(r.value[i].value, depth)
    decreases |s| - at, 3
  {
    hide ParseMember;
    hide Nested;
    hide SkipWhitespace;
    if at < |s| {
      ParsedMemberIsNested(s, at, depth);
      var member := ParseMember(s, at, depth);
      if member.Ok? {
        var after := SkipWhitespace(s, member.next);
        if Sees(s, after, COMMA) {
          ParsedMembersAreNested(s, after + 1, depth);
          var rest := ParseMembers(s, after + 1, depth);
          if rest.Ok? {
            var all := [member.value] + rest.value;
            assert ParseMembers(s, at, depth).value == all;
            assert forall i :: 1 <= i < |all| ==> all[i] == rest.value[i - 1];
          }
        }
      }
    }
  }

  lemma {:induction false} ParsedMemberIsNested(s: seq<byte>, at: nat, depth: nat)
    requires at < |s|
    ensures var r := ParseMember(s, at, depth); r.Ok? ==> Nested(r.value.value, depth)
    decreases |s| - at, 2
  {
    var name := ParseString(s, SkipWhitespace(s, at));
    if name.Ok? {
      var colon := SkipWhitespace(s, name.next);
      if Sees(s, colon, COLON) {
        ParsedIsNested(s, SkipWhitespace(s, colon + 1), depth);
      }
    }
  }

  /** Printing what was parsed, from any text, and parsing it again: infinite numbers have
      become null, and nothing else has changed. */
  lemma ParsePrintParse(s: seq<byte>, requireNul: bool, format: bool)
    ensures var r := ParseText(s, requireNul);
            r.Ok? ==>
              && Nested(r.value, 0)
              && (var text := Print(r.value, format, 0);
                  ParseText(text + [0], true) == Ok(Nulled(r.value), |text|))
              && (Nulled(r.value) == r.value <==> Finite(r.value))
  {
    hide Print;
    hide Nulled;
    var r := ParseText(s, requireNul);
    if r.Ok? {
      var start := if |s| > 4 && s[0] == 0xEF && s[1] == 0xBB && s[2] == 0xBF then 3 else 0;
      ParsedIsNested(s, SkipWhitespace(s, start), 0);
      PrintThenParse(r.value, format, true);
    }
  }

  /** A text that is one integer, of any size: up to fifteen digits it is read exactly, and
      it is read as infinite exactly from 2^1024 - 2^970 on. */
  lemma IntegerText(n: int, requireNul: bool)
    ensures var text := Decimal(n);
            ParseText(text + [0], requireNul) == NumberRead(Size(n), n < 0, |text|)
  {
    hide At;
    hide Digits;
    hide ParseNumber;
    var text := Decimal(n);
    var s := text + [0];
    AtStart(text, [0]);
    ParsePrintedNumber(s, 0, n);
    NotAWord(s, 0);
    assert s[0] == text[0] && 32 < s[0] < 128;
    SkipOver(s, 0, 0);
    if requireNul {
      assert SkipWhitespace(s, |text|) == |text|;
    }
  }

  // ---- the limits ------------------------------------------------------------------------------

  function Power(base: nat, exponent: nat): nat {
    if exponent == 0 then 1 else base * Power(base, exponent - 1)
  }

  lemma {:induction false} PowerSum(base: nat, a: nat, b: nat)
    ensures Power(base, a + b) == Power(base, a) * Power(base, b)
    decreases a
  {
    if a == 0 {
      assert Power(base, 0) == 1;
    } else {
      PowerSum(base, a - 1, b);
      TimesRegroups(base, Power(base, a - 1), Power(base, b));
    }
  }

  lemma TimesRegroups(a: nat, b: nat, c: nat)
    ensures a * (b * c) == (a * b) * c
  {
  }

  lemma PowersOfTwo()
    ensures Power(2, 54) == 0x40_0000_0000_0000
    ensures Power(2, 97) == 0x2_0000_0000_0000_0000_0000_0000
  {
    assert Power(2, 7) == 128 && Power(2, 9) == 512;
    hide Power;
    PowerSum(2, 9, 9);
    PowerSum(2, 9, 18);
    PowerSum(2, 27, 27);
    PowerSum(2, 18, 18);
    PowerSum(2, 54, 36);
    PowerSum(2, 90, 7);
  }

  lemma FifthPower(n: nat)
    ensures var p := Power(2, n); Power(2, 5 * n) == p * p * p * p * p
  {
    hide Power;
    PowerSum(2, n, n);
    PowerSum(2, 2 * n, n);
    PowerSum(2, 3 * n, n);
    PowerSum(2, 4 * n, n);
  }

  lemma TenToFifteen()
    ensures Power(10, 15) == 1_000_000_000_000_000
  {
    assert Power(10, 5) == 100_000;
    hide Power;
    PowerSum(10, 5, 5);
    PowerSum(10, 10, 5);
  }

  lemma OneLess(a: nat, b: nat)
    requires a > 0
    ensures (a - 1) * b * b == a * (b * b) - b * b
  {
    var c := b * b;
    assert (a - 1) * b * b == (a - 1) * c;
  }

  /** Up to fifteen digits an integer is exact; half a unit in the last place below 2^1024 it
      becomes infinite. */
  lemma NumberLimits()
    ensures EXACT_LIMIT == Power(10, 15)
    ensures OVERFLOW_LIMIT == Power(2, 1024) - Power(2, 970)
  {
    TenToFifteen();
    hide Power;
    var b := Power(2, 485);
    PowersOfTwo();
    FifthPower(97);
    PowerSum(2, 485, 485);
    PowerSum(2, 54, 970);
    OneLess(Power(2, 54), b);
    assert OVERFLOW_LIMIT == (Power(2, 54) - 1) * b * b by {
      assert b == TWO_TO_485;
    }
  }

  function Highest(ns: seq<nat>): (h: nat)
    ensures forall i :: 0 <= i < |ns| ==> ns[i] <= h
    ensures h == 0 || exists i :: 0 <= i < |ns| && ns[i] == h
  {
    if ns == [] then 0
    else
      var last := |ns| - 1;
      var h := Highest(ns[..last]);
      if ns[last] > h then ns[last] else h
  }

  /** How many arrays and objects lie around the innermost of them, itself included. */
  ghost function Levels(v: Value): nat
    decreases v
  {
    match v
    case Arr(items) => 1 + Highest(seq(|items|, i requires 0 <= i < |items| => Levels(items[i])))
    case Obj(members) => 1 + Highest(seq(|members|, i requires 0 <= i < |members| => Levels(members[i].value)))
    case _ => 0
  }

  /** What nests within the limit is what has at most 1000 levels. */
  lemma {:induction false} NestedExactly(v: Value, depth: nat)
    ensures Nested(v, depth) <==> Levels(v) == 0 || depth + Levels(v) <= 1000
    decreases v
  {
    match v
    case Arr(items) =>
      var levels := seq(|items|, i requires 0 <= i < |items| => Levels(items[i]));
      forall i | 0 <= i < |items|
        ensures Nested(items[i], depth + 1) <==> levels[i] == 0 || depth + 1 + levels[i] <= 1000
      {
        NestedExactly(items[i], depth + 1);
      }
      HighestFits(levels, depth + 1);
    case Obj(members) =>
      var levels := seq(|members|, i requires 0 <= i < |members| => Levels(members[i].value));
      forall i | 0 <= i < |members|
        ensures Nested(members[i].value, depth + 1) <==> levels[i] == 0 || depth + 1 + levels[i] <= 1000
      {
        NestedExactly(members[i].value, depth + 1);
      }
      HighestFits(levels, depth + 1);
    case _ =>
  }

  lemma HighestFits(ns: seq<nat>, depth: nat)
    ensures depth <= 1000 && (forall i :: 0 <= i < |ns| ==> ns[i] == 0 || depth + ns[i] <= 1000)
            <==> depth + Highest(ns) <= 1000
  {
  }

  /** An integer literal that overflows parses, prints as null, and is null the next time. */
  lemma OverflowingIntegerBecomesNull(n: int, format: bool)
    ensures var r := ParseText(Decimal(n) + [0], true);
            && (Size(n) >= OVERFLOW_LIMIT <==> r == Ok(Infinite(n < 0), |Decimal(n)|))
            && (Size(n) >= OVERFLOW_LIMIT ==>
                  Print(r.value, format, 0) == NULL_TEXT
                  && ParseText(Print(r.value, format, 0) + [0], true) == Ok(Null, 4))
            && (Size(n) < EXACT_LIMIT ==>
                  && r == Ok(Num(n), |Decimal(n)|)
                  && Print(r.value, format, 0) == Decimal(n)
                  && ParseText(Print(r.value, format, 0) + [0], true) == r)
  {
    IntegerText(n, true);
    if Size(n) < EXACT_LIMIT {
      ExactIsSmall(n);
    }
    var r := ParseText(Decimal(n) + [0], true);
    if r.Ok? {
      PrintThenParse(r.value, format, true);
    }
  }
}
