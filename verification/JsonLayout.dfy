/**
 The form of what print_value of src/giga_spi_8adc/cJSON.c writes: no byte more than the
 grammar needs when unformatted, and formatted the same bytes laid out by one rule, which
 is stated here on the text alone.
 */
module JsonLayout {
  import opened Common
  import opened JsonText
  import opened JsonGrammar
  import opened JsonRoundTrip

  // ---- nothing that could be left out ---------------------------------------------------------

  /** Section 7 of RFC 8259 wants control characters escaped. */
  predicate Proper(x: Char) {
    LegalChar(x) && (x.Plain? ==> x.b >= 0x20)
  }

  lemma Utf8OfOne(n: CodePoint, c: byte)
    ensures Utf8(n) == [c] <==> n == c && c < 0x80
  {
  }

  /** Of all the proper ways to write a byte in a string, none is shorter than the printed one, and
      its hexadecimal digits are in lower case. */
  lemma EscapeIsShortest(c: byte, x: Char)
    requires Proper(x) && CharMeans(x) == [c]
    ensures |Escape(c)| <= |WrittenChar(x)|
    ensures forall k :: 0 <= k < |Escape(c)| && |Escape(c)| == 6 ==> !('A' as nat <= Escape(c)[k] <= 'F' as nat)
    ensures LegalChar(CharOf(c)) && WrittenChar(CharOf(c)) == Escape(c) && CharMeans(CharOf(c)) == [c]
  {
    hide Utf8;
    CharOfIs(c);
    match x
    case Pair(high, low) =>
      Utf8OfOne(0x1_0000 + 0x400 * (Number16(high) - 0xD800) + (Number16(low) - 0xDC00), c);
    case _ =>
  }

  /** A number is printed without leading zeros, and as itself. */
  lemma {:induction false} DigitsAreShortest(n: nat)
    ensures |Digits(n)| > 1 ==> Digits(n)[0] != '0' as nat
    ensures NumberOf(Digits(n)) == n
    ensures n > 0 ==> Digits(n)[0] != '0' as nat
  {
    NumberOfDigits(n);
    hide NumberOf;
    if n >= 10 {
      DigitsAreShortest(n / 10);
    }
  }

  ghost predicate NoBlanks(x: Spelling)
    decreases x
  {
    match x
    case SpelledArray(blank, items) =>
      blank == [] && forall i :: 0 <= i < |items| ==> items[i].before == [] && NoBlanks(items[i].value) && items[i].after == []
    case SpelledObject(blank, members) =>
      blank == [] && forall i :: 0 <= i < |members| ==>
        && members[i].before == [] && members[i].beforeColon == [] && members[i].afterColon == []
        && NoBlanks(members[i].value) && members[i].after == []
    case _ => true
  }

  /** Unformatted, no white space is written between the tokens. */
  lemma {:induction false} UnformattedHasNoBlanks(v: Value, depth: nat)
    ensures NoBlanks(Spell(v, false, depth))
    decreases v, 1
  {
    match v
    case Arr(items) => ItemsHaveNoBlanks(items, depth + 1, true);
    case Obj(members) => MembersHaveNoBlanks(members, depth + 1);
    case _ =>
  }

  lemma {:induction false} ItemsHaveNoBlanks(items: seq<Value>, depth: nat, first: bool)
    ensures forall x :: x in SpellItems(items, false, depth, first) ==>
              x.before == [] && NoBlanks(x.value) && x.after == []
    decreases items, 0
  {
    if items != [] {
      UnformattedHasNoBlanks(items[0], depth);
      ItemsHaveNoBlanks(items[1..], depth, false);
    }
  }

  lemma {:induction false} MembersHaveNoBlanks(members: seq<Member>, depth: nat)
    ensures forall x :: x in SpellMembers(members, false, depth) ==>
              && x.before == [] && x.beforeColon == [] && x.afterColon == [] && NoBlanks(x.value) && x.after == []
    decreases members, 0
  {
    if members != [] {
      UnformattedHasNoBlanks(members[0].value, depth);
      MembersHaveNoBlanks(members[1..], depth);
    }
  }

  // ---- the rule of the layout -------------------------------------------------------------------

  /** Where in a text: the brackets open around it, true for braces; inside a string, and behind a
      backslash there; right behind an opening brace. */
  datatype Where = Where(open: seq<bool>, inString: bool, escaped: bool, bare: bool)

  /** The white space that goes with a byte of an unformatted text: a line feed behind an opening
      brace and a comma between members, with a tab for each open bracket in front of a name; one
      in front of the closing brace of what has members, with a tab less; a tab behind a colon, a
      space behind a comma between items; nothing in strings. */
  function Laid(w: Where, c: byte): seq<byte> {
    if w.inString then [c]
    else if c == '{' as nat then [c, '\n' as nat]
    else if c == '"' as nat && w.bare then TabStops(|w.open|) + [c]
    else if c == '}' as nat then
      (if w.bare then [] else ['\n' as nat]) + TabStops(if w.open == [] then 0 else |w.open| - 1) + [c]
    else if c == ':' as nat then [c, '\t' as nat]
    else if c == ',' as nat && w.open != [] && w.open[|w.open| - 1] then [c, '\n' as nat] + TabStops(|w.open|)
    else if c == ',' as nat then [c, ' ' as nat]
    else [c]
  }

  function TabStops(n: nat): seq<byte> {
    seq(n, _ => '\t' as nat)
  }

  function Behind(w: Where, c: byte): Where {
    if w.inString then
      if w.escaped then w.(escaped := false)
      else if c == '\\' as nat then w.(escaped := true)
      else w.(inString := c != '"' as nat)
    else if c == '"' as nat then w.(inString := true, bare := false)
    else if c == '{' as nat then w.(open := w.open + [true], bare := true)
    else if c == '[' as nat then w.(open := w.open + [false], bare := false)
    else if (c == '}' as nat || c == ']' as nat) && w.open != [] then w.(open := w.open[..|w.open| - 1], bare := false)
    else w.(bare := false)
  }

  function Layout(text: seq<byte>, w: Where): seq<byte> {
    if text == [] then [] else Laid(w, text[0]) + Layout(text[1..], Behind(w, text[0]))
  }

  function BehindAll(text: seq<byte>, w: Where): Where {
    if text == [] then w else BehindAll(text[1..], Behind(w, text[0]))
  }

  lemma {:induction false} LayoutAppend(a: seq<byte>, b: seq<byte>, w: Where)
    ensures Layout(a + b, w) == Layout(a, w) + Layout(b, BehindAll(a, w))
    ensures BehindAll(a + b, w) == BehindAll(b, BehindAll(a, w))
    decreases |a|
  {
    hide Laid;
    hide Behind;
    if a == [] {
      assert a + b == b;
      EmptyInFront(Layout(b, w));
    } else {
      assert (a + b)[1..] == a[1..] + b;
      LayoutAppend(a[1..], b, Behind(w, a[0]));
      Regroup(Laid(w, a[0]), Layout(a[1..], Behind(w, a[0])), Layout(b, BehindAll(a, w)));
    }
  }

  lemma LayoutOne(c: byte, w: Where)
    ensures Layout([c], w) == Laid(w, c) && BehindAll([c], w) == Behind(w, c)
  {
    assert [c][1..] == [];
    assert Laid(w, c) + [] == Laid(w, c);
  }

  /** Outside strings and between tokens. */
  function Outside(open: seq<bool>, bare: bool): Where {
    Where(open, false, false, bare)
  }

  /** The unformatted text `a` is laid out as `b`, from w to w'. */
  ghost predicate LaidOut(a: seq<byte>, w: Where, b: seq<byte>, w': Where) {
    Layout(a, w) == b && BehindAll(a, w) == w'
  }

  lemma Joined(a1: seq<byte>, w1: Where, b1: seq<byte>, w2: Where, a2: seq<byte>, b2: seq<byte>, w3: Where)
    requires LaidOut(a1, w1, b1, w2) && LaidOut(a2, w2, b2, w3)
    ensures LaidOut(a1 + a2, w1, b1 + b2, w3)
  {
    LayoutAppend(a1, a2, w1);
  }

  lemma One(c: byte, w: Where)
    ensures LaidOut([c], w, Laid(w, c), Behind(w, c))
  {
    LayoutOne(c, w);
  }

  /** A byte that is laid out as it is, whatever is around it. */
  predicate Dull(c: byte) {
    c != '"' as nat && c != '{' as nat && c != '}' as nat && c != '[' as nat && c != ']' as nat && c != ':' as nat && c != ',' as nat
  }

  lemma {:induction false} DullText(text: seq<byte>, open: seq<bool>)
    requires forall i :: 0 <= i < |text| ==> Dull(text[i])
    ensures LaidOut(text, Outside(open, false), text, Outside(open, false))
    decreases |text|
  {
    if text != [] {
      DullText(text[1..], open);
      assert text == [text[0]] + text[1..];
    }
  }

  // ---- strings ------------------------------------------------------------------------------------

  function InString(open: seq<bool>): Where {
    Where(open, true, false, false)
  }

  lemma EscapeLaid(c: byte, open: seq<bool>)
    ensures LaidOut(Escape(c), InString(open), Escape(c), InString(open))
  {
    var e, w := Escape(c), InString(open);
    if |e| == 1 {
      One(e[0], w);
      assert e == [e[0]];
    } else if |e| == 2 {
      Two(e[0], e[1], w);
      assert e == [e[0], e[1]];
    } else {
      HexDigitIsDull(c / 16);
      HexDigitIsDull(c % 16);
      Two(e[0], e[1], w);
      Two(e[2], e[3], w);
      Two(e[4], e[5], w);
      Joined([e[0], e[1]], w, [e[0], e[1]], w, [e[2], e[3]], [e[2], e[3]], w);
      Joined([e[0], e[1]] + [e[2], e[3]], w, [e[0], e[1]] + [e[2], e[3]], w, [e[4], e[5]], [e[4], e[5]], w);
      assert e == [e[0], e[1]] + [e[2], e[3]] + [e[4], e[5]];
    }
  }

  lemma HexDigitIsDull(n: nat)
    requires n < 16
    ensures HexDigit(n) != '"' as nat && HexDigit(n) != '\\' as nat
  {
  }

  /** Two bytes of a string, the first a backslash or neither special. */
  lemma Two(a: byte, b: byte, w: Where)
    requires w.inString && !w.escaped
    requires a == BACKSLASH || (a != QUOTE && b != QUOTE && b != BACKSLASH)
    ensures LaidOut([a, b], w, [a, b], w)
  {
    One(a, w);
    One(b, Behind(w, a));
    Joined([a], w, [a], Behind(w, a), [b], [b], w);
    assert [a] + [b] == [a, b];
  }

  lemma {:induction false} EscapedLaid(text: seq<byte>, open: seq<bool>)
    ensures LaidOut(Escaped(text), InString(open), Escaped(text), InString(open))
    decreases |text|
  {
    hide Escape;
    if text != [] {
      EscapeLaid(text[0], open);
      EscapedLaid(text[1..], open);
      hide LaidOut;
      var w := InString(open);
      Joined(Escape(text[0]), w, Escape(text[0]), w, Escaped(text[1..]), Escaped(text[1..]), w);
    }
  }

  /** A string: behind an opening brace its tabs come first. */
  lemma QuotedLaid(text: CString, open: seq<bool>, bare: bool)
    ensures LaidOut(Quoted(text), Outside(open, bare), (if bare then Tabs(|open|) else []) + Quoted(text), Outside(open, false))
  {
    hide LaidOut;
    hide Escaped;
    hide Laid;
    hide Behind;
    hide Tabs;
    var w, v, end := Outside(open, bare), InString(open), Outside(open, false);
    var tabs: seq<byte> := if bare then Tabs(|open|) else [];
    Quotes(open, bare);
    One(QUOTE, w);
    EscapedLaid(text, open);
    One(QUOTE, v);
    Joined([QUOTE], w, tabs + [QUOTE], v, Escaped(text), Escaped(text), v);
    Joined([QUOTE] + Escaped(text), w, tabs + [QUOTE] + Escaped(text), v, [QUOTE], [QUOTE], end);
    Regroup(tabs, [QUOTE], Escaped(text));
    Regroup(tabs, [QUOTE] + Escaped(text), [QUOTE]);
  }

  lemma Quotes(open: seq<bool>, bare: bool)
    ensures Laid(InString(open), QUOTE) == [QUOTE] && Behind(InString(open), QUOTE) == Outside(open, false)
    ensures Laid(Outside(open, bare), QUOTE) == (if bare then Tabs(|open|) else []) + [QUOTE]
    ensures Behind(Outside(open, bare), QUOTE) == InString(open)
  {
    assert TabStops(|open|) == Tabs(|open|);
  }

  // ---- values ---------------------------------------------------------------------------------------

  lemma WordLaid(v: Value, open: seq<bool>)
    requires v.Null? || v.False? || v.True? || v.Infinite? || v.Num?
    ensures LaidOut(Print(v, false, 0), Outside(open, false), Print(v, true, |open|), Outside(open, false))
  {
    WordIsDull(v, |open|);
    hide Print;
    hide LaidOut;
    DullText(Print(v, false, 0), open);
  }

  lemma WordIsDull(v: Value, depth: nat)
    requires v.Null? || v.False? || v.True? || v.Infinite? || v.Num?
    ensures Print(v, true, depth) == Print(v, false, 0)
    ensures forall i :: 0 <= i < |Print(v, false, 0)| ==> Dull(Print(v, false, 0)[i])
  {
    if v.Num? {
      DecimalIsDull(v.number);
      hide Decimal;
    }
  }

  lemma DecimalIsDull(n: int)
    ensures forall i :: 0 <= i < |Decimal(n)| ==> Dull(Decimal(n)[i])
  {
  }

  /** Unformatted, the depth does not matter. */
  lemma {:induction false} DepthAside(v: Value, a: nat, b: nat)
    ensures Print(v, false, a) == Print(v, false, b)
    decreases v, 1
  {
    match v
    case Arr(items) => ItemsDepthAside(items, a + 1, b + 1);
    case Obj(members) => MembersDepthAside(members, a + 1, b + 1);
    case _ =>
  }

  lemma {:induction false} ItemsDepthAside(items: seq<Value>, a: nat, b: nat)
    ensures PrintItems(items, false, a) == PrintItems(items, false, b)
    decreases items, 0
  {
    if items != [] {
      DepthAside(items[0], a, b);
      ItemsDepthAside(items[1..], a, b);
    }
  }

  lemma {:induction false} MembersDepthAside(members: seq<Member>, a: nat, b: nat)
    ensures PrintMembers(members, false, a) == PrintMembers(members, false, b)
    decreases members, 0
  {
    if members != [] {
      DepthAside(members[0].value, a, b);
      MembersDepthAside(members[1..], a, b);
    }
  }

  /** Formatted, a value is its unformatted text laid out. */
  lemma {:induction false} ValueLaid(v: Value, open: seq<bool>)
    ensures LaidOut(Print(v, false, |open|), Outside(open, false), Print(v, true, |open|), Outside(open, false))
    decreases v, 2
  {
    hide LaidOut;
    hide Print;
    match v
    case Str(text) => StringLaid(v, open);
    case Arr(_) => ArrayLaid(v, open);
    case Obj(_) => ObjectLaid(v, open);
    case _ =>
      WordLaid(v, open);
      DepthAside(v, 0, |open|);
  }

  lemma StringLaid(v: Value, open: seq<bool>)
    requires v.Str?
    ensures LaidOut(Print(v, false, |open|), Outside(open, false), Print(v, true, |open|), Outside(open, false))
  {
    QuotedLaid(v.text, open, false);
    hide LaidOut;
    hide Quoted;
    assert [] + Quoted(v.text) == Quoted(v.text);
  }

  lemma {:induction false} ArrayLaid(v: Value, open: seq<bool>)
    requires v.Arr?
    ensures LaidOut(Print(v, false, |open|), Outside(open, false), Print(v, true, |open|), Outside(open, false))
    decreases v, 1
  {
    hide LaidOut;
    hide PrintItems;
    var w, inside := Outside(open, false), open + [false];
    var v' := Outside(inside, false);
    var a, b := PrintItems(v.items, false, |inside|), PrintItems(v.items, true, |inside|);
    assert Print(v, false, |open|) == [LBRACKET] + a + [RBRACKET];
    assert Print(v, true, |open|) == [LBRACKET] + b + [RBRACKET];
    hide Print;
    One(LBRACKET, w);
    ItemsLaid(v.items, inside);
    One(RBRACKET, v');
    Brackets(open);
    hide Laid;
    hide Behind;
    Joined([LBRACKET], w, [LBRACKET], v', a, b, v');
    Joined([LBRACKET] + a, w, [LBRACKET] + b, v', [RBRACKET], [RBRACKET], w);
  }

  lemma Brackets(open: seq<bool>)
    ensures Laid(Outside(open, false), LBRACKET) == [LBRACKET]
    ensures Behind(Outside(open, false), LBRACKET) == Outside(open + [false], false)
    ensures Laid(Outside(open + [false], false), RBRACKET) == [RBRACKET]
    ensures Behind(Outside(open + [false], false), RBRACKET) == Outside(open, false)
    ensures Laid(Outside(open + [false], false), COMMA) == [COMMA, SPACE]
    ensures Behind(Outside(open + [false], false), COMMA) == Outside(open + [false], false)
  {
    assert (open + [false])[..|open|] == open;
  }

  lemma {:induction false} ItemsLaid(items: seq<Value>, open: seq<bool>)
    requires open != [] && !open[|open| - 1]
    ensures LaidOut(PrintItems(items, false, |open|), Outside(open, false), PrintItems(items, true, |open|), Outside(open, false))
    decreases items, 0
  {
    if items != [] {
      var w := Outside(open, false);
      var rest := items[1..];
      ValueLaid(items[0], open);
      ItemsLaid(rest, open);
      SeparatorLaid(open, |items| == 1);
      hide LaidOut;
      hide Print;
      var a, b := Print(items[0], false, |open|), Print(items[0], true, |open|);
      var c, d := ItemSeparator(false, |items| == 1), ItemSeparator(true, |items| == 1);
      Joined(a, w, b, w, c, d, w);
      Joined(a + c, w, b + d, w, PrintItems(rest, false, |open|), PrintItems(rest, true, |open|), w);
    }
  }

  lemma SeparatorLaid(open: seq<bool>, last: bool)
    requires open != [] && !open[|open| - 1]
    ensures LaidOut(ItemSeparator(false, last), Outside(open, false), ItemSeparator(true, last), Outside(open, false))
  {
    if !last {
      One(COMMA, Outside(open, false));
    }
  }

  lemma {:induction false} ObjectLaid(v: Value, open: seq<bool>)
    requires v.Obj?
    ensures LaidOut(Print(v, false, |open|), Outside(open, false), Print(v, true, |open|), Outside(open, false))
    decreases v, 1
  {
    hide LaidOut;
    hide PrintMembers;
    hide Tabs;
    var w, inside := Outside(open, false), open + [true];
    var a, b := PrintMembers(v.members, false, |inside|), PrintMembers(v.members, true, |inside|);
    var tabs := Tabs(|open|);
    ObjectTexts(v, |open|);
    hide Print;
    One(LBRACE, w);
    Braces(open);
    if v.members == [] {
      One(RBRACE, Outside(inside, true));
      Joined([LBRACE], w, [LBRACE, LF], Outside(inside, true), [RBRACE], tabs + [RBRACE], w);
      assert [LBRACE] + [] + [RBRACE] == [LBRACE] + [RBRACE];
      assert [LBRACE, LF] + [] + (tabs + [RBRACE]) == [LBRACE, LF] + (tabs + [RBRACE]);
    } else {
      var out := MembersLaid(v.members, inside, true);
      One(RBRACE, Outside(inside, false));
      hide Laid;
      hide Behind;
      Joined([LBRACE], w, [LBRACE, LF], Outside(inside, true), a, out, Outside(inside, false));
      Joined([LBRACE] + a, w, [LBRACE, LF] + out, Outside(inside, false), [RBRACE], [LF] + tabs + [RBRACE], w);
      assert [LBRACE, LF] + out + ([LF] + tabs + [RBRACE]) == [LBRACE, LF] + ([] + out + [LF]) + (tabs + [RBRACE]);
    }
  }

  lemma ObjectTexts(v: Value, depth: nat)
    requires v.Obj?
    ensures Print(v, false, depth) == [LBRACE] + PrintMembers(v.members, false, depth + 1) + [RBRACE]
    ensures Print(v, true, depth) == [LBRACE, LF] + PrintMembers(v.members, true, depth + 1) + (Tabs(depth) + [RBRACE])
    ensures v.members == [] ==> PrintMembers(v.members, false, depth + 1) == PrintMembers(v.members, true, depth + 1) == []
  {
    assert [] + [RBRACE] == [RBRACE];
  }

  lemma Braces(open: seq<bool>)
    ensures Laid(Outside(open, false), LBRACE) == [LBRACE, LF]
    ensures Behind(Outside(open, false), LBRACE) == Outside(open + [true], true)
    ensures Laid(Outside(open + [true], true), RBRACE) == Tabs(|open|) + [RBRACE]
    ensures Laid(Outside(open + [true], false), RBRACE) == [LF] + Tabs(|open|) + [RBRACE]
    ensures Behind(Outside(open + [true], true), RBRACE) == Behind(Outside(open + [true], false), RBRACE) == Outside(open, false)
  {
    assert (open + [true])[..|open|] == open;
    assert TabStops(|open|) == Tabs(|open|);
    assert [] + Tabs(|open|) + [RBRACE] == Tabs(|open|) + [RBRACE];
  }

  /** The members, laid out; their first tabs come with the comma or the brace before them, their
      last line feed with the brace behind. */
  lemma {:induction false} MembersLaid(members: seq<Member>, open: seq<bool>, bare: bool) returns (out: seq<byte>)
    requires members != [] && open != [] && open[|open| - 1]
    ensures LaidOut(PrintMembers(members, false, |open|), Outside(open, bare), out, Outside(open, false))
    ensures (if bare then [] else Tabs(|open|)) + out + [LF] == PrintMembers(members, true, |open|)
    decreases members, 0
  {
    hide LaidOut;
    hide Print;
    hide PrintMembers;
    hide Quoted;
    hide Tabs;
    hide Laid;
    hide Behind;
    var m, rest, n := members[0], members[1..], |open|;
    var w := Outside(open, false);
    var tabs: seq<byte> := Tabs(n);
    var first := if bare then tabs else [];
    var other := if bare then [] else tabs;
    var a, b := Print(m.value, false, n), Print(m.value, true, n);
    QuotedLaid(m.name, open, bare);
    ColonLaid(open);
    ValueLaid(m.value, open);
    var name := first + Quoted(m.name);
    Joined(Quoted(m.name), Outside(open, bare), name, w, [COLON], [COLON, TAB], w);
    Joined(Quoted(m.name) + [COLON], Outside(open, bare), name + [COLON, TAB], w, a, b, w);
    MemberTexts(members, n);
    if |members| == 1 {
      out := name + [COLON, TAB] + b;
      assert other + (first + Quoted(m.name) + [COLON, TAB] + b) + [LF] == tabs + Quoted(m.name) + [COLON, TAB] + b + [LF];
    } else {
      var more := MembersLaid(rest, open, false);
      CommaLaid(open);
      var head := Quoted(m.name) + [COLON] + a;
      var c, d := PrintMembers(rest, false, n), PrintMembers(rest, true, n);
      Joined(head, Outside(open, bare), name + [COLON, TAB] + b, w, [COMMA], [COMMA, LF] + tabs, w);
      Joined(head + [COMMA], Outside(open, bare), name + [COLON, TAB] + b + ([COMMA, LF] + tabs), w, c, more, w);
      out := name + [COLON, TAB] + b + ([COMMA, LF] + tabs) + more;
      MembersJoin(other, first, tabs, Quoted(m.name), b, more, d);
    }
  }

  lemma MembersJoin(other: seq<byte>, first: seq<byte>, tabs: seq<byte>, name: seq<byte>, b: seq<byte>,
                    more: seq<byte>, rest: seq<byte>)
    requires tabs + more + [LF] == rest && other + first == tabs
    ensures other + ((first + name) + [COLON, TAB] + b + ([COMMA, LF] + tabs) + more) + [LF]
            == tabs + name + [COLON, TAB] + b + [COMMA, LF] + rest
  {
    assert other + ((first + name) + [COLON, TAB] + b + ([COMMA, LF] + tabs) + more) + [LF]
           == (other + first) + name + [COLON, TAB] + b + [COMMA, LF] + (tabs + more + [LF]);
  }

  lemma {:induction false} MemberTexts(members: seq<Member>, depth: nat)
    requires members != []
    ensures var m, rest := members[0], members[1..];
            var a, b := Print(m.value, false, depth), Print(m.value, true, depth);
            && PrintMembers(members, false, depth)
               == Quoted(m.name) + [COLON] + a
                  + (if |members| == 1 then [] else [COMMA] + PrintMembers(rest, false, depth))
            && PrintMembers(members, true, depth)
               == Tabs(depth) + Quoted(m.name) + [COLON, TAB] + b
                  + (if |members| == 1 then [LF] else [COMMA, LF] + PrintMembers(rest, true, depth))
            && (|members| == 1 ==>
                  && PrintMembers(members, false, depth) == Quoted(m.name) + [COLON] + a
                  && PrintMembers(members, true, depth) == Tabs(depth) + Quoted(m.name) + [COLON, TAB] + b + [LF])
            && (|members| > 1 ==>
                  PrintMembers(members, false, depth)
                  == Quoted(m.name) + [COLON] + a + [COMMA] + PrintMembers(rest, false, depth))
            && (|members| > 1 ==>
                  PrintMembers(members, true, depth)
                  == Tabs(depth) + Quoted(m.name) + [COLON, TAB] + b + [COMMA, LF] + PrintMembers(rest, true, depth))
  {
    hide Print;
    hide Quoted;
    hide Tabs;
  }

  lemma ColonLaid(open: seq<bool>)
    ensures LaidOut([COLON], Outside(open, false), [COLON, TAB], Outside(open, false))
  {
    One(COLON, Outside(open, false));
  }

  lemma CommaLaid(open: seq<bool>)
    requires open != [] && open[|open| - 1]
    ensures LaidOut([COMMA], Outside(open, false), [COMMA, LF] + Tabs(|open|), Outside(open, false))
  {
    One(COMMA, Outside(open, false));
    assert TabStops(|open|) == Tabs(|open|);
  }

  /** The whole: what is printed formatted is what is printed unformatted, laid out. */
  lemma FormattedIsLaidOut(v: Value)
    ensures Print(v, true, 0) == Layout(Print(v, false, 0), Where([], false, false, false))
  {
    ValueLaid(v, []);
  }
}
