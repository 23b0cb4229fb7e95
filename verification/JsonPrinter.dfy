/**
 The printer of src/giga_spi_8adc/cJSON.c as it runs: a printbuffer that grows by
 doubling or refuses to, with its offset lagging behind the text until
 update_offset measures it.  Printing writes exactly the specified text, and
 succeeds exactly when that text and two more bytes fit.
 */
module JsonPrinter {
  import opened Common
  import opened JsonText

  const INT_MAX: nat := 0x7FFF_FFFF
  const DEFAULT_BUFFER_SIZE: nat := 256

  lemma {:induction false} EscapedHasNoNul(text: seq<byte>)
    ensures 0 !in Escaped(text)
    decreases |text|
  {
    if text != [] {
      EscapedHasNoNul(text[1..]);
      assert 0 !in Escape(text[0]);
    }
  }

  lemma QuotedHasNoNul(text: seq<byte>)
    ensures 0 !in Quoted(text) && |Quoted(text)| >= 2
  {
    EscapedHasNoNul(text);
  }

  lemma {:induction false} PrintHasNoNul(v: Value, format: bool, depth: nat)
    ensures 0 !in Print(v, format, depth) && Print(v, format, depth) != []
    decreases v, 1
  {
    match v
    case Str(text) => EscapedHasNoNul(text);
    case Arr(items) => ItemsHaveNoNul(items, format, depth + 1);
    case Obj(members) => MembersHaveNoNul(members, format, depth + 1);
    case _ =>
  }

  lemma {:induction false} ItemsHaveNoNul(items: seq<Value>, format: bool, depth: nat)
    ensures 0 !in PrintItems(items, format, depth)
    decreases items, 0
  {
    if items != [] {
      PrintHasNoNul(items[0], format, depth);
      ItemsHaveNoNul(items[1..], format, depth);
    }
  }

  lemma {:induction false} MembersHaveNoNul(members: seq<Member>, format: bool, depth: nat)
    ensures 0 !in PrintMembers(members, format, depth)
    decreases members, 0
  {
    if members != [] {
      EscapedHasNoNul(members[0].name);
      PrintHasNoNul(members[0].value, format, depth);
      MembersHaveNoNul(members[1..], format, depth);
    }
  }

  class PrintBuffer {
    var buffer: array<byte>    // its length is the source's `length`
    var offset: nat
    var depth: nat
    const noalloc: bool
    const format: bool

    constructor (block: array<byte>, noalloc: bool, format: bool)
      requires block.Length <= INT_MAX
      ensures Valid() && buffer == block && offset == 0 && depth == 0
      ensures this.noalloc == noalloc && this.format == format
    {
      buffer := block;
      offset := 0;
      depth := 0;
      this.noalloc := noalloc;
      this.format := format;
    }

    ghost predicate Valid()
      reads this
    {
      buffer.Length <= INT_MAX && (offset < buffer.Length || (offset == 0 && buffer.Length == 0))
    }

    /** How large the block can get. */
    ghost function Capacity(): nat
      reads this
    {
      if noalloc then buffer.Length else INT_MAX
    }

    /** The block is the old one or, unless it may not be, a newly allocated one. */
    twostate predicate Grown()
      reads this
    {
      && Valid()
      && Capacity() == old(Capacity())
      && (buffer == old(buffer) || (!noalloc && fresh(buffer)))
    }

    /** All of the text lies before the offset. */
    ghost predicate Has(text: seq<byte>)
      reads this, buffer
    {
      Valid() && offset == |text| && buffer[..offset] == text
    }

    /** The text is in the block and ends with a NUL; the offset may lag behind. */
    ghost predicate Holds(text: seq<byte>)
      reads this, buffer
    {
      && Valid()
      && offset <= |text| < buffer.Length
      && buffer[..|text|] == text
      && buffer[|text|] == 0
    }

    /** ensure: room for `needed` bytes and one more behind the offset. */
    method Ensure(needed: nat) returns (ok: bool)
      requires Valid()
      modifies `buffer
      ensures Grown()
      ensures buffer[..offset] == old(buffer[..offset])
      ensures ok == (offset + needed + 1 <= Capacity())
      ensures ok ==> offset + needed + 1 <= buffer.Length
    {
      if buffer.Length > 0 && offset >= buffer.Length {
        return false;
      }
      if needed > INT_MAX {
        return false;
      }
      var total := needed + offset + 1;
      if total <= buffer.Length {
        return true;
      }
      if noalloc {
        return false;
      }
      var newsize;
      if total > INT_MAX / 2 {
        if total <= INT_MAX {
          newsize := INT_MAX;
        } else {
          return false;
        }
      } else {
        newsize := total * 2;
      }
      var newbuffer := new byte[newsize];
      var oldbuffer := buffer;
      var i: nat := 0;
      while i < oldbuffer.Length    // realloc keeps the old bytes
        invariant i <= oldbuffer.Length && buffer == oldbuffer
        invariant newbuffer[..i] == oldbuffer[..i]
        invariant oldbuffer[..offset] == old(buffer[..offset])
      {
        newbuffer[i] := oldbuffer[i];
        i := i + 1;
      }
      assert newbuffer[..offset] == newbuffer[..i][..offset];
      buffer := newbuffer;
      return true;
    }

    /** Stores to consecutive bytes. */
    method Put(at: nat, text: seq<byte>)
      requires at + |text| <= buffer.Length
      modifies buffer
      ensures buffer[..at] == old(buffer[..at]) && buffer[at..at + |text|] == text
    {
      var i: nat := 0;
      while i < |text|
        invariant i <= |text|
        invariant buffer[..at] == old(buffer[..at])
        invariant buffer[at..at + i] == text[..i]
      {
        buffer[at + i] := text[i];
        i := i + 1;
      }
    }

    /** Ensure room, store the text, step over it. */
    method Append(text: seq<byte>, needed: nat, ghost before: seq<byte>) returns (ok: bool)
      requires Has(before) && |text| <= needed
      modifies this, buffer
      ensures Grown() && depth == old(depth)
      ensures ok == (|before| + needed + 1 <= Capacity())
      ensures ok ==> Has(before + text)
    {
      ok := Ensure(needed);
      if ok {
        Put(offset, text);
        assert buffer[..offset + |text|] == before + text;
        offset := offset + |text|;
      }
    }

    /** Ensure room, store the text and its NUL, leave the offset where it is. */
    method AppendPending(text: seq<byte>, needed: nat, ghost before: seq<byte>) returns (ok: bool)
      requires Has(before) && |text| + 1 == needed
      modifies this, buffer
      ensures Grown() && depth == old(depth)
      ensures ok == (|before| + needed + 1 <= Capacity())
      ensures ok ==> Holds(before + text) && offset == old(offset)
    {
      ok := Ensure(needed);
      if ok {
        Put(offset, text + [0]);
        assert buffer[offset..offset + |text|] == buffer[offset..offset + |text| + 1][..|text|] == text;
        assert buffer[..offset + |text|] == before + text;
        assert buffer[offset + |text|] == buffer[offset..offset + |text| + 1][|text|];
      }
    }

    /** update_offset: strlen from the offset on. */
    method UpdateOffset(ghost before: seq<byte>, ghost text: seq<byte>)
      requires Holds(before + text) && |before| <= offset && 0 !in text
      modifies `offset
      ensures Has(before + text)
    {
      ghost var all := before + text;
      assert forall k :: offset <= k < |all| ==> all[k] == text[k - |before|];
      var length: nat := 0;
      while buffer[offset + length] != 0
        invariant offset + length <= |all|
        decreases |all| - length
      {
        assert offset + length != |all|;
        length := length + 1;
      }
      offset := offset + length;
    }

    /** print_value: the text of the item, its NUL behind it; the offset may lag. */
    method PrintValue(v: Value, ghost before: seq<byte>) returns (ok: bool)
      requires Has(before)
      modifies this, buffer
      ensures Grown()
      ensures ok <==> Nested(v, old(depth)) && |before| + |Print(v, format, old(depth))| + 2 <= Capacity()
      ensures ok ==> Holds(before + Print(v, format, old(depth))) && depth == old(depth) && |before| <= offset
      decreases v, 2
    {
      match v
      case Null => ok := AppendPending(NULL_TEXT, 5, before);
      case False => ok := AppendPending(FALSE_TEXT, 6, before);
      case True => ok := AppendPending(TRUE_TEXT, 5, before);
      case Num(n) =>
        var valueint := Clamp(n);
        var digits := if n == valueint then Decimal(valueint) else Decimal(n);    // "%d", or else "%1.15g"
        ok := AppendPending(digits, |digits| + 1, before);
      case Infinite(_) => ok := AppendPending(NULL_TEXT, 5, before);
      case Str(text) => ok := PrintString(text, before);
      case Arr(items) => ok := PrintArray(items, before);
      case Obj(members) => ok := PrintObject(members, before);
    }

    /** One turn of the escaping loop; sprintf writes the \u form. */
    method PutEscape(at: nat, c: byte) returns (next: nat)
      requires at + |Escape(c)| <= buffer.Length
      modifies buffer
      ensures next == at + |Escape(c)|
      ensures buffer[..at] == old(buffer[..at]) && buffer[at..next] == Escape(c)
    {
      next := at;
      if c > 31 && c != QUOTE && c != BACKSLASH {
        buffer[next] := c;
      } else {
        buffer[next] := BACKSLASH;
        next := next + 1;
        match c {
          case 92 => buffer[next] := BACKSLASH;
          case 34 => buffer[next] := QUOTE;
          case 8 => buffer[next] := 98;
          case 12 => buffer[next] := 102;
          case 10 => buffer[next] := 110;
          case 13 => buffer[next] := 114;
          case 9 => buffer[next] := 116;
          case _ =>
            PutUnicode(next, c);
            next := next + 4;
        }
      }
      next := next + 1;
    }

    /** sprintf of "u%04x" for a control character, behind the backslash. */
    method PutUnicode(at: nat, c: byte)
      requires c < 32 && 0 < at && at + 5 <= buffer.Length && buffer[at - 1] == BACKSLASH
      modifies buffer
      ensures buffer[..at - 1] == old(buffer[..at - 1])
      ensures buffer[at - 1..at + 5] == [BACKSLASH, 117, 48, 48, HexDigit(c / 16), HexDigit(c % 16)]
    {
      var text := [117, 48, 48, HexDigit(c / 16), HexDigit(c % 16)];
      Put(at, text);
      assert buffer[at - 1] == buffer[..at][at - 1] == BACKSLASH;
      assert buffer[..at - 1] == buffer[..at][..at - 1];
      assert buffer[at - 1..at + 5] == [BACKSLASH] + buffer[at..at + 5];
    }

    /** The escaping loop of print_string_ptr. */
    method PutEscaped(at: nat, input: CString)
      requires at + |Escaped(input)| <= buffer.Length
      modifies buffer
      ensures buffer[..at] == old(buffer[..at]) && buffer[at..at + |Escaped(input)|] == Escaped(input)
    {
      hide Escape;
      var inputPointer: nat, outputPointer: nat := 0, at;
      while inputPointer < |input|
        invariant inputPointer <= |input|
        invariant outputPointer == at + |Escaped(input[..inputPointer])|
        invariant outputPointer + |Escaped(input[inputPointer..])| == at + |Escaped(input)|
        invariant buffer[..at] == old(buffer[..at])
        invariant buffer[at..outputPointer] == Escaped(input[..inputPointer])
      {
        EscapedSnoc(input, inputPointer);
        assert input[inputPointer..][1..] == input[inputPointer + 1..];
        ghost var written := buffer[..outputPointer];
        assert written[..at] == buffer[..at] && written[at..] == buffer[at..outputPointer];
        var next := PutEscape(outputPointer, input[inputPointer]);
        assert buffer[..at] == buffer[..outputPointer][..at];
        assert buffer[at..next] == buffer[..outputPointer][at..] + buffer[outputPointer..next];
        outputPointer := next;
        inputPointer := inputPointer + 1;
      }
      assert input[..|input|] == input;
    }

    /** The closing quote and the NUL. */
    method PutClosing(at: nat, ghost before: seq<byte>)
      requires at + 2 <= buffer.Length && buffer[..at] == before
      modifies buffer
      ensures buffer[..at + 1] == before + [QUOTE] && buffer[at + 1] == 0
    {
      buffer[at] := QUOTE;
      buffer[at + 1] := 0;
    }

    /** The opening quote, the characters, the closing quote and the NUL. */
    method PutQuoted(input: CString, escapeCharacters: nat, ghost before: seq<byte>)
      requires Has(before) && offset + |input| + escapeCharacters + 3 <= buffer.Length
      requires |input| + escapeCharacters == |Escaped(input)|
      requires escapeCharacters == 0 ==> Escaped(input) == input
      modifies buffer
      ensures Holds(before + Quoted(input))
    {
      hide Escaped;
      hide Quoted;
      var outputLength := |input| + escapeCharacters;
      ghost var text := Escaped(input);
      buffer[offset] := QUOTE;
      assert buffer[..offset + 1] == before + [QUOTE];
      if escapeCharacters == 0 {
        Put(offset + 1, input);
      } else {
        PutEscaped(offset + 1, input);
      }
      Joins(buffer[..], offset + 1, before + [QUOTE], text);
      PutClosing(offset + outputLength + 1, before + [QUOTE] + text);
      QuotedParts(before, input);
    }

    /** print_string_ptr: count the characters escaping adds, then copy or escape. */
    method PrintString(input: CString, ghost before: seq<byte>) returns (ok: bool)
      requires Has(before)
      modifies this, buffer
      ensures Grown()
      ensures depth == old(depth) && |before| <= offset
      ensures ok <==> |before| + |Quoted(input)| + 2 <= Capacity()
      ensures ok ==> Holds(before + Quoted(input))
    {
      var escapeCharacters := CountEscapes(input);
      ok := Ensure(|input| + escapeCharacters + 3);
      if ok {
        PutQuoted(input, escapeCharacters, before);
      }
    }

    /** One turn of the array loop: the item, the measured offset, the separator. */
    method PrintItem(items: seq<Value>, i: nat, ghost before: seq<byte>) returns (ok: bool)
      requires Has(before) && i < |items|
      modifies this, buffer
      ensures Grown()
      ensures var text := Print(items[i], format, old(depth)) + ItemSeparator(format, i + 1 == |items|);
              && (ok <==> Nested(items[i], old(depth)) && |before| + |text| + 2 <= Capacity())
              && (ok ==> Has(before + text) && depth == old(depth))
      decreases items[i], 3
    {
      ghost var text := Print(items[i], format, depth);
      ok := PrintValue(items[i], before);
      if !ok {
        return;
      }
      PrintHasNoNul(items[i], format, depth);
      UpdateOffset(before, text);
      ghost var separator := ItemSeparator(format, i + 1 == |items|);
      if i + 1 < |items| {
        if format {
          ok := Append([COMMA, SPACE], 3, before + text);
        } else {
          ok := Append([COMMA], 2, before + text);
        }
      }
      assert before + (text + separator) == before + text + separator;
    }

    /** print_array. */
    method PrintArray(items: seq<Value>, ghost before: seq<byte>) returns (ok: bool)
      requires Has(before)
      modifies this, buffer
      ensures Grown()
      ensures ok <==> Nested(Arr(items), old(depth))
                      && |before| + |Print(Arr(items), format, old(depth))| + 2 <= Capacity()
      ensures ok ==> Holds(before + Print(Arr(items), format, old(depth))) && depth == old(depth) && |before| <= offset
      decreases items, 1
    {
      hide PrintItems;
      hide ItemSeparator;
      if depth >= NESTING_LIMIT {
        return false;
      }
      ghost var all := Print(Arr(items), format, depth);
      ok := Append([LBRACKET], 1, before);
      if !ok {
        return;
      }
      depth := depth + 1;
      ghost var done := before + [LBRACKET];
      var i: nat := 0;
      assert items[0..] == items;
      while i < |items|
        invariant i <= |items| && depth == old(depth) + 1 && |before| <= |done|
        invariant Has(done) && Grown()
        invariant forall j :: 0 <= j < i ==> Nested(items[j], depth)
        invariant before + all == done + (PrintItems(items[i..], format, depth) + [RBRACKET])
      {
        ItemsStep(items, i, format, depth, done);
        ghost var item := Print(items[i], format, depth) + ItemSeparator(format, i + 1 == |items|);
        ok := PrintItem(items, i, done);
        if !ok {
          return;
        }
        done := done + item;
        i := i + 1;
      }
      NothingLeft(format, depth);
      assert items[i..] == [];
      assert [] + [RBRACKET] == [RBRACKET];
      ok := AppendPending([RBRACKET], 2, done);
      depth := depth - 1;
    }

    /** The indentation, the name and the colon of a member. */
    method PrintHead(name: CString, ghost before: seq<byte>) returns (ok: bool)
      requires Has(before)
      modifies this, buffer
      ensures Grown()
      ensures depth == old(depth)
      ensures ok ==> Has(before + MemberHead(name, format, depth))
      ensures !ok ==> |before| + |MemberHead(name, format, depth)| + 1 > Capacity()
    {
      hide Quoted;
      hide Escaped;
      ghost var start := before + Indent(format, depth);
      if format {
        ok := Append(Tabs(depth), depth, before);
        if !ok {
          return;
        }
      }
      assert Has(start);
      ok := PrintString(name, start);
      if !ok {
        return;
      }
      QuotedHasNoNul(name);
      UpdateOffset(start, Quoted(name));
      if format {
        ok := Append([COLON, TAB], 2, start + Quoted(name));
      } else {
        ok := Append([COLON], 1, start + Quoted(name));
      }
      assert before + MemberHead(name, format, depth) == start + Quoted(name) + Colon(format);
    }

    /** One turn of the object loop. */
    method PrintMember(members: seq<Member>, i: nat, ghost before: seq<byte>) returns (ok: bool)
      requires Has(before) && i < |members|
      modifies this, buffer
      ensures Grown()
      ensures var text := MemberHead(members[i].name, format, old(depth))
                          + Print(members[i].value, format, old(depth)) + MemberEnd(format, i + 1 == |members|);
              && (ok <==> Nested(members[i].value, old(depth)) && |before| + |text| + 2 <= Capacity())
              && (ok ==> Has(before + text) && depth == old(depth))
      decreases members[i], 3
    {
      hide Print;
      hide MemberHead;
      hide MemberEnd;
      hide Nested;
      ghost var head := MemberHead(members[i].name, format, depth);
      ghost var text := Print(members[i].value, format, depth);
      ok := PrintHead(members[i].name, before);
      if !ok {
        return;
      }
      ok := PrintValue(members[i].value, before + head);
      if !ok {
        return;
      }
      PrintHasNoNul(members[i].value, format, depth);
      UpdateOffset(before + head, text);
      var end := MemberEnd(format, i + 1 == |members|);
      ok := Append(end, |end| + 1, before + head + text);
      assert before + (head + text + end) == before + head + text + end;
    }

    /** The opening brace, with its line feed when formatting. */
    method OpenObject(ghost before: seq<byte>) returns (ok: bool)
      requires Has(before)
      modifies this, buffer
      ensures Grown() && depth == old(depth)
      ensures ok == (|before| + |Open(format)| + 2 <= Capacity())
      ensures ok ==> Has(before + Open(format))
    {
      if format {
        ok := Append([LBRACE, LF], 3, before);
      } else {
        ok := Append([LBRACE], 2, before);
      }
    }

    /** The closing brace behind its indentation. */
    method CloseObject(ghost before: seq<byte>) returns (ok: bool)
      requires Has(before) && depth > 0
      modifies this, buffer
      ensures Grown() && depth == old(depth)
      ensures ok == (|before| + |Close(format, depth - 1)| + 2 <= Capacity())
      ensures ok ==> Holds(before + Close(format, depth - 1)) && offset == old(offset)
    {
      if format {
        ok := AppendPending(Tabs(depth - 1) + [RBRACE], depth + 1, before);
      } else {
        ok := AppendPending([RBRACE], 2, before);
      }
    }

    /** print_object. */
    method PrintObject(members: seq<Member>, ghost before: seq<byte>) returns (ok: bool)
      requires Has(before)
      modifies this, buffer
      ensures Grown()
      ensures ok <==> Nested(Obj(members), old(depth))
                      && |before| + |Print(Obj(members), format, old(depth))| + 2 <= Capacity()
      ensures ok ==> Holds(before + Print(Obj(members), format, old(depth))) && depth == old(depth) && |before| <= offset
      decreases members, 1
    {
      hide PrintMembers;
      hide MemberHead;
      hide MemberEnd;
      hide Print;
      hide Close;
      hide Open;
      if depth >= NESTING_LIMIT {
        return false;
      }
      ghost var all := Print(Obj(members), format, depth);
      ghost var close := Close(format, depth);
      ObjectText(members, format, depth, before);
      ok := OpenObject(before);
      if !ok {
        return;
      }
      depth := depth + 1;
      ghost var done := before + Open(format);
      var i: nat := 0;
      assert members[0..] == members;
      while i < |members|
        invariant i <= |members| && depth == old(depth) + 1 && |before| <= |done|
        invariant Has(done) && Grown()
        invariant forall j :: 0 <= j < i ==> Nested(members[j].value, depth)
        invariant before + all == done + (PrintMembers(members[i..], format, depth) + close)
      {
        MembersStep(members, i, format, depth, done, close);
        ghost var text := MemberHead(members[i].name, format, depth)
                          + Print(members[i].value, format, depth) + MemberEnd(format, i + 1 == |members|);
        ok := PrintMember(members, i, done);
        if !ok {
          return;
        }
        done := done + text;
        i := i + 1;
      }
      NothingLeft(format, depth);
      assert members[i..] == [];
      assert [] + close == close;
      ok := CloseObject(done);
      depth := depth - 1;
    }
  }

  /** One member of the text still to be printed. */
  lemma MembersStep(members: seq<Member>, i: nat, format: bool, depth: nat, done: seq<byte>, close: seq<byte>)
    requires i < |members| && close != []
    ensures var text := MemberHead(members[i].name, format, depth)
                        + Print(members[i].value, format, depth) + MemberEnd(format, i + 1 == |members|);
            var rest := PrintMembers(members[i + 1..], format, depth) + close;
            done + (PrintMembers(members[i..], format, depth) + close) == done + text + rest
  {
    hide Print;
    hide MemberHead;
    hide MemberEnd;
    assert members[i..][1..] == members[i + 1..];
    var text := MemberHead(members[i].name, format, depth)
                + Print(members[i].value, format, depth) + MemberEnd(format, i + 1 == |members|);
    var rest := PrintMembers(members[i + 1..], format, depth);
    assert PrintMembers(members[i..], format, depth) == text + rest;
    assert done + (text + rest + close) == done + text + (rest + close);
  }

  lemma ObjectText(members: seq<Member>, format: bool, depth: nat, before: seq<byte>)
    ensures before + Print(Obj(members), format, depth)
            == before + Open(format) + (PrintMembers(members, format, depth + 1) + Close(format, depth))
    ensures Close(format, depth) != []
  {
    var open, body, close := Open(format), PrintMembers(members, format, depth + 1), Close(format, depth);
    assert before + (open + body + close) == before + open + (body + close);
  }

  lemma NothingLeft(format: bool, depth: nat)
    ensures PrintItems([], format, depth) == [] && PrintMembers([], format, depth) == []
  {
  }

  /** One item of the text still to be printed. */
  lemma ItemsStep(items: seq<Value>, i: nat, format: bool, depth: nat, done: seq<byte>)
    requires i < |items|
    ensures var item := Print(items[i], format, depth) + ItemSeparator(format, i + 1 == |items|);
            var rest := PrintItems(items[i + 1..], format, depth) + [RBRACKET];
            done + (PrintItems(items[i..], format, depth) + [RBRACKET]) == done + item + rest
  {
    assert items[i..][1..] == items[i + 1..];
    var item := Print(items[i], format, depth) + ItemSeparator(format, i + 1 == |items|);
    var rest := PrintItems(items[i + 1..], format, depth);
    assert PrintItems(items[i..], format, depth) == item + rest;
    assert done + (item + rest + [RBRACKET]) == done + item + (rest + [RBRACKET]);
  }

  lemma QuotedParts(before: seq<byte>, text: CString)
    ensures before + [QUOTE] + Escaped(text) + [QUOTE] == before + Quoted(text)
  {
  }

  lemma Joins(block: seq<byte>, at: nat, before: seq<byte>, text: seq<byte>)
    requires at + |text| <= |block| && block[..at] == before && block[at..at + |text|] == text
    ensures block[..at + |text|] == before + text
  {
  }

  /** The counting loop: how many bytes escaping adds. */
  method CountEscapes(input: CString) returns (escapeCharacters: nat)
    ensures |input| + escapeCharacters == |Escaped(input)|
    ensures escapeCharacters == 0 ==> Escaped(input) == input
  {
    escapeCharacters := 0;
    var inputPointer: nat := 0;
    while inputPointer < |input|
      invariant inputPointer <= |input|
      invariant inputPointer + escapeCharacters == |Escaped(input[..inputPointer])|
      invariant escapeCharacters == 0 ==> Escaped(input[..inputPointer]) == input[..inputPointer]
    {
      EscapedSnoc(input, inputPointer);
      var c := input[inputPointer];
      match c {
        case 34 => escapeCharacters := escapeCharacters + 1;
        case 92 => escapeCharacters := escapeCharacters + 1;
        case 8 => escapeCharacters := escapeCharacters + 1;
        case 12 => escapeCharacters := escapeCharacters + 1;
        case 10 => escapeCharacters := escapeCharacters + 1;
        case 13 => escapeCharacters := escapeCharacters + 1;
        case 9 => escapeCharacters := escapeCharacters + 1;
        case _ =>
          if c < 32 {
            escapeCharacters := escapeCharacters + 5;
          }
      }
      inputPointer := inputPointer + 1;
    }
    assert input[..|input|] == input;
  }

  lemma TailOfPrefix(text: seq<byte>, n: nat)
    requires 0 < n <= |text|
    ensures text[..n][1..] == text[1..][..n - 1]
  {
  }

  lemma {:induction false} EscapedSnoc(text: seq<byte>, n: nat)
    requires n < |text|
    ensures Escaped(text[..n + 1]) == Escaped(text[..n]) + Escape(text[n])
    decreases n
  {
    if n == 0 {
      assert text[..1] == [text[0]];
    } else {
      EscapedSnoc(text[1..], n - 1);
      TailOfPrefix(text, n + 1);
      TailOfPrefix(text, n);
      hide Escape;
    }
  }

  /** print, with the default block: every item within the nesting limit prints, up to the
      largest block, and what is returned is its text. */
  method PrintNew(v: Value, format: bool) returns (text: seq<byte>, ok: bool)
    ensures ok <==> Nested(v, 0) && |Print(v, format, 0)| + 2 <= 0x7FFF_FFFF
    ensures ok ==> text == Print(v, format, 0)
  {
    text := [];
    var block := new byte[DEFAULT_BUFFER_SIZE];
    var p := new PrintBuffer(block, false, format);
    assert p.Has([]);
    ok := p.PrintValue(v, []);
    if ok {
      PrintHasNoNul(v, format, 0);
      p.UpdateOffset([], Print(v, format, 0));
      assert [] + Print(v, format, 0) == Print(v, format, 0);
      text := p.buffer[..p.offset];
    }
  }

  /** cJSON_PrintPreallocated: it succeeds exactly when the block has two bytes more than the
      text, one for the NUL and one that `ensure` adds of its own. */
  method PrintPreallocated(v: Value, block: array<byte>, format: bool) returns (ok: bool)
    requires block.Length <= INT_MAX
    modifies block
    ensures ok <==> Nested(v, 0) && |Print(v, format, 0)| + 2 <= block.Length
    ensures var text := Print(v, format, 0);
            ok ==> block[..|text|] == text && block[|text|] == 0
  {
    var p := new PrintBuffer(block, true, format);
    assert p.Has([]);
    ok := p.PrintValue(v, []);
    assert [] + Print(v, format, 0) == Print(v, format, 0);
  }
}
