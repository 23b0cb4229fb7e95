/**
 The two scans of parse_string in src/giga_spi_8adc/cJSON.c: the first finds the closing
 quote stepping over escapes two bytes at a time, the second reads a \u literal six bytes
 at a time whether its digits are digits or not.  When the second ends at the quote the
 first found, and when past it.
 */
module JsonScans {
  import opened Common
  import opened JsonText
  import JsonParser

  /** Where the second scan, standing at i, stops; -1 if it fails. */
  function StopOf(s: seq<byte>, i: nat, end: nat): int
    requires end < |s|
    decreases end - i
  {
    if i >= end then i
    else
      var p := ReadPiece(s, i, end);
      if p.BadPiece? then -1 else StopOf(s, i + p.length, end)
  }

  /** It stops at the quote or one byte past it, and fails exactly when the string is refused. */
  lemma {:induction false} StopsNear(s: seq<byte>, start: nat, i: nat, end: nat)
    requires start <= i <= end + 1 && end < |s|
    ensures var stop := StopOf(s, i, end); stop == -1 || stop == end || stop == end + 1
    ensures StopOf(s, i, end) >= 0 <==> Unescape(s, i, end).Bytes?
    decreases end - i
  {
    if i < end {
      JsonParser.PieceFits(s, start, i, end);
      var p := ReadPiece(s, i, end);
      if p.Piece? {
        StopsNear(s, start, i + p.length, end);
      }
    }
  }

  /** Where the backslashes right before `end` begin. */
  function RunStart(s: seq<byte>, start: nat, end: nat): (r: nat)
    requires start <= end <= |s|
    ensures start <= r <= end
    ensures forall k :: r <= k < end ==> s[k] == BACKSLASH
    ensures r == start || s[r - 1] != BACKSLASH
    decreases end
  {
    if end > start && s[end - 1] == BACKSLASH then RunStart(s, start, end - 1) else end
  }

  /** The first scan crosses that run two by two, so it is even. */
  lemma {:induction false} RunIsEven(s: seq<byte>, start: nat, p: nat, skipped: nat)
    requires start <= p <= |s| && ScanString(s, p, skipped).Scan?
    ensures var end := ScanString(s, p, skipped).end;
            var r := RunStart(s, start, end);
            (end - (if p < r then r else p)) % 2 == 0
    decreases |s| - p
  {
    var end := ScanString(s, p, skipped).end;
    var r := RunStart(s, start, end);
    if p < end {
      if s[p] != BACKSLASH {
        RunIsEven(s, start, p + 1, skipped);
      } else {
        RunIsEven(s, start, p + 2, skipped + 1);
      }
    }
  }

  predicate IsLiteral(s: seq<byte>, i: nat)
    requires i + 1 < |s|
  {
    s[i] == BACKSLASH && s[i + 1] == 117
  }

  /** The second scan, standing at i, reads a \u literal that ends at an odd offset inside the
      run of backslashes that starts at r. */
  predicate LiteralEndsOdd(s: seq<byte>, i: nat, end: nat, r: nat)
    requires end < |s|
    decreases end - i
  {
    i < end
    && var p := ReadPiece(s, i, end);
       p.Piece?
       && var next := i + p.length;
          || (IsLiteral(s, i) && r < next <= end && (next - r) % 2 == 1)
          || LiteralEndsOdd(s, next, end, r)
  }

  /** Inside the run, out of step: the backslash before the quote is taken for an escape. */
  lemma {:induction false} OddGoesPast(s: seq<byte>, i: nat, end: nat, r: nat)
    requires r < i <= end < |s| && s[end] == QUOTE && (forall k :: r <= k < end ==> s[k] == BACKSLASH)
    requires (end - r) % 2 == 0 && (i - r) % 2 == 1
    ensures StopOf(s, i, end) == end + 1
    decreases end - i
  {
    assert ReadPiece(s, i, end).Piece? && ReadPiece(s, i, end).length == 2;
    if i + 1 < end {
      OddGoesPast(s, i + 2, end, r);
    }
  }

  lemma {:induction false} PastExactly(s: seq<byte>, start: nat, i: nat, end: nat, r: nat)
    requires start <= r <= end < |s| && s[end] == QUOTE && (forall k :: r <= k < end ==> s[k] == BACKSLASH)
    requires (r == start || s[r - 1] != BACKSLASH) && (end - r) % 2 == 0
    requires start <= i <= end && (i <= r || (i - r) % 2 == 0) && StopOf(s, i, end) >= 0
    ensures StopOf(s, i, end) == end + 1 <==> LiteralEndsOdd(s, i, end, r)
    decreases end - i
  {
    if i < end {
      var p := ReadPiece(s, i, end);
      var next := i + p.length;
      LiteralStaysInside(s, i, end);
      if r < next && (next - r) % 2 == 1 {
        OddGoesPast(s, next, end, r);
      } else {
        PastExactly(s, start, next, end, r);
      }
    }
  }

  /** What a piece takes: one byte, two, or six or twelve that end before the quote. */
  lemma LiteralStaysInside(s: seq<byte>, i: nat, end: nat)
    requires i < end < |s|
    ensures var p := ReadPiece(s, i, end);
            p.Piece? ==>
              && (s[i] != BACKSLASH <==> p.length == 1)
              && (s[i] == BACKSLASH && s[i + 1] != 117 ==> p.length == 2)
              && (IsLiteral(s, i) ==> i + p.length <= end)
  {
  }

  /** The exact condition: on a string both scans accept, the second ends past the quote if and
      only if a \u literal it reads ends at an odd offset inside the backslashes before it. */
  lemma ScansDisagreeExactly(s: seq<byte>, at: nat)
    requires at < |s| && ScanString(s, at + 1, 0).Scan?
    requires Unescape(s, at + 1, ScanString(s, at + 1, 0).end).Bytes?
    ensures var end := ScanString(s, at + 1, 0).end;
            && (StopOf(s, at + 1, end) == end || StopOf(s, at + 1, end) == end + 1)
            && (StopOf(s, at + 1, end) == end + 1
                <==> LiteralEndsOdd(s, at + 1, end, RunStart(s, at + 1, end)))
  {
    var end := ScanString(s, at + 1, 0).end;
    StopsNear(s, at + 1, at + 1, end);
    RunIsEven(s, at + 1, at + 1, 0);
    PastExactly(s, at + 1, at + 1, end, RunStart(s, at + 1, end));
  }

  /** Every \u before the quote is followed by four hexadecimal digits. */
  ghost predicate HexThroughout(s: seq<byte>, start: nat, end: nat)
    requires end < |s|
  {
    forall j :: start <= j < end && IsLiteral(s, j) ==>
      j + 6 <= end && forall k :: j + 2 <= k < j + 6 ==> HexValue(s[k]).Nibble?
  }

  lemma {:induction false} HexEndsEven(s: seq<byte>, start: nat, i: nat, end: nat)
    requires start <= i && end < |s| && start <= end && HexThroughout(s, start, end)
    ensures !LiteralEndsOdd(s, i, end, RunStart(s, start, end))
    decreases end - i
  {
    if i < end {
      var p := ReadPiece(s, i, end);
      if p.Piece? {
        if IsLiteral(s, i) {
          LastByteIsHex(s, start, i, end);
        }
        HexEndsEven(s, start, i + p.length, end);
      }
    }
  }

  /** The literal's last byte is a digit, so it is not one of the backslashes. */
  lemma LastByteIsHex(s: seq<byte>, start: nat, i: nat, end: nat)
    requires start <= i < end < |s| && HexThroughout(s, start, end) && IsLiteral(s, i)
    requires ReadPiece(s, i, end).Piece?
    ensures var next := i + ReadPiece(s, i, end).length;
            next <= end && HexValue(s[next - 1]).Nibble? && s[next - 1] != BACKSLASH
            && next <= RunStart(s, start, end)
  {
    var next := i + ReadPiece(s, i, end).length;
    if next == i + 12 {
      assert IsLiteral(s, i + 6);
    }
    assert HexValue(s[next - 1]).Nibble?;
  }

  /** Which a caller can rule out beforehand: with hexadecimal digits behind every \u, the second
      scan ends at the quote the first one found. */
  lemma HexKeepsScansTogether(s: seq<byte>, at: nat)
    requires at < |s| && ScanString(s, at + 1, 0).Scan?
    requires Unescape(s, at + 1, ScanString(s, at + 1, 0).end).Bytes?
    requires HexThroughout(s, at + 1, ScanString(s, at + 1, 0).end)
    ensures StopOf(s, at + 1, ScanString(s, at + 1, 0).end) == ScanString(s, at + 1, 0).end
  {
    var end := ScanString(s, at + 1, 0).end;
    ScansDisagreeExactly(s, at);
    HexEndsEven(s, at + 1, at + 1, end);
  }
}
