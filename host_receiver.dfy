/**
 * The host side of the dump protocol (host_receiver.py): the 7-byte page
 * header and its ERR marker, the page-length bounds, the line splitting of
 * wait_for_line, the "BLK=" progress lines, and the capture loop that
 * writes each accepted page to the output file.
 *
 * Python's text handling is modelled on the only strings it meets here:
 * bytes decoded as ASCII with U+FFFD replacing every byte above 0x7F, so
 * `str.strip()` and the whitespace `int()` skips need only the ASCII
 * whitespace characters.
 */
module HostReceiver {
  import opened Common
  import opened NandDump
  import DescriptorStrings
  import NandGeometry

  // ---------------------------------------------------------------------
  // Text
  // ---------------------------------------------------------------------

  const Newline: Byte := 0x0A
  const ReplacementChar: char := 0xFFFD as char

  /** `bytes.decode("ascii", errors="replace")`. */
  function Decode(bs: seq<Byte>): (s: string)
    ensures |s| == |bs|
  {
    seq(|bs|, i requires 0 <= i < |bs| => if bs[i] < 0x80 then bs[i] as char else ReplacementChar)
  }

  /** Decoding what the firmware's `uart_send_str` sent gives the text back. */
  lemma DecodeAsciiBytes(s: string)
    requires IsAscii(s)
    ensures Decode(AsciiBytes(s)) == s
  {
  }

  /** `str.isspace()` on a character of ASCII-decoded text: 0x09-0x0D, 0x1C-0x1F and the space. */
  predicate IsSpace(c: char)
  {
    c == ' ' || 0x09 <= c as int <= 0x0D || 0x1C <= c as int <= 0x1F
  }

  /** `s` without its leading whitespace. */
  function StripLeading(s: string): (t: string)
    ensures |t| <= |s| && t == s[|s| - |t|..]
    ensures t == [] || !IsSpace(t[0])
  {
    if s != [] && IsSpace(s[0]) then StripLeading(s[1..]) else s
  }

  /** `s` without its trailing whitespace. */
  function StripTrailing(s: string): (t: string)
    ensures |t| <= |s| && t == s[..|t|]
    ensures t == [] || !IsSpace(t[|t| - 1])
  {
    if s != [] && IsSpace(s[|s| - 1]) then StripTrailing(s[..|s| - 1]) else s
  }

  /** The number of whitespace characters `str.strip()` removes from the front. */
  function LeadingSpaces(s: string): nat
  {
    |s| - |StripLeading(s)|
  }

  /**
   * `str.strip()`: the slice of `s` left between a whitespace prefix and a
   * whitespace suffix, which neither starts nor ends with whitespace.
   */
  function Strip(s: string): (t: string)
    ensures LeadingSpaces(s) + |t| <= |s| && t == s[LeadingSpaces(s)..LeadingSpaces(s) + |t|]
    ensures t == [] || (!IsSpace(t[0]) && !IsSpace(t[|t| - 1]))
  {
    StripTrailing(StripLeading(s))
  }

  /** What StripLeading removes is whitespace. */
  lemma {:induction false} StripLeadingRemovesSpace(s: string)
    ensures forall k :: 0 <= k < |s| - |StripLeading(s)| ==> IsSpace(s[k])
  {
    if s != [] && IsSpace(s[0]) {
      StripLeadingRemovesSpace(s[1..]);
    }
  }

  /** What StripTrailing removes is whitespace. */
  lemma {:induction false} StripTrailingRemovesSpace(s: string)
    ensures forall k :: |StripTrailing(s)| <= k < |s| ==> IsSpace(s[k])
  {
    if s != [] && IsSpace(s[|s| - 1]) {
      StripTrailingRemovesSpace(s[..|s| - 1]);
    }
  }

  /** What Strip removes from either end is whitespace. */
  lemma StripRemovesSpace(s: string)
    ensures forall k :: 0 <= k < LeadingSpaces(s) ==> IsSpace(s[k])
    ensures forall k :: LeadingSpaces(s) + |Strip(s)| <= k < |s| ==> IsSpace(s[k])
  {
    var u := StripLeading(s);
    StripLeadingRemovesSpace(s);
    StripTrailingRemovesSpace(u);
    assert forall k :: LeadingSpaces(s) + |Strip(s)| <= k < |s| ==> s[k] == u[k - LeadingSpaces(s)];
  }

  /** A string that begins and ends with non-whitespace is its own strip. */
  lemma StripKeeps(s: string)
    requires s != [] && !IsSpace(s[0]) && !IsSpace(s[|s| - 1])
    ensures Strip(s) == s
  {
  }

  /** Whitespace alone strips to nothing. */
  lemma AllSpaceStrips(s: string)
    requires forall k :: 0 <= k < |s| ==> IsSpace(s[k])
    ensures Strip(s) == []
  {
  }

  /** Stripping `s` with whitespace added at either end gives the strip of `s`. */
  lemma StripPadding(pre: string, s: string, post: string)
    requires forall k :: 0 <= k < |pre| ==> IsSpace(pre[k])
    requires forall k :: 0 <= k < |post| ==> IsSpace(post[k])
    requires s != [] && !IsSpace(s[0]) && !IsSpace(s[|s| - 1])
    ensures Strip(pre + s + post) == s
  {
    assert pre + s + post == pre + (s + post);
    StripLeadingPadding(pre, s + post);
    assert (s + post)[0] == s[0];
    StripTrailingPadding(s, post);
  }

  lemma {:induction false} StripLeadingPadding(pre: string, rest: string)
    requires forall k :: 0 <= k < |pre| ==> IsSpace(pre[k])
    ensures StripLeading(pre + rest) == StripLeading(rest)
  {
    if pre != [] {
      assert (pre + rest)[1..] == pre[1..] + rest;
      StripLeadingPadding(pre[1..], rest);
    } else {
      assert pre + rest == rest;
    }
  }

  lemma {:induction false} StripTrailingPadding(s: string, post: string)
    requires forall k :: 0 <= k < |post| ==> IsSpace(post[k])
    requires s != [] && !IsSpace(s[|s| - 1])
    ensures StripTrailing(s + post) == s
  {
    if post != [] {
      assert (s + post)[..|s + post| - 1] == s + post[..|post| - 1];
      StripTrailingPadding(s, post[..|post| - 1]);
    } else {
      assert s + post == s;
    }
  }

  /** `str.startswith(prefix)`. */
  predicate StartsWith(s: string, prefix: string)
  {
    |prefix| <= |s| && s[..|prefix|] == prefix
  }

  /** `needle in text` for strings. */
  predicate Contains(text: string, needle: string)
  {
    DescriptorStrings.Find(text, needle, 0).Some?
  }

  /**
   * The position of the first `x` at or after `from`, or `|xs|` if there is
   * none (`bytes.find`/`str.find` with "not found" as the length).
   */
  function IndexOf<T(==)>(xs: seq<T>, from: nat, x: T): (k: nat)
    requires from <= |xs|
    ensures from <= k <= |xs|
    decreases |xs| - from
  {
    if from == |xs| || xs[from] == x then from else IndexOf(xs, from + 1, x)
  }

  /** IndexOf finds the first occurrence: no `x` in `from..k`, and `x` at `k` unless `k` is the end. */
  lemma {:induction false} IndexOfIsFirst<T>(xs: seq<T>, from: nat, x: T)
    requires from <= |xs|
    ensures var k := IndexOf(xs, from, x);
            (k == |xs| || xs[k] == x) && forall i :: from <= i < k ==> xs[i] != x
    decreases |xs| - from
  {
    if from < |xs| && xs[from] != x {
      IndexOfIsFirst(xs, from + 1, x);
    }
  }

  /** An `x` at `k` with none before it, from `from` on, is what IndexOf finds. */
  lemma {:induction false} IndexOfIs<T>(xs: seq<T>, from: nat, x: T, k: nat)
    requires from <= k <= |xs| && (k == |xs| || xs[k] == x)
    requires forall i :: from <= i < k ==> xs[i] != x
    ensures IndexOf(xs, from, x) == k
    decreases k - from
  {
    if from < k {
      IndexOfIs(xs, from + 1, x, k);
    }
  }

  /** `str.split(sep)`: the pieces between separators, always at least one. */
  function Split(s: string, sep: char): (parts: seq<string>)
    ensures |parts| >= 1
    decreases |s|
  {
    var k := IndexOf(s, 0, sep);
    if k == |s| then [s] else [s[..k]] + Split(s[k + 1..], sep)
  }

  /** Splitting text made of `sep`-free pieces joined by `sep` gives the pieces back. */
  lemma SplitJoined(a: string, sep: char, rest: string)
    requires forall k :: 0 <= k < |a| ==> a[k] != sep
    ensures Split(a + [sep] + rest, sep) == [a] + Split(rest, sep)
  {
    var s := a + [sep] + rest;
    IndexOfIs(s, 0, sep, |a|);
    assert s[..|a|] == a && s[|a| + 1..] == rest;
  }

  lemma SplitSingle(a: string, sep: char)
    requires forall k :: 0 <= k < |a| ==> a[k] != sep
    ensures Split(a, sep) == [a]
  {
    IndexOfIs(a, 0, sep, |a|);
  }

  // ---------------------------------------------------------------------
  // int(s, 16)
  // ---------------------------------------------------------------------

  /** The value of one hexadecimal digit, either case. */
  function HexDigitValue(c: char): Option<nat>
  {
    if '0' <= c <= '9' then Some(c as int - '0' as int)
    else if 'a' <= c <= 'f' then Some(c as int - 'a' as int + 10)
    else if 'A' <= c <= 'F' then Some(c as int - 'A' as int + 10)
    else None
  }

  predicate IsHexDigit(c: char)
  {
    HexDigitValue(c).Some?
  }

  /**
   * The digit part Python accepts: hex digits, with single underscores
   * allowed between two digits.
   */
  predicate WellFormedDigits(s: string)
    decreases |s|
  {
    |s| > 0 && IsHexDigit(s[|s| - 1]) &&
    (|s| == 1 ||
     if s[|s| - 2] == '_' then WellFormedDigits(s[..|s| - 2]) else WellFormedDigits(s[..|s| - 1]))
  }

  /** A non-empty run of hex digits is well formed. */
  lemma {:induction false} AllDigitsWellFormed(s: string)
    requires s != [] && forall i :: 0 <= i < |s| ==> IsHexDigit(s[i])
    ensures WellFormedDigits(s)
  {
    if |s| > 1 {
      HexDigitIsPlain(s[|s| - 2]);
      AllDigitsWellFormed(s[..|s| - 1]);
    }
  }

  /** The value of a digit string, underscores (and anything else not a digit) skipped. */
  function DigitsValue(s: string): nat
  {
    if s == [] then 0
    else match HexDigitValue(s[|s| - 1])
      case None => DigitsValue(s[..|s| - 1])
      case Some(d) => 16 * DigitsValue(s[..|s| - 1]) + d
  }

  /** The digits after an optional `0x`/`0X` prefix, which may be followed by one underscore. */
  function AfterPrefix(u: string): string
  {
    if |u| >= 2 && u[0] == '0' && (u[1] == 'x' || u[1] == 'X') then
      if |u| >= 3 && u[2] == '_' then u[3..] else u[2..]
    else u
  }

  /**
   * `int(s, 16)`: surrounding whitespace skipped, an optional sign, an
   * optional prefix, then the digits; `None` is the ValueError raised for
   * anything else.
   */
  function PyHexInt(s: string): Option<int>
  {
    ParseStripped(Strip(s))
  }

  /** `int(t, 16)` once the surrounding whitespace is gone. */
  function ParseStripped(t: string): Option<int>
  {
    var negative := t != [] && t[0] == '-';
    var u := if t != [] && (t[0] == '-' || t[0] == '+') then t[1..] else t;
    var digits := AfterPrefix(u);
    var value: int := DigitsValue(digits);
    if WellFormedDigits(digits) then Some(if negative then -value else value) else None
  }

  /** Adding a nibble below a bit field: `Bits(v, lo, w + 4) == 16 * Bits(v, lo + 4, w) + Bits(v, lo, 4)`. */
  lemma BitsNibble(v: nat, lo: nat, w: nat)
    ensures Bits(v, lo, w + 4) == 16 * Bits(v, lo + 4, w) + Bits(v, lo, 4)
  {
    var x := v / Pow2(lo);
    assert Pow2(4) == 16;
    Pow2Add(4, w);
    DivModSplit(x, 16, Pow2(w));
    Pow2Add(lo, 4);
    DivDiv(v, Pow2(lo), 16);
  }

  /** Each character of HexDigits is the digit of its own index. */
  lemma HexDigitsValues(d: nat)
    requires d < 16
    ensures HexDigitValue(HexDigits[d]) == Some(d)
  {
  }

  /** Digit `i` of Hex32(v) is a hex digit worth nibble `7 - i` of `v`. */
  lemma Hex32Digit(v: U32, i: nat)
    requires i < 8
    ensures HexDigitValue(Hex32(v)[i]) == Some(Bits(v, 28 - 4 * i, 4))
  {
    HexDigitsValues(Bits(v, 28 - 4 * i, 4));
  }

  /**
   * Eight digits, digit `i` worth nibble `7 - i` of `v`: the first `k` of
   * them spell the top `4k` bits of `v`.
   */
  lemma {:induction false} NibbleDigitsPrefix(s: string, v: U32, k: nat)
    requires |s| == 8 && k <= 8
    requires forall i :: 0 <= i < 8 ==> HexDigitValue(s[i]) == Some(Bits(v, 28 - 4 * i, 4))
    ensures DigitsValue(s[..k]) == Bits(v, 32 - 4 * k, 4 * k)
  {
    if k == 0 {
      assert Pow2(0) == 1;
    } else {
      var lo, w := 32 - 4 * k, 4 * (k - 1);
      assert lo + 4 == 32 - 4 * (k - 1) && 28 - 4 * (k - 1) == lo && w + 4 == 4 * k;
      var high := DigitsValue(s[..k - 1]);
      assert high == Bits(v, lo + 4, w) by {
        NibbleDigitsPrefix(s, v, k - 1);
      }
      var digit := Bits(v, lo, 4);
      assert DigitsValue(s[..k]) == 16 * high + digit by {
        assert s[..k][k - 1] == s[k - 1];
        DigitsValueLast(s[..k], digit);
        assert s[..k][..k - 1] == s[..k - 1];
      }
      BitsNibble(v, lo, w);
    }
  }

  /** A final digit worth `d` adds `d` to sixteen times the value before it. */
  lemma DigitsValueLast(s: string, d: nat)
    requires s != [] && HexDigitValue(s[|s| - 1]) == Some(d)
    ensures DigitsValue(s) == 16 * DigitsValue(s[..|s| - 1]) + d
  {
  }

  /** A hex digit is neither whitespace, a sign, a prefix letter nor an underscore. */
  lemma HexDigitIsPlain(c: char)
    requires IsHexDigit(c)
    ensures !IsSpace(c) && c != '+' && c != '-' && c != 'x' && c != 'X' && c != '_'
  {
  }

  /** A plain run of hex digits parses to its digit value. */
  lemma PyHexIntPlainDigits(s: string)
    requires s != [] && forall i :: 0 <= i < |s| ==> IsHexDigit(s[i])
    ensures PyHexInt(s) == Some(DigitsValue(s))
  {
    assert Strip(s) == s by {
      HexDigitIsPlain(s[0]);
      HexDigitIsPlain(s[|s| - 1]);
      StripKeeps(s);
    }
    ParsePlainDigits(s);
  }

  lemma ParsePlainDigits(s: string)
    requires s != [] && forall i :: 0 <= i < |s| ==> IsHexDigit(s[i])
    ensures ParseStripped(s) == Some(DigitsValue(s))
  {
    assert s[0] != '-' && s[0] != '+' by {
      HexDigitIsPlain(s[0]);
    }
    assert AfterPrefix(s) == s by {
      if |s| >= 2 {
        HexDigitIsPlain(s[1]);
      }
    }
    AllDigitsWellFormed(s);
  }

  /** The eight digits of Hex32(v) are hex digits worth `v`. */
  lemma Hex32Value(v: U32)
    ensures forall i :: 0 <= i < |Hex32(v)| ==> IsHexDigit(Hex32(v)[i])
    ensures DigitsValue(Hex32(v)) == v
  {
    var s := Hex32(v);
    forall i | 0 <= i < 8
      ensures IsHexDigit(s[i])
    {
      Hex32Digit(v, i);
    }
    forall i | 0 <= i < 8
      ensures HexDigitValue(s[i]) == Some(Bits(v, 28 - 4 * i, 4))
    {
      Hex32Digit(v, i);
    }
    NibbleDigitsPrefix(s, v, 8);
    assert s[..8] == s;
    BitsWhole32(v);
  }

  /** All 32 bits of a 32-bit value are the value. */
  lemma BitsWhole32(v: U32)
    ensures Bits(v, 0, 32) == v
  {
    Pow2Lanes();
    assert Pow2(0) == 1;
  }

  /** `int(h, 16)` reads back the eight digits uart_send_hex32 sends. */
  lemma PyHexIntHex32(v: U32)
    ensures PyHexInt(Hex32(v)) == Some(v)
  {
    Hex32Value(v);
    PyHexIntPlainDigits(Hex32(v));
  }

  // ---------------------------------------------------------------------
  // Page header
  // ---------------------------------------------------------------------

  /** `b"ERR"`. */
  const ErrText: seq<Byte> := ['E' as int, 'R' as int, 'R' as int]

  /** The largest page length the receiver accepts. */
  const MaxPageBytes: nat := 32768

  /** What the capture loop makes of a full 7-byte header. */
  datatype HeaderVerdict =
    | PageError(rowData: U32)           // bytes 4..6 spell ERR: nothing is read or written
    | BadLength(pageBytes: U32)         // zero or over 32768: skipped
    | Accept(pageBytes: U32, row: nat)  // that many data bytes follow

  /**
   * The header checks of capture_dump: the ERR marker first, then the
   * little-endian length in bytes 0..3 against 1..32768; an accepted
   * header also yields the 24-bit row in bytes 4..6.
   */
  function DecodeHeader(hdr: seq<Byte>): (v: HeaderVerdict)
    requires |hdr| == 7
    ensures v.PageError? <==> hdr[4..] == ErrText
    ensures v.Accept? ==> 0 < v.pageBytes <= MaxPageBytes && v.row < 0x100_0000
  {
    LittleEndianBound(hdr[..4]);
    LittleEndianBound(hdr[4..]);
    Pow2Lanes();
    var pageBytes := LittleEndian(hdr[..4]);
    if hdr[4..] == ErrText then PageError(pageBytes)
    else if pageBytes == 0 || pageBytes > MaxPageBytes then BadLength(pageBytes)
    else Accept(pageBytes, LittleEndian(hdr[4..]))
  }

  /** The row whose three header bytes spell ERR. */
  const ErrRow: nat := 0x52_52_45

  /**
   * Decoding a header built by the firmware: the ERR check fires exactly
   * when the row's low 24 bits are 0x525245; otherwise the length check
   * decides, and an accepted header gives back `bytes_read` and
   * `row & 0xFFFFFF`.
   */
  lemma HeaderRoundTrip(bytesRead: U32, row: nat)
    ensures var v := DecodeHeader(HeaderBytes(bytesRead, row));
            (v.PageError? <==> row % 0x100_0000 == ErrRow) &&
            (v.PageError? ==> v.rowData == bytesRead) &&
            (row % 0x100_0000 != ErrRow && (bytesRead == 0 || bytesRead > MaxPageBytes) ==> v == BadLength(bytesRead)) &&
            (row % 0x100_0000 != ErrRow && 0 < bytesRead <= MaxPageBytes ==> v == Accept(bytesRead, row % 0x100_0000))
  {
    var h := HeaderBytes(bytesRead, row);
    LittleEndian3(ErrText);
    if row % 0x100_0000 == ErrRow {
      LittleEndianInjective(h[4..], ErrText);
    }
  }

  /** The firmware's timeout marker is read as a page error, and nothing is written for it. */
  lemma ErrMarkerIsPageError()
    ensures DecodeHeader(ErrMarker) == PageError(0xFFFF_FFFF)
  {
    assert ErrMarker[4..] == ErrText;
    var lengthBytes := ErrMarker[..4];
    assert lengthBytes[1..] == [0xFF, 0xFF, 0xFF];
    LittleEndian3(lengthBytes[1..]);
  }

  /** The value of three little-endian bytes. */
  lemma LittleEndian3(bs: seq<Byte>)
    requires |bs| == 3
    ensures LittleEndian(bs) == bs[0] as int + 0x100 * (bs[1] as int) + 0x1_0000 * (bs[2] as int)
  {
    var tail := bs[1..];
    assert tail[1..] == [bs[2]];
    assert LittleEndian([bs[2]]) == bs[2] by {
      assert [bs[2]][1..] == [];
    }
    assert LittleEndian(tail) == bs[1] as int + 0x100 * (bs[2] as int);
  }

  /** A row the firmware can put in a header and that the receiver takes for an error marker. */
  lemma ErrRowMisread(bytesRead: U32)
    ensures DecodeHeader(HeaderBytes(bytesRead, ErrRow)).PageError?
  {
    HeaderRoundTrip(bytesRead, ErrRow);
  }

  /**
   * In a full dump no row reaches 0x525245 (rows stay below 2^21), so no
   * real page header is misread as an error marker.
   */
  lemma DumpHeadersNotMisread(ppb: nat, i: nat, bytesRead: U32)
    requires ppb <= 512 && i < |VisitedRows(ppb, TotalBlocks)|
    ensures !DecodeHeader(HeaderBytes(bytesRead, VisitedRows(ppb, TotalBlocks)[i])).PageError?
  {
    DumpRowsFit(ppb, i);
    HeaderRoundTrip(bytesRead, VisitedRows(ppb, TotalBlocks)[i]);
  }

  // ---------------------------------------------------------------------
  // Lines (wait_for_line)
  // ---------------------------------------------------------------------

  /** The complete lines of `bs`: each `\n`-terminated piece, without its `\n`. */
  function Lines(bs: seq<Byte>): seq<seq<Byte>>
    decreases |bs|
  {
    var k := IndexOf(bs, 0, Newline);
    if k == |bs| then [] else [bs[..k]] + Lines(bs[k + 1..])
  }

  /** Bytes that end with a newline split into lines independently of what follows. */
  lemma {:induction false} LinesAppend(p: seq<Byte>, s: seq<Byte>)
    requires p == [] || p[|p| - 1] == Newline
    ensures Lines(p + s) == Lines(p) + Lines(s)
    decreases |p|
  {
    if p == [] {
      assert p + s == s;
    } else {
      var k := IndexOf(p, 0, Newline);
      LinesFirstOfBoth(p, s);
      var x, rest := p[..k], p[k + 1..];
      assert rest == [] || rest[|rest| - 1] == Newline;
      LinesAppend(rest, s);
      AppendAssoc([x], Lines(rest), Lines(s));
    }
  }

  lemma AppendAssoc<T>(a: seq<T>, b: seq<T>, c: seq<T>)
    ensures a + (b + c) == (a + b) + c
  {
  }

  /** The first line of `p`, which ends with a newline, is also the first line of `p + s`. */
  lemma LinesFirstOfBoth(p: seq<Byte>, s: seq<Byte>)
    requires p != [] && p[|p| - 1] == Newline
    ensures var k := IndexOf(p, 0, Newline);
            k < |p| &&
            Lines(p) == [p[..k]] + Lines(p[k + 1..]) &&
            Lines(p + s) == [p[..k]] + Lines(p[k + 1..] + s)
  {
    var k := IndexOf(p, 0, Newline);
    IndexOfIsFirst(p, 0, Newline);
    LinesFirst(p, k);
    LinesFirst(p + s, k);
    assert (p + s)[..k] == p[..k];
    assert (p + s)[k + 1..] == p[k + 1..] + s;
  }

  /** The first line ends at the first newline, here at position `k`. */
  lemma LinesFirst(bs: seq<Byte>, k: nat)
    requires k < |bs| && bs[k] == Newline
    requires forall i :: 0 <= i < k ==> bs[i] != Newline
    ensures Lines(bs) == [bs[..k]] + Lines(bs[k + 1..])
  {
    IndexOfIs(bs, 0, Newline, k);
  }

  /** Bytes without a newline hold no complete line. */
  lemma NoLines(bs: seq<Byte>)
    requires Newline !in bs
    ensures Lines(bs) == []
  {
    IndexOfIs(bs, 0, Newline, |bs|);
  }

  /** A newline-free run followed by a newline is one line. */
  lemma OneLine(line: seq<Byte>)
    requires Newline !in line
    ensures Lines(line + [Newline]) == [line]
  {
    IndexOfIs(line + [Newline], 0, Newline, |line|);
    assert (line + [Newline])[..|line|] == line;
    assert (line + [Newline])[|line| + 1..] == [];
  }

  /** A line as wait_for_line compares it: decoded and stripped. */
  function LineText(line: seq<Byte>): string
  {
    Strip(Decode(line))
  }

  /** The text of the first line that starts with `target`. */
  function FirstMatching(lines: seq<seq<Byte>>, target: string): (r: Option<string>)
    ensures r.Some? ==> StartsWith(r.value, target) && exists k :: 0 <= k < |lines| && r.value == LineText(lines[k])
    ensures r.None? <==> forall k :: 0 <= k < |lines| ==> !StartsWith(LineText(lines[k]), target)
  {
    if lines == [] then None
    else if StartsWith(LineText(lines[0]), target) then Some(LineText(lines[0]))
    else
      var r := FirstMatching(lines[1..], target);
      assert forall k :: 1 <= k < |lines| ==> lines[k] == lines[1..][k - 1];
      r
  }

  lemma {:induction false} FirstMatchingAppend(a: seq<seq<Byte>>, b: seq<seq<Byte>>, target: string)
    ensures FirstMatching(a + b, target) ==
            if FirstMatching(a, target).Some? then FirstMatching(a, target) else FirstMatching(b, target)
  {
    if a != [] {
      assert (a + b)[1..] == a[1..] + b;
      FirstMatchingAppend(a[1..], b, target);
    } else {
      assert a + b == b;
    }
  }

  /** The geometry-line target capture_dump passes to wait_for_line. */
  const AsWrittenGeometryTarget: string := "  page_data="

  /** The target that matches the geometry line once it has been stripped. */
  const GeometryTarget: string := "page_data="

  /**
   * No stripped line starts with a blank, so waiting for "  page_data="
   * never succeeds, whatever the device sends.
   */
  lemma AsWrittenGeometryTargetNeverMatches(lines: seq<seq<Byte>>)
    ensures FirstMatching(lines, AsWrittenGeometryTarget).None?
  {
    forall k | 0 <= k < |lines|
      ensures !StartsWith(LineText(lines[k]), AsWrittenGeometryTarget)
    {
      var t := LineText(lines[k]);
      assert t == [] || t[0] != AsWrittenGeometryTarget[0];
    }
  }

  /**
   * The geometry line the firmware sends after DUMP_START is one line, and
   * once stripped it starts with "page_data=", so waiting for that target
   * finds it.
   */
  lemma GeometryLineMatches(g: NandGeometry.Geometry)
    requires g.pageTotal == g.pageDataSize + g.spareTotal && g.pageTotal <= 8448 && g.pagesPerBlock <= 512
    ensures FirstMatching(Lines(GeometryLine(g)), GeometryTarget).Some?
  {
    var h1, h2, h3, h4 := Hex32(g.pageDataSize), Hex32(g.spareTotal), Hex32(g.pagesPerBlock), Hex32(TotalBlocks);
    var core := "page_data=" + (h1 + " spare=" + h2 + " pages/blk=" + h3 + " blocks=" + h4);
    var u := "  " + core + "\r";
    GeometryLineBytes(g);
    Hex32Plain(g.pageDataSize);
    Hex32Plain(g.spareTotal);
    Hex32Plain(g.pagesPerBlock);
    Hex32Plain(TotalBlocks);
    GeometryCoreShape(h1, h2, h3, h4);
    assert Newline !in AsciiBytes(u) by {
      assert '\n' !in u;
      forall i | 0 <= i < |u| ensures AsciiBytes(u)[i] != Newline {
        assert u[i] != '\n';
      }
    }
    OneLine(AsciiBytes(u));
    DecodeAsciiBytes(u);
    StripPadding("  ", core, "\r");
    assert FirstMatching([AsciiBytes(u)], GeometryTarget) == Some(LineText(AsciiBytes(u)));
  }

  /**
   * GeometryLine is the ASCII text of two blanks, "page_data=" and the
   * labelled values, a CR, and the line feed.
   */
  lemma GeometryLineBytes(g: NandGeometry.Geometry)
    requires g.pageTotal == g.pageDataSize + g.spareTotal && g.pageTotal <= 8448 && g.pagesPerBlock <= 512
    ensures var h1, h2, h3, h4 := Hex32(g.pageDataSize), Hex32(g.spareTotal), Hex32(g.pagesPerBlock), Hex32(TotalBlocks);
            var u := "  " + ("page_data=" + (h1 + " spare=" + h2 + " pages/blk=" + h3 + " blocks=" + h4)) + "\r";
            IsAscii(u) && GeometryLine(g) == AsciiBytes(u) + [Newline]
  {
    LabelledLineBytes(Hex32(g.pageDataSize), Hex32(g.spareTotal), Hex32(g.pagesPerBlock), Hex32(TotalBlocks));
  }

  /** The bytes the firmware sends for the geometry line, for any four ASCII values. */
  lemma LabelledLineBytes(h1: string, h2: string, h3: string, h4: string)
    requires IsAscii(h1) && IsAscii(h2) && IsAscii(h3) && IsAscii(h4)
    ensures var u := "  " + ("page_data=" + (h1 + " spare=" + h2 + " pages/blk=" + h3 + " blocks=" + h4)) + "\r";
            IsAscii(u) &&
            PageDataLabel + AsciiBytes(h1) + SpareLabel + AsciiBytes(h2) + PagesPerBlockLabel + AsciiBytes(h3) +
            BlocksLabel + AsciiBytes(h4) + CrLf == AsciiBytes(u) + [Newline]
  {
    assert "  page_data=" == "  " + "page_data=" && "\r\n" == "\r" + "\n";
    assert AsciiBytes("\n") == [Newline];
    RegroupBytes("  ", "page_data=", h1, " spare=", h2, " pages/blk=", h3, " blocks=", h4, "\r", "\n");
  }

  /** The nine-piece byte concatenation, regrouped as one text and its last piece. */
  lemma RegroupBytes(a0: string, a1: string, b: string, c: string, d: string, e: string, f: string, g: string,
                     h: string, i0: string, i1: string)
    requires IsAscii(a0) && IsAscii(a1) && IsAscii(b) && IsAscii(c) && IsAscii(d) && IsAscii(e)
    requires IsAscii(f) && IsAscii(g) && IsAscii(h) && IsAscii(i0) && IsAscii(i1)
    ensures IsAscii(a0 + (a1 + (b + c + d + e + f + g + h)) + i0)
    ensures AsciiBytes(a0 + a1) + AsciiBytes(b) + AsciiBytes(c) + AsciiBytes(d) + AsciiBytes(e) + AsciiBytes(f) +
            AsciiBytes(g) + AsciiBytes(h) + AsciiBytes(i0 + i1) ==
            AsciiBytes(a0 + (a1 + (b + c + d + e + f + g + h)) + i0) + AsciiBytes(i1)
  {
    AsciiBytesAppend(a0, a1);
    AsciiBytesAppend(i0, i1);
    AsciiBytesOfNine(a0 + a1, b, c, d, e, f, g, h, i0 + i1);
    Regroup(a0, a1, b, c, d, e, f, g, h, i0, i1);
    AsciiSplit(a0 + (a1 + (b + c + d + e + f + g + h)) + i0, i1);
    AsciiBytesAppend(a0 + (a1 + (b + c + d + e + f + g + h)) + i0, i1);
  }

  /** Both halves of an ASCII string are ASCII. */
  lemma AsciiSplit(a: string, b: string)
    requires IsAscii(a + b)
    ensures IsAscii(a) && IsAscii(b)
  {
    assert forall i :: 0 <= i < |a| ==> a[i] == (a + b)[i];
    assert forall i :: 0 <= i < |b| ==> b[i] == (a + b)[|a| + i];
  }

  /** Nine pieces, the first and last split in two, regrouped around the middle seven. */
  lemma Regroup(a0: string, a1: string, b: string, c: string, d: string, e: string, f: string, g: string, h: string,
                i0: string, i1: string)
    ensures (a0 + a1) + b + c + d + e + f + g + h + (i0 + i1) == a0 + (a1 + (b + c + d + e + f + g + h)) + i0 + i1
  {
  }

  /** The stripped geometry line starts with the target, ends in a digit, and holds no line feed. */
  lemma GeometryCoreShape(h1: string, h2: string, h3: string, h4: string)
    requires '\n' !in h1 && '\n' !in h2 && '\n' !in h3 && '\n' !in h4
    requires |h4| == 8 && !IsSpace(h4[7])
    ensures var core := "page_data=" + (h1 + " spare=" + h2 + " pages/blk=" + h3 + " blocks=" + h4);
            '\n' !in core && !IsSpace(core[0]) && !IsSpace(core[|core| - 1]) && StartsWith(core, GeometryTarget)
  {
    var rest := h1 + " spare=" + h2 + " pages/blk=" + h3 + " blocks=" + h4;
    var core := "page_data=" + rest;
    assert core[|core| - 1] == h4[7];
    assert core[..|GeometryTarget|] == GeometryTarget;
  }

  /** The bytes of nine ASCII pieces sent one after another are the bytes of their concatenation. */
  lemma AsciiBytesOfNine(a: string, b: string, c: string, d: string, e: string, f: string, g: string, h: string, i: string)
    requires IsAscii(a) && IsAscii(b) && IsAscii(c) && IsAscii(d) && IsAscii(e)
    requires IsAscii(f) && IsAscii(g) && IsAscii(h) && IsAscii(i)
    ensures IsAscii(a + b + c + d + e + f + g + h + i)
    ensures AsciiBytes(a) + AsciiBytes(b) + AsciiBytes(c) + AsciiBytes(d) + AsciiBytes(e) +
            AsciiBytes(f) + AsciiBytes(g) + AsciiBytes(h) + AsciiBytes(i) ==
            AsciiBytes(a + b + c + d + e + f + g + h + i)
  {
    AsciiBytesAppend(a, b);
    AsciiBytesAppend(a + b, c);
    AsciiBytesAppend(a + b + c, d);
    AsciiBytesAppend(a + b + c + d, e);
    AsciiBytesAppend(a + b + c + d + e, f);
    AsciiBytesAppend(a + b + c + d + e + f, g);
    AsciiBytesAppend(a + b + c + d + e + f + g, h);
    AsciiBytesAppend(a + b + c + d + e + f + g + h, i);
  }

  /** The bytes of two ASCII strings, one after the other. */
  lemma AsciiBytesAppend(a: string, b: string)
    requires IsAscii(a) && IsAscii(b)
    ensures IsAscii(a + b) && AsciiBytes(a + b) == AsciiBytes(a) + AsciiBytes(b)
  {
  }

  // ---------------------------------------------------------------------
  // Progress lines
  // ---------------------------------------------------------------------

  const BlkPrefix: string := "BLK="

  /** The block numbers a text read reports, or the part whose number `int()` rejects. */
  datatype ProgressScan = Blocks(values: seq<int>) | BadBlockNumber(part: string)

  /**
   * The `for part in text.split("\n")` loop: each stripped part that starts
   * with "BLK=" has the rest parsed as hex; the first one that does not
   * parse raises ValueError.
   */
  function ScanParts(parts: seq<string>): (r: ProgressScan)
  {
    if parts == [] then Blocks([]) else ScanPart(ScanParts(parts[..|parts| - 1]), parts[|parts| - 1])
  }

  /** One turn of that loop, after the parts before `part` left `acc`. */
  function ScanPart(acc: ProgressScan, part: string): (r: ProgressScan)
    ensures acc.BadBlockNumber? ==> r == acc
    ensures acc.Blocks? && r.Blocks? ==> acc.values <= r.values && |r.values| <= |acc.values| + 1
  {
    match acc
    case BadBlockNumber(_) => acc
    case Blocks(values) =>
      var p := Strip(part);
      if !StartsWith(p, BlkPrefix) then acc
      else match PyHexInt(p[4..])
        case None => BadBlockNumber(p)
        case Some(blk) => Blocks(values + [blk])
  }

  // The three turns of the loop, with the stripped part and its digits
  // passed in as the loop body names them.

  /** A part that does not start with "BLK=" once stripped leaves the block list alone. */
  lemma ScanPartSkips(values: seq<int>, part: string, stripped: string)
    requires stripped == Strip(part) && !StartsWith(stripped, BlkPrefix)
    ensures ScanPart(Blocks(values), part) == Blocks(values)
  {
  }

  /** A "BLK=" part whose digits parse appends their value. */
  lemma ScanPartTakes(values: seq<int>, part: string, stripped: string, digits: string, v: int)
    requires stripped == Strip(part) && StartsWith(stripped, BlkPrefix)
    requires digits == stripped[4..] && PyHexInt(digits) == Some(v)
    ensures ScanPart(Blocks(values), part) == Blocks(values + [v])
  {
  }

  /** A "BLK=" part whose digits do not parse stops the scan on that part. */
  lemma ScanPartRejects(values: seq<int>, part: string, stripped: string, digits: string)
    requires stripped == Strip(part) && StartsWith(stripped, BlkPrefix)
    requires digits == stripped[4..] && PyHexInt(digits).None?
    ensures ScanPart(Blocks(values), part) == BadBlockNumber(stripped)
  {
  }

  /**
   * A scan that stops on a part names a genuine failure: the part starts
   * with "BLK=" and `int(part[4:], 16)` rejects the rest.
   */
  lemma {:induction false} ScanPartsBadIsGenuine(parts: seq<string>)
    ensures ScanParts(parts).BadBlockNumber? ==>
              StartsWith(ScanParts(parts).part, BlkPrefix) && PyHexInt(ScanParts(parts).part[4..]).None?
  {
    if parts != [] {
      ScanPartsBadIsGenuine(parts[..|parts| - 1]);
    }
  }

  /** Once a part has failed, the later parts change nothing (the ValueError ends the loop). */
  lemma {:induction false} ScanPartsStaysBad(parts: seq<string>, i: nat)
    requires i <= |parts| && ScanParts(parts[..i]).BadBlockNumber?
    ensures ScanParts(parts) == ScanParts(parts[..i])
  {
    if i < |parts| {
      var init := parts[..|parts| - 1];
      assert init[..i] == parts[..i];
      ScanPartsStaysBad(init, i);
    } else {
      assert parts[..i] == parts;
    }
  }

  /** Scanning one more part is one more turn of the loop. */
  lemma ScanPartsNext(parts: seq<string>, i: nat)
    requires i < |parts|
    ensures ScanParts(parts[..i + 1]) == ScanPart(ScanParts(parts[..i]), parts[i])
  {
    assert parts[..i + 1][..i] == parts[..i];
  }

  /** The progress line the firmware sends after block `block` reads back as that block number. */
  lemma ProgressLineReadBack(block: U32)
    requires block % 64 == 0
    ensures ScanParts(Split(Decode(ProgressLine(block)), '\n')) == Blocks([block])
  {
    var hex := Hex32(block);
    ProgressLineText(block);
    Hex32Plain(block);
    ProgressTextSplit(hex);
    PyHexIntHex32(block);
    BlkLineStrips(hex);
    ScanProgressParts("\r", "BLK=" + hex + "\r", "", hex, block);
  }

  /** The eight digits hold no line feed and do not end in whitespace. */
  lemma Hex32Plain(v: U32)
    ensures '\n' !in Hex32(v) && !IsSpace(Hex32(v)[7])
  {
    forall k | 0 <= k < 8 ensures Hex32(v)[k] != '\n' && !IsSpace(Hex32(v)[k]) {
      Hex32Digit(v, k);
    }
  }

  /** The progress line decodes to CR LF, "BLK=", the eight digits and CR LF. */
  lemma ProgressLineText(block: U32)
    requires block % 64 == 0
    ensures Decode(ProgressLine(block)) == "\r\nBLK=" + Hex32(block) + "\r\n"
  {
    var text := "\r\nBLK=" + Hex32(block) + "\r\n";
    assert IsAscii(text);
    assert AsciiBytes(text) == BlkLabel + AsciiBytes(Hex32(block)) + CrLf;
    DecodeAsciiBytes(text);
  }

  /** Split at line feeds, the progress text is a lone CR, the "BLK=" line with its CR, and an empty tail. */
  lemma ProgressTextSplit(hex: string)
    requires '\n' !in hex
    ensures Split("\r\nBLK=" + hex + "\r\n", '\n') == ["\r", "BLK=" + hex + "\r", ""]
  {
    var line := "BLK=" + hex + "\r";
    assert "\r\nBLK=" + hex + "\r\n" == "\r" + ['\n'] + line + ['\n'];
    assert '\n' !in line;
    SplitTwoLines("\r", line, '\n');
  }

  /** Two separator-free pieces, each followed by the separator, split into the pieces and an empty tail. */
  lemma SplitTwoLines(a: string, b: string, sep: char)
    requires sep !in a && sep !in b
    ensures Split(a + [sep] + b + [sep], sep) == [a, b, []]
  {
    SplitJoined(a, sep, b + [sep]);
    assert a + [sep] + b + [sep] == a + [sep] + (b + [sep]);
    SplitJoined(b, sep, []);
    assert b + [sep] + [] == b + [sep];
    SplitSingle([], sep);
  }

  /**
   * A blank part, a part that strips to "BLK=" and parseable digits, and a
   * blank tail: the scan finds one block number, the value of the digits.
   */
  lemma ScanProgressParts(cr: string, line: string, tail: string, hex: string, v: int)
    requires forall k :: 0 <= k < |cr| ==> IsSpace(cr[k])
    requires forall k :: 0 <= k < |tail| ==> IsSpace(tail[k])
    requires Strip(line) == BlkPrefix + hex && PyHexInt(hex) == Some(v)
    ensures ScanParts([cr, line, tail]) == Blocks([v])
  {
    BlankPartScans([], cr);
    BlkPartScans(line, hex, v);
    BlankPartScans([v], tail);
    ScanThreeParts(cr, line, tail, Blocks([v]));
  }

  /** A part that is all whitespace leaves the block list alone. */
  lemma BlankPartScans(values: seq<int>, part: string)
    requires forall k :: 0 <= k < |part| ==> IsSpace(part[k])
    ensures ScanPart(Blocks(values), part) == Blocks(values)
  {
    AllSpaceStrips(part);
  }

  /** A part that strips to "BLK=" and digits `int()` accepts adds their value. */
  lemma BlkPartScans(line: string, hex: string, v: int)
    requires Strip(line) == BlkPrefix + hex && PyHexInt(hex) == Some(v)
    ensures ScanPart(Blocks([]), line) == Blocks([v])
  {
    var stripped := BlkPrefix + hex;
    assert stripped[4..] == hex;
    EmptyPrefix([v]);
    ScanPartTakes([], line, stripped, hex, v);
  }

  /** The "BLK=" line with its CR strips to "BLK=" and the digits. */
  lemma BlkLineStrips(hex: string)
    requires hex != [] && !IsSpace(hex[|hex| - 1])
    ensures Strip("BLK=" + hex + "\r") == BlkPrefix + hex
  {
    var blk := "BLK=" + hex;
    StripPadding("", blk, "\r");
    assert "" + blk + "\r" == blk + "\r";
  }

  lemma ScanThreeParts(p0: string, p1: string, p2: string, b: ProgressScan)
    requires ScanPart(Blocks([]), p0) == Blocks([]) && ScanPart(Blocks([]), p1) == b && ScanPart(b, p2) == b
    ensures ScanParts([p0, p1, p2]) == b
  {
    ScanPartsOne(p0, Blocks([]));
    ScanPartsTwo(p0, p1, Blocks([]), b);
    ScanPartsThree(p0, p1, p2, b, b);
  }

  lemma ScanPartsOne(p0: string, a: ProgressScan)
    requires ScanPart(Blocks([]), p0) == a
    ensures ScanParts([p0]) == a
  {
    assert [p0][..0] == [];
  }

  lemma ScanPartsTwo(p0: string, p1: string, a: ProgressScan, b: ProgressScan)
    requires ScanParts([p0]) == a && ScanPart(a, p1) == b
    ensures ScanParts([p0, p1]) == b
  {
    assert [p0, p1][..1] == [p0];
  }

  lemma ScanPartsThree(p0: string, p1: string, p2: string, b: ProgressScan, c: ProgressScan)
    requires ScanParts([p0, p1]) == b && ScanPart(b, p2) == c
    ensures ScanParts([p0, p1, p2]) == c
  {
    assert [p0, p1, p2][..2] == [p0, p1];
  }
}
