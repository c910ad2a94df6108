/**
 * String handling of the SD card discovery tool (main.cpp): extracting a
 * descriptor string from a STORAGE_DEVICE_DESCRIPTOR buffer, ASCII
 * case-insensitive substring search, and joining a REG_MULTI_SZ registry
 * value into one "; "-separated string.
 */
module DescriptorStrings {
  import opened Common

  const Nul: char := '\0'

  /**
   * The number of elements from `from` up to the first `terminator` or the
   * end of `buf`, whichever comes first (a strlen that cannot run off the
   * buffer).
   */
  function RunLength<T(==)>(buf: seq<T>, from: nat, terminator: T): (n: nat)
    requires from <= |buf|
    ensures from + n <= |buf|
    ensures from + n == |buf| || buf[from + n] == terminator
    decreases |buf| - from
  {
    if from == |buf| || buf[from] == terminator then 0 else 1 + RunLength(buf, from + 1, terminator)
  }

  /** No terminator lies inside the run. */
  lemma {:induction false} RunLengthClear<T>(buf: seq<T>, from: nat, terminator: T)
    requires from <= |buf|
    ensures forall k :: from <= k < from + RunLength(buf, from, terminator) ==> buf[k] != terminator
    decreases |buf| - from
  {
    if from < |buf| && buf[from] != terminator {
      RunLengthClear(buf, from + 1, terminator);
    }
  }

  /** A run that is terminator-free and then hits the terminator has exactly that length. */
  lemma RunLengthIs<T>(buf: seq<T>, from: nat, terminator: T, m: nat)
    requires from + m <= |buf|
    requires from + m == |buf| || buf[from + m] == terminator
    requires forall k :: from <= k < from + m ==> buf[k] != terminator
    ensures RunLength(buf, from, terminator) == m
    decreases m
  {
    if m > 0 {
      RunLengthIs(buf, from + 1, terminator, m - 1);
    }
  }

  // ---------------------------------------------------------------------
  // SafeExtractString
  // ---------------------------------------------------------------------

  predicate IsBlank(c: char)
  {
    c == ' ' || c == '\t'
  }

  /** The characters a run of descriptor bytes denotes. */
  function Chars(bs: seq<Byte>): string
  {
    seq(|bs|, i requires 0 <= i < |bs| => bs[i] as char)
  }

  /** `s` with its trailing blanks and tabs removed (the `pop_back` loop). */
  function TrimTrailingBlanks(s: string): (t: string)
    ensures |t| <= |s| && t == s[..|t|]
    ensures t == [] || !IsBlank(t[|t| - 1])
    decreases |s|
  {
    if s != [] && IsBlank(s[|s| - 1]) then TrimTrailingBlanks(s[..|s| - 1]) else s
  }

  /** What the trim removes is blanks. */
  lemma {:induction false} TrimRemovesBlanks(s: string)
    ensures forall k :: |TrimTrailingBlanks(s)| <= k < |s| ==> IsBlank(s[k])
    decreases |s|
  {
    if s != [] && IsBlank(s[|s| - 1]) {
      TrimRemovesBlanks(s[..|s| - 1]);
    }
  }

  /**
   * The descriptor string stored at `offset` in a descriptor buffer: empty
   * for offset 0 (field absent) or an offset at or past the end, otherwise
   * the bytes from `offset` up to the first NUL or the end of the buffer,
   * with trailing blanks removed.
   */
  function DescriptorString(buffer: seq<Byte>, offset: nat): (s: string)
  {
    if offset == 0 || offset >= |buffer| then []
    else TrimTrailingBlanks(Chars(buffer[offset..offset + RunLength(buffer, offset, 0)]))
  }

  /**
   * The extracted string is empty for offset 0 or an offset past the end;
   * otherwise it is the NUL-free bytes at `offset`, read as characters, up
   * to a point after which only blanks remain before the NUL (or the end),
   * and it does not end in a blank.
   */
  lemma DescriptorStringContents(buffer: seq<Byte>, offset: nat)
    ensures offset == 0 || offset >= |buffer| ==> DescriptorString(buffer, offset) == []
    ensures DescriptorString(buffer, offset) == [] ||
            !IsBlank(DescriptorString(buffer, offset)[|DescriptorString(buffer, offset)| - 1])
    ensures 0 < offset < |buffer| ==>
              var s := DescriptorString(buffer, offset);
              offset + |s| <= |buffer| &&
              (forall k :: 0 <= k < |s| ==> buffer[offset + k] != 0 && s[k] == buffer[offset + k] as char)
    ensures 0 < offset < |buffer| ==>
              var s := DescriptorString(buffer, offset);
              var n := RunLength(buffer, offset, 0);
              |s| <= n && forall k :: offset + |s| <= k < offset + n ==> IsBlank(buffer[k] as char)
  {
    if 0 < offset < |buffer| {
      RunLengthClear(buffer, offset, 0);
      TrimmedRun(buffer, offset, RunLength(buffer, offset, 0), DescriptorString(buffer, offset));
    }
  }

  /** The trim of a NUL-free run copies a prefix of the run; what it drops is blanks. */
  lemma TrimmedRun(buffer: seq<Byte>, offset: nat, n: nat, s: string)
    requires offset + n <= |buffer|
    requires forall k :: offset <= k < offset + n ==> buffer[k] != 0
    requires s == TrimTrailingBlanks(Chars(buffer[offset..offset + n]))
    ensures offset + |s| <= |buffer| && forall k :: 0 <= k < |s| ==> buffer[offset + k] != 0 && s[k] == buffer[offset + k] as char
    ensures |s| <= n && forall k :: offset + |s| <= k < offset + n ==> IsBlank(buffer[k] as char)
  {
    var run := Chars(buffer[offset..offset + n]);
    TrimRemovesBlanks(run);
    assert forall k :: offset + |s| <= k < offset + n ==> IsBlank(run[k - offset]) && run[k - offset] == buffer[k] as char;
  }

  /**
   * SafeExtractString: bounds-checked extraction of a descriptor string.
   * The buffer's size is `|buffer|`; every read is an index Dafny checks
   * against it.
   */
  method SafeExtractString(buffer: seq<Byte>, offset: U32) returns (result: string)
    ensures result == DescriptorString(buffer, offset)
  {
    if offset == 0 || offset >= |buffer| {
      return [];
    }
    var maxLen := |buffer| - offset;
    var len := 0;
    while len < maxLen && buffer[offset + len] != 0
      invariant 0 <= len <= maxLen
      invariant RunLength(buffer, offset, 0) == len + RunLength(buffer, offset + len, 0)
    {
      len := len + 1;
    }
    assert RunLength(buffer, offset, 0) == len;
    var run := Chars(buffer[offset..offset + len]);
    result := run;
    while result != [] && IsBlank(result[|result| - 1])
      invariant TrimTrailingBlanks(result) == TrimTrailingBlanks(run)
    {
      result := result[..|result| - 1];
    }
    TrimKeeps(result);
  }

  /** A string that does not end in a blank is its own trim. */
  lemma TrimKeeps(s: string)
    requires s == [] || !IsBlank(s[|s| - 1])
    ensures TrimTrailingBlanks(s) == s
  {
  }

  // ---------------------------------------------------------------------
  // ContainsCaseInsensitive / ContainsCaseInsensitiveW
  // ---------------------------------------------------------------------

  /** `tolower` / `towlower`, restricted to ASCII letters. */
  function ToLowerAscii(c: char): char
  {
    if 'A' <= c <= 'Z' then (c as int + 32) as char else c
  }

  function LowerAscii(s: string): string
  {
    seq(|s|, i requires 0 <= i < |s| => ToLowerAscii(s[i]))
  }

  /** `needle` occurs in `hay` starting at position `i`. */
  predicate OccursAt(hay: string, needle: string, i: nat)
  {
    i + |needle| <= |hay| && hay[i..i + |needle|] == needle
  }

  ghost predicate Occurs(hay: string, needle: string)
  {
    exists i :: OccursAt(hay, needle, i)
  }

  /** `std::basic_string::find(needle, from)`: the first position at or after `from`. */
  function Find(hay: string, needle: string, from: nat): (r: Option<nat>)
    requires from <= |hay|
    ensures r.Some? ==>
              from <= r.value && OccursAt(hay, needle, r.value) &&
              forall j :: from <= j < r.value ==> !OccursAt(hay, needle, j)
    ensures r.None? ==> forall j :: from <= j ==> !OccursAt(hay, needle, j)
    decreases |hay| - from
  {
    if from + |needle| > |hay| then None
    else if OccursAt(hay, needle, from) then Some(from)
    else Find(hay, needle, from + 1)
  }

  /**
   * Both lower-cased, then searched: true iff the lower-cased needle is a
   * substring of the lower-cased haystack; an empty needle always matches.
   */
  function ContainsCaseInsensitive(haystack: string, needle: string): (b: bool)
    ensures b <==> Occurs(LowerAscii(haystack), LowerAscii(needle))
    ensures needle == [] ==> b
  {
    assert needle == [] ==> OccursAt(LowerAscii(haystack), LowerAscii(needle), 0);
    Find(LowerAscii(haystack), LowerAscii(needle), 0).Some?
  }

  // ---------------------------------------------------------------------
  // REG_MULTI_SZ join (GetDeviceRegistryStringProperty)
  // ---------------------------------------------------------------------

  /**
   * Walking a REG_MULTI_SZ buffer from `p` (string, NUL, string, NUL, ...)
   * reaches an empty string without leaving the buffer.
   */
  predicate WalkEnds(buf: seq<char>, p: nat)
    decreases |buf| - p
  {
    p < |buf| &&
    (buf[p] == Nul ||
     (p + RunLength(buf, p, Nul) < |buf| && WalkEnds(buf, p + RunLength(buf, p, Nul) + 1)))
  }

  /** The strings of a REG_MULTI_SZ buffer from `p` on. */
  function MultiSzStrings(buf: seq<char>, p: nat): seq<string>
    requires WalkEnds(buf, p)
    decreases |buf| - p
  {
    if buf[p] == Nul then []
    else
      var n := RunLength(buf, p, Nul);
      [buf[p..p + n]] + MultiSzStrings(buf, p + n + 1)
  }

  /** One step of the join: a "; " before the item unless nothing is there yet. */
  function AppendItem(acc: string, item: string): string
  {
    (if acc != [] then acc + "; " else acc) + item
  }

  function JoinOnto(acc: string, items: seq<string>): string
    decreases |items|
  {
    if items == [] then acc else JoinOnto(AppendItem(acc, items[0]), items[1..])
  }

  function JoinItems(items: seq<string>): string
  {
    JoinOnto([], items)
  }

  datatype RegistryType = RegSz | RegMultiSz | OtherType(code: U32)

  /** The second SetupDiGetDeviceRegistryPropertyW call's outcome: type and data. */
  datatype RegistryValue = RegistryValue(dataType: RegistryType, data: seq<char>)

  /**
   * GetDeviceRegistryStringProperty: `None` stands for a zero size from the
   * sizing call or a failing second call; both give "". REG_SZ gives the
   * string up to its NUL, REG_MULTI_SZ its strings joined with "; ", any
   * other type "".
   */
  method GetDeviceRegistryStringProperty(value: Option<RegistryValue>) returns (result: string)
    requires value.Some? && value.value.dataType == RegSz ==> Nul in value.value.data
    requires value.Some? && value.value.dataType == RegMultiSz ==> WalkEnds(value.value.data, 0)
    ensures value.None? ==> result == []
    ensures value.Some? && value.value.dataType == RegSz ==>
              result == value.value.data[..RunLength(value.value.data, 0, Nul)]
    ensures value.Some? && value.value.dataType == RegMultiSz ==>
              result == JoinItems(MultiSzStrings(value.value.data, 0))
    ensures value.Some? && value.value.dataType.OtherType? ==> result == []
  {
    if value.None? {
      return [];
    }
    var buf := value.value.data;
    match value.value.dataType {
      case RegSz =>
        result := buf[..RunLength(buf, 0, Nul)];
      case RegMultiSz =>
        result := [];
        var p := 0;
        while buf[p] != Nul
          invariant WalkEnds(buf, p)
          invariant JoinOnto(result, MultiSzStrings(buf, p)) == JoinItems(MultiSzStrings(buf, 0))
          decreases |buf| - p
        {
          if result != [] {
            result := result + "; ";
          }
          var n := RunLength(buf, p, Nul);
          result := result + buf[p..p + n];
          p := p + n + 1;
        }
      case OtherType(_) =>
        result := [];
    }
  }

  /** A list of hardware ids as the registry stores it: each id, NUL, then a final NUL. */
  function EncodeMultiSz(items: seq<string>): seq<char>
  {
    if items == [] then [Nul] else items[0] + [Nul] + EncodeMultiSz(items[1..])
  }

  predicate IsMultiSzItem(s: string)
  {
    s != [] && Nul !in s
  }

  /**
   * Parsing the encoding of a list of non-empty, NUL-free strings gives the
   * list back, wherever in a buffer the encoding starts.
   */
  lemma {:induction false} MultiSzRoundTripAt(prefix: seq<char>, items: seq<string>)
    requires forall k :: 0 <= k < |items| ==> IsMultiSzItem(items[k])
    ensures WalkEnds(prefix + EncodeMultiSz(items), |prefix|)
    ensures MultiSzStrings(prefix + EncodeMultiSz(items), |prefix|) == items
    decreases |items|
  {
    var buf := prefix + EncodeMultiSz(items);
    if items != [] {
      var item := items[0];
      var prefix' := prefix + item + [Nul];
      assert buf == prefix' + EncodeMultiSz(items[1..]);
      assert buf[|prefix|..|prefix| + |item|] == item;
      assert buf[|prefix| + |item|] == Nul;
      assert forall k :: |prefix| <= k < |prefix| + |item| ==> buf[k] == item[k - |prefix|];
      RunLengthIs(buf, |prefix|, Nul, |item|);
      assert buf[|prefix|] == item[0];
      MultiSzRoundTripAt(prefix', items[1..]);
      assert |prefix'| == |prefix| + |item| + 1;
      assert items == [item] + items[1..];
    }
  }

  /** The registry encoding of a list of hardware ids parses back to that list. */
  lemma MultiSzRoundTrip(items: seq<string>)
    requires forall k :: 0 <= k < |items| ==> IsMultiSzItem(items[k])
    ensures WalkEnds(EncodeMultiSz(items), 0)
    ensures MultiSzStrings(EncodeMultiSz(items), 0) == items
  {
    MultiSzRoundTripAt([], items);
    EmptyPrefix(EncodeMultiSz(items));
  }

  // ---------------------------------------------------------------------
  // Matching an id against the joined REG_MULTI_SZ string
  // ---------------------------------------------------------------------

  /** `s` contains neither character of the "; " separator. */
  predicate SeparatorFree(s: string)
  {
    forall k :: 0 <= k < |s| ==> s[k] != ';' && s[k] != ' '
  }

  /** Joining one more item appends "; " and the item (just the item when nothing precedes it). */
  lemma {:induction false} JoinOntoSnoc(acc: string, items: seq<string>, x: string)
    ensures JoinOnto(acc, items + [x]) == AppendItem(JoinOnto(acc, items), x)
    decreases |items|
  {
    if items == [] {
      assert items + [x] == [x];
      assert [x][1..] == [];
    } else {
      assert (items + [x])[0] == items[0];
      assert (items + [x])[1..] == items[1..] + [x];
      JoinOntoSnoc(AppendItem(acc, items[0]), items[1..], x);
    }
  }

  lemma LowerAsciiAppend(a: string, b: string)
    ensures LowerAscii(a + b) == LowerAscii(a) + LowerAscii(b)
  {
  }

  lemma LowerAsciiSeparatorFree(s: string)
    requires SeparatorFree(s)
    ensures SeparatorFree(LowerAscii(s))
  {
  }

  /** Every character under an occurrence of a separator-free needle is a non-separator. */
  lemma WindowIsSeparatorFree(h: string, needle: string, i: nat)
    requires OccursAt(h, needle, i) && SeparatorFree(needle)
    ensures forall q :: i <= q < i + |needle| ==> h[q] != ';' && h[q] != ' '
  {
    forall q | i <= q < i + |needle|
      ensures h[q] != ';' && h[q] != ' '
    {
      assert h[q] == h[i..i + |needle|][q - i];
    }
  }

  /**
   * A separator-free, non-empty needle occurs in `a + "; " + b` exactly
   * when it occurs in `a` or in `b`: no occurrence can straddle the
   * separator.
   */
  lemma OccursAcrossSeparator(a: string, b: string, needle: string)
    requires needle != [] && SeparatorFree(needle)
    ensures Occurs(a + "; " + b, needle) <==> Occurs(a, needle) || Occurs(b, needle)
  {
    if Occurs(a + "; " + b, needle) {
      var i: nat :| OccursAt(a + "; " + b, needle, i);
      OccurrenceSide(a, b, needle, i);
    }
    if Occurs(a, needle) {
      var i: nat :| OccursAt(a, needle, i);
      OccursBeforeSeparator(a, b, needle, i);
    }
    if Occurs(b, needle) {
      var i: nat :| OccursAt(b, needle, i);
      OccursAfterSeparator(a, b, needle, i);
    }
  }

  /** An occurrence in the joined string lies wholly in `a` or wholly in `b`. */
  lemma OccurrenceSide(a: string, b: string, needle: string, i: nat)
    requires needle != [] && SeparatorFree(needle)
    requires OccursAt(a + "; " + b, needle, i)
    ensures i + |needle| <= |a| ==> OccursAt(a, needle, i)
    ensures i + |needle| > |a| ==> i >= |a| + 2 && OccursAt(b, needle, i - |a| - 2)
  {
    var h := a + "; " + b;
    WindowIsSeparatorFree(h, needle, i);
    assert h[|a|] == ';' && h[|a| + 1] == ' ';
    if i + |needle| <= |a| {
      assert h[i..i + |needle|] == a[i..i + |needle|];
    } else {
      var j := i - |a| - 2;
      assert j >= 0 && j + |needle| <= |b|;
      assert forall q :: 0 <= q < |b| ==> h[|a| + 2 + q] == b[q];
      assert h[i..i + |needle|] == b[j..j + |needle|];
    }
  }

  /** An occurrence in `a` is one in the joined string at the same position. */
  lemma OccursBeforeSeparator(a: string, b: string, needle: string, i: nat)
    requires OccursAt(a, needle, i)
    ensures OccursAt(a + "; " + b, needle, i)
  {
    var h := a + "; " + b;
    assert h[i..i + |needle|] == a[i..i + |needle|];
  }

  /** An occurrence in `b` is one in the joined string, shifted past `a` and the separator. */
  lemma OccursAfterSeparator(a: string, b: string, needle: string, i: nat)
    requires OccursAt(b, needle, i)
    ensures OccursAt(a + "; " + b, needle, i + |a| + 2)
  {
    var h := a + "; " + b;
    var j := i + |a| + 2;
    assert h[j..j + |needle|] == b[i..i + |needle|];
  }

  /**
   * Searching the joined string for a non-empty needle that contains no
   * ';' or ' ' finds it iff one of the joined strings contains it: the
   * join neither hides a match nor creates one across a separator.
   */
  lemma {:induction false} JoinedContains(items: seq<string>, needle: string)
    requires needle != [] && SeparatorFree(needle)
    ensures ContainsCaseInsensitive(JoinItems(items), needle) <==>
              exists k :: 0 <= k < |items| && ContainsCaseInsensitive(items[k], needle)
    decreases |items|
  {
    var n := LowerAscii(needle);
    LowerAsciiSeparatorFree(needle);
    if items == [] {
      assert JoinItems(items) == [];
      assert !Occurs(LowerAscii([]), n);
    } else {
      var init := items[..|items| - 1];
      var x := items[|items| - 1];
      assert items == init + [x];
      JoinOntoSnoc([], init, x);
      JoinedContains(init, needle);
      var j := JoinItems(init);
      if j != [] {
        assert JoinItems(items) == j + "; " + x;
        LowerAsciiAppend(j + "; ", x);
        LowerAsciiAppend(j, "; ");
        assert LowerAscii("; ") == "; ";
        OccursAcrossSeparator(LowerAscii(j), LowerAscii(x), n);
      } else {
        assert JoinItems(items) == x;
        assert !Occurs(LowerAscii(j), n);
      }
      if ContainsCaseInsensitive(JoinItems(items), needle) {
        if ContainsCaseInsensitive(x, needle) {
          assert items[|items| - 1] == x;
        } else {
          var k :| 0 <= k < |init| && ContainsCaseInsensitive(init[k], needle);
          assert items[k] == init[k];
        }
      } else {
        forall k | 0 <= k < |items|
          ensures !ContainsCaseInsensitive(items[k], needle)
        {
          if k < |init| {
            assert items[k] == init[k];
          }
        }
      }
    }
  }
}
