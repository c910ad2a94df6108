/**
 * The stateful half of host_receiver.py: the serial port it reads from,
 * wait_for_line, the page accumulation loop, the progress-line scan, and
 * capture_dump's main loop that appends each accepted page to the output
 * file.
 *
 * The port is a class whose `incoming` field holds the bytes the device
 * will still send and whose `schedule` says, read call by read call, how
 * many of them arrive before that call's timeout. Wall-clock timeouts
 * become a number of read calls; once the schedule is spent nothing more
 * arrives, and a loop the Python program would spin in forever ends with
 * a Stalled outcome instead.
 */
module HostCapture {
  import opened Common
  import opened NandDump
  import opened HostReceiver

  function Min(a: nat, b: nat): (m: nat)
    ensures m <= a && m <= b && (m == a || m == b)
  {
    if a <= b then a else b
  }

  /** The port's stream and schedule as a value, for the specifications below. */
  datatype Port = Port(incoming: seq<Byte>, schedule: seq<nat>)

  /**
   * What `read(n)` returns on a port in state `p`, and the state it leaves:
   * nothing once the schedule is spent, otherwise the bytes that arrive
   * before this call's timeout, at most `n` of them, off the front of the
   * stream.
   */
  function ReadFrom(p: Port, n: nat): (r: (seq<Byte>, Port))
    ensures |r.0| <= n && p.incoming == r.0 + r.1.incoming
    ensures |r.1.schedule| <= |p.schedule| && (p.schedule != [] ==> |r.1.schedule| < |p.schedule|)
  {
    if p.schedule == [] then ([], p)
    else
      var count := Min(n, Min(p.schedule[0], |p.incoming|));
      (p.incoming[..count], Port(p.incoming[count..], p.schedule[1..]))
  }

  /** `n` copies of `x`: the sizes a loop asks for when it always asks for `x`. */
  function Repeat(x: nat, n: nat): (s: seq<nat>)
    ensures |s| == n && forall i :: 0 <= i < n ==> s[i] == x
  {
    if n == 0 then [] else Repeat(x, n - 1) + [x]
  }

  class SerialPort {
    /** The bytes the device sends from now on, in order. */
    var incoming: seq<Byte>
    /** For each coming read call, how many bytes arrive before it times out. */
    var schedule: seq<nat>
    /** The size passed to each `read` so far. */
    var requests: seq<nat>
    /** Everything written to the device so far. */
    var written: seq<Byte>

    constructor (incoming: seq<Byte>, schedule: seq<nat>)
      ensures this.incoming == incoming && this.schedule == schedule
      ensures requests == [] && written == []
    {
      this.incoming := incoming;
      this.schedule := schedule;
      requests := [];
      written := [];
    }

    /**
     * `ser.read(n)`: up to `n` bytes, fewer when the timeout expires first;
     * the bytes come off the front of the stream.
     */
    method Read(n: nat) returns (data: seq<Byte>)
      modifies this
      ensures |data| <= n
      ensures old(incoming) == data + incoming
      ensures old(schedule) == [] ==> data == [] && schedule == []
      ensures old(schedule) != [] ==>
                |data| == Min(n, Min(old(schedule)[0], |old(incoming)|)) && schedule == old(schedule)[1..]
      ensures requests == old(requests) + [n] && written == old(written)
      ensures (data, State()) == ReadFrom(old(State()), n)
    {
      requests := requests + [n];
      if schedule == [] {
        data := [];
      } else {
        var count := Min(n, Min(schedule[0], |incoming|));
        data := incoming[..count];
        incoming := incoming[count..];
        assert old(incoming) == data + incoming;
        schedule := schedule[1..];
      }
    }

    /** The stream and schedule as a value. */
    function State(): Port
      reads this
    {
      Port(incoming, schedule)
    }

    /** `ser.write(bs)`. */
    method Write(bs: seq<Byte>)
      modifies this
      ensures written == old(written) + bs
      ensures incoming == old(incoming) && schedule == old(schedule) && requests == old(requests)
    {
      written := written + bs;
    }
  }

  // ---------------------------------------------------------------------
  // wait_for_line
  // ---------------------------------------------------------------------

  /**
   * `count` reads of `n` bytes each from a port in state `p`: everything
   * they return, in order, and the state they leave.
   */
  function ReadRun(p: Port, n: nat, count: nat): (r: (seq<Byte>, Port))
    ensures p.incoming == r.0 + r.1.incoming
  {
    if count == 0 then ([], p)
    else
      var before := ReadRun(p, n, count - 1);
      var next := ReadFrom(before.1, n);
      AppendAssoc(before.0, next.0, next.1.incoming);
      (before.0 + next.0, next.1)
  }

  /**
   * `calls` reads of 256 bytes from `p` are where wait_for_line for
   * `target`, allowed `budget` reads, stops: after no read before the last
   * did a complete line match, and after the last one a line matches or
   * the budget is spent.
   */
  predicate Waited(p: Port, target: string, budget: nat, calls: nat)
  {
    calls <= budget &&
    (FirstMatching(Lines(ReadRun(p, 256, calls).0), target).None? ==> calls == budget) &&
    (0 < calls ==> FirstMatching(Lines(ReadRun(p, 256, calls - 1).0), target).None?)
  }

  /**
   * Waiting for the geometry line as written: no read can end the wait, so
   * it makes every read the budget allows and drops all they bring.
   */
  lemma AsWrittenGeometryWaitUsesBudget(p: Port, budget: nat, calls: nat)
    requires Waited(p, AsWrittenGeometryTarget, budget, calls)
    ensures calls == budget
  {
    AsWrittenGeometryTargetNeverMatches(Lines(ReadRun(p, 256, calls).0));
  }

  /**
   * Reads 256-byte chunks, at most `budget` of them, cutting complete lines
   * off the front of the buffer; returns the first stripped line that
   * starts with `target`. `received` is every byte read and `calls` the
   * number of reads: the wait stops at the first read after which a
   * complete line matches, and makes every read the budget allows when
   * none does. Whatever followed the matching line in the buffer is
   * dropped with the buffer.
   */
  method WaitForLine(ser: SerialPort, target: string, budget: nat)
    returns (r: Option<string>, ghost received: seq<Byte>, ghost calls: nat)
    modifies ser
    ensures old(ser.incoming) == received + ser.incoming
    ensures (received, ser.State()) == ReadRun(old(ser.State()), 256, calls)
    ensures ser.requests == old(ser.requests) + Repeat(256, calls)
    ensures r == FirstMatching(Lines(received), target)
    ensures Waited(old(ser.State()), target, budget, calls)
    ensures ser.written == old(ser.written)
  {
    ghost var origin := ser.State();
    var buf: seq<Byte> := [];
    ghost var consumed: seq<Byte> := [];
    received := [];
    ghost var prior: seq<Byte> := [];
    var attempts := 0;
    while attempts < budget
      invariant attempts <= budget
      invariant 0 < attempts ==> prior == ReadRun(origin, 256, attempts - 1).0 && FirstMatching(Lines(prior), target).None?
      invariant received == consumed + buf
      invariant (received, ser.State()) == ReadRun(origin, 256, attempts)
      invariant consumed == [] || consumed[|consumed| - 1] == Newline
      invariant Newline !in buf
      invariant FirstMatching(Lines(consumed), target).None?
      invariant ser.requests == old(ser.requests) + Repeat(256, attempts)
      invariant ser.written == old(ser.written)
    {
      ghost var earlier, before := received, ser.State();
      NoMatch(consumed, buf, target);
      prior := earlier;
      assert prior == ReadRun(origin, 256, attempts).0 && FirstMatching(Lines(prior), target).None?;
      var chunk := ser.Read(256);
      ReadRunStep(origin, 256, attempts, earlier, before, chunk, ser.State());
      RepeatStep(old(ser.requests), 256, attempts);
      attempts := attempts + 1;
      AppendAssoc(consumed, buf, chunk);
      received := received + chunk;
      buf := buf + chunk;
      var found;
      found, buf, consumed := CutLines(buf, target, consumed);
      if found.Some? {
        WaitedAt(origin, target, budget, attempts, earlier, received);
        return found, received, attempts;
      }
    }
    NoMatch(consumed, buf, target);
    WaitedAt(origin, target, budget, attempts, prior, received);
    return None, received, attempts;
  }

  /**
   * The `while b"\n" in buf` loop: cuts complete lines off the front of
   * the buffer and stops at the first whose stripped text starts with
   * `target`. `consumed` holds the lines cut before, none of which matched;
   * with no match the loop ends with no line feed left in `rest`.
   */
  method CutLines(buf: seq<Byte>, target: string, ghost consumed: seq<Byte>)
    returns (found: Option<string>, rest: seq<Byte>, ghost consumed': seq<Byte>)
    requires consumed == [] || consumed[|consumed| - 1] == Newline
    requires FirstMatching(Lines(consumed), target).None?
    ensures found == FirstMatching(Lines(consumed + buf), target)
    ensures consumed' + rest == consumed + buf
    ensures found.None? ==>
              Newline !in rest && FirstMatching(Lines(consumed'), target).None? &&
              (consumed' == [] || consumed'[|consumed'| - 1] == Newline)
  {
    rest, consumed' := buf, consumed;
    while Newline in rest
      invariant consumed' + rest == consumed + buf
      invariant consumed' == [] || consumed'[|consumed'| - 1] == Newline
      invariant FirstMatching(Lines(consumed'), target).None?
      decreases |rest|
    {
      var k := IndexOf(rest, 0, Newline);
      var line := rest[..k];
      var text := LineText(line);
      CutLine(consumed', rest, k, target);
      consumed' := consumed' + line + [Newline];
      rest := rest[k + 1..];
      if StartsWith(text, target) {
        MatchStands(consumed', rest, target);
        return Some(text), rest, consumed';
      }
    }
    NoMatch(consumed', rest, target);
    return None, rest, consumed';
  }

  /** One more read of a run of reads. */
  lemma ReadRunStep(p: Port, n: nat, count: nat, earlier: seq<Byte>, before: Port, chunk: seq<Byte>, after: Port)
    requires (earlier, before) == ReadRun(p, n, count) && (chunk, after) == ReadFrom(before, n)
    ensures (earlier + chunk, after) == ReadRun(p, n, count + 1)
  {
  }

  lemma RepeatStep(prefix: seq<nat>, x: nat, n: nat)
    ensures prefix + Repeat(x, n) + [x] == prefix + Repeat(x, n + 1)
  {
    AppendAssoc(prefix, Repeat(x, n), [x]);
  }

  /** Where the wait stops, from what the method knows at that point. */
  lemma WaitedAt(p: Port, target: string, budget: nat, calls: nat, earlier: seq<Byte>, received: seq<Byte>)
    requires calls <= budget && received == ReadRun(p, 256, calls).0
    requires FirstMatching(Lines(received), target).None? ==> calls == budget
    requires 0 < calls ==> earlier == ReadRun(p, 256, calls - 1).0 && FirstMatching(Lines(earlier), target).None?
    ensures Waited(p, target, budget, calls)
  {
  }

  /**
   * Cutting the first line off the buffer: the bytes read are unchanged,
   * the line joins the consumed lines, and the first match among those is
   * this line if it matches.
   */
  lemma CutLine(consumed: seq<Byte>, buf: seq<Byte>, k: nat, target: string)
    requires Newline in buf && k == IndexOf(buf, 0, Newline)
    requires consumed == [] || consumed[|consumed| - 1] == Newline
    requires FirstMatching(Lines(consumed), target).None?
    ensures k < |buf|
    ensures consumed + buf == (consumed + buf[..k] + [Newline]) + buf[k + 1..]
    ensures FirstMatching(Lines(consumed + buf[..k] + [Newline]), target) ==
            if StartsWith(LineText(buf[..k]), target) then Some(LineText(buf[..k])) else None
  {
    IndexOfIsFirst(buf, 0, Newline);
    assert Newline !in buf[..k];
    LineCut(consumed, buf, k);
    ConsumedLine(consumed, buf[..k], target);
  }

  /** A match among the consumed lines is the first match of everything read. */
  lemma MatchStands(consumed: seq<Byte>, buf: seq<Byte>, target: string)
    requires consumed != [] && consumed[|consumed| - 1] == Newline
    requires FirstMatching(Lines(consumed), target).Some?
    ensures FirstMatching(Lines(consumed + buf), target) == FirstMatching(Lines(consumed), target)
  {
    LinesAppend(consumed, buf);
    FirstMatchingAppend(Lines(consumed), Lines(buf), target);
  }

  /** With no match among the consumed lines and no line feed left, nothing read matches. */
  lemma NoMatch(consumed: seq<Byte>, buf: seq<Byte>, target: string)
    requires consumed == [] || consumed[|consumed| - 1] == Newline
    requires FirstMatching(Lines(consumed), target).None? && Newline !in buf
    ensures FirstMatching(Lines(consumed + buf), target).None?
  {
    NoLines(buf);
    LinesAppend(consumed, buf);
    assert Lines(consumed) + Lines(buf) == Lines(consumed);
  }

  /** Cutting the first line off the buffer keeps `consumed + buf` as it was. */
  lemma LineCut(consumed: seq<Byte>, buf: seq<Byte>, k: nat)
    requires k < |buf|
    ensures consumed + buf == consumed + buf[..k] + [buf[k]] + buf[k + 1..]
  {
    assert buf == buf[..k] + [buf[k]] + buf[k + 1..];
  }

  /**
   * One more line after lines none of which matched: the lines are the old
   * ones and this one, and the first match is this line if it matches.
   */
  lemma ConsumedLine(consumed: seq<Byte>, line: seq<Byte>, target: string)
    requires consumed == [] || consumed[|consumed| - 1] == Newline
    requires Newline !in line
    requires FirstMatching(Lines(consumed), target).None?
    ensures Lines(consumed + line + [Newline]) == Lines(consumed) + [line]
    ensures FirstMatching(Lines(consumed + line + [Newline]), target) ==
            if StartsWith(LineText(line), target) then Some(LineText(line)) else None
  {
    LinesAppend(consumed, line + [Newline]);
    assert consumed + line + [Newline] == consumed + (line + [Newline]);
    OneLine(line);
    FirstMatchingAppend(Lines(consumed), [line], target);
    FirstMatchingOne(line, target);
  }

  /** The first match in a single line is that line, if it matches. */
  lemma FirstMatchingOne(line: seq<Byte>, target: string)
    ensures FirstMatching([line], target) ==
            if StartsWith(LineText(line), target) then Some(LineText(line)) else None
  {
    assert [line][1..] == [];
  }

  // ---------------------------------------------------------------------
  // Page data
  // ---------------------------------------------------------------------

  /** The largest read the page loop asks for. */
  const ChunkLimit: nat := 4096

  /** Where the page loop stands: the bytes gathered, the port, the sizes asked for. */
  datatype PageProgress = PageProgress(data: seq<Byte>, port: Port, asked: seq<nat>)

  /**
   * The page loop with `remaining` bytes still to come after `data`: it
   * asks for `min(remaining, 4096)` bytes at a time, asks again after an
   * empty read, and stops once the page is complete or the schedule is
   * spent.
   */
  function PageFrom(p: Port, remaining: nat, data: seq<Byte>, asked: seq<nat>): (r: PageProgress)
    ensures |r.port.schedule| <= |p.schedule|
    decreases |p.schedule|
  {
    if remaining == 0 || p.schedule == [] then PageProgress(data, p, asked)
    else
      var n := Min(remaining, ChunkLimit);
      var next := ReadFrom(p, n);
      PageFrom(next.1, remaining - |next.0|, data + next.0, asked + [n])
  }

  /** The page loop for a page of `pageBytes` bytes from a port in state `p`. */
  function PageRun(p: Port, pageBytes: nat): PageProgress
  {
    PageFrom(p, pageBytes, [], [])
  }

  /**
   * What the page loop does: the page is the front of the stream, never
   * longer than asked for, short only when the schedule is spent, and
   * each read asks for between 1 and 4096 bytes.
   */
  lemma PageRunFacts(p: Port, pageBytes: nat)
    ensures var r := PageRun(p, pageBytes);
            p.incoming == r.data + r.port.incoming &&
            |r.data| <= pageBytes && (|r.data| < pageBytes ==> r.port.schedule == []) &&
            forall i :: 0 <= i < |r.asked| ==> 0 < r.asked[i] <= ChunkLimit
  {
    EmptyPrefix(p.incoming);
    PageFromFacts(p, pageBytes, [], []);
    PageFromAsks(p, pageBytes, [], []);
  }

  /** The page is the front of the stream. */
  lemma PagePrefix(p: Port, pageBytes: nat)
    ensures p.incoming == PageRun(p, pageBytes).data + PageRun(p, pageBytes).port.incoming
  {
    PageRunFacts(p, pageBytes);
  }

  lemma {:induction false} PageFromFacts(p: Port, remaining: nat, data: seq<Byte>, asked: seq<nat>)
    ensures var r := PageFrom(p, remaining, data, asked);
            data + p.incoming == r.data + r.port.incoming &&
            |r.data| <= |data| + remaining && (|r.data| < |data| + remaining ==> r.port.schedule == [])
    decreases |p.schedule|
  {
    if remaining > 0 && p.schedule != [] {
      var next := ReadFrom(p, Min(remaining, ChunkLimit));
      AppendAssoc(data, next.0, next.1.incoming);
      PageFromFacts(next.1, remaining - |next.0|, data + next.0, asked + [Min(remaining, ChunkLimit)]);
    }
  }

  lemma {:induction false} PageFromAsks(p: Port, remaining: nat, data: seq<Byte>, asked: seq<nat>)
    requires forall i :: 0 <= i < |asked| ==> 0 < asked[i] <= ChunkLimit
    ensures forall i :: 0 <= i < |PageFrom(p, remaining, data, asked).asked| ==>
              0 < PageFrom(p, remaining, data, asked).asked[i] <= ChunkLimit
    decreases |p.schedule|
  {
    if remaining > 0 && p.schedule != [] {
      var n := Min(remaining, ChunkLimit);
      var next := ReadFrom(p, n);
      assert 0 < n <= ChunkLimit;
      assert forall i :: 0 <= i < |asked + [n]| ==> 0 < (asked + [n])[i] <= ChunkLimit;
      PageFromAsks(next.1, remaining - |next.0|, data + next.0, asked + [n]);
    }
  }

  /** One read of the page loop, which leaves `remaining'` bytes to come after `data'`. */
  lemma PageStep(p: Port, remaining: nat, data: seq<Byte>, asked: seq<nat>, chunk: seq<Byte>, q: Port,
                 remaining': int, data': seq<Byte>)
    requires remaining > 0 && p.schedule != []
    requires (chunk, q) == ReadFrom(p, Min(remaining, ChunkLimit))
    requires remaining' == remaining - |chunk| && data' == data + chunk
    ensures 0 <= remaining'
    ensures PageFrom(p, remaining, data, asked) == PageFrom(q, remaining', data', asked + [Min(remaining, ChunkLimit)])
  {
  }

  /**
   * The page loop: reads `min(remaining, 4096)` at a time until `pageBytes`
   * bytes have arrived. Where the Python loop would wait forever for data
   * that never comes, `complete` is false.
   */
  method ReadPageData(ser: SerialPort, pageBytes: nat) returns (data: seq<Byte>, complete: bool)
    modifies ser
    ensures var r := PageRun(old(ser.State()), pageBytes);
            data == r.data && ser.State() == r.port && ser.requests == old(ser.requests) + r.asked
    ensures old(ser.incoming) == data + ser.incoming
    ensures |data| <= pageBytes
    ensures complete <==> |data| == pageBytes
    ensures !complete ==> ser.schedule == []
    ensures ser.written == old(ser.written)
  {
    ghost var spec := PageRun(ser.State(), pageBytes);
    ghost var asked: seq<nat> := [];
    data := [];
    var remaining: nat := pageBytes;
    while remaining > 0 && ser.schedule != []
      invariant |data| + remaining == pageBytes
      invariant PageFrom(ser.State(), remaining, data, asked) == spec
      invariant ser.requests == old(ser.requests) + asked
      invariant ser.written == old(ser.written)
      decreases |ser.schedule|
    {
      ghost var before, data0, remaining0 := ser.State(), data, remaining;
      var n := Min(remaining, ChunkLimit);
      var chunk := ser.Read(n);
      if chunk != [] {
        data := data + chunk;
        remaining := remaining - |chunk|;
      }
      PageStep(before, remaining0, data0, asked, chunk, ser.State(), remaining, data);
      AppendAssoc(old(ser.requests), asked, [n]);
      asked := asked + [n];
    }
    PagePrefix(old(ser.State()), pageBytes);
    complete := remaining == 0;
  }

  // ---------------------------------------------------------------------
  // Progress text
  // ---------------------------------------------------------------------

  /**
   * The progress handling of a short read that holds "BLK=": the text split
   * at line feeds, each part scanned in turn.
   */
  method ScanProgress(text: string) returns (r: ProgressScan)
    ensures r == ScanParts(Split(text, '\n'))
  {
    r := ScanEachPart(Split(text, '\n'));
  }

  /**
   * The `for part in ...` loop: each stripped part that starts with "BLK="
   * has its number parsed; the first that does not parse ends the loop.
   */
  method ScanEachPart(parts: seq<string>) returns (r: ProgressScan)
    ensures r == ScanParts(parts)
  {
    var values: seq<int> := [];
    assert parts[..0] == [];
    for i := 0 to |parts|
      invariant ScanParts(parts[..i]) == Blocks(values)
    {
      var part := Strip(parts[i]);
      if StartsWith(part, BlkPrefix) {
        var digits := part[4..];
        var blk := PyHexInt(digits);
        if blk.None? {
          ScanStepRejects(parts, i, values, part, digits);
          ScanPartsStaysBad(parts, i + 1);
          return BadBlockNumber(part);
        }
        ScanStepTakes(parts, i, values, part, digits, blk.value);
        values := values + [blk.value];
      } else {
        ScanStepSkips(parts, i, values, part);
      }
    }
    assert parts[..|parts|] == parts;
    return Blocks(values);
  }

  /** A part that does not start with "BLK=" once stripped: the loop moves on. */
  lemma ScanStepSkips(parts: seq<string>, i: nat, values: seq<int>, stripped: string)
    requires i < |parts| && ScanParts(parts[..i]) == Blocks(values)
    requires stripped == Strip(parts[i]) && !StartsWith(stripped, BlkPrefix)
    ensures ScanParts(parts[..i + 1]) == Blocks(values)
  {
    ScanPartsNext(parts, i);
    ScanPartSkips(values, parts[i], stripped);
  }

  /** A "BLK=" part whose number parses: the loop records it and moves on. */
  lemma ScanStepTakes(parts: seq<string>, i: nat, values: seq<int>, stripped: string, digits: string, v: int)
    requires i < |parts| && ScanParts(parts[..i]) == Blocks(values)
    requires stripped == Strip(parts[i]) && StartsWith(stripped, BlkPrefix)
    requires digits == stripped[4..] && PyHexInt(digits) == Some(v)
    ensures ScanParts(parts[..i + 1]) == Blocks(values + [v])
  {
    ScanPartsNext(parts, i);
    ScanPartTakes(values, parts[i], stripped, digits, v);
  }

  /** A "BLK=" part whose number does not parse: the ValueError is raised on that part. */
  lemma ScanStepRejects(parts: seq<string>, i: nat, values: seq<int>, stripped: string, digits: string)
    requires i < |parts| && ScanParts(parts[..i]) == Blocks(values)
    requires stripped == Strip(parts[i]) && StartsWith(stripped, BlkPrefix)
    requires digits == stripped[4..] && PyHexInt(digits).None?
    ensures ScanParts(parts[..i + 1]) == BadBlockNumber(stripped)
  {
    ScanPartsNext(parts, i);
    ScanPartRejects(values, parts[i], stripped, digits);
  }

  // ---------------------------------------------------------------------
  // capture_dump
  // ---------------------------------------------------------------------

  /** How a capture ends. */
  datatype CaptureEnd =
    | NoDumpStart             // wait_for_line gave up on DUMP_START: nothing is written
    | Finished                // a short read held DUMP_END
    | Stalled                 // the device went quiet; the Python loop would wait forever
    | Crashed(part: string)   // int(part[4:], 16) raised ValueError

  const DumpEndMarker: string := "DUMP_END"
  const ProgressMarker: string := "BLK="

  /** A full header for a page of `|page|` bytes at `start` in `stream`, followed by those bytes. */
  predicate PageAt(stream: seq<Byte>, start: nat, page: seq<Byte>)
  {
    start + 7 + |page| <= |stream| &&
    DecodeHeader(stream[start..start + 7]).Accept? && DecodeHeader(stream[start..start + 7]).pageBytes == |page| &&
    stream[start + 7..start + 7 + |page|] == page
  }

  /**
   * The pages lie one after another in the stream, all before `used`: the
   * last one sits at its start and ends by `used`, and the ones before it
   * end by that start.
   */
  predicate Ordered(stream: seq<Byte>, starts: seq<nat>, pages: seq<seq<Byte>>, used: nat)
  {
    |starts| == |pages| &&
    (pages != [] ==>
       var k := |pages| - 1;
       PageAt(stream, starts[k], pages[k]) && starts[k] + 7 + |pages[k]| <= used &&
       Ordered(stream, starts[..k], pages[..k], starts[k]))
  }

  /** Ordered, page by page: each page sits at its start, before `used`, and ends before the next one starts. */
  lemma {:induction false} OrderedPages(stream: seq<Byte>, starts: seq<nat>, pages: seq<seq<Byte>>, used: nat)
    requires Ordered(stream, starts, pages, used)
    ensures |starts| == |pages|
    ensures forall j :: 0 <= j < |pages| ==> PageAt(stream, starts[j], pages[j]) && starts[j] + 7 + |pages[j]| <= used
    ensures forall j :: 0 < j < |pages| ==> starts[j - 1] + 7 + |pages[j - 1]| <= starts[j]
  {
    if pages != [] {
      var k := |pages| - 1;
      OrderedPages(stream, starts[..k], pages[..k], starts[k]);
    }
  }

  /** What a short header read turns out to hold, once 64 more bytes are read and decoded. */
  datatype TextVerdict =
    | EndSeen                    // "DUMP_END": the capture is over
    | ProgressSeen               // "BLK=" lines, all of whose numbers parse
    | BadProgress(part: string)  // a "BLK=" part whose number int() rejects
    | Unexpected                 // anything else: reported and skipped

  /** The verdict on the decoded text of a short read and the 64 bytes after it. */
  function TextVerdictOf(text: string): TextVerdict
  {
    if Contains(text, DumpEndMarker) then EndSeen
    else if Contains(text, ProgressMarker) then
      match ScanParts(Split(text, '\n'))
      case BadBlockNumber(part) => BadProgress(part)
      case Blocks(_) => ProgressSeen
    else Unexpected
  }

  /**
   * The short-read branch: 64 more bytes are read after the `head` already
   * received, the whole decoded as text, and checked for DUMP_END, then
   * for "BLK=" progress lines.
   */
  method ReadText(ser: SerialPort, head: seq<Byte>) returns (verdict: TextVerdict, more: seq<Byte>)
    modifies ser
    ensures (more, ser.State()) == ReadFrom(old(ser.State()), 64)
    ensures ser.requests == old(ser.requests) + [64]
    ensures verdict == TextVerdictOf(Decode(head + more))
    ensures old(ser.incoming) == more + ser.incoming && |more| <= 64
    ensures |ser.schedule| <= |old(ser.schedule)|
    ensures verdict.EndSeen? <==> Contains(Decode(head + more), DumpEndMarker)
    ensures verdict.Unexpected? <==>
              !Contains(Decode(head + more), DumpEndMarker) && !Contains(Decode(head + more), ProgressMarker)
    ensures verdict.BadProgress? <==>
              !Contains(Decode(head + more), DumpEndMarker) && Contains(Decode(head + more), ProgressMarker) &&
              ScanParts(Split(Decode(head + more), '\n')).BadBlockNumber?
    ensures verdict.BadProgress? ==> StartsWith(verdict.part, BlkPrefix) && PyHexInt(verdict.part[4..]).None?
    ensures ser.written == old(ser.written)
  {
    more := ser.Read(64);
    var text := Decode(head + more);
    if Contains(text, DumpEndMarker) {
      return EndSeen, more;
    }
    if Contains(text, ProgressMarker) {
      var scan := ScanProgress(text);
      if scan.BadBlockNumber? {
        ScanPartsBadIsGenuine(Split(text, '\n'));
        return BadProgress(scan.part), more;
      }
      return ProgressSeen, more;
    }
    return Unexpected, more;
  }

  /** One pass of the capture loop, as the bytes it read show it. */
  datatype Frame =
    | Text(head: seq<Byte>, more: seq<Byte>, verdict: TextVerdict)  // a short header read, the 64-byte read after it, the verdict on them
    | Skipped(hdr: seq<Byte>)                   // a full header that is an ERR marker or has a bad length
    | Page(hdr: seq<Byte>, data: seq<Byte>)     // an accepted header and its complete payload
    | Partial(hdr: seq<Byte>, data: seq<Byte>)  // an accepted header whose payload stopped coming

  /** The bytes a pass read. */
  function FrameBytes(f: Frame): seq<Byte>
  {
    match f
    case Text(head, more, _) => head + more
    case Skipped(hdr) => hdr
    case Page(hdr, data) => hdr + data
    case Partial(hdr, data) => hdr + data
  }

  /** Everything the passes read, in order. */
  function StreamOf(frames: seq<Frame>): seq<Byte>
  {
    if frames == [] then [] else StreamOf(frames[..|frames| - 1]) + FrameBytes(frames[|frames| - 1])
  }

  /** The payloads of the complete pages, in order: what the capture writes to the file. */
  function PagesOf(frames: seq<Frame>): seq<seq<Byte>>
  {
    if frames == [] then []
    else
      var last := frames[|frames| - 1];
      PagesOf(frames[..|frames| - 1]) + if last.Page? then [last.data] else []
  }

  /** Where the header of each complete page starts in the stream. */
  function PageStarts(frames: seq<Frame>): seq<nat>
  {
    if frames == [] then []
    else
      var earlier := frames[..|frames| - 1];
      PageStarts(earlier) + if frames[|frames| - 1].Page? then [|StreamOf(earlier)|] else []
  }

  /** One more pass at the end. */
  lemma FramesAppend(frames: seq<Frame>, f: Frame)
    ensures StreamOf(frames + [f]) == StreamOf(frames) + FrameBytes(f)
    ensures PagesOf(frames + [f]) == PagesOf(frames) + if f.Page? then [f.data] else []
    ensures PageStarts(frames + [f]) == PageStarts(frames) + if f.Page? then [|StreamOf(frames)|] else []
  {
    assert (frames + [f])[..|frames|] == frames;
  }

  /** One pass of the capture loop: what it read, whether it ended the loop and how, the port after it, the sizes it asked for. */
  datatype Pass = Pass(frame: Frame, end: Option<CaptureEnd>, port: Port, asked: seq<nat>)

  /**
   * One pass of the capture loop from a port in state `p`. It reads 7
   * bytes. A short read is followed by a 64-byte read and the text is
   * judged: DUMP_END finishes, a bad block number crashes, anything else
   * goes on. A full header that is not accepted is skipped. An accepted
   * one has its page read; a page that stops coming stalls the loop, a
   * complete one is kept.
   */
  function PassFrom(p: Port): (s: Pass)
    ensures |s.port.schedule| <= |p.schedule| && (p.schedule != [] ==> |s.port.schedule| < |p.schedule|)
  {
    var h := ReadFrom(p, 7);
    var hdr := h.0;
    if |hdr| < 7 then
      var t := ReadFrom(h.1, 64);
      var verdict := TextVerdictOf(Decode(hdr + t.0));
      var end := match verdict
        case EndSeen => Some(Finished)
        case BadProgress(part) => Some(Crashed(part))
        case _ => None;
      Pass(Text(hdr, t.0, verdict), end, t.1, [7, 64])
    else if !DecodeHeader(hdr).Accept? then
      Pass(Skipped(hdr), None, h.1, [7])
    else
      var page := PageRun(h.1, DecodeHeader(hdr).pageBytes);
      if |page.data| < DecodeHeader(hdr).pageBytes then
        Pass(Partial(hdr, page.data), Some(Stalled), page.port, [7] + page.asked)
      else
        Pass(Page(hdr, page.data), None, page.port, [7] + page.asked)
  }

  /**
   * What one pass does: it reads the front of the stream; a text pass
   * carries the verdict on its own bytes; a pass that ends the loop is one
   * Ends allows, and any other pass is one GoesOn allows.
   */
  lemma PassFacts(p: Port)
    ensures p.incoming == FrameBytes(PassFrom(p).frame) + PassFrom(p).port.incoming
    ensures Judged(PassFrom(p).frame)
    ensures PassFrom(p).end.None? ==> GoesOn(PassFrom(p).frame)
    ensures PassFrom(p).end.Some? ==> Ends(PassFrom(p).frame, PassFrom(p).end.value)
  {
    var h := ReadFrom(p, 7);
    if |h.0| == 7 && DecodeHeader(h.0).Accept? {
      PageRunFacts(h.1, DecodeHeader(h.0).pageBytes);
      AppendAssoc(h.0, PageRun(h.1, DecodeHeader(h.0).pageBytes).data, PassFrom(p).port.incoming);
    } else if |h.0| < 7 {
      AppendAssoc(h.0, ReadFrom(h.1, 64).0, PassFrom(p).port.incoming);
    }
  }

  /** How the capture loop ends from some state: its passes, its end, the port, the sizes asked for. */
  datatype Capture = Capture(frames: seq<Frame>, end: CaptureEnd, port: Port, asked: seq<nat>)

  /**
   * The capture loop from a port in state `p`, after the passes `frames`
   * that asked for `asked`: pass after pass until one ends it, stalling
   * when the schedule is spent.
   */
  function CaptureFrom(p: Port, frames: seq<Frame>, asked: seq<nat>): (c: Capture)
    decreases |p.schedule|
  {
    if p.schedule == [] then Capture(frames, Stalled, p, asked)
    else
      var s := PassFrom(p);
      if s.end.Some? then Capture(frames + [s.frame], s.end.value, s.port, asked + s.asked)
      else CaptureFrom(s.port, frames + [s.frame], asked + s.asked)
  }

  /** The capture loop from a port in state `p`. */
  function CaptureRun(p: Port): Capture
  {
    CaptureFrom(p, [], [])
  }

  /** One pass that ends in `s`, spelled out. */
  lemma CaptureUnfold(p: Port, frames: seq<Frame>, asked: seq<nat>, s: Pass, frames': seq<Frame>, asked': seq<nat>)
    requires p.schedule != [] && s == PassFrom(p) && frames' == frames + [s.frame] && asked' == asked + s.asked
    ensures s.end.None? ==> CaptureFrom(p, frames, asked) == CaptureFrom(s.port, frames', asked')
    ensures s.end.Some? ==> CaptureFrom(p, frames, asked) == Capture(frames', s.end.value, s.port, asked')
  {
  }

  /**
   * The loop would have gone on after this pass: a full header that was
   * not accepted, a complete page, or a text that neither finished nor
   * crashed the capture.
   */
  predicate GoesOn(f: Frame)
  {
    match f
    case Text(head, more, verdict) => |head| < 7 && |more| <= 64 && (verdict.ProgressSeen? || verdict.Unexpected?)
    case Skipped(hdr) => |hdr| == 7 && !DecodeHeader(hdr).Accept?
    case Page(hdr, data) => |hdr| == 7 && DecodeHeader(hdr).Accept? && |data| == DecodeHeader(hdr).pageBytes
    case Partial(_, _) => false
  }

  /** This pass ended the capture with `end`. */
  predicate Ends(f: Frame, end: CaptureEnd)
  {
    match end
    case Finished => f.Text? && |f.head| < 7 && |f.more| <= 64 && f.verdict.EndSeen?
    case Crashed(part) => f.Text? && |f.head| < 7 && |f.more| <= 64 && f.verdict == BadProgress(part)
    case Stalled =>
      f.Partial? && |f.hdr| == 7 && DecodeHeader(f.hdr).Accept? && |f.data| < DecodeHeader(f.hdr).pageBytes
    case NoDumpStart => false
  }

  /**
   * The passes of `c` begin with `frames`; each later pass but the last
   * would have let the loop go on, and the last either would too or is the
   * one that ended it. The loop finishes on a text holding DUMP_END,
   * crashes on a bad block number, and otherwise stalls because a page
   * stopped coming or the schedule is spent.
   */
  predicate Shaped(frames: seq<Frame>, c: Capture)
  {
    |frames| <= |c.frames| && c.frames[..|frames|] == frames &&
    (|frames| < |c.frames| ==>
       AllGoOn(c.frames[..|c.frames| - 1]) &&
       (GoesOn(c.frames[|c.frames| - 1]) || Ends(c.frames[|c.frames| - 1], c.end))) &&
    (c.end.Finished? || c.end.Crashed? ==> |frames| < |c.frames| && Ends(c.frames[|c.frames| - 1], c.end)) &&
    (c.end.Stalled? ==> c.port.schedule == [] || (|frames| < |c.frames| && Ends(c.frames[|c.frames| - 1], c.end))) &&
    !c.end.NoDumpStart?
  }

  /** Every pass in `frames` would have let the loop go on. */
  predicate AllGoOn(frames: seq<Frame>)
  {
    frames == [] || (AllGoOn(frames[..|frames| - 1]) && GoesOn(frames[|frames| - 1]))
  }

  /** A text pass carries the verdict on the bytes it read. */
  predicate Judged(f: Frame)
  {
    f.Text? ==> f.verdict == TextVerdictOf(Decode(f.head + f.more))
  }

  /** Every text pass in `frames` carries the verdict on its own bytes. */
  predicate AllJudged(frames: seq<Frame>)
  {
    frames == [] || (AllJudged(frames[..|frames| - 1]) && Judged(frames[|frames| - 1]))
  }

  /**
   * How the capture loop runs: it reads the front of the stream, pass by
   * pass, as Shaped says, and each text pass is judged on its own bytes.
   */
  lemma CaptureRunFacts(p: Port)
    ensures p.incoming == StreamOf(CaptureRun(p).frames) + CaptureRun(p).port.incoming
    ensures Shaped([], CaptureRun(p))
    ensures AllJudged(CaptureRun(p).frames)
  {
    EmptyPrefix(p.incoming);
    CaptureFromFacts(p, [], []);
  }

  lemma {:induction false} CaptureFromFacts(p: Port, frames: seq<Frame>, asked: seq<nat>)
    requires AllGoOn(frames) && AllJudged(frames)
    ensures StreamOf(frames) + p.incoming ==
            StreamOf(CaptureFrom(p, frames, asked).frames) + CaptureFrom(p, frames, asked).port.incoming
    ensures Shaped(frames, CaptureFrom(p, frames, asked))
    ensures AllJudged(CaptureFrom(p, frames, asked).frames)
    decreases |p.schedule|
  {
    if p.schedule != [] {
      var s := PassFrom(p);
      var frames', asked' := frames + [s.frame], asked + s.asked;
      var c := CaptureFrom(p, frames, asked);
      PassFacts(p);
      CaptureUnfold(p, frames, asked, s, frames', asked');
      CaptureStep(frames, s.frame, p.incoming, s.port.incoming);
      JudgedGrown(frames, s.frame);
      if s.end.None? {
        Grown(frames, s.frame);
        CaptureFromFacts(s.port, frames', asked');
        ShapedLater(frames, s.frame, c);
      } else {
        EndShape(frames, s.frame, c);
      }
    }
  }

  /** A pass that ended the loop is its last. */
  lemma EndShape(frames: seq<Frame>, f: Frame, c: Capture)
    requires AllGoOn(frames) && c.frames == frames + [f] && Ends(f, c.end)
    ensures Shaped(frames, c)
  {
    assert c.frames[..|frames|] == frames && c.frames[..|c.frames| - 1] == frames;
  }

  /** One more pass that let the loop go on keeps every pass so far going on. */
  lemma Grown(frames: seq<Frame>, f: Frame)
    ensures AllGoOn(frames) && GoesOn(f) ==> AllGoOn(frames + [f])
  {
    assert (frames + [f])[..|frames|] == frames;
  }

  /** One more judged pass keeps every pass so far judged. */
  lemma JudgedGrown(frames: seq<Frame>, f: Frame)
    ensures AllJudged(frames) && Judged(f) ==> AllJudged(frames + [f])
  {
    assert (frames + [f])[..|frames|] == frames;
  }

  /** What holds after one more pass holds after the passes before it. */
  lemma ShapedLater(frames: seq<Frame>, f: Frame, c: Capture)
    requires AllGoOn(frames) && GoesOn(f) && Shaped(frames + [f], c)
    ensures Shaped(frames, c)
  {
    var n := |frames|;
    assert c.frames[..n + 1] == frames + [f];
    assert c.frames[n] == f;
    assert c.frames[..n] == frames by {
      assert c.frames[..n] == c.frames[..n + 1][..n];
    }
  }

  /** A pass that read the front of the rest of the stream: the passes so far read one more frame. */
  lemma CaptureStep(frames: seq<Frame>, f: Frame, before: seq<Byte>, after: seq<Byte>)
    requires before == FrameBytes(f) + after
    ensures StreamOf(frames) + before == StreamOf(frames + [f]) + after
  {
    FramesAppend(frames, f);
    AppendAssoc(StreamOf(frames), FrameBytes(f), after);
  }

  /**
   * The `while True` loop of capture_dump: it runs as CaptureRun says
   * (whose passes CaptureRunOutcome describes), and the file it writes is
   * the payloads of the complete pages, in order. `bytesCaptured` is the
   * file's length and `pagesCaptured` the number of pages in it.
   */
  method CaptureLoop(ser: SerialPort)
    returns (outcome: CaptureEnd, file: seq<Byte>, pagesCaptured: nat, bytesCaptured: nat, ghost frames: seq<Frame>)
    modifies ser
    ensures var c := CaptureRun(old(ser.State()));
            frames == c.frames && outcome == c.end && ser.State() == c.port &&
            ser.requests == old(ser.requests) + c.asked
    ensures file == Flatten(PagesOf(frames)) && bytesCaptured == |file| && pagesCaptured == |PagesOf(frames)|
    ensures ser.written == old(ser.written)
  {
    ghost var spec := CaptureRun(ser.State());
    ghost var asked: seq<nat> := [];
    file, pagesCaptured, bytesCaptured := [], 0, 0;
    frames := [];
    while ser.schedule != []
      invariant CaptureFrom(ser.State(), frames, asked) == spec
      invariant ser.requests == old(ser.requests) + asked
      invariant file == Flatten(PagesOf(frames)) && bytesCaptured == |file| && pagesCaptured == |PagesOf(frames)|
      invariant ser.written == old(ser.written)
      decreases |ser.schedule|
    {
      ghost var before := ser.State();
      var f, end, more := CapturePass(ser);
      CaptureUnfold(before, frames, asked, PassFrom(before), frames + [f], asked + more);
      FramesAppend(frames, f);
      AppendAssoc(old(ser.requests), asked, more);
      if f.Page? {
        FlattenAppend(PagesOf(frames), f.data);
        file := file + f.data;
        pagesCaptured := pagesCaptured + 1;
        bytesCaptured := bytesCaptured + |f.data|;
      } else {
        assert PagesOf(frames + [f]) == PagesOf(frames) + [] == PagesOf(frames);
      }
      frames, asked := frames + [f], asked + more;
      if end.Some? {
        return end.value, file, pagesCaptured, bytesCaptured, frames;
      }
    }
    return Stalled, file, pagesCaptured, bytesCaptured, frames;
  }

  /**
   * One pass of the capture loop: the 7-byte header read and whatever
   * follows it, as the pass `f`; `end` says whether the pass ended the
   * loop, and how.
   */
  method CapturePass(ser: SerialPort) returns (f: Frame, end: Option<CaptureEnd>, ghost more: seq<nat>)
    requires ser.schedule != []
    modifies ser
    ensures PassFrom(old(ser.State())) == Pass(f, end, ser.State(), more)
    ensures ser.requests == old(ser.requests) + more
    ensures ser.written == old(ser.written)
  {
    var hdr := ser.Read(7);
    if |hdr| < 7 {
      var verdict, text := ReadText(ser, hdr);
      f, more := Text(hdr, text, verdict), [7, 64];
      assert old(ser.requests) + [7] + [64] == old(ser.requests) + more;
      end := match verdict
        case EndSeen => Some(Finished)
        case BadProgress(part) => Some(Crashed(part))
        case _ => None;
      return;
    }
    var verdict := DecodeHeader(hdr);
    if verdict.PageError? || verdict.BadLength? {
      f, end, more := Skipped(hdr), None, [7];
      return;
    }
    ghost var mid := ser.State();
    var data, complete := ReadPageData(ser, verdict.pageBytes);
    more := [7] + PageRun(mid, verdict.pageBytes).asked;
    AppendAssoc(old(ser.requests), [7], PageRun(mid, verdict.pageBytes).asked);
    if complete {
      f, end := Page(hdr, data), None;
    } else {
      f, end := Partial(hdr, data), Some(Stalled);
    }
  }

  /**
   * What capture_dump's loop promises, from a port in state `p`: it reads
   * the front of the stream pass by pass as Shaped says; it finishes,
   * stalls or crashes, and a crash names a genuine bad block number; the
   * complete pages lie in order in the stream.
   */
  lemma CaptureRunOutcome(p: Port)
    ensures var c := CaptureRun(p);
            p.incoming == StreamOf(c.frames) + c.port.incoming && Shaped([], c) &&
            (c.end.Finished? || c.end.Stalled? || c.end.Crashed?) &&
            (c.end.Crashed? ==> StartsWith(c.end.part, BlkPrefix) && PyHexInt(c.end.part[4..]).None?) &&
            Ordered(p.incoming, PageStarts(c.frames), PagesOf(c.frames), |StreamOf(c.frames)|)
  {
    var c := CaptureRun(p);
    CaptureRunFacts(p);
    if c.end.Crashed? {
      var last := c.frames[|c.frames| - 1];
      assert AllJudged(c.frames);
      assert last.verdict == TextVerdictOf(Decode(last.head + last.more));
      TextVerdictGenuine(Decode(last.head + last.more));
    }
    ShapedOrdered(c, p.incoming);
  }

  /** A bad progress verdict names a genuine bad block number. */
  lemma TextVerdictGenuine(text: string)
    ensures TextVerdictOf(text).BadProgress? ==>
              StartsWith(TextVerdictOf(text).part, BlkPrefix) && PyHexInt(TextVerdictOf(text).part[4..]).None?
  {
    ScanPartsBadIsGenuine(Split(text, '\n'));
  }

  /** The complete pages of a capture run lie in order in any stream its bytes begin. */
  lemma ShapedOrdered(c: Capture, stream: seq<Byte>)
    requires Shaped([], c) && StreamOf(c.frames) <= stream
    ensures Ordered(stream, PageStarts(c.frames), PagesOf(c.frames), |StreamOf(c.frames)|)
  {
    if c.frames != [] {
      var init, last := c.frames[..|c.frames| - 1], c.frames[|c.frames| - 1];
      assert c.frames == init + [last];
      assert AllGoOn(init) && (last.Page? ==> GoesOn(last));
      FramesAppend(init, last);
      AllGoOnOrdered(init, stream);
      LastOrdered(init, last, stream);
    }
  }

  /** Passes that all let the loop go on keep their complete pages in order in the stream. */
  lemma {:induction false} AllGoOnOrdered(frames: seq<Frame>, stream: seq<Byte>)
    requires AllGoOn(frames) && StreamOf(frames) <= stream
    ensures Ordered(stream, PageStarts(frames), PagesOf(frames), |StreamOf(frames)|)
  {
    if frames != [] {
      var init, last := frames[..|frames| - 1], frames[|frames| - 1];
      assert frames == init + [last];
      FramesAppend(init, last);
      AllGoOnOrdered(init, stream);
      LastOrdered(init, last, stream);
    }
  }

  /** A last pass keeps the pages in order: a complete page is one more in order, any other pass adds none. */
  lemma LastOrdered(init: seq<Frame>, last: Frame, stream: seq<Byte>)
    requires last.Page? ==> GoesOn(last)
    requires StreamOf(init + [last]) <= stream
    requires Ordered(stream, PageStarts(init), PagesOf(init), |StreamOf(init)|)
    ensures Ordered(stream, PageStarts(init + [last]), PagesOf(init + [last]), |StreamOf(init + [last])|)
  {
    if last.Page? {
      PageOrdered(init, last, stream);
    } else {
      OtherOrdered(init, last, stream);
    }
  }

  lemma PageOrdered(init: seq<Frame>, last: Frame, stream: seq<Byte>)
    requires last.Page? && GoesOn(last)
    requires StreamOf(init + [last]) <= stream
    requires Ordered(stream, PageStarts(init), PagesOf(init), |StreamOf(init)|)
    ensures Ordered(stream, PageStarts(init + [last]), PagesOf(init + [last]), |StreamOf(init + [last])|)
  {
    FramesAppend(init, last);
    AppendAssoc(StreamOf(init), last.hdr, last.data);
    var rest := stream[|StreamOf(init + [last])|..];
    PrefixRest(StreamOf(init + [last]), stream);
    PageAfter(PageStarts(init), PagesOf(init), StreamOf(init), last.hdr, last.data, rest, stream);
  }

  /** An accepted header and its whole page right after the bytes `a` extend the pages in order. */
  lemma PageAfter(starts: seq<nat>, pages: seq<seq<Byte>>, a: seq<Byte>, hdr: seq<Byte>, data: seq<Byte>,
                  rest: seq<Byte>, stream: seq<Byte>)
    requires Ordered(stream, starts, pages, |a|) && stream == ((a + hdr) + data) + rest
    requires |hdr| == 7 && DecodeHeader(hdr).Accept? && |data| == DecodeHeader(hdr).pageBytes
    ensures Ordered(stream, starts + [|a|], pages + [data], |a| + 7 + |data|)
  {
    PrefixSlices(a, hdr, data, rest, stream);
    PageAppended(stream, starts, pages, |a|, hdr, data, DecodeHeader(hdr));
  }

  lemma OtherOrdered(init: seq<Frame>, last: Frame, stream: seq<Byte>)
    requires !last.Page?
    requires Ordered(stream, PageStarts(init), PagesOf(init), |StreamOf(init)|)
    ensures Ordered(stream, PageStarts(init + [last]), PagesOf(init + [last]), |StreamOf(init + [last])|)
  {
    FramesAppend(init, last);
    assert PagesOf(init + [last]) == PagesOf(init) + [] == PagesOf(init);
    assert PageStarts(init + [last]) == PageStarts(init) + [] == PageStarts(init);
    OrderedLater(stream, PageStarts(init), PagesOf(init), |StreamOf(init)|, |StreamOf(init + [last])|);
  }

  /** Where `stream` is `a + hdr + data` followed by `rest`, the 7 bytes of `hdr` and then `data` sit right after `a`. */
  lemma PrefixSlices(a: seq<Byte>, hdr: seq<Byte>, data: seq<Byte>, rest: seq<Byte>, stream: seq<Byte>)
    requires stream == ((a + hdr) + data) + rest && |hdr| == 7
    ensures |a| + 7 + |data| <= |stream|
    ensures hdr == stream[|a|..|a| + 7] && data == stream[|a| + 7..|a| + 7 + |data|]
  {
    var whole := (a + hdr) + data;
    assert stream[..|whole|] == whole;
    assert stream[|a|..|a| + 7] == whole[|a|..|a| + 7];
    assert stream[|a| + 7..|a| + 7 + |data|] == whole[|a| + 7..|a| + 7 + |data|];
  }

  /** A prefix of `stream` followed by the rest of `stream` is `stream`. */
  lemma PrefixRest(x: seq<Byte>, stream: seq<Byte>)
    requires x <= stream
    ensures stream == x + stream[|x|..]
  {
    assert stream[..|x|] == x;
  }

  /** Reading on past the pages keeps them in order and before the new position. */
  lemma OrderedLater(stream: seq<Byte>, starts: seq<nat>, pages: seq<seq<Byte>>, used: nat, later: nat)
    requires Ordered(stream, starts, pages, used) && used <= later
    ensures Ordered(stream, starts, pages, later)
  {
  }

  /** A page read in full after the earlier ones extends them in order. */
  lemma PageAppended(stream: seq<Byte>, starts: seq<nat>, pages: seq<seq<Byte>>, start: nat,
                     hdr: seq<Byte>, data: seq<Byte>, verdict: HeaderVerdict)
    requires Ordered(stream, starts, pages, start)
    requires |hdr| == 7 && start + 7 + |data| <= |stream|
    requires hdr == stream[start..start + 7] && data == stream[start + 7..start + 7 + |data|]
    requires verdict == DecodeHeader(hdr) && verdict.Accept? && |data| == verdict.pageBytes
    ensures Ordered(stream, starts + [start], pages + [data], start + 7 + |data|)
  {
    PageFound(stream, start, hdr, data, verdict);
    assert (starts + [start])[..|starts|] == starts && (pages + [data])[..|pages|] == pages;
  }

  /** An accepted header read at `start` and its complete payload make a page at `start`. */
  lemma PageFound(origin: seq<Byte>, start: nat, hdr: seq<Byte>, data: seq<Byte>, verdict: HeaderVerdict)
    requires |hdr| == 7 && start + 7 + |data| <= |origin|
    requires hdr == origin[start..start + 7] && data == origin[start + 7..start + 7 + |data|]
    requires verdict == DecodeHeader(hdr) && verdict.Accept? && |data| == verdict.pageBytes
    ensures PageAt(origin, start, data)
  {
    assert origin[start + 4..start + 7] == hdr[4..];
  }

  /** One more page at the end of the file. */
  lemma FlattenAppend(pages: seq<seq<Byte>>, page: seq<Byte>)
    ensures Flatten(pages + [page]) == Flatten(pages) + page
  {
    assert (pages + [page])[..|pages|] == pages;
  }

  /**
   * capture_dump: sends 'D', waits for DUMP_START and then for the geometry
   * line, then runs the capture loop on what follows. The geometry wait
   * uses the target that can match a stripped line (see
   * AsWrittenGeometryTargetNeverMatches). `startCalls` and `geometryCalls`
   * are the reads each wait made.
   */
  method CaptureDump(ser: SerialPort, startBudget: nat, geometryBudget: nat)
    returns (outcome: CaptureEnd, file: seq<Byte>, pagesCaptured: nat, bytesCaptured: nat,
             ghost startLines: seq<Byte>, ghost geometryLines: seq<Byte>, ghost startCalls: nat, ghost geometryCalls: nat,
             ghost frames: seq<Frame>, ghost pages: seq<seq<Byte>>, ghost starts: seq<nat>, ghost read: seq<Byte>)
    modifies ser
    ensures ser.written == old(ser.written) + [DumpCommand]
    ensures var s := ReadRun(old(ser.State()), 256, startCalls);
            startLines == s.0 && Waited(old(ser.State()), DumpStartTarget, startBudget, startCalls) &&
            (outcome.NoDumpStart? ==>
               ser.State() == s.1 && ser.requests == old(ser.requests) + Repeat(256, startCalls)) &&
            (!outcome.NoDumpStart? ==>
               var g := ReadRun(s.1, 256, geometryCalls);
               var c := CaptureRun(g.1);
               Waited(s.1, GeometryTarget, geometryBudget, geometryCalls) && geometryLines == g.0 &&
               frames == c.frames && outcome == c.end && ser.State() == c.port && Shaped([], c) &&
               ser.requests == old(ser.requests) + Repeat(256, startCalls) + Repeat(256, geometryCalls) + c.asked)
    ensures read == StreamOf(frames) && pages == PagesOf(frames) && starts == PageStarts(frames)
    ensures old(ser.incoming) == startLines + geometryLines + read + ser.incoming
    ensures outcome.NoDumpStart? <==> FirstMatching(Lines(startLines), DumpStartTarget).None?
    ensures outcome.NoDumpStart? ==> geometryLines == [] && frames == [] && file == []
    ensures outcome.Crashed? ==> StartsWith(outcome.part, BlkPrefix) && PyHexInt(outcome.part[4..]).None?
    ensures file == Flatten(pages) && bytesCaptured == |file| && pagesCaptured == |pages|
    ensures Ordered(read + ser.incoming, starts, pages, |read|)
  {
    ser.Write([DumpCommand]);
    var line;
    line, startLines, startCalls := WaitForLine(ser, DumpStartTarget, startBudget);
    if line.None? {
      outcome, file, pagesCaptured, bytesCaptured := NoDumpStart, [], 0, 0;
      geometryLines, geometryCalls, frames, pages, starts, read := [], 0, [], [], [], [];
      Regroup4(startLines, [], [], ser.incoming);
      return;
    }
    var geometry;
    geometry, geometryLines, geometryCalls := WaitForLine(ser, GeometryTarget, geometryBudget);
    ghost var before := ser.State();
    outcome, file, pagesCaptured, bytesCaptured, frames := CaptureLoop(ser);
    CaptureRunOutcome(before);
    pages, starts, read := PagesOf(frames), PageStarts(frames), StreamOf(frames);
    Regroup4(startLines, geometryLines, read, ser.incoming);
  }

  lemma Regroup4<T>(a: seq<T>, b: seq<T>, c: seq<T>, d: seq<T>)
    ensures a + (b + (c + d)) == a + b + c + d
  {
  }

  /** The command byte 'D'. */
  const DumpCommand: Byte := 0x44

  const DumpStartTarget: string := "DUMP_START"
}
