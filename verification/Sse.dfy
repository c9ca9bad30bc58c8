/** The server-sent event stream: the server's writer and the client's line-by-line reader. */
module Sse {
  import opened Text
  import opened Api

  // ----- What the stream asks of the encoding -----

  /** The JSON encoding of an event's key, value and revision. The event type is not part of it. */
  datatype Codec = Codec(encode: WatchEvent -> string, decode: string -> Option<WatchEvent>)

  /** An event the server can emit. */
  predicate Sendable(e: WatchEvent) {
    !e.kind.EventInvalid? && IsInt64(e.revision)
  }

  /** What the stream needs of it: one non-empty line, decodable whole and not when cut short. */
  ghost predicate Lawful(c: Codec) {
    forall e: WatchEvent :: Sendable(e) ==> LawfulOn(c, e)
  }

  ghost predicate LawfulOn(c: Codec, e: WatchEvent) {
    && c.encode(e) != "" && Clean(c.encode(e))
    && c.decode(c.encode(e)) == Some(e.(kind := EventInvalid))
    && forall k :: 0 <= k < |c.encode(e)| ==> c.decode(c.encode(e)[..k]) == None
  }

  /** No line breaks inside. */
  predicate Clean(s: string) {
    forall i :: 0 <= i < |s| ==> s[i] != '\n' && s[i] != '\r'
  }

  // ----- The writer -----

  function EventName(kind: EventType): string {
    match kind
    case EventPut => "put"
    case EventDelete => "delete"
    case EventInvalid => ""
  }

  function TypeFromName(name: string): Option<EventType> {
    if name == "put" then Some(EventPut) else if name == "delete" then Some(EventDelete) else None
  }

  const EVENT := "event: "
  const ID := "id: "
  const DATA := "data: "

  /** The four lines of one event; the last is empty. */
  function EventLines(c: Codec, e: WatchEvent): (r: seq<string>)
    ensures |r| == 4
  {
    [EVENT + EventName(e.kind), ID + FormatInt(e.revision), DATA + c.encode(e), ""]
  }

  function Join(lines: seq<string>): string {
    if lines == [] then "" else lines[0] + "\n" + Join(lines[1..])
  }

  function WriteSse(c: Codec, e: WatchEvent): string {
    EVENT + EventName(e.kind) + "\n" + ID + FormatInt(e.revision) + "\n" + DATA + c.encode(e) + "\n" + "\n"
  }

  function WriteAll(c: Codec, events: seq<WatchEvent>): string {
    if events == [] then "" else WriteSse(c, events[0]) + WriteAll(c, events[1..])
  }

  // ----- The scanner -----

  /** The longest line, in bytes, that `bufio.Scanner` with its 64 KiB buffer returns. */
  const MAX_LINE := 0xFFFF

  function CharBytes(c: char): nat {
    var n := c as int;
    if n < 0x80 then 1 else if n < 0x800 then 2 else if n < 0x1_0000 then 3 else 4
  }

  function ByteLen(s: string): nat {
    if s == "" then 0 else CharBytes(s[0]) + ByteLen(s[1..])
  }

  function BreakAt(s: string): (i: nat)
    ensures i <= |s| && '\n' !in s[..i] && (i < |s| ==> s[i] == '\n')
  {
    if s == "" then 0 else if s[0] == '\n' then 0
    else
      var i := BreakAt(s[1..]);
      assert s[..1 + i] == [s[0]] + s[1..][..i];
      1 + i
  }

  function DropCr(s: string): string {
    if s != "" && s[|s| - 1] == '\r' then s[..|s| - 1] else s
  }

  /** The next line and what follows it; none at the end of the text or at a line that is too long. */
  function NextLine(s: string): (r: Option<(string, string)>)
    ensures r.Some? ==> |r.value.1| < |s|
  {
    var i := BreakAt(s);
    if s == "" || ByteLen(s[..i]) > MAX_LINE then None
    else Some((DropCr(s[..i]), if i < |s| then s[i + 1..] else ""))
  }

  function ScanLines(s: string): seq<string>
    decreases |s|
  {
    match NextLine(s)
    case None => []
    case Some((line, rest)) => [line] + ScanLines(rest)
  }

  // ----- The reader -----

  datatype Reader = Reader(kind: string, id: string, data: string, out: seq<WatchEvent>)

  function Fresh(out: seq<WatchEvent>): Reader {
    Reader("", "", "", out)
  }

  /** `flushEvent`: emit an event if type and data are there and make sense. */
  function Flush(c: Codec, r: Reader): Reader {
    if r.kind == "" || r.data == "" then r
    else match (TypeFromName(r.kind), c.decode(r.data))
      case (Some(kind), Some(e)) =>
        var revision := match ParseInt(r.id) case Some(n) => (if n > 0 then n else e.revision) case None => e.revision;
        r.(out := r.out + [e.(kind := kind, revision := revision)])
      case _ => r
  }

  function ReadLine(c: Codec, r: Reader, line: string): Reader {
    if line == "" then Fresh(Flush(c, r).out)
    else if EVENT <= line then r.(kind := line[|EVENT|..])
    else if ID <= line then r.(id := line[|ID|..])
    else if DATA <= line then r.(data := line[|DATA|..])
    else r
  }

  function ReadLines(c: Codec, r: Reader, lines: seq<string>): Reader
    decreases |lines|
  {
    if lines == [] then r else ReadLines(c, ReadLine(c, r, lines[0]), lines[1..])
  }

  function Read(c: Codec, text: string): seq<WatchEvent> {
    Flush(c, ReadLines(c, Fresh([]), ScanLines(text))).out
  }

  /** `readSSE`: the client's loop over the response body. */
  method ReadSse(c: Codec, body: string) returns (out: seq<WatchEvent>)
    ensures out == Read(c, body)
  {
    var r, rest := Fresh([]), body;
    var next := NextLine(rest);
    while next.Some?
      invariant next == NextLine(rest)
      invariant ReadLines(c, r, ScanLines(rest)) == ReadLines(c, Fresh([]), ScanLines(body))
      decreases |rest|
    {
      var (line, tail) := next.value;
      assert ScanLines(rest)[1..] == ScanLines(tail);
      if line == "" {
        r := Flush(c, r);
        r := Reader("", "", "", r.out);
      } else if EVENT <= line {
        r := r.(kind := line[|EVENT|..]);
      } else if ID <= line {
        r := r.(id := line[|ID|..]);
      } else if DATA <= line {
        r := r.(data := line[|DATA|..]);
      }
      rest := tail;
      next := NextLine(rest);
    }
    r := Flush(c, r);
    out := r.out;
  }

  // ----- Scanning what was joined -----

  function Fits(line: string): bool {
    ByteLen(line) <= MAX_LINE
  }

  /** The lines up to the first one that is too long. */
  function FitPrefix(lines: seq<string>): (r: seq<string>)
    ensures |r| <= |lines| && r == lines[..|r|]
  {
    if lines == [] || !Fits(lines[0]) then [] else [lines[0]] + FitPrefix(lines[1..])
  }

  ghost predicate AllClean(lines: seq<string>) {
    forall i :: 0 <= i < |lines| ==> Clean(lines[i])
  }

  lemma NextLineJoined(line: string, rest: string)
    requires Clean(line)
    ensures NextLine(line + "\n" + rest) == if Fits(line) then Some((line, rest)) else None
  {
    var s := line + "\n" + rest;
    var i := BreakAt(s);
    assert forall m :: 0 <= m < i ==> s[..i][m] == s[m];
    assert s[|line|] == '\n';
    assert forall m :: 0 <= m < |line| ==> s[m] == line[m];
    assert s[..i] == line && s[i + 1..] == rest;
  }

  lemma {:induction false} ScanJoined(lines: seq<string>)
    requires AllClean(lines)
    ensures ScanLines(Join(lines)) == FitPrefix(lines)
  {
    if lines != [] {
      NextLineJoined(lines[0], Join(lines[1..]));
      ScanJoined(lines[1..]);
    }
  }

  lemma ScanPartial(part: string)
    requires Clean(part)
    ensures ScanLines(part) == [] || (part != "" && ScanLines(part) == [part])
  {
    var i := BreakAt(part);
    assert part[..i] == part;
  }

  /** `j` whole lines, and at most a piece of the next. */
  ghost predicate IsCut(lines: seq<string>, scanned: seq<string>, j: nat, tail: seq<string>) {
    && j <= |lines| && scanned == lines[..j] + tail
    && (tail == [] || (j < |lines| && |tail| == 1 && tail[0] != "" && tail[0] <= lines[j]))
  }

  /** A text cut anywhere scans to whole lines and at most one piece of the next. */
  lemma {:induction false} ScanCut(lines: seq<string>, k: nat) returns (j: nat, tail: seq<string>)
    requires AllClean(lines) && k <= |Join(lines)|
    ensures IsCut(lines, ScanLines(Join(lines)[..k]), j, tail)
  {
    if lines == [] {
      return 0, [];
    }
    JoinLength(lines);
    if k <= |lines[0]| {
      j, tail := 0, ScanLines(lines[0][..k]);
      CutInFirst(lines, k);
    } else {
      CutLater(lines, k);
      if Fits(lines[0]) {
        j, tail := ScanCut(lines[1..], k - |lines[0]| - 1);
        IsCutCons(lines, ScanLines(Join(lines[1..])[..k - |lines[0]| - 1]), j, tail);
        j := j + 1;
      } else {
        j, tail := 0, [];
      }
    }
  }

  lemma JoinLength(lines: seq<string>)
    requires lines != []
    ensures |Join(lines)| == |lines[0]| + 1 + |Join(lines[1..])|
  {
  }

  lemma CutInFirst(lines: seq<string>, k: nat)
    requires lines != [] && Clean(lines[0]) && k <= |lines[0]| && k <= |Join(lines)|
    ensures IsCut(lines, ScanLines(Join(lines)[..k]), 0, ScanLines(lines[0][..k]))
  {
    CutJoined(lines[0], Join(lines[1..]), k);
    ScanPartial(lines[0][..k]);
  }

  lemma CutLater(lines: seq<string>, k: nat)
    requires lines != [] && Clean(lines[0]) && |lines[0]| < k <= |Join(lines)|
    requires |Join(lines)| == |lines[0]| + 1 + |Join(lines[1..])|
    ensures ScanLines(Join(lines)[..k])
         == if Fits(lines[0]) then [lines[0]] + ScanLines(Join(lines[1..])[..k - |lines[0]| - 1]) else []
  {
    CutText(lines, k);
    ScanCons(lines[0], Join(lines[1..])[..k - |lines[0]| - 1]);
  }

  lemma CutText(lines: seq<string>, k: nat)
    requires lines != [] && |lines[0]| < k <= |Join(lines)|
    requires |Join(lines)| == |lines[0]| + 1 + |Join(lines[1..])|
    ensures Join(lines)[..k] == lines[0] + "\n" + Join(lines[1..])[..k - |lines[0]| - 1]
  {
    CutJoined(lines[0], Join(lines[1..]), k);
  }

  lemma IsCutCons(lines: seq<string>, scanned: seq<string>, j: nat, tail: seq<string>)
    requires lines != [] && IsCut(lines[1..], scanned, j, tail)
    ensures IsCut(lines, [lines[0]] + scanned, j + 1, tail)
  {
    ConsFront(lines, j, tail);
  }

  lemma ScanCons(line: string, rest: string)
    requires Clean(line)
    ensures ScanLines(line + "\n" + rest) == if Fits(line) then [line] + ScanLines(rest) else []
  {
    NextLineJoined(line, rest);
  }

  lemma ConsFront(lines: seq<string>, j: nat, tail: seq<string>)
    requires j < |lines|
    ensures lines[..j + 1] + tail == [lines[0]] + (lines[1..][..j] + tail)
  {
  }

  lemma CutJoined(line: string, rest: string, k: nat)
    requires k <= |line| + 1 + |rest|
    ensures (line + "\n" + rest)[..k] == if k <= |line| then line[..k] else line + "\n" + rest[..k - |line| - 1]
  {
  }

  // ----- Reading what was written -----

  function AllLines(c: Codec, events: seq<WatchEvent>): seq<string> {
    if events == [] then [] else EventLines(c, events[0]) + AllLines(c, events[1..])
  }

  lemma {:induction false} JoinConcat(a: seq<string>, b: seq<string>)
    ensures Join(a + b) == Join(a) + Join(b)
  {
    if a == [] {
      assert a + b == b;
    } else {
      JoinConcat(a[1..], b);
      assert (a + b)[1..] == a[1..] + b;
    }
  }

  lemma JoinEvent(c: Codec, e: WatchEvent)
    ensures Join(EventLines(c, e)) == WriteSse(c, e)
  {
    var l := EventLines(c, e);
    assert Join(l[3..]) == "\n" by { assert l[3..][1..] == []; }
    assert Join(l[2..]) == l[2] + "\n" + "\n" by { assert l[2..][1..] == l[3..]; }
    assert Join(l[1..]) == l[1] + "\n" + l[2] + "\n" + "\n" by { assert l[1..][1..] == l[2..]; }
  }

  lemma {:induction false} WriteIsJoin(c: Codec, events: seq<WatchEvent>)
    requires Lawful(c) && forall i :: 0 <= i < |events| ==> Sendable(events[i])
    ensures WriteAll(c, events) == Join(AllLines(c, events)) && AllClean(AllLines(c, events))
  {
    if events != [] {
      WriteIsJoin(c, events[1..]);
      JoinEvent(c, events[0]);
      JoinConcat(EventLines(c, events[0]), AllLines(c, events[1..]));
      assert LawfulOn(c, events[0]);
      EventLinesClean(c, events[0]);
    }
  }

  lemma CleanConcat(a: string, b: string)
    requires Clean(a) && Clean(b)
    ensures Clean(a + b)
  {
  }

  lemma FormatIntClean(n: int)
    ensures Clean(FormatInt(n))
  {
    var m := if n < 0 then -n else n;
    FormatNatParses(m);
    DigitsClean(FormatNat(m));
    if n < 0 {
      CleanConcat("-", FormatNat(m));
    }
  }

  lemma DigitsClean(s: string)
    requires AllDigits(s)
    ensures Clean(s)
  {
    forall i | 0 <= i < |s| ensures s[i] != '\n' && s[i] != '\r' {
      assert IsDigit(s[i]);
    }
  }

  lemma EventLinesClean(c: Codec, e: WatchEvent)
    requires LawfulOn(c, e)
    ensures AllClean(EventLines(c, e))
  {
    CleanConcat(EVENT, EventName(e.kind));
    FormatIntClean(e.revision);
    CleanConcat(ID, FormatInt(e.revision));
    CleanConcat(DATA, c.encode(e));
  }

  lemma {:induction false} ReadLinesConcat(c: Codec, r: Reader, a: seq<string>, b: seq<string>)
    ensures ReadLines(c, r, a + b) == ReadLines(c, ReadLines(c, r, a), b)
    decreases |a|
  {
    if a == [] {
      assert a + b == b;
    } else {
      ReadLinesConcat(c, ReadLine(c, r, a[0]), a[1..], b);
      assert (a + b)[1..] == a[1..] + b;
    }
  }

  lemma ReadLinesSnoc(c: Codec, r: Reader, lines: seq<string>, m: nat)
    requires m < |lines|
    ensures ReadLines(c, r, lines[..m + 1]) == ReadLine(c, ReadLines(c, r, lines[..m]), lines[m])
  {
    ReadLinesConcat(c, r, lines[..m], [lines[m]]);
    assert lines[..m + 1] == lines[..m] + [lines[m]];
    assert [lines[m]][1..] == [];
  }

  lemma ReadField(c: Codec, r: Reader, field: string)
    ensures ReadLine(c, r, EVENT + field) == r.(kind := field)
    ensures ReadLine(c, r, ID + field) == r.(id := field)
    ensures ReadLine(c, r, DATA + field) == r.(data := field)
  {
    assert (EVENT + field)[|EVENT|..] == field;
    assert (ID + field)[0] == 'i' && (ID + field)[|ID|..] == field;
    assert (DATA + field)[0] == 'd' && (DATA + field)[|DATA|..] == field;
  }

  /** The reader after the first `m` lines of an event. */
  function Midway(c: Codec, e: WatchEvent, out: seq<WatchEvent>, m: nat): Reader {
    Reader(if m >= 1 then EventName(e.kind) else "", if m >= 2 then FormatInt(e.revision) else "",
           if m >= 3 then c.encode(e) else "", out)
  }

  lemma {:induction false} ReadFirstLines(c: Codec, e: WatchEvent, out: seq<WatchEvent>, m: nat)
    requires m <= 3
    ensures ReadLines(c, Fresh(out), EventLines(c, e)[..m]) == Midway(c, e, out, m)
  {
    if m > 0 {
      ReadFirstLines(c, e, out, m - 1);
      ReadLinesSnoc(c, Fresh(out), EventLines(c, e), m - 1);
      var r := Midway(c, e, out, m - 1);
      ReadField(c, r, EventName(e.kind));
      ReadField(c, r, FormatInt(e.revision));
      ReadField(c, r, c.encode(e));
    }
  }

  lemma FlushEmits(c: Codec, e: WatchEvent, out: seq<WatchEvent>)
    requires LawfulOn(c, e) && Sendable(e)
    ensures Flush(c, Reader(EventName(e.kind), FormatInt(e.revision), c.encode(e), out)).out == out + [e]
  {
    var r := Reader(EventName(e.kind), FormatInt(e.revision), c.encode(e), out);
    assert ParseInt(r.id) == Some(e.revision) by { ParseFormat(e.revision); }
    assert TypeFromName(r.kind) == Some(e.kind);
  }

  lemma ReadEvent(c: Codec, e: WatchEvent, out: seq<WatchEvent>, rest: seq<string>)
    requires LawfulOn(c, e) && Sendable(e)
    ensures ReadLines(c, Fresh(out), EventLines(c, e) + rest) == ReadLines(c, Fresh(out + [e]), rest)
  {
    ReadWhole(c, e, out);
    ReadLinesConcat(c, Fresh(out), EventLines(c, e), rest);
  }

  lemma ReadWhole(c: Codec, e: WatchEvent, out: seq<WatchEvent>)
    requires LawfulOn(c, e) && Sendable(e)
    ensures ReadLines(c, Fresh(out), EventLines(c, e)) == Fresh(out + [e])
  {
    var l := EventLines(c, e);
    ReadFirstLines(c, e, out, 3);
    ReadLinesSnoc(c, Fresh(out), l, 3);
    assert l[..4] == l;
    FlushEmits(c, e, out);
  }

  /** All of the event's lines are short enough for the reader. */
  predicate FitsReader(c: Codec, e: WatchEvent) {
    var l := EventLines(c, e);
    Fits(l[0]) && Fits(l[1]) && Fits(l[2])
  }

  function FittingEvents(c: Codec, events: seq<WatchEvent>): (n: nat)
    ensures n <= |events|
  {
    if events == [] || !FitsReader(c, events[0]) then 0 else 1 + FittingEvents(c, events[1..])
  }

  lemma {:induction false} ReadFitting(c: Codec, events: seq<WatchEvent>, out: seq<WatchEvent>)
    requires Lawful(c) && forall i :: 0 <= i < |events| ==> Sendable(events[i])
    ensures Flush(c, ReadLines(c, Fresh(out), FitPrefix(AllLines(c, events)))).out
         == out + events[..FittingEvents(c, events)]
  {
    if events != [] {
      var e, rest := events[0], AllLines(c, events[1..]);
      assert LawfulOn(c, e);
      FitPrefixEvent(c, e, rest);
      if FitsReader(c, e) {
        ReadEvent(c, e, out, FitPrefix(rest));
        ReadFitting(c, events[1..], out + [e]);
        SplitEvents(out, events, FittingEvents(c, events[1..]));
      } else {
        ReadMisfit(c, e, out, FitPrefix(EventLines(c, e) + rest));
      }
    }
  }

  lemma ReadMisfit(c: Codec, e: WatchEvent, out: seq<WatchEvent>, lines: seq<string>)
    requires |lines| < 3 && lines == EventLines(c, e)[..|lines|]
    ensures Flush(c, ReadLines(c, Fresh(out), lines)).out == out
  {
    ReadFirstLines(c, e, out, |lines|);
  }

  lemma {:induction false} FitPrefixConcat(a: seq<string>, b: seq<string>)
    ensures FitPrefix(a + b) == if FitPrefix(a) == a then a + FitPrefix(b) else FitPrefix(a)
  {
    if a == [] {
      assert a + b == b;
    } else {
      FitPrefixConcat(a[1..], b);
      assert (a + b)[1..] == a[1..] + b;
      assert a == [a[0]] + a[1..];
      assert FitPrefix(a) == a <==> Fits(a[0]) && FitPrefix(a[1..]) == a[1..];
    }
  }

  lemma {:induction false} FitPrefixStops(lines: seq<string>, n: nat)
    requires n <= |lines|
    ensures |FitPrefix(lines)| >= n <==> forall i :: 0 <= i < n ==> Fits(lines[i])
  {
    if n > 0 {
      FitPrefixStops(lines[1..], n - 1);
      forall i | 0 < i < n ensures lines[i] == lines[1..][i - 1] {
      }
    }
  }

  lemma FitPrefixEvent(c: Codec, e: WatchEvent, rest: seq<string>)
    ensures var l := EventLines(c, e);
            if FitsReader(c, e) then FitPrefix(l + rest) == l + FitPrefix(rest)
            else |FitPrefix(l + rest)| < 3 && FitPrefix(l + rest) == l[..|FitPrefix(l + rest)|]
  {
    var l := EventLines(c, e);
    FitPrefixConcat(l, rest);
    FitPrefixStops(l, 3);
    FitPrefixStops(l, 4);
    assert FitsReader(c, e) <==> forall i :: 0 <= i < 3 ==> Fits(l[i]);
    assert Fits(l[3]);
  }

  /** The client gets exactly what the server wrote, up to the first event whose
      encoding is too long a line for the scanner: there the stream ends. */
  lemma RoundTrip(c: Codec, events: seq<WatchEvent>)
    requires Lawful(c) && forall i :: 0 <= i < |events| ==> Sendable(events[i])
    ensures Read(c, WriteAll(c, events)) == events[..FittingEvents(c, events)]
    ensures Read(c, WriteAll(c, events)) == events <==> forall i :: 0 <= i < |events| ==> FitsReader(c, events[i])
  {
    WriteIsJoin(c, events);
    ScanJoined(AllLines(c, events));
    ReadFitting(c, events, []);
    AllFit(c, events);
  }

  lemma {:induction false} AllFit(c: Codec, events: seq<WatchEvent>)
    ensures FittingEvents(c, events) == |events| <==> forall i :: 0 <= i < |events| ==> FitsReader(c, events[i])
  {
    if events != [] {
      AllFit(c, events[1..]);
      forall i | 0 < i < |events| ensures events[i] == events[1..][i - 1] {
      }
    }
  }

  // ----- A stream that breaks off -----

  /** Some whole lines and a piece of one more: at most the event at the break appears. */
  lemma ReadBroken(c: Codec, e: WatchEvent, out: seq<WatchEvent>, m: nat, tail: seq<string>)
    requires LawfulOn(c, e) && Sendable(e) && m < 4
    requires tail == [] || (|tail| == 1 && tail[0] != "" && tail[0] <= EventLines(c, e)[m])
    ensures var r := Flush(c, ReadLines(c, Fresh(out), EventLines(c, e)[..m] + tail)).out;
            r == out || r == out + [e]
  {
    var l := EventLines(c, e);
    ReadFirstLines(c, e, out, m);
    ReadLinesConcat(c, Fresh(out), l[..m], tail);
    if tail == [] {
      FlushEmits(c, e, out);
    } else {
      assert tail[1..] == [];
      if m < 2 {
        assert tail[0][0] == l[m][0];
        TailIgnored(c, Midway(c, e, out, m), tail[0]);
      } else {
        TailOfData(c, e, out, tail[0]);
      }
    }
  }

  /** A line that is not a data line leaves nothing to emit. */
  lemma TailIgnored(c: Codec, r: Reader, tail: string)
    requires r.data == "" && tail != "" && tail[0] != 'd'
    ensures Flush(c, ReadLine(c, r, tail)).out == r.out
  {
    assert DATA[0] == 'd';
  }

  /** A data line cut short does not decode. */
  lemma TailOfData(c: Codec, e: WatchEvent, out: seq<WatchEvent>, tail: string)
    requires LawfulOn(c, e) && Sendable(e) && tail != "" && tail <= DATA + c.encode(e)
    ensures var r := Flush(c, ReadLine(c, Midway(c, e, out, 2), tail)).out; r == out || r == out + [e]
  {
    assert tail[0] == 'd';
    if DATA <= tail {
      var k := |tail| - |DATA|;
      assert tail == DATA + c.encode(e)[..k];
      ReadField(c, Midway(c, e, out, 2), c.encode(e)[..k]);
      if k == |c.encode(e)| {
        assert c.encode(e)[..k] == c.encode(e);
        FlushEmits(c, e, out);
      }
    }
  }

  lemma {:induction false} ReadCutLines(c: Codec, events: seq<WatchEvent>, out: seq<WatchEvent>,
                                        scanned: seq<string>, j: nat, tail: seq<string>)
      returns (n: nat)
    requires Lawful(c) && forall i :: 0 <= i < |events| ==> Sendable(events[i])
    requires IsCut(AllLines(c, events), scanned, j, tail)
    ensures n <= |events|
    ensures Flush(c, ReadLines(c, Fresh(out), scanned)).out == out + events[..n]
    decreases |events|
  {
    if events == [] {
      return 0;
    }
    var e, l, rest := events[0], EventLines(c, events[0]), AllLines(c, events[1..]);
    assert LawfulOn(c, e);
    if j >= 4 {
      CutBeyond(l, rest, scanned, j, tail);
      ReadEvent(c, e, out, rest[..j - 4] + tail);
      n := ReadCutLines(c, events[1..], out + [e], rest[..j - 4] + tail, j - 4, tail);
      SplitEvents(out, events, n);
      n := n + 1;
    } else {
      CutWithin(l, rest, scanned, j, tail);
      ReadBroken(c, e, out, j, tail);
      n := if Flush(c, ReadLines(c, Fresh(out), scanned)).out == out then 0 else 1;
      assert events[..1] == [e];
    }
  }

  lemma CutBeyond(l: seq<string>, rest: seq<string>, scanned: seq<string>, j: nat, tail: seq<string>)
    requires IsCut(l + rest, scanned, j, tail) && |l| <= j
    ensures IsCut(rest, rest[..j - |l|] + tail, j - |l|, tail)
    ensures scanned == l + (rest[..j - |l|] + tail)
  {
  }

  lemma CutWithin(l: seq<string>, rest: seq<string>, scanned: seq<string>, j: nat, tail: seq<string>)
    requires IsCut(l + rest, scanned, j, tail) && j < |l|
    ensures IsCut(l, scanned, j, tail)
  {
    assert (l + rest)[..j] == l[..j];
  }

  lemma SplitEvents(out: seq<WatchEvent>, events: seq<WatchEvent>, n: nat)
    requires n < |events|
    ensures out + [events[0]] + events[1..][..n] == out + events[..n + 1]
  {
  }

  /** Wherever the stream is cut, the client has a prefix of the events: none is garbled. */
  lemma CutGivesPrefix(c: Codec, events: seq<WatchEvent>, k: nat)
    requires Lawful(c) && forall i :: 0 <= i < |events| ==> Sendable(events[i])
    requires k <= |WriteAll(c, events)|
    ensures Read(c, WriteAll(c, events)[..k]) <= events
  {
    WriteIsJoin(c, events);
    var j, tail := ScanCut(AllLines(c, events), k);
    var n := ReadCutLines(c, events, [], ScanLines(WriteAll(c, events)[..k]), j, tail);
  }
}
