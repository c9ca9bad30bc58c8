/** The JSON text of a watch event as Go's `json.Marshal` writes it, and reading it back. */
module Json {
  import opened Text
  import opened Api
  import opened Sse

  // ----- Strings -----

  function HexDigit(d: nat): (c: char)
    requires d < 16
    ensures HexValue(c) == Some(d) && c != '\n' && c != '\r'
  {
    ['0', '1', '2', '3', '4', '5', '6', '7', '8', '9', 'a', 'b', 'c', 'd', 'e', 'f'][d]
  }

  function HexValue(c: char): (d: Option<nat>)
    ensures d.Some? ==> d.value < 16
  {
    if '0' <= c <= '9' then Some(c as int - '0' as int)
    else if 'a' <= c <= 'f' then Some(c as int - 'a' as int + 10)
    else None
  }

  /** The letter after the backslash, for the characters that have one. */
  function ShortEscape(c: char): Option<char> {
    if c == '\"' || c == '\\' then Some(c)
    else if c == '\n' then Some('n')
    else if c == '\r' then Some('r')
    else if c == '\t' then Some('t')
    else if c as int == 8 then Some('b')
    else if c as int == 12 then Some('f')
    else None
  }

  function FromShort(c: char): Option<char> {
    if c == '\"' || c == '\\' then Some(c)
    else if c == 'n' then Some('\n')
    else if c == 'r' then Some('\r')
    else if c == 't' then Some('\t')
    else if c == 'b' then Some(8 as char)
    else if c == 'f' then Some(12 as char)
    else None
  }

  /** Control characters, the HTML characters and the two line separators are written by number. */
  predicate ByNumber(c: char) {
    c as int < 0x20 || c == '<' || c == '>' || c == '&' || c as int == 0x2028 || c as int == 0x2029
  }

  function Hex4(n: nat): (r: string)
    requires n < 0x1_0000
    ensures |r| == 4
  {
    [HexDigit(n / 16 / 16 / 16), HexDigit(n / 16 / 16 % 16), HexDigit(n / 16 % 16), HexDigit(n % 16)]
  }

  function EscapeChar(c: char): (r: string)
    ensures r != "" && r[0] != '\"'
  {
    if ShortEscape(c).Some? then ['\\', ShortEscape(c).value]
    else if ByNumber(c) then "\\u" + Hex4(c as int)
    else [c]
  }

  function Escape(s: string): string {
    if s == "" then "" else EscapeChar(s[0]) + Escape(s[1..])
  }

  /** The character that four hexadecimal digits name. */
  function FromHex(s: string): Option<char>
    requires |s| == 4
  {
    match (HexValue(s[0]), HexValue(s[1]), HexValue(s[2]), HexValue(s[3]))
    case (Some(a), Some(b), Some(c), Some(d)) =>
      var n := a * 4096 + b * 256 + c * 16 + d;
      if n < 0xD800 then Some(n as char) else None
    case _ => None
  }

  /** The first character of a string's inside, and how much text it takes. */
  function FirstChar(s: string): (r: Option<(char, nat)>)
    ensures r.Some? ==> 0 < r.value.1 <= |s|
  {
    if s == "" then None
    else if s[0] != '\\' then Some((s[0], 1))
    else if |s| < 2 then None
    else if s[1] == 'u' then
      if |s| < 6 then None
      else match FromHex(s[2..6]) case Some(c) => Some((c, 6)) case None => None
    else match FromShort(s[1]) case Some(c) => Some((c, 2)) case None => None
  }

  /** Reads up to the closing quote; the string, and what follows it. */
  function Unquote(s: string): Option<(string, string)>
    decreases |s|
  {
    if s == "" then None
    else if s[0] == '\"' then Some(("", s[1..]))
    else match FirstChar(s)
      case None => None
      case Some((c, n)) =>
        match Unquote(s[n..])
        case None => None
        case Some((x, rest)) => Some(([c] + x, rest))
  }

  lemma HexBack(n: nat)
    requires n < 0xD800
    ensures FromHex(Hex4(n)) == Some(n as char)
  {
    var q := n / 16;
    assert n == q * 16 + n % 16;
    assert q == q / 16 * 16 + q % 16;
  }

  lemma FirstCharEscaped(c: char, rest: string)
    ensures FirstChar(EscapeChar(c) + rest) == Some((c, |EscapeChar(c)|))
  {
    var s := EscapeChar(c) + rest;
    if ShortEscape(c).None? && ByNumber(c) {
      assert s[2..6] == Hex4(c as int);
      HexBack(c as int);
    }
  }

  lemma FirstCharCut(c: char, k: nat)
    requires k < |EscapeChar(c)|
    ensures FirstChar(EscapeChar(c)[..k]) == None
  {
  }

  lemma {:induction false} UnquoteEscaped(s: string, rest: string)
    ensures Unquote(Escape(s) + "\"" + rest) == Some((s, rest))
  {
    var text := Escape(s) + "\"" + rest;
    if s == "" {
      assert text == "\"" + rest;
    } else {
      var head, tail := EscapeChar(s[0]), Escape(s[1..]) + "\"" + rest;
      assert text == head + tail;
      assert text[0] == head[0] && text[|head|..] == tail;
      assert FirstChar(text) == Some((s[0], |head|)) by { FirstCharEscaped(s[0], tail); }
      UnquoteEscaped(s[1..], rest);
      assert s == [s[0]] + s[1..];
    }
  }

  lemma CutConcat(a: string, b: string, k: nat)
    requires k <= |a + b|
    ensures (a + b)[..k] == if k <= |a| then a[..k] else a + b[..k - |a|]
  {
  }

  lemma {:induction false} UnquoteCut(s: string, k: nat)
    requires k <= |Escape(s)|
    ensures Unquote(Escape(s)[..k]) == None
  {
    if s != "" && k > 0 {
      var head, tail := EscapeChar(s[0]), Escape(s[1..]);
      CutConcat(head, tail, k);
      if k < |head| {
        FirstCharCut(s[0], k);
      } else {
        var rest := tail[..k - |head|];
        assert Escape(s)[..k] == head + rest;
        FirstCharEscaped(s[0], rest);
        assert (head + rest)[|head|..] == rest;
        UnquoteCut(s[1..], k - |head|);
      }
    }
  }

  // ----- The event -----

  const KEY := "{\"key\":\""
  const VALUE := ",\"value\":\""
  const REVISION := ",\"revision\":"

  /** A fixed start, a quoted string without its opening quote, and the rest. */
  function Quoted(start: string, s: string, rest: string): (r: string)
    ensures |r| == |start| + |Escape(s)| + 1 + |rest|
  {
    start + (Escape(s) + "\"" + rest)
  }

  function AfterQuoted(start: string, s: string): Option<(string, string)> {
    if start <= s then Unquote(s[|start|..]) else None
  }

  function RevisionText(n: int): string {
    REVISION + (FormatInt(n) + "}")
  }

  /** An empty value is left out. */
  function ValueText(value: string, n: int): string {
    if value == "" then RevisionText(n) else Quoted(VALUE, value, RevisionText(n))
  }

  function Encode(e: WatchEvent): string {
    Quoted(KEY, e.key, ValueText(e.value, e.revision))
  }

  function ReadRevision(s: string): Option<int> {
    if REVISION <= s && s[|s| - 1] == '}' then ParseInt(s[|REVISION|..|s| - 1]) else None
  }

  function ReadValue(s: string): Option<(string, int)> {
    var value := if VALUE <= s then AfterQuoted(VALUE, s) else Some(("", s));
    match value
    case None => None
    case Some((v, rest)) =>
      match ReadRevision(rest)
      case None => None
      case Some(n) => Some((v, n))
  }

  /** Reads what `Encode` writes; the event type is not in the text. */
  function Decode(s: string): Option<WatchEvent> {
    match AfterQuoted(KEY, s)
    case None => None
    case Some((key, rest)) =>
      match ReadValue(rest)
      case None => None
      case Some((value, n)) => Some(WatchEvent(key, value, n, EventInvalid))
  }

  // ----- Whole texts -----

  lemma RevisionBack(n: int)
    requires IsInt64(n)
    ensures ReadRevision(RevisionText(n)) == Some(n)
  {
    var s := RevisionText(n);
    assert s[|REVISION|..|s| - 1] == FormatInt(n);
    ParseFormat(n);
  }

  lemma QuotedBack(start: string, s: string, rest: string)
    ensures start <= Quoted(start, s, rest) && AfterQuoted(start, Quoted(start, s, rest)) == Some((s, rest))
  {
    var inside := Escape(s) + "\"" + rest;
    assert (start + inside)[|start|..] == inside;
    UnquoteEscaped(s, rest);
  }

  lemma ValueBack(value: string, n: int)
    requires IsInt64(n)
    ensures ReadValue(ValueText(value, n)) == Some((value, n))
  {
    RevisionBack(n);
    if value == "" {
      assert RevisionText(n)[2] == 'r' && VALUE[2] == 'v';
    } else {
      QuotedBack(VALUE, value, RevisionText(n));
    }
  }

  lemma EventBack(e: WatchEvent)
    requires IsInt64(e.revision)
    ensures Decode(Encode(e)) == Some(e.(kind := EventInvalid))
  {
    QuotedBack(KEY, e.key, ValueText(e.value, e.revision));
    ValueBack(e.value, e.revision);
  }

  // ----- Texts cut short -----

  lemma InsideCut(s: string, rest: string, j: nat)
    requires j <= |Escape(s) + "\"" + rest|
    ensures Unquote((Escape(s) + "\"" + rest)[..j])
         == if j <= |Escape(s)| then None else Some((s, rest[..j - |Escape(s)| - 1]))
  {
    var esc := Escape(s);
    var inside := esc + "\"" + rest;
    if j <= |esc| {
      assert inside[..j] == esc[..j];
      UnquoteCut(s, j);
    } else {
      assert inside[..j] == esc + "\"" + rest[..j - |esc| - 1];
      UnquoteEscaped(s, rest[..j - |esc| - 1]);
    }
  }

  /** Cut before the closing quote nothing is read; cut after it, the string is. */
  lemma QuotedCut(start: string, s: string, rest: string, k: nat)
    requires k <= |Quoted(start, s, rest)|
    ensures var text, whole := Quoted(start, s, rest)[..k], |start| + |Escape(s)| + 1;
            && (k < whole ==> AfterQuoted(start, text) == None)
            && (k >= whole ==> start <= text && AfterQuoted(start, text) == Some((s, rest[..k - whole])))
  {
    var inside := Escape(s) + "\"" + rest;
    CutConcat(start, inside, k);
    if k >= |start| {
      var j := k - |start|;
      assert Quoted(start, s, rest)[..k] == start + inside[..j];
      assert (start + inside[..j])[|start|..] == inside[..j];
      InsideCut(s, rest, j);
    }
  }

  lemma FormatIntNoBrace(n: int)
    ensures forall i :: 0 <= i < |FormatInt(n)| ==> FormatInt(n)[i] != '}'
  {
    var m := if n < 0 then -n else n;
    FormatNatParses(m);
    assert forall i :: 0 <= i < |FormatNat(m)| ==> IsDigit(FormatNat(m)[i]);
  }

  lemma RevisionCut(n: int, k: nat)
    requires k < |RevisionText(n)|
    ensures ReadRevision(RevisionText(n)[..k]) == None
  {
    var digits := FormatInt(n);
    CutConcat(REVISION, digits + "}", k);
    if k > |REVISION| {
      var j := k - |REVISION|;
      assert (digits + "}")[..j] == digits[..j];
      FormatIntNoBrace(n);
      assert (REVISION + digits[..j])[k - 1] == digits[j - 1];
    }
  }

  lemma ValueCut(value: string, n: int, k: nat)
    requires k < |ValueText(value, n)|
    ensures ReadValue(ValueText(value, n)[..k]) == None
  {
    var text := ValueText(value, n)[..k];
    if value == "" {
      assert k > 2 ==> text[2] == 'r';
      assert VALUE[2] == 'v';
      RevisionCut(n, k);
    } else {
      QuotedCut(VALUE, value, RevisionText(n), k);
      var whole := |VALUE| + |Escape(value)| + 1;
      if k >= whole {
        RevisionCut(n, k - whole);
      } else if !(VALUE <= text) {
        NoRevision(value, n, k);
      }
    }
  }

  lemma NoRevision(value: string, n: int, k: nat)
    requires value != "" && k <= |ValueText(value, n)|
    ensures ReadRevision(ValueText(value, n)[..k]) == None
  {
    assert k > 2 ==> ValueText(value, n)[..k][2] == 'v';
    assert REVISION[2] == 'r';
  }

  lemma EventCut(e: WatchEvent, k: nat)
    requires k < |Encode(e)|
    ensures Decode(Encode(e)[..k]) == None
  {
    QuotedCut(KEY, e.key, ValueText(e.value, e.revision), k);
    var whole := |KEY| + |Escape(e.key)| + 1;
    if k >= whole {
      ValueCut(e.value, e.revision, k - whole);
    }
  }

  // ----- One clean line -----

  lemma {:induction false} EscapeClean(s: string)
    ensures Clean(Escape(s))
  {
    if s != "" {
      EscapeClean(s[1..]);
      EscapeCharClean(s[0]);
      CleanConcat(EscapeChar(s[0]), Escape(s[1..]));
    }
  }

  lemma EscapeCharClean(c: char)
    ensures Clean(EscapeChar(c))
  {
    if ShortEscape(c).None? && ByNumber(c) {
      CleanConcat("\\u", Hex4(c as int));
    }
  }

  lemma QuotedClean(start: string, s: string, rest: string)
    requires Clean(start) && Clean(rest)
    ensures Clean(Quoted(start, s, rest))
  {
    EscapeClean(s);
    CleanConcat(Escape(s), "\"");
    CleanConcat(Escape(s) + "\"", rest);
    CleanConcat(start, Escape(s) + "\"" + rest);
  }

  lemma EventClean(e: WatchEvent)
    ensures Clean(Encode(e))
  {
    FormatIntClean(e.revision);
    CleanConcat(FormatInt(e.revision), "}");
    CleanConcat(REVISION, FormatInt(e.revision) + "}");
    if e.value != "" {
      QuotedClean(VALUE, e.value, RevisionText(e.revision));
    }
    QuotedClean(KEY, e.key, ValueText(e.value, e.revision));
  }

  const GO_JSON := Codec(e => Encode(e), s => Decode(s))

  /** Go's JSON is all that the event stream asks for. */
  lemma GoJsonLawful()
    ensures Lawful(GO_JSON)
  {
    forall e: WatchEvent | Sendable(e) ensures LawfulOn(GO_JSON, e) {
      EventClean(e);
      EventBack(e);
      forall k | 0 <= k < |Encode(e)| ensures Decode(Encode(e)[..k]) == None {
        EventCut(e, k);
      }
    }
  }

  /** So the stream brings every event back when each fits the scanner's line, and any cut of it a prefix. */
  lemma JsonStream(events: seq<WatchEvent>, k: nat)
    requires forall i :: 0 <= i < |events| ==> Sendable(events[i])
    requires k <= |WriteAll(GO_JSON, events)|
    ensures Read(GO_JSON, WriteAll(GO_JSON, events)) == events
       <==> forall i :: 0 <= i < |events| ==> FitsReader(GO_JSON, events[i])
    ensures Read(GO_JSON, WriteAll(GO_JSON, events)[..k]) <= events
  {
    GoJsonLawful();
    RoundTrip(GO_JSON, events);
    CutGivesPrefix(GO_JSON, events, k);
  }

  // ----- The text itself -----

  /** A text without quotes, backslashes, control, HTML or separator characters is written as it is. */
  lemma {:induction false} PlainEscape(s: string)
    requires forall i :: 0 <= i < |s| ==> ShortEscape(s[i]).None? && !ByNumber(s[i])
    ensures Escape(s) == s
  {
    if s != "" {
      PlainEscape(s[1..]);
      assert s == [s[0]] + s[1..];
    }
  }

  lemma Assoc(a: string, b: string, c: string)
    ensures a + (b + c) == a + b + c
  {
  }

  /** The documented form of an event's text, for a key and a value with nothing to escape in them. An empty
      value is left out. */
  lemma DocumentedText(e: WatchEvent)
    requires Escape(e.key) == e.key && Escape(e.value) == e.value
    ensures var n := FormatInt(e.revision);
            Encode(e) == "{\"key\":\"" + e.key + "\""
                         + (if e.value == "" then "" else ",\"value\":\"" + e.value + "\"") + ",\"revision\":" + n + "}"
  {
    var n := FormatInt(e.revision);
    Assoc(",\"revision\":", n, "}");
    var tail := ",\"revision\":" + n + "}";
    var head := "{\"key\":\"" + e.key + "\"";
    Assoc("{\"key\":\"", e.key + "\"", ValueText(e.value, e.revision));
    Assoc("{\"key\":\"", e.key, "\"");
    assert Encode(e) == head + ValueText(e.value, e.revision);
    if e.value == "" {
      assert head + "" == head;
      Assoc(head, ",\"revision\":" + n, "}");
      Assoc(head, ",\"revision\":", n);
    } else {
      var middle := ",\"value\":\"" + e.value + "\"";
      Assoc(",\"value\":\"", e.value + "\"", tail);
      Assoc(",\"value\":\"", e.value, "\"");
      assert ValueText(e.value, e.revision) == middle + tail;
      Assoc(head, middle, tail);
      Assoc(head + middle, ",\"revision\":" + n, "}");
      Assoc(head + middle, ",\"revision\":", n);
    }
  }

  /** And of the lines around it. */
  lemma DocumentedLines(e: WatchEvent)
    requires !e.kind.EventInvalid?
    ensures WriteSse(GO_JSON, e)
         == (if e.kind == EventPut then "event: put" else "event: delete") + "\n"
            + "id: " + FormatInt(e.revision) + "\n" + "data: " + Encode(e) + "\n\n"
  {
    var front := EVENT + EventName(e.kind) + "\n" + ID + FormatInt(e.revision) + "\n" + DATA + Encode(e);
    Assoc(front, "\n", "\n");
    assert "\n" + "\n" == "\n\n";
    assert EVENT + "put" == "event: put" && EVENT + "delete" == "event: delete";
  }
}
