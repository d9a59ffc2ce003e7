/** The server-sent events client (`core/sse.py`): cutting lines into blocks and parsing them
    as section 9.2.6 of the WHATWG HTML Living Standard describes. */
module Sse {
  import opened Options

  datatype SseEvent = SseEvent(data: string, kind: Option<string>, id: Option<string>, retry: Option<int>)

  // ---- Lines --------------------------------------------------------------------------

  /** The characters Python's `splitlines` breaks at. */
  predicate IsBreak(c: char) {
    c == '\n' || c == '\r' || c == '\U{0B}' || c == '\U{0C}' || c == '\U{1C}' || c == '\U{1D}' ||
    c == '\U{1E}' || c == '\U{85}' || c == '\U{2028}' || c == '\U{2029}'
  }

  predicate Unbroken(s: string) {
    forall i :: 0 <= i < |s| ==> !IsBreak(s[i])
  }

  /** The position of the first line break, or the length. */
  function FirstBreak(s: string): (k: nat)
    ensures k <= |s| && Unbroken(s[..k])
    ensures k < |s| ==> IsBreak(s[k])
  {
    if s == [] || IsBreak(s[0]) then 0
    else
      var k := FirstBreak(s[1..]);
      assert s[..k + 1] == [s[0]] + s[1..][..k];
      1 + k
  }

  /** `str.splitlines`: CR LF is one break, and a final break adds no empty line. */
  function SplitLines(s: string): seq<string>
    decreases |s|
  {
    if s == [] then []
    else
      var k := FirstBreak(s);
      if k == |s| then [s]
      else
        var width := if s[k] == '\r' && k + 1 < |s| && s[k + 1] == '\n' then 2 else 1;
        [s[..k]] + SplitLines(s[k + width..])
  }

  /** `"\n".join`. */
  function Join(lines: seq<string>): string {
    if lines == [] then []
    else if |lines| == 1 then lines[0]
    else lines[0] + ['\n'] + Join(lines[1..])
  }

  lemma {:induction false} FirstBreakIs(s: string, k: nat)
    requires k <= |s| && Unbroken(s[..k]) && (k < |s| ==> IsBreak(s[k]))
    ensures FirstBreak(s) == k
    decreases k
  {
    if k > 0 {
      assert s[..k][0] == s[0];
      var tail := s[1..][..k - 1];
      assert forall i :: 0 <= i < |tail| ==> tail[i] == s[..k][i + 1];
      FirstBreakIs(s[1..], k - 1);
    }
  }

  predicate Sendable(line: string) {
    line != [] && Unbroken(line)
  }

  predicate AllSendable(lines: seq<string>) {
    forall i :: 0 <= i < |lines| ==> Sendable(lines[i])
  }

  /** Joining a block and splitting it again gives the block's lines back. */
  lemma {:induction false} SplitJoin(lines: seq<string>)
    requires AllSendable(lines)
    ensures SplitLines(Join(lines)) == lines
    ensures lines != [] ==> Join(lines) != []
  {
    if |lines| == 1 {
      assert lines[0][..|lines[0]|] == lines[0];
      FirstBreakIs(lines[0], |lines[0]|);
    } else if |lines| > 1 {
      SplitJoin(lines[1..]);
      assert Sendable(lines[0]);
      BreakEndsLine(lines[0], '\n', Join(lines[1..]));
      hide SplitLines;
    }
  }

  /** A break ends a line, whichever it is; CR LF is one break. */
  lemma BreakEndsLine(line: string, c: char, rest: string)
    requires Unbroken(line) && IsBreak(c)
    ensures !(c == '\r' && rest != [] && rest[0] == '\n') ==>
              SplitLines(line + [c] + rest) == [line] + SplitLines(rest)
    ensures SplitLines(line + "\r\n" + rest) == [line] + SplitLines(rest)
  {
    if !(c == '\r' && rest != [] && rest[0] == '\n') { OneBreak(line, [c], rest); }
    OneBreak(line, "\r\n", rest);
  }

  lemma OneBreak(line: string, brk: string, rest: string)
    requires Unbroken(line) && (brk == "\r\n" || (|brk| == 1 && IsBreak(brk[0])))
    requires |brk| == 1 ==> !(brk[0] == '\r' && rest != [] && rest[0] == '\n')
    ensures SplitLines(line + brk + rest) == [line] + SplitLines(rest)
  {
    var s := line + brk + rest;
    assert s[..|line|] == line && s[|line|] == brk[0];
    FirstBreakIs(s, |line|);
    assert s[|line| + |brk|..] == rest;
    if |line| + 1 < |s| { assert s[|line| + 1] == if |brk| == 2 then '\n' else rest[0]; }
  }

  // ---- Numbers ------------------------------------------------------------------------

  predicate IsDigit(c: char) {
    '0' <= c <= '9'
  }

  predicate IsBlank(c: char) {
    c == ' ' || c == '\t' || IsBreak(c)
  }

  function TrimLeft(s: string): string {
    if s != [] && IsBlank(s[0]) then TrimLeft(s[1..]) else s
  }

  function TrimRight(s: string): string {
    if s != [] && IsBlank(s[|s| - 1]) then TrimRight(s[..|s| - 1]) else s
  }

  /** Digits, with single underscores allowed between them. */
  predicate IsNumeral(s: string) {
    && s != [] && IsDigit(s[0]) && IsDigit(s[|s| - 1])
    && (forall i :: 0 <= i < |s| ==> IsDigit(s[i]) || s[i] == '_')
    && (forall i :: 0 < i < |s| && s[i] == '_' ==> s[i - 1] != '_')
  }

  function NumeralValue(s: string): int {
    if s == [] then 0
    else if s[|s| - 1] == '_' then NumeralValue(s[..|s| - 1])
    else NumeralValue(s[..|s| - 1]) * 10 + (s[|s| - 1] as int - '0' as int)
  }

  /** Python's `int(str)` on ASCII text; nothing where it raises. */
  function ParseInt(text: string): Option<int> {
    var s := TrimRight(TrimLeft(text));
    if s != [] && s[0] == '-' && IsNumeral(s[1..]) then Some(-NumeralValue(s[1..]))
    else if s != [] && s[0] == '+' && IsNumeral(s[1..]) then Some(NumeralValue(s[1..]))
    else if IsNumeral(s) then Some(NumeralValue(s))
    else None
  }

  function PrintNat(n: nat): (s: string)
    ensures s != [] && forall i :: 0 <= i < |s| ==> IsDigit(s[i])
  {
    var last := ('0' as int + n % 10) as char;
    if n < 10 then [last] else PrintNat(n / 10) + [last]
  }

  function PrintInt(n: int): string {
    if n < 0 then ['-'] + PrintNat(-n) else PrintNat(n)
  }

  lemma {:induction false} PrintNatValue(n: nat)
    ensures NumeralValue(PrintNat(n)) == n
  {
    if n >= 10 {
      PrintNatValue(n / 10);
      var s := PrintNat(n);
      assert s[..|s| - 1] == PrintNat(n / 10);
    }
  }

  lemma ParsePrintedInt(n: int)
    ensures ParseInt(PrintInt(n)) == Some(n)
  {
    var s := PrintInt(n);
    PrintNatValue(if n < 0 then -n else n);
    if n < 0 { assert s[1..] == PrintNat(-n); }
  }

  lemma TrimKeeps(s: string)
    requires s != [] ==> !IsBlank(s[0]) && !IsBlank(s[|s| - 1])
    ensures TrimRight(TrimLeft(s)) == s
  {
  }

  /** Padding is ignored. */
  lemma ParseIgnoresPadding(s: string, c: char)
    requires IsBlank(c)
    ensures ParseInt([c] + s) == ParseInt(s)
  {
    assert ([c] + s)[1..] == s;
    hide TrimRight, IsNumeral, NumeralValue;
  }

  /** A plus sign changes nothing, a minus sign negates. */
  lemma ParseReadsSign(s: string)
    requires IsNumeral(s)
    ensures ParseInt(s) == Some(NumeralValue(s))
    ensures ParseInt(['+'] + s) == Some(NumeralValue(s)) && ParseInt(['-'] + s) == Some(-NumeralValue(s))
  {
    var plus, minus := ['+'] + s, ['-'] + s;
    assert plus[1..] == s && minus[1..] == s && plus[|plus| - 1] == s[|s| - 1] == minus[|minus| - 1];
    TrimKeeps(s);
    TrimKeeps(plus);
    TrimKeeps(minus);
    hide TrimLeft, TrimRight, IsNumeral, NumeralValue;
  }

  /** Anything else than digits is refused. */
  lemma ParseRefuses(s: string, i: nat)
    requires 0 < i < |s| - 1 && !IsBlank(s[0]) && !IsBlank(s[|s| - 1]) && !IsDigit(s[i]) && s[i] != '_'
    ensures ParseInt(s) == None
  {
    TrimKeeps(s);
    hide TrimLeft, TrimRight, NumeralValue;
    assert s[1..][i - 1] == s[i];
  }

  // ---- Blocks -------------------------------------------------------------------------

  /** What the parser has gathered from the lines so far. */
  datatype Fields = Fields(data: seq<string>, kind: Option<string>, id: Option<string>, retry: Option<int>)

  const NOTHING := Fields([], None, None, None)

  function Colon(s: string): (k: nat)
    ensures k <= |s| && (k < |s| ==> s[k] == ':') && forall i :: 0 <= i < k ==> s[i] != ':'
  {
    if s == [] || s[0] == ':' then 0 else 1 + Colon(s[1..])
  }

  function NameOf(line: string): string {
    line[..Colon(line)]
  }

  /** After the first colon, less one leading space. */
  function ValueOf(line: string): string {
    var k := Colon(line);
    if k == |line| then []
    else
      var v := line[k + 1..];
      if v != [] && v[0] == ' ' then v[1..] else v
  }

  predicate IsComment(line: string) {
    line != [] && line[0] == ':'
  }

  function Absorb(f: Fields, line: string): Fields {
    if line == [] || IsComment(line) then f
    else
      var name, value := NameOf(line), ValueOf(line);
      if name == "data" then f.(data := f.data + [value])
      else if name == "event" then f.(kind := Some(value))
      else if name == "id" then f.(id := Some(value))
      else if name == "retry" then (if ParseInt(value).Some? then f.(retry := ParseInt(value)) else f)
      else f
  }

  function AbsorbAll(f: Fields, lines: seq<string>): Fields
    decreases |lines|
  {
    if lines == [] then f else AbsorbAll(Absorb(f, lines[0]), lines[1..])
  }

  function Finished(f: Fields): Option<SseEvent> {
    if f.data == [] then None else Some(SseEvent(Join(f.data), f.kind, f.id, f.retry))
  }

  /** `_parse_event_block`. */
  method ParseBlock(block: string) returns (e: Option<SseEvent>)
    ensures e == Finished(AbsorbAll(NOTHING, SplitLines(block)))
  {
    var lines := SplitLines(block);
    var f := NOTHING;
    var i := 0;
    while i < |lines|
      invariant 0 <= i <= |lines|
      invariant AbsorbAll(f, lines[i..]) == AbsorbAll(NOTHING, lines)
    {
      assert lines[i..][1..] == lines[i + 1..];
      f := Absorb(f, lines[i]);
      i := i + 1;
    }
    return Finished(f);
  }

  // ---- What lines mean ----------------------------------------------------------------

  /** A name, a colon and a value, less one leading space; without a colon all is name. */
  lemma LineMeans(name: string, value: string)
    requires ':' !in name
    ensures NameOf(name + ":" + value) == name
    ensures ValueOf(name + ":" + value) == if value != [] && value[0] == ' ' then value[1..] else value
    ensures NameOf(name) == name && ValueOf(name) == []
  {
    var line := name + ":" + value;
    assert line[|name|] == ':' && forall i :: 0 <= i < |name| ==> line[i] == name[i];
    assert Colon(line) == |name| && line[|name| + 1..] == value && line[..|name|] == name;
    assert Colon(name) == |name| && name[..|name|] == name;
  }

  /** What each field does: data lines add up, the others replace, a retry only if it is a
      number, and unknown fields do nothing. */
  lemma FieldsMean(f: Fields, name: string, value: string)
    requires name != [] && ':' !in name && (value == [] || value[0] != ' ')
    ensures var r := Absorb(f, name + ":" + value);
            && (name == "data" ==> r == f.(data := f.data + [value]))
            && (name == "event" ==> r == f.(kind := Some(value)))
            && (name == "id" ==> r == f.(id := Some(value)))
            && (name == "retry" ==> r == if ParseInt(value).Some? then f.(retry := ParseInt(value)) else f)
            && (name !in ["data", "event", "id", "retry"] ==> r == f)
            && r == Absorb(f, name + ": " + value)
  {
    LineMeans(name, value);
    LineMeans(name, " " + value);
    var line, spaced := name + ":" + value, name + ": " + value;
    assert name + ":" + (" " + value) == spaced && (" " + value)[1..] == value;
    assert line[0] == name[0] && spaced[0] == name[0] && name[0] in name;
    hide NameOf, ValueOf, ParseInt;
  }

  /** A block gives an event exactly if it has a data line. */
  lemma {:induction false} EventNeedsData(f: Fields, lines: seq<string>)
    ensures Finished(AbsorbAll(f, lines)).Some? <==>
            f.data != [] || exists i :: 0 <= i < |lines| && NameOf(lines[i]) == "data"
    decreases |lines|
  {
    if lines != [] {
      EventNeedsData(Absorb(f, lines[0]), lines[1..]);
      OneLineOfData(f, lines[0]);
      hide Absorb, NameOf;
      if i :| 0 <= i < |lines| && NameOf(lines[i]) == "data" {
        if i > 0 { assert lines[1..][i - 1] == lines[i]; }
      }
    }
  }

  lemma OneLineOfData(f: Fields, line: string)
    ensures Absorb(f, line).data != [] <==> f.data != [] || NameOf(line) == "data"
  {
    hide ParseInt, ValueOf;
    if line == [] || IsComment(line) { assert NameOf(line) == []; }
  }

  /** The events of a connection's lines, given the lines already waiting in the buffer. */
  function Events(buffer: seq<string>, lines: seq<string>): seq<SseEvent>
    decreases |lines|
  {
    if lines == [] then []
    else if lines[0] != [] then Events(buffer + [lines[0]], lines[1..])
    else
      var e := Finished(AbsorbAll(NOTHING, SplitLines(Join(buffer))));
      (if e.Some? then [e.value] else []) + Events([], lines[1..])
  }

  /** The line loop of `stream_events`. */
  method ReadEvents(lines: seq<string>) returns (events: seq<SseEvent>)
    ensures events == Events([], lines)
  {
    events := [];
    var buffer: seq<string> := [];
    var i := 0;
    while i < |lines|
      invariant 0 <= i <= |lines|
      invariant events + Events(buffer, lines[i..]) == Events([], lines)
    {
      assert lines[i..][1..] == lines[i + 1..];
      if lines[i] != [] {
        buffer := buffer + [lines[i]];
      } else {
        var block := Join(buffer);
        buffer := [];
        if block != [] {
          var e := ParseBlock(block);
          if e.Some? { events := events + [e.value]; }
        }
      }
      i := i + 1;
    }
  }

  // ---- Printing -----------------------------------------------------------------------

  /** The pieces of a text between its newlines. */
  function Pieces(s: string): (ps: seq<string>)
    ensures ps != []
    decreases |s|
  {
    if s == [] then [[]]
    else if s[0] == '\n' then [[]] + Pieces(s[1..])
    else
      var ps := Pieces(s[1..]);
      [[s[0]] + ps[0]] + ps[1..]
  }

  lemma {:induction false} JoinPieces(s: string)
    ensures Join(Pieces(s)) == s
  {
    if s != [] {
      JoinPieces(s[1..]);
      var ps := Pieces(s[1..]);
      if s[0] == '\n' {
        assert Pieces(s)[1..] == ps;
      } else {
        var qs := Pieces(s);
        assert qs[1..] == ps[1..];
      }
    }
  }

  /** Text that a line-oriented stream can carry: no break but the newline between pieces. */
  predicate Printable(e: SseEvent) {
    && (forall i :: 0 <= i < |e.data| && IsBreak(e.data[i]) ==> e.data[i] == '\n')
    && (e.kind.Some? ==> Unbroken(e.kind.value)) && (e.id.Some? ==> Unbroken(e.id.value))
  }

  function FieldLine(name: string, value: string): string {
    name + ": " + value
  }

  function DataLines(ps: seq<string>): seq<string> {
    if ps == [] then [] else [FieldLine("data", ps[0])] + DataLines(ps[1..])
  }

  function EventLines(e: SseEvent): seq<string> {
    (if e.kind.Some? then [FieldLine("event", e.kind.value)] else []) +
    (if e.id.Some? then [FieldLine("id", e.id.value)] else []) +
    (if e.retry.Some? then [FieldLine("retry", PrintInt(e.retry.value))] else []) +
    DataLines(Pieces(e.data))
  }

  function WithoutComments(lines: seq<string>): seq<string> {
    if lines == [] then []
    else (if IsComment(lines[0]) then [] else [lines[0]]) + WithoutComments(lines[1..])
  }

  /** A block of a stream: lines that, comments aside, print one event or nothing. */
  datatype Block = Block(lines: seq<string>, event: Option<SseEvent>)

  predicate Prints(b: Block) {
    && AllSendable(b.lines)
    && (b.event.Some? ==> Printable(b.event.value))
    && WithoutComments(b.lines) == if b.event.Some? then EventLines(b.event.value) else []
  }

  /** Each block followed by the empty line that ends it. */
  function Stream(blocks: seq<Block>): seq<string> {
    if blocks == [] then [] else blocks[0].lines + [[]] + Stream(blocks[1..])
  }

  function Sent(blocks: seq<Block>): seq<SseEvent> {
    if blocks == [] then []
    else (if blocks[0].event.Some? then [blocks[0].event.value] else []) + Sent(blocks[1..])
  }

  lemma {:induction false} CommentsAreIgnored(f: Fields, lines: seq<string>)
    ensures AbsorbAll(f, lines) == AbsorbAll(f, WithoutComments(lines))
    decreases |lines|
  {
    if lines != [] {
      CommentsAreIgnored(Absorb(f, lines[0]), lines[1..]);
      var rest := WithoutComments(lines[1..]);
      if !IsComment(lines[0]) { assert WithoutComments(lines)[1..] == rest; }
      else { assert WithoutComments(lines) == rest; }
    }
  }

  lemma {:induction false} AbsorbJoin(f: Fields, a: seq<string>, b: seq<string>)
    ensures AbsorbAll(f, a + b) == AbsorbAll(AbsorbAll(f, a), b)
    decreases |a|
  {
    if a == [] {
      assert a + b == b;
    } else {
      assert (a + b)[1..] == a[1..] + b;
      AbsorbJoin(Absorb(f, a[0]), a[1..], b);
    }
  }

  lemma FieldLineReads(name: string, value: string)
    requires name != [] && forall i :: 0 <= i < |name| ==> name[i] != ':'
    ensures NameOf(FieldLine(name, value)) == name && ValueOf(FieldLine(name, value)) == value
    ensures !IsComment(FieldLine(name, value)) && FieldLine(name, value) != []
  {
    var line := FieldLine(name, value);
    assert line[|name|] == ':' && line[|name| + 1] == ' ';
    assert forall i :: 0 <= i < |name| ==> line[i] == name[i];
    assert Colon(line) == |name|;
    assert line[..|name|] == name;
    assert line[|name| + 1..][1..] == value;
  }

  lemma DataReads(f: Fields, v: string)
    ensures Absorb(f, FieldLine("data", v)) == f.(data := f.data + [v])
  {
    FieldLineReads("data", v);
  }

  lemma {:induction false} DataLinesRead(f: Fields, ps: seq<string>)
    ensures AbsorbAll(f, DataLines(ps)) == f.(data := f.data + ps)
    decreases |ps|
  {
    hide Absorb, AbsorbAll, FieldLine;
    if ps == [] {
      AbsorbNone(f);
      assert f.data + ps == f.data;
    } else {
      DataReads(f, ps[0]);
      AbsorbCons(f, FieldLine("data", ps[0]), DataLines(ps[1..]));
      DataLinesRead(f.(data := f.data + [ps[0]]), ps[1..]);
      assert f.data + [ps[0]] + ps[1..] == f.data + ps;
    }
  }

  lemma AbsorbCons(f: Fields, line: string, rest: seq<string>)
    ensures AbsorbAll(f, [line] + rest) == AbsorbAll(Absorb(f, line), rest)
  {
    assert ([line] + rest)[1..] == rest;
  }

  lemma KindReads(f: Fields, v: string)
    ensures AbsorbAll(f, [FieldLine("event", v)]) == f.(kind := Some(v))
  {
    FieldLineReads("event", v);
    assert [FieldLine("event", v)][1..] == [];
  }

  lemma IdReads(f: Fields, v: string)
    ensures AbsorbAll(f, [FieldLine("id", v)]) == f.(id := Some(v))
  {
    FieldLineReads("id", v);
    assert [FieldLine("id", v)][1..] == [];
  }

  lemma RetryReads(f: Fields, n: int)
    ensures AbsorbAll(f, [FieldLine("retry", PrintInt(n))]) == f.(retry := Some(n))
  {
    FieldLineReads("retry", PrintInt(n));
    ParsePrintedInt(n);
    assert [FieldLine("retry", PrintInt(n))][1..] == [];
  }

  /** Parsing an event's own lines gives the event back. */
  lemma EventLinesRead(e: SseEvent)
    ensures Finished(AbsorbAll(NOTHING, EventLines(e))) == Some(e)
  {
    hide FieldLine, PrintInt, Pieces, Absorb, AbsorbAll, DataLines;
    var a := if e.kind.Some? then [FieldLine("event", e.kind.value)] else [];
    var b := if e.id.Some? then [FieldLine("id", e.id.value)] else [];
    var c := if e.retry.Some? then [FieldLine("retry", PrintInt(e.retry.value))] else [];
    var d := DataLines(Pieces(e.data));
    assert EventLines(e) == a + b + c + d;
    var f, g, h := NOTHING.(kind := e.kind), NOTHING.(kind := e.kind, id := e.id),
                   NOTHING.(kind := e.kind, id := e.id, retry := e.retry);
    if e.kind.Some? { KindReads(NOTHING, e.kind.value); } else { AbsorbNone(NOTHING); }
    if e.id.Some? { IdReads(f, e.id.value); } else { AbsorbNone(f); }
    if e.retry.Some? { RetryReads(g, e.retry.value); } else { AbsorbNone(g); }
    DataLinesRead(h, Pieces(e.data));
    AbsorbJoin(NOTHING, a + b + c, d);
    AbsorbJoin(NOTHING, a + b, c);
    AbsorbJoin(NOTHING, a, b);
    JoinPieces(e.data);
    assert h.data + Pieces(e.data) == Pieces(e.data);
  }

  lemma AbsorbNone(f: Fields)
    ensures AbsorbAll(f, []) == f
  {
  }

  // ---- Round trip ---------------------------------------------------------------------

  lemma {:induction false} BufferFills(buffer: seq<string>, block: seq<string>, rest: seq<string>)
    requires AllSendable(block)
    ensures Events(buffer, block + rest) == Events(buffer + block, rest)
    decreases |block|
  {
    if block == [] {
      assert block + rest == rest && buffer + block == buffer;
    } else {
      assert Sendable(block[0]);
      assert (block + rest)[1..] == block[1..] + rest;
      BufferFills(buffer + [block[0]], block[1..], rest);
      assert buffer + [block[0]] + block[1..] == buffer + block;
    }
  }

  /** A block in the stream yields its event and leaves the buffer empty. */
  lemma BlockYields(b: Block, rest: seq<string>)
    requires Prints(b)
    ensures Events([], b.lines + [[]] + rest) == (if b.event.Some? then [b.event.value] else []) + Events([], rest)
  {
    hide EventLines, Absorb, SplitLines, Join, WithoutComments;
    assert b.lines + [[]] + rest == b.lines + ([[]] + rest);
    BufferFills([], b.lines, [[]] + rest);
    assert [] + b.lines == b.lines && ([[]] + rest)[1..] == rest;
    SplitJoin(b.lines);
    CommentsAreIgnored(NOTHING, b.lines);
    if b.event.Some? { EventLinesRead(b.event.value); }
    else { AbsorbNone(NOTHING); }
  }

  /** Reading any printed sequence of events, with comments and keepalive blocks anywhere,
      gives back exactly that sequence. */
  lemma {:induction false} RoundTrip(blocks: seq<Block>)
    requires forall i :: 0 <= i < |blocks| ==> Prints(blocks[i])
    ensures Events([], Stream(blocks)) == Sent(blocks)
    decreases |blocks|
  {
    if blocks != [] {
      BlockYields(blocks[0], Stream(blocks[1..]));
      RoundTrip(blocks[1..]);
    }
  }

  // ---- Every printable event is a block -----------------------------------------------

  lemma LineIsClean(name: string, value: string)
    requires name != [] && Unbroken(name) && Unbroken(value)
    requires forall i :: 0 <= i < |name| ==> name[i] != ':'
    ensures Sendable(FieldLine(name, value)) && !IsComment(FieldLine(name, value))
  {
    FieldLineReads(name, value);
    var line := FieldLine(name, value);
    forall i | 0 <= i < |line| ensures !IsBreak(line[i]) {
      if i < |name| { assert line[i] == name[i]; }
      else if i >= |name| + 2 { assert line[i] == value[i - |name| - 2]; }
    }
  }

  predicate Clean(lines: seq<string>) {
    forall i :: 0 <= i < |lines| ==> Sendable(lines[i]) && !IsComment(lines[i])
  }

  lemma {:induction false} CleanHasNoComments(lines: seq<string>)
    requires Clean(lines)
    ensures AllSendable(lines) && WithoutComments(lines) == lines
    decreases |lines|
  {
    if lines != [] {
      assert Sendable(lines[0]) && !IsComment(lines[0]);
      hide IsComment, Sendable;
      CleanHasNoComments(lines[1..]);
    }
  }

  lemma {:induction false} DataLinesAreClean(ps: seq<string>)
    requires forall i :: 0 <= i < |ps| ==> Unbroken(ps[i])
    ensures Clean(DataLines(ps))
    decreases |ps|
  {
    if ps != [] {
      LineIsClean("data", ps[0]);
      hide IsComment, Sendable, FieldLine;
      DataLinesAreClean(ps[1..]);
      assert DataLines(ps)[1..] == DataLines(ps[1..]);
    }
  }

  lemma {:induction false} PiecesAreUnbroken(s: string)
    requires forall i :: 0 <= i < |s| && IsBreak(s[i]) ==> s[i] == '\n'
    ensures forall i :: 0 <= i < |Pieces(s)| ==> Unbroken(Pieces(s)[i])
    decreases |s|
  {
    if s != [] {
      PiecesAreUnbroken(s[1..]);
      var ps := Pieces(s[1..]);
      assert Unbroken(ps[0]);
      if s[0] != '\n' { assert Unbroken([s[0]] + ps[0]); }
    }
  }

  lemma PrintedIntIsUnbroken(n: int)
    ensures Unbroken(PrintInt(n))
  {
  }

  /** Every printable event has a block that prints it: its own lines. */
  lemma EventHasBlock(e: SseEvent)
    requires Printable(e)
    ensures Prints(Block(EventLines(e), Some(e)))
  {
    PiecesAreUnbroken(e.data);
    DataLinesAreClean(Pieces(e.data));
    if e.kind.Some? { LineIsClean("event", e.kind.value); }
    if e.id.Some? { LineIsClean("id", e.id.value); }
    if e.retry.Some? {
      PrintedIntIsUnbroken(e.retry.value);
      LineIsClean("retry", PrintInt(e.retry.value));
    }
    hide IsComment, Sendable, FieldLine, PrintInt, Pieces, DataLines, Unbroken;
    CleanHasNoComments(EventLines(e));
  }
}
