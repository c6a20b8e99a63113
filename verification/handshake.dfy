/** The HTTP upgrade request: splitting it into header lines in two phases, and reading the three
    headers that decide the handshake. */
module Handshake {
  import opened Sequences

  const MAX_HEADERS: nat := 15
  const INITIAL_SIZE: nat := 10  // bytes already read as a packet header

  /** Overrun: the line index leaves the fixed array. Starved: the stream ends before a blank line. */
  datatype Split = Starved | Overrun | Split(lines: seq<string>, rest: string)

  /* ---------- splitting ---------- */

  function Last(lines: seq<string>): string
    requires lines != []
  {
    lines[|lines| - 1]
  }

  /** One character: CR opens a line, LF is dropped, anything else extends the current line. */
  function Feed(lines: seq<string>, c: char): (r: seq<string>)
    requires lines != []
    ensures |r| == if c == '\r' then |lines| + 1 else |lines|
  {
    if c == '\r' then lines + [""]
    else if c == '\n' then lines
    else lines[..|lines| - 1] + [Last(lines) + [c]]
  }

  function FeedAll(lines: seq<string>, s: string): (r: seq<string>)
    requires lines != []
    ensures |lines| <= |r| <= |lines| + |s|
    decreases |s|
  {
    if s == "" then lines else FeedAll(Feed(lines, s[0]), s[1..])
  }

  /** Splitting up to the blank line. */
  function Scan(lines: seq<string>, s: string): Split
    requires lines != []
    decreases |s|
  {
    if |lines| > MAX_HEADERS then Overrun
    else if s == "" then Starved
    else if s[0] == '\r' && Last(lines) == "" then Split(lines[..|lines| - 1], s[1..])
    else Scan(Feed(lines, s[0]), s[1..])
  }

  /** The first ten bytes are split without looking for a blank line. */
  function TwoPhase(initial: string, s: string): Split {
    Scan(FeedAll([""], initial), s)
  }

  lemma {:induction false} ScanConsumes(lines: seq<string>, s: string)
    requires lines != [] && Scan(lines, s).Split?
    ensures |Scan(lines, s).rest| < |s|
    decreases |s|
  {
    if !(s[0] == '\r' && Last(lines) == "") {
      ScanConsumes(Feed(lines, s[0]), s[1..]);
    }
  }

  lemma {:induction false} ScanAppend(lines: seq<string>, a: string, b: string)
    requires lines != [] && |lines| + |a| <= MAX_HEADERS
    ensures Scan(lines, a).Starved? || Scan(lines, a).Split?
    ensures Scan(lines, a).Starved? ==> Scan(lines, a + b) == Scan(FeedAll(lines, a), b)
    ensures Scan(lines, a).Split? ==> Scan(lines, a + b) == Split(Scan(lines, a).lines, Scan(lines, a).rest + b)
    decreases |a|
  {
    if a == "" {
      assert a + b == b;
    } else {
      assert (a + b)[0] == a[0] && (a + b)[1..] == a[1..] + b;
      if !(a[0] == '\r' && Last(lines) == "") {
        ScanAppend(Feed(lines, a[0]), a[1..], b);
      }
    }
  }

  /** The two-phase splitter agrees with a one-pass split exactly when no blank line ends within the
      first ten bytes. */
  lemma TwoPhaseIsOnePass(initial: string, s: string)
    requires |initial| == INITIAL_SIZE
    ensures TwoPhase(initial, s) == Scan([""], initial + s) <==> Scan([""], initial).Starved?
  {
    ScanAppend([""], initial, s);
    if Scan([""], initial).Split? && TwoPhase(initial, s).Split? {
      ScanConsumes(FeedAll([""], initial), s);
    }
  }

  /* ---------- requests ---------- */

  predicate Plain(line: string) {
    line != "" && '\r' !in line && '\n' !in line
  }

  function Serialize(lines: seq<string>): string {
    if lines == [] then "" else lines[0] + "\r\n" + Serialize(lines[1..])
  }

  lemma {:induction false} FeedLine(done: seq<string>, line: string, s: string)
    requires '\r' !in line && '\n' !in line && |done| < MAX_HEADERS
    ensures forall part: string :: Scan(done + [part], line + s) == Scan(done + [part + line], s)
    decreases |line|
  {
    forall part: string
      ensures Scan(done + [part], line + s) == Scan(done + [part + line], s)
    {
      if line == "" {
        assert line + s == s && part + line == part;
      } else {
        assert line[0] in line && forall c :: c in line[1..] ==> c in line;
        assert (line + s)[0] == line[0] && (line + s)[1..] == line[1..] + s;
        FeedLine(done, line[1..], s);
        assert Feed(done + [part], line[0]) == done + [part + [line[0]]];
        assert part + [line[0]] + line[1..] == part + line;
      }
    }
  }

  /** One whole line with its CR LF. */
  lemma ScanLine(done: seq<string>, line: string, s: string)
    requires Plain(line) && |done| < MAX_HEADERS
    ensures Scan(done + [""], line + "\r\n" + s) ==
            if |done| + 1 == MAX_HEADERS then Overrun else Scan(done + [line] + [""], s)
  {
    FeedLine(done, line, "\r\n" + s);
    assert line + "\r\n" + s == line + ("\r\n" + s);
    assert "" + line == line;
    ScanLineEnd(done + [line], s);
  }

  lemma ScanLineEnd(lines: seq<string>, s: string)
    requires lines != [] && |lines| <= MAX_HEADERS && Last(lines) != ""
    ensures Scan(lines, "\r\n" + s) == if |lines| == MAX_HEADERS then Overrun else Scan(lines + [""], s)
  {
    var t := "\n" + s;
    assert ("\r\n" + s)[1..] == t;
    assert Feed(lines, '\r') == lines + [""];
    assert t[1..] == s;
  }

  lemma ScanBlank(done: seq<string>, rest: string)
    requires |done| < MAX_HEADERS
    ensures Scan(done + [""], "\r\n" + rest) == Split(done, "\n" + rest)
  {
    assert ("\r\n" + rest)[1..] == "\n" + rest;
    assert (done + [""])[..|done|] == done;
  }

  /** Where the two differ: ten bytes that end in a blank line. A one-pass split is done with them; the
      coded one has not looked for it and goes on. */
  lemma BlankLineInTheFirstTen(line: string, s: string)
    requires Plain(line) && |line| + 4 == INITIAL_SIZE
    ensures
      var initial := line + "\r\n" + "\r\n";
      && Scan([""], initial + s) == Split([line], "\n" + s)
      && TwoPhase(initial, s) != Scan([""], initial + s)
  {
    var initial := line + "\r\n" + "\r\n";
    assert [] + [""] == [""] && [] + [line] == [line] && "\r\n" + "" == "\r\n" && "\n" + "" == "\n";
    ScanLine([], line, "\r\n");
    ScanBlank([line], "");
    ScanAppend([""], initial, s);
    TwoPhaseIsOnePass(initial, s);
  }

  lemma BlankLineExample(s: string)
    ensures TwoPhase("GET / \r\n\r\n", s) != Scan([""], "GET / \r\n\r\n" + s)
  {
    var line := "GET / ";
    assert Plain(line) && "GET / \r\n\r\n" == line + "\r\n" + "\r\n";
    BlankLineInTheFirstTen(line, s);
  }

  /** The request: its lines, a blank line, and whatever follows. */
  function Request(lines: seq<string>, rest: string): (r: string)
    ensures |r| == |Serialize(lines)| + 2 + |rest|
  {
    if lines == [] then "\r\n" + rest else lines[0] + "\r\n" + Request(lines[1..], rest)
  }

  lemma {:induction false} RequestBytes(lines: seq<string>, rest: string)
    ensures Request(lines, rest) == Serialize(lines) + ("\r\n" + rest)
  {
    if lines == [] {
      assert "" + ("\r\n" + rest) == "\r\n" + rest;
    } else {
      RequestBytes(lines[1..], rest);
      Regroup(lines[0] + "\r\n", Serialize(lines[1..]), "\r\n" + rest);
    }
  }

  function SplitOrOverrun(lines: seq<string>, rest: string): Split {
    if |lines| < MAX_HEADERS then Split(lines, "\n" + rest) else Overrun
  }

  lemma ScanRequestStep(done: seq<string>, lines: seq<string>, rest: string)
    requires |done| < MAX_HEADERS && lines != [] && Plain(lines[0])
    requires |done| + 1 < MAX_HEADERS ==>
      Scan(done + [lines[0]] + [""], Request(lines[1..], rest)) == SplitOrOverrun(done + lines, rest)
    ensures Scan(done + [""], Request(lines, rest)) == SplitOrOverrun(done + lines, rest)
  {
    ScanLine(done, lines[0], Request(lines[1..], rest));
  }

  /** Any request of plain lines is split back into its lines just when it has at most fourteen of
      them (the request line and thirteen headers); one more leaves the array. */
  lemma {:induction false} ScanRequest(done: seq<string>, lines: seq<string>, rest: string)
    requires |done| < MAX_HEADERS && forall l :: l in lines ==> Plain(l)
    ensures Scan(done + [""], Request(lines, rest)) == SplitOrOverrun(done + lines, rest)
    decreases |lines|
  {
    if lines == [] {
      ScanBlank(done, rest);
      assert done + lines == done;
    } else {
      if |done| + 1 < MAX_HEADERS {
        PlainTail(lines);
        ScanRequest(done + [lines[0]], lines[1..], rest);
        assert done + [lines[0]] + lines[1..] == done + lines;
      }
      ScanRequestStep(done, lines, rest);
    }
  }

  lemma PlainTail(lines: seq<string>)
    requires lines != [] && forall l :: l in lines ==> Plain(l)
    ensures forall l :: l in lines[1..] ==> Plain(l)
  {
  }

  /** A short text of plain lines holds no blank line. */
  lemma CutAndEnd(a: string, tail: string, cut: nat, end: string)
    requires cut <= |a|
    ensures (a + tail)[..cut] + (a[cut..] + end) == a + end
  {
    assert (a + tail)[..cut] == a[..cut];
    assert a[..cut] + a[cut..] == a;
    Regroup(a[..cut], a[cut..], end);
  }

  lemma NoEarlyBlank(done: seq<string>, lines: seq<string>, tail: string, cut: nat)
    requires |done| + cut < MAX_HEADERS && forall l :: l in lines ==> Plain(l)
    requires cut <= |Serialize(lines)|
    ensures Scan(done + [""], (Serialize(lines) + tail)[..cut]).Starved?
  {
    var s := (Serialize(lines) + tail)[..cut];
    var more := Serialize(lines)[cut..] + "\r\n";
    ScanAppend(done + [""], s, more);
    RequestBytes(lines, "");
    CutAndEnd(Serialize(lines), tail, cut, "\r\n");
    assert s + more == Request(lines, "");
    assert |more| >= 2 && |"\n" + ""| == 1;
    ScanRequest(done, lines, "");
  }

  /** The splitter as coded, on any request of plain lines whose blank line is past the first ten
      bytes. */
  lemma SplitRequest(lines: seq<string>, rest: string)
    requires (forall l :: l in lines ==> Plain(l)) && |Serialize(lines)| >= INITIAL_SIZE
    ensures
      var request := Request(lines, rest);
      TwoPhase(request[..INITIAL_SIZE], request[INITIAL_SIZE..]) ==
        if |lines| <= 14 then Split(lines, "\n" + rest) else Overrun
  {
    var request := Request(lines, rest);
    RequestBytes(lines, rest);
    NoEarlyBlank([], lines, "\r\n" + rest, INITIAL_SIZE);
    assert [] + [""] == [""];
    TwoPhaseIsOnePass(request[..INITIAL_SIZE], request[INITIAL_SIZE..]);
    assert request[..INITIAL_SIZE] + request[INITIAL_SIZE..] == request;
    ScanRequest([], lines, rest);
    assert [] + lines == lines;
  }

  /* ---------- header lines ---------- */

  const PROTOCOL: string := "Sec-WebSocket-Protocol"
  const VERSION: string := "Sec-WebSocket-Version"
  const KEY: string := "Sec-WebSocket-Key"

  /** The index of the first colon, or the length. */
  function Colon(line: string): (k: nat)
    ensures k <= |line|
  {
    if line == "" || line[0] == ':' then 0 else 1 + Colon(line[1..])
  }

  function NameOf(line: string): string {
    line[..Colon(line)]
  }

  /** Two characters are skipped after the name, whatever they are. */
  function ContentOf(line: string): string {
    if Colon(line) + 2 <= |line| then line[Colon(line) + 2..] else ""
  }

  /** The content of the last line with that name, or the empty string. */
  function LastMatch(lines: seq<string>, name: string): string {
    if lines == [] then ""
    else if NameOf(Last(lines)) == name then ContentOf(Last(lines))
    else LastMatch(lines[..|lines| - 1], name)
  }

  datatype Verdict = UnsupportedVersion | UnsupportedProtocol | Accepted(key: string)

  function Judge(protocol: string, version: string, key: string): Verdict {
    if version != "13" then UnsupportedVersion
    else if protocol != "shepoo" then UnsupportedProtocol
    else Accepted(key)
  }

  /** The loop runs over the lines after the request line but stops before the last one. */
  function Examined(lines: seq<string>): seq<string> {
    if |lines| <= 2 then [] else lines[1..|lines| - 1]
  }

  function VerdictOn(lines: seq<string>): Verdict {
    Judge(LastMatch(Examined(lines), PROTOCOL), LastMatch(Examined(lines), VERSION),
          LastMatch(Examined(lines), KEY))
  }

  datatype Header = Header(name: string, content: string)

  function Line(h: Header): string {
    h.name + ": " + h.content
  }

  function Lines(hs: seq<Header>): seq<string> {
    seq(|hs|, i requires 0 <= i < |hs| => Line(hs[i]))
  }

  /** The value a list of headers gives to a name: that of its last occurrence. */
  function ValueOf(hs: seq<Header>, name: string): string {
    if hs == [] then ""
    else if hs[|hs| - 1].name == name then hs[|hs| - 1].content
    else ValueOf(hs[..|hs| - 1], name)
  }

  predicate Wire(h: Header) {
    && ':' !in h.name && '\r' !in h.name && '\n' !in h.name
    && '\r' !in h.content && '\n' !in h.content
  }

  lemma {:induction false} ColonAfterName(name: string, tail: string)
    requires ':' !in name && tail != "" && tail[0] == ':'
    ensures Colon(name + tail) == |name|
  {
    if name == "" {
      assert name + tail == tail;
    } else {
      assert name[0] in name && forall c :: c in name[1..] ==> c in name;
      assert (name + tail)[1..] == name[1..] + tail;
      ColonAfterName(name[1..], tail);
    }
  }

  /** A header line parses back to its name and content. */
  lemma LineParses(h: Header)
    requires ':' !in h.name
    ensures NameOf(Line(h)) == h.name && ContentOf(Line(h)) == h.content
  {
    var tail := ": " + h.content;
    assert Line(h) == h.name + tail;
    ColonAfterName(h.name, tail);
    assert tail[2..] == h.content;
  }

  /** Exactly two characters are skipped after a colon-free name, the colon and any other. */
  lemma ContentBehindColon(name: string, c: char, tail: string)
    requires ':' !in name
    ensures NameOf(name + ":" + [c] + tail) == name && ContentOf(name + ":" + [c] + tail) == tail
    ensures NameOf(name + ":") == name && ContentOf(name + ":") == ""
  {
    var behind := ":" + [c] + tail;
    assert name + ":" + [c] + tail == name + behind && behind[2..] == tail;
    ColonAfterName(name, behind);
    ColonAfterName(name, ":");
  }

  /** A line without a colon is all name. */
  lemma {:induction false} NoColon(line: string)
    requires ':' !in line
    ensures Colon(line) == |line| && NameOf(line) == line && ContentOf(line) == ""
  {
    if line != "" {
      assert line[0] in line && forall c :: c in line[1..] ==> c in line;
      NoColon(line[1..]);
    }
  }

  lemma {:induction false} LastMatchIsValue(hs: seq<Header>, name: string)
    requires forall h :: h in hs ==> Wire(h)
    ensures LastMatch(Lines(hs), name) == ValueOf(hs, name)
  {
    if hs != [] {
      var init, last := hs[..|hs| - 1], hs[|hs| - 1];
      assert last in hs && forall h :: h in init ==> h in hs;
      LineParses(last);
      assert Lines(hs)[..|hs| - 1] == Lines(init);
      LastMatchIsValue(init, name);
    }
  }

  lemma LinesPlain(hs: seq<Header>)
    requires forall h :: h in hs ==> Wire(h)
    ensures forall l :: l in Lines(hs) ==> Plain(l)
  {
    forall l | l in Lines(hs)
      ensures Plain(l)
    {
      var i :| 0 <= i < |hs| && Lines(hs)[i] == l;
      assert hs[i] in hs;
    }
  }

  /** The handshake on a whole request. It is judged on every header but the last, whatever that one
      says; the request is split as long as it has at most thirteen headers. */
  lemma HandshakeOnRequest(requestLine: string, hs: seq<Header>, last: Header, rest: string)
    requires Plain(requestLine) && |requestLine| + 2 >= INITIAL_SIZE
    requires (forall h :: h in hs ==> Wire(h)) && Wire(last) && |hs| + 1 <= 13
    ensures
      var lines := [requestLine] + Lines(hs + [last]);
      var request := Request(lines, rest);
      && |request| >= INITIAL_SIZE
      && TwoPhase(request[..INITIAL_SIZE], request[INITIAL_SIZE..]) == Split(lines, "\n" + rest)
      && VerdictOn(lines) == Judge(ValueOf(hs, PROTOCOL), ValueOf(hs, VERSION), ValueOf(hs, KEY))
  {
    var all := hs + [last];
    var lines := [requestLine] + Lines(all);
    LinesPlain(all);
    assert lines[1..] == Lines(all);
    assert |Serialize(lines)| >= |lines[0]| + 2;
    SplitRequest(lines, rest);
    if hs != [] {
      assert Examined(lines) == Lines(hs);
    }
    LastMatchIsValue(hs, PROTOCOL);
    LastMatchIsValue(hs, VERSION);
    LastMatchIsValue(hs, KEY);
  }

  /** What a client means by its headers. */
  function WholeVerdict(hs: seq<Header>): Verdict {
    Judge(ValueOf(hs, PROTOCOL), ValueOf(hs, VERSION), ValueOf(hs, KEY))
  }

  /** The last header would change the verdict of the others. */
  predicate LastDecides(hs: seq<Header>, last: Header) {
    var versionRight, protocolRight := ValueOf(hs, VERSION) == "13", ValueOf(hs, PROTOCOL) == "shepoo";
    || (last.name == VERSION && versionRight != (last.content == "13"))
    || (last.name == PROTOCOL && versionRight && protocolRight != (last.content == "shepoo"))
    || (last.name == KEY && versionRight && protocolRight && ValueOf(hs, KEY) != last.content)
  }

  lemma ValueWithLast(hs: seq<Header>, last: Header, name: string)
    ensures ValueOf(hs + [last], name) == if last.name == name then last.content else ValueOf(hs, name)
  {
    assert (hs + [last])[..|hs|] == hs;
  }

  lemma WholeVerdictAgrees(hs: seq<Header>, last: Header)
    ensures WholeVerdict(hs) == WholeVerdict(hs + [last]) <==> !LastDecides(hs, last)
  {
    ValueWithLast(hs, last, PROTOCOL);
    ValueWithLast(hs, last, VERSION);
    ValueWithLast(hs, last, KEY);
    assert |PROTOCOL| == 22 && |VERSION| == 21 && |KEY| == 17;
  }

  /** The exact domain of the handshake: the verdict is that of the whole request just when the last
      header would not change the verdict of the others. */
  lemma HandshakeIsRight(requestLine: string, hs: seq<Header>, last: Header, rest: string)
    requires Plain(requestLine) && |requestLine| + 2 >= INITIAL_SIZE
    requires (forall h :: h in hs ==> Wire(h)) && Wire(last) && |hs| + 1 <= 13
    ensures
      var lines := [requestLine] + Lines(hs + [last]);
      var request := Request(lines, rest);
      && |request| >= INITIAL_SIZE
      && TwoPhase(request[..INITIAL_SIZE], request[INITIAL_SIZE..]) == Split(lines, "\n" + rest)
      && (VerdictOn(lines) == WholeVerdict(hs + [last]) <==> !LastDecides(hs, last))
  {
    HandshakeOnRequest(requestLine, hs, last, rest);
    WholeVerdictAgrees(hs, last);
  }

  /** The verdict on a request, in the words that are sent: it is that of the last values of the three
      headers among all but the last. */
  lemma VerdictByText(requestLine: string, hs: seq<Header>, last: Header)
    requires Plain(requestLine) && |requestLine| >= 8
    requires (forall h :: h in hs ==> Wire(h)) && Wire(last) && |hs| + 1 <= 13
    ensures VerdictOn([requestLine] + Lines(hs + [last])) ==
      if ValueOf(hs, "Sec-WebSocket-Version") != "13" then UnsupportedVersion
      else if ValueOf(hs, "Sec-WebSocket-Protocol") != "shepoo" then UnsupportedProtocol
      else Accepted(ValueOf(hs, "Sec-WebSocket-Key"))
  {
    HandshakeOnRequest(requestLine, hs, last, "");
  }

  /** Requests that go well, whatever comes last. */
  lemma UpgradeAccepted(requestLine: string, key: string, last: Header)
    requires Plain(requestLine) && |requestLine| >= 8 && '\r' !in key && '\n' !in key && Wire(last)
    ensures
      var hs := [Header("Sec-WebSocket-Version", "13"), Header("Sec-WebSocket-Protocol", "shepoo"),
                 Header("Sec-WebSocket-Key", key)];
      VerdictOn([requestLine] + Lines(hs + [last])) == Accepted(key)
  {
    WireNames();
    AcceptedInOrder(requestLine, Header(VERSION, "13"), Header(PROTOCOL, "shepoo"), Header(KEY, key), last);
  }

  lemma AcceptedInOrder(requestLine: string, version: Header, protocol: Header, key: Header, last: Header)
    requires Plain(requestLine) && |requestLine| >= 8
    requires Wire(version) && Wire(protocol) && Wire(key) && Wire(last)
    requires version.name == VERSION && version.content == "13"
    requires protocol.name == PROTOCOL && protocol.content == "shepoo" && key.name == KEY
    ensures VerdictOn([requestLine] + Lines([version, protocol, key] + [last])) == Accepted(key.content)
  {
    var hs := [version, protocol, key];
    assert |PROTOCOL| == 22 && |VERSION| == 21 && |KEY| == 17;
    assert [version] == [] + [version] && [version, protocol] == [version] + [protocol];
    assert hs == [version, protocol] + [key];
    ValueWithLast([version, protocol], key, VERSION);
    ValueWithLast([version, protocol], key, PROTOCOL);
    ValueWithLast([version, protocol], key, KEY);
    ValueWithLast([version], protocol, VERSION);
    ValueWithLast([version], protocol, PROTOCOL);
    ValueWithLast([], version, VERSION);
    HandshakeOnRequest(requestLine, hs, last, "");
  }

  /** The lines of such a request, as they are sent. */
  lemma RequestText(requestLine: string, rest: string)
    ensures Line(Header("Sec-WebSocket-Version", "13")) == "Sec-WebSocket-Version: 13"
    ensures Line(Header("Sec-WebSocket-Protocol", "shepoo")) == "Sec-WebSocket-Protocol: shepoo"
    ensures Request([requestLine], rest) == requestLine + "\r\n" + "\r\n" + rest
  {
    assert [requestLine][1..] == [];
    RequestBytes([requestLine], rest);
    Regroup(requestLine + "\r\n", "\r\n", rest);
  }

  /** Requests that go wrong: everything is in order, the protocol comes last, and they are refused. */
  lemma ProtocolLastIsRefused(requestLine: string, key: string)
    requires Plain(requestLine) && |requestLine| + 2 >= INITIAL_SIZE && '\r' !in key && '\n' !in key
    ensures
      var hs := [Header(VERSION, "13"), Header(KEY, key)];
      var lines := [requestLine] + Lines(hs + [Header(PROTOCOL, "shepoo")]);
      var request := Request(lines, "");
      && |request| >= INITIAL_SIZE
      && TwoPhase(request[..INITIAL_SIZE], request[INITIAL_SIZE..]) == Split(lines, "\n" + "")
      && WholeVerdict(hs + [Header(PROTOCOL, "shepoo")]) == Accepted(key)
      && VerdictOn(lines) == UnsupportedProtocol
  {
    WireNames();
    ValuesOfTwo(Header(VERSION, "13"), Header(KEY, key));
    RefusedForLast(requestLine, [Header(VERSION, "13"), Header(KEY, key)], Header(PROTOCOL, "shepoo"), key);
  }

  /** The three names hold no separator. */
  lemma WireNames()
    ensures ':' !in VERSION && '\r' !in VERSION && '\n' !in VERSION
    ensures ':' !in KEY && '\r' !in KEY && '\n' !in KEY
    ensures ':' !in PROTOCOL && '\r' !in PROTOCOL && '\n' !in PROTOCOL
  {
  }

  lemma RefusedForLast(requestLine: string, hs: seq<Header>, last: Header, key: string)
    requires Plain(requestLine) && |requestLine| + 2 >= INITIAL_SIZE
    requires (forall h :: h in hs ==> Wire(h)) && Wire(last) && |hs| + 1 <= 13
    requires ValueOf(hs, VERSION) == "13" && ValueOf(hs, KEY) == key && ValueOf(hs, PROTOCOL) == ""
    requires last.name == PROTOCOL && last.content == "shepoo"
    ensures
      var lines := [requestLine] + Lines(hs + [last]);
      var request := Request(lines, "");
      && |request| >= INITIAL_SIZE
      && TwoPhase(request[..INITIAL_SIZE], request[INITIAL_SIZE..]) == Split(lines, "\n" + "")
      && WholeVerdict(hs + [last]) == Accepted(key)
      && VerdictOn(lines) == UnsupportedProtocol
  {
    ValueWithLast(hs, last, PROTOCOL);
    ValueWithLast(hs, last, VERSION);
    ValueWithLast(hs, last, KEY);
    assert |PROTOCOL| == 22 && |VERSION| == 21 && |KEY| == 17;
    HandshakeOnRequest(requestLine, hs, last, "");
  }

  lemma ValuesOfTwo(a: Header, b: Header)
    requires a.name == VERSION && b.name == KEY
    ensures ValueOf([a, b], VERSION) == a.content && ValueOf([a, b], KEY) == b.content
    ensures ValueOf([a, b], PROTOCOL) == ""
  {
    assert |PROTOCOL| == 22 && |VERSION| == 21 && |KEY| == 17;
    assert [a, b] == [a] + [b] && [a] == [] + [a];
    ValueWithLast([a], b, VERSION);
    ValueWithLast([a], b, KEY);
    ValueWithLast([a], b, PROTOCOL);
    ValueWithLast([], a, VERSION);
    ValueWithLast([], a, PROTOCOL);
  }

  /* ---------- the loops ---------- */

  /** Both splitting phases, over the fixed array of lines. */
  method SplitHeaders(initialData: string, stream: string, headerLines: array<string>)
    returns (r: Split, headers: nat)
    requires |initialData| == INITIAL_SIZE && headerLines.Length == MAX_HEADERS
    modifies headerLines
    ensures r == TwoPhase(initialData, stream)
    ensures r.Split? ==> headers == |r.lines| < MAX_HEADERS && headerLines[..headers] == r.lines
  {
    headerLines[0] := "";
    headers := 0;
    var i := 0;
    assert headerLines[..1] == [""] && initialData[0..] == initialData;
    while i < INITIAL_SIZE
      invariant 0 <= i <= INITIAL_SIZE && headers <= i
      invariant FeedAll(headerLines[..headers + 1], initialData[i..]) == FeedAll([""], initialData)
    {
      headers := FeedLineArray(headerLines, headers, initialData[i]);
      assert initialData[i..][1..] == initialData[i + 1..];
      i := i + 1;
    }
    assert initialData[i..] == "" && stream[0..] == stream;
    i := 0;
    while headers < MAX_HEADERS
      invariant 0 <= i <= |stream| && headers < MAX_HEADERS
      invariant Scan(headerLines[..headers + 1], stream[i..]) == TwoPhase(initialData, stream)
      decreases |stream| - i
    {
      if i == |stream| {
        return Starved, headers;
      }
      var c := stream[i];
      assert stream[i..][1..] == stream[i + 1..];
      i := i + 1;
      if c == '\r' {
        if headerLines[headers] == "" {
          assert headerLines[..headers + 1][..headers] == headerLines[..headers];
          return Split(headerLines[..headers], stream[i..]), headers;
        }
        if headers + 1 == MAX_HEADERS {
          return Overrun, headers;
        }
      }
      headers := FeedLineArray(headerLines, headers, c);
    }
  }

  method FeedLineArray(headerLines: array<string>, current: nat, c: char) returns (headers: nat)
    requires current < headerLines.Length
    requires c == '\r' ==> current + 1 < headerLines.Length
    modifies headerLines
    ensures headers == if c == '\r' then current + 1 else current
    ensures headerLines[..headers + 1] == Feed(old(headerLines[..current + 1]), c)
  {
    headers := current;
    if c != '\r' && c != '\n' {
      headerLines[headers] := headerLines[headers] + [c];
    } else if c == '\r' {
      headers := headers + 1;
      headerLines[headers] := "";
    }
  }

  /** The loop over the header lines, with its two inner loops over characters. */
  method JudgeHeaders(headerLines: seq<string>) returns (verdict: Verdict)
    ensures verdict == VerdictOn(headerLines)
  {
    var protocol, version, key := "", "", "";
    var headers := |headerLines| - 1;
    var i := 1;
    while i < headers
      invariant 1 <= i && (i <= headers || i == 1)
      invariant i <= headers ==>
        && protocol == LastMatch(headerLines[1..i], PROTOCOL)
        && version == LastMatch(headerLines[1..i], VERSION)
        && key == LastMatch(headerLines[1..i], KEY)
      invariant headers < i ==> protocol == version == key == ""
    {
      var headerName, headerContent := ParseLine(headerLines[i]);
      assert headerLines[1..i + 1][..i - 1] == headerLines[1..i];
      if headerName == PROTOCOL {
        protocol := headerContent;
      } else if headerName == VERSION {
        version := headerContent;
      } else if headerName == KEY {
        key := headerContent;
      }
      i := i + 1;
    }
    verdict := Judge(protocol, version, key);
  }

  method ParseLine(line: string) returns (headerName: string, headerContent: string)
    ensures headerName == NameOf(line) && headerContent == ContentOf(line)
  {
    var j: nat;
    headerName, j := ReadName(line);
    headerContent := ReadContent(line, j + 2);
  }

  /** Up to the first colon. */
  method ReadName(line: string) returns (headerName: string, j: nat)
    ensures j == Colon(line) && headerName == NameOf(line)
  {
    headerName, j := "", 0;
    while j < |line| && line[j] != ':'
      invariant 0 <= j <= |line| && headerName == line[..j]
      invariant Colon(line) == j + Colon(line[j..])
    {
      ColonStep(line, j);
      headerName := headerName + [line[j]];
      j := j + 1;
    }
    ColonStep(line, j);
  }

  lemma ColonStep(line: string, j: nat)
    requires j <= |line|
    ensures Colon(line[j..]) == if j == |line| || line[j] == ':' then 0 else 1 + Colon(line[j + 1..])
  {
    assert j < |line| ==> line[j..][1..] == line[j + 1..];
  }

  method ReadContent(line: string, start: nat) returns (headerContent: string)
    ensures headerContent == if start <= |line| then line[start..] else ""
  {
    headerContent := "";
    var j := start;
    while j < |line|
      invariant start <= j && (start <= |line| ==> j <= |line|)
      invariant headerContent == if start <= |line| then line[start..j] else ""
    {
      headerContent := headerContent + [line[j]];
      j := j + 1;
    }
  }
}
