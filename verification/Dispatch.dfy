/** InnerSubHandler::handleMessage: a front-end message becomes a request to a device,
    and what the browser gets to see of it. */
module Dispatch {
  import opened Text
  import opened SdsQuote
  import opened Decimal
  import opened Resp
  import opened Messages
  import opened Callbacks
  import opened Registry
  import opened Relay

  const CAUSE_NOT_CONNECTED := "not_connected"
  const CAUSE_NOT_HANDLED := "not_handled"

  /** Text published to the front end, or bytes written to the device and a callback
      waiting for the id. */
  datatype Outcome = Publish(text: string) | Forward(bytes: string, id: string)

  /** snprintf of the request kind, a blank, the text behind the host, and CRLF. */
  function Request(rest: string): string {
    "0 " + rest + CRLF
  }

  /** SERVER_COMMANDS_OUT_FAIL_2US. Its directive for the id is that of a 64-bit number,
      while the id is a string; `printed` is what the library makes of that. */
  function Failure(printed: string, command: string, cause: string): string {
    printed + " " + FAIL_COMMAND + " " + command + " " + cause
  }

  /** The command word for a failure text; the empty word stands for a command that
      cannot be tokenized, which the code does not handle. */
  function CommandWord(cmd: string): string {
    match Args(cmd)
    case Some(argv) => if argv == [] then "" else CText(argv[0])
    case None => ""
  }

  function Dispatched(msg: string, hosts: set<string>, fails: bool, printed: string): Outcome {
    var space := IndexOf(msg, ' ', 0);
    if space == |msg| then Publish("UNKNOWN COMMAND: " + msg)
    else
      var buff := Buffered(Request(msg[space + 1..]));
      var k := IndexOf(buff, ' ', 2);
      if k == |buff| then Publish("PROBLEM EXTRACTING ID: " + msg[space + 1..])
      else if msg[..space] !in hosts then Publish(Failure(printed, CommandWord(buff[k..]), CAUSE_NOT_CONNECTED))
      else if fails then Publish(Failure(printed, CommandWord(buff[k..]), CAUSE_NOT_HANDLED))
      else Forward(buff, buff[2..k])
  }

  /** The text behind the host. */
  function Rest(msg: string): string {
    var space := IndexOf(msg, ' ', 0);
    if space == |msg| then "" else msg[space + 1..]
  }

  lemma ZeroSequence(rest: string)
    ensures |Buffered(Request(rest))| > 2 && Strtoul(Buffered(Request(rest))) == (0, 1)
  {
    var s := Buffered(Request(rest));
    assert s[0] == '0' && s[1] == ' ';
    assert SkipSpaces(s, 0) == 0 && SkipDigits(s, 0) == SkipDigits(s, 1) == 1;
    assert s[0..1] == "0" && "0"[..0] == "";
  }

  /** handleMessage on the message text; `cb` is the bound processSubscribed, `fails` the
      result of the write, whose length is that of the text before it was cut, and `printed`
      the library's rendering of the id in a failure text. */
  method HandleMessage(parent: HttpServerHost, parser: CommandSeqParser, msg: string, cb: nat, fails: bool, printed: string)
    returns (outcome: Outcome, fclient: InnerTcpServerClient?)
    requires NUL !in msg && parser.Valid()
    requires msg[..IndexOf(msg, ' ', 0)] in parent.connections_ ==> |Request(Rest(msg))| < MAX_COMMAND_SIZE
    modifies parser
    ensures outcome == Dispatched(msg, parent.connections_.Keys, fails, printed)
    ensures parser.Valid()
    ensures outcome.Forward? ==>
              && msg[..IndexOf(msg, ' ', 0)] in parent.connections_
              && fclient == parent.connections_[msg[..IndexOf(msg, ' ', 0)]]
              && parser.history == old(parser.history) + [Subscribe(RequestCallback(outcome.id, Some(cb)))]
    ensures outcome.Publish? ==> parser.history == old(parser.history)
  {
    hide Strtoul, IndexOf, Args, Buffered, CommandSeqParser.Valid;
    fclient := null;
    var space := IndexOf(msg, ' ', 0);
    if space == |msg| {
      outcome := Publish("UNKNOWN COMMAND: " + msg);
      return;
    }
    var host, rest := msg[..space], msg[space + 1..];
    var buff := Buffered(Request(rest));
    ZeroSequence(rest);
    var (seqno, starSeq) := Strtoul(buff);
    assert buff[starSeq] == ' ';
    var idPtr := IndexOf(buff, ' ', starSeq + 1);
    if idPtr == |buff| {
      outcome := Publish("PROBLEM EXTRACTING ID: " + rest);
      return;
    }
    var id, cmd := buff[starSeq + 1..idPtr], buff[idPtr..];
    fclient := parent.FindInnerConnectionByHost(host);
    if fclient == null {
      outcome := Publish(Failure(printed, CommandWord(cmd), CAUSE_NOT_CONNECTED));
      return;
    }
    if fails {
      outcome := Publish(Failure(printed, CommandWord(cmd), CAUSE_NOT_HANDLED));
      return;
    }
    parser.SubscribeRequest(RequestCallback(id, Some(cb)));
    outcome := Forward(buff, id);
  }

  // ------------------------------------------------------------------------
  // What it means for device and browser.

  /** A front-end message: host, id, words as the tokenizer reads them. */
  function FrontEndMessage(host: string, id: string, texts: seq<string>): string {
    host + (" " + (id + (" " + Join(texts, " "))))
  }

  lemma DispatchParts(host: string, id: string, texts: seq<string>)
    requires ' ' !in host && ' ' !in id && |Message(REQUEST_COMMAND, id, Join(texts, " "))| < MAX_COMMAND_SIZE
    ensures var msg := FrontEndMessage(host, id, texts); var body := Join(texts, " ");
            && IndexOf(msg, ' ', 0) == |host| < |msg| && msg[..|host|] == host
            && msg[|host| + 1..] == id + (" " + body)
            && Buffered(Request(msg[|host| + 1..])) == Message(REQUEST_COMMAND, id, body)
    ensures var buff := Message(REQUEST_COMMAND, id, Join(texts, " "));
            && IndexOf(buff, ' ', 2) == 2 + |id| < |buff| && buff[2..2 + |id|] == id
            && buff[2 + |id|..] == " " + (Join(texts, " ") + CRLF)
  {
    hide IndexOf, Join;
    var msg := FrontEndMessage(host, id, texts);
    var body := Join(texts, " ");
    assert msg[0..] == msg && msg[0..|host|] == msg[..|host|];
    CutAt(msg, 0, host, id + (" " + body));
    var buff := Message(REQUEST_COMMAND, id, body);
    assert buff[2..] == id + (" " + (body + CRLF));
    assert "0 " + (id + (" " + body)) + CRLF == buff;
    CutAt(buff, 2, id, body + CRLF);
  }

  lemma DispatchOf(host: string, id: string, texts: seq<string>, hosts: set<string>, fails: bool, printed: string)
    requires ' ' !in host && ' ' !in id && |Message(REQUEST_COMMAND, id, Join(texts, " "))| < MAX_COMMAND_SIZE
    ensures Dispatched(FrontEndMessage(host, id, texts), hosts, fails, printed) ==
            if host in hosts && !fails then Forward(Message(REQUEST_COMMAND, id, Join(texts, " ")), id)
            else Publish(Failure(printed, CommandWord(" " + (Join(texts, " ") + CRLF)),
                                 if host in hosts then CAUSE_NOT_HANDLED else CAUSE_NOT_CONNECTED))
  {
    DispatchParts(host, id, texts);
    hide IndexOf, Join, Message, Request, Buffered, FrontEndMessage, CommandWord, Failure;
  }

  /** A message without a blank is reported as unknown, one whose id does not end within
      the buffer as one without id; any other is forwarded if the host is connected and
      the write succeeds. */
  lemma Undispatched(host: string, rest: string, hosts: set<string>, fails: bool, printed: string)
    requires ' ' !in host
    ensures Dispatched(host, hosts, fails, printed) == Publish("UNKNOWN COMMAND: " + host)
    ensures var o := Dispatched(host + (" " + rest), hosts, fails, printed);
            var idEnds := ' ' in rest[..if |rest| < 1021 then |rest| else 1021];
            && (!idEnds ==> o == Publish("PROBLEM EXTRACTING ID: " + rest))
            && (o.Forward? <==> idEnds && host in hosts && !fails)
  {
    HostOf(host, rest);
    NoIdInBuffer(rest);
    hide *;
    DispatchedOne(host, hosts, fails, printed);
    DispatchedTwo(host + (" " + rest), host, rest, hosts, fails, printed);
  }

  lemma HostOf(host: string, rest: string)
    requires ' ' !in host
    ensures IndexOf(host, ' ', 0) == |host|
    ensures HostEnds(host + (" " + rest), host, rest)
  {
    hide IndexOf;
    var msg := host + (" " + rest);
    assert msg[0..] == msg && msg[0..|host|] == msg[..|host|] && host[0..|host|] == host;
    IndexIs(host, ' ', 0, |host|);
    CutAt(msg, 0, host, rest);
  }

  ghost predicate HostEnds(msg: string, host: string, rest: string) {
    && IndexOf(msg, ' ', 0) == |host| < |msg| && msg[..|host|] == host && msg[|host| + 1..] == rest
  }

  lemma DispatchedOne(msg: string, hosts: set<string>, fails: bool, printed: string)
    requires IndexOf(msg, ' ', 0) == |msg|
    ensures Dispatched(msg, hosts, fails, printed) == Publish("UNKNOWN COMMAND: " + msg)
  {
    hide IndexOf, Buffered, Request, CommandWord, Failure;
  }

  lemma DispatchedTwo(msg: string, host: string, rest: string, hosts: set<string>, fails: bool, printed: string)
    requires HostEnds(msg, host, rest) && |Buffered(Request(rest))| > 2
    ensures var o := Dispatched(msg, hosts, fails, printed);
            var k := IndexOf(Buffered(Request(rest)), ' ', 2);
            && (k == |Buffered(Request(rest))| ==> o == Publish("PROBLEM EXTRACTING ID: " + rest))
            && (o.Forward? <==> k < |Buffered(Request(rest))| && host in hosts && !fails)
  {
    hide IndexOf, Buffered, Request, CommandWord, Failure;
  }

  /** Two bytes of kind and blank come before the id, and one is left for the terminator. */
  lemma NoIdInBuffer(rest: string)
    ensures var buff := Buffered(Request(rest));
            |buff| > 2 && (IndexOf(buff, ' ', 2) == |buff| <==> ' ' !in rest[..if |rest| < 1021 then |rest| else 1021])
  {
    var buff := Buffered(Request(rest));
    var n := if |rest| < 1021 then |rest| else 1021;
    BufferOf(rest, n);
    hide Buffered, Request;
    if ' ' in rest[..n] {
      var i :| 0 <= i < n && rest[i] == ' ';
      IndexBound(buff, ' ', 2, 2 + i);
    } else {
      assert ' ' !in buff[2..];
      assert buff[2..|buff|] == buff[2..];
      IndexIs(buff, ' ', 2, |buff|);
    }
  }

  lemma BufferOf(rest: string, n: nat)
    requires n == if |rest| < 1021 then |rest| else 1021
    ensures var buff := Buffered(Request(rest));
            && 2 + n <= |buff| && |buff| > 2 && (forall i :: 0 <= i < n ==> buff[2 + i] == rest[i])
            && (' ' !in rest[..n] ==> ' ' !in buff[2..])
  {
    var buff := Buffered(Request(rest));
    var whole := Request(rest);
    assert forall i :: 0 <= i < |rest| ==> whole[2 + i] == rest[i];
    assert whole[2 + |rest|] == '\r' && whole[3 + |rest|] == '\n';
    if ' ' !in rest[..n] {
      forall i | 0 <= i < |buff| - 2
        ensures buff[2..][i] != ' '
      {
        assert i < n ==> rest[..n][i] == whole[2 + i];
      }
    }
  }

  /** A message for a connected host is parsed by the device as a request with the same
      id and words. */
  lemma ReachesDevice(host: string, id: string, texts: seq<string>, values: seq<string>, hosts: set<string>, printed: string)
    requires ' ' !in host && ' ' !in id && host in hosts
    requires NUL !in id && NUL !in Join(texts, " ")
    requires |Message(REQUEST_COMMAND, id, Join(texts, " "))| < MAX_COMMAND_SIZE
    requires |texts| == |values| && forall i :: 0 <= i < |texts| ==> Writes(texts[i], values[i])
    requires (forall k :: !CrlfAt(id, k)) && (forall k :: !CrlfAt(Join(texts, " "), k))
    ensures var o := Dispatched(FrontEndMessage(host, id, texts), hosts, false, printed);
            o.Forward? && o.id == id && Received(o.bytes) == Command(REQUEST_COMMAND, id, values)
  {
    DispatchOf(host, id, texts, hosts, false, printed);
    hide Received, Join, Message, FrontEndMessage, Dispatched, Writes;
    assert Join(texts, " ") + "" == Join(texts, " ");
    MessageRoundTrip(REQUEST_COMMAND, id, texts, values, "");
  }

  /** A message that cannot be delivered is published as the failure of that command, with
      the cause, under the id as the library prints it. The browser sees the failure of the
      message it sent if and only if that is the id itself. */
  lemma FailureReported(host: string, id: string, texts: seq<string>, values: seq<string>,
                        hosts: set<string>, fails: bool, printed: string)
    requires ' ' !in host && ' ' !in id && (host !in hosts || fails)
    requires |Message(REQUEST_COMMAND, id, Join(texts, " "))| < MAX_COMMAND_SIZE
    requires |texts| == |values| > 0 && forall i :: 0 <= i < |texts| ==> Writes(texts[i], values[i])
    requires NUL !in id && NUL !in Join(texts, " ") && ' ' !in values[0] && NUL !in values[0]
    ensures var o := Dispatched(FrontEndMessage(host, id, texts), hosts, fails, printed);
            var cause := if host in hosts then CAUSE_NOT_HANDLED else CAUSE_NOT_CONNECTED;
            && o.Publish?
            && (' ' !in printed ==> ParseOut(o.text) == Some(OutMessage(printed, false, values[0], " " + cause)))
            && (ParseOut(o.text) == Some(OutMessage(id, false, values[0], " " + cause)) <==> printed == id)
  {
    DispatchOf(host, id, texts, hosts, fails, printed);
    CommandOf(texts, values);
    hide Join, Message, FrontEndMessage, ParseOut, CommandWord, Dispatched, Writes, Failure;
    var cause := if host in hosts then CAUSE_NOT_HANDLED else CAUSE_NOT_CONNECTED;
    FailureSeen(id, printed, values[0], cause);
  }

  lemma CommandOf(texts: seq<string>, values: seq<string>)
    requires |texts| == |values| > 0 && forall i :: 0 <= i < |texts| ==> Writes(texts[i], values[i])
    requires NUL !in values[0]
    ensures CommandWord(" " + (Join(texts, " ") + CRLF)) == values[0]
  {
    hide Join, Writes, Args;
    assert AtBoundary(CRLF) && SkipBlanks(CRLF) == "";
    ReadWords(texts, values, CRLF);
    LeadingBlank(Join(texts, " ") + CRLF);
    CTextPlain(values[0]);
  }

  lemma FailureSeen(id: string, printed: string, command: string, cause: string)
    requires ' ' !in id && ' ' !in command
    ensures ' ' !in printed ==>
              ParseOut(Failure(printed, command, cause)) == Some(OutMessage(printed, false, command, " " + cause))
    ensures ParseOut(Failure(printed, command, cause)) == Some(OutMessage(id, false, command, " " + cause)) <==> printed == id
  {
    var text := Failure(printed, command, cause);
    var rest2 := command + (" " + cause);
    var rest1 := FAIL_COMMAND + (" " + rest2);
    assert text == printed + (" " + rest1);
    hide ParseOut, Failure;
    if ' ' !in printed {
      ParseOutFull(text, printed, rest1, FAIL_COMMAND, rest2, command, cause);
    }
    if ParseOut(text) == Some(OutMessage(id, false, command, " " + cause)) {
      ParseOutInverse(text);
      assert text == id + (" " + rest1);
      assert printed == text[..|text| - |" " + rest1|] == id;
    }
  }

  // ------------------------------------------------------------------------
  // handleInnerDataReceived, which both sides share.

  const STATE_COMMAND := "state_command"

  /** The text up to the first CRLF, which is what the buffer holds once that is overwritten. */
  function LineOf(text: string): string {
    match FindCrlf(text)
    case None => text
    case Some(k) => text[..k]
  }

  /** STATE_COMMAND_RESP_FAIL_1S with the line that was refused. */
  function StateFailure(id: string, line: string): string {
    Message(RESPONCE_COMMAND, id, StateBody(FAIL_COMMAND, STATE_COMMAND, [line]))
  }

  /** The answer to a buffer that is no command, after which the connection is closed. It
      carries the id, where one was read, and otherwise the next of the receiver's own. */
  function Refusal(p: Parsed, line: string, counter: nat): Option<string> {
    match p
    case Command(_, _, _) => None
    case BadArguments(id) => Some(Buffered(StateFailure(id, line)))
    case _ => Some(Buffered(StateFailure(HexText(counter, 16), line)))
  }

  /** The messages whose callbacks run. */
  function Receipts(p: Parsed): seq<Callbacks.Event> {
    match p
    case Command(_, id, argv) => [Receive(id, Some(argv))]
    case BadArguments(id) => [Receive(id, None)]
    case _ => []
  }

  /** A refusal is answered and closes the connection; a command goes to the handler of its
      kind. */
  method HandleInnerData(parser: CommandSeqParser, buff: array<char>) returns (p: Parsed, answer: Option<string>)
    requires parser.Valid() && NUL in buff[..]
    modifies parser, buff
    ensures parser.Valid()
    ensures p == Received(old(buff[..]))
    ensures answer == Refusal(p, LineOf(CText(old(buff[..]))), old(parser.id_))
    ensures parser.history == old(parser.history) + Receipts(p)
    ensures parser.id_ ==
            if p.Command? || p.BadArguments? then old(parser.id_) else if old(parser.id_) == UINTMAX then 0 else old(parser.id_) + 1
  {
    hide Received, HexText, Buffered, StateFailure, CommandSeqParser.Valid;
    ghost var counter := parser.id_;
    var line := LineOf(CText(buff[..]));
    p := HandleData(buff);
    match p
    case Command(_, id, argv) =>
      parser.ProcessRequest(id, Some(argv));
      answer := None;
    case BadArguments(id) =>
      parser.ProcessRequest(id, None);
      answer := Some(Buffered(StateFailure(id, line)));
    case _ =>
      var id := parser.NextId();
      answer := Some(Buffered(StateFailure(id, line)));
  }

  /** Ids read from a message, and issued ones, can be sent back. */
  ghost predicate Carriable(id: string) {
    ' ' !in id && NUL !in id && forall k :: !CrlfAt(id, k)
  }

  lemma LineIsLine(text: string)
    requires NUL !in text
    ensures NUL !in LineOf(text) && forall k :: !CrlfAt(LineOf(text), k)
  {
    var line := LineOf(text);
    forall k
      ensures !CrlfAt(line, k)
    {
      assert CrlfAt(line, k) ==> CrlfAt(text, k);
    }
  }

  lemma IssuedId(counter: nat)
    requires counter <= UINTMAX
    ensures Carriable(HexText(counter, 16))
  {
    IdIsCounter(counter);
    hide HexText;
    var id := HexText(counter, 16);
    forall i | 0 <= i < 16
      ensures id[i] != ' ' && id[i] != NUL && id[i] != '\r'
    {
      assert IsHex(id[i]);
    }
  }

  lemma ReadId(line: string)
    requires ParseLine(line).BadArguments? && NUL !in line && forall k :: !CrlfAt(line, k)
    ensures Carriable(ParseLine(line).id)
  {
    hide Strtoul, Args;
    var star := Strtoul(line).1;
    var space := IndexOf(line, ' ', star + 1);
    var id := line[star + 1..space];
    forall k
      ensures !CrlfAt(id, k)
    {
      assert !CrlfAt(line, star + 1 + k);
    }
  }

  /** What the other side makes of the answer: the failure of state_command with the words
      of the refused line, under the same id; when these words cannot be told apart either,
      it refuses the answer in turn, and an answer that does not fit has lost its end. */
  lemma RefusalRead(text: string, counter: nat)
    requires NUL !in text && counter <= UINTMAX && !Parse(text).Command?
    ensures var id := if Parse(text).BadArguments? then Parse(text).id else HexText(counter, 16);
            var answer := Refusal(Parse(text), LineOf(text), counter);
            && answer.Some? && Carriable(id)
            && Received(answer.value) ==
               if |StateFailure(id, LineOf(text))| >= MAX_COMMAND_SIZE then NoEnd
               else match Args(LineOf(text))
                    case None => BadArguments(id)
                    case Some(argv) => Command(RESPONCE_COMMAND, id, ["fail", "state_command"] + argv)
  {
    LineIsLine(text);
    IssuedId(counter);
    if Parse(text).BadArguments? {
      ReadId(LineOf(text));
    }
    var id := if Parse(text).BadArguments? then Parse(text).id else HexText(counter, 16);
    hide Parse, LineOf, HexText, Received, Buffered, StateFailure, Args, Carriable;
    FailureRead(id, LineOf(text));
  }

  lemma FailureRead(id: string, line: string)
    requires Carriable(id) && NUL !in line && forall k :: !CrlfAt(line, k)
    ensures Received(Buffered(StateFailure(id, line))) ==
            if |StateFailure(id, line)| >= MAX_COMMAND_SIZE then NoEnd
            else match Args(line)
                 case None => BadArguments(id)
                 case Some(argv) => Command(RESPONCE_COMMAND, id, ["fail", "state_command"] + argv)
  {
    var body := FailBody(line);
    FailureBody(line);
    assert StateFailure(id, line) == Message(RESPONCE_COMMAND, id, body);
    hide Parse, Received, Buffered, Args, Message, FailBody, StateFailure;
    ReceivedCutOff(RESPONCE_COMMAND, id, body);
    FailureParsed(id, line);
  }

  function FailBody(line: string): string {
    FAIL_COMMAND + (" " + (STATE_COMMAND + (" " + line)))
  }

  lemma FailureParsed(id: string, line: string)
    requires Carriable(id) && NUL !in line && forall k :: !CrlfAt(line, k)
    ensures Parse(Message(RESPONCE_COMMAND, id, FailBody(line))) ==
            match Args(line)
            case None => BadArguments(id)
            case Some(argv) => Command(RESPONCE_COMMAND, id, ["fail", "state_command"] + argv)
  {
    var body := FailBody(line);
    FailureBody(line);
    LineOfMessage(RESPONCE_COMMAND, id, body);
    SequenceOf(RESPONCE_COMMAND, id, body);
    FailureWords(line);
    hide Parse, ParseLine, Strtoul, Args, Message, FailBody;
    LineParsed(Dec(RESPONCE_COMMAND), RESPONCE_COMMAND, id, body);
  }

  lemma FailureWords(line: string)
    ensures Args(" " + FailBody(line)) ==
            match Args(line) case None => None case Some(argv) => Some(["fail", "state_command"] + argv)
  {
    hide Args;
    LeadingBlank(FailBody(line));
    WordBefore(STATE_COMMAND, line);
    WordBefore(FAIL_COMMAND, STATE_COMMAND + (" " + line));
    if Args(line).Some? {
      assert ["fail"] + (["state_command"] + Args(line).value) == ["fail", "state_command"] + Args(line).value;
    }
  }

  lemma FailureBody(line: string)
    requires NUL !in line && forall k :: !CrlfAt(line, k)
    ensures StateBody(FAIL_COMMAND, STATE_COMMAND, [line]) == FailBody(line)
    ensures NUL !in FailBody(line) && forall k :: !CrlfAt(FailBody(line), k)
  {
    assert Join([line], " ") == line;
    NoCrlfAround(STATE_COMMAND, line);
    NoCrlfAround(FAIL_COMMAND, STATE_COMMAND + (" " + line));
  }

  /** A message with an id uses up the callbacks that wait for it, even when its arguments
      are refused: they run without arguments, in subscription order, and none is left. */
  lemma RefusedReplyRuns(events: seq<Callbacks.Event>, p: Parsed)
    requires p.Command? || p.BadArguments?
    ensures var before := Callbacks.Run(events); var after := Callbacks.Run(events + Receipts(p));
            var argv := if p.Command? then Some(p.argv) else None;
            && after.executed == before.executed + Executions(Waiting(before.pending, p.id), argv)
            && (forall cb :: cb in after.pending ==> cb.requestId != p.id)
            && multiset(before.pending) == multiset(after.pending) + multiset(Waiting(before.pending, p.id))
  {
    var argv := if p.Command? then Some(p.argv) else None;
    assert Receipts(p) == [Receive(p.id, argv)];
    hide *;
    RunReceive(events, p.id, argv);
    SplitById(Callbacks.Run(events).pending, p.id);
  }

  lemma RunReceive(events: seq<Callbacks.Event>, id: string, argv: Option<seq<string>>)
    ensures var before := Callbacks.Run(events);
            Callbacks.Run(events + [Receive(id, argv)]) ==
            State(Others(before.pending, id), before.executed + Executions(Waiting(before.pending, id), argv))
  {
    var all := events + [Receive(id, argv)];
    assert all[..|events|] == events && all[|events|] == Receive(id, argv);
    hide Waiting, Others, Executions;
  }

  /** The way back. The device's reply is parsed to its words, if it fits the buffer; a
      message with this id runs the callback that waits for it, which is no longer pending
      then, whatever else was subscribed and received in between; and the text published
      from these words shows the browser the same id, status, command and words. */
  lemma ReplyReachesBrowser(events: seq<Callbacks.Event>, rc: RequestCallback, middle: seq<Callbacks.Event>,
                            texts: seq<string>, values: seq<string>)
    requires var id := rc.requestId; ' ' !in id && NUL !in id && forall k :: !CrlfAt(id, k)
    requires NotReceived(middle, rc.requestId) && NUL !in Join(texts, " ")
    requires |texts| == |values| >= 3 && forall i :: 0 <= i < |texts| ==> Writes(texts[i], values[i])
    requires forall k :: !CrlfAt(Join(texts, " "), k)
    requires values[0] in {SUCCESS_COMMAND, FAIL_COMMAND} && ' ' !in values[1]
    requires forall i :: 0 <= i < |values| ==> NUL !in values[i]
    ensures var m := Message(RESPONCE_COMMAND, rc.requestId, Join(texts, " "));
            Received(Buffered(m)) == if |m| < MAX_COMMAND_SIZE then Command(RESPONCE_COMMAND, rc.requestId, values) else NoEnd
    ensures ReplyRuns(events + [Subscribe(rc)] + middle, rc, Some(values))
    ensures ParseOut(RelayText(rc.requestId, values)) ==
            Some(OutMessage(rc.requestId, values[0] == SUCCESS_COMMAND, values[1], " " + Join(values[2..], " ")))
  {
    hide Received, ParseOut, Message, Buffered, RelayText, ReplyRuns, NotReceived, Writes, Join;
    RunsCallback(events, rc, middle, Some(values));
    ReplyParsed(rc.requestId, texts, values);
    assert ' ' !in SUCCESS_COMMAND && ' ' !in FAIL_COMMAND;
    RelayedReply(rc.requestId, values);
  }

  lemma ReplyParsed(id: string, texts: seq<string>, values: seq<string>)
    requires ' ' !in id && NUL !in id && NUL !in Join(texts, " ")
    requires (forall k :: !CrlfAt(id, k)) && (forall k :: !CrlfAt(Join(texts, " "), k))
    requires |texts| == |values| && forall i :: 0 <= i < |texts| ==> Writes(texts[i], values[i])
    ensures var m := Message(RESPONCE_COMMAND, id, Join(texts, " "));
            Received(Buffered(m)) == if |m| < MAX_COMMAND_SIZE then Command(RESPONCE_COMMAND, id, values) else NoEnd
  {
    hide Parse, Received, Message, Buffered, Writes, Join;
    assert Join(texts, " ") + "" == Join(texts, " ");
    MessageParsed(RESPONCE_COMMAND, id, texts, values, "");
    ReceivedCutOff(RESPONCE_COMMAND, id, Join(texts, " "));
  }

  /** After this history, a message with the callback's id runs the callback, behind what
      has run before, and leaves it no longer pending. */
  ghost predicate ReplyRuns(history: seq<Callbacks.Event>, rc: RequestCallback, argv: Option<seq<string>>) {
    var before := Callbacks.Run(history);
    var after := Callbacks.Run(history + [Receive(rc.requestId, argv)]);
    && before.executed <= after.executed
    && Execution(rc, argv) in after.executed[|before.executed|..]
    && rc !in after.pending
  }

  lemma RunsCallback(events: seq<Callbacks.Event>, rc: RequestCallback, middle: seq<Callbacks.Event>, argv: Option<seq<string>>)
    requires NotReceived(middle, rc.requestId)
    ensures ReplyRuns(events + [Subscribe(rc)] + middle, rc, argv)
  {
    var id := rc.requestId;
    var history := events + [Subscribe(rc)] + middle;
    var p := Callbacks.Run(history).pending;
    StaysPending(events, rc, middle);
    SplitById(p, id);
    assert rc in multiset(p);
    var i :| 0 <= i < |Waiting(p, id)| && Waiting(p, id)[i] == rc;
    assert Executions(Waiting(p, id), argv)[i] == Execution(rc, argv);
    assert (history + [Receive(id, argv)])[..|history|] == history;
  }

  /** Messages with other ids leave a waiting callback alone. */
  lemma {:induction false} StaysPending(events: seq<Callbacks.Event>, rc: RequestCallback, middle: seq<Callbacks.Event>)
    requires NotReceived(middle, rc.requestId)
    ensures rc in Callbacks.Run(events + [Subscribe(rc)] + middle).pending
  {
    var start := events + [Subscribe(rc)];
    if middle == [] {
      assert start + middle == start && start[..|events|] == events;
    } else {
      var m := |middle| - 1;
      var all := start + middle;
      assert all[..|all| - 1] == start + middle[..m] && all[|all| - 1] == middle[m];
      StaysPending(events, rc, middle[..m]);
      if middle[m].Receive? {
        var p := Callbacks.Run(start + middle[..m]).pending;
        SplitById(p, middle[m].id);
        assert rc in multiset(p);
      }
    }
  }
}
