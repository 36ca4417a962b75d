/** The inner command protocol: building messages, parsing a received buffer, and
    the login text of a who_are_you answer. */
module Messages {
  import opened Text
  import opened Decimal
  import opened Resp
  import opened SdsQuote

  const REQUEST_COMMAND := 0
  const RESPONCE_COMMAND := 1
  const APPROVE_COMMAND := 2
  const MAX_COMMAND_SIZE := 1024
  const SUCCESS_COMMAND := "ok"
  const FAIL_COMMAND := "fail"
  const WHO_ARE_YOU_COMMAND := "who_are_you"
  const ULONG_MAX := 0xffff_ffff_ffff_ffff

  // ------------------------------------------------------------------------
  // Building.

  /** "%u %s <body>\r\n" */
  function Message(kind: nat, id: string, body: string): string {
    Dec(kind) + (" " + (id + (" " + (body + CRLF))))
  }

  /** GENERATE_FMT: command, blank, arguments (maybe none). */
  function RequestBody(cmd: string, args: seq<string>): string {
    cmd + " " + Join(args, " ")
  }

  /** GENEATATE_SUCCESS_FMT and GENEATATE_FAIL_FMT */
  function StateBody(state: string, cmd: string, args: seq<string>): string {
    state + " " + RequestBody(cmd, args)
  }

  /** What SNPrintf leaves of a text in a buffer of MAX_COMMAND_SIZE bytes: the terminator
      takes the last one. */
  function Buffered(text: string): (r: string)
    ensures r <= text && |r| == if |text| < 1024 then |text| else 1023
  {
    if |text| < MAX_COMMAND_SIZE then text else text[..MAX_COMMAND_SIZE - 1]
  }

  // ------------------------------------------------------------------------
  // Parsing.

  /** The C string at the start of a buffer. */
  function CText(mem: string): (r: string)
    ensures NUL !in r && |r| <= |mem| && r == mem[..|r|]
    ensures |r| < |mem| ==> mem[|r|] == NUL
  {
    if mem == "" || mem[0] == NUL then "" else [mem[0]] + CText(mem[1..])
  }

  lemma CTextShort(mem: string)
    requires NUL in mem
    ensures |CText(mem)| < |mem|
  {
    assert |CText(mem)| == |mem| ==> mem == CText(mem);
  }

  lemma {:induction false} CTextPlain(s: string)
    requires NUL !in s
    ensures CText(s) == s
  {
    if s != "" {
      CTextPlain(s[1..]);
    }
  }

  function SkipSpaces(s: string, i: nat): (j: nat)
    requires i <= |s|
    ensures i <= j <= |s|
    decreases |s| - i
  {
    if i < |s| && IsSpace(s[i]) then SkipSpaces(s, i + 1) else i
  }

  function SkipDigits(s: string, i: nat): (j: nat)
    requires i <= |s|
    ensures i <= j <= |s|
    decreases |s| - i
  {
    if i < |s| && IsDigit(s[i]) then SkipDigits(s, i + 1) else i
  }

  function DigitsValue(s: string): nat
    requires forall i :: 0 <= i < |s| ==> IsDigit(s[i])
  {
    if s == "" then 0
    else
      var d := s[|s| - 1];
      assert IsDigit(d);
      DigitsValue(s[..|s| - 1]) * 10 + DigitValue(d)
  }

  lemma {:induction false} SkippedDigits(s: string, i: nat)
    requires i <= |s|
    ensures forall k :: i <= k < SkipDigits(s, i) ==> IsDigit(s[k])
    decreases |s| - i
  {
    if i < |s| && IsDigit(s[i]) {
      SkippedDigits(s, i + 1);
    }
  }

  /** strtoul(s, &end, 10): white space, an optional sign, digits; nothing is
      consumed when there is no digit; too large a number saturates. */
  function Strtoul(s: string): (r: (nat, nat))
    ensures r.1 <= |s| && r.0 <= ULONG_MAX
  {
    var i := SkipSpaces(s, 0);
    var j := if i < |s| && (s[i] == '-' || s[i] == '+') then i + 1 else i;
    var end := SkipDigits(s, j);
    if end == j then (0, 0)
    else
      SkippedDigits(s, j);
      var digits := s[j..end];
      assert forall k :: 0 <= k < |digits| ==> digits[k] == s[j + k] && IsDigit(digits[k]);
      var v := DigitsValue(digits);
      if v > ULONG_MAX then (ULONG_MAX, end)
      else if j > i && s[i] == '-' && v > 0 then (ULONG_MAX + 1 - v, end)
      else (v, end)
  }

  /** What handleInnerDataReceived makes of a buffer: an answer "fail state_command"
      and a closed connection, or a command for a handler. The callbacks waiting for
      the id run in the last two cases. */
  datatype Parsed =
    | NoEnd
    | NoSequence
    | NoId
    | BadArguments(id: string)
    | Command(seqno: nat, id: string, argv: seq<string>)

  function IndexOf(s: string, c: char, i: nat): (j: nat)
    requires i <= |s|
    ensures i <= j <= |s| && c !in s[i..j] && (j < |s| ==> s[j] == c)
    decreases |s| - i
  {
    if i < |s| && s[i] != c then
      var j := IndexOf(s, c, i + 1);
      assert s[i..j] == [s[i]] + s[i + 1..j];
      j
    else i
  }

  function ParseLine(line: string): Parsed {
    var (seqno, star) := Strtoul(line);
    if star == |line| || line[star] != ' ' then NoSequence
    else
      var space := IndexOf(line, ' ', star + 1);
      if space == |line| then NoId
      else
        var id := line[star + 1..space];
        match Args(line[space..])
        case None => BadArguments(id)
        case Some(argv) => Command(seqno % 256, id, argv)
  }

  function Parse(text: string): Parsed {
    match FindCrlf(text)
    case None => NoEnd
    case Some(k) => ParseLine(text[..k])
  }

  /** What the receiver makes of a buffer: it ends at the first terminator. */
  function Received(buff: string): Parsed {
    Parse(CText(buff))
  }

  lemma ReceivedWhole(text: string)
    requires NUL !in text
    ensures Received(text) == Parse(text)
  {
    CTextPlain(text);
  }

  /** handleInnerDataReceived up to the dispatch. The CR of the first CRLF is overwritten. */
  method HandleData(buff: array<char>) returns (r: Parsed)
    requires NUL in buff[..]
    modifies buff
    ensures r == Received(old(buff[..]))
  {
    ghost var text := CText(buff[..]);
    CTextShort(buff[..]);
    var end := StrStrCrlf(buff, |text|);
    if end.None? {
      return NoEnd;
    }
    buff[end.value] := NUL;
    var line := buff[..end.value];
    assert line == text[..end.value];
    r := ParseCommand(line);
  }

  /** strstr(buff, "\r\n"), not looking past the terminator. */
  method StrStrCrlf(buff: array<char>, ghost n: nat) returns (r: Option<nat>)
    requires n < buff.Length && n == |CText(buff[..])|
    ensures r == FindCrlf(CText(buff[..]))
  {
    ghost var text := CText(buff[..]);
    assert forall k :: 0 <= k < n ==> text[k] == buff[k] != NUL;
    assert buff[n] == NUL;
    var i := 0;
    while buff[i] != NUL
      invariant 0 <= i <= n && forall k :: 0 <= k < i ==> !CrlfAt(text, k)
      decreases n - i
    {
      if buff[i] == '\r' && buff[i + 1] == '\n' {
        assert CrlfAt(text, i);
        CrlfIs(text, i);
        return Some(i);
      }
      i := i + 1;
    }
    return None;
  }

  /** strtoul, strchr and sdssplitargs on the line, which the terminator now ends. */
  method ParseCommand(line: string) returns (r: Parsed)
    requires NUL !in line
    ensures r == ParseLine(line)
  {
    hide Strtoul, Args;
    var mem := line + [NUL];
    var (seqno, star) := Strtoul(line);
    if mem[star] != ' ' {
      return NoSequence;
    }
    var idPtr := star + 1;
    while idPtr < |line| && mem[idPtr] != ' '
      invariant star < idPtr <= |line| && ' ' !in line[star + 1..idPtr]
    {
      assert line[star + 1..idPtr + 1] == line[star + 1..idPtr] + [line[idPtr]];
      idPtr := idPtr + 1;
    }
    IndexIs(line, ' ', star + 1, idPtr);
    if idPtr == |line| {
      return NoId;
    }
    var id := line[star + 1..idPtr];
    var cmd := mem[idPtr..];
    assert cmd[..|cmd| - 1] == line[idPtr..];
    var argv := SplitArgs(cmd);
    assert From(cmd, 0) == line[idPtr..];
    if argv.None? {
      return BadArguments(id);
    }
    return Command(seqno % 256, id, argv.value);
  }

  lemma {:induction false} IndexIs(s: string, c: char, i: nat, j: nat)
    requires i <= j <= |s| && c !in s[i..j] && (j < |s| ==> s[j] == c)
    ensures IndexOf(s, c, i) == j
    decreases j - i
  {
    if i < j {
      assert s[i..j] == [s[i]] + s[i + 1..j];
      IndexIs(s, c, i + 1, j);
    }
  }

  lemma {:induction false} IndexBound(s: string, c: char, i: nat, k: nat)
    requires i <= k < |s| && s[k] == c
    ensures IndexOf(s, c, i) <= k
    decreases k - i
  {
    if i < k && s[i] != c {
      IndexBound(s, c, i + 1, k);
    }
  }

  // ------------------------------------------------------------------------
  // What a line is taken for.

  predicate AllDigits(s: string) {
    forall i :: 0 <= i < |s| ==> IsDigit(s[i])
  }

  /** The digits of a number, with any leading zeros, are worth that number. */
  lemma {:induction false} DigitsOfDec(zeros: string, n: nat)
    requires forall i :: 0 <= i < |zeros| ==> zeros[i] == '0'
    ensures AllDigits(zeros + Dec(n)) && DigitsValue(zeros + Dec(n)) == n
    decreases n, |zeros|
  {
    var s := zeros + Dec(n);
    DecStep(n);
    hide Dec;
    if n >= 10 {
      assert s[..|s| - 1] == zeros + Dec(n / 10);
      DigitsOfDec(zeros, n / 10);
    } else {
      assert s[..|s| - 1] == zeros;
      ZerosAreZero(zeros);
    }
  }

  lemma {:induction false} ZerosAreZero(zeros: string)
    requires forall i :: 0 <= i < |zeros| ==> zeros[i] == '0'
    ensures DigitsValue(zeros) == 0
  {
    if zeros != "" {
      ZerosAreZero(zeros[..|zeros| - 1]);
    }
  }

  lemma {:induction false} SkipSpacesTo(s: string, i: nat, j: nat)
    requires i <= j <= |s| && (forall k :: i <= k < j ==> IsSpace(s[k])) && (j < |s| ==> !IsSpace(s[j]))
    ensures SkipSpaces(s, i) == j
    decreases j - i
  {
    if i < j {
      SkipSpacesTo(s, i + 1, j);
    }
  }

  lemma {:induction false} SkipDigitsTo(s: string, i: nat, j: nat)
    requires i <= j <= |s| && (forall k :: i <= k < j ==> IsDigit(s[k])) && (j < |s| ==> !IsDigit(s[j]))
    ensures SkipDigits(s, i) == j
    decreases j - i
  {
    if i < j {
      SkipDigitsTo(s, i + 1, j);
    }
  }

  /** How strtoul reads a number is written: white space, at most one sign, zeros, digits. */
  datatype Numeral = Numeral(blanks: string, sign: string, zeros: string, n: nat) {
    predicate Legal() {
      && (forall i :: 0 <= i < |blanks| ==> IsSpace(blanks[i]))
      && (sign == "" || sign == "+" || sign == "-")
      && (forall i :: 0 <= i < |zeros| ==> zeros[i] == '0')
    }

    function Text(): string {
      blanks + (sign + (zeros + Dec(n)))
    }

    /** Negation is modulo 2^64, and what does not fit 64 bits is the largest value. */
    function Value(): nat {
      if n > 0xffff_ffff_ffff_ffff then 0xffff_ffff_ffff_ffff
      else if sign == "-" && n > 0 then 0x1_0000_0000_0000_0000 - n
      else n
    }
  }

  /** strtoul takes the whole numeral and stops at the first byte that is no digit. */
  lemma StrtoulReads(num: Numeral, rest: string)
    requires num.Legal() && (rest == "" || !IsDigit(rest[0]))
    ensures Strtoul(num.Text() + rest) == (num.Value(), |num.Text()|)
  {
    hide *;
    NumeralIn(num, rest);
    NumeralRead(num.Text() + rest, num);
  }

  lemma NumeralIn(num: Numeral, rest: string)
    requires num.Legal() && (rest == "" || !IsDigit(rest[0]))
    ensures Stands(num.Text() + rest, |num.blanks|, num.sign, num.zeros + Dec(num.n))
  {
    DigitsOfDec(num.zeros, num.n);
    hide Dec, AllDigits, Stands;
    NumeralStands(num.blanks, num.sign, num.zeros + Dec(num.n), rest);
    NumeralText(num, rest);
  }

  lemma NumeralRead(s: string, num: Numeral)
    requires num.Legal() && Stands(s, |num.blanks|, num.sign, num.zeros + Dec(num.n))
    ensures Strtoul(s) == (num.Value(), |num.Text()|)
  {
    DigitsOfDec(num.zeros, num.n);
    hide Strtoul, DigitsValue, Dec, AllDigits, Stands;
    StrtoulAt(s, |num.blanks|, num.sign, num.zeros + Dec(num.n));
  }

  lemma NumeralText(num: Numeral, rest: string)
    ensures num.Text() + rest == num.blanks + (num.sign + (num.zeros + Dec(num.n) + rest))
    ensures |num.Text()| == |num.blanks| + |num.sign| + |num.zeros + Dec(num.n)|
  {
    hide Dec;
    Assoc4(num.blanks, num.sign, num.zeros + Dec(num.n), rest);
    Assoc3(num.blanks, num.sign, num.zeros + Dec(num.n));
  }

  /** White space up to i, then a sign or none, then exactly these digits. */
  ghost predicate Stands(s: string, i: nat, sign: string, digits: string) {
    var j := i + |sign|;
    && SkipSpaces(s, 0) == i < |s| && j == (if s[i] == '-' || s[i] == '+' then i + 1 else i) && (s[i] == '-' <==> sign == "-")
    && j < |s| && SkipDigits(s, j) == j + |digits| && s[j..j + |digits|] == digits
  }

  lemma NumeralStands(blanks: string, sign: string, digits: string, rest: string)
    requires (forall i :: 0 <= i < |blanks| ==> IsSpace(blanks[i])) && (sign == "" || sign == "+" || sign == "-")
    requires digits != "" && AllDigits(digits) && (rest == "" || !IsDigit(rest[0]))
    ensures Stands(blanks + (sign + (digits + rest)), |blanks|, sign, digits)
  {
    hide SkipSpaces, SkipDigits, AllDigits;
    SignThen(blanks, sign, digits, rest);
    SpacesThen(blanks, sign + (digits + rest));
    DigitsThen(blanks + sign, digits, rest);
    hide IsSpace, IsDigit;
    Assoc3(blanks, sign, digits + rest);
  }

  lemma SpacesThen(blanks: string, t: string)
    requires (forall i :: 0 <= i < |blanks| ==> IsSpace(blanks[i])) && (t == "" || !IsSpace(t[0]))
    ensures SkipSpaces(blanks + t, 0) == |blanks|
  {
    SkipSpacesTo(blanks + t, 0, |blanks|);
  }

  lemma DigitsThen(a: string, digits: string, rest: string)
    requires AllDigits(digits) && (rest == "" || !IsDigit(rest[0]))
    ensures SkipDigits(a + (digits + rest), |a|) == |a| + |digits|
    ensures (a + (digits + rest))[|a|..|a| + |digits|] == digits
  {
    var s, end := a + (digits + rest), |a| + |digits|;
    forall k | |a| <= k < end
      ensures IsDigit(s[k])
    {
      assert s[k] == digits[k - |a|];
    }
    assert end < |s| ==> s[end] == rest[0];
    SkipDigitsTo(s, |a|, end);
  }

  /** The byte behind the white space: the sign, or the first digit when there is none. */
  lemma SignThen(blanks: string, sign: string, digits: string, rest: string)
    requires (sign == "" || sign == "+" || sign == "-") && digits != "" && AllDigits(digits)
    ensures var t := sign + (digits + rest); var s := blanks + t; var i := |blanks|;
            && t != "" && !IsSpace(t[0]) && i < |s| && (s[i] == '-' <==> sign == "-")
            && i + |sign| == if s[i] == '-' || s[i] == '+' then i + 1 else i
  {
    var t := sign + (digits + rest);
    assert t[0] == if sign == "" then digits[0] else sign[0];
    assert (blanks + t)[|blanks|] == t[0];
  }

  lemma StrtoulAt(s: string, i: nat, sign: string, digits: string)
    requires digits != "" && AllDigits(digits) && Stands(s, i, sign, digits)
    ensures var v := DigitsValue(digits);
            Strtoul(s) == (if v > ULONG_MAX then ULONG_MAX else if sign == "-" && v > 0 then ULONG_MAX + 1 - v else v, i + |sign| + |digits|)
  {
    hide SkipSpaces, SkipDigits, DigitsValue;
  }

  /** Without a digit behind white space and sign nothing is consumed. */
  lemma StrtoulNothing(blanks: string, sign: string, rest: string)
    requires (forall i :: 0 <= i < |blanks| ==> IsSpace(blanks[i])) && (sign == "" || sign == "+" || sign == "-")
    requires rest == "" || !IsDigit(rest[0])
    requires sign == "" && rest != "" ==> !IsSpace(rest[0]) && rest[0] != '+' && rest[0] != '-'
    ensures Strtoul(blanks + (sign + rest)) == (0, 0)
  {
    var s := blanks + (sign + rest);
    var i := |blanks|;
    var j := i + |sign|;
    assert i < |s| ==> s[i] == if sign == "" then rest[0] else sign[0];
    assert j < |s| ==> s[j] == rest[0];
    SkipSpacesTo(s, 0, i);
    SkipDigitsTo(s, j, j);
  }

  /** A line without a number is refused, unless it starts with a blank. */
  lemma NoNumber(blanks: string, sign: string, rest: string)
    requires (forall i :: 0 <= i < |blanks| ==> IsSpace(blanks[i])) && (sign == "" || sign == "+" || sign == "-")
    requires rest == "" || !IsDigit(rest[0])
    requires sign == "" && rest != "" ==> !IsSpace(rest[0]) && rest[0] != '+' && rest[0] != '-'
    ensures var line := blanks + (sign + rest);
            ParseLine(line) == NoSequence <==> line == "" || line[0] != ' '
  {
    StrtoulNothing(blanks, sign, rest);
    hide Strtoul, Args;
  }

  /** A number must be followed by a blank, and the id by another. */
  lemma NumberedLine(num: Numeral, rest: string)
    requires num.Legal() && (rest == "" || !IsDigit(rest[0]))
    ensures ParseLine(num.Text() + rest) == NoSequence <==> rest == "" || rest[0] != ' '
    ensures rest != "" && rest[0] == ' ' ==> (ParseLine(num.Text() + rest) == NoId <==> ' ' !in rest[1..])
  {
    StrtoulReads(num, rest);
    hide *;
    LineAfterNumber(num.Text(), rest, num.Value());
  }

  lemma LineAfterNumber(head: string, rest: string, v: nat)
    requires Strtoul(head + rest) == (v, |head|)
    ensures ParseLine(head + rest) == NoSequence <==> rest == "" || rest[0] != ' '
    ensures rest != "" && rest[0] == ' ' ==> (ParseLine(head + rest) == NoId <==> ' ' !in rest[1..])
  {
    hide Strtoul, Args;
    var line, star := head + rest, |head|;
    assert star < |line| ==> line[star] == rest[0];
    if rest != "" && rest[0] == ' ' {
      var space := IndexOf(line, ' ', star + 1);
      assert line[star + 1..] == rest[1..];
      if space == |line| {
        assert line[star + 1..space] == rest[1..];
      } else {
        assert rest[1..][space - star - 1] == line[space] == ' ';
      }
    }
  }

  /** What follows decides whether it is a command; its number is cut to a byte. */
  lemma WholeLine(num: Numeral, id: string, body: string)
    requires num.Legal() && ' ' !in id
    ensures ParseLine(num.Text() + (" " + (id + (" " + body)))) ==
            match Args(body)
            case None => BadArguments(id)
            case Some(argv) => Command(num.Value() % 256, id, argv)
  {
    StrtoulReads(num, " " + (id + (" " + body)));
    hide *;
    CommandLine(num.Text(), num.Value(), id, body);
  }

  lemma CommandLine(head: string, v: nat, id: string, body: string)
    requires ' ' !in id && Strtoul(head + (" " + (id + (" " + body)))) == (v, |head|)
    ensures ParseLine(head + (" " + (id + (" " + body)))) ==
            match Args(body)
            case None => BadArguments(id)
            case Some(argv) => Command(v % 256, id, argv)
  {
    LeadingBlank(body);
    LinePieces(head, id, body);
    hide *;
    LineAt(head + (" " + (id + (" " + body))), |head|, v, id, " " + body);
  }

  /** The second of two texts stands behind the first. */
  lemma Behind(a: string, b: string)
    ensures (a + b)[|a|..] == b && (a + b)[..|a|] == a
    ensures b != "" ==> (a + b)[|a|] == b[0]
  {}

  /** A line cut into a number of that length, an id and what follows it. */
  ghost predicate LineCut(line: string, star: nat, id: string, tail: string) {
    var space := star + 1 + |id|;
    && space < |line| && line[star] == ' ' && IndexOf(line, ' ', star + 1) == space
    && line[star + 1..space] == id && line[space..] == tail
  }

  lemma LineAt(line: string, star: nat, v: nat, id: string, tail: string)
    requires Strtoul(line) == (v, star) && LineCut(line, star, id, tail)
    ensures ParseLine(line) ==
            match Args(tail)
            case None => BadArguments(id)
            case Some(argv) => Command(v % 256, id, argv)
  {
    hide Strtoul, Args, IndexOf;
  }

  lemma LinePieces(head: string, id: string, body: string)
    requires ' ' !in id
    ensures LineCut(head + (" " + (id + (" " + body))), |head|, id, " " + body)
  {
    var line, space := head + (" " + (id + (" " + body))), |head| + 1 + |id|;
    var tail := " " + body;
    Behind(head, " " + (id + tail));
    Assoc3(head, " ", id + tail);
    Behind(head + " ", id + tail);
    Behind(id, tail);
    SubSlice(line, |head| + 1, |line|, 0, |id|);
    SubSlice(line, |head| + 1, |line|, |id|, |line| - |head| - 1);
    IndexIs(line, ' ', |head| + 1, space);
  }

  /** A message needs an end; what comes before the first one is the line. */
  lemma EndOfMessage(text: string, line: string, rest: string)
    requires forall k :: !CrlfAt(line, k)
    ensures Parse(text) == NoEnd <==> forall k :: !CrlfAt(text, k)
    ensures Parse(line + (CRLF + rest)) == ParseLine(line) != NoEnd
  {
    hide ParseLine, FindCrlf;
    LineHasEnd(line);
    TextLine(line, rest);
    if FindCrlf(text).Some? {
      LineHasEnd(text[..FindCrlf(text).value]);
      assert CrlfAt(text, FindCrlf(text).value);
    }
  }

  lemma LineHasEnd(line: string)
    ensures ParseLine(line) != NoEnd
  {
    hide Strtoul, Args;
  }

  // ------------------------------------------------------------------------
  // Round trips.

  /** A message whose words are written so that they can be read back is parsed to
      the same kind, id and argument list. The words themselves may hold any byte. */
  lemma MessageRoundTrip(kind: nat, id: string, texts: seq<string>, values: seq<string>, tail: string)
    requires kind <= APPROVE_COMMAND && ' ' !in id && NUL !in id && (tail == "" || tail == " ")
    requires |texts| == |values| && forall i :: 0 <= i < |texts| ==> Writes(texts[i], values[i])
    requires forall k :: !CrlfAt(id, k)
    requires NUL !in Join(texts, " ") && forall k :: !CrlfAt(Join(texts, " ") + tail, k)
    ensures Received(Message(kind, id, Join(texts, " ") + tail)) == Command(kind, id, values)
  {
    hide Parse, Received, Join, Writes, Message;
    MessageParsed(kind, id, texts, values, tail);
    MessageHasNoNul(kind, id, Join(texts, " ") + tail);
    ReceivedWhole(Message(kind, id, Join(texts, " ") + tail));
  }

  lemma MessageHasNoNul(kind: nat, id: string, body: string)
    requires NUL !in id && NUL !in body
    ensures NUL !in Message(kind, id, body)
  {
    hide Dec;
    assert NUL !in Dec(kind) && NUL !in " " && NUL !in CRLF;
  }

  lemma MessageParsed(kind: nat, id: string, texts: seq<string>, values: seq<string>, tail: string)
    requires kind <= APPROVE_COMMAND && ' ' !in id && (tail == "" || tail == " ")
    requires |texts| == |values| && forall i :: 0 <= i < |texts| ==> Writes(texts[i], values[i])
    requires forall k :: !CrlfAt(id, k)
    requires forall k :: !CrlfAt(Join(texts, " ") + tail, k)
    ensures Parse(Message(kind, id, Join(texts, " ") + tail)) == Command(kind, id, values)
  {
    hide Strtoul, Token, Join, Writes, ParseLine, Dec;
    var body := Join(texts, " ") + tail;
    assert AtBoundary(tail) && SkipBlanks(tail) == "";
    LineOfMessage(kind, id, body);
    SequenceOf(kind, id, body);
    ReadWords(texts, values, tail);
    LeadingBlank(body);
    LineParsed(Dec(kind), kind, id, body);
  }

  /** A line with its three parts: the words are what the tokenizer makes of the body. */
  lemma LineParsed(head: string, kind: nat, id: string, body: string)
    requires |head| == 1 && ' ' !in id && kind < 256
    requires Strtoul(head + (" " + (id + (" " + body)))) == (kind, 1)
    ensures ParseLine(head + (" " + (id + (" " + body)))) ==
            match Args(" " + body)
            case None => BadArguments(id)
            case Some(argv) => Command(kind, id, argv)
  {
    hide Strtoul, Args;
    var line := head + (" " + (id + (" " + body)));
    var space := 2 + |id|;
    assert line[1] == ' ' && line[2..] == id + (" " + body);
    assert line[2..space] == id && line[space] == ' ';
    IndexIs(line, ' ', 2, space);
    assert line[space..] == " " + body;
  }

  lemma LeadingBlank(s: string)
    ensures Args(" " + s) == Args(s)
  {
    assert (" " + s)[1..] == s;
  }

  lemma NoCrlfAround(a: string, b: string)
    requires (forall k :: !CrlfAt(a, k)) && (forall k :: !CrlfAt(b, k))
    ensures forall k :: !CrlfAt(a + (" " + b), k)
  {
    var s := a + (" " + b);
    forall k | 0 <= k < |s| - 1
      ensures !CrlfAt(s, k)
    {
      if k + 1 < |a| {
        assert s[k] == a[k] && s[k + 1] == a[k + 1] && !CrlfAt(a, k);
      } else if k <= |a| {
        assert s[|a|] == ' ';
      } else {
        assert s[k] == b[k - |a| - 1] && s[k + 1] == b[k - |a|] && !CrlfAt(b, k - |a| - 1);
      }
    }
  }

  lemma LineOfMessage(kind: nat, id: string, body: string)
    requires kind <= APPROVE_COMMAND
    requires (forall k :: !CrlfAt(id, k)) && (forall k :: !CrlfAt(body, k))
    ensures var line := Dec(kind) + (" " + (id + (" " + body)));
            |Dec(kind)| == 1 && Parse(Message(kind, id, body)) == ParseLine(line)
  {
    var line := Dec(kind) + (" " + (id + (" " + body)));
    NoCrlfAround(id, body);
    NoCrlfAround(Dec(kind), id + (" " + body));
    TextLine(line, "");
    assert line + (CRLF + "") == Message(kind, id, body);
  }

  /** The line of a message ends at the first CRLF of its body. */
  lemma LineOfCut(kind: nat, id: string, body: string, rest: string)
    requires kind <= APPROVE_COMMAND
    requires (forall k :: !CrlfAt(id, k)) && (forall k :: !CrlfAt(body, k))
    ensures |Dec(kind)| == 1
    ensures Parse(Message(kind, id, body + (CRLF + rest))) == ParseLine(Dec(kind) + (" " + (id + (" " + body))))
  {
    var line := Dec(kind) + (" " + (id + (" " + body)));
    NoCrlfAround(id, body);
    NoCrlfAround(Dec(kind), id + (" " + body));
    TextLine(line, rest + CRLF);
    assert line + (CRLF + (rest + CRLF)) == Message(kind, id, body + (CRLF + rest));
  }

  /** A text that was cut either lost its first CRLF or parses as before. */
  lemma ParseCut(text: string, n: nat)
    requires n <= |text|
    ensures Parse(text[..n]) ==
            if FindCrlf(text).Some? && FindCrlf(text).value + 2 <= n then Parse(text) else NoEnd
  {
    hide ParseLine;
    var cut := text[..n];
    assert forall k :: CrlfAt(cut, k) <==> CrlfAt(text, k) && k + 2 <= n;
    if FindCrlf(text).Some? && FindCrlf(text).value + 2 <= n {
      CrlfIs(cut, FindCrlf(text).value);
      assert cut[..FindCrlf(text).value] == text[..FindCrlf(text).value];
    }
  }

  /** A message whose only CRLF is its end loses it when it does not fit the buffer. */
  lemma CutOff(kind: nat, id: string, body: string)
    requires kind <= APPROVE_COMMAND
    requires (forall k :: !CrlfAt(id, k)) && (forall k :: !CrlfAt(body, k))
    ensures var m := Message(kind, id, body);
            Parse(Buffered(m)) == if |m| < MAX_COMMAND_SIZE then Parse(m) else NoEnd
  {
    hide Parse;
    var m := Message(kind, id, body);
    var line := Dec(kind) + (" " + (id + (" " + body)));
    NoCrlfAround(id, body);
    NoCrlfAround(Dec(kind), id + (" " + body));
    TextLine(line, "");
    assert line + (CRLF + "") == m;
    if |m| >= MAX_COMMAND_SIZE {
      ParseCut(m, MAX_COMMAND_SIZE - 1);
    }
  }

  lemma BufferedHasNoNul(text: string)
    requires NUL !in text
    ensures NUL !in Buffered(text)
  {
    assert forall i :: 0 <= i < |Buffered(text)| ==> Buffered(text)[i] == text[i];
  }

  lemma ReceivedCutOff(kind: nat, id: string, body: string)
    requires kind <= APPROVE_COMMAND && NUL !in id && NUL !in body
    requires (forall k :: !CrlfAt(id, k)) && (forall k :: !CrlfAt(body, k))
    ensures var m := Message(kind, id, body);
            Received(Buffered(m)) == if |m| < MAX_COMMAND_SIZE then Parse(m) else NoEnd
  {
    hide Parse, Received, Message, Buffered;
    var m := Message(kind, id, body);
    CutOff(kind, id, body);
    MessageHasNoNul(kind, id, body);
    BufferedHasNoNul(m);
    ReceivedWhole(Buffered(m));
  }

  lemma SequenceOf(kind: nat, id: string, body: string)
    requires kind <= APPROVE_COMMAND
    ensures Strtoul(Dec(kind) + (" " + (id + (" " + body)))) == (kind, 1)
  {
    var s := Dec(kind) + (" " + (id + (" " + body)));
    assert s[0] == Digit(kind) && s[1] == ' ';
    assert SkipSpaces(s, 0) == 0 && SkipDigits(s, 0) == SkipDigits(s, 1) == 1;
    assert s[0..1] == [Digit(kind)] && IsDigit(Digit(kind));
    assert DigitsValue([Digit(kind)]) == DigitsValue([Digit(kind)][..0]) * 10 + kind;
  }

  // ------------------------------------------------------------------------
  // The message formats with arguments written plainly or in single quotes.

  datatype Word = Plain(text: string) | Quoted(text: string) {
    function Written(): string {
      if Plain? then text else "'" + text + "'"
    }

    ghost predicate Clean() {
      NUL !in text && (if Plain? then BareWord(text) else SingleWord(text)) && forall k :: !CrlfAt(text, k)
    }
  }

  function WrittenAll(words: seq<Word>): (r: seq<string>)
    ensures |r| == |words| && forall i :: 0 <= i < |r| ==> r[i] == words[i].Written()
  {
    seq(|words|, i requires 0 <= i < |words| => words[i].Written())
  }

  function Values(words: seq<Word>): (r: seq<string>)
    ensures |r| == |words| && forall i :: 0 <= i < |r| ==> r[i] == words[i].text
  {
    seq(|words|, i requires 0 <= i < |words| => words[i].text)
  }

  lemma WordWrites(w: Word)
    requires w.Clean()
    ensures Writes(w.Written(), w.text) && NUL !in w.Written() && forall k :: !CrlfAt(w.Written(), k)
  {
    if w.Plain? {
      BareWrites(w.text);
    } else {
      SingleWrites(w.text);
      forall k
        ensures !CrlfAt(w.Written(), k)
      {
        if 1 <= k < |w.text| {
          assert !CrlfAt(w.text, k - 1);
        }
      }
    }
  }

  lemma {:induction false} JoinCrlfFree(texts: seq<string>)
    requires forall i, k :: 0 <= i < |texts| ==> !CrlfAt(texts[i], k)
    ensures forall k :: !CrlfAt(Join(texts, " "), k)
  {
    if |texts| > 1 {
      JoinCrlfFree(texts[1..]);
      NoCrlfAround(texts[0], Join(texts[1..], " "));
      assert Join(texts, " ") == texts[0] + (" " + Join(texts[1..], " "));
    }
  }

  lemma WordsRoundTrip(kind: nat, id: string, words: seq<Word>, tail: string)
    requires kind <= APPROVE_COMMAND && ' ' !in id && NUL !in id && (forall k :: !CrlfAt(id, k)) && (tail == "" || tail == " ")
    requires forall i :: 0 <= i < |words| ==> words[i].Clean()
    ensures var m := Message(kind, id, Join(WrittenAll(words), " ") + tail);
            Received(Buffered(m)) == if |m| < MAX_COMMAND_SIZE then Command(kind, id, Values(words)) else NoEnd
  {
    hide Writes, Parse, Received, Message, Word.Clean, Word.Written, Join, Buffered;
    var texts := WrittenAll(words);
    forall i | 0 <= i < |words|
      ensures Writes(texts[i], words[i].text) && NUL !in texts[i] && forall k :: !CrlfAt(texts[i], k)
    {
      WordWrites(words[i]);
    }
    JoinCrlfFree(texts);
    NoCrlfTail(Join(texts, " "), tail);
    JoinHasNoNul(texts);
    MessageParsed(kind, id, texts, Values(words), tail);
    ReceivedCutOff(kind, id, Join(texts, " ") + tail);
  }

  lemma NoCrlfTail(s: string, tail: string)
    requires (tail == "" || tail == " ") && forall k :: !CrlfAt(s, k)
    ensures forall k :: !CrlfAt(s + tail, k)
  {
    if tail == "" {
      assert s + tail == s;
    } else {
      NoCrlfAround(s, "");
      assert s + (" " + "") == s + tail;
    }
  }

  /** A request built from its format is read back, with or without arguments, if and only
      if it fits the buffer; otherwise it arrives without its end. */
  lemma RequestRoundTrip(id: string, cmd: Word, args: seq<Word>)
    requires ' ' !in id && NUL !in id && (forall k :: !CrlfAt(id, k))
    requires cmd.Plain? && cmd.Clean() && forall i :: 0 <= i < |args| ==> args[i].Clean()
    ensures var m := Message(REQUEST_COMMAND, id, RequestBody(cmd.text, WrittenAll(args)));
            Received(Buffered(m)) ==
            if |m| < MAX_COMMAND_SIZE then Command(REQUEST_COMMAND, id, [cmd.text] + Values(args)) else NoEnd
  {
    hide Received, Message, Word.Clean, Word.Written, Join, RequestBody, Buffered;
    RequestText(cmd, args);
    WordsRoundTrip(REQUEST_COMMAND, id, [cmd] + args, if args == [] then " " else "");
  }

  /** So is a response or an approve message with its state word. */
  lemma StateRoundTrip(kind: nat, id: string, ok: bool, cmd: Word, args: seq<Word>)
    requires kind == RESPONCE_COMMAND || kind == APPROVE_COMMAND
    requires ' ' !in id && NUL !in id && (forall k :: !CrlfAt(id, k))
    requires cmd.Plain? && cmd.Clean() && forall i :: 0 <= i < |args| ==> args[i].Clean()
    ensures var state := if ok then SUCCESS_COMMAND else FAIL_COMMAND;
            var m := Message(kind, id, StateBody(state, cmd.text, WrittenAll(args)));
            Received(Buffered(m)) ==
            if |m| < MAX_COMMAND_SIZE then Command(kind, id, [state, cmd.text] + Values(args)) else NoEnd
  {
    hide Received, Message, Word.Clean, Word.Written, Join, StateBody, Buffered;
    var state := Plain(if ok then SUCCESS_COMMAND else FAIL_COMMAND);
    StateText(state, cmd, args);
    StateClean(ok);
    WordsRoundTrip(kind, id, [state, cmd] + args, if args == [] then " " else "");
  }

  lemma StateClean(ok: bool)
    ensures Plain(if ok then SUCCESS_COMMAND else FAIL_COMMAND).Clean()
  {}

  lemma RequestText(cmd: Word, args: seq<Word>)
    requires cmd.Plain?
    ensures RequestBody(cmd.text, WrittenAll(args)) ==
            Join(WrittenAll([cmd] + args), " ") + if args == [] then " " else ""
    ensures Values([cmd] + args) == [cmd.text] + Values(args)
  {
    hide Join, RequestBody;
    BodyIsJoin(cmd.text, WrittenAll(args));
    assert WrittenAll([cmd] + args) == [cmd.text] + WrittenAll(args);
  }

  lemma StateText(state: Word, cmd: Word, args: seq<Word>)
    requires state.Plain? && cmd.Plain?
    ensures StateBody(state.text, cmd.text, WrittenAll(args)) ==
            Join(WrittenAll([state, cmd] + args), " ") + if args == [] then " " else ""
    ensures Values([state, cmd] + args) == [state.text, cmd.text] + Values(args)
  {
    hide Join, RequestBody, WrittenAll;
    RequestText(cmd, args);
    WrittenCons(state, [cmd] + args);
    assert [state] + ([cmd] + args) == [state, cmd] + args;
    JoinCons(state.text, WrittenAll([cmd] + args), " ");
    Assoc3(state.text + " ", Join(WrittenAll([cmd] + args), " "), if args == [] then " " else "");
  }

  lemma WrittenCons(w: Word, words: seq<Word>)
    requires w.Plain?
    ensures WrittenAll([w] + words) == [w.text] + WrittenAll(words)
  {}

  lemma BodyIsJoin(cmd: string, texts: seq<string>)
    ensures RequestBody(cmd, texts) == Join([cmd] + texts, " ") + if texts == [] then " " else ""
  {
    assert ([cmd] + texts)[1..] == texts;
  }

  // ------------------------------------------------------------------------
  // UserAuthInfo

  /** Login, password and the host text, which the network library interprets. */
  datatype UserAuth = UserAuth(login: string, password: string, host: string)

  /** ConvertToString */
  function AuthText(u: UserAuth): string {
    u.login + (":" + (u.password + (":" + u.host)))
  }

  /** ConvertFromString; None leaves the caller's record untouched. */
  function ParseAuth(from: string): Option<UserAuth> {
    var up := IndexOf(from, ':', 0);
    if up == |from| then None
    else
      var ph := IndexOf(from, ':', up + 1);
      if ph == |from| then None
      else Some(UserAuth(from[..up], from[up + 1..ph], from[ph + 1..]))
  }

  lemma AuthParts(u: UserAuth)
    ensures var s := AuthText(u); var up := |u.login|; var ph := up + 1 + |u.password|;
            && ph < |s| && s[..up] == u.login && s[0..up] == u.login && s[up] == ':'
            && s[up + 1..ph] == u.password && s[ph] == ':' && s[ph + 1..] == u.host
            && (forall i :: 0 <= i < |u.login| ==> s[i] == u.login[i])
            && (forall i :: 0 <= i < |u.password| ==> s[up + 1 + i] == u.password[i])
  {}

  lemma AuthSplits(u: UserAuth)
    requires ':' !in u.login && ':' !in u.password
    ensures ParseAuth(AuthText(u)) == Some(u)
  {
    hide AuthText, IndexOf;
    AuthParts(u);
    IndexIs(AuthText(u), ':', 0, |u.login|);
    IndexIs(AuthText(u), ':', |u.login| + 1, |u.login| + 1 + |u.password|);
  }

  lemma LoginCutShort(u: UserAuth)
    requires ':' in u.login
    ensures ParseAuth(AuthText(u)) != Some(u)
  {
    hide AuthText, IndexOf;
    var s := AuthText(u);
    AuthParts(u);
    var i :| 0 <= i < |u.login| && u.login[i] == ':';
    assert s[i] == ':';
    IndexBound(s, ':', 0, i);
    assert |s[..IndexOf(s, ':', 0)]| < |u.login|;
  }

  lemma PasswordCutShort(u: UserAuth)
    requires ':' !in u.login && ':' in u.password
    ensures ParseAuth(AuthText(u)) != Some(u)
  {
    hide AuthText, IndexOf;
    var s, up := AuthText(u), |u.login|;
    AuthParts(u);
    IndexIs(s, ':', 0, up);
    var i :| 0 <= i < |u.password| && u.password[i] == ':';
    assert s[up + 1 + i] == ':';
    IndexBound(s, ':', up + 1, up + 1 + i);
    assert |s[up + 1..IndexOf(s, ':', up + 1)]| < |u.password|;
  }

  /** The login text splits back into its parts exactly when login and password hold
      no ':'; the host may hold any. */
  lemma AuthRoundTrip(u: UserAuth)
    ensures ParseAuth(AuthText(u)) == Some(u) <==> ':' !in u.login && ':' !in u.password
  {
    hide ParseAuth, AuthText;
    if ':' in u.login {
      LoginCutShort(u);
    } else if ':' in u.password {
      PasswordCutShort(u);
    } else {
      AuthSplits(u);
    }
  }

  lemma AuthTextOf(from: string)
    requires ParseAuth(from).Some?
    ensures AuthText(ParseAuth(from).value) == from
  {
    var up := IndexOf(from, ':', 0);
    var ph := IndexOf(from, ':', up + 1);
    assert ParseAuth(from).value == UserAuth(from[..up], from[up + 1..ph], from[ph + 1..]);
    hide *;
    assert from[0..] == from && from[0..up] == from[..up];
    CutApart(from, 0, up, ':');
    CutApart(from, up + 1, ph, ':');
    Glue(from, from[..up], from[up + 1..], from[up + 1..ph], from[ph + 1..], ':');
    AuthTextParts(UserAuth(from[..up], from[up + 1..ph], from[ph + 1..]));
  }

  lemma AuthTextParts(u: UserAuth)
    ensures AuthText(u) == u.login + ([':'] + (u.password + ([':'] + u.host)))
  {}

  // ------------------------------------------------------------------------
  // The answer to who_are_you, whose login text the device sends unquoted.

  function Iam(id: string, text: string): string {
    Message(RESPONCE_COMMAND, id, StateBody(SUCCESS_COMMAND, WHO_ARE_YOU_COMMAND, [text]))
  }

  function ThirdWord(p: Parsed): Option<string> {
    if p.Command? && |p.argv| > 2 then Some(p.argv[2]) else None
  }

  /** The login record the handler makes of the third word. */
  function Login(p: Parsed): Option<UserAuth> {
    match ThirdWord(p)
    case None => None
    case Some(word) => ParseAuth(CText(word))
  }

  /** The line of the answer, up to the first CRLF of the text. */
  lemma IamLine(id: string, text: string) returns (line: string)
    requires ' ' !in id && (forall k :: !CrlfAt(id, k))
    ensures |line| <= |text| && ((forall k :: !CrlfAt(text, k)) ==> line == text) && (|line| == |text| ==> line == text)
    ensures Parse(Iam(id, text)) ==
            match Args(line)
            case None => BadArguments(id)
            case Some(argv) => Command(RESPONCE_COMMAND, id, [SUCCESS_COMMAND, WHO_ARE_YOU_COMMAND] + argv)
  {
    hide Args, Strtoul, ParseLine, Parse;
    var cut := FindCrlf(text);
    line := if cut.None? then text else text[..cut.value];
    forall k
      ensures !CrlfAt(line, k)
    {
      assert !CrlfAt(text, k) || cut == Some(k) || k >= |line|;
    }
    var body := IamBody(line);
    IamBodyText(id, text, line, cut);
    LineParsed(Dec(RESPONCE_COMMAND), RESPONCE_COMMAND, id, body);
    LeadingBlank(body);
    WordBefore(WHO_ARE_YOU_COMMAND, line);
    WordBefore(SUCCESS_COMMAND, WHO_ARE_YOU_COMMAND + (" " + line));
  }

  function IamBody(line: string): string {
    SUCCESS_COMMAND + (" " + (WHO_ARE_YOU_COMMAND + (" " + line)))
  }

  lemma IamBodyText(id: string, text: string, line: string, cut: Option<nat>)
    requires ' ' !in id && (forall k :: !CrlfAt(id, k)) && (forall k :: !CrlfAt(line, k))
    requires if cut.None? then line == text else CrlfAt(text, cut.value) && line == text[..cut.value]
    ensures var whole := Dec(RESPONCE_COMMAND) + (" " + (id + (" " + IamBody(line))));
            && |Dec(RESPONCE_COMMAND)| == 1 && Parse(Iam(id, text)) == ParseLine(whole)
            && Strtoul(whole) == (RESPONCE_COMMAND, 1)
  {
    hide Strtoul, ParseLine, Parse;
    var body := IamBody(line);
    NoCrlfAround(WHO_ARE_YOU_COMMAND, line);
    NoCrlfAround(SUCCESS_COMMAND, WHO_ARE_YOU_COMMAND + (" " + line));
    SequenceOf(RESPONCE_COMMAND, id, body);
    assert Join([text], " ") == text;
    if cut.None? {
      assert StateBody(SUCCESS_COMMAND, WHO_ARE_YOU_COMMAND, [text]) == body;
      LineOfMessage(RESPONCE_COMMAND, id, body);
    } else {
      var rest := text[cut.value + 2..];
      assert text == line + (CRLF + rest);
      assert StateBody(SUCCESS_COMMAND, WHO_ARE_YOU_COMMAND, [text]) == body + (CRLF + rest);
      LineOfCut(RESPONCE_COMMAND, id, body, rest);
    }
  }

  /** The server's third word is the text the device sent if and only if that text is a
      bare word: no blank, no quote, not empty. Otherwise it is shorter. */
  lemma UnquotedText(id: string, text: string)
    requires ' ' !in id && NUL !in id && (forall k :: !CrlfAt(id, k)) && NUL !in text
    ensures ThirdWord(Received(Iam(id, text))) == Some(text) <==> BareWord(text)
    ensures ThirdWord(Received(Iam(id, text))).Some? && !BareWord(text) ==>
              |ThirdWord(Received(Iam(id, text))).value| < |text|
    ensures BareWord(text) ==>
              Received(Iam(id, text)) == Command(RESPONCE_COMMAND, id, [SUCCESS_COMMAND, WHO_ARE_YOU_COMMAND, text])
  {
    hide Iam, Parse, Received, BareWord;
    UnquotedParse(id, text);
    IamHasNoNul(id, text);
    ReceivedWhole(Iam(id, text));
  }

  lemma IamHasNoNul(id: string, text: string)
    requires NUL !in id && NUL !in text
    ensures NUL !in Iam(id, text)
  {
    assert Join([text], " ") == text;
    hide Message;
    MessageHasNoNul(RESPONCE_COMMAND, id, StateBody(SUCCESS_COMMAND, WHO_ARE_YOU_COMMAND, [text]));
  }

  lemma UnquotedParse(id: string, text: string)
    requires ' ' !in id && (forall k :: !CrlfAt(id, k))
    ensures ThirdWord(Parse(Iam(id, text))) == Some(text) <==> BareWord(text)
    ensures ThirdWord(Parse(Iam(id, text))).Some? && !BareWord(text) ==> |ThirdWord(Parse(Iam(id, text))).value| < |text|
    ensures BareWord(text) ==>
              Parse(Iam(id, text)) == Command(RESPONCE_COMMAND, id, [SUCCESS_COMMAND, WHO_ARE_YOU_COMMAND, text])
  {
    hide Iam, Parse;
    var line := IamLine(id, text);
    if BareWord(text) {
      BareArgs(text);
    } else if Args(line).Some? && Args(line).value != [] {
      FirstWordLength(line);
    }
  }

  lemma BareArgs(text: string)
    requires BareWord(text)
    ensures Args(text) == Some([text]) && forall k :: !CrlfAt(text, k)
  {
    BareWrites(text);
    hide Token, Writes;
    ReadWords([text], [text], "");
    assert Join([text], " ") + "" == text;
  }

  /** Text without CRLF makes an answer whose only CRLF is its end. */
  lemma IamCutOff(id: string, text: string)
    requires (forall k :: !CrlfAt(id, k)) && (forall k :: !CrlfAt(text, k))
    ensures Parse(Buffered(Iam(id, text))) == if |Iam(id, text)| < MAX_COMMAND_SIZE then Parse(Iam(id, text)) else NoEnd
  {
    hide Parse, Buffered;
    assert Join([text], " ") == text;
    assert StateBody(SUCCESS_COMMAND, WHO_ARE_YOU_COMMAND, [text]) == IamBody(text);
    NoCrlfAround(WHO_ARE_YOU_COMMAND, text);
    NoCrlfAround(SUCCESS_COMMAND, WHO_ARE_YOU_COMMAND + (" " + text));
    CutOff(RESPONCE_COMMAND, id, IamBody(text));
  }

  /** A device's answer to who_are_you gives the server the same login, password and host
      text if and only if the login text is a bare word, login and password hold no ':',
      and the answer fits the buffer. */
  lemma WhoAreYouAnswer(id: string, u: UserAuth)
    requires ' ' !in id && NUL !in id && (forall k :: !CrlfAt(id, k)) && NUL !in AuthText(u)
    ensures Login(Received(Buffered(Iam(id, AuthText(u))))) == Some(u) <==>
            && BareWord(AuthText(u)) && ':' !in u.login && ':' !in u.password
            && |Iam(id, AuthText(u))| < MAX_COMMAND_SIZE
  {
    hide Iam, Parse, Received, Login, AuthText, ParseAuth, BareWord, Buffered;
    var text := AuthText(u);
    WholeAnswer(id, u);
    IamHasNoNul(id, text);
    BufferedHasNoNul(Iam(id, text));
    ReceivedWhole(Buffered(Iam(id, text)));
    NoLogin();
    if BareWord(text) {
      BareArgs(text);
      IamCutOff(id, text);
    } else {
      CutAnswer(Iam(id, text));
    }
  }

  lemma NoLogin()
    ensures Login(NoEnd) == None
  {}

  lemma CutAnswer(m: string)
    ensures Parse(Buffered(m)) == Parse(m) || Parse(Buffered(m)) == NoEnd
  {
    hide Parse;
    if |m| >= MAX_COMMAND_SIZE {
      ParseCut(m, MAX_COMMAND_SIZE - 1);
    }
  }

  lemma WholeAnswer(id: string, u: UserAuth)
    requires ' ' !in id && (forall k :: !CrlfAt(id, k)) && NUL !in AuthText(u)
    ensures Login(Parse(Iam(id, AuthText(u)))) == Some(u) <==>
            BareWord(AuthText(u)) && ':' !in u.login && ':' !in u.password
  {
    hide Iam, Parse, AuthText, ParseAuth, BareWord;
    var text := AuthText(u);
    UnquotedParse(id, text);
    AuthRoundTrip(u);
    CTextPlain(text);
    var word := ThirdWord(Parse(Iam(id, text)));
    if word.Some? && ParseAuth(CText(word.value)) == Some(u) {
      AuthTextOf(CText(word.value));
    }
  }
}
