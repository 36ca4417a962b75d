/** A device's reply on its way to the browser: InnerSubHandler::processSubscribed
    on the server and parse_command_out in script.js. */
module Relay {
  import opened Text
  import opened SdsString
  import opened SdsSplit
  import opened Messages

  // ------------------------------------------------------------------------
  // The server's side.

  function CTexts(argv: seq<string>): (r: seq<string>)
    ensures |r| == |argv| && forall i :: 0 <= i < |r| ==> r[i] == CText(argv[i])
  {
    seq(|argv|, i requires 0 <= i < |argv| => CText(argv[i]))
  }

  /** The published text: the id and the words as C strings, joined by blanks. */
  function RelayText(id: string, argv: seq<string>): string {
    CText(id) + " " + Join(CTexts(argv), " ")
  }

  /** processSubscribed, up to publishing the text. */
  method ProcessSubscribed(requestId: string, argv: seq<string>) returns (join: Sds)
    requires Allocatable(|RelayText(requestId, argv)| + 1) && |requestId| < INT_MAX
    ensures fresh(join) && fresh(join.data) && join.Valid()
    ensures join.Content() == RelayText(requestId, argv)
  {
    var id := CText(requestId);
    ghost var words := CTexts(argv);
    IdText(id);
    join := new Sds.NewLen("");
    join.CatFmt("%s ", [id]);
    for i := 0 to |argv|
      invariant fresh(join) && fresh(join.data) && join.Valid()
      invariant join.Content() == id + " " + Joined(words, i, " ")
    {
      hide Sds.Valid, Sds.Sound, Joined, Join, CText, RelayText;
      JoinedStep(words, i, " ");
      JoinedFits(words, i + 1, " ");
      CatWord(join, id + " ", Joined(words, i, " "), CText(argv[i]), i != |argv| - 1);
    }
    assert words[..|argv|] == words;
  }

  /** The loop body: the word, and a blank unless it is the last one. */
  method CatWord(join: Sds, ghost head: string, ghost done: string, word: string, more: bool)
    requires join.Valid() && join.Content() == head + done && Allocatable(|head| + |done| + |word| + 1)
    modifies join, join.data
    ensures join.Valid() && (join.data == old(join.data) || fresh(join.data))
    ensures join.Content() == head + (done + word + if more then " " else "")
  {
    hide Sds.Valid, Sds.Sound;
    join.SoundWhenValid();
    join.LenOfContent();
    join.CatLen(word);
    join.SoundWhenValid();
    join.LenOfContent();
    if more {
      join.CatLen(" ");
    }
    assert head + done + word + " " == head + (done + word + " ");
    assert head + done + word == head + (done + word + "");
  }

  lemma IdText(id: string)
    requires NUL !in id
    ensures FmtOk("%s ", [id]) && FmtText("%s ", [id]) == id + " "
  {
    var f := "%s ";
    assert f[2..] == " " && " "[1..] == "" && [id][1..] == [];
    assert FmtText(" ", []) == " " + FmtText("", []) == " ";
    assert FmtText(f, [id]) == id + FmtText(f[2..], [id][1..]);
  }

  // ------------------------------------------------------------------------
  // The browser's side.

  datatype OutMessage = OutMessage(id: string, ok: bool, command: string, args: string)

  /** What parse_command_out is to return: the text cut at its first three blanks, the
      second word being a status; undefined otherwise. */
  function ParseOut(msg: string): Option<OutMessage> {
    var a := IndexOf(msg, ' ', 0);
    if a == |msg| then None
    else
      var b := IndexOf(msg, ' ', a + 1);
      if b == |msg| || msg[a + 1..b] !in {SUCCESS_COMMAND, FAIL_COMMAND} then None
      else
        var c := IndexOf(msg, ' ', b + 1);
        if c == |msg| then None
        else Some(OutMessage(msg[..a], msg[a + 1..b] == SUCCESS_COMMAND, msg[b + 1..c], msg[c..]))
  }

  /** The scan has passed `pos` blanks and is inside the word that began at `start`. */
  ghost predicate Scanning(msg: string, pos: nat, start: nat, id: string, ok: bool) {
    && start <= |msg|
    && (pos == 0 ==> start == 0)
    && (pos >= 1 ==> IndexOf(msg, ' ', 0) == |id| < |msg| && id == msg[..|id|])
    && (pos == 1 ==> start == |id| + 1)
    && (pos == 2 ==> start > |id| + 1 && IndexOf(msg, ' ', |id| + 1) == start - 1
                     && msg[|id| + 1..start - 1] in {SUCCESS_COMMAND, FAIL_COMMAND}
                     && ok == (msg[|id| + 1..start - 1] == SUCCESS_COMMAND))
    && pos <= 2
  }

  /** A blank at i ends the word that began at start. */
  lemma ScanBlank(msg: string, pos: nat, start: nat, id: string, ok: bool, i: nat)
    requires Scanning(msg, pos, start, id, ok) && start <= i < |msg| && ' ' !in msg[start..i] && msg[i] == ' '
    ensures pos == 0 ==> Scanning(msg, 1, i + 1, msg[start..i], ok)
    ensures pos == 1 && msg[start..i] in {SUCCESS_COMMAND, FAIL_COMMAND} ==> Scanning(msg, 2, i + 1, id, msg[start..i] == SUCCESS_COMMAND)
    ensures pos == 1 && msg[start..i] !in {SUCCESS_COMMAND, FAIL_COMMAND} ==> ParseOut(msg) == None
    ensures pos == 2 ==> ParseOut(msg) == Some(OutMessage(id, ok, msg[start..i], msg[i..]))
  {
    hide IndexOf;
    IndexIs(msg, ' ', start, i);
    assert msg[0..i] == msg[..i];
  }

  lemma ScanEnd(msg: string, pos: nat, start: nat, id: string, ok: bool)
    requires Scanning(msg, pos, start, id, ok) && ' ' !in msg[start..]
    ensures ParseOut(msg) == None
  {
    hide IndexOf;
    NoCut(msg, start);
  }

  /** parse_command_out */
  method ParseCommandOut(msg: string) returns (r: Option<OutMessage>)
    ensures r == ParseOut(msg)
  {
    var pos, data := 0, "";
    var id, ok := "", false;
    ghost var start := 0;
    for i := 0 to |msg|
      invariant 0 <= start <= i && 0 <= pos && Scanning(msg, pos, start, id, ok)
      invariant data == msg[start..i] && ' ' !in data
    {
      hide IndexOf, ParseOut;
      var c := msg[i];
      if c == ' ' {
        ScanBlank(msg, pos, start, id, ok, i);
        if pos == 0 {
          id := data;
        } else if pos == 1 {
          if data == SUCCESS_COMMAND {
            ok := true;
          } else if data == FAIL_COMMAND {
            ok := false;
          } else {
            return None;
          }
        } else {
          return Some(OutMessage(id, ok, data, msg[i..]));
        }
        pos := pos + 1;
        data := "";
        start := i + 1;
      } else {
        data := data + [c];
      }
    }
    ScanEnd(msg, pos, start, id, ok);
    return None;
  }

  // ------------------------------------------------------------------------
  // From one end to the other.

  /** A blank-free word at `from`, followed by a blank. */
  lemma CutAt(msg: string, from: nat, word: string, rest: string)
    requires ' ' !in word && from <= |msg| && msg[from..] == word + (" " + rest)
    ensures from + |word| < |msg| && IndexOf(msg, ' ', from) == from + |word|
    ensures msg[from..from + |word|] == word
    ensures msg[from + |word| + 1..] == rest && msg[from + |word|..] == " " + rest
  {
    hide IndexOf;
    var tail, k := msg[from..], |word|;
    assert tail[k] == ' ' && tail[..k] == word && tail[k + 1..] == rest && tail[k..] == " " + rest;
    assert msg[from..from + k] == tail[..k];
    assert msg[from + k + 1..] == tail[k + 1..];
    assert msg[from + k..] == tail[k..];
    IndexIs(msg, ' ', from, from + k);
  }

  /** The last word: no further blank. */
  lemma NoCut(msg: string, from: nat)
    requires from <= |msg| && ' ' !in msg[from..]
    ensures IndexOf(msg, ' ', from) == |msg|
  {
    assert msg[from..|msg|] == msg[from..];
    IndexIs(msg, ' ', from, |msg|);
  }

  lemma ParseOutShort(id: string, last: string)
    requires ' ' !in id && ' ' !in last
    ensures ParseOut(id + (" " + last)) == None
  {
    hide IndexOf;
    var msg := id + (" " + last);
    assert msg[0..] == msg;
    CutAt(msg, 0, id, last);
    NoCut(msg, |id| + 1);
  }

  lemma ParseOutPair(id: string, status: string, last: string)
    requires ' ' !in id && ' ' !in status && ' ' !in last
    ensures ParseOut(id + (" " + (status + (" " + last)))) == None
  {
    hide IndexOf;
    var msg := id + (" " + (status + (" " + last)));
    assert msg[0..] == msg;
    CutAt(msg, 0, id, status + (" " + last));
    CutAt(msg, |id| + 1, status, last);
    NoCut(msg, |id| + 1 + |status| + 1);
  }

  /** s is a word, a blank, and the rest. */
  predicate Starts(s: string, word: string, rest: string) {
    s == word + (" " + rest)
  }

  lemma ParseOutFull(msg: string, id: string, rest1: string, status: string, rest2: string, command: string, more: string)
    requires ' ' !in id && ' ' !in status && ' ' !in command
    requires Starts(msg, id, rest1) && Starts(rest1, status, rest2) && Starts(rest2, command, more)
    ensures ParseOut(msg) ==
            if status in {SUCCESS_COMMAND, FAIL_COMMAND}
            then Some(OutMessage(id, status == SUCCESS_COMMAND, command, " " + more))
            else None
  {
    hide IndexOf, ParseOut, Starts;
    assert msg[0..] == msg;
    var a := CutNext(msg, 0, id, rest1);
    var b := CutNext(msg, a + 1, status, rest2);
    var c := CutNext(msg, b + 1, command, more);
    ParseOutCuts(msg, a, b, c);
  }

  lemma CutNext(msg: string, from: nat, word: string, rest: string) returns (k: nat)
    requires ' ' !in word && from <= |msg| && Starts(msg[from..], word, rest)
    ensures from <= k < |msg| && IndexOf(msg, ' ', from) == k
    ensures msg[from..k] == word && msg[k + 1..] == rest && msg[k..] == " " + rest
  {
    CutAt(msg, from, word, rest);
    k := from + |word|;
  }

  lemma ParseOutCuts(msg: string, a: nat, b: nat, c: nat)
    requires a < b < c < |msg|
    requires IndexOf(msg, ' ', 0) == a && IndexOf(msg, ' ', a + 1) == b && IndexOf(msg, ' ', b + 1) == c
    ensures ParseOut(msg) ==
            if msg[a + 1..b] in {SUCCESS_COMMAND, FAIL_COMMAND}
            then Some(OutMessage(msg[0..a], msg[a + 1..b] == SUCCESS_COMMAND, msg[b + 1..c], msg[c..]))
            else None
  {
    hide IndexOf;
    assert msg[0..a] == msg[..a];
  }

  /** What the browser makes of a text says how the text was put together. */
  lemma ParseOutInverse(msg: string)
    requires ParseOut(msg).Some?
    ensures var o := ParseOut(msg).value;
            msg == o.id + (" " + ((if o.ok then SUCCESS_COMMAND else FAIL_COMMAND) + (" " + (o.command + o.args))))
  {
    var o := ParseOut(msg).value;
    var a, b, c := ParseOutParts(msg);
    hide *;
    var status := if o.ok then SUCCESS_COMMAND else FAIL_COMMAND;
    CutIs(msg, 0, a, msg, o.id, msg[a + 1..]);
    CutIs(msg, a + 1, b, msg[a + 1..], status, msg[b + 1..]);
    SplitAt(msg, b + 1, c);
    Assemble(msg, msg[a + 1..], msg[b + 1..], o.id, status, o.command, o.args);
  }

  lemma CutIs(msg: string, from: nat, k: nat, whole: string, word: string, rest: string)
    requires from <= k < |msg| && msg[k] == ' ' && whole == msg[from..] && word == msg[from..k] && rest == msg[k + 1..]
    ensures whole == word + (" " + rest)
  {}

  lemma Assemble(msg: string, x: string, y: string, id: string, status: string, command: string, args: string)
    requires msg == id + (" " + x) && x == status + (" " + y) && y == command + args
    ensures msg == id + (" " + (status + (" " + (command + args))))
  {}

  lemma ParseOutParts(msg: string) returns (a: nat, b: nat, c: nat)
    requires ParseOut(msg).Some?
    ensures a < b < c < |msg| && msg[a] == ' ' && msg[b] == ' ' && msg[0..] == msg
    ensures var o := ParseOut(msg).value;
            && o.id == msg[0..a] && o.command == msg[b + 1..c] && o.args == msg[c..]
            && msg[a + 1..b] == if o.ok then SUCCESS_COMMAND else FAIL_COMMAND
  {
    hide IndexOf;
    a := IndexOf(msg, ' ', 0);
    b := IndexOf(msg, ' ', a + 1);
    c := IndexOf(msg, ' ', b + 1);
    assert msg[0..a] == msg[..a];
  }

  lemma SplitAt(msg: string, from: nat, k: nat)
    requires from <= k <= |msg|
    ensures msg[from..] == msg[from..k] + msg[k..]
  {}

  /** The reply reaches the browser exactly when the device sent a status, a command and
      something more; it then arrives with the same id, status and command, and the
      further words behind one blank. */
  lemma RelayedReply(id: string, argv: seq<string>)
    requires ' ' !in id && NUL !in id && (forall i :: 0 <= i < |argv| ==> NUL !in argv[i])
    requires forall i :: 0 <= i < |argv| && i < 2 ==> ' ' !in argv[i]
    ensures ParseOut(RelayText(id, argv)) ==
            if |argv| >= 3 && argv[0] in {SUCCESS_COMMAND, FAIL_COMMAND}
            then Some(OutMessage(id, argv[0] == SUCCESS_COMMAND, argv[1], " " + Join(argv[2..], " ")))
            else None
  {
    hide ParseOut, CText;
    CTextsPlain(argv);
    CTextPlain(id);
    var text := Join(argv, " ");
    assert RelayText(id, argv) == id + (" " + text);
    if |argv| <= 1 {
      ParseOutShort(id, text);
    } else {
      var tail := Join(argv[1..], " ");
      assert text == argv[0] + (" " + tail);
      if |argv| == 2 {
        assert tail == argv[1];
        ParseOutPair(id, argv[0], tail);
      } else {
        assert argv[1..][1..] == argv[2..];
        var more := Join(argv[2..], " ");
        assert tail == argv[1] + (" " + more);
        ParseOutFull(RelayText(id, argv), id, text, argv[0], tail, argv[1], more);
      }
    }
  }

  lemma CTextsPlain(argv: seq<string>)
    requires forall i :: 0 <= i < |argv| ==> NUL !in argv[i]
    ensures CTexts(argv) == argv
  {
    forall i | 0 <= i < |argv|
      ensures CText(argv[i]) == argv[i]
    {
      CTextPlain(argv[i]);
    }
  }

  /** The acknowledgement of a configuration change carries no further word, so the
      browser never sees it. */
  lemma SetConfigReplyLost(id: string)
    requires ' ' !in id && NUL !in id
    ensures ParseOut(RelayText(id, [SUCCESS_COMMAND, "plz_set_config"])) == None
  {
    RelayedReply(id, [SUCCESS_COMMAND, "plz_set_config"]);
  }
}
