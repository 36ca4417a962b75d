/** Printers and readers end to end on their own buffers: the command formatter and the
    reply reader, the quoting printer and the tokenizer. */
module Loopback {
  import opened Text
  import opened SdsString
  import opened SdsSplit
  import opened SdsQuote
  import opened Resp
  import opened RespMachine
  import opened Reader
  import opened Format

  /** A byte stream cut at the given distances; the last piece is what remains. */
  function Cut(s: string, cuts: seq<nat>): seq<string> {
    if cuts == [] || cuts[0] >= |s| then [s] else [s[..cuts[0]]] + Cut(s[cuts[0]..], cuts[1..])
  }

  lemma {:induction false} CutConcat(s: string, cuts: seq<nat>)
    ensures Concat(Cut(s, cuts)) == s
  {
    if cuts == [] || cuts[0] >= |s| {
      assert Cut(s, cuts)[1..] == [];
    } else {
      CutConcat(s[cuts[0]..], cuts[1..]);
      assert Cut(s, cuts)[1..] == Cut(s[cuts[0]..], cuts[1..]);
      assert s == s[..cuts[0]] + s[cuts[0]..];
    }
  }

  /** The reply object is an array of bulk strings holding exactly these arguments. */
  ghost predicate Carries(o: RedisReply, args: seq<string>)
    reads if o.element == null then {} else {o.element}
  {
    && o.typ == REDIS_REPLY_ARRAY && o.elements == |args|
    && (args == [] ==> o.element == null)
    && (args != [] ==>
          && o.element != null && o.element.Length == |args|
          && forall i :: 0 <= i < |args| ==>
               o.element[i] != null && o.element[i].typ == REDIS_REPLY_STRING && o.element[i].str == args[i])
  }

  lemma TreeCarried(o: RedisReply, args: seq<string>, closed: set<Slots>)
    requires Represents(o, CommandTree(args), closed)
    ensures Carries(o, args)
  {
    if args != [] {
      forall i | 0 <= i < |args|
        ensures o.element[i] != null && o.element[i].typ == REDIS_REPLY_STRING && o.element[i].str == args[i]
      {
        assert Represents(o.element[i], Str(args[i]), closed);
      }
    }
  }

  /** Formatting any arguments and feeding the bytes in any pieces yields one reply, the
      array of those arguments, and leaves the reader without error and without unread bytes. */
  method SendAndRead(args: seq<string>, cuts: seq<nat>) returns (r: RedisReader, replies: seq<RedisReply>)
    requires |Command(args)| <= INT_MAX
    ensures r.Valid() && r.error == None && r.Unread() == "" && r.parser == IDLE
    ensures |replies| == 1 && Carries(replies[0], args)
  {
    hide RedisReader.Valid, Command, Represents, Carries, CommandTree, Drain;
    var cmd, totlen := FormatCommandArgv(args);
    var bytes := cmd[..totlen];
    CutConcat(bytes, cuts);
    ChunkingIndependence(Cut(bytes, cuts));
    ChunkedRoundTrip(args, Cut(bytes, cuts));
    DefinedStream(bytes);
    ghost var trees;
    r, replies, trees := ReadStream(Cut(bytes, cuts));
    assert trees == [CommandTree(args)];
    TreeCarried(replies[0], args, r.closed);
  }

  /** One turn of the quoting loop: the quoted word, and a blank unless it is the last. */
  method CatQuoted(line: Sds, word: string, more: bool)
    requires Bytes(word) && line.Valid() && Allocatable(line.Len() + |Repr(word)| + 1)
    modifies line, line.data
    ensures line.Valid() && (line.data == old(line.data) || fresh(line.data))
    ensures line.Content() == old(line.Content()) + Repr(word) + if more then " " else ""
  {
    hide Sds.Valid, Sds.Sound, Repr;
    line.SoundWhenValid();
    line.LenOfContent();
    CatRepr(line, word);
    line.SoundWhenValid();
    line.LenOfContent();
    if more {
      line.CatLen(" ");
    }
  }

  /** Quoting any byte strings into one line and tokenizing the line gives them back. */
  method QuoteAndSplit(args: seq<string>) returns (r: Option<seq<string>>)
    requires forall i :: 0 <= i < |args| ==> Bytes(args[i])
    requires Allocatable(|Join(Reprs(args), " ")| + 1)
    ensures r == Some(args)
  {
    hide Repr, Joined, Join;
    ghost var words := Reprs(args);
    var line := new Sds.NewLen("");
    JoinedNone(words);
    for i := 0 to |args|
      invariant fresh(line) && fresh(line.data) && line.Valid()
      invariant line.Content() == Joined(words, i, " ")
    {
      hide Sds.Valid, Sds.Sound;
      JoinedStep(words, i, " ");
      JoinedFits(words, i + 1, " ");
      line.SoundWhenValid();
      line.LenOfContent();
      CatQuoted(line, args[i], i != |args| - 1);
    }
    JoinedAll(words);
    QuotingRoundTrip(args);
    r := SplitLine(line);
  }

  lemma JoinedNone(words: seq<string>)
    ensures Joined(words, 0, " ") == ""
  {}

  lemma JoinedAll(words: seq<string>)
    ensures Joined(words, |words|, " ") == Join(words, " ")
  {
    assert words[..|words|] == words;
  }

  /** sdssplitargs on a string without NUL, terminator included. */
  method SplitLine(line: Sds) returns (r: Option<seq<string>>)
    requires line.Valid() && NUL !in line.Content()
    ensures r == Args(line.Content())
  {
    var mem := line.data[..line.Len() + 1];
    assert mem[..|mem| - 1] == line.Content();
    assert From(mem, 0) == mem[..|mem| - 1];
    r := SplitArgs(mem);
  }
}
