/** The resumable reader as a pure state machine: an explicit stack of open arrays
    in place of recursion. It refines the recursive decoder of Resp and does not
    care how its input was cut into chunks. */
module RespMachine {
  import opened Text
  import opened Decimal
  import opened Resp

  /** An array still being filled. */
  datatype Frame = Frame(count: nat, kids: seq<Tree>)

  /** What survives between two calls: the open arrays, a type byte already read, and
      whether the innermost task is about the first child of an array without slots. */
  datatype Parser = Parser(stack: seq<Frame>, kind: Option<Kind>, bare: bool := false) {
    /** The stack index of the current task. */
    function Depth(): nat {
      |stack| + if bare then 1 else 0
    }

    predicate Valid() {
      Depth() <= MAX_DEPTH && forall k :: 0 <= k < |stack| ==> |stack[k].kids| < stack[k].count
    }
  }

  const IDLE := Parser([], None)

  // ------------------------------------------------------------------------
  // Steps.

  /** moveToNextTask: hand a finished item to the innermost open array; full arrays
      are finished items in turn. */
  datatype Settled = Whole(tree: Tree) | Next(stack: seq<Frame>)

  function Grow(f: Frame, t: Tree): Frame {
    Frame(f.count, f.kids + [t])
  }

  function Settle(stack: seq<Frame>, t: Tree): (r: Settled)
    requires forall k :: 0 <= k < |stack| ==> |stack[k].kids| < stack[k].count
    ensures r.Next? ==> 0 < |r.stack| <= |stack|
    ensures r.Next? ==> forall k :: 0 <= k < |r.stack| ==> |r.stack[k].kids| < r.stack[k].count
    decreases |stack|
  {
    if stack == [] then Whole(t)
    else
      var outer, top := stack[..|stack| - 1], Grow(stack[|stack| - 1], t);
      if |top.kids| == top.count then Settle(outer, Multi(top.count, top.kids))
      else Next(outer + [top])
  }

  datatype Move = Blocked | Fault(error: ProtocolError) | Go(parser: Parser, rest: string) | Emit(tree: Tree, rest: string)

  function Landed(r: Settled, rest: string): Move {
    match r
    case Whole(tree) => Emit(tree, rest)
    case Next(stack) => Go(Parser(stack, None), rest)
  }

  /** Read a type byte, or process the typed item. */
  function Step(p: Parser, s: string): (m: Move)
    requires p.Valid()
    ensures m.Go? ==> m.parser.Valid() && |m.rest| < |s|
    ensures m.Emit? ==> |m.rest| < |s|
  {
    match p.kind
    case None =>
      if s == "" then Blocked
      else (match KindOf(s[0])
            case None => Fault(BadType(s[0]))
            case Some(kind) => Go(p.(kind := Some(kind)), s[1..]))
    case Some(kind) =>
      if p.bare then
        var r := StillbornTyped(kind, p.Depth(), s);
        if r.Bad? then Fault(r.error) else Blocked
      else
        match Header(kind, |p.stack|, s)
        case More => Blocked
        case Bad(e) => Fault(e)
        case Done(Leaf(t), rest) => Landed(Settle(p.stack, t), rest)
        case Done(OpenBare, rest) => Go(Parser(p.stack, None, true), rest)
        case Done(Open(n), rest) => Go(Parser(p.stack + [Frame(n, [])], None), rest)
  }

  lemma TypedStep(p: Parser, s: string)
    requires p.Valid() && p.kind.Some? && !p.bare
    ensures match Header(p.kind.value, |p.stack|, s)
            case More => Step(p, s) == Blocked
            case Bad(e) => Step(p, s) == Fault(e)
            case Done(Leaf(t), rest) => Step(p, s) == Landed(Settle(p.stack, t), rest)
            case Done(OpenBare, rest) => Step(p, s) == Go(Parser(p.stack, None, true), rest)
            case Done(Open(n), rest) => Step(p, s) == Go(Parser(p.stack + [Frame(n, [])], None), rest)
  {}

  /** The item under an array without slots: blocked, at fault, or undefined. */
  lemma BareStep(p: Parser, s: string)
    requires p.Valid() && p.kind.Some? && p.bare
    ensures match Header(p.kind.value, p.Depth(), s)
            case More => Step(p, s) == Blocked
            case Bad(e) => Step(p, s) == Fault(e)
            case Done(_, _) => Step(p, s) == Fault(Undefined)
  {}

  /** The tree of a one-line item whose line ends at k. */
  function LineTree(kind: Kind, s: string, k: nat): Tree
    requires FindCrlf(s) == Some(k)
  {
    if kind == Integer then Int(LineNumber(s)) else Line(kind, s[..k])
  }

  lemma LineStep(p: Parser, s: string)
    requires p.Valid() && p.kind.Some? && p.kind.value in {Status, Error, Integer}
    ensures Step(p, s) ==
            match FindCrlf(s)
            case None => Blocked
            case Some(k) =>
              if p.bare || (p.kind.value == Integer && !LongFits(s)) then Fault(Undefined)
              else Landed(Settle(p.stack, LineTree(p.kind.value, s, k)), s[k + 2..])
  {}

  /** What an array header with the given number leads to. */
  function CountMove(p: Parser, elements: int, rest: string): Move
    requires p.Valid() && p.Depth() < MAX_DEPTH
  {
    match CountOf(elements)
    case NilArray => Landed(Settle(p.stack, Nil), rest)
    case Childless(announced) => Landed(Settle(p.stack, Multi(announced, [])), rest)
    case Children(count) => Go(Parser(p.stack + [Frame(count, [])], None), rest)
    case Slotless => Go(Parser(p.stack, None, true), rest)
  }

  lemma ArrayStep(p: Parser, s: string)
    requires p.Valid() && p.kind == Some(Array) && p.Depth() < MAX_DEPTH
    ensures Step(p, s) ==
            match FindCrlf(s)
            case None => Blocked
            case Some(k) => if LongFits(s) && !p.bare then CountMove(p, LineNumber(s), s[k + 2..]) else Fault(Undefined)
  {}

  /** Steps until something comes out: one redisReaderGetReply. */
  datatype Outcome = Pending(parser: Parser, rest: string) | Failed(error: ProtocolError) | Reply(tree: Tree, rest: string)

  function NextReply(p: Parser, s: string): (r: Outcome)
    requires p.Valid()
    ensures r.Pending? ==> r.parser.Valid() && |r.rest| <= |s| && Step(r.parser, r.rest).Blocked?
    ensures r.Reply? ==> |r.rest| < |s|
    decreases |s|
  {
    match Step(p, s)
    case Blocked => Pending(p, s)
    case Fault(e) => Failed(e)
    case Emit(t, rest) => Reply(t, rest)
    case Go(p', rest) => NextReply(p', rest)
  }

  lemma NextReplyStep(p: Parser, s: string)
    requires p.Valid()
    ensures NextReply(p, s) ==
            match Step(p, s)
            case Blocked => Pending(p, s)
            case Fault(e) => Failed(e)
            case Emit(t, rest) => Reply(t, rest)
            case Go(p', rest) => NextReply(p', rest)
  {}

  lemma TypeStep(p: Parser, s: string)
    requires p.Valid() && p.kind == None
    ensures Step(p, s) ==
            if s == "" then Blocked
            else match KindOf(s[0])
                 case None => Fault(BadType(s[0]))
                 case Some(kind) => Go(p.(kind := Some(kind)), s[1..])
  {}

  /** Nothing new to read, nothing to do, unless an array header is due at the depth limit. */
  lemma EmptyInput(p: Parser)
    requires p.Valid() && (p.kind == Some(Array) ==> p.Depth() < MAX_DEPTH)
    ensures NextReply(p, "") == Pending(p, "")
  {
    assert FindCrlf("").None?;
  }

  /** Every reply that can be taken, and the state left behind. After an error the
      buffer is gone and the reader stays in error. */
  datatype Drained = Drained(replies: seq<Tree>, error: Option<ProtocolError>, parser: Parser, rest: string)

  function Drain(p: Parser, s: string): (d: Drained)
    requires p.Valid()
    ensures d.parser.Valid() && |d.rest| <= |s|
    ensures d.error.None? ==> Step(d.parser, d.rest).Blocked?
    decreases |s|
  {
    match NextReply(p, s)
    case Pending(p', rest) => Drained([], None, p', rest)
    case Failed(e) => Drained([], Some(e), IDLE, "")
    case Reply(t, rest) => Prepend(t, Drain(IDLE, rest))
  }

  function Prepend(t: Tree, d: Drained): Drained {
    d.(replies := [t] + d.replies)
  }

  lemma DrainStep(p: Parser, s: string)
    requires p.Valid()
    ensures Drain(p, s) ==
            match NextReply(p, s)
            case Pending(p', rest) => Drained([], None, p', rest)
            case Failed(e) => Drained([], Some(e), IDLE, "")
            case Reply(t, rest) => Prepend(t, Drain(IDLE, rest))
  {}

  // ------------------------------------------------------------------------
  // Refinement of the recursive decoder.

  /** What finishing the open arrays makes of an item result. */
  function Finish(stack: seq<Frame>, item: Decoded<Tree>): Decoded<Tree>
    requires Parser(stack, None).Valid()
    decreases |stack|
  {
    if stack == [] then item
    else
      match item
      case More => More
      case Bad(e) => Bad(e)
      case Done(t, rest) =>
        var outer, top := stack[..|stack| - 1], Grow(stack[|stack| - 1], t);
        match DecodeKids(|stack|, top.count - |top.kids|, rest)
        case More => More
        case Bad(e) => Bad(e)
        case Done(kids, after) => Finish(outer, Done(Multi(top.count, top.kids + kids), after))
  }

  /** The meaning of a suspended parser: what the recursive decoder would return
      for the whole current reply, given the bytes still to come. */
  function Meaning(p: Parser, s: string): Decoded<Tree>
    requires p.Valid()
  {
    Finish(p.stack,
           match p.kind
           case None => if p.bare then Stillborn(p.Depth(), s) else DecodeItem(|p.stack|, s)
           case Some(kind) => if p.bare then StillbornTyped(kind, p.Depth(), s) else DecodeTyped(kind, |p.stack|, s))
  }

  function Denoted(r: Settled, rest: string): Decoded<Tree>
    requires r.Next? ==> Parser(r.stack, None).Valid()
  {
    match r
    case Whole(tree) => Done(tree, rest)
    case Next(stack) => Meaning(Parser(stack, None), rest)
  }

  lemma FinishStuck(stack: seq<Frame>)
    requires Parser(stack, None).Valid()
    ensures Finish(stack, More) == More
    ensures forall e :: Finish(stack, Bad(e)) == Bad(e)
  {}

  lemma KidsSplit(depth: nat, n: nat, s: string)
    requires depth <= MAX_DEPTH && n > 0
    ensures DecodeKids(depth, n, s) ==
            match DecodeItem(depth, s)
            case More => More
            case Bad(e) => Bad(e)
            case Done(kid, rest) =>
              match DecodeKids(depth, n - 1, rest)
              case More => More
              case Bad(e) => Bad(e)
              case Done(kids, after) => Done([kid] + kids, after)
  {}

  /** Moving to the next task keeps the meaning. */
  lemma {:induction false} SettleMeaning(stack: seq<Frame>, t: Tree, rest: string)
    requires Parser(stack, None).Valid()
    ensures Finish(stack, Done(t, rest)) == Denoted(Settle(stack, t), rest)
    decreases |stack|
  {
    hide DecodeItem, DecodeTyped, DecodeKids;
    if stack != [] {
      var outer, top := stack[..|stack| - 1], Grow(stack[|stack| - 1], t);
      var left := top.count - |top.kids|;
      if left == 0 {
        KidsNone(|stack|, rest);
        assert top.kids + [] == top.kids;
        SettleMeaning(outer, Multi(top.count, top.kids), rest);
      } else {
        var stack' := outer + [top];
        assert stack'[..|stack'| - 1] == outer;
        KidsSplit(|stack|, left, rest);
        match DecodeItem(|stack|, rest)
        case More =>
        case Bad(_) =>
        case Done(kid, after) =>
          var others := DecodeKids(|stack|, left - 1, after);
          if others.Done? {
            Assoc3(top.kids, [kid], others.value);
          }
      }
    }
  }

  lemma KidsNone(depth: nat, s: string)
    requires depth <= MAX_DEPTH
    ensures DecodeKids(depth, 0, s) == Done([], s)
  {}

  /** Opening an array keeps the meaning. */
  lemma OpenMeaning(stack: seq<Frame>, n: nat, rest: string)
    requires Parser(stack, None).Valid() && |stack| < MAX_DEPTH && n > 0
    ensures Meaning(Parser(stack + [Frame(n, [])], None), rest) ==
            Finish(stack, match DecodeKids(|stack| + 1, n, rest)
                          case More => More
                          case Bad(e) => Bad(e)
                          case Done(kids, after) => Done(Multi(n, kids), after))
  {
    hide DecodeItem, DecodeTyped, DecodeKids;
    var stack' := stack + [Frame(n, [])];
    assert stack'[..|stack'| - 1] == stack;
    KidsSplit(|stack| + 1, n, rest);
    FinishStuck(stack);
    match DecodeItem(|stack| + 1, rest)
    case More =>
    case Bad(_) =>
    case Done(kid, after) =>
      assert [] + [kid] == [kid];
  }

  /** Every step keeps the meaning. */
  lemma StepMeaning(p: Parser, s: string)
    requires p.Valid()
    ensures match Step(p, s)
            case Blocked => Meaning(p, s) == More
            case Fault(e) => Meaning(p, s) == Bad(e)
            case Emit(t, rest) => Meaning(p, s) == Done(t, rest)
            case Go(p', rest) => Meaning(p, s) == Meaning(p', rest)
  {
    FinishStuck(p.stack);
    hide Finish, Settle, Header, DecodeKids;
    if p.kind.Some? && !p.bare {
      match Header(p.kind.value, |p.stack|, s)
      case More =>
      case Bad(_) =>
      case Done(Leaf(t), rest) => SettleMeaning(p.stack, t, rest);
      case Done(OpenBare, _) =>
      case Done(Open(n), rest) => OpenMeaning(p.stack, n, rest);
    }
  }

  /** The reader blocks, fails or emits exactly as the recursive decoder does. */
  lemma {:induction false} NextReplyMeaning(p: Parser, s: string)
    requires p.Valid()
    ensures match NextReply(p, s)
            case Pending(_, _) => Meaning(p, s) == More
            case Failed(e) => Meaning(p, s) == Bad(e)
            case Reply(t, rest) => Meaning(p, s) == Done(t, rest)
    decreases |s|
  {
    hide Meaning, Step;
    StepMeaning(p, s);
    if Step(p, s).Go? {
      NextReplyMeaning(Step(p, s).parser, Step(p, s).rest);
    }
  }

  /** From a fresh reader: the replies and the error are those of the recursive decoder. */
  lemma {:induction false} DrainIsStream(s: string)
    ensures (Drain(IDLE, s).replies, Drain(IDLE, s).error) == Stream(s)
    decreases |s|
  {
    NextReplyMeaning(IDLE, s);
    assert Meaning(IDLE, s) == DecodeItem(0, s);
    if NextReply(IDLE, s).Reply? {
      DrainIsStream(NextReply(IDLE, s).rest);
    }
  }

  // ------------------------------------------------------------------------
  // Chunking.

  lemma StepExtend(p: Parser, s: string, t: string)
    requires p.Valid()
    ensures match Step(p, s)
            case Blocked => true
            case Fault(e) => Step(p, s + t) == Fault(e)
            case Emit(tree, rest) => Step(p, s + t) == Emit(tree, rest + t)
            case Go(p', rest) => Step(p, s + t) == Go(p', rest + t)
  {
    match p.kind
    case None =>
      if s != "" {
        assert (s + t)[0] == s[0] && (s + t)[1..] == s[1..] + t;
      }
    case Some(kind) =>
      HeaderExtend(kind, p.Depth(), s, t);
  }

  lemma {:induction false} NextReplyExtend(p: Parser, s: string, t: string)
    requires p.Valid()
    ensures match NextReply(p, s)
            case Failed(e) => NextReply(p, s + t) == Failed(e)
            case Reply(tree, rest) => NextReply(p, s + t) == Reply(tree, rest + t)
            case Pending(p', rest) => NextReply(p, s + t) == NextReply(p', rest + t)
    decreases |s|
  {
    hide Step;
    StepExtend(p, s, t);
    if Step(p, s).Go? {
      NextReplyExtend(Step(p, s).parser, Step(p, s).rest, t);
    }
  }

  /** Draining in two goes. */
  function Resumed(d: Drained, t: string): Drained
    requires d.parser.Valid()
  {
    if d.error.Some? then d
    else
      var e := Drain(d.parser, d.rest + t);
      e.(replies := d.replies + e.replies)
  }

  lemma {:induction false} DrainExtend(p: Parser, s: string, t: string)
    requires p.Valid()
    ensures Drain(p, s + t) == Resumed(Drain(p, s), t)
    decreases |s|
  {
    hide NextReply;
    NextReplyExtend(p, s, t);
    match NextReply(p, s)
    case Failed(_) =>
    case Reply(tree, rest) =>
      DrainExtend(IDLE, rest, t);
    case Pending(p', rest) =>
      var e := Drain(p', rest + t);
      assert [] + e.replies == e.replies;
      DrainFromPending(p, s + t, p', rest + t);
  }

  lemma DrainFromPending(p: Parser, s: string, p': Parser, s': string)
    requires p.Valid() && p'.Valid() && NextReply(p, s) == NextReply(p', s')
    ensures Drain(p, s) == Drain(p', s')
  {}

  function Concat(chunks: seq<string>): string {
    if chunks == [] then "" else chunks[0] + Concat(chunks[1..])
  }

  /** Feeding chunk by chunk and draining after each. */
  function DrainChunks(d: Drained, chunks: seq<string>): Drained
    requires d.parser.Valid()
    decreases |chunks|
  {
    if chunks == [] then d else DrainChunks(Resumed(d, chunks[0]), chunks[1..])
  }

  /** After an error nothing more happens. */
  lemma {:induction false} ErrorSticks(d: Drained, chunks: seq<string>)
    requires d.parser.Valid() && d.error.Some?
    ensures DrainChunks(d, chunks) == d
    decreases |chunks|
  {
    if chunks != [] {
      ErrorSticks(d, chunks[1..]);
    }
  }

  lemma ResumedTwice(d: Drained, a: string, b: string)
    requires d.parser.Valid()
    ensures Resumed(Resumed(d, a), b) == Resumed(d, a + b)
  {
    hide Drain;
    if d.error.None? {
      DrainExtend(d.parser, d.rest + a, b);
      Assoc3(d.rest, a, b);
      var e := Drain(d.parser, d.rest + a);
      if e.error.None? {
        Assoc3(d.replies, e.replies, Drain(e.parser, e.rest + b).replies);
      }
    }
  }

  lemma Quiescent(d: Drained)
    requires d.parser.Valid() && (d.error.None? ==> Step(d.parser, d.rest).Blocked?)
    ensures Resumed(d, "") == d
  {
    if d.error.None? {
      assert d.rest + "" == d.rest;
      assert d.replies + [] == d.replies;
    }
  }

  lemma {:induction false} ChunksAreOne(d: Drained, chunks: seq<string>)
    requires d.parser.Valid() && (d.error.None? ==> Step(d.parser, d.rest).Blocked?)
    ensures DrainChunks(d, chunks) == Resumed(d, Concat(chunks))
    decreases |chunks|
  {
    hide Drain, Step;
    if chunks == [] {
      Quiescent(d);
    } else {
      ChunksAreOne(Resumed(d, chunks[0]), chunks[1..]);
      ResumedTwice(d, chunks[0], Concat(chunks[1..]));
    }
  }

  const FRESH := Drained([], None, IDLE, "")

  /** Chunking independence: however a stream is cut, draining after every chunk
      gives the replies, the error and the final state of feeding it whole. */
  lemma ChunkingIndependence(chunks: seq<string>)
    ensures DrainChunks(FRESH, chunks) == Drain(IDLE, Concat(chunks))
    ensures (DrainChunks(FRESH, chunks).replies, DrainChunks(FRESH, chunks).error) == Stream(Concat(chunks))
  {
    ChunksAreOne(FRESH, chunks);
    var e := Drain(IDLE, "" + Concat(chunks));
    assert "" + Concat(chunks) == Concat(chunks);
    assert [] + e.replies == e.replies;
    DrainIsStream(Concat(chunks));
  }
}
