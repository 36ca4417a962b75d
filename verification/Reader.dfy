/** redisReader: the incremental reply parser of read.c over an sds buffer, a
    nine-slot task stack and reply objects linked through their parents. */
module Reader {
  import opened Text
  import opened Decimal
  import opened SdsString
  import opened Resp
  import opened RespMachine

  const REDIS_REPLY_STRING := 1
  const REDIS_REPLY_ARRAY := 2
  const REDIS_REPLY_INTEGER := 3
  const REDIS_REPLY_NIL := 4
  const REDIS_REPLY_STATUS := 5
  const REDIS_REPLY_ERROR := 6
  const REDIS_READER_MAX_BUF := 1024 * 16

  function CodeOf(kind: Kind): int {
    match kind
    case Status => REDIS_REPLY_STATUS
    case Error => REDIS_REPLY_ERROR
    case Integer => REDIS_REPLY_INTEGER
    case Bulk => REDIS_REPLY_STRING
    case Array => REDIS_REPLY_ARRAY
  }

  /** A reply object. Only the slots of `element` are ever written after creation. */
  class RedisReply {
    const typ: int
    const integer: int
    const str: string
    const elements: nat // a size_t
    const element: array?<RedisReply?>

    /** The int count is stored as a size_t; only a positive one gets slots. */
    constructor (typ: int, integer: int, str: string, elements: int)
      requires -0x8000_0000 <= elements <= INT_MAX
      ensures this.typ == typ && this.integer == integer && this.str == str && this.elements == SizeOf(elements)
      ensures elements <= 0 ==> element == null
      ensures elements > 0 ==> element != null && fresh(element) && element.Length == elements
      ensures elements > 0 ==> forall i :: 0 <= i < elements ==> element[i] == null
    {
      this.typ, this.integer, this.str, this.elements := typ, integer, str, SizeOf(elements);
      if elements > 0 {
        element := new RedisReply?[elements](_ => null);
      } else {
        element := null;
      }
    }
  }

  type Slots = array<RedisReply?>

  /** The object graph below r is the tree t: the children of the tree are in place and
      no others; `closed` holds the slot arrays that no one will write again. */
  ghost predicate Represents(r: RedisReply, t: Tree, closed: set<Slots>)
    reads closed
    decreases t
  {
    match t
    case Line(kind, text) => r.typ == CodeOf(kind) && r.str == text
    case Int(v) => r.typ == REDIS_REPLY_INTEGER && r.integer == v
    case Str(text) => r.typ == REDIS_REPLY_STRING && r.str == text
    case Nil => r.typ == REDIS_REPLY_NIL
    case Multi(count, kids) =>
      && r.typ == REDIS_REPLY_ARRAY && r.elements == count
      && (r.element == null ==> kids == [] && (count == 0 || count > INT_MAX))
      && (r.element != null ==> count > 0 && r.element in closed && Filled(r.element, count, kids, closed))
  }

  ghost predicate Filled(a: Slots, count: nat, kids: seq<Tree>, closed: set<Slots>)
    requires a in closed
    reads closed
    decreases kids
  {
    && |kids| <= a.Length == count
    && (forall i :: 0 <= i < |kids| ==> a[i] != null && Represents(a[i], kids[i], closed))
    && (forall i :: |kids| <= i < count ==> a[i] == null)
  }

  /** An array reply has all the children its tree announces exactly when every slot
      it announces exists and holds an object. */
  lemma SlotsFull(r: RedisReply, count: nat, kids: seq<Tree>, closed: set<Slots>)
    requires Represents(r, Multi(count, kids), closed)
    ensures |kids| == count <==>
              r.elements == 0 ||
              (r.element != null && r.element.Length == r.elements && forall i :: 0 <= i < r.elements ==> r.element[i] != null)
  {
    if r.element != null && |kids| < count {
      assert r.element[|kids|] == null;
    }
  }

  lemma {:induction false} RepresentsMono(r: RedisReply, t: Tree, s: set<Slots>, s': set<Slots>)
    requires s <= s' && Represents(r, t, s)
    ensures Represents(r, t, s')
    decreases t
  {
    if t.Multi? && r.element != null {
      forall i | 0 <= i < |t.kids|
        ensures Represents(r.element[i], t.kids[i], s')
      {
        RepresentsMono(r.element[i], t.kids[i], s, s');
      }
    }
  }

  /** A slot of the task stack; `parent` is the index of the enclosing task, or -1. */
  datatype ReadTask = ReadTask(typ: int, elements: int, idx: int, obj: RedisReply?, parent: int)

  // ------------------------------------------------------------------------
  // The task stack over the reply objects.

  ghost predicate IsArray(o: RedisReply?, a: Slots) {
    o != null && o.typ == REDIS_REPLY_ARRAY && o.elements == a.Length && o.element == a
  }

  /** Task k is an open array whose children so far are in place, the later slots
      still empty; task k + 1 is about the next child. */
  ghost predicate Level(tasks: seq<ReadTask>, k: nat, f: Frame, a: Slots, closed: set<Slots>)
    requires k + 1 < |tasks|
    reads a, closed
  {
    && tasks[k].typ == REDIS_REPLY_ARRAY && tasks[k].elements == f.count == a.Length
    && IsArray(tasks[k].obj, a)
    && tasks[k + 1].idx == |f.kids| < f.count && tasks[k + 1].parent == k
    && (forall i :: 0 <= i < |f.kids| ==> a[i] != null && Represents(a[i], f.kids[i], closed))
    && (forall i :: |f.kids| < i < f.count ==> a[i] == null)
  }

  /** The stack invariant. The slot a level is filling holds the next level's object;
      the innermost one holds `current`: null, or the current item's object once
      that has been created. */
  ghost predicate StackOk(tasks: seq<ReadTask>, stack: seq<Frame>, open: seq<Slots>, closed: set<Slots>, current: RedisReply?)
    reads open, closed
  {
    && |tasks| == 9 && |open| == |stack| <= MAX_DEPTH
    && tasks[0].parent == -1
    && (forall j, k :: 0 <= j < k < |open| ==> open[j] != open[k])
    && (forall k :: 0 <= k < |open| ==> open[k] !in closed)
    && (forall k :: 0 <= k < |open| ==> Level(tasks, k, stack[k], open[k], closed))
    && (forall k :: 0 <= k < |open| ==> open[k][|stack[k].kids|] == if k + 1 < |open| then tasks[k + 1].obj else current)
  }

  lemma StackFacts(tasks: seq<ReadTask>, stack: seq<Frame>, open: seq<Slots>, closed: set<Slots>, current: RedisReply?)
    requires StackOk(tasks, stack, open, closed, current)
    ensures |tasks| == 9 && |open| == |stack| <= MAX_DEPTH && tasks[0].parent == -1
    ensures |open| > 0 ==>
              var n := |open| - 1;
              && tasks[n].typ == REDIS_REPLY_ARRAY && tasks[n].elements == stack[n].count == open[n].Length
              && IsArray(tasks[n].obj, open[n]) && open[n] !in closed
              && tasks[n + 1].idx == |stack[n].kids| < stack[n].count && tasks[n + 1].parent == n
              && open[n][|stack[n].kids|] == current
  {
    if |open| > 0 {
      assert Level(tasks, |open| - 1, stack[|open| - 1], open[|open| - 1], closed);
    }
  }

  lemma LevelMono(tasks: seq<ReadTask>, k: nat, f: Frame, a: Slots, closed: set<Slots>, closed': set<Slots>)
    requires k + 1 < |tasks| && closed <= closed' && Level(tasks, k, f, a, closed)
    ensures Level(tasks, k, f, a, closed')
  {
    forall i | 0 <= i < |f.kids|
      ensures Represents(a[i], f.kids[i], closed')
    {
      RepresentsMono(a[i], f.kids[i], closed, closed');
    }
  }

  /** One more finished array, one that is not being filled. */
  lemma StackMono(tasks: seq<ReadTask>, stack: seq<Frame>, open: seq<Slots>, closed: set<Slots>, a: Slots, current: RedisReply?)
    requires StackOk(tasks, stack, open, closed, current) && a !in open
    ensures StackOk(tasks, stack, open, closed + {a}, current)
  {
    forall k | 0 <= k < |open|
      ensures Level(tasks, k, stack[k], open[k], closed + {a})
    {
      LevelMono(tasks, k, stack[k], open[k], closed, closed + {a});
    }
  }

  lemma EmptyStack(tasks: seq<ReadTask>, closed: set<Slots>, current: RedisReply?)
    requires |tasks| == 9 && tasks[0].parent == -1
    ensures StackOk(tasks, [], [], closed, current)
  {}

  lemma WholeReply(stack: seq<Frame>, t: Tree)
    requires stack == []
    ensures Settle(stack, t) == Whole(t)
  {}

  /** The last child of the innermost array is in place: the array is finished. */
  lemma PopTop(tasks: seq<ReadTask>, stack: seq<Frame>, open: seq<Slots>, closed: set<Slots>, o: RedisReply, t: Tree)
    requires StackOk(tasks, stack, open, closed, o) && Represents(o, t, closed)
    requires 0 < |open| < |tasks| && Parser(stack, None).Valid()
    requires tasks[|open|].idx == tasks[|open| - 1].elements - 1
    ensures var n := |open| - 1;
            var closed' := closed + {open[n]};
            var top := Grow(stack[n], t);
            && |stack| == n + 1 && |top.kids| == top.count
            && Settle(stack, t) == Settle(stack[..n], Multi(top.count, top.kids))
            && Parser(stack[..n], None).Valid()
            && StackOk(tasks, stack[..n], open[..n], closed', tasks[n].obj)
            && tasks[n].obj != null && Represents(tasks[n].obj, Multi(top.count, top.kids), closed')
  {
    var n := |open| - 1;
    var closed' := closed + {open[n]};
    var top := Grow(stack[n], t);
    assert Level(tasks, n, stack[n], open[n], closed);
    forall i | 0 <= i < top.count
      ensures open[n][i] != null && Represents(open[n][i], top.kids[i], closed')
    {
      RepresentsMono(open[n][i], top.kids[i], closed, closed');
    }
    assert Filled(open[n], top.count, top.kids, closed');
    forall k | 0 <= k < n
      ensures Level(tasks, k, stack[..n][k], open[..n][k], closed')
    {
      LevelMono(tasks, k, stack[k], open[k], closed, closed');
    }
  }

  /** The innermost array goes on to its next child. */
  lemma NextChild(tasks: seq<ReadTask>, stack: seq<Frame>, open: seq<Slots>, closed: set<Slots>, o: RedisReply, t: Tree)
    requires StackOk(tasks, stack, open, closed, o) && Represents(o, t, closed)
    requires 0 < |open| < |tasks| && Parser(stack, None).Valid()
    requires tasks[|open|].idx != tasks[|open| - 1].elements - 1
    ensures var n := |open| - 1;
            var top := Grow(stack[n], t);
            var cur := tasks[n + 1];
            && |stack| == n + 1 && |top.kids| < top.count
            && Settle(stack, t) == Next(stack[..n] + [top])
            && StackOk(tasks[n + 1 := cur.(typ := -1, elements := -1, idx := cur.idx + 1)], stack[..n] + [top], open, closed, null)
  {
    var n := |open| - 1;
    var top := Grow(stack[n], t);
    var cur := tasks[n + 1];
    var tasks' := tasks[n + 1 := cur.(typ := -1, elements := -1, idx := cur.idx + 1)];
    assert Level(tasks, n, stack[n], open[n], closed);
    assert Level(tasks', n, top, open[n], closed);
    forall k | 0 <= k < n
      ensures Level(tasks', k, stack[k], open[k], closed)
    {
      assert Level(tasks, k, stack[k], open[k], closed);
    }
  }

  /** A new array becomes the innermost one. */
  lemma PushArray(tasks: seq<ReadTask>, stack: seq<Frame>, open: seq<Slots>, closed: set<Slots>, o: RedisReply, a: Slots)
    requires StackOk(tasks, stack, open, closed, o) && |open| < MAX_DEPTH
    requires IsArray(o, a) && a.Length > 0 && a !in open && a !in closed
    requires forall i :: 0 <= i < a.Length ==> a[i] == null
    requires tasks[|open|].typ == REDIS_REPLY_ARRAY
    ensures var n := |open|;
            StackOk(tasks[n := tasks[n].(elements := a.Length, obj := o)][n + 1 := ReadTask(-1, -1, 0, null, n)],
                    stack + [Frame(a.Length, [])], open + [a], closed, null)
  {
    var n := |open|;
    var tasks' := tasks[n := tasks[n].(elements := a.Length, obj := o)][n + 1 := ReadTask(-1, -1, 0, null, n)];
    assert Level(tasks', n, Frame(a.Length, []), a, closed);
    forall k | 0 <= k < n
      ensures Level(tasks', k, stack[k], open[k], closed)
    {
      assert Level(tasks, k, stack[k], open[k], closed);
    }
  }

  /** Above the open arrays tasks may change freely, but for the place of the current child. */
  lemma RetypeTask(tasks: seq<ReadTask>, stack: seq<Frame>, open: seq<Slots>, closed: set<Slots>,
                   current: RedisReply?, i: nat, task: ReadTask)
    requires StackOk(tasks, stack, open, closed, current) && |open| <= i < |tasks|
    requires i == |open| ==> task.idx == tasks[i].idx && task.parent == tasks[i].parent
    ensures StackOk(tasks[i := task], stack, open, closed, current)
  {
    var tasks' := tasks[i := task];
    forall k | 0 <= k < |open|
      ensures Level(tasks', k, stack[k], open[k], closed)
    {
      assert Level(tasks, k, stack[k], open[k], closed);
    }
  }

  /** seekNewline on n bytes at `from`. It may look at the byte after them, which is
      why the terminator that sds keeps there matters. */
  method SeekNewline(s: array<char>, from: nat, n: nat) returns (r: Option<nat>)
    requires from + n < s.Length && s[from + n] == NUL
    ensures r == FindCrlf(s[from..from + n])
  {
    hide FindCrlfFrom;
    ghost var text := s[from..from + n];
    var pos, last: int := 0, n - 1;
    while pos < last
      invariant 0 <= pos <= n
      invariant forall k :: 0 <= k < pos ==> !CrlfAt(text, k)
    {
      while pos < last && s[from + pos] != '\r'
        invariant 0 <= pos <= last
        invariant forall k :: 0 <= k < pos ==> !CrlfAt(text, k)
      {
        assert text[pos] != '\r';
        pos := pos + 1;
      }
      if s[from + pos] != '\r' {
        return None;
      } else {
        if s[from + pos + 1] == '\n' {
          assert pos + 1 < n;
          assert text[pos] == '\r' && text[pos + 1] == '\n';
          CrlfIs(text, pos);
          return Some(pos);
        } else {
          assert pos + 1 < n ==> text[pos + 1] != '\n';
          pos := pos + 1;
        }
      }
    }
    r := None;
  }

  class RedisReader {
    var error: Option<ProtocolError>
    var buf: Sds?
    var pos: nat
    var len: nat
    var maxbuf: nat
    var rstack: array<ReadTask>
    var ridx: int
    var reply: RedisReply?

    ghost var parser: Parser          // the abstract state: open arrays and pending type byte
    ghost var open: seq<Slots>        // slot arrays of the open arrays, outermost first
    ghost var closed: set<Slots>      // slot arrays of finished replies

    /** Everything a call may change. */
    ghost function Footprint(): set<object?>
      reads this, buf
    {
      {this, rstack} + (if buf == null then {} else {buf, buf.data}) + set a | a in open
    }

    ghost predicate BufferOk()
      reads this`error, this`buf, this`pos, this`len, buf, if buf == null then {} else {buf.data}
    {
      if error.Some? then buf == null && pos == len == 0
      else buf != null && buf.Valid() && len == buf.Len() && pos <= len <= INT_MAX
    }

    /** The task stack, its abstract state and the reply objects agree. When the current
        task is about a child of an array without slots, the innermost open slot holds the
        object of that array, and no object has been created for the child. */
    ghost predicate Tasks(current: RedisReply?)
      reads this`rstack, this`ridx, this`parser, this`open, this`closed, rstack, open, closed
    {
      && rstack.Length == 9 && -1 <= ridx <= 8
      && parser.Valid() && |open| == |parser.stack|
      && parser.Depth() == (if ridx < 0 then 0 else ridx)
      && (ridx < 0 ==> parser == IDLE)
      && (parser.bare ==> current == null && rstack[ridx - 1].obj != null && rstack[ridx - 1].obj.element == null)
      && StackOk(rstack[..], parser.stack, open, closed, if parser.bare then rstack[ridx - 1].obj else current)
      && (ridx >= 0 ==> rstack[ridx].typ == match parser.kind case None => -1 case Some(kind) => CodeOf(kind))
    }

    ghost predicate Shape(current: RedisReply?)
      reads this`rstack, this`ridx, this`parser, this`open, this`closed, this`reply, rstack, open, closed
    {
      Tasks(current) && (ridx > 0 ==> reply == rstack[0].obj)
    }

    /** In the middle of a reply. */
    ghost predicate Busy()
      reads this, buf, if buf == null then {} else {buf.data}
      reads rstack, open, closed
    {
      BufferOk() && error.None? && Shape(null) && ridx >= 0 && (ridx == 0 ==> reply == null)
    }

    /** Finished arrays stay finished, and only arrays that were open have become so. */
    ghost predicate Keeps(closed0: set<Slots>, open0: seq<Slots>)
      reads this`open, this`closed
    {
      && closed0 <= closed
      && (forall a :: a in closed ==> a in closed0 || a in open0)
      && (forall a :: a in open ==> a in open0)
    }

    /** The state after working on an item is what move m of the abstract machine,
        taken from parser p with the bytes s unread, leaves behind. */
    ghost predicate After(m: Move, ok: bool, p: Parser, s: string)
      reads this, buf, if buf == null then {} else {buf.data}
      reads rstack, open, closed
    {
      && BufferOk() && Shape(null)
      && match m
         case Blocked => !ok && Busy() && parser == p && Unread() == s
         case Fault(e) => !ok && error == Some(e) && ridx == -1 && reply == null
         case Go(p', rest) => ok && Busy() && parser == p' && Unread() == rest
         case Emit(t, rest) => ok && error.None? && ridx == -1 && Unread() == rest && reply != null && Represents(reply, t, closed)
    }

    ghost predicate Valid()
      reads this, buf, if buf == null then {} else {buf.data}
      reads rstack, open, closed
    {
      && BufferOk() && Shape(null)
      && (ridx <= 0 ==> reply == null)
      && (error.Some? ==> ridx == -1)
      && (parser.kind == Some(Array) ==> parser.Depth() < MAX_DEPTH)
    }

    lemma ParserValid()
      requires Busy()
      ensures parser.Valid() && parser.Depth() == ridx
    {}

    /** Finished replies are out of reach of later calls. */
    lemma ClosedApart()
      requires Valid()
      ensures forall a :: a in closed ==> a !in Footprint()
    {}

    lemma ValidBuffer()
      requires Valid()
      ensures BufferOk() && parser.Valid() && (error.Some? ==> Unread() == "" && parser == IDLE && len == 0)
      ensures len == 0 ==> NextReply(parser, Unread()) == Pending(parser, Unread())
    {
      EmptyInput(parser);
    }

    /** The bytes received and not yet consumed. */
    ghost function Unread(): string
      requires BufferOk()
      reads this`error, this`buf, this`pos, this`len, buf, if buf == null then {} else {buf.data}
    {
      if error.Some? then "" else buf.data[pos..len]
    }

    /** redisReaderCreateWithFunctions with the default reply functions. */
    constructor ()
      ensures Valid() && fresh(Footprint()) && closed == {}
      ensures error.None? && parser == IDLE && Unread() == "" && len == 0
    {
      error := None;
      var b := new Sds.NewLen("");
      buf := b;
      pos, len, maxbuf := 0, 0, REDIS_READER_MAX_BUF;
      rstack := new ReadTask[9](_ => ReadTask(-1, -1, -1, null, -1));
      ridx, reply := -1, null;
      parser, open, closed := IDLE, [], {};
      new;
      hide Valid, Sds.Valid, Sds.Sound;
      assert buf.Len() == 0;
      InitialState();
    }

    lemma InitialState()
      requires error.None? && buf != null && buf.Valid() && buf.Len() == pos == len == 0
      requires rstack.Length == 9 && rstack[0] == ReadTask(-1, -1, -1, null, -1)
      requires ridx == -1 && reply == null && parser == IDLE && open == []
      ensures Valid() && Unread() == ""
    {
      hide StackOk;
      EmptyStack(rstack[..], closed, null);
    }

    /** First arm of moveToNextTask: the enclosing array is full, so it is the finished item now. */
    method PopTask(ghost o: RedisReply, ghost t: Tree) returns (ghost o': RedisReply, ghost t': Tree)
      requires Shape(o) && Represents(o, t, closed)
      requires ridx > 0 && rstack[ridx].idx == rstack[ridx - 1].elements - 1
      modifies this`ridx, this`parser, this`open, this`closed
      ensures Shape(o') && Represents(o', t', closed) && ridx == old(ridx) - 1
      ensures closed == old(closed) + {old(open[ridx - 1])} && open == old(open[..ridx - 1])
      ensures Settle(parser.stack, t') == old(Settle(parser.stack, t))
      ensures ridx == 0 ==> o' == reply
    {
      hide StackOk, Level, Represents, Filled, Settle;
      StackFacts(rstack[..], parser.stack, open, closed, o);
      PopTop(rstack[..], parser.stack, open, closed, o, t);
      ghost var n := ridx - 1;
      ghost var top := Grow(parser.stack[n], t);
      o', t' := rstack[n].obj, Multi(top.count, top.kids);
      closed := closed + {open[n]};
      open := open[..n];
      parser := Parser(parser.stack[..n], Some(Array));
      ridx := ridx - 1;
    }

    /** Second arm: the enclosing array has a next child, of a type not yet known. */
    method AdvanceTask(ghost o: RedisReply, ghost t: Tree)
      requires Shape(o) && Represents(o, t, closed)
      requires ridx > 0 && rstack[ridx].idx != rstack[ridx - 1].elements - 1
      modifies this`parser, rstack
      ensures Shape(null)
      ensures parser.kind == None && old(Settle(parser.stack, t)) == Next(parser.stack)
    {
      hide StackOk, Level, Represents, Filled, Settle;
      StackFacts(rstack[..], parser.stack, open, closed, o);
      NextChild(rstack[..], parser.stack, open, closed, o, t);
      ghost var n := ridx - 1;
      ghost var tasks := rstack[..];
      ghost var top := Grow(parser.stack[n], t);
      var cur := rstack[ridx];
      rstack[ridx] := cur.(typ := -1, elements := -1, idx := cur.idx + 1);
      assert rstack[..] == tasks[ridx := cur.(typ := -1, elements := -1, idx := cur.idx + 1)];
      parser := Parser(parser.stack[..n] + [top], None);
    }

    /** moveToNextTask. The current item's object is in place and represents t0. */
    method MoveToNextTask(ghost o0: RedisReply, ghost t0: Tree) returns (ghost root: RedisReply)
      requires Shape(o0) && ridx >= 0 && Represents(o0, t0, closed)
      modifies this`ridx, this`parser, this`open, this`closed, rstack
      ensures Shape(null)
      ensures Keeps(old(closed), old(open))
      ensures match old(Settle(parser.stack, t0))
              case Whole(w) => ridx == -1 && Represents(root, w, closed) && root == (if old(ridx) == 0 then o0 else reply)
              case Next(stack) => ridx > 0 && parser == Parser(stack, None)
    {
      hide StackOk, Level, Represents, Filled, Settle;
      ghost var o: RedisReply := o0;
      ghost var t := t0;
      root := o0;
      while ridx >= 0
        invariant ridx >= 0 && Shape(o) && Represents(o, t, closed)
        invariant Keeps(old(closed), old(open))
        invariant Settle(parser.stack, t) == old(Settle(parser.stack, t0))
        invariant ridx == 0 ==> o == if old(ridx) == 0 then o0 else reply
        decreases ridx
      {
        StackFacts(rstack[..], parser.stack, open, closed, o);
        if ridx == 0 {
          WholeReply(parser.stack, t);
          EmptyStack(rstack[..], closed, null);
          ridx := ridx - 1;
          parser := IDLE;
          root := o;
          return;
        }
        var cur := rstack[ridx];
        var prv := rstack[ridx - 1];
        assert prv.typ == REDIS_REPLY_ARRAY;
        if cur.idx == prv.elements - 1 {
          o, t := PopTask(o, t);
        } else {
          assert cur.idx < prv.elements;
          AdvanceTask(o, t);
          return;
        }
      }
    }

    /** The parent store at the end of every create*Object. */
    method Attach(r: RedisReply)
      requires Shape(null) && ridx >= 0 && !parser.bare
      modifies open
      ensures Shape(r)
    {
      StackFacts(rstack[..], parser.stack, open, closed, null);
      var task := rstack[ridx];
      if task.parent >= 0 {
        var parent := rstack[task.parent].obj;
        assert parent.typ == REDIS_REPLY_ARRAY;
        ghost var n := ridx - 1;
        assert parent.element == open[n] && task.idx == |parser.stack[n].kids|;
        assert Level(rstack[..], n, parser.stack[n], open[n], closed);
        parent.element[task.idx] := r;
        forall k | 0 <= k < |open|
          ensures Level(rstack[..], k, parser.stack[k], open[k], closed)
        {
          assert old(Level(rstack[..], k, parser.stack[k], open[k], closed));
        }
      } else {
        EmptyStack(rstack[..], closed, r);
      }
    }

    /** createStringObject, createIntegerObject, createNilObject and createArrayObject. */
    method CreateObject(typ: int, integer: int, str: string, elements: int) returns (r: RedisReply)
      requires Shape(null) && ridx >= 0 && !parser.bare && -0x8000_0000 <= elements <= INT_MAX
      modifies open
      ensures Shape(r) && fresh(r)
      ensures r.typ == typ && r.integer == integer && r.str == str && r.elements == SizeOf(elements)
      ensures elements <= 0 ==> r.element == null
      ensures elements > 0 ==> r.element != null && fresh(r.element) && r.element.Length == elements
      ensures elements > 0 ==> forall i :: 0 <= i < elements ==> r.element[i] == null
    {
      hide StackOk, Level;
      r := new RedisReply(typ, integer, str, elements);
      Attach(r);
    }

    /** readLine: the line's place and length; the cursor moves past its "\r\n". */
    method ReadLine() returns (line: Option<(nat, nat)>)
      requires Busy()
      modifies this`pos
      ensures Busy()
      ensures match FindCrlf(old(Unread()))
              case None => line == None && pos == old(pos)
              case Some(k) => line == Some((old(pos), k)) && pos == old(pos) + k + 2 && Unread() == old(Unread())[k + 2..]
      ensures buf.data[old(pos)..len] == old(Unread())
    {
      hide FindCrlf;
      var p := pos;
      var s := SeekNewline(buf.data, pos, len - pos);
      if s.Some? {
        pos := pos + s.value + 2;
        return Some((p, s.value));
      }
      return None;
    }

    /** The number at p, given that the bytes from p to the end of the buffer hold a line. */
    method NumberAt(p: nat) returns (v: int)
      requires BufferOk() && error.None? && p <= len && FindCrlf(buf.data[p..len]).Some?
      requires LongFits(buf.data[p..len])
      ensures v == LineNumber(buf.data[p..len])
    {
      hide FindCrlf, LongLong, LongFits;
      ghost var text := buf.data[p..len];
      assert text[FindCrlf(text).value] == '\r';
      assert buf.data[p..] == text + buf.data[len..];
      LongLongExtend(text, buf.data[len..]);
      LongFitsExtend(text, buf.data[len..]);
      v := ReadLongLong(buf.data, p);
    }

    /** The tail of every item function: the root is the reply; go on to the next task. */
    method FinishItem(obj: RedisReply, ghost t: Tree, ghost p: Parser, ghost s: string)
      requires BufferOk() && error.None? && Shape(obj) && ridx >= 0 && Represents(obj, t, closed)
      modifies this`reply, this`ridx, this`parser, this`open, this`closed, rstack
      ensures After(old(Landed(Settle(parser.stack, t), Unread())), true, p, s)
      ensures Keeps(old(closed), old(open))
    {
      hide StackOk, Level, Represents, Settle;
      if ridx == 0 {
        reply := obj;
      }
      ghost var root := MoveToNextTask(obj, t);
    }

    /** The reply object for a line of length n at p. */
    method CreateLine(p: nat, n: nat) returns (obj: RedisReply, ghost t: Tree)
      requires BufferOk() && error.None? && Shape(null) && ridx >= 0 && !parser.bare
      requires parser.kind.Some? && parser.kind.value in {Status, Error, Integer}
      requires p <= len && FindCrlf(buf.data[p..len]) == Some(n)
      requires parser.kind == Some(Integer) ==> LongFits(buf.data[p..len])
      modifies open
      ensures BufferOk() && Shape(obj) && Represents(obj, t, closed)
      ensures t == LineTree(parser.kind.value, buf.data[p..len], n)
    {
      hide StackOk, Level, Represents, FindCrlf, LongLong, LongFits;
      ghost var text := buf.data[p..len];
      if rstack[ridx].typ == REDIS_REPLY_INTEGER {
        var v := NumberAt(p);
        obj := CreateObject(REDIS_REPLY_INTEGER, v, "", 0);
        t := Int(v);
      } else {
        obj := CreateObject(rstack[ridx].typ, 0, buf.data[p..p + n], 0);
        t := Line(parser.kind.value, text[..n]);
        assert buf.data[p..p + n] == text[..n];
      }
      LeafObject(obj, t, closed);
    }

    /** processLineItem once its line of length n at `at` has been consumed. */
    method FinishLine(at: nat, n: nat, ghost p: Parser, ghost s: string)
      requires BufferOk() && error.None? && Shape(null) && ridx >= 0 && !parser.bare
      requires parser.kind.Some? && parser.kind.value in {Status, Error, Integer}
      requires at <= len && FindCrlf(buf.data[at..len]) == Some(n)
      requires parser.kind == Some(Integer) ==> LongFits(buf.data[at..len])
      modifies this`reply, this`ridx, this`parser, this`open, this`closed, rstack, open
      ensures After(old(Landed(Settle(parser.stack, LineTree(parser.kind.value, buf.data[at..len], n)), Unread())), true, p, s)
      ensures Keeps(old(closed), old(open))
    {
      hide StackOk, Level, Represents, Settle, FindCrlf, LongFits, Landed, LineTree, After, Keeps;
      ghost var t;
      var obj;
      obj, t := CreateLine(at, n);
      FinishItem(obj, t, p, s);
    }

    /** processLineItem */
    method ProcessLineItem() returns (ok: bool)
      requires Busy() && parser.kind.Some? && parser.kind.value in {Status, Error, Integer}
      requires Step(parser, Unread()) != Fault(Undefined)
      modifies this`pos, this`reply, this`ridx, this`parser, this`open, this`closed, rstack, open
      ensures After(old(Step(parser, Unread())), ok, old(parser), old(Unread()))
      ensures Keeps(old(closed), old(open))
    {
      hide StackOk, Level, Represents, Settle, FindCrlf, LongLong, LongFits, Step, Header, Landed, LineTree, Tasks, Shape;
      ghost var p0, s0 := parser, Unread();
      ParserValid();
      LineStep(p0, s0);
      var line := ReadLine();
      if line.Some? {
        hide After, Keeps;
        FinishLine(line.value.0, line.value.1, p0, s0);
        return true;
      }
      return false;
    }

    /** The reply object for a bulk item whose line at p has length n and number blen, once the
        body has arrived; bytelen is what the item takes up. */
    method CreateBulk(p: nat, n: nat, blen: int) returns (obj: RedisReply?, bytelen: nat, ghost t: Tree)
      requires BufferOk() && error.None? && Shape(null) && ridx >= 0 && parser.kind == Some(Bulk)
      requires p <= len && FindCrlf(buf.data[p..len]) == Some(n) && LineNumber(buf.data[p..len]) == blen
      requires LongFits(buf.data[p..len]) && blen + 2 <= LLONG_MAX
      requires parser.bare ==> Header(Bulk, parser.Depth(), buf.data[p..len]) == More
      modifies open
      ensures BufferOk() && bytelen <= len - p
      ensures if obj == null then Shape(null) && Header(Bulk, parser.Depth(), buf.data[p..len]) == More
              else Shape(obj) && Represents(obj, t, closed) &&
                   Header(Bulk, parser.Depth(), buf.data[p..len]) == Done(Leaf(t), buf.data[p..len][bytelen..])
    {
      hide StackOk, Level, Represents, FindCrlf, LongLong, LongFits, Header;
      ghost var text := buf.data[p..len];
      HeaderBulk(parser.Depth(), text, n, blen);
      bytelen := n + 2;
      if blen < 0 {
        obj := CreateObject(REDIS_REPLY_NIL, 0, "", 0);
        t := Nil;
      } else {
        if p + bytelen + blen + 2 > len {
          return null, 0, Nil;
        }
        var body := buf.data[p + n + 2..p + n + 2 + blen];
        SubSlice(buf.data[..], p, len, n + 2, n + 2 + blen);
        assert text == buf.data[..][p..len];
        obj := CreateObject(rstack[ridx].typ, 0, body, 0);
        t := Str(body);
        bytelen := bytelen + blen + 2;
      }
      LeafObject(obj, t, closed);
    }

    /** processBulkItem once the line of length n is there. */
    method ProcessBulkLine(n: nat) returns (ok: bool)
      requires Busy() && parser.kind == Some(Bulk) && FindCrlf(Unread()) == Some(n)
      requires Step(parser, Unread()) != Fault(Undefined)
      modifies this`pos, this`reply, this`ridx, this`parser, this`open, this`closed, rstack, open
      ensures After(old(Step(parser, Unread())), ok, old(parser), old(Unread()))
      ensures Keeps(old(closed), old(open))
    {
      hide StackOk, Level, Represents, Settle, FindCrlf, LongLong, LongFits, Step, Header, Landed, Sds.Valid, Sds.Sound, Tasks, Shape;
      ghost var p0, s0 := parser, Unread();
      ParserValid();
      if p0.bare {
        BareStep(p0, s0);
      } else {
        TypedStep(p0, s0);
      }
      BulkDefined(p0.Depth(), s0);
      var blen := NumberAt(pos);
      var obj, bytelen;
      ghost var t;
      obj, bytelen, t := CreateBulk(pos, n, blen);
      if obj == null {
        return false;
      }
      hide After, Keeps, Busy, Shape, Tasks, BufferOk;
      FinishBulk(obj, bytelen, t, p0, s0);
      return true;
    }

    /** r->pos += bytelen, and the tail of every item function. */
    method FinishBulk(obj: RedisReply, bytelen: nat, ghost t: Tree, ghost p: Parser, ghost s: string)
      requires BufferOk() && error.None? && Shape(obj) && ridx >= 0 && Represents(obj, t, closed)
      requires bytelen <= len - pos
      modifies this`pos, this`reply, this`ridx, this`parser, this`open, this`closed, rstack
      ensures After(old(Landed(Settle(parser.stack, t), Unread()[bytelen..])), true, p, s)
      ensures Keeps(old(closed), old(open))
    {
      hide StackOk, Level, Represents, Settle, Landed, After, Keeps;
      ghost var s0 := Unread();
      pos := pos + bytelen;
      assert Unread() == s0[bytelen..];
      FinishItem(obj, t, p, s);
    }

    /** processBulkItem */
    method ProcessBulkItem() returns (ok: bool)
      requires Busy() && parser.kind == Some(Bulk)
      requires Step(parser, Unread()) != Fault(Undefined)
      modifies this`pos, this`reply, this`ridx, this`parser, this`open, this`closed, rstack, open
      ensures After(old(Step(parser, Unread())), ok, old(parser), old(Unread()))
      ensures Keeps(old(closed), old(open))
    {
      hide StackOk, Level, Represents, Settle, FindCrlf, LongLong, Step, Header, Landed;
      var s := SeekNewline(buf.data, pos, len - pos);
      if s.Some? {
        ok := ProcessBulkLine(s.value);
      } else {
        if parser.bare {
          BareStep(parser, Unread());
        } else {
          TypedStep(parser, Unread());
        }
        HeaderNeedsLine(Bulk, parser.Depth(), Unread());
        ok := false;
      }
    }

    /** __redisReaderSetError */
    method SetError(e: ProtocolError)
      requires BufferOk() && error.None? && Shape(null) && ridx >= 0
      modifies this`error, this`buf, this`pos, this`len, this`reply, this`ridx, this`parser, this`open
      ensures BufferOk() && Shape(null) && error == Some(e)
      ensures ridx == -1 && reply == null && open == [] && closed == old(closed) && buf == null
    {
      hide StackOk, Level, Represents, Sds.Valid, Sds.Sound;
      StackFacts(rstack[..], parser.stack, open, closed, if parser.bare then rstack[ridx - 1].obj else null);
      EmptyStack(rstack[..], closed, null);
      reply := null;
      buf := null;
      pos, len := 0, 0;
      ridx := -1;
      error := Some(e);
      parser, open := IDLE, [];
    }

    /** The stack push of processMultiBulkItem. */
    method PushTask(obj: RedisReply, elements: nat)
      requires 0 <= ridx < 8 && elements > 0 && Shape(obj) && parser.kind == Some(Array)
      requires obj.element != null && IsArray(obj, obj.element) && obj.elements == elements
      requires obj.element !in open && obj.element !in closed
      requires forall i :: 0 <= i < elements ==> obj.element[i] == null
      modifies this`ridx, this`parser, this`open, rstack
      ensures Tasks(null) && ridx == old(ridx) + 1
      ensures old(ridx) > 0 ==> rstack[0].obj == old(rstack[0].obj)
      ensures old(ridx) == 0 ==> rstack[0].obj == obj
      ensures parser == Parser(old(parser.stack) + [Frame(elements, [])], None)
      ensures open == old(open) + [obj.element]
    {
      hide StackOk, Level, Represents;
      StackFacts(rstack[..], parser.stack, open, closed, obj);
      PushArray(rstack[..], parser.stack, open, closed, obj, obj.element);
      ghost var tasks := rstack[..];
      var cur := rstack[ridx];
      rstack[ridx] := cur.(elements := elements, obj := obj);
      ridx := ridx + 1;
      rstack[ridx] := ReadTask(-1, -1, 0, null, ridx - 1);
      assert rstack[..] == tasks[ridx - 1 := cur.(elements := elements, obj := obj)][ridx := ReadTask(-1, -1, 0, null, ridx - 1)];
      parser := Parser(parser.stack + [Frame(elements, [])], None);
      open := open + [obj.element];
    }

    /** The reply object for a nil array or one without children to wait for. When the
        count is cut to a positive int it gets slots that no one will fill. */
    method CreateEmpty(elements: int) returns (obj: RedisReply, ghost t: Tree)
      requires Shape(null) && ridx >= 0 && !parser.bare && elements <= 0
      modifies open, this`closed
      ensures Shape(obj) && Represents(obj, t, closed)
      ensures old(closed) <= closed && forall a :: a in closed ==> a in old(closed) || fresh(a)
      ensures t == if elements == -1 then Nil else Multi(SizeOf(CutInt(elements)), [])
    {
      hide StackOk, Level, Represents, CutInt, SizeOf;
      if elements == -1 {
        obj := CreateObject(REDIS_REPLY_NIL, 0, "", 0);
        t := Nil;
        LeafObject(obj, t, closed);
      } else {
        var n := CutInt(elements);
        obj := CreateObject(REDIS_REPLY_ARRAY, 0, "", n);
        t := Multi(SizeOf(n), []);
        if n > 0 {
          CloseSlots(obj, n);
        } else {
          LeafObject(obj, t, closed);
        }
      }
    }

    /** The slots of an array that is not pushed stay as they are. */
    ghost method CloseSlots(obj: RedisReply, n: nat)
      requires Shape(obj) && ridx >= 0 && obj.element != null && obj.element !in open
      requires obj.typ == REDIS_REPLY_ARRAY && obj.elements == obj.element.Length == n > 0
      requires forall i :: 0 <= i < n ==> obj.element[i] == null
      modifies this`closed
      ensures closed == old(closed) + {obj.element}
      ensures Shape(obj) && Represents(obj, Multi(n, []), closed)
    {
      StackMono(rstack[..], parser.stack, open, closed, obj.element, obj);
      hide StackOk, Level;
      closed := closed + {obj.element};
    }

    /** processMultiBulkItem for such an array: the root becomes the reply after the move. */
    method FinishEmpty(obj: RedisReply, ghost t: Tree, ghost p: Parser, ghost s: string)
      requires BufferOk() && error.None? && Shape(obj) && ridx >= 0 && Represents(obj, t, closed)
      modifies this`reply, this`ridx, this`parser, this`open, this`closed, rstack
      ensures After(old(Landed(Settle(parser.stack, t), Unread())), true, p, s)
      ensures Keeps(old(closed), old(open))
    {
      hide StackOk, Level, Represents, Settle;
      var root := ridx == 0;
      StackFacts(rstack[..], parser.stack, open, closed, obj);
      if root {
        WholeReply(parser.stack, t);
      }
      ghost var whole := MoveToNextTask(obj, t);
      if root {
        reply := obj;
      }
    }

    /** processMultiBulkItem for an array with children. */
    method OpenArray(elements: nat)
      requires Busy() && !parser.bare && 0 < elements <= INT_MAX && ridx < 8 && parser.kind == Some(Array)
      modifies this`reply, this`ridx, this`parser, this`open, rstack, open
      ensures Busy() && parser == Parser(old(parser.stack) + [Frame(elements, [])], None) && Unread() == old(Unread())
      ensures closed == old(closed) && forall a :: a in open ==> a in old(open) || fresh(a)
    {
      hide StackOk, Level, Represents, Sds.Valid, Sds.Sound, Tasks;
      var root := ridx == 0;
      var obj := CreateObject(REDIS_REPLY_ARRAY, 0, "", elements);
      PushTask(obj, elements);
      if root {
        reply := obj;
      }
    }

    /** processMultiBulkItem for a positive count that is not positive as an int: the task
        is pushed, but the object it belongs to has no slots. */
    method OpenBare(elements: int)
      requires Busy() && !parser.bare && -0x8000_0000 <= elements <= 0 && ridx < 8 && parser.kind == Some(Array)
      modifies this`reply, this`ridx, this`parser, rstack, open
      ensures Busy() && parser == Parser(old(parser.stack), None, true) && Unread() == old(Unread())
      ensures rstack[ridx - 1].elements == elements && rstack[ridx].parent == ridx - 1 && rstack[ridx].idx == 0
      ensures rstack[ridx - 1].obj != null && fresh(rstack[ridx - 1].obj)
      ensures rstack[ridx - 1].obj.elements == SizeOf(elements) && rstack[ridx - 1].obj.element == null
    {
      hide StackOk, Level, Represents, Sds.Valid, Sds.Sound, SizeOf, Tasks;
      var root := ridx == 0;
      var obj := CreateObject(REDIS_REPLY_ARRAY, 0, "", elements);
      PushBare(obj, elements);
      if root {
        reply := obj;
      }
    }

    /** The stack push for an array without slots. */
    method PushBare(obj: RedisReply, elements: int)
      requires 0 <= ridx < 8 && Shape(obj) && parser.kind == Some(Array) && obj.element == null
      modifies this`ridx, this`parser, rstack
      ensures Tasks(null) && ridx == old(ridx) + 1 && parser == Parser(old(parser.stack), None, true)
      ensures old(ridx) > 0 ==> rstack[0].obj == old(rstack[0].obj)
      ensures old(ridx) == 0 ==> rstack[0].obj == obj
      ensures rstack[ridx - 1].elements == elements && rstack[ridx - 1].obj == obj
      ensures rstack[ridx].parent == ridx - 1 && rstack[ridx].idx == 0
    {
      hide StackOk, Level, Represents;
      ghost var tasks := rstack[..];
      var cur := rstack[ridx];
      var next := ReadTask(-1, -1, 0, null, ridx);
      RetypeTask(tasks, parser.stack, open, closed, obj, ridx, cur.(elements := elements, obj := obj));
      RetypeTask(tasks[ridx := cur.(elements := elements, obj := obj)], parser.stack, open, closed, obj, ridx + 1, next);
      rstack[ridx] := cur.(elements := elements, obj := obj);
      ridx := ridx + 1;
      rstack[ridx] := next;
      assert rstack[..] == tasks[ridx - 1 := cur.(elements := elements, obj := obj)][ridx := next];
      parser := Parser(parser.stack, None, true);
    }

    /** The line of processMultiBulkItem has been read: an item to finish or an array to
        open. The object and the task get the count as an int. */
    method ProcessCount(elements: int, ghost p: Parser, ghost s: string)
      requires Busy() && parser.kind == Some(Array) && ridx < 8 && !parser.bare
      modifies this`reply, this`ridx, this`parser, this`open, this`closed, rstack, open
      ensures After(old(CountMove(parser, elements, Unread())), true, p, s)
      ensures old(closed) <= closed && (forall a :: a in closed ==> a in old(closed) || a in old(open) || fresh(a))
      ensures forall a :: a in open ==> a in old(open) || fresh(a)
    {
      hide StackOk, Level, Represents, Settle, Landed, CutInt, SizeOf;
      if elements <= 0 {
        hide After;
        var obj;
        ghost var t;
        obj, t := CreateEmpty(elements);
        FinishEmpty(obj, t, p, s);
      } else {
        var n := CutInt(elements);
        if n > 0 {
          OpenArray(n);
        } else {
          OpenBare(n);
        }
      }
    }

    /** processMultiBulkItem below the depth limit. */
    method ProcessArrayLine() returns (ok: bool)
      requires Busy() && parser.kind == Some(Array) && ridx < 8
      requires Step(parser, Unread()) != Fault(Undefined)
      modifies this`pos, this`reply, this`ridx, this`parser, this`open, this`closed, rstack, open
      ensures After(old(Step(parser, Unread())), ok, old(parser), old(Unread()))
      ensures old(closed) <= closed && (forall a :: a in closed ==> a in old(closed) || a in old(open) || fresh(a))
      ensures forall a :: a in open ==> a in old(open) || fresh(a)
    {
      hide StackOk, Level, Represents, Settle, FindCrlf, LongLong, LongFits, Step, Header, Landed, CountOf, Tasks, Shape;
      ghost var p0, s0 := parser, Unread();
      ParserValid();
      ArrayStep(p0, s0);
      var line := ReadLine();
      if line.Some? {
        var elements := NumberAt(line.value.0);
        hide After, CountMove;
        ProcessCount(elements, p0, s0);
        return true;
      }
      return false;
    }

    /** processMultiBulkItem */
    method ProcessMultiBulkItem() returns (ok: bool)
      requires Busy() && parser.kind == Some(Array)
      requires Step(parser, Unread()) != Fault(Undefined)
      modifies this`error, this`buf, this`pos, this`len, this`reply, this`ridx, this`parser, this`open, this`closed, rstack, open
      ensures After(old(Step(parser, Unread())), ok, old(parser), old(Unread()))
      ensures old(closed) <= closed && (forall a :: a in closed ==> a in old(closed) || a in old(open) || fresh(a))
      ensures forall a :: a in open ==> a in old(open) || fresh(a)
      ensures !ok && error.None? ==> parser.Depth() < MAX_DEPTH
      ensures buf == old(buf) || buf == null
    {
      hide StackOk, Level, Represents, Settle, Step, Header;
      if ridx == 8 {
        if parser.bare {
          BareStep(parser, Unread());
        } else {
          TypedStep(parser, Unread());
        }
        HeaderTooDeep(Unread());
        SetError(TooDeep);
        return false;
      }
      ok := ProcessArrayLine();
    }

    /** processItem, first part: read the type byte. */
    method ReadType() returns (ok: bool)
      requires Busy() && parser.kind == None
      modifies this`error, this`buf, this`pos, this`len, this`reply, this`ridx, this`parser, this`open, rstack
      ensures After(old(Step(parser, Unread())), ok, old(parser), old(Unread()))
      ensures ok ==> old(Step(parser, Unread())).Go? && parser.kind.Some? && open == old(open)
      ensures closed == old(closed) && forall a :: a in open ==> a in old(open)
      ensures buf == old(buf) || buf == null
    {
      hide StackOk, Level, Represents, Step;
      ghost var p0, s0 := parser, Unread();
      TypeStep(p0, s0);
      if len - pos < 1 {
        return false;
      }
      var c := buf.data[pos];
      pos := pos + 1;
      assert c == s0[0] && Unread() == s0[1..];
      var kind := KindOf(c);
      if kind == None {
        SetError(BadType(c));
        return false;
      }
      SetType(kind.value);
      return true;
    }

    /** The type in the current task. */
    method SetType(kind: Kind)
      requires Shape(null) && ridx >= 0 && parser.kind == None
      modifies this`parser, rstack
      ensures Shape(null) && parser == old(parser).(kind := Some(kind)) && rstack[0].obj == old(rstack[0].obj)
    {
      hide StackOk, Level, Represents;
      var cur := rstack[ridx];
      ghost var tasks := rstack[..];
      ghost var current := if parser.bare then tasks[ridx - 1].obj else null;
      rstack[ridx] := cur.(typ := CodeOf(kind));
      assert rstack[..] == tasks[ridx := cur.(typ := CodeOf(kind))];
      RetypeTask(tasks, parser.stack, open, closed, current, ridx, cur.(typ := CodeOf(kind)));
      parser := parser.(kind := Some(kind));
    }

    /** processItem, second part: dispatch on the type. */
    method ProcessTyped() returns (ok: bool)
      requires Busy() && parser.kind.Some?
      requires Step(parser, Unread()) != Fault(Undefined)
      modifies this`error, this`buf, this`pos, this`len, this`reply, this`ridx, this`parser, this`open, this`closed, rstack, open
      ensures After(old(Step(parser, Unread())), ok, old(parser), old(Unread()))
      ensures old(closed) <= closed && (forall a :: a in closed ==> a in old(closed) || a in old(open) || fresh(a))
      ensures forall a :: a in open ==> a in old(open) || fresh(a)
      ensures !ok && error.None? ==> (parser.kind == Some(Array) ==> parser.Depth() < MAX_DEPTH)
      ensures buf == old(buf) || buf == null
    {
      hide StackOk, Level, Represents, Step;
      var typ := rstack[ridx].typ;
      if typ == REDIS_REPLY_ERROR || typ == REDIS_REPLY_STATUS || typ == REDIS_REPLY_INTEGER {
        ok := ProcessLineItem();
      } else if typ == REDIS_REPLY_STRING {
        ok := ProcessBulkItem();
      } else {
        assert typ == REDIS_REPLY_ARRAY;
        ok := ProcessMultiBulkItem();
      }
    }

    /** How far a call has got towards the outcome r of the abstract machine. */
    ghost predicate Towards(r: Outcome, ok: bool)
      reads this, buf, if buf == null then {} else {buf.data}
      reads rstack, open, closed
    {
      && BufferOk() && Shape(null)
      && (parser.kind == Some(Array) && !ok ==> parser.Depth() < MAX_DEPTH)
      && if error.Some? then !ok && r == Failed(error.value) && ridx == -1 && reply == null
         else if ridx < 0 then ok && r.Reply? && r.rest == Unread() && reply != null && Represents(reply, r.tree, closed)
         else Busy() && r == if ok then NextReply(parser, Unread()) else Pending(parser, Unread())
    }

    /** processItem */
    method ProcessItem() returns (ok: bool)
      requires Busy() && NextReply(parser, Unread()) != Failed(Undefined)
      modifies this`error, this`buf, this`pos, this`len, this`reply, this`ridx, this`parser, this`open, this`closed, rstack, open
      ensures Towards(old(NextReply(parser, Unread())), ok)
      ensures ok && ridx >= 0 ==> |Unread()| < |old(Unread())|
      ensures old(closed) <= closed && (forall a :: a in closed ==> a in old(closed) || a in old(open) || fresh(a))
      ensures forall a :: a in open ==> a in old(open) || fresh(a)
      ensures buf == old(buf) || buf == null
    {
      hide StackOk, Level, Represents, Step, NextReply, KindOf;
      NextReplyStep(parser, Unread());
      if rstack[ridx].typ < 0 {
        ok := ReadType();
        if !ok {
          return;
        }
        NextReplyStep(parser, Unread());
      }
      ok := ProcessTyped();
    }

    /** redisReaderFeed; the bytes in the buffer must stay countable by an int. */
    method Feed(chunk: string) returns (ok: bool)
      requires Valid() && (error.None? ==> len + |chunk| <= INT_MAX)
      modifies Footprint()
      ensures Valid() && ok == error.None? && (forall o :: o in Footprint() ==> o in old(Footprint()) || fresh(o))
      ensures unchanged(`error, `parser, `open, `closed, `reply)
      ensures Unread() == if ok then old(Unread()) + chunk else ""
      ensures len == if ok then old(len) + |chunk| else 0
    {
      hide StackOk, Sds.Sound, Tasks, Shape;
      if error.Some? {
        return false;
      }
      if |chunk| >= 1 {
        if len == 0 && maxbuf != 0 && buf.Avail() > maxbuf {
          ResetBuffer();
        }
        AppendChunk(chunk);
      }
      return true;
    }

    /** Destroy an empty buffer that has grown too large. */
    method ResetBuffer()
      requires Valid() && error.None? && len == 0
      modifies this`buf, this`pos
      ensures Valid() && fresh(buf) && fresh(buf.data) && Unread() == old(Unread())
    {
      hide StackOk, Tasks, Shape;
      buf := new Sds.NewLen("");
      pos := 0;
    }

    method AppendChunk(chunk: string)
      requires Valid() && error.None? && len + |chunk| <= INT_MAX
      modifies this`len, buf, buf.data
      ensures Valid() && (buf.data == old(buf.data) || fresh(buf.data))
      ensures Unread() == old(Unread()) + chunk && len == old(len) + |chunk|
    {
      hide StackOk, Tasks, Shape;
      ghost var text := buf.Content();
      buf.CatLen(chunk);
      len := buf.Len();
      assert (text + chunk)[pos..] == text[pos..] + chunk;
      assert buf.data[..len] == text + chunk;
      assert buf.data[..len][pos..] == buf.data[pos..len];
    }

    /** The compaction in redisReaderGetReply: drop what has been consumed. */
    method Compact()
      requires BufferOk() && error.None? && len > 0
      modifies this`pos, this`len, buf, buf.data
      ensures BufferOk() && buf.data == old(buf.data)
      ensures Unread() == old(Unread()) && len <= old(len)
    {
      ghost var unread, text := Unread(), buf.Content();
      assert text[pos..len] == unread;
      buf.Range(pos, -1);
      pos := 0;
      len := buf.Len();
      assert buf.data[0..len] == buf.Content() == unread;
    }

    /** The root task of redisReaderGetReply. */
    method StartReply()
      requires Valid() && error.None?
      modifies this`ridx, rstack
      ensures Busy()
    {
      hide Level;
      if ridx == -1 {
        rstack[0] := ReadTask(-1, -1, -1, null, -1);
        ridx := 0;
        EmptyStack(rstack[..], closed, null);
      }
    }

    /** The items are processed: blocked, failed, or a whole reply in `reply`. */
    ghost predicate Reached(r: Outcome)
      reads this, buf, if buf == null then {} else {buf.data}
      reads rstack, open, closed
    {
      && BufferOk() && Shape(null)
      && match r
         case Pending(p', rest) => Busy() && parser == p' && Unread() == rest && (parser.kind == Some(Array) ==> parser.Depth() < MAX_DEPTH)
         case Failed(e) => error == Some(e) && ridx == -1 && reply == null
         case Reply(t, rest) => error.None? && ridx == -1 && Unread() == rest && reply != null && Represents(reply, t, closed)
    }

    /** The processing loop of redisReaderGetReply. */
    method ProcessItems()
      requires Busy() && NextReply(parser, Unread()) != Failed(Undefined)
      modifies this`error, this`buf, this`pos, this`len, this`reply, this`ridx, this`parser, this`open, this`closed, rstack, open
      ensures Reached(old(NextReply(parser, Unread())))
      ensures old(closed) <= closed && (forall a :: a in closed ==> a in old(closed) || a in old(open) || fresh(a))
      ensures forall a :: a in open ==> a in old(open) || fresh(a)
      ensures (buf == old(buf) || buf == null) && len <= old(len)
    {
      hide StackOk, Represents, NextReply, Level;
      ghost var r := NextReply(parser, Unread());
      while ridx >= 0
        invariant Towards(r, true)
        invariant old(closed) <= closed && (forall a :: a in closed ==> a in old(closed) || a in old(open) || fresh(a))
        invariant forall a :: a in open ==> a in old(open) || fresh(a)
        invariant buf == old(buf)
        decreases if ridx >= 0 then |Unread()| + 1 else 0
      {
        assert forall k :: 0 <= k < |open| ==> open[k] in open;
        var ok := ProcessItem();
        if !ok {
          return;
        }
      }
    }

    /** What one redisReaderGetReply returns and leaves behind, given the outcome of the abstract machine. */
    ghost predicate Delivered(r: Outcome, ok: bool, out: RedisReply?)
      requires BufferOk()
      reads this`error, this`buf, this`pos, this`len, buf, if buf == null then {} else {buf.data}
      reads this`parser, this`closed, closed
    {
      match r
      case Pending(p', rest) => ok && out == null && error.None? && parser == p' && Unread() == rest
      case Failed(e) => !ok && out == null && error == Some(e)
      case Reply(t, rest) => ok && out != null && Represents(out, t, closed) && error.None? && parser == IDLE && Unread() == rest
    }

    /** The end of redisReaderGetReply: discard consumed bytes once they are many, emit the reply if there is one. */
    method TakeReply(ghost r: Outcome) returns (ok: bool, out: RedisReply?)
      requires Reached(r)
      modifies this`pos, this`len, this`reply, buf, if buf == null then {} else {buf.data}
      ensures Valid() && Delivered(r, ok, out) && len <= old(len)
      ensures buf != null ==> buf.data == old(buf.data)
    {
      hide StackOk, Represents;
      out := null;
      if error.Some? {
        return false, null;
      }
      if pos >= 1024 {
        Compact();
      }
      if ridx == -1 {
        out := reply;
        reply := null;
      }
      return true, out;
    }

    /** redisReaderGetReply */
    method GetReply() returns (ok: bool, out: RedisReply?)
      requires Valid() && (error.None? ==> NextReply(parser, Unread()) != Failed(Undefined))
      modifies Footprint()
      ensures Valid() && (forall o :: o in Footprint() ==> o in old(Footprint()) || fresh(o)) && len <= old(len)
      ensures old(closed) <= closed
      ensures if old(error).Some? then !ok && out == null && error == old(error)
              else Delivered(old(NextReply(parser, Unread())), ok, out)
    {
      hide StackOk, Represents, NextReply, Level, Valid, Reached, Shape, Tasks, Busy, BufferOk;
      out := null;
      ValidBuffer();
      if error.Some? {
        return false, null;
      }
      if len == 0 {
        return true, null;
      }
      ghost var r := NextReply(parser, Unread());
      StartReply();
      ProcessItems();
      hide Delivered;
      ok, out := TakeReply(r);
    }
  }

  /** A leaf object stands for its tree. */
  lemma LeafObject(o: RedisReply, t: Tree, closed: set<Slots>)
    requires match t
             case Line(kind, text) => o.typ == CodeOf(kind) && o.str == text
             case Int(v) => o.typ == REDIS_REPLY_INTEGER && o.integer == v
             case Str(text) => o.typ == REDIS_REPLY_STRING && o.str == text
             case Nil => o.typ == REDIS_REPLY_NIL
             case Multi(count, kids) =>
               && o.typ == REDIS_REPLY_ARRAY && o.elements == count && o.element == null
               && kids == [] && (count == 0 || count > INT_MAX)
    ensures Represents(o, t, closed)
  {}

  /** The objects stand for the trees, one for one. */
  ghost predicate AllRepresent(objs: seq<RedisReply>, trees: seq<Tree>, closed: set<Slots>)
    reads closed
  {
    |objs| == |trees| && forall i :: 0 <= i < |objs| ==> Represents(objs[i], trees[i], closed)
  }

  lemma AllRepresentMono(objs: seq<RedisReply>, trees: seq<Tree>, s: set<Slots>, s': set<Slots>)
    requires s <= s' && AllRepresent(objs, trees, s)
    ensures AllRepresent(objs, trees, s')
  {
    forall i | 0 <= i < |objs|
      ensures Represents(objs[i], trees[i], s')
    {
      RepresentsMono(objs[i], trees[i], s, s');
    }
  }

  lemma AllRepresentSnoc(objs: seq<RedisReply>, trees: seq<Tree>, s: set<Slots>, o: RedisReply, t: Tree)
    requires AllRepresent(objs, trees, s) && Represents(o, t, s)
    ensures AllRepresent(objs + [o], trees + [t], s)
  {}

  lemma AllRepresentConcat(a: seq<RedisReply>, ta: seq<Tree>, b: seq<RedisReply>, tb: seq<Tree>, s: set<Slots>)
    requires AllRepresent(a, ta, s) && AllRepresent(b, tb, s)
    ensures AllRepresent(a + b, ta + tb, s)
  {}

  /** The replies already taken followed by those still to come. */
  ghost function Ahead(trees: seq<Tree>, p: Parser, s: string): Drained
    requires p.Valid()
  {
    var d := Drain(p, s);
    d.(replies := trees + d.replies)
  }

  /** One turn of the draining loop. */
  method TakeNext(r: RedisReader, taken: seq<RedisReply>, ghost takenTrees: seq<Tree>)
    returns (more: bool, replies: seq<RedisReply>, ghost trees: seq<Tree>)
    requires r.Valid() && r.error.None? && AllRepresent(taken, takenTrees, r.closed)
    requires Drain(r.parser, r.Unread()).error != Some(Undefined)
    modifies r.Footprint()
    ensures r.Valid() && (forall o :: o in r.Footprint() ==> o in old(r.Footprint()) || fresh(o)) && r.len <= old(r.len)
    ensures old(r.closed) <= r.closed && AllRepresent(replies, trees, r.closed)
    ensures !more ==> Drained(trees, r.error, r.parser, r.Unread()) == old(Ahead(takenTrees, r.parser, r.Unread()))
    ensures more ==> r.error.None? && |r.Unread()| < |old(r.Unread())|
    ensures more ==> Ahead(trees, r.parser, r.Unread()) == old(Ahead(takenTrees, r.parser, r.Unread()))
    ensures more ==> Drain(r.parser, r.Unread()).error == old(Drain(r.parser, r.Unread())).error
  {
    hide Represents, NextReply, Drain, RedisReader.Valid, RedisReader.Footprint, AllRepresent;
    r.ValidBuffer();
    r.ClosedApart();
    DrainStep(r.parser, r.Unread());
    ghost var before, next := r.closed, NextReply(r.parser, r.Unread());
    var ok, out := r.GetReply();
    r.ValidBuffer();
    AllRepresentMono(taken, takenTrees, before, r.closed);
    if out == null {
      return false, taken, takenTrees;
    }
    AllRepresentSnoc(taken, takenTrees, r.closed, out, next.tree);
    Assoc3(takenTrees, [next.tree], Drain(IDLE, next.rest).replies);
    return true, taken + [out], takenTrees + [next.tree];
  }

  /** Taking replies until there is none, as the context reads from its reader. */
  method DrainReader(r: RedisReader) returns (replies: seq<RedisReply>, ghost trees: seq<Tree>)
    requires r.Valid() && r.error.None? && Drain(r.parser, r.Unread()).error != Some(Undefined)
    modifies r.Footprint()
    ensures r.Valid() && (forall o :: o in r.Footprint() ==> o in old(r.Footprint()) || fresh(o)) && r.len <= old(r.len)
    ensures old(r.closed) <= r.closed
    ensures AllRepresent(replies, trees, r.closed)
    ensures Drained(trees, r.error, r.parser, r.Unread()) == old(Drain(r.parser, r.Unread()))
  {
    replies, trees := [], [];
    while true
      invariant r.Valid() && r.error.None? && (forall o :: o in r.Footprint() ==> o in old(r.Footprint()) || fresh(o)) && r.len <= old(r.len)
      invariant old(r.closed) <= r.closed
      invariant AllRepresent(replies, trees, r.closed)
      invariant Drain(r.parser, r.Unread()).error != Some(Undefined)
      invariant Ahead(trees, r.parser, r.Unread()) == old(Drain(r.parser, r.Unread()))
      decreases |r.Unread()|
    {
      hide Represents, Drain, NextReply, RedisReader.Valid, RedisReader.Footprint, AllRepresent, Ahead;
      r.ValidBuffer();
      var more;
      more, replies, trees := TakeNext(r, replies, trees);
      r.ValidBuffer();
      if !more {
        return;
      }
    }
  }

  /** One chunk fed and drained. */
  method FeedChunk(r: RedisReader, chunk: string, oldReplies: seq<RedisReply>, ghost oldTrees: seq<Tree>)
    returns (replies: seq<RedisReply>, ghost trees: seq<Tree>)
    requires r.Valid() && (r.error.None? ==> r.len + |chunk| <= INT_MAX)
    requires AllRepresent(oldReplies, oldTrees, r.closed)
    requires Resumed(Drained(oldTrees, r.error, r.parser, r.Unread()), chunk).error != Some(Undefined)
    modifies r.Footprint()
    ensures r.Valid() && (forall o :: o in r.Footprint() ==> o in old(r.Footprint()) || fresh(o))
    ensures r.error.None? ==> old(r.error).None? && r.len <= old(r.len) + |chunk|
    ensures AllRepresent(replies, trees, r.closed)
    ensures Drained(trees, r.error, r.parser, r.Unread()) == old(Resumed(Drained(oldTrees, r.error, r.parser, r.Unread()), chunk))
  {
    hide Represents, Drain, RedisReader.Valid, RedisReader.Footprint, AllRepresent;
    replies, trees := oldReplies, oldTrees;
    r.ValidBuffer();
    r.ClosedApart();
    ghost var before := r.closed;
    var ok := r.Feed(chunk);
    r.ValidBuffer();
    if ok {
      r.ClosedApart();
      ghost var more;
      var next;
      next, more := DrainReader(r);
      r.ValidBuffer();
      AllRepresentMono(replies, trees, before, r.closed);
      AllRepresentConcat(replies, trees, next, more, r.closed);
      replies, trees := replies + next, trees + more;
    }
  }

  /** Feeding chunk after chunk and draining after each. */
  method FeedAndDrain(r: RedisReader, chunks: seq<string>) returns (replies: seq<RedisReply>, ghost trees: seq<Tree>)
    requires r.Valid() && r.error.None? && r.len + |Concat(chunks)| <= INT_MAX
    requires DrainChunks(Drained([], None, r.parser, r.Unread()), chunks).error != Some(Undefined)
    modifies r.Footprint()
    ensures r.Valid() && AllRepresent(replies, trees, r.closed)
    ensures Drained(trees, r.error, r.parser, r.Unread()) == old(DrainChunks(Drained([], None, r.parser, r.Unread()), chunks))
  {
    replies, trees := [], [];
    ghost var d0 := Drained([], None, r.parser, r.Unread());
    assert chunks[0..] == chunks;
    for i := 0 to |chunks|
      invariant r.Valid() && (forall o :: o in r.Footprint() ==> o in old(r.Footprint()) || fresh(o))
      invariant r.error.None? ==> r.len + |Concat(chunks[i..])| <= INT_MAX
      invariant AllRepresent(replies, trees, r.closed)
      invariant DrainChunks(Drained(trees, r.error, r.parser, r.Unread()), chunks[i..]) == DrainChunks(d0, chunks)
    {
      hide Represents, Drain, Resumed, RedisReader.Valid, RedisReader.Footprint, AllRepresent;
      r.ValidBuffer();
      assert chunks[i..][0] == chunks[i] && chunks[i..][1..] == chunks[i + 1..];
      ghost var next := Resumed(Drained(trees, r.error, r.parser, r.Unread()), chunks[i]);
      if next.error.Some? {
        ErrorSticks(next, chunks[i + 1..]);
      }
      replies, trees := FeedChunk(r, chunks[i], replies, trees);
      r.ValidBuffer();
    }
  }

  /** The reader as a whole: a fresh reader fed a stream in any pieces delivers exactly
      the replies, and ends in exactly the error, of the recursive decoder, provided that
      no number in the stream makes the code undefined. The replies have all the children
      they announce exactly when none was read from an array line below -1. */
  method ReadStream(chunks: seq<string>) returns (r: RedisReader, replies: seq<RedisReply>, ghost trees: seq<Tree>)
    requires |Concat(chunks)| <= INT_MAX && StreamReadsNo(Unhandled, Concat(chunks))
    ensures r.Valid() && AllRepresent(replies, trees, r.closed)
    ensures (trees, r.error) == Stream(Concat(chunks))
    ensures Drained(trees, r.error, r.parser, r.Unread()) == Drain(IDLE, Concat(chunks))
    ensures (forall t :: t in trees ==> Complete(t)) <==> RepliesReadNo(Short, Concat(chunks))
  {
    CompleteStream(Concat(chunks));
    r := new RedisReader();
    ChunkingIndependence(chunks);
    DefinedStream(Concat(chunks));
    replies, trees := FeedAndDrain(r, chunks);
  }
}
