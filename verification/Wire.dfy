/** Redis replies from their bytes on the wire to the fields of the objects the reader
    delivers, without the types and tables that lie between. */
module Wire {
  import opened Text
  import opened Decimal
  import opened Resp
  import opened RespMachine
  import opened Reader
  import opened Loopback

  /** What a server can send. */
  datatype Item =
    | StatusLine(text: string)
    | ErrorLine(text: string)
    | Number(value: int)
    | BulkText(text: string)
    | NullBulk
    | NullArray
    | List(items: seq<Item>)

  function Bytes(w: Item): string {
    match w
    case StatusLine(text) => "+" + text + "\r\n"
    case ErrorLine(text) => "-" + text + "\r\n"
    case Number(value) => ":" + DecInt(value) + "\r\n"
    case BulkText(text) => "$" + Dec(|text|) + "\r\n" + text + "\r\n"
    case NullBulk => "$-1\r\n"
    case NullArray => "*-1\r\n"
    case List(items) => "*" + Dec(|items|) + "\r\n" + AllBytes(items)
  }

  function AllBytes(ws: seq<Item>): string {
    if ws == [] then "" else Bytes(ws[0]) + AllBytes(ws[1..])
  }

  /** Lines without CRLF, numbers the C types hold, and arrays nested at most `room` deep. */
  ghost predicate Sendable(w: Item, room: nat) {
    match w
    case StatusLine(text) => forall k :: !CrlfAt(text, k)
    case ErrorLine(text) => forall k :: !CrlfAt(text, k)
    case Number(value) => -LLONG_MAX <= value <= LLONG_MAX
    case BulkText(text) => |text| + 2 <= LLONG_MAX
    case NullBulk => true
    case NullArray => room > 0
    case List(items) =>
      room > 0 && |items| <= INT_MAX && forall i :: 0 <= i < |items| ==> Sendable(items[i], room - 1)
  }

  /** The object for an item, with the type codes of read.h written out. */
  ghost predicate IsObject(o: RedisReply, w: Item, closed: set<Slots>)
    reads closed
    decreases w
  {
    match w
    case StatusLine(text) => o.typ == 5 && o.str == text
    case ErrorLine(text) => o.typ == 6 && o.str == text
    case Number(value) => o.typ == 3 && o.integer == value
    case BulkText(text) => o.typ == 1 && o.str == text
    case NullBulk => o.typ == 4
    case NullArray => o.typ == 4
    case List(items) =>
      && o.typ == 2 && o.elements == |items|
      && (items == [] ==> o.element == null)
      && (items != [] ==>
            && o.element != null && o.element in closed && o.element.Length == |items|
            && forall i :: 0 <= i < |items| ==> o.element[i] != null && IsObject(o.element[i], items[i], closed))
  }

  function TreeOf(w: Item): Tree {
    match w
    case StatusLine(text) => Line(Status, text)
    case ErrorLine(text) => Line(Error, text)
    case Number(value) => Int(value)
    case BulkText(text) => Str(text)
    case NullBulk => Nil
    case NullArray => Nil
    case List(items) => Multi(|items|, TreesOf(items))
  }

  function TreesOf(ws: seq<Item>): (ts: seq<Tree>)
    ensures |ts| == |ws| && forall i :: 0 <= i < |ws| ==> ts[i] == TreeOf(ws[i])
  {
    if ws == [] then [] else [TreeOf(ws[0])] + TreesOf(ws[1..])
  }

  lemma {:induction false} ObjectOf(o: RedisReply, w: Item, closed: set<Slots>)
    requires Represents(o, TreeOf(w), closed)
    ensures IsObject(o, w, closed)
    decreases w
  {
    if w.List? && w.items != [] {
      var kids := TreesOf(w.items);
      forall i | 0 <= i < |w.items|
        ensures o.element[i] != null && IsObject(o.element[i], w.items[i], closed)
      {
        assert Represents(o.element[i], kids[i], closed);
        ObjectOf(o.element[i], w.items[i], closed);
      }
    }
  }

  // ------------------------------------------------------------------------
  // The decoder on these bytes.

  lemma {:induction false} Decodes(w: Item, depth: nat, rest: string)
    requires depth <= MAX_DEPTH && Sendable(w, MAX_DEPTH - depth)
    ensures DecodeItem(depth, Bytes(w) + rest) == Done(TreeOf(w), rest)
    decreases w, 1
  {
    hide DecodeItem, Dec, DecInt;
    match w
    case StatusLine(text) => DecodePrintLine(Status, text, depth, rest);
    case ErrorLine(text) => DecodePrintLine(Error, text, depth, rest);
    case Number(value) => DecodePrintInt(value, depth, rest);
    case BulkText(text) => DecodePrintBulk(text, depth, rest);
    case NullBulk =>
      DecodePrintNil(depth, rest);
      assert "$-1" + CRLF == "$-1\r\n";
    case NullArray => DecodesNullArray(depth, rest);
    case List(items) => DecodesList(items, depth, rest);
  }

  lemma DecodesNullArray(depth: nat, rest: string)
    requires depth < MAX_DEPTH
    ensures DecodeItem(depth, "*-1\r\n" + rest) == Done(Nil, rest)
  {
    hide DecodeItem, DecInt;
    NilArrayLine(-1, depth, rest);
    MinusOne();
    assert "*" + ("-1" + (CRLF + rest)) == "*-1\r\n" + rest;
  }

  lemma {:induction false} DecodesList(items: seq<Item>, depth: nat, rest: string)
    requires depth < MAX_DEPTH && Sendable(List(items), MAX_DEPTH - depth)
    ensures DecodeItem(depth, Bytes(List(items)) + rest) == Done(Multi(|items|, TreesOf(items)), rest)
    decreases items, 1
  {
    var n, body := |items|, AllBytes(items) + rest;
    var tail := DecInt(n) + (CRLF + body);
    ListBytes(items, rest);
    NumberLine(n, body);
    hide Dec, DecInt, LongLong, LongFits, FindCrlf, DecodeItem, DecodeTyped, DecodeKids, Bytes, AllBytes, TreesOf;
    if items == [] {
      LeafItem('*', Array, depth, tail, Multi(0, []), rest);
    } else {
      DecodesAll(items, depth + 1, rest);
      OpenItem(depth, tail, n, body, TreesOf(items), rest);
    }
  }

  lemma ListBytes(items: seq<Item>, rest: string)
    ensures Bytes(List(items)) + rest == "*" + (DecInt(|items|) + (CRLF + (AllBytes(items) + rest)))
    ensures items == [] ==> AllBytes(items) + rest == rest && TreesOf(items) == []
  {
    var a, b := DecInt(|items|), AllBytes(items);
    assert Bytes(List(items)) == "*" + a + CRLF + b;
    assert items == [] ==> b == "";
    hide DecInt, Bytes, AllBytes;
    Assoc4("*", a, CRLF, b);
    Assoc3("*", a + (CRLF + b), rest);
    Assoc3(a, CRLF + b, rest);
    Assoc3(CRLF, b, rest);
  }

  lemma {:induction false} DecodesAll(ws: seq<Item>, depth: nat, rest: string)
    requires depth <= MAX_DEPTH && forall i :: 0 <= i < |ws| ==> Sendable(ws[i], MAX_DEPTH - depth)
    ensures DecodeKids(depth, |ws|, AllBytes(ws) + rest) == Done(TreesOf(ws), rest)
    decreases ws, 0
  {
    if ws == [] {
      assert AllBytes(ws) + rest == rest;
    } else {
      hide Dec, DecodeItem, DecodeTyped, DecodeKids, Bytes;
      var tail := AllBytes(ws[1..]) + rest;
      assert AllBytes(ws) + rest == Bytes(ws[0]) + tail;
      Decodes(ws[0], depth, tail);
      DecodesAll(ws[1..], depth, rest);
      KidsStep(depth, |ws|, AllBytes(ws) + rest, TreeOf(ws[0]), tail, TreesOf(ws[1..]), rest);
    }
  }

  // ------------------------------------------------------------------------
  // The reader on these bytes.

  lemma FirstItem(w: Item, rest: string)
    requires Sendable(w, MAX_DEPTH)
    ensures Drain(IDLE, Bytes(w) + rest) == Prepend(TreeOf(w), Drain(IDLE, rest))
  {
    hide Bytes, DecodeItem, NextReply, Drain;
    Decodes(w, 0, rest);
    NextReplyMeaning(IDLE, Bytes(w) + rest);
    DrainStep(IDLE, Bytes(w) + rest);
  }

  lemma {:induction false} DrainsItems(ws: seq<Item>)
    requires forall i :: 0 <= i < |ws| ==> Sendable(ws[i], MAX_DEPTH)
    ensures Drain(IDLE, AllBytes(ws)) == Drained(TreesOf(ws), None, IDLE, "")
  {
    if ws == [] {
      EmptyInput(IDLE);
    } else {
      DrainsItems(ws[1..]);
      hide Bytes, Drain, Sendable, TreeOf;
      FirstItem(ws[0], AllBytes(ws[1..]));
    }
  }

  /** Any items, their bytes cut anywhere, are delivered as their objects, one for one and
      in order, without error and without unread bytes. */
  method ReadItems(ws: seq<Item>, cuts: seq<nat>) returns (r: RedisReader, replies: seq<RedisReply>)
    requires forall i :: 0 <= i < |ws| ==> Sendable(ws[i], MAX_DEPTH)
    requires |AllBytes(ws)| <= INT_MAX
    ensures r.Valid() && r.error == None && r.Unread() == "" && r.parser == IDLE
    ensures |replies| == |ws| && forall i :: 0 <= i < |ws| ==> IsObject(replies[i], ws[i], r.closed)
  {
    hide RedisReader.Valid, AllBytes, Represents, IsObject, TreeOf, Drain, Sendable;
    var bytes := AllBytes(ws);
    CutConcat(bytes, cuts);
    ChunkingIndependence(Cut(bytes, cuts));
    DrainsItems(ws);
    DefinedStream(bytes);
    ghost var trees;
    r, replies, trees := ReadStream(Cut(bytes, cuts));
    forall i | 0 <= i < |ws|
      ensures IsObject(replies[i], ws[i], r.closed)
    {
      assert Represents(replies[i], trees[i], r.closed);
      ObjectOf(replies[i], ws[i], r.closed);
    }
  }
}
