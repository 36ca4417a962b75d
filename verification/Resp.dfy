/** The Redis reply format: reply trees, the per-item header parser of read.c,
    a recursive decoder that serves as the reference, and a printer. */
module Resp {
  import opened Text
  import opened Decimal

  /** The type of a read task once its type byte has been read. */
  datatype Kind = Status | Error | Integer | Bulk | Array

  /** A delivered reply. The count of a Multi is the number of children its reply
      object announces, a size_t; kids are the children that are there. */
  datatype Tree =
    | Line(kind: Kind, text: string)
    | Int(value: int)
    | Str(text: string)
    | Nil
    | Multi(count: nat, kids: seq<Tree>)

  /** The protocol errors of the reader. Undefined is none of them: it marks the point at
      which the C code overflows a long long or stores a child through a null array. */
  datatype ProtocolError = BadType(byte: char) | TooDeep | Undefined

  datatype Decoded<+T> = More | Bad(error: ProtocolError) | Done(value: T, rest: string)

  const MAX_DEPTH := 8

  // ------------------------------------------------------------------------
  // One item header.

  predicate CrlfAt(s: string, k: int) {
    0 <= k < |s| - 1 && s[k] == '\r' && s[k + 1] == '\n'
  }

  /** The first "\r\n" (seekNewline). */
  function FindCrlf(s: string): (r: Option<nat>)
    ensures r.Some? ==> CrlfAt(s, r.value) && forall k :: 0 <= k < r.value ==> !CrlfAt(s, k)
    ensures r.None? ==> forall k :: !CrlfAt(s, k)
  {
    FindCrlfFrom(s, 0)
  }

  function FindCrlfFrom(s: string, from: nat): (r: Option<nat>)
    ensures r.Some? ==> r.value >= from && CrlfAt(s, r.value) && forall k :: from <= k < r.value ==> !CrlfAt(s, k)
    ensures r.None? ==> forall k :: from <= k ==> !CrlfAt(s, k)
    decreases |s| - from
  {
    if from >= |s| then None
    else if CrlfAt(s, from) then Some(from)
    else FindCrlfFrom(s, from + 1)
  }

  lemma CrlfIs(s: string, k: nat)
    requires CrlfAt(s, k) && forall i :: 0 <= i < k ==> !CrlfAt(s, i)
    ensures FindCrlf(s) == Some(k)
  {
    var r := FindCrlf(s);
    assert r.Some? && !(r.value < k) && !(k < r.value);
  }

  lemma CrlfExtend(s: string, t: string)
    requires FindCrlf(s).Some?
    ensures FindCrlf(s + t) == FindCrlf(s)
  {
    var k := FindCrlf(s).value;
    assert forall i :: 0 <= i <= k + 1 ==> (s + t)[i] == s[i];
    assert forall i :: 0 <= i < k ==> (CrlfAt(s + t, i) <==> CrlfAt(s, i));
    CrlfIs(s + t, k);
  }

  function KindOf(c: char): Option<Kind> {
    match c
    case '-' => Some(Error)
    case '+' => Some(Status)
    case ':' => Some(Integer)
    case '$' => Some(Bulk)
    case '*' => Some(Array)
    case _ => None
  }

  /** What one typed item yields: a finished reply, an array still to be filled, or an
      array task with children over an object without slots. */
  datatype Head = Leaf(tree: Tree) | Open(count: nat) | OpenBare

  /** A long passed as an int, on a machine with 32-bit int. */
  function CutInt(v: int): (n: int)
    ensures -0x8000_0000 <= n <= INT_MAX
    ensures -0x8000_0000 <= v <= INT_MAX ==> n == v
    ensures (v - n) % 0x1_0000_0000 == 0
  {
    var m := v % 0x1_0000_0000;
    if m <= INT_MAX then m else m - 0x1_0000_0000
  }

  /** An int stored in a 64-bit size_t. */
  function SizeOf(n: int): (r: nat)
    requires -0x8000_0000 <= n <= INT_MAX
    ensures n >= 0 ==> r == n
    ensures n < 0 ==> r > INT_MAX
  {
    if n < 0 then n + 0x1_0000_0000_0000_0000 else n
  }

  /** The number on the header line. */
  function LineNumber(s: string): int
    requires FindCrlf(s).Some?
  {
    LongLong(s)
  }

  /** What processMultiBulkItem makes of the number on an array line. The count is tested
      as a long but passed to createArray, and kept in the task, as an int. */
  datatype Count = NilArray | Childless(announced: nat) | Children(count: nat) | Slotless

  function CountOf(elements: int): (c: Count)
    ensures c.Children? ==> 0 < c.count <= INT_MAX
  {
    var n := CutInt(elements);
    if elements == -1 then NilArray
    else if elements <= 0 then Childless(SizeOf(n))
    else if n <= 0 then Slotless
    else Children(n)
  }

  /** processLineItem, processBulkItem and processMultiBulkItem on the bytes after
      the type byte, at stack index `depth`. The two bytes after a bulk body are
      skipped without being looked at. */
  function Header(kind: Kind, depth: nat, s: string): (r: Decoded<Head>)
    requires depth <= MAX_DEPTH
    ensures r.Done? ==> |r.rest| + 2 <= |s|
    ensures r.Done? && !r.value.Leaf? ==> kind == Array && depth < MAX_DEPTH
    ensures r.Done? && r.value.Open? ==> r.value.count > 0
    ensures r == Bad(TooDeep) <==> kind == Array && depth == MAX_DEPTH
    ensures r.Bad? ==> r.error == TooDeep || r.error == Undefined
  {
    if kind == Array && depth == MAX_DEPTH then Bad(TooDeep)
    else
      match FindCrlf(s)
      case None => More
      case Some(k) =>
        var after := s[k + 2..];
        match kind
        case Status => Done(Leaf(Line(kind, s[..k])), after)
        case Error => Done(Leaf(Line(kind, s[..k])), after)
        case Integer => if LongFits(s) then Done(Leaf(Int(LineNumber(s))), after) else Bad(Undefined)
        case Bulk => BulkItem(s, after)
        case Array => if LongFits(s) then CountItem(CountOf(LineNumber(s)), after) else Bad(Undefined)
  }

  /** The bulk item with the header line of s; `after` is what follows the line. */
  function BulkItem(s: string, after: string): (r: Decoded<Head>)
    requires FindCrlf(s).Some?
    ensures r.Done? ==> r.value.Leaf? && |r.rest| <= |after|
    ensures r.Bad? ==> r.error == Undefined
  {
    var len := LineNumber(s);
    if !LongFits(s) || len + 2 > LLONG_MAX then Bad(Undefined)
    else if len < 0 then Done(Leaf(Nil), after)
    else if len + 2 <= |after| then Done(Leaf(Str(after[..len])), after[len + 2..])
    else More
  }

  function CountItem(c: Count, after: string): Decoded<Head> {
    match c
    case NilArray => Done(Leaf(Nil), after)
    case Childless(announced) => Done(Leaf(Multi(announced, [])), after)
    case Children(count) => Done(Open(count), after)
    case Slotless => Done(OpenBare, after)
  }

  lemma HeaderNeedsLine(kind: Kind, depth: nat, s: string)
    requires depth <= MAX_DEPTH && FindCrlf(s).None? && !(kind == Array && depth == MAX_DEPTH)
    ensures Header(kind, depth, s) == More
  {}

  lemma HeaderTooDeep(s: string)
    ensures Header(Array, MAX_DEPTH, s) == Bad(TooDeep)
  {}

  /** A bulk header with its number: nil, complete, or waiting for the body. */
  lemma HeaderBulk(depth: nat, s: string, k: nat, len: int)
    requires depth <= MAX_DEPTH && FindCrlf(s) == Some(k) && LineNumber(s) == len
    requires LongFits(s) && len + 2 <= LLONG_MAX
    ensures k + 2 <= |s|
    ensures Header(Bulk, depth, s) ==
            if len < 0 then Done(Leaf(Nil), s[k + 2..])
            else if k + 2 + len + 2 <= |s| then Done(Leaf(Str(s[k + 2..k + 2 + len])), s[k + 2 + len + 2..])
            else More
  {
    if 0 <= len && k + 2 + len + 2 <= |s| {
      assert s[k + 2..][..len] == s[k + 2..k + 2 + len];
      assert s[k + 2..][len + 2..] == s[k + 2 + len + 2..];
    }
  }

  /** A bulk line on which the code is defined. */
  lemma BulkDefined(depth: nat, s: string)
    requires depth <= MAX_DEPTH && FindCrlf(s).Some? && Header(Bulk, depth, s) != Bad(Undefined)
    ensures LongFits(s) && LineNumber(s) + 2 <= LLONG_MAX
  {}

  /** More input never changes an item that could already be read. */
  lemma HeaderExtend(kind: Kind, depth: nat, s: string, t: string)
    requires depth <= MAX_DEPTH
    ensures Header(kind, depth, s).Bad? ==> Header(kind, depth, s + t) == Header(kind, depth, s)
    ensures Header(kind, depth, s).Done? ==>
              Header(kind, depth, s + t) == Done(Header(kind, depth, s).value, Header(kind, depth, s).rest + t)
  {
    hide FindCrlf, LongLong, LongFits, CountOf;
    if FindCrlf(s).Some? {
      CrlfExtend(s, t);
      var k := FindCrlf(s).value;
      LongLongExtend(s, t);
      LongFitsExtend(s, t);
      assert (s + t)[k + 2..] == s[k + 2..] + t;
      assert (s + t)[..k] == s[..k];
      var after, len := s[k + 2..], LineNumber(s);
      if kind == Bulk && 0 <= len && len + 2 <= |after| {
        assert (after + t)[..len] == after[..len];
        assert (after + t)[len + 2..] == after[len + 2..] + t;
      }
    }
  }

  // ------------------------------------------------------------------------
  // The reference: a recursive decoder.

  function DecodeItem(depth: nat, s: string): (r: Decoded<Tree>)
    requires depth <= MAX_DEPTH
    ensures r.Done? ==> |r.rest| + 3 <= |s|
    decreases |s|, 0
  {
    if s == "" then More
    else
      match KindOf(s[0])
      case None => Bad(BadType(s[0]))
      case Some(kind) => DecodeTyped(kind, depth, s[1..])
  }

  function DecodeTyped(kind: Kind, depth: nat, s: string): (r: Decoded<Tree>)
    requires depth <= MAX_DEPTH
    ensures r.Done? ==> |r.rest| + 2 <= |s|
    decreases |s|, 1
  {
    match Header(kind, depth, s)
    case More => More
    case Bad(e) => Bad(e)
    case Done(Leaf(tree), rest) => Done(tree, rest)
    case Done(OpenBare, rest) => Stillborn(depth + 1, rest)
    case Done(Open(count), rest) =>
      match DecodeKids(depth + 1, count, rest)
      case More => More
      case Bad(e) => Bad(e)
      case Done(kids, after) => Done(Multi(count, kids), after)
  }

  /** The first child of an array without slots. Creating its object is undefined; short
      of that the reader works as ever. */
  function Stillborn(depth: nat, s: string): (r: Decoded<Tree>)
    requires depth <= MAX_DEPTH
    ensures !r.Done?
  {
    if s == "" then More
    else
      match KindOf(s[0])
      case None => Bad(BadType(s[0]))
      case Some(kind) => StillbornTyped(kind, depth, s[1..])
  }

  function StillbornTyped(kind: Kind, depth: nat, s: string): (r: Decoded<Tree>)
    requires depth <= MAX_DEPTH
    ensures !r.Done?
  {
    match Header(kind, depth, s)
    case More => More
    case Bad(e) => Bad(e)
    case Done(_, _) => Bad(Undefined)
  }

  function DecodeKids(depth: nat, n: nat, s: string): (r: Decoded<seq<Tree>>)
    requires depth <= MAX_DEPTH
    ensures r.Done? ==> |r.rest| <= |s| && |r.value| == n
    decreases |s|, 2, n
  {
    if n == 0 then Done([], s)
    else
      match DecodeItem(depth, s)
      case More => More
      case Bad(e) => Bad(e)
      case Done(kid, rest) =>
        match DecodeKids(depth, n - 1, rest)
        case More => More
        case Bad(e) => Bad(e)
        case Done(kids, after) => Done([kid] + kids, after)
  }

  /** All replies of a byte stream, and the protocol error that ends it, if any. */
  function Stream(s: string): (seq<Tree>, Option<ProtocolError>)
    decreases |s|
  {
    match DecodeItem(0, s)
    case More => ([], None)
    case Bad(e) => ([], Some(e))
    case Done(tree, rest) =>
      var (trees, error) := Stream(rest);
      ([tree] + trees, error)
  }

  // ------------------------------------------------------------------------
  // Conditions on the header lines that are read. A condition sees the type, the bytes
  // from the line on, and whether the item is the child of an array without slots.

  /** None of the header lines read for the item is bad. */
  predicate ReadsNo(bad: (Kind, string, bool) -> bool, depth: nat, s: string)
    requires depth <= MAX_DEPTH
    decreases |s|, 0
  {
    s != "" && KindOf(s[0]).Some? ==> ReadsNoTyped(bad, KindOf(s[0]).value, depth, s[1..])
  }

  predicate ReadsNoTyped(bad: (Kind, string, bool) -> bool, kind: Kind, depth: nat, s: string)
    requires depth <= MAX_DEPTH
    decreases |s|, 1
  {
    if kind == Array && depth == MAX_DEPTH then true
    else
      && !bad(kind, s, false)
      && match Header(kind, depth, s)
         case Done(Open(count), rest) => ReadsNoKids(bad, depth + 1, count, rest)
         case Done(OpenBare, rest) => StillbornReadsNo(bad, depth + 1, rest)
         case _ => true
  }

  predicate StillbornReadsNo(bad: (Kind, string, bool) -> bool, depth: nat, s: string) {
    s != "" && KindOf(s[0]).Some? ==>
      (KindOf(s[0]) == Some(Array) && depth == MAX_DEPTH) || !bad(KindOf(s[0]).value, s[1..], true)
  }

  predicate ReadsNoKids(bad: (Kind, string, bool) -> bool, depth: nat, n: nat, s: string)
    requires depth <= MAX_DEPTH
    decreases |s|, 2, n
  {
    n > 0 ==>
      && ReadsNo(bad, depth, s)
      && (DecodeItem(depth, s).Done? ==> ReadsNoKids(bad, depth, n - 1, DecodeItem(depth, s).rest))
  }

  /** None of the header lines read from the stream is bad. */
  predicate StreamReadsNo(bad: (Kind, string, bool) -> bool, s: string)
    decreases |s|
  {
    && ReadsNo(bad, 0, s)
    && match DecodeItem(0, s)
       case Done(_, rest) => StreamReadsNo(bad, rest)
       case _ => true
  }

  // ------------------------------------------------------------------------
  // Which replies are complete.

  /** Every announced child is there. */
  predicate Complete(t: Tree) {
    t.Multi? ==> |t.kids| == t.count && forall i :: 0 <= i < |t.kids| ==> Complete(t.kids[i])
  }

  /** An array line with a number below -1 that is not cut to 0: the reply object then
      announces children although the reader never reads one. */
  predicate Short(kind: Kind, s: string, bare: bool) {
    kind == Array && FindCrlf(s).Some? && LineNumber(s) < -1 && CutInt(LineNumber(s)) != 0
  }

  lemma LeafComplete(kind: Kind, depth: nat, s: string)
    requires depth <= MAX_DEPTH && Header(kind, depth, s).Done? && Header(kind, depth, s).value.Leaf?
    ensures Complete(Header(kind, depth, s).value.tree) <==> !Short(kind, s, false)
  {
    hide FindCrlf, LongLong, LongFits;
  }

  lemma OpenNotShort(kind: Kind, depth: nat, s: string)
    requires depth <= MAX_DEPTH && Header(kind, depth, s).Done? && Header(kind, depth, s).value.Open?
    ensures !Short(kind, s, false)
  {
    hide FindCrlf, LongLong, LongFits;
  }

  lemma CompleteMulti(count: nat, kids: seq<Tree>)
    ensures Complete(Multi(count, kids)) <==> |kids| == count && forall kid :: kid in kids ==> Complete(kid)
  {
    assert forall i :: 0 <= i < |kids| ==> kids[i] in kids;
  }

  /** A reply has all its children if and only if no short array line was read for it. */
  lemma {:induction false} CompleteItem(depth: nat, s: string)
    requires depth <= MAX_DEPTH && DecodeItem(depth, s).Done?
    ensures Complete(DecodeItem(depth, s).value) <==> ReadsNo(Short, depth, s)
    decreases |s|, 0
  {
    hide Header, Short, Complete;
    CompleteTyped(KindOf(s[0]).value, depth, s[1..]);
  }

  lemma {:induction false} CompleteTyped(kind: Kind, depth: nat, s: string)
    requires depth <= MAX_DEPTH && DecodeTyped(kind, depth, s).Done?
    ensures Complete(DecodeTyped(kind, depth, s).value) <==> ReadsNoTyped(Short, kind, depth, s)
    decreases |s|, 1
  {
    var h := Header(kind, depth, s);
    if h.value.Leaf? {
      LeafComplete(kind, depth, s);
    } else {
      OpenNotShort(kind, depth, s);
      hide Header, Short, DecodeKids, ReadsNoKids, Complete;
      var kids := DecodeKids(depth + 1, h.value.count, h.rest).value;
      CompleteKids(depth + 1, h.value.count, h.rest);
      CompleteMulti(h.value.count, kids);
    }
  }

  lemma {:induction false} CompleteKids(depth: nat, n: nat, s: string)
    requires depth <= MAX_DEPTH && DecodeKids(depth, n, s).Done?
    ensures (forall kid :: kid in DecodeKids(depth, n, s).value ==> Complete(kid)) <==> ReadsNoKids(Short, depth, n, s)
    decreases |s|, 2, n
  {
    hide DecodeItem, ReadsNo, Complete;
    if n > 0 {
      var first := DecodeItem(depth, s);
      CompleteItem(depth, s);
      CompleteKids(depth, n - 1, first.rest);
    }
  }

  /** None of the header lines read for a delivered reply is bad. */
  predicate RepliesReadNo(bad: (Kind, string, bool) -> bool, s: string)
    decreases |s|
  {
    match DecodeItem(0, s)
    case Done(_, rest) => ReadsNo(bad, 0, s) && RepliesReadNo(bad, rest)
    case _ => true
  }

  /** All replies of a stream are complete exactly when no array line below -1 was read
      for them, multiples of 2^32 aside. */
  lemma {:induction false} CompleteStream(s: string)
    ensures (forall t :: t in Stream(s).0 ==> Complete(t)) <==> RepliesReadNo(Short, s)
    decreases |s|
  {
    hide DecodeItem, ReadsNo, Complete;
    var d := DecodeItem(0, s);
    if d.Done? {
      CompleteItem(0, s);
      CompleteStream(d.rest);
    }
  }

  // ------------------------------------------------------------------------
  // On which streams the code is defined.

  /** An item on which the code is undefined: its number overflows readLongLong or the sum
      with a bulk trailer, or its object is created in an array without slots. */
  predicate Unhandled(kind: Kind, s: string, bare: bool) {
    FindCrlf(s).Some? &&
    match kind
    case Status => bare
    case Error => bare
    case Integer => !LongFits(s) || bare
    case Bulk => !LongFits(s) || LineNumber(s) + 2 > LLONG_MAX || (bare && BulkHere(s))
    case Array => !LongFits(s) || bare
  }

  /** A bulk line that says nil, or whose body has arrived. */
  predicate BulkHere(s: string)
    requires FindCrlf(s).Some?
  {
    LineNumber(s) < 0 || FindCrlf(s).value + 2 + LineNumber(s) + 2 <= |s|
  }

  lemma HeaderDefined(kind: Kind, depth: nat, s: string)
    requires depth <= MAX_DEPTH && !(kind == Array && depth == MAX_DEPTH)
    ensures Header(kind, depth, s) == Bad(Undefined) <==> Unhandled(kind, s, false)
    ensures StillbornTyped(kind, depth, s) == Bad(Undefined) <==> Unhandled(kind, s, true)
  {
    hide FindCrlf, LongLong, LongFits, CutInt, SizeOf;
  }

  lemma StillbornDefined(depth: nat, s: string)
    requires depth <= MAX_DEPTH
    ensures Stillborn(depth, s) != Bad(Undefined) <==> StillbornReadsNo(Unhandled, depth, s)
  {
    hide Header, Unhandled;
    if s != "" && KindOf(s[0]).Some? && !(KindOf(s[0]) == Some(Array) && depth == MAX_DEPTH) {
      HeaderDefined(KindOf(s[0]).value, depth, s[1..]);
    }
  }

  lemma {:induction false} DefinedItem(depth: nat, s: string)
    requires depth <= MAX_DEPTH
    ensures DecodeItem(depth, s) != Bad(Undefined) <==> ReadsNo(Unhandled, depth, s)
    decreases |s|, 0
  {
    hide Header, Unhandled;
    if s != "" && KindOf(s[0]).Some? {
      DefinedTyped(KindOf(s[0]).value, depth, s[1..]);
    }
  }

  lemma {:induction false} DefinedTyped(kind: Kind, depth: nat, s: string)
    requires depth <= MAX_DEPTH
    ensures DecodeTyped(kind, depth, s) != Bad(Undefined) <==> ReadsNoTyped(Unhandled, kind, depth, s)
    decreases |s|, 1
  {
    hide Unhandled, DecodeKids, ReadsNoKids;
    if !(kind == Array && depth == MAX_DEPTH) {
      HeaderDefined(kind, depth, s);
      hide Header;
      var h := Header(kind, depth, s);
      if h.Done? && h.value.Open? {
        DefinedKids(depth + 1, h.value.count, h.rest);
      } else if h.Done? && h.value.OpenBare? {
        hide Stillborn, StillbornReadsNo;
        StillbornDefined(depth + 1, h.rest);
      }
    }
  }

  lemma {:induction false} DefinedKids(depth: nat, n: nat, s: string)
    requires depth <= MAX_DEPTH
    ensures DecodeKids(depth, n, s) != Bad(Undefined) <==> ReadsNoKids(Unhandled, depth, n, s)
    decreases |s|, 2, n
  {
    hide DecodeItem, ReadsNo;
    if n > 0 {
      var first := DecodeItem(depth, s);
      DefinedItem(depth, s);
      if first.Done? {
        DefinedKids(depth, n - 1, first.rest);
      }
    }
  }

  /** The decoder meets nothing undefined exactly when no such item is read. */
  lemma {:induction false} DefinedStream(s: string)
    ensures Stream(s).1 != Some(Undefined) <==> StreamReadsNo(Unhandled, s)
    decreases |s|
  {
    hide DecodeItem, ReadsNo;
    var d := DecodeItem(0, s);
    DefinedItem(0, s);
    if d.Done? {
      DefinedStream(d.rest);
    }
  }

  // ------------------------------------------------------------------------
  // A printer for the format, and the decoder as its inverse.

  function Print(t: Tree): string {
    match t
    case Line(kind, text) => (if kind == Error then "-" else "+") + text + CRLF
    case Int(v) => ":" + DecInt(v) + CRLF
    case Str(text) => PrintBulk(text)
    case Nil => "$-1" + CRLF
    case Multi(count, kids) => "*" + DecInt(count) + CRLF + PrintAll(kids)
  }

  function PrintBulk(text: string): string {
    "$" + Dec(|text|) + CRLF + text + CRLF
  }

  function PrintAll(ts: seq<Tree>): string {
    if ts == [] then "" else Print(ts[0]) + PrintAll(ts[1..])
  }

  /** Trees the format can carry with arrays nested at most `room` deep. */
  ghost predicate Printable(t: Tree, room: nat) {
    match t
    case Line(kind, text) => (kind == Status || kind == Error) && forall k :: !CrlfAt(text, k)
    case Int(v) => -LLONG_MAX <= v <= LLONG_MAX
    case Str(text) => |text| + 2 <= LLONG_MAX
    case Nil => true
    case Multi(count, kids) =>
      count == |kids| <= INT_MAX && room > 0 && forall i :: 0 <= i < |kids| ==> Printable(kids[i], room - 1)
  }

  lemma TextLine(text: string, rest: string)
    requires forall k :: !CrlfAt(text, k)
    ensures var s := text + (CRLF + rest);
            FindCrlf(s) == Some(|text|) && s[..|text|] == text && s[|text| + 2..] == rest
  {
    var s := text + (CRLF + rest);
    forall k | 0 <= k < |text|
      ensures !CrlfAt(s, k)
    {
      assert s[k] == text[k] && !CrlfAt(text, k);
      assert k + 1 < |text| ==> s[k + 1] == text[k + 1];
    }
    assert s[|text|] == '\r' && s[|text| + 1] == '\n';
    CrlfIs(s, |text|);
  }

  lemma NoCrlfInNumber(v: int)
    ensures forall k :: !CrlfAt(DecInt(v), k)
  {}

  /** A line that is a number is read as one line with that number. */
  lemma NumberLine(v: int, rest: string)
    ensures var s := DecInt(v) + (CRLF + rest);
            && FindCrlf(s) == Some(|DecInt(v)|) && LineNumber(s) == v && s[|DecInt(v)| + 2..] == rest
            && (LongFits(s) <==> -LLONG_MAX <= v <= LLONG_MAX)
  {
    hide Dec, LongLong, LongFits, FindCrlf;
    NoCrlfInNumber(v);
    TextLine(DecInt(v), rest);
    ReadBack(v, "\n" + rest);
    ReadBackFits(v, "\n" + rest);
    assert "\r" + ("\n" + rest) == CRLF + rest;
  }

  lemma BodyCut(text: string, rest: string)
    ensures (text + (CRLF + rest))[..|text|] == text
    ensures (text + (CRLF + rest))[|text| + 2..] == rest
  {}

  lemma BulkHeader(text: string, depth: nat, rest: string)
    requires depth <= MAX_DEPTH && |text| + 2 <= LLONG_MAX
    ensures Header(Bulk, depth, Dec(|text|) + (CRLF + (text + (CRLF + rest)))) == Done(Leaf(Str(text)), rest)
  {
    hide Dec, LongLong, LongFits, FindCrlf, LineNumber, Header;
    var body := text + (CRLF + rest);
    var s := Dec(|text|) + (CRLF + body);
    assert DecInt(|text|) == Dec(|text|);
    NumberLine(|text|, body);
    BodyCut(text, rest);
    HeaderOfBulk(depth, s, body, |text|);
  }

  lemma HeaderOfBulk(depth: nat, s: string, after: string, len: nat)
    requires depth <= MAX_DEPTH && FindCrlf(s).Some? && LineNumber(s) == len && LongFits(s) && len + 2 <= LLONG_MAX
    requires after == s[FindCrlf(s).value + 2..] && len + 2 <= |after|
    ensures Header(Bulk, depth, s) == Done(Leaf(Str(after[..len])), after[len + 2..])
  {}

  lemma LeafItem(c: char, kind: Kind, depth: nat, tail: string, t: Tree, rest: string)
    requires depth <= MAX_DEPTH && KindOf(c) == Some(kind) && Header(kind, depth, tail) == Done(Leaf(t), rest)
    ensures DecodeItem(depth, [c] + tail) == Done(t, rest)
  {
    assert ([c] + tail)[1..] == tail;
  }

  lemma OpenItem(depth: nat, tail: string, count: nat, rest: string, kids: seq<Tree>, after: string)
    requires depth < MAX_DEPTH && Header(Array, depth, tail) == Done(Open(count), rest)
    requires DecodeKids(depth + 1, count, rest) == Done(kids, after)
    ensures DecodeItem(depth, "*" + tail) == Done(Multi(count, kids), after)
  {
    assert ("*" + tail)[1..] == tail;
  }

  lemma KidsStep(depth: nat, n: nat, s: string, kid: Tree, rest: string, kids: seq<Tree>, after: string)
    requires depth <= MAX_DEPTH && n > 0
    requires DecodeItem(depth, s) == Done(kid, rest) && DecodeKids(depth, n - 1, rest) == Done(kids, after)
    ensures DecodeKids(depth, n, s) == Done([kid] + kids, after)
  {}

  lemma DecodePrintLine(kind: Kind, text: string, depth: nat, rest: string)
    requires depth <= MAX_DEPTH && Printable(Line(kind, text), MAX_DEPTH - depth)
    ensures DecodeItem(depth, Print(Line(kind, text)) + rest) == Done(Line(kind, text), rest)
  {
    hide FindCrlf, DecodeItem;
    var c := if kind == Error then '-' else '+';
    TextLine(text, rest);
    LeafItem(c, kind, depth, text + (CRLF + rest), Line(kind, text), rest);
    Assoc4([c], text, CRLF, rest);
  }

  lemma DecodePrintInt(v: int, depth: nat, rest: string)
    requires depth <= MAX_DEPTH && -LLONG_MAX <= v <= LLONG_MAX
    ensures DecodeItem(depth, ":" + DecInt(v) + CRLF + rest) == Done(Int(v), rest)
  {
    hide FindCrlf, DecodeItem, LongLong, LongFits, DecInt;
    NumberLine(v, rest);
    LeafItem(':', Integer, depth, DecInt(v) + (CRLF + rest), Int(v), rest);
    Assoc4(":", DecInt(v), CRLF, rest);
  }

  lemma DecodePrintBulk(text: string, depth: nat, rest: string)
    requires depth <= MAX_DEPTH && |text| + 2 <= LLONG_MAX
    ensures DecodeItem(depth, PrintBulk(text) + rest) == Done(Str(text), rest)
  {
    hide DecodeItem, Dec, Header;
    BulkHeader(text, depth, rest);
    LeafItem('$', Bulk, depth, Dec(|text|) + (CRLF + (text + (CRLF + rest))), Str(text), rest);
    Assoc6("$", Dec(|text|), CRLF, text, CRLF, rest);
  }

  lemma DecodePrintNil(depth: nat, rest: string)
    requires depth <= MAX_DEPTH
    ensures DecodeItem(depth, "$-1" + CRLF + rest) == Done(Nil, rest)
  {
    hide FindCrlf, DecodeItem, LongLong, LongFits, DecInt;
    NumberLine(-1, rest);
    MinusOne();
    LeafItem('$', Bulk, depth, DecInt(-1) + (CRLF + rest), Nil, rest);
    assert "$-1" + CRLF + rest == "$" + ("-1" + (CRLF + rest));
  }

  /** Decoding inverts printing, whatever follows, down to the deepest array the stack can hold. */
  lemma {:induction false} DecodePrint(t: Tree, depth: nat, rest: string)
    requires depth <= MAX_DEPTH && Printable(t, MAX_DEPTH - depth)
    ensures DecodeItem(depth, Print(t) + rest) == Done(t, rest)
    decreases t
  {
    hide DecodeItem;
    match t
    case Line(kind, text) => DecodePrintLine(kind, text, depth, rest);
    case Int(v) => DecodePrintInt(v, depth, rest);
    case Str(text) => DecodePrintBulk(text, depth, rest);
    case Nil => DecodePrintNil(depth, rest);
    case Multi(count, kids) => DecodePrintMulti(kids, depth, rest);
  }

  lemma MinusOne()
    ensures DecInt(-1) == "-1"
  {}

  lemma PrintMulti(kids: seq<Tree>, rest: string)
    ensures Print(Multi(|kids|, kids)) + rest == "*" + (DecInt(|kids|) + (CRLF + (PrintAll(kids) + rest)))
    ensures kids == [] ==> PrintAll(kids) + rest == rest
  {
    var a, b := DecInt(|kids|), PrintAll(kids);
    assert Print(Multi(|kids|, kids)) == "*" + a + CRLF + b;
    assert kids == [] ==> b == "";
    hide DecInt, Print, PrintAll;
    Assoc4("*", a, CRLF, b);
    Assoc3("*", a + (CRLF + b), rest);
    Assoc3(a, CRLF + b, rest);
    Assoc3(CRLF, b, rest);
  }

  lemma {:induction false} DecodePrintMulti(kids: seq<Tree>, depth: nat, rest: string)
    requires depth < MAX_DEPTH && |kids| <= INT_MAX
    requires forall i :: 0 <= i < |kids| ==> Printable(kids[i], MAX_DEPTH - depth - 1)
    ensures DecodeItem(depth, Print(Multi(|kids|, kids)) + rest) == Done(Multi(|kids|, kids), rest)
    decreases kids, 1
  {
    hide Dec, DecInt, LongLong, LongFits, FindCrlf, DecodeItem, DecodeTyped, DecodeKids, Print, PrintAll;
    var count, t := |kids|, Multi(|kids|, kids);
    var body := PrintAll(kids) + rest;
    var tail := DecInt(count) + (CRLF + body);
    NumberLine(count, body);
    PrintMulti(kids, rest);
    if kids == [] {
      assert body == rest;
      LeafItem('*', Array, depth, tail, t, rest);
    } else {
      DecodePrintAll(kids, depth + 1, rest);
      OpenItem(depth, tail, count, body, kids, rest);
    }
  }

  lemma {:induction false} DecodePrintAll(ts: seq<Tree>, depth: nat, rest: string)
    requires depth <= MAX_DEPTH && forall i :: 0 <= i < |ts| ==> Printable(ts[i], MAX_DEPTH - depth)
    ensures DecodeKids(depth, |ts|, PrintAll(ts) + rest) == Done(ts, rest)
    decreases ts, 0
  {
    if ts == [] {
      assert PrintAll(ts) + rest == rest;
    } else {
      hide Dec, DecodeItem, DecodeTyped, DecodeKids, Print;
      var tail := PrintAll(ts[1..]) + rest;
      assert PrintAll(ts) + rest == Print(ts[0]) + tail;
      DecodePrint(ts[0], depth, tail);
      DecodePrintAll(ts[1..], depth, rest);
      KidsStep(depth, |ts|, PrintAll(ts) + rest, ts[0], tail, ts[1..], rest);
      assert ts == [ts[0]] + ts[1..];
    }
  }

  // ------------------------------------------------------------------------
  // Counts the reader does not take at their word.

  /** An array line opens as many children as it says exactly for counts from 1 to the
      largest int. Beyond, a count that is cut to a positive int opens that many; one that
      is not opens a task over an object without slots; overflow is undefined. */
  lemma CountTaken(v: int, depth: nat, rest: string)
    requires depth < MAX_DEPTH
    ensures var h := Header(Array, depth, DecInt(v) + (CRLF + rest));
            && ((v >= 0 && h == Done(Open(v), rest)) <==> 0 < v <= INT_MAX)
            && (h == Done(OpenBare, rest) <==> 0 < v <= LLONG_MAX && CutInt(v) <= 0)
            && (h == Bad(Undefined) <==> !(-LLONG_MAX <= v <= LLONG_MAX))
  {
    NumberLine(v, rest);
    hide FindCrlf, LongLong, LongFits, DecInt;
  }

  /** "*4294967296" opens an array without slots. That alone is defined, as is a wrong type
      byte after it; its first child is not. */
  lemma CountCutToZero()
    ensures var s := "*" + (DecInt(4294967296) + CRLF);
            && DecodeItem(0, s) == More
            && DecodeItem(0, s + "?") == Bad(BadType('?'))
            && DecodeItem(0, s + Print(Int(1))) == Bad(Undefined)
  {
    hide DecInt, Header, Stillborn, Print;
    var s := "*" + (DecInt(4294967296) + CRLF);
    assert s + "" == s;
    CountCutToZeroThen("");
    CountCutToZeroThen("?");
    CountCutToZeroThen(Print(Int(1)));
    StillbornCases();
  }

  lemma CountCutToZeroThen(rest: string)
    ensures DecodeItem(0, "*" + (DecInt(4294967296) + CRLF) + rest) == Stillborn(1, rest)
  {
    hide Header, DecInt, Stillborn;
    CountTaken(4294967296, 0, rest);
    assert CutInt(4294967296) == 0;
    var tail := DecInt(4294967296) + (CRLF + rest);
    var s := "*" + (DecInt(4294967296) + CRLF) + rest;
    assert s[1..] == tail && s[0] == '*';
  }

  lemma StillbornCases()
    ensures Stillborn(1, "") == More && Stillborn(1, "?") == Bad(BadType('?'))
    ensures Stillborn(1, Print(Int(1))) == Bad(Undefined)
  {
    hide FindCrlf, LongLong, LongFits, DecInt;
    NumberLine(1, "");
    var line := DecInt(1) + (CRLF + "");
    assert Print(Int(1))[0] == ':' && Print(Int(1))[1..] == line;
  }

  /** "*4294967297" announces and delivers a single child. */
  lemma CountCutToOne()
    ensures DecodeItem(0, "*" + (DecInt(4294967297) + (CRLF + Print(Int(1))))) == Done(Multi(1, [Int(1)]), "")
  {
    hide DecInt, Header, DecodeItem, DecodeKids;
    var body := Print(Int(1));
    var tail := DecInt(4294967297) + (CRLF + body);
    NumberLine(4294967297, body);
    assert CutInt(4294967297) == 1;
    CountHeader(tail, 4294967297, body);
    DecodePrintAll([Int(1)], 1, "");
    assert PrintAll([Int(1)]) + "" == body;
    OpenItem(0, tail, 1, body, [Int(1)], "");
  }

  lemma CountHeader(s: string, v: int, rest: string)
    requires FindCrlf(s).Some? && LineNumber(s) == v && LongFits(s) && s[FindCrlf(s).value + 2..] == rest
    ensures Header(Array, 0, s) == CountItem(CountOf(v), rest)
  {}

  /** "*-2" delivers an array that announces 2^64 - 2 children and has none. */
  lemma NegativeCount()
    ensures DecodeItem(0, "*" + (DecInt(-2) + CRLF)) == Done(Multi(0xffff_ffff_ffff_fffe, []), "")
    ensures !Complete(Multi(0xffff_ffff_ffff_fffe, []))
  {
    hide DecInt, Header, DecodeItem;
    var tail := DecInt(-2) + (CRLF + "");
    assert CRLF + "" == CRLF;
    NumberLine(-2, "");
    CountHeader(tail, -2, "");
    LeafItem('*', Array, 0, tail, Multi(0xffff_ffff_ffff_fffe, []), "");
  }

  // ------------------------------------------------------------------------
  // The replies and refusals that no tree prints to, from the bytes on the wire.

  predicate KnownType(c: char) {
    c == '+' || c == '-' || c == ':' || c == '$' || c == '*'
  }

  /** A first byte other than the five is refused and named in the error. */
  lemma UnknownType(c: char, depth: nat, rest: string)
    requires depth <= MAX_DEPTH && !KnownType(c)
    ensures DecodeItem(depth, [c] + rest) == Bad(BadType(c))
  {
    assert ([c] + rest)[0] == c;
  }

  /** The byte an error names is never one of the five, however deep it was met. */
  lemma {:induction false} NamedTypeUnknown(depth: nat, s: string)
    requires depth <= MAX_DEPTH && DecodeItem(depth, s).Bad? && DecodeItem(depth, s).error.BadType?
    ensures !KnownType(DecodeItem(depth, s).error.byte)
    decreases |s|, 0
  {
    if KindOf(s[0]).Some? {
      var kind, tail := KindOf(s[0]).value, s[1..];
      var h := Header(kind, depth, tail);
      hide Header, DecodeKids, Stillborn;
      if h.Done? && h.value.Open? {
        NamedKidUnknown(depth + 1, h.value.count, h.rest);
      } else if h.Done? && h.value.OpenBare? {
        NamedStillbornUnknown(depth + 1, h.rest);
      }
    }
  }

  lemma NamedStillbornUnknown(depth: nat, s: string)
    requires depth <= MAX_DEPTH && Stillborn(depth, s).Bad? && Stillborn(depth, s).error.BadType?
    ensures !KnownType(Stillborn(depth, s).error.byte)
  {
    hide Header;
  }

  lemma {:induction false} NamedKidUnknown(depth: nat, n: nat, s: string)
    requires depth <= MAX_DEPTH && DecodeKids(depth, n, s).Bad? && DecodeKids(depth, n, s).error.BadType?
    ensures !KnownType(DecodeKids(depth, n, s).error.byte)
    decreases |s|, 2, n
  {
    hide DecodeItem;
    var first := DecodeItem(depth, s);
    if first.Bad? {
      NamedTypeUnknown(depth, s);
    } else {
      NamedKidUnknown(depth, n - 1, first.rest);
    }
  }

  lemma ItemOfTyped(depth: nat, s: string)
    requires depth <= MAX_DEPTH && s != "" && KindOf(s[0]).Some?
    ensures DecodeItem(depth, s) == DecodeTyped(KindOf(s[0]).value, depth, s[1..])
  {}

  /** An array line decodes to nil if and only if its number is -1. */
  lemma NilArrayLine(v: int, depth: nat, rest: string)
    requires depth < MAX_DEPTH
    ensures DecodeItem(depth, "*" + (DecInt(v) + (CRLF + rest))) == Done(Nil, rest) <==> v == -1
  {
    NumberLine(v, rest);
    var tail := DecInt(v) + (CRLF + rest);
    var s := "*" + tail;
    assert s[0] == '*' && s[1..] == tail;
    ArrayLine(tail, v, depth, rest);
    hide FindCrlf, LongLong, LongFits, DecInt, Header, DecodeKids, Stillborn, CutInt, SizeOf;
    ItemOfTyped(depth, s);
  }

  lemma ArrayLine(s: string, v: int, depth: nat, rest: string)
    requires depth < MAX_DEPTH && FindCrlf(s).Some? && LineNumber(s) == v && s[FindCrlf(s).value + 2..] == rest
    ensures Header(Array, depth, s) == if LongFits(s) then CountItem(CountOf(v), rest) else Bad(Undefined)
  {}

  /** Every negative bulk length is nil. */
  lemma NegativeBulk(v: int, depth: nat, rest: string)
    requires depth <= MAX_DEPTH && -LLONG_MAX <= v < 0
    ensures DecodeItem(depth, "$" + (DecInt(v) + (CRLF + rest))) == Done(Nil, rest)
  {
    NumberLine(v, rest);
    hide FindCrlf, LongLong, LongFits, DecInt, DecodeItem;
    LeafItem('$', Bulk, depth, DecInt(v) + (CRLF + rest), Nil, rest);
  }

  /** The two bytes behind a bulk body may be anything. */
  lemma BulkTrailer(text: string, a: char, b: char, depth: nat, rest: string)
    requires depth <= MAX_DEPTH && |text| + 2 <= LLONG_MAX
    ensures DecodeItem(depth, "$" + (DecInt(|text|) + (CRLF + (text + ([a, b] + rest))))) == Done(Str(text), rest)
  {
    var body := text + ([a, b] + rest);
    NumberLine(|text|, body);
    assert body[..|text|] == text && body[|text| + 2..] == rest;
    hide FindCrlf, LongLong, LongFits, DecInt, DecodeItem, Header;
    HeaderOfBulk(depth, DecInt(|text|) + (CRLF + body), body, |text|);
    LeafItem('$', Bulk, depth, DecInt(|text|) + (CRLF + body), Str(text), rest);
  }

  /** Arrays of one child inside each other, with the bytes s innermost. */
  function Nested(n: nat, s: string): string {
    if n == 0 then s else "*1\r\n" + Nested(n - 1, s)
  }

  function NestedTree(n: nat, t: Tree): Tree {
    if n == 0 then t else Multi(1, [NestedTree(n - 1, t)])
  }

  /** Eight arrays inside each other are read, the ninth is refused. */
  lemma NestingLimit(n: nat, v: int)
    requires -LLONG_MAX <= v <= LLONG_MAX
    ensures DecodeItem(0, Nested(n, ":" + DecInt(v) + CRLF)) ==
            if n <= 8 then Done(NestedTree(n, Int(v)), "") else Bad(TooDeep)
  {
    NestedItem(n, 0, v);
  }

  lemma {:induction false} NestedItem(n: nat, depth: nat, v: int)
    requires -LLONG_MAX <= v <= LLONG_MAX && depth <= MAX_DEPTH
    ensures DecodeItem(depth, Nested(n, ":" + DecInt(v) + CRLF)) ==
            if n <= 8 - depth then Done(NestedTree(n, Int(v)), "") else Bad(TooDeep)
    decreases n
  {
    hide Header, DecodeKids, DecodeTyped, DecInt;
    var inner := ":" + DecInt(v) + CRLF;
    if n == 0 {
      DecodePrintInt(v, depth, "");
      assert inner + "" == inner;
    } else {
      var rest := Nested(n - 1, inner);
      var s := Nested(n, inner);
      assert s[0] == '*' && s[1..] == "1\r\n" + rest;
      ItemOfTyped(depth, s);
      OneChild(depth, rest);
      if depth < MAX_DEPTH {
        NestedItem(n - 1, depth + 1, v);
        OneKid(depth + 1, rest);
      }
    }
  }

  lemma OneKid(depth: nat, s: string)
    requires depth <= MAX_DEPTH
    ensures DecodeKids(depth, 1, s) ==
            match DecodeItem(depth, s)
            case More => More
            case Bad(e) => Bad(e)
            case Done(kid, rest) => Done([kid], rest)
  {
    hide DecodeItem;
    var d := DecodeItem(depth, s);
    if d.Done? {
      assert DecodeKids(depth, 0, d.rest) == Done([], d.rest);
      assert [d.value] + [] == [d.value];
    }
  }

  lemma OneChild(depth: nat, rest: string)
    requires depth <= MAX_DEPTH
    ensures DecodeTyped(Array, depth, "1\r\n" + rest) ==
            if depth == MAX_DEPTH then Bad(TooDeep)
            else match DecodeKids(depth + 1, 1, rest)
                 case More => More
                 case Bad(e) => Bad(e)
                 case Done(kids, after) => Done(Multi(1, kids), after)
  {
    var s := "1\r\n" + rest;
    OneLine(rest);
    if depth < MAX_DEPTH {
      hide FindCrlf, LongLong, LongFits, DecodeKids;
      ArrayLine(s, 1, depth, rest);
    }
  }

  lemma OneLine(rest: string)
    ensures var s := "1\r\n" + rest;
            FindCrlf(s) == Some(1) && LineNumber(s) == 1 && LongFits(s) && s[3..] == rest
  {
    NumberLine(1, rest);
    assert DecInt(1) == "1";
    assert "1" + (CRLF + rest) == "1\r\n" + rest;
  }
}
