/** The request ids and the pending callbacks of the command sequence parser. */
module Callbacks {
  import opened Text
  import opened SdsQuote

  // ------------------------------------------------------------------------
  // Ids.

  const UINTMAX := 0xffff_ffff_ffff_ffff

  function Pow16(w: nat): nat {
    if w == 0 then 1 else 16 * Pow16(w - 1)
  }

  /** The last w hex digits of n, most significant first. */
  function HexText(n: nat, w: nat): (s: string)
    ensures |s| == w
  {
    if w == 0 then "" else HexText(n / 16, w - 1) + [HexDigit(n % 16)]
  }

  function HexNumber(s: string): nat
    requires forall i :: 0 <= i < |s| ==> IsHex(s[i])
  {
    if s == "" then 0 else HexNumber(s[..|s| - 1]) * 16 + HexValue(s[|s| - 1])
  }

  predicate LowerHex(s: string) {
    forall i :: 0 <= i < |s| ==> s[i] in "0123456789abcdef"
  }

  /** Fixed-width hex text is the number in lower-case hex digits, with leading zeros. */
  lemma {:induction false} HexTextIsHex(n: nat, w: nat)
    requires n < Pow16(w)
    ensures LowerHex(HexText(n, w)) && (forall i :: 0 <= i < w ==> IsHex(HexText(n, w)[i]))
    ensures HexNumber(HexText(n, w)) == n
  {
    if w > 0 {
      HexTextIsHex(n / 16, w - 1);
      HexDigits(n % 16);
      var a, d := HexText(n / 16, w - 1), HexDigit(n % 16);
      var s := HexText(n, w);
      assert s == a + [d] && s[..|s| - 1] == a;
    }
  }

  ghost predicate TextLess(a: string, b: string) {
    exists k :: 0 <= k < |a| && k < |b| && a[..k] == b[..k] && a[k] < b[k]
  }

  lemma HexDigitOrder(m: nat, n: nat)
    requires m < n < 16
    ensures HexDigit(m) < HexDigit(n)
  {}

  lemma LessBefore(a: string, b: string, c: char, d: char)
    requires TextLess(a, b)
    ensures TextLess(a + [c], b + [d])
  {
    var k :| 0 <= k < |a| && k < |b| && a[..k] == b[..k] && a[k] < b[k];
    var s, t := a + [c], b + [d];
    assert s[..k] == a[..k] && t[..k] == b[..k] && s[k] == a[k] && t[k] == b[k];
  }

  lemma LessLast(a: string, c: char, d: char)
    requires c < d
    ensures TextLess(a + [c], a + [d])
  {
    var s, t, k := a + [c], a + [d], |a|;
    assert s[..k] == a && t[..k] == a && s[k] == c && t[k] == d;
  }

  /** Issue order is text order. */
  lemma {:induction false} HexTextOrder(m: nat, n: nat, w: nat)
    requires m < n < Pow16(w)
    ensures TextLess(HexText(m, w), HexText(n, w))
  {
    var a, b := HexText(m / 16, w - 1), HexText(n / 16, w - 1);
    assert HexText(m, w) == a + [HexDigit(m % 16)] && HexText(n, w) == b + [HexDigit(n % 16)];
    hide HexText, HexDigit, TextLess;
    if m / 16 < n / 16 {
      HexTextOrder(m / 16, n / 16, w - 1);
      LessBefore(a, b, HexDigit(m % 16), HexDigit(n % 16));
    } else {
      HexDigitOrder(m % 16, n % 16);
      LessLast(a, HexDigit(m % 16), HexDigit(n % 16));
    }
  }

  lemma IdRange()
    ensures Pow16(16) == UINTMAX + 1
  {
    assert Pow16(4) == 65536 && Pow16(8) == 65536 * Pow16(4) && Pow16(12) == 65536 * Pow16(8);
    assert Pow16(16) == 65536 * Pow16(12);
  }

  /** An id is its counter value, as sixteen lower-case hex digits. */
  lemma IdIsCounter(n: nat)
    requires n <= UINTMAX
    ensures |HexText(n, 16)| == 16 && LowerHex(HexText(n, 16))
    ensures (forall i :: 0 <= i < 16 ==> IsHex(HexText(n, 16)[i])) && HexNumber(HexText(n, 16)) == n
  {
    IdRange();
    hide HexText, HexNumber, LowerHex;
    HexTextIsHex(n, 16);
  }

  /** The text order is strict, so different counts give different ids. */
  lemma IdsDistinct(m: nat, n: nat)
    requires m <= UINTMAX && n <= UINTMAX
    ensures HexText(m, 16) == HexText(n, 16) <==> m == n
    ensures m < n ==> TextLess(HexText(m, 16), HexText(n, 16))
  {
    IdRange();
    if m < n {
      HexTextOrder(m, n, 16);
    } else if n < m {
      HexTextOrder(n, m, 16);
    }
  }

  // ------------------------------------------------------------------------
  // Pending callbacks, as a function of the history.

  /** A waiting callback; `cb` names the function object, None an empty one. */
  datatype RequestCallback = RequestCallback(requestId: string, cb: Option<nat>)

  /** A callback taken off the list when its id was received, with the arguments it got. */
  datatype Execution = Execution(callback: RequestCallback, argv: Option<seq<string>>)

  function Waiting(pending: seq<RequestCallback>, id: string): seq<RequestCallback> {
    if pending == [] then []
    else if pending[0].requestId == id then [pending[0]] + Waiting(pending[1..], id)
    else Waiting(pending[1..], id)
  }

  function Others(pending: seq<RequestCallback>, id: string): seq<RequestCallback> {
    if pending == [] then []
    else if pending[0].requestId == id then Others(pending[1..], id)
    else [pending[0]] + Others(pending[1..], id)
  }

  function Executions(cbs: seq<RequestCallback>, argv: Option<seq<string>>): (r: seq<Execution>)
    ensures |r| == |cbs| && forall i :: 0 <= i < |r| ==> r[i] == Execution(cbs[i], argv)
  {
    seq(|cbs|, i requires 0 <= i < |cbs| => Execution(cbs[i], argv))
  }

  datatype Event = Subscribe(callback: RequestCallback) | Receive(id: string, argv: Option<seq<string>>)

  datatype State = State(pending: seq<RequestCallback>, executed: seq<Execution>)

  function Apply(s: State, e: Event): State {
    match e
    case Subscribe(cb) => State(s.pending + [cb], s.executed)
    case Receive(id, argv) => State(Others(s.pending, id), s.executed + Executions(Waiting(s.pending, id), argv))
  }

  function Run(events: seq<Event>): State {
    if events == [] then State([], []) else Apply(Run(events[..|events| - 1]), events[|events| - 1])
  }

  /** The callbacks of a history, in subscription order. */
  function Subscribed(events: seq<Event>): seq<RequestCallback> {
    if events == [] then []
    else Subscribed(events[..|events| - 1]) + match events[|events| - 1] case Subscribe(cb) => [cb] case Receive(_, _) => []
  }

  function Callbacks(es: seq<Execution>): (r: seq<RequestCallback>)
    ensures |r| == |es| && forall i :: 0 <= i < |r| ==> r[i] == es[i].callback
  {
    seq(|es|, i requires 0 <= i < |es| => es[i].callback)
  }

  lemma {:induction false} SplitById(pending: seq<RequestCallback>, id: string)
    ensures multiset(pending) == multiset(Waiting(pending, id)) + multiset(Others(pending, id))
    ensures forall cb :: cb in Waiting(pending, id) ==> cb.requestId == id
    ensures forall cb :: cb in Others(pending, id) ==> cb.requestId != id
  {
    if pending != [] {
      SplitById(pending[1..], id);
      assert pending == [pending[0]] + pending[1..];
    }
  }

  /** The callbacks that run for an id are those subscribed for it, in subscription order;
      the others stay in theirs. */
  lemma WaitingInOrder(before: seq<RequestCallback>, rc: RequestCallback, after: seq<RequestCallback>, id: string)
    ensures Waiting(before + [rc] + after, id) ==
            Waiting(before, id) + (if rc.requestId == id then [rc] else []) + Waiting(after, id)
    ensures Others(before + [rc] + after, id) ==
            Others(before, id) + (if rc.requestId == id then [] else [rc]) + Others(after, id)
  {
    WaitingConcat(before + [rc], after, id);
    WaitingConcat(before, [rc], id);
    OthersConcat(before + [rc], after, id);
    OthersConcat(before, [rc], id);
    assert [rc][1..] == [];
  }

  lemma {:induction false} WaitingConcat(a: seq<RequestCallback>, b: seq<RequestCallback>, id: string)
    ensures Waiting(a + b, id) == Waiting(a, id) + Waiting(b, id)
  {
    if a == [] {
      assert a + b == b;
    } else {
      assert (a + b)[1..] == a[1..] + b;
      WaitingConcat(a[1..], b, id);
    }
  }

  lemma {:induction false} OthersConcat(a: seq<RequestCallback>, b: seq<RequestCallback>, id: string)
    ensures Others(a + b, id) == Others(a, id) + Others(b, id)
  {
    if a == [] {
      assert a + b == b;
    } else {
      assert (a + b)[1..] == a[1..] + b;
      OthersConcat(a[1..], b, id);
    }
  }

  /** One event moves callbacks between the lists but keeps their count. */
  lemma ApplyConserves(s: State, e: Event)
    ensures multiset(Callbacks(Apply(s, e).executed)) + multiset(Apply(s, e).pending) ==
            multiset(Callbacks(s.executed)) + multiset(s.pending) + multiset(match e case Subscribe(cb) => [cb] case Receive(_, _) => [])
  {
    hide Waiting, Others;
    if e.Receive? {
      var w := Waiting(s.pending, e.id);
      SplitById(s.pending, e.id);
      assert Callbacks(s.executed + Executions(w, e.argv)) == Callbacks(s.executed) + w;
    }
  }

  /** Nothing is lost and nothing runs twice: what was subscribed is what has been
      executed and what is still pending, counted with multiplicity. */
  lemma {:induction false} Conservation(events: seq<Event>)
    ensures multiset(Subscribed(events)) == multiset(Callbacks(Run(events).executed)) + multiset(Run(events).pending)
  {
    if events != [] {
      var before := events[..|events| - 1];
      Conservation(before);
      ApplyConserves(Run(before), events[|events| - 1]);
    }
  }

  /** No message with this id in the history. */
  predicate NotReceived(events: seq<Event>, id: string) {
    forall i :: 0 <= i < |events| && events[i].Receive? ==> events[i].id != id
  }

  /** The callbacks whose id has not been received since they were subscribed. */
  function Unanswered(events: seq<Event>): seq<RequestCallback> {
    if events == [] then []
    else
      match events[0]
      case Receive(_, _) => Unanswered(events[1..])
      case Subscribe(cb) => (if NotReceived(events[1..], cb.requestId) then [cb] else []) + Unanswered(events[1..])
  }

  lemma NotReceivedStep(events: seq<Event>, e: Event, id: string)
    ensures NotReceived(events + [e], id) <==> NotReceived(events, id) && (e.Receive? ==> e.id != id)
  {
    var all := events + [e];
    assert all[|events|] == e && forall i :: 0 <= i < |events| ==> all[i] == events[i];
    if NotReceived(all, id) {
      forall i | 0 <= i < |events| && events[i].Receive?
        ensures events[i].id != id
      {
        assert all[i] == events[i];
      }
    }
  }

  lemma {:induction false} UnansweredStep(events: seq<Event>, e: Event)
    ensures Unanswered(events + [e]) == match e case Subscribe(cb) => Unanswered(events) + [cb] case Receive(id, _) => Others(Unanswered(events), id)
  {
    if events == [] {
      assert [e][1..] == [];
    } else {
      var tail := events[1..];
      assert (events + [e])[1..] == tail + [e];
      UnansweredStep(tail, e);
      if events[0].Subscribe? {
        var cb := events[0].callback;
        assert (tail + [e])[|tail|] == e;
        NotReceivedStep(tail, e, cb.requestId);
        var first := if NotReceived(tail, cb.requestId) then [cb] else [];
        match e
        case Subscribe(newCb) =>
          Assoc3(first, Unanswered(tail), [newCb]);
        case Receive(id, _) =>
          OthersConcat(first, Unanswered(tail), id);
          assert Others([cb], id) == (if cb.requestId == id then [] else [cb]) by { assert [cb][1..] == []; }
      }
    }
  }

  /** After any history, the pending callbacks are exactly those whose id has not been
      received since, in subscription order. */
  lemma {:induction false} PendingIsUnanswered(events: seq<Event>)
    ensures Run(events).pending == Unanswered(events)
  {
    if events != [] {
      var before := events[..|events| - 1];
      PendingIsUnanswered(before);
      UnansweredStep(before, events[|events| - 1]);
      assert before + [events[|events| - 1]] == events;
    }
  }

  // ------------------------------------------------------------------------
  // The class.

  class CommandSeqParser {
    var id_: nat                                   // std::atomic<uintmax_t>
    var subscribed_requests_: seq<RequestCallback> // std::vector
    ghost var history: seq<Event>
    ghost var executed: seq<Execution>             // what ran, in order

    ghost predicate Valid()
      reads this
    {
      id_ <= UINTMAX && Run(history) == State(subscribed_requests_, executed)
    }

    constructor ()
      ensures Valid() && id_ == 0 && history == []
    {
      id_ := 0;
      subscribed_requests_ := [];
      history, executed := [], [];
    }

    /** next_id: the counter as fixed-width hex text; it wraps after 2^64 ids. */
    method NextId() returns (hexed: string)
      requires Valid()
      modifies this`id_
      ensures Valid() && hexed == HexText(old(id_), 16)
      ensures id_ == if old(id_) == UINTMAX then 0 else old(id_) + 1
    {
      hide HexText;
      var nextId := id_;
      assert id_ < UINTMAX ==> (id_ + 1) % 0x1_0000_0000_0000_0000 == id_ + 1;
      id_ := (id_ + 1) % 0x1_0000_0000_0000_0000;
      hexed := HexText(nextId, 16);
    }

    /** subscribeRequest */
    method SubscribeRequest(req: RequestCallback)
      requires Valid()
      modifies this`subscribed_requests_, this`history
      ensures Valid() && history == old(history) + [Subscribe(req)]
      ensures subscribed_requests_ == old(subscribed_requests_) + [req]
    {
      subscribed_requests_ := subscribed_requests_ + [req];
      history := history + [Subscribe(req)];
      assert history[..|history| - 1] == old(history);
    }

    /** exec_reqest, the predicate of remove_if: runs the callback when the id matches. */
    method ExecRequest(req: RequestCallback, requestId: string, argv: Option<seq<string>>) returns (matched: bool)
      modifies this`executed
      ensures matched == (req.requestId == requestId)
      ensures executed == old(executed) + if matched then [Execution(req, argv)] else []
    {
      if requestId == req.requestId {
        executed := executed + [Execution(req, argv)];
        return true;
      }
      return false;
    }

    /** std::remove_if with exec_reqest: the others end up in order at the front. */
    method RemoveIf(all: seq<RequestCallback>, requestId: string, argv: Option<seq<string>>) returns (kept: seq<RequestCallback>)
      modifies this`executed
      ensures kept == Others(all, requestId)
      ensures executed == old(executed) + Executions(Waiting(all, requestId), argv)
    {
      var v := all;
      var first := 0;
      for i := 0 to |v|
        invariant |v| == |all| && first <= i && v[i..] == all[i..]
        invariant v[..first] + Others(all[i..], requestId) == Others(all, requestId)
        invariant executed + Executions(Waiting(all[i..], requestId), argv) == old(executed) + Executions(Waiting(all, requestId), argv)
      {
        hide Others, Waiting, Executions;
        TurnOf(all, i, requestId, v[..first], executed, argv);
        KeepsRest(v, first, i);
        assert v[i] == v[i..][0] == all[i];
        assert all[i + 1..] == all[i..][1..];
        var matched := ExecRequest(v[i], requestId, argv);
        if !matched {
          v := v[first := v[i]];
          first := first + 1;
        }
      }
      assert all[|all|..] == [];
      return v[..first];
    }

    /** processRequest: what std::remove_if leaves behind the others is erased. */
    method ProcessRequest(requestId: string, argv: Option<seq<string>>)
      requires Valid()
      modifies this`subscribed_requests_, this`history, this`executed
      ensures Valid() && history == old(history) + [Receive(requestId, argv)]
      ensures subscribed_requests_ == Others(old(subscribed_requests_), requestId)
      ensures executed == old(executed) + Executions(Waiting(old(subscribed_requests_), requestId), argv)
    {
      subscribed_requests_ := RemoveIf(subscribed_requests_, requestId, argv);
      ghost var before := history;
      history := history + [Receive(requestId, argv)];
      assert history[..|history| - 1] == before;
    }
  }

  /** Moving an element to the front leaves what has not been looked at. */
  lemma KeepsRest<T>(v: seq<T>, first: nat, i: nat)
    requires first <= i < |v|
    ensures v[i + 1..] == v[i..][1..] && v[first := v[i]][i + 1..] == v[i..][1..]
    ensures v[first := v[i]][..first + 1] == v[..first] + [v[i]]
  {}

  /** The i-th turn of remove_if moves one element to the kept ones or to what has run. */
  lemma TurnOf(all: seq<RequestCallback>, i: nat, id: string, kept: seq<RequestCallback>, ran: seq<Execution>, argv: Option<seq<string>>)
    requires i < |all|
    ensures all[i].requestId == id ==>
              && kept + Others(all[i..], id) == kept + Others(all[i + 1..], id)
              && ran + Executions(Waiting(all[i..], id), argv) == ran + [Execution(all[i], argv)] + Executions(Waiting(all[i + 1..], id), argv)
    ensures all[i].requestId != id ==>
              && kept + Others(all[i..], id) == kept + [all[i]] + Others(all[i + 1..], id)
              && ran + Executions(Waiting(all[i..], id), argv) == ran + Executions(Waiting(all[i + 1..], id), argv)
  {
    var rest := all[i..];
    assert rest[0] == all[i] && rest[1..] == all[i + 1..];
    hide Executions;
    if all[i].requestId == id {
      ExecutionsCons(all[i], Waiting(rest[1..], id), argv);
      Assoc3(ran, [Execution(all[i], argv)], Executions(Waiting(rest[1..], id), argv));
    } else {
      Assoc3(kept, [all[i]], Others(rest[1..], id));
    }
  }

  lemma ExecutionsCons(cb: RequestCallback, cbs: seq<RequestCallback>, argv: Option<seq<string>>)
    ensures Executions([cb] + cbs, argv) == [Execution(cb, argv)] + Executions(cbs, argv)
  {}
}
