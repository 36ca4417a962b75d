/** The registry of device connections: inner_tcp_server.cpp and http_server_host.cpp. */
module Registry {
  import opened Text
  import opened Resp
  import opened Messages

  const PING_COMMAND := "ping"
  const CAUSE_INVALID_ARGS := "invalid_args"
  const CAUSE_INVALID_USER := "invalid_user"
  const CAUSE_UNREGISTERED_USER := "unregistered_user"
  const CAUSE_DOUBLE_CONNECTION_HOST := "double_connection_host"

  /** common::net::HostAndPort: the host name and the library's own isValid verdict. */
  datatype HostAndPort = HostAndPort(host: string, valid: bool)

  datatype UserAuthInfo = UserAuthInfo(login: string, password: string, host: HostAndPort) {
    predicate IsValid() {
      login != "" && host.valid
    }
  }

  /** A default-constructed UserAuthInfo. */
  const NOBODY := UserAuthInfo("", "", HostAndPort("", false))

  /** ConvertFromString into a fresh UserAuthInfo; `host` is the library's reading of the host text. */
  function AuthOf(text: string, host: HostAndPort): UserAuthInfo {
    match ParseAuth(CText(text))
    case None => NOBODY
    case Some(u) => UserAuthInfo(u.login, u.password, host)
  }

  /** IS_EQUAL_COMMAND compares only as many bytes as the command has. */
  predicate IsCommand(token: string, cmd: string) {
    cmd <= token
  }

  // ------------------------------------------------------------------------
  // The protocol as a step system over connections of type C.

  /** An approve message: state word, command, text. */
  datatype Reply = Reply(state: string, command: string, text: string)

  datatype Next = Stay | Hangup | Register(user: UserAuthInfo)

  /** What the outside world contributes to a response: the library's reading of the
      host text, the storage's answer, and the error of the approving write, if any. */
  datatype Outside = Outside(host: HostAndPort, known: bool, error: Option<string>)

  datatype Notice = Notice(host: string, connected: bool)

  /** The open connections with their host info, the host map, and what has been published. */
  datatype World<C> = World(clients: map<C, UserAuthInfo>, hosts: map<string, C>, notices: seq<Notice>)

  datatype Event<C> =
    | Accept(c: C)
    | Drop(c: C)
    | Response(c: C, argv: seq<string>, outside: Outside)

  /** handleInnerResponceCommand: the approve messages and what becomes of the connection. */
  function Judge(hosts: set<string>, argv: seq<string>, o: Outside): (seq<Reply>, Next)
    requires argv != []
  {
    if !IsCommand(argv[0], SUCCESS_COMMAND) || |argv| == 1 then ([], Stay)
    else if IsCommand(argv[1], PING_COMMAND) then
      if |argv| == 2 then ([Reply(SUCCESS_COMMAND, PING_COMMAND, CAUSE_INVALID_ARGS)], Stay)
      else ([Reply(SUCCESS_COMMAND, PING_COMMAND, "")], if o.error == None then Stay else Hangup)
    else if !IsCommand(argv[1], WHO_ARE_YOU_COMMAND) then ([], Stay)
    else if |argv| == 2 then ([Reply(FAIL_COMMAND, WHO_ARE_YOU_COMMAND, CAUSE_INVALID_ARGS)], Stay)
    else
      var user := AuthOf(argv[2], o.host);
      if !user.IsValid() then ([Reply(FAIL_COMMAND, WHO_ARE_YOU_COMMAND, CAUSE_INVALID_USER)], Hangup)
      else if !o.known then ([Reply(FAIL_COMMAND, WHO_ARE_YOU_COMMAND, CAUSE_UNREGISTERED_USER)], Hangup)
      else if user.host.host in hosts then ([Reply(FAIL_COMMAND, WHO_ARE_YOU_COMMAND, CAUSE_DOUBLE_CONNECTION_HOST)], Hangup)
      else
        var approve := Reply(SUCCESS_COMMAND, WHO_ARE_YOU_COMMAND, "");
        match o.error
        case None => ([approve], Register(user))
        case Some(text) => ([approve, Reply(FAIL_COMMAND, WHO_ARE_YOU_COMMAND, text)], Hangup)
  }

  /** The event loop only reports new connections as accepted and open ones as active. */
  ghost predicate Enabled<C>(w: World<C>, e: Event<C>) {
    match e
    case Accept(c) => c !in w.clients
    case Drop(c) => c in w.clients
    case Response(c, argv, _) => c in w.clients && argv != []
  }

  ghost predicate Registered<C>(w: World<C>, c: C) {
    c in w.clients && w.clients[c].IsValid()
  }

  /** A connection goes away: Closed, then the loop forgets it. */
  ghost function Close<C>(w: World<C>, c: C): World<C>
    requires c in w.clients
  {
    var host := w.clients[c].host.host;
    if Registered(w, c) then World(w.clients - {c}, w.hosts - {host}, w.notices + [Notice(host, false)])
    else w.(clients := w.clients - {c})
  }

  ghost function Enter<C>(w: World<C>, c: C, user: UserAuthInfo): World<C> {
    World(w.clients[c := user], w.hosts[user.host.host := c], w.notices + [Notice(user.host.host, true)])
  }

  ghost function Step<C>(w: World<C>, e: Event<C>): World<C>
    requires Enabled(w, e)
  {
    match e
    case Accept(c) => w.(clients := w.clients[c := NOBODY])
    case Drop(c) => Close(w, c)
    case Response(c, argv, o) =>
      match Judge(w.hosts.Keys, argv, o).1
      case Stay => w
      case Hangup => Close(w, c)
      case Register(user) => Enter(w, c, user)
  }

  /** The world after a history; events that cannot happen change nothing. */
  ghost function Run<C>(events: seq<Event<C>>): World<C> {
    if events == [] then World(map[], map[], [])
    else
      var w := Run(events[..|events| - 1]);
      var e := events[|events| - 1];
      if Enabled(w, e) then Step(w, e) else w
  }

  // ------------------------------------------------------------------------
  // Every registered connection is found under its host: over all runs.

  ghost predicate Keyed<C>(w: World<C>) {
    forall c :: c in w.clients && w.clients[c].IsValid() ==>
      w.clients[c].host.host in w.hosts && w.hosts[w.clients[c].host.host] == c
  }

  lemma RegisterFacts(hosts: set<string>, argv: seq<string>, o: Outside)
    requires argv != [] && Judge(hosts, argv, o).1.Register?
    ensures var u := Judge(hosts, argv, o).1.user;
            && u.IsValid() && u.host.host !in hosts && o.known
            && |argv| > 2 && IsCommand(argv[1], WHO_ARE_YOU_COMMAND) && u == AuthOf(argv[2], o.host)
  {}

  lemma KeyedStep<C>(w: World<C>, e: Event<C>)
    requires Keyed(w) && Enabled(w, e)
    ensures Keyed(Step(w, e))
  {
    hide Judge;
    if e.Response? && Judge(w.hosts.Keys, e.argv, e.outside).1.Register? {
      RegisterFacts(w.hosts.Keys, e.argv, e.outside);
    }
  }

  // ------------------------------------------------------------------------
  // Notices.

  /** The connected flags published for one host. */
  ghost function Told(notices: seq<Notice>, host: string): seq<bool> {
    if notices == [] then []
    else
      Told(notices[..|notices| - 1], host) +
      if notices[|notices| - 1].host == host then [notices[|notices| - 1].connected] else []
  }

  /** connected, disconnected, connected, ... */
  ghost predicate Alternates(s: seq<bool>) {
    forall i :: 0 <= i < |s| ==> s[i] == (i % 2 == 0)
  }

  /** The notices of every host alternate, and the last one says whether the map holds it. */
  ghost predicate WellTold<C>(w: World<C>) {
    forall h: string :: Alternates(Told(w.notices, h)) && (h in w.hosts <==> |Told(w.notices, h)| % 2 == 1)
  }

  lemma ToldSnoc(notices: seq<Notice>, n: Notice, h: string)
    ensures Told(notices + [n], h) == Told(notices, h) + if n.host == h then [n.connected] else []
  {
    assert (notices + [n])[..|notices|] == notices;
  }

  lemma WellToldStep<C>(w: World<C>, e: Event<C>)
    requires Keyed(w) && WellTold(w) && Enabled(w, e)
    ensures WellTold(Step(w, e))
  {
    hide Judge, WellTold;
    if e.Response? && Judge(w.hosts.Keys, e.argv, e.outside).1.Register? {
      RegisterFacts(w.hosts.Keys, e.argv, e.outside);
      var u := Judge(w.hosts.Keys, e.argv, e.outside).1.user;
      WellToldSnoc(w, Step(w, e), Notice(u.host.host, true));
    } else if Step(w, e).notices == w.notices {
      WellToldSame(w, Step(w, e));
    } else {
      WellToldSnoc(w, Step(w, e), Notice(w.clients[e.c].host.host, false));
    }
  }

  lemma WellToldSame<C>(w: World<C>, after: World<C>)
    requires WellTold(w) && after.notices == w.notices && after.hosts == w.hosts
    ensures WellTold(after)
  {
    hide Alternates, Told;
    forall h: string
      ensures Alternates(Told(after.notices, h)) && (h in after.hosts <==> |Told(after.notices, h)| % 2 == 1)
    {
      assert Alternates(Told(w.notices, h));
    }
  }

  /** One notice more, that a host has entered or left the map. */
  lemma WellToldSnoc<C>(w: World<C>, after: World<C>, n: Notice)
    requires WellTold(w) && after.notices == w.notices + [n]
    requires (n.host in after.hosts <==> n.connected) && (n.host in w.hosts <==> !n.connected)
    requires forall h :: h != n.host ==> (h in after.hosts <==> h in w.hosts)
    ensures WellTold(after)
  {
    hide Told;
    forall h: string
      ensures Alternates(Told(after.notices, h)) && (h in after.hosts <==> |Told(after.notices, h)| % 2 == 1)
    {
      assert Alternates(Told(w.notices, h)) && (h in w.hosts <==> |Told(w.notices, h)| % 2 == 1);
      ToldSnoc(w.notices, n, h);
    }
  }

  /** Over every run whatsoever: a registered connection is found under its host, and
      the notices of each host strictly alternate, beginning with connected. */
  lemma {:induction false} EveryRun<C>(events: seq<Event<C>>)
    ensures Keyed(Run(events)) && WellTold(Run(events))
  {
    hide Judge;
    if events != [] {
      var before, e := events[..|events| - 1], events[|events| - 1];
      EveryRun(before);
      if Enabled(Run(before), e) {
        KeyedStep(Run(before), e);
        WellToldStep(Run(before), e);
      }
    }
  }

  // ------------------------------------------------------------------------
  // The map holds nothing but open connections under their own host: exactly when
  // no connection is registered twice.

  ghost predicate Owned<C>(w: World<C>) {
    forall h :: h in w.hosts ==> Registered(w, w.hosts[h]) && w.clients[w.hosts[h]].host.host == h
  }

  /** The connection already has a host and is about to be given another. */
  ghost predicate ReRegisters<C>(w: World<C>, e: Event<C>)
    requires Enabled(w, e)
  {
    e.Response? && Registered(w, e.c) && Judge(w.hosts.Keys, e.argv, e.outside).1.Register?
  }

  /** The exact condition on one step. */
  lemma OwnedStep<C>(w: World<C>, e: Event<C>)
    requires Keyed(w) && Owned(w) && Enabled(w, e)
    ensures Owned(Step(w, e)) <==> !ReRegisters(w, e)
  {
    hide Judge;
    if e.Response? && Judge(w.hosts.Keys, e.argv, e.outside).1.Register? {
      RegisterFacts(w.hosts.Keys, e.argv, e.outside);
      var u := Judge(w.hosts.Keys, e.argv, e.outside).1.user;
      var after := Enter(w, e.c, u);
      if Registered(w, e.c) {
        var h := w.clients[e.c].host.host;
        assert h in after.hosts && after.hosts[h] == e.c && after.clients[e.c].host.host != h;
      }
    }
  }

  ghost predicate NeverReRegisters<C>(events: seq<Event<C>>) {
    events == [] ||
    var before, e := events[..|events| - 1], events[|events| - 1];
    NeverReRegisters(before) && (Enabled(Run(before), e) ==> !ReRegisters(Run(before), e))
  }

  /** The exact condition on a run: the host map is the open registered connections, each
      under its own host, if and only if no connection was ever registered twice. */
  lemma {:induction false} OwnedRun<C>(events: seq<Event<C>>)
    ensures Owned(Run(events)) <==> NeverReRegisters(events)
  {
    hide Judge, Step, ReRegisters;
    if !NeverReRegisters(events) {
      var host := LockedHost(events);
      OrphanNotOwned(Run(events), host);
    } else if events != [] {
      var before, e := events[..|events| - 1], events[|events| - 1];
      OwnedRun(before);
      EveryRun(before);
      if Enabled(Run(before), e) {
        OwnedStep(Run(before), e);
      }
    }
  }

  /** A second registration anywhere in the run has left a locked host behind. */
  lemma {:induction false} LockedHost<C>(events: seq<Event<C>>) returns (host: string)
    requires !NeverReRegisters(events)
    ensures Orphan(Run(events), host)
  {
    hide Judge, Step, Orphan;
    var before, e := events[..|events| - 1], events[|events| - 1];
    if !NeverReRegisters(before) {
      host := LockedHost(before);
      if Enabled(Run(before), e) {
        OrphanStep(Run(before), e, host);
      }
    } else {
      EveryRun(before);
      host := Run(before).clients[e.c].host.host;
      SecondAnswerOrphans(Run(before), e);
    }
  }

  lemma OrphanNotOwned<C>(w: World<C>, host: string)
    requires Orphan(w, host)
    ensures !Owned(w)
  {
    var c := w.hosts[host];
    if Registered(w, c) {
      assert w.clients[c].host.host != host;
    }
  }

  ghost predicate Answers<C>(e: Event<C>, c: C) {
    e.Response? && e.c == c && |e.argv| > 2 && IsCommand(e.argv[1], WHO_ARE_YOU_COMMAND)
  }

  /** The connection has answered who_are_you since it was accepted. */
  ghost predicate HasAnswered<C>(events: seq<Event<C>>, c: C) {
    events != [] &&
    var e := events[|events| - 1];
    if e == Accept(c) then false
    else Answers(e, c) || HasAnswered(events[..|events| - 1], c)
  }

  /** A history that can happen, in which no connection answers the question twice. */
  ghost predicate AskedOnce<C>(events: seq<Event<C>>) {
    events == [] ||
    var before, e := events[..|events| - 1], events[|events| - 1];
    && AskedOnce(before) && Enabled(Run(before), e)
    && (e.Response? && Answers(e, e.c) ==> !HasAnswered(before, e.c))
  }

  lemma {:induction false} RegisteredAnswered<C>(events: seq<Event<C>>, c: C)
    requires AskedOnce(events) && Registered(Run(events), c)
    ensures HasAnswered(events, c)
  {
    hide Judge, IsCommand;
    var before, e := events[..|events| - 1], events[|events| - 1];
    if e.Response? && Judge(Run(before).hosts.Keys, e.argv, e.outside).1.Register? {
      RegisterFacts(Run(before).hosts.Keys, e.argv, e.outside);
    }
    if !(e.c == c && (e.Accept? || Answers(e, c))) {
      RegisteredAnswered(before, c);
    }
  }

  /** When connections answer at most once, none is registered twice, so the host map is
      exactly the open registered connections. */
  lemma {:induction false} OnceRun<C>(events: seq<Event<C>>)
    requires AskedOnce(events)
    ensures NeverReRegisters(events)
    ensures Keyed(Run(events)) && Owned(Run(events)) && WellTold(Run(events))
  {
    hide Judge, HasAnswered, Run, Keyed, Owned, WellTold;
    EveryRun(events);
    if events != [] {
      var before, e := events[..|events| - 1], events[|events| - 1];
      OnceRun(before);
      if ReRegisters(Run(before), e) {
        RegisterFacts(Run(before).hosts.Keys, e.argv, e.outside);
        RegisteredAnswered(before, e.c);
        assert false;
      }
    }
    OwnedRun(events);
  }

  /** findInnerConnectionByHost */
  ghost function Find<C>(w: World<C>, host: string): Option<C> {
    if host in w.hosts then Some(w.hosts[host]) else None
  }

  /** Turning away a second connection for a host never evicts the first. */
  lemma DuplicateKeepsOwner<C>(w: World<C>, e: Event<C>)
    requires Keyed(w) && Owned(w) && Enabled(w, e) && e.Response? && Answers(e, e.c)
    requires IsCommand(e.argv[0], SUCCESS_COMMAND)
    requires var u := AuthOf(e.argv[2], e.outside.host);
             u.IsValid() && Find(w, u.host.host).Some? && Find(w, u.host.host).value != e.c
    ensures var h := AuthOf(e.argv[2], e.outside.host).host.host;
            && Find(Step(w, e), h) == Find(w, h) && Find(w, h).value in Step(w, e).clients
            && e.c !in Step(w, e).clients
            && Told(Step(w, e).notices, h) == Told(w.notices, h)
  {
    var u := AuthOf(e.argv[2], e.outside.host);
    assert e.argv[1][0] == 'w';
    hide Told, AuthOf;
    if Registered(w, e.c) {
      ToldSnoc(w.notices, Notice(w.clients[e.c].host.host, false), u.host.host);
    }
  }

  // ------------------------------------------------------------------------
  // What a second answer does.

  /** In the map, but no open connection goes by this host. */
  ghost predicate Orphan<C>(w: World<C>, host: string) {
    host in w.hosts && forall c :: c in w.clients && w.clients[c].IsValid() ==> w.clients[c].host.host != host
  }

  lemma SecondAnswerOrphans<C>(w: World<C>, e: Event<C>)
    requires Keyed(w) && Enabled(w, e) && ReRegisters(w, e)
    ensures Orphan(Step(w, e), w.clients[e.c].host.host)
  {
    RegisterFacts(w.hosts.Keys, e.argv, e.outside);
    hide Judge;
  }

  /** Nothing removes an orphan, and nothing is ever published about its host again. */
  lemma OrphanStep<C>(w: World<C>, e: Event<C>, host: string)
    requires Orphan(w, host) && Enabled(w, e)
    ensures Orphan(Step(w, e), host) && Told(Step(w, e).notices, host) == Told(w.notices, host)
  {
    hide Judge, Told;
    var after := Step(w, e);
    if e.Response? && Judge(w.hosts.Keys, e.argv, e.outside).1.Register? {
      RegisterFacts(w.hosts.Keys, e.argv, e.outside);
    }
    if after.notices != w.notices {
      ToldSnoc(w.notices, after.notices[|after.notices| - 1], host);
    }
  }

  lemma {:induction false} OrphanForever<C>(events: seq<Event<C>>, more: seq<Event<C>>, host: string)
    requires Orphan(Run(events), host)
    ensures Orphan(Run(events + more), host)
    ensures Told(Run(events + more).notices, host) == Told(Run(events).notices, host)
  {
    hide Orphan, Told, Step;
    if more == [] {
      assert events + more == events;
    } else {
      var m := |more| - 1;
      var before := events + more[..m];
      OrphanForever(events, more[..m], host);
      assert (events + more)[..|events| + m] == before && (events + more)[|events| + m] == more[m];
      if Enabled(Run(before), more[m]) {
        OrphanStep(Run(before), more[m], host);
      }
    }
  }

  /** A connection that is registered twice leaves its first host locked for good:
      whatever happens later, the host stays taken and no connection is ever announced
      for it, so every device that asks for it is turned away. */
  lemma SecondAnswerLocks<C>(events: seq<Event<C>>, e: Event<C>, more: seq<Event<C>>)
    requires Enabled(Run(events), e) && ReRegisters(Run(events), e)
    ensures Orphan(Run(events + [e] + more), Run(events).clients[e.c].host.host)
  {
    EveryRun(events);
    SecondAnswerOrphans(Run(events), e);
    assert (events + [e])[..|events|] == events;
    OrphanForever(events + [e], more, Run(events).clients[e.c].host.host);
  }

  /** An accepted answer for the host. */
  function Answer(c: nat, host: string): Event<nat> {
    Response(c, [SUCCESS_COMMAND, WHO_ARE_YOU_COMMAND, "u:p:" + host], Outside(HostAndPort(host, true), true, None))
  }

  lemma AnswerRegisters(hosts: set<string>, host: string)
    requires host !in hosts && NUL !in host
    ensures Judge(hosts, Answer(0, host).argv, Answer(0, host).outside).1 ==
            Register(UserAuthInfo("u", "p", HostAndPort(host, true)))
  {
    var u := UserAuth("u", "p", host);
    assert AuthText(u) == "u:p:" + host;
    AuthSplits(u);
    CTextPlain(AuthText(u));
    hide ParseAuth, AuthText, CText;
    var argv := Answer(0, host).argv;
    assert argv[1][0] == 'w' && !IsCommand(argv[1], PING_COMMAND);
    assert AuthOf(argv[2], HostAndPort(host, true)) == UserAuthInfo("u", "p", HostAndPort(host, true));
  }

  lemma AnswerEnters(w: World<nat>, host: string)
    requires 0 in w.clients && host !in w.hosts && NUL !in host
    ensures Enabled(w, Answer(0, host))
    ensures Step(w, Answer(0, host)) == Enter(w, 0, UserAuthInfo("u", "p", HostAndPort(host, true)))
  {
    AnswerRegisters(w.hosts.Keys, host);
    hide Judge, Enter;
  }

  /** Such runs exist: one connection, two answers, and the lookup returns a connection
      that is closed. */
  lemma ClosedConnectionFound()
    ensures var w := Run([Accept(0), Answer(0, "a"), Answer(0, "b"), Drop(0)]);
            Find(w, "a") == Some(0) && 0 !in w.clients
  {
    var e1, e2, e3, e4 := Accept(0), Answer(0, "a"), Answer(0, "b"), Drop(0);
    RunSnoc([], e1);
    assert Run([e1]) == World(map[0 := NOBODY], map[], []);
    hide Run, Answer, Judge;
    RunSnoc([e1], e2);
    RunSnoc([e1, e2], e3);
    RunSnoc([e1, e2, e3], e4);
    assert [e1] + [e2] == [e1, e2] && [e1, e2] + [e3] == [e1, e2, e3] && [e1, e2, e3] + [e4] == [e1, e2, e3, e4];
    AnswerEnters(Run([e1]), "a");
    AnswerEnters(Run([e1, e2]), "b");
  }

  lemma RunSnoc<C>(events: seq<Event<C>>, e: Event<C>)
    ensures Run(events + [e]) == if Enabled(Run(events), e) then Step(Run(events), e) else Run(events)
  {
    assert (events + [e])[..|events|] == events;
  }

  // ------------------------------------------------------------------------
  // What a device is told, in the protocol's words.

  /** A response with a login text for who_are_you. */
  predicate IsAnswer(argv: seq<string>) {
    |argv| > 2 && "ok" <= argv[0] && "who_are_you" <= argv[1]
  }

  /** A login is valid when its text has the two colons, a login name, and a host the
      library accepts; it is then taken over as it stands. */
  lemma AuthValid(text: string, host: HostAndPort)
    ensures var p := ParseAuth(CText(text));
            && (AuthOf(text, host).IsValid() <==> p.Some? && p.value.login != "" && host.valid)
            && (p.Some? ==> AuthOf(text, host) == UserAuthInfo(p.value.login, p.value.password, host))
  {
    hide ParseAuth, CText;
  }

  /** The answer to a login text: one ok message and the registration if the user is valid
      and known, the host is free and the message could be written; an ok and a fail message
      if only the write failed; otherwise one fail message with the first cause. */
  lemma AnswerVerdict(hosts: set<string>, argv: seq<string>, o: Outside)
    requires IsAnswer(argv)
    ensures var user := AuthOf(argv[2], o.host);
            var good := user.IsValid() && o.known && user.host.host !in hosts;
            var (sent, next) := Judge(hosts, argv, o);
            && sent != [] && (sent[0].state == "ok" <==> good)
            && (next == Register(user) <==> good && o.error.None?) && (next.Register? ==> next.user == user)
            && (sent == [Reply("ok", "who_are_you", "")] <==> next.Register?)
            && (good && o.error.Some? ==>
                  sent == [Reply("ok", "who_are_you", ""), Reply("fail", "who_are_you", o.error.value)] && next == Hangup)
            && (!good ==>
                  && next == Hangup
                  && sent == [Reply("fail", "who_are_you",
                       if !user.IsValid() then "invalid_user"
                       else if !o.known then "unregistered_user"
                       else "double_connection_host")])
  {
    assert argv[1][0] == 'w';
    assert "ok" != "fail";
    hide AuthOf;
  }

  /** Every other response leaves the registry alone. */
  lemma OtherVerdicts(hosts: set<string>, argv: seq<string>, o: Outside)
    requires argv != [] && !IsAnswer(argv)
    ensures Judge(hosts, argv, o) ==
            if !("ok" <= argv[0]) || |argv| == 1 then ([], Stay)
            else if "ping" <= argv[1] then
              (if |argv| == 2 then ([Reply("ok", "ping", "invalid_args")], Stay)
               else ([Reply("ok", "ping", "")], if o.error.None? then Stay else Hangup))
            else if "who_are_you" <= argv[1] then ([Reply("fail", "who_are_you", "invalid_args")], Stay)
            else ([], Stay)
  {}

  /** The device is sent exactly one ok message if and only if it is registered for the host
      of its login afterwards; after any other answer its connection is closed. */
  lemma ToldTheTruth<C>(w: World<C>, e: Event<C>)
    requires Enabled(w, e) && e.Response? && IsAnswer(e.argv)
    ensures var user, after := AuthOf(e.argv[2], e.outside.host), Step(w, e);
            var told := Judge(w.hosts.Keys, e.argv, e.outside).0 == [Reply("ok", "who_are_you", "")];
            && (told <==> Registered(after, e.c) && after.clients[e.c] == user && Find(after, user.host.host) == Some(e.c))
            && (!told ==> e.c !in after.clients)
  {
    AnswerVerdict(w.hosts.Keys, e.argv, e.outside);
    hide Judge, AuthOf;
  }

  /** The question reaches the device as a request with that one word. */
  lemma QuestionRead(id: string)
    requires ' ' !in id && NUL !in id && (forall k :: !CrlfAt(id, k)) && |id| <= 1000
    ensures Received(Buffered(Message(REQUEST_COMMAND, id, RequestBody(WHO_ARE_YOU_COMMAND, [])))) ==
            Command(0, id, ["who_are_you"])
  {
    var cmd := Plain("who_are_you");
    QuestionWord();
    assert cmd.text == WHO_ARE_YOU_COMMAND;
    NoArguments();
    hide *;
    RequestRoundTrip(id, cmd, []);
    QuestionLength(id);
    assert ["who_are_you"] + [] == ["who_are_you"];
  }

  lemma QuestionWord()
    ensures Plain("who_are_you").Clean()
  {
    assert NUL !in "who_are_you" && forall k :: !CrlfAt("who_are_you", k);
    hide CrlfAt;
  }

  lemma NoArguments()
    ensures WrittenAll([]) == [] && Values([]) == []
  {}

  lemma QuestionLength(id: string)
    ensures |Message(REQUEST_COMMAND, id, RequestBody(WHO_ARE_YOU_COMMAND, []))| == |id| + 17
  {}

  // ------------------------------------------------------------------------
  // The classes.

  class InnerTcpServerClient {
    var hinfo_: UserAuthInfo

    constructor ()
      ensures hinfo_ == NOBODY
    {
      hinfo_ := NOBODY;
    }
  }

  class HttpServerHost {
    var connections_: map<string, InnerTcpServerClient>

    constructor ()
      ensures connections_ == map[]
    {
      connections_ := map[];
    }

    /** findInnerConnectionByHost; null when there is none. */
    method FindInnerConnectionByHost(host: string) returns (r: InnerTcpServerClient?)
      ensures r == if host in connections_ then connections_[host] else null
    {
      if host !in connections_ {
        return null;
      }
      return connections_[host];
    }

    /** registerInnerConnectionByUser */
    method RegisterInnerConnectionByUser(user: UserAuthInfo, connection: InnerTcpServerClient) returns (isOk: bool)
      requires user.IsValid()
      modifies this, connection
      ensures isOk && connection.hinfo_ == user
      ensures connections_ == old(connections_)[user.host.host := connection]
    {
      connection.hinfo_ := user;
      connections_ := connections_[user.host.host := connection];
      return true;
    }

    /** unRegisterInnerConnectionByHost */
    method UnRegisterInnerConnectionByHost(connection: InnerTcpServerClient) returns (isOk: bool)
      modifies this
      ensures isOk == connection.hinfo_.IsValid()
      ensures connections_ == if isOk then old(connections_) - {connection.hinfo_.host.host} else old(connections_)
    {
      var hinf := connection.hinfo_;
      if !hinf.IsValid() {
        return false;
      }
      connections_ := connections_ - {hinf.host.host};
      return true;
    }
  }

  /** InnerServerHandlerHost, with the event loop's set of open clients and the notices
      it has handed to the publisher. */
  class InnerServerHandlerHost {
    const parent_: HttpServerHost
    ghost var clients: set<InnerTcpServerClient>
    ghost var published: seq<Notice>
    ghost var history: seq<Event<InnerTcpServerClient>>

    ghost function Now(): World<InnerTcpServerClient>
      reads this`clients, this`published, parent_, clients
    {
      World(map c | c in clients :: c.hinfo_, parent_.connections_, published)
    }

    /** The state is the one that the history leads to. */
    ghost predicate Valid()
      reads this, parent_, clients
    {
      Now() == Run(history)
    }

    constructor (parent: HttpServerHost)
      requires parent.connections_ == map[]
      ensures Valid() && parent_ == parent && clients == {} && history == []
    {
      parent_ := parent;
      clients, published, history := {}, [], [];
    }

    /** Accepted: the new client is asked who it is. */
    method Accepted(client: InnerTcpServerClient, id: string) returns (whoareyou: string)
      requires Valid() && client !in clients && client.hinfo_ == NOBODY
      modifies this
      ensures Valid() && history == old(history) + [Accept(client)] && clients == old(clients) + {client}
      ensures whoareyou == Buffered(Message(REQUEST_COMMAND, id, RequestBody(WHO_ARE_YOU_COMMAND, [])))
    {
      hide Run, Step;
      RunSnoc(history, Accept(client));
      clients := clients + {client};
      history := history + [Accept(client)];
      StepAccept(old(Now()), client);
      whoareyou := Buffered(Message(REQUEST_COMMAND, id, RequestBody(WHO_ARE_YOU_COMMAND, [])));
    }

    /** Closed, which the loop calls when a client's socket is closed. */
    method Closed(client: InnerTcpServerClient)
      modifies parent_, this`published
      ensures parent_.connections_ ==
        if client.hinfo_.IsValid() then old(parent_.connections_) - {client.hinfo_.host.host} else old(parent_.connections_)
      ensures published == old(published) + if client.hinfo_.IsValid() then [Notice(client.hinfo_.host.host, false)] else []
    {
      var isOk := parent_.UnRegisterInnerConnectionByHost(client);
      if isOk {
        published := published + [Notice(client.hinfo_.host.host, false)];
      }
    }

    /** client->Close(); delete client; */
    method CloseAndDelete(client: InnerTcpServerClient)
      requires client in clients
      modifies this`clients, this`published, parent_
      ensures clients == old(clients) - {client} && Now() == Close(old(Now()), client)
    {
      Closed(client);
      clients := clients - {client};
      assert Now().clients == old(Now()).clients - {client};
    }

    /** A read or write on the client failed. */
    method Lost(client: InnerTcpServerClient)
      requires Valid() && client in clients
      modifies this, parent_
      ensures Valid() && history == old(history) + [Drop(client)]
    {
      hide Run, Close;
      RunSnoc(history, Drop(client));
      CloseAndDelete(client);
      history := history + [Drop(client)];
    }

    /** handleInnerResponceCommand */
    method HandleInnerResponceCommand(connection: InnerTcpServerClient, argv: seq<string>, o: Outside) returns (sent: seq<Reply>)
      requires Valid() && connection in clients && argv != []
      modifies this, parent_, connection
      ensures Valid() && history == old(history) + [Response(connection, argv, o)]
      ensures sent == Judge(old(parent_.connections_).Keys, argv, o).0
    {
      hide Run, Close, AuthOf;
      RunSnoc(history, Response(connection, argv, o));
      history := history + [Response(connection, argv, o)];
      sent := [];
      if IsCommand(argv[0], SUCCESS_COMMAND) && |argv| > 1 {
        if IsCommand(argv[1], PING_COMMAND) {
          if |argv| > 2 {
            sent := sent + [Reply(SUCCESS_COMMAND, PING_COMMAND, "")];
            if o.error.Some? {
              CloseAndDelete(connection);
            }
          } else {
            sent := sent + [Reply(SUCCESS_COMMAND, PING_COMMAND, CAUSE_INVALID_ARGS)];
          }
        } else if IsCommand(argv[1], WHO_ARE_YOU_COMMAND) {
          if |argv| > 2 {
            JudgeAnswer(parent_.connections_.Keys, argv, o);
            sent := WhoAreYouAnswered(connection, argv[2], o);
          } else {
            sent := sent + [Reply(FAIL_COMMAND, WHO_ARE_YOU_COMMAND, CAUSE_INVALID_ARGS)];
          }
        }
      }
    }

    /** The branch for an answer with a login text; `fail:` closes the connection. */
    method WhoAreYouAnswered(connection: InnerTcpServerClient, uauthstr: string, o: Outside) returns (sent: seq<Reply>)
      requires connection in clients
      modifies this`clients, this`published, parent_, connection
      ensures var (replies, next) := Judge(old(parent_.connections_).Keys, [SUCCESS_COMMAND, WHO_ARE_YOU_COMMAND, uauthstr], o);
              && sent == replies
              && Now() == (if next.Register? then Enter(old(Now()), connection, next.user) else Close(old(Now()), connection))
    {
      assert WHO_ARE_YOU_COMMAND[0] == 'w';
      hide Close, AuthOf;
      sent := [];
      var uauth := AuthOf(uauthstr, o.host);
      if !uauth.IsValid() {
        sent := sent + [Reply(FAIL_COMMAND, WHO_ARE_YOU_COMMAND, CAUSE_INVALID_USER)];
        CloseAndDelete(connection);
        return;
      }
      if !o.known {
        sent := sent + [Reply(FAIL_COMMAND, WHO_ARE_YOU_COMMAND, CAUSE_UNREGISTERED_USER)];
        CloseAndDelete(connection);
        return;
      }
      var hoststr := uauth.host.host;
      var fclient := parent_.FindInnerConnectionByHost(hoststr);
      if fclient != null {
        sent := sent + [Reply(FAIL_COMMAND, WHO_ARE_YOU_COMMAND, CAUSE_DOUBLE_CONNECTION_HOST)];
        CloseAndDelete(connection);
        return;
      }
      sent := sent + [Reply(SUCCESS_COMMAND, WHO_ARE_YOU_COMMAND, "")];
      if o.error.Some? {
        sent := sent + [Reply(FAIL_COMMAND, WHO_ARE_YOU_COMMAND, o.error.value)];
        CloseAndDelete(connection);
        return;
      }
      var isOk := parent_.RegisterInnerConnectionByUser(uauth, connection);
      if isOk {
        published := published + [Notice(hoststr, true)];
      }
      assert Now().clients == old(Now()).clients[connection := uauth];
    }

    /** The relay's lookup: null means that no registered connection goes by the host, and
        as long as no connection has been registered twice, what it finds is an open
        connection registered for that host. */
    method Lookup(host: string) returns (r: InnerTcpServerClient?)
      requires Valid()
      ensures r == null ==> forall c :: c in clients && c.hinfo_.IsValid() ==> c.hinfo_.host.host != host
      ensures r != null && NeverReRegisters(history) ==> r in clients && r.hinfo_.IsValid() && r.hinfo_.host.host == host
    {
      hide Run, NeverReRegisters;
      EveryRun(history);
      OwnedRun(history);
      assert forall c :: c in clients ==> Now().clients[c] == c.hinfo_;
      r := parent_.FindInnerConnectionByHost(host);
    }
  }

  lemma JudgeAnswer(hosts: set<string>, argv: seq<string>, o: Outside)
    requires |argv| > 2 && IsCommand(argv[0], SUCCESS_COMMAND) && IsCommand(argv[1], WHO_ARE_YOU_COMMAND)
    ensures Judge(hosts, argv, o) == Judge(hosts, [SUCCESS_COMMAND, WHO_ARE_YOU_COMMAND, argv[2]], o)
    ensures Judge(hosts, argv, o).1 != Stay
  {
    assert argv[1][0] == 'w' && WHO_ARE_YOU_COMMAND[0] == 'w';
    hide AuthOf;
  }

  lemma StepAccept<C>(w: World<C>, c: C)
    requires Enabled(w, Accept(c))
    ensures Step(w, Accept(c)) == w.(clients := w.clients[c := NOBODY])
  {}
}
