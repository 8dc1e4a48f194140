/** The session list of src/server/session_manager.c, operations one at a time: its value as a sequence, newest session
    first, and the linked list itself. A session's symbol array is a sequence. */
module Sessions {
  import opened Lists

  const MAX_SUBSCRIPTIONS := 100

  /** A client is a number; 0 stands for no client. */
  datatype Session = Session(client: int, symbols: seq<string>, lastPing: int)

  datatype Op =
    | AddClient(client: int, now: int)
    | RemoveClient(client: int)
    | Subscribe(client: int, symbol: string)
    | Unsubscribe(client: int, symbol: string)
    | Cleanup(now: int)
    | Ping(now: int)

  datatype Config = Config(maxSessions: int, timeoutMs: int)

  // ----- lookups -----

  function FindSession(s: seq<Session>, client: int): (i: nat)
    ensures i <= |s| && forall j :: 0 <= j < i ==> s[j].client != client
    ensures i < |s| ==> s[i].client == client
  {
    if s == [] || s[0].client == client then 0 else 1 + FindSession(s[1..], client)
  }

  function FindSymbol(symbols: seq<string>, symbol: string): (i: nat)
    ensures i <= |symbols| && forall j :: 0 <= j < i ==> symbols[j] != symbol
    ensures i < |symbols| ==> symbols[i] == symbol
    ensures i < |symbols| <==> symbol in symbols
  {
    if symbols == [] || symbols[0] == symbol then 0 else 1 + FindSymbol(symbols[1..], symbol)
  }

  predicate IsSubscribed(s: seq<Session>, client: int, symbol: string) {
    var i := FindSession(s, client);
    client != 0 && i < |s| && Subscribed(s[i], symbol)
  }

  predicate TimedOut(x: Session, now: int, timeoutMs: int) {
    (now - x.lastPing) * 1000 > timeoutMs
  }

  function Live(s: seq<Session>, now: int, timeoutMs: int): seq<Session> {
    if s == [] then []
    else if TimedOut(s[0], now, timeoutMs) then Live(s[1..], now, timeoutMs)
    else [s[0]] + Live(s[1..], now, timeoutMs)
  }

  predicate Subscribed(x: Session, symbol: string) {
    FindSymbol(x.symbols, symbol) < |x.symbols|
  }

  /** The clients subscribed to a symbol, in list order. */
  function Subscribers(s: seq<Session>, symbol: string): seq<int> {
    if s == [] then []
    else if Subscribed(s[0], symbol) then [s[0].client] + Subscribers(s[1..], symbol)
    else Subscribers(s[1..], symbol)
  }

  // ----- one step -----

  function Step(s: seq<Session>, config: Config, op: Op): seq<Session> {
    match op
    case AddClient(c, now) =>
      if c == 0 || |s| >= config.maxSessions || FindSession(s, c) < |s| then s else [Session(c, [], now)] + s
    case RemoveClient(c) =>
      var i := FindSession(s, c);
      if c == 0 || i == |s| then s else s[..i] + s[i + 1..]
    case Subscribe(c, symbol) =>
      var i := FindSession(s, c);
      if c == 0 || i == |s| || |s[i].symbols| >= MAX_SUBSCRIPTIONS then s
      else if Subscribed(s[i], symbol) then s
      else s[i := s[i].(symbols := s[i].symbols + [symbol])]
    case Unsubscribe(c, symbol) =>
      var i := FindSession(s, c);
      if c == 0 || i == |s| then s
      else
        var k := FindSymbol(s[i].symbols, symbol);
        if k == |s[i].symbols| then s else s[i := s[i].(symbols := s[i].symbols[..k] + s[i].symbols[k + 1..])]
    case Cleanup(now) => Live(s, now, config.timeoutMs)
    case Ping(now) => seq(|s|, i requires 0 <= i < |s| => s[i].(lastPing := now))
  }

  // ----- invariant -----

  ghost predicate DistinctSymbols(symbols: seq<string>) {
    forall i, j :: 0 <= i < j < |symbols| ==> symbols[i] != symbols[j]
  }

  /** Within the limit, one session per client, no symbol twice, no session over the subscription limit. */
  ghost predicate Sound(s: seq<Session>, config: Config) {
    && |s| <= config.maxSessions
    && (forall i, j :: 0 <= i < j < |s| ==> s[i].client != s[j].client)
    && forall i :: 0 <= i < |s| ==>
         s[i].client != 0 && |s[i].symbols| <= MAX_SUBSCRIPTIONS && DistinctSymbols(s[i].symbols)
  }

  /** Cleanup keeps exactly the sessions whose last ping, in seconds, is within the time-out in milliseconds. */
  lemma {:induction false} LiveFacts(s: seq<Session>, now: int, timeoutMs: int)
    ensures |Live(s, now, timeoutMs)| <= |s|
    ensures forall x :: x in Live(s, now, timeoutMs) <==> x in s && 1000 * (now - x.lastPing) <= timeoutMs
  {
    if s != [] {
      LiveFacts(s[1..], now, timeoutMs);
      assert s == [s[0]] + s[1..];
    }
  }

  /** Cleanup keeps the order of the sessions: of two parts of a list, those kept of the first come first. */
  lemma {:induction false} LiveConcat(a: seq<Session>, b: seq<Session>, now: int, timeoutMs: int)
    ensures Live(a + b, now, timeoutMs) == Live(a, now, timeoutMs) + Live(b, now, timeoutMs)
  {
    if a == [] {
      assert a + b == b;
    } else {
      assert (a + b)[1..] == a[1..] + b;
      LiveConcat(a[1..], b, now, timeoutMs);
    }
  }

  lemma {:induction false} LiveDistinct(s: seq<Session>, now: int, timeoutMs: int)
    requires forall i, j :: 0 <= i < j < |s| ==> s[i].client != s[j].client
    ensures var l := Live(s, now, timeoutMs);
            forall i, j :: 0 <= i < j < |l| ==> l[i].client != l[j].client
  {
    if s != [] {
      LiveDistinct(s[1..], now, timeoutMs);
      LiveFacts(s[1..], now, timeoutMs);
      var l := Live(s[1..], now, timeoutMs);
      forall j | 0 <= j < |l| ensures l[j].client != s[0].client {
        assert l[j] in s[1..];
      }
    }
  }

  lemma {:induction false} SubscriptionsSound(s: seq<Session>, config: Config, op: Op)
    requires Sound(s, config) && (op.Subscribe? || op.Unsubscribe?)
    ensures Sound(Step(s, config, op), config)
  {
  }

  lemma {:induction false} StepSound(s: seq<Session>, config: Config, op: Op)
    requires Sound(s, config)
    ensures Sound(Step(s, config, op), config)
  {
    match op
    case AddClient(c, now) =>
    case RemoveClient(c) =>
    case Subscribe(c, symbol) => SubscriptionsSound(s, config, op);
    case Unsubscribe(c, symbol) => SubscriptionsSound(s, config, op);
    case Cleanup(now) =>
      LiveFacts(s, now, config.timeoutMs);
      LiveDistinct(s, now, config.timeoutMs);
      var l := Live(s, now, config.timeoutMs);
      forall i | 0 <= i < |l| ensures l[i] in s {
        assert l[i] in l;
      }
    case Ping(now) =>
  }

  /** Adding opens an empty session for a new client while there is room, removing closes the one session of the
      client, and neither touches any other session. */
  lemma {:induction false} MembershipEffect(s: seq<Session>, config: Config, op: Op, x: Session)
    requires Sound(s, config) && (op.AddClient? || op.RemoveClient?)
    ensures var s' := Step(s, config, op);
            if op.RemoveClient? then x in s' <==> x in s && x.client != op.client
            else x in s' <==>
                 x in s || (x == Session(op.client, [], op.now) && op.client != 0 && |s| < config.maxSessions &&
                            forall i :: 0 <= i < |s| ==> s[i].client != op.client)
  {
  }

  /** Every run of operations keeps the list sound. */
  function Run(s: seq<Session>, config: Config, ops: seq<Op>): (r: seq<Session>)
    requires Sound(s, config)
    ensures Sound(r, config)
    decreases |ops|
  {
    if ops == [] then s
    else
      StepSound(s, config, ops[0]);
      Run(Step(s, config, ops[0]), config, ops[1..])
  }

  /** A client is among the subscribers of a symbol exactly when it is subscribed. */
  lemma {:induction false} SubscribersAreSubscribed(s: seq<Session>, config: Config, symbol: string, c: int)
    requires Sound(s, config)
    ensures c in Subscribers(s, symbol) <==> IsSubscribed(s, c, symbol)
  {
    if s != [] {
      SubscribersAreSubscribed(s[1..], config, symbol, c);
      if s[0].client == c {
        assert forall k :: 0 <= k < |s[1..]| ==> s[1..][k].client != c;
      } else {
        assert FindSession(s, c) == 1 + FindSession(s[1..], c);
      }
    }
  }

  /** Subscribers are listed in the order of their sessions. */
  lemma {:induction false} SubscribersConcat(a: seq<Session>, b: seq<Session>, symbol: string)
    ensures Subscribers(a + b, symbol) == Subscribers(a, symbol) + Subscribers(b, symbol)
  {
    if a == [] {
      assert a + b == b;
    } else {
      assert (a + b)[1..] == a[1..] + b;
      SubscribersConcat(a[1..], b, symbol);
    }
  }

  /** What one operation does to the subscriptions: only the client named changes, and only in the symbol named. */
  lemma {:induction false} SubscriptionEffect(s: seq<Session>, config: Config, op: Op, c: int, symbol: string)
    requires Sound(s, config) && (op.Subscribe? || op.Unsubscribe?)
    ensures var s' := Step(s, config, op);
            if op.client != c || op.symbol != symbol then IsSubscribed(s', c, symbol) == IsSubscribed(s, c, symbol)
            else if op.Unsubscribe? then !IsSubscribed(s', c, symbol)
            else IsSubscribed(s', c, symbol) <==>
                 IsSubscribed(s, c, symbol) ||
                 (c != 0 && FindSession(s, c) < |s| && |s[FindSession(s, c)].symbols| < MAX_SUBSCRIPTIONS)
  {
    var i := FindSession(s, op.client);
    if op.client != 0 && i < |s| {
      var before := s[i].symbols;
      SymbolsEffect(before, op.symbol, symbol);
      if op.Subscribe? {
        WithSymbols(s, i, before + [op.symbol], c, symbol);
      } else if FindSymbol(before, op.symbol) < |before| {
        var k := FindSymbol(before, op.symbol);
        WithSymbols(s, i, before[..k] + before[k + 1..], c, symbol);
      }
    }
  }

  /** Giving the first session of a client other symbols changes what that client is subscribed to, nothing else. */
  lemma {:induction false} WithSymbols(s: seq<Session>, i: nat, symbols: seq<string>, c: int, symbol: string)
    requires i < |s| && i == FindSession(s, s[i].client)
    ensures var s' := s[i := s[i].(symbols := symbols)];
            IsSubscribed(s', c, symbol) ==
            if c == s[i].client then c != 0 && FindSymbol(symbols, symbol) < |symbols| else IsSubscribed(s, c, symbol)
  {
    SameClients(s, s[i := s[i].(symbols := symbols)], c);
  }

  /** Subscribing and unsubscribing change the symbols of the named client's session alone: sessions keep their places,
      clients and ping times. A ping sets every ping time and nothing else. */
  lemma {:induction false} SessionsKeep(s: seq<Session>, config: Config, op: Op)
    requires op.Subscribe? || op.Unsubscribe? || op.Ping?
    ensures var s' := Step(s, config, op);
            && |s'| == |s|
            && forall i :: 0 <= i < |s| ==>
                 && s'[i].client == s[i].client
                 && s'[i].lastPing == (if op.Ping? then op.now else s[i].lastPing)
                 && (op.Ping? || s[i].client != op.client ==> s'[i].symbols == s[i].symbols)
  {
  }

  lemma {:induction false} SameClients(s: seq<Session>, s': seq<Session>, c: int)
    requires |s'| == |s| && forall i :: 0 <= i < |s| ==> s'[i].client == s[i].client
    ensures FindSession(s', c) == FindSession(s, c)
  {
  }

  lemma {:induction false} SymbolsEffect(symbols: seq<string>, changed: string, symbol: string)
    requires DistinctSymbols(symbols)
    ensures var added := symbols + [changed];
            FindSymbol(added, symbol) < |added| <==> FindSymbol(symbols, symbol) < |symbols| || symbol == changed
    ensures var k := FindSymbol(symbols, changed);
            k < |symbols| ==>
              var removed := symbols[..k] + symbols[k + 1..];
              FindSymbol(removed, symbol) < |removed| <==> FindSymbol(symbols, symbol) < |symbols| && symbol != changed
  {
  }

  // ----- the object -----

  /** The loop that moves the symbols behind position `k` down by one. */
  method RemoveByShift(symbols: seq<string>, k: nat) returns (r: seq<string>)
    requires k < |symbols|
    ensures r == symbols[..k] + symbols[k + 1..]
  {
    r := symbols;
    var n := |symbols|;
    for j := k to n - 1
      invariant |r| == n
      invariant r == symbols[..k] + symbols[k + 1..j + 1] + symbols[j..]
    {
      assert r[j + 1] == symbols[j + 1];
      r := r[j := r[j + 1]];
    }
    r := r[..n - 1];
  }

  /** The list with the timed-out sessions from position `i` on left out. */
  ghost function LiveFrom(s: seq<Session>, i: nat, now: int, timeoutMs: int): (r: seq<Session>)
    requires i <= |s|
    ensures i == |s| ==> r == s
    ensures i == 0 ==> r == Live(s, now, timeoutMs)
  {
    s[..i] + Live(s[i..], now, timeoutMs)
  }

  /** A timed-out session can be cut out, a live one passed. */
  lemma {:induction false} LiveFromNext(s: seq<Session>, i: nat, now: int, timeoutMs: int)
    requires i < |s|
    ensures var next := if TimedOut(s[i], now, timeoutMs) then LiveFrom(s[..i] + s[i + 1..], i, now, timeoutMs)
                        else LiveFrom(s, i + 1, now, timeoutMs);
            LiveFrom(s, i, now, timeoutMs) == next
  {
    var cut := s[..i] + s[i + 1..];
    assert s[i..][1..] == s[i + 1..] == cut[i..] && cut[..i] == s[..i];
  }

  /** `found` are the subscribers among the first `i` sessions. */
  ghost predicate Listed(s: seq<Session>, symbol: string, i: nat, found: seq<int>)
    requires i <= |s|
  {
    Subscribers(s, symbol) == found + Subscribers(s[i..], symbol)
  }

  lemma {:induction false} ListedNext(s: seq<Session>, symbol: string, i: nat, found: seq<int>)
    requires i < |s| && Listed(s, symbol, i, found)
    ensures Listed(s, symbol, i + 1, if Subscribed(s[i], symbol) then found + [s[i].client] else found)
  {
    assert s[i..][1..] == s[i + 1..];
  }

  class SessionManager {
    const config: Config
    const sessions: LinkedList<Session>
    var sessionCount: int

    ghost predicate Valid()
      reads this, sessions, sessions.spine
    {
      sessions.Valid() && sessionCount == |View()| && Sound(View(), config)
    }

    ghost function View(): seq<Session>
      reads this, sessions, sessions.spine
    {
      sessions.Contents()
    }

    constructor (config: Config)
      requires config.maxSessions >= 0
      ensures Valid() && View() == [] && this.config == config
      ensures fresh(sessions)
    {
      this.config := config;
      sessions := new LinkedList();
      sessionCount := 0;
    }

    /** The walk down the list, to the session of the client or its end. */
    method Find(client: int) returns (session: Cell?<Session>, ghost i: nat)
      requires sessions.Valid()
      ensures i == FindSession(View(), client)
      ensures session == At(sessions.spine, FindSession(View(), client))
    {
      session, i := sessions.head, 0;
      while session != null && session.data.client != client
        invariant session == At(sessions.spine, i)
        invariant i <= FindSession(View(), client)
        decreases |sessions.spine| - i
      {
        session, i := session.next, i + 1;
      }
      assert session != null ==> View()[i] == session.data;
    }

    method Add(client: int, now: int) returns (status: int)
      requires Valid()
      modifies this, sessions
      ensures Valid() && View() == Step(old(View()), config, AddClient(client, now))
      ensures status == if View() == old(View()) then -1 else 0
      ensures status == 0 ==> View() == [Session(client, [], now)] + old(View())
      ensures forall c :: c in sessions.spine ==> c in old(sessions.spine) || fresh(c)
    {
      StepSound(View(), config, AddClient(client, now));
      if client == 0 || sessionCount >= config.maxSessions {
        return -1;
      }
      var session, _ := Find(client);
      if session != null {
        return -1;
      }
      sessions.Prepend(Session(client, [], now));
      sessionCount := sessionCount + 1;
      return 0;
    }

    method Remove(client: int) returns (status: int)
      requires Valid()
      modifies this, sessions, sessions.spine
      ensures Valid() && View() == Step(old(View()), config, RemoveClient(client))
      ensures status == if View() == old(View()) then -1 else 0
      ensures forall c :: c in sessions.spine ==> c in old(sessions.spine)
    {
      StepSound(View(), config, RemoveClient(client));
      if client == 0 {
        return -1;
      }
      status := UnlinkFirst(client);
    }

    /** Unlinks the first session of the client from the session before it, or from the head. */
    method UnlinkFirst(client: int) returns (status: int)
      requires sessions.Valid() && sessionCount == |View()|
      modifies this, sessions, sessions.spine
      ensures sessions.Valid() && sessionCount == |View()|
      ensures var s, i := old(View()), FindSession(old(View()), client);
              if i == |s| then status == -1 && View() == s else status == 0 && View() == s[..i] + s[i + 1..]
      ensures forall c :: c in sessions.spine ==> c in old(sessions.spine)
    {
      var prev: Cell?<Session>, curr := null, sessions.head;
      ghost var i := 0;
      while curr != null
        invariant 0 <= i <= |sessions.spine| && curr == At(sessions.spine, i) && prev == At(sessions.spine, i - 1)
        invariant i <= FindSession(View(), client)
        decreases |sessions.spine| - i
      {
        assert View()[i] == curr.data;
        if curr.data.client == client {
          sessions.Unlink(prev, curr, i);
          sessionCount := sessionCount - 1;
          return 0;
        }
        prev, curr, i := curr, curr.next, i + 1;
      }
      return -1;
    }

    /** -1 without a session or with a full one, even when the symbol is already there. */
    method SubscribeSymbol(client: int, symbol: string) returns (status: int)
      requires Valid()
      modifies sessions.spine
      ensures Valid() && View() == Step(old(View()), config, Subscribe(client, symbol))
      ensures var i := FindSession(old(View()), client);
              status == -1 <==> client == 0 || i == |old(View())| || |old(View())[i].symbols| >= MAX_SUBSCRIPTIONS
      ensures status == 0 ==> IsSubscribed(View(), client, symbol)
    {
      ghost var after := Step(View(), config, Subscribe(client, symbol));
      StepSound(View(), config, Subscribe(client, symbol));
      SubscriptionEffect(View(), config, Subscribe(client, symbol), client, symbol);
      if client == 0 {
        return -1;
      }
      var session, i := Find(client);
      if session == null || |session.data.symbols| >= MAX_SUBSCRIPTIONS {
        return -1;
      }
      var symbols := session.data.symbols;
      if Subscribed(session.data, symbol) {
        return 0;
      }
      sessions.Replace(session, session.data.(symbols := symbols + [symbol]), i);
      assert View() == after;
      return 0;
    }

    method UnsubscribeSymbol(client: int, symbol: string) returns (status: int)
      requires Valid()
      modifies sessions.spine
      ensures Valid() && View() == Step(old(View()), config, Unsubscribe(client, symbol))
      ensures status == 0 <==> IsSubscribed(old(View()), client, symbol)
      ensures !IsSubscribed(View(), client, symbol)
    {
      StepSound(View(), config, Unsubscribe(client, symbol));
      SubscriptionEffect(View(), config, Unsubscribe(client, symbol), client, symbol);
      if client == 0 {
        return -1;
      }
      status := TakeSymbol(client, symbol);
    }

    /** Takes the symbol out of the client's session by moving the later ones down. */
    method TakeSymbol(client: int, symbol: string) returns (status: int)
      requires sessions.Valid() && client != 0
      modifies sessions.spine
      ensures sessions.Valid() && View() == Step(old(View()), config, Unsubscribe(client, symbol))
      ensures status == 0 <==> IsSubscribed(old(View()), client, symbol)
    {
      var session, i := Find(client);
      if session == null {
        return -1;
      }
      var k := FindSymbol(session.data.symbols, symbol);
      if k == |session.data.symbols| {
        return -1;
      }
      var symbols := RemoveByShift(session.data.symbols, k);
      sessions.Replace(session, session.data.(symbols := symbols), i);
      return 0;
    }

    /** Removes every timed-out session. */
    method CleanupSessions(now: int)
      requires Valid()
      modifies this, sessions, sessions.spine
      ensures Valid() && View() == Step(old(View()), config, Cleanup(now))
      ensures forall c :: c in sessions.spine ==> c in old(sessions.spine)
    {
      StepSound(View(), config, Cleanup(now));
      UnlinkTimedOut(now);
    }

    /** The pass down the list, which unlinks a session from the last one that was kept, or from the head. */
    method UnlinkTimedOut(now: int)
      requires sessions.Valid() && sessionCount == |View()|
      modifies this, sessions, sessions.spine
      ensures sessions.Valid() && sessionCount == |View()|
      ensures View() == Live(old(View()), now, config.timeoutMs)
      ensures forall c :: c in sessions.spine ==> c in old(sessions.spine)
    {
      ghost var live := Live(View(), now, config.timeoutMs);
      var prev: Cell?<Session>, curr := null, sessions.head;
      ghost var i := 0;
      while curr != null
        invariant sessions.Valid() && sessionCount == |View()|
        invariant 0 <= i <= |sessions.spine| && curr == At(sessions.spine, i) && prev == At(sessions.spine, i - 1)
        invariant LiveFrom(View(), i, now, config.timeoutMs) == live
        invariant forall c :: c in sessions.spine ==> c in old(sessions.spine)
        decreases |sessions.spine| - i
      {
        LiveFromNext(View(), i, now, config.timeoutMs);
        if TimedOut(curr.data, now, config.timeoutMs) {
          var next := curr.next;
          assert prev == null || prev in sessions.spine;
          sessions.Unlink(prev, curr, i);
          sessionCount := sessionCount - 1;
          curr := next;
        } else {
          prev, curr, i := curr, curr.next, i + 1;
        }
      }
    }

    /** Sets every session's ping time. */
    method PingClients(now: int)
      requires Valid()
      modifies sessions.spine
      ensures Valid() && View() == Step(old(View()), config, Ping(now))
    {
      StepSound(View(), config, Ping(now));
      SetPingTimes(now);
    }

    method SetPingTimes(now: int)
      requires sessions.Valid()
      modifies sessions.spine
      ensures sessions.Valid() && |View()| == old(|View()|)
      ensures forall i :: 0 <= i < |View()| ==> View()[i] == old(View())[i].(lastPing := now)
    {
      var session := sessions.head;
      ghost var i := 0;
      while session != null
        invariant sessions.Valid() && 0 <= i <= |sessions.spine| && session == At(sessions.spine, i)
        invariant forall k :: 0 <= k < i ==> View()[k] == old(View())[k].(lastPing := now)
        invariant forall k :: i <= k < |View()| ==> View()[k] == old(View())[k]
        decreases |sessions.spine| - i
      {
        assert session.data == View()[i];
        sessions.Replace(session, session.data.(lastPing := now), i);
        session, i := session.next, i + 1;
      }
    }

    /** Fills `clients` with the subscribers of a symbol, as many as fit. */
    method GetSubscribers(symbol: string, clients: array<int>) returns (count: int)
      requires sessions.Valid()
      modifies clients
      ensures if clients.Length == 0 then count == -1
              else
                var subscribers := Subscribers(View(), symbol);
                && count == (if |subscribers| < clients.Length then |subscribers| else clients.Length)
                && clients[..count] == subscribers[..count]
    {
      if clients.Length == 0 {
        return -1;
      }
      count := 0;
      var session := sessions.head;
      ghost var all, i, found: seq<int> := View(), 0, [];
      while session != null && count < clients.Length
        invariant View() == all
        invariant 0 <= i <= |all| && session == At(sessions.spine, i)
        invariant count == |found| <= clients.Length && clients[..count] == found
        invariant Listed(all, symbol, i, found)
        decreases |all| - i
      {
        ListedNext(all, symbol, i, found);
        var x, next := session.data, session.next;
        assert x == all[i] && next == At(sessions.spine, i + 1);
        if Subscribed(x, symbol) {
          clients[count] := x.client;
          count, found := count + 1, found + [x.client];
        }
        session, i := next, i + 1;
      }
    }
  }
}
