/** The client's calls on one connection, and whole sessions of them. */
module Client {
  import opened Keys
  import Trees
  import opened Wire
  import opened KeyList
  import opened Dialogue
  import opened FileCaches

  /** `accepts` says which texts the client's serializer decodes as a bool. */
  datatype Call =
    | Get(key: Key)
    | Has(key: Key, accepts: seq<byte> -> bool)
    | Set(key: Key, value: seq<byte>, ttl: int64)
    | Delete(key: Key)
    | Clear
    | Keys
    | Ping

  datatype Result =
    | Ok
    | Item(value: seq<byte>, ttl: int64)
    | Listed(keys: seq<Key>)
    | RefusedKey(error: KeyError)
    | ServerError(text: seq<byte>)
    | Unexpected(kind: int8)
    | Undecoded
    | Yes

  predicate Takes(c: Call) {
    c.Get? || c.Has? || c.Set? || c.Delete?
  }

  /** The request a call sends; none if its key is refused. */
  function Request(c: Call): Option<Msg> {
    if Takes(c) && CheckKey(c.key).Some? then None
    else
      match c
      case Get(k) => Some(Msg(GET, 0, k, []))
      case Has(k, _) => Some(Msg(HAS, 0, k, []))
      case Set(k, v, ttl) => Some(Msg(SET, ttl, k, v))
      case Delete(k) => Some(Msg(DELETE, 0, k, []))
      case Clear => Some(Msg(CLEAR, 0, [], []))
      case Keys => Some(Msg(KEYS, 0, [], []))
      case Ping => Some(Msg(PING, 0, [], []))
  }

  // ---------------------------------------------------------------- what a call makes of the messages waiting

  /** `listenForEnd`: the result, and how many messages of q it has read. */
  function Listen(q: seq<Msg>): Result
    requires q != []
  {
    if q[0].kind == ERROR then ServerError(q[0].value)
    else if q[0].kind != END then Unexpected(q[0].kind)
    else Ok
  }

  /** A reply after which the call waits for an END. With an error nothing follows; and Has does not wait
      when its text does not decode. */
  predicate EndFollows(c: Call, m: Msg) {
    match c
    case Get(_) => m.kind == GET
    case Has(_, accepts) => m.kind == HAS && accepts(m.value)
    case Keys => m.kind != ERROR
    case _ => false
  }

  /** How many of the messages waiting, its own replies last, a call reads. */
  ghost function ReadCount(c: Call, q: seq<Msg>): nat
    requires q != []
  {
    if EndFollows(c, q[0]) then 2 else 1
  }

  /** What a call returns, from the messages waiting for it. */
  ghost function Outcome(c: Call, q: seq<Msg>): Result
    requires q != [] && ReadCount(c, q) <= |q|
  {
    match c
    case Ping => if q[0].kind == PONG then Ok else Unexpected(PING)
    case Get(_) =>
      if q[0].kind == ERROR then ServerError(q[0].value)
      else if q[0].kind != GET then Unexpected(q[0].kind)
      else if Listen(q[1..]) != Ok then Listen(q[1..])
      else Item(q[0].value, q[0].ttl)
    case Has(_, accepts) =>
      // the decoded answer itself is not looked at
      if q[0].kind == ERROR then ServerError(q[0].value)
      else if q[0].kind != HAS then Unexpected(q[0].kind)
      else if !accepts(q[0].value) then Undecoded
      else if Listen(q[1..]) != Ok then Listen(q[1..])
      else Yes
    case Keys =>
      if q[0].kind == ERROR then ServerError(q[0].value)
      else if Listen(q[1..]) != Ok then Listen(q[1..])
      else Listed(Parsed(q[0].value))
    case _ => Listen(q)
  }

  /** Messages that can be left over: nothing, or something that ends in END or ERROR. */
  ghost predicate Ended(q: seq<Msg>) {
    q == [] || q[|q| - 1].kind == END || q[|q| - 1].kind == ERROR
  }

  /** Calls that leave the END of their own reply unread. */
  predicate LeavesEnd(c: Call, a: Answers) {
    c.Ping? || (c.Has? && IsValidKey(c.key) && !c.accepts(FormatBool(a.present)))
  }

  /** The replies to a call: what it reads of them on a connection in step. */
  lemma ReplyEnds(c: Call, a: Answers)
    requires Request(c).Some?
    ensures var r := Replies(Request(c).value, a);
            && 1 <= |r| <= 2 && (c.Keys? ==> |r| == 2)
            && Ended(r) && ReadCount(c, r) == if LeavesEnd(c, a) then |r| - 1 else |r|
  {
    hide JoinKeys, CheckKey, FormatBool;
  }

  lemma EnoughToRead(c: Call, pending: seq<Msg>, a: Answers)
    requires Request(c).Some? && Ended(pending)
    ensures var q := pending + Replies(Request(c).value, a);
            && q != [] && ReadCount(c, q) <= |q| && Ended(q[ReadCount(c, q)..])
            && (pending != [] || LeavesEnd(c, a) ==> ReadCount(c, q) < |q|)
            && (pending == [] && !LeavesEnd(c, a) ==> ReadCount(c, q) == |q|)
  {
    hide Replies, Request, LeavesEnd;
    var r := Replies(Request(c).value, a);
    ReplyEnds(c, a);
    if pending == [] {
      assert pending + r == r;
    } else {
      assert (pending + r)[0] == pending[0];
    }
  }

  // ---------------------------------------------------------------- sessions

  /** A call, and what the cache would answer to any request at that point. */
  datatype Turn = Turn(call: Call, cache: Backend)

  /** What the cache answers to the call's own request. */
  function Asked(t: Turn): Answers
    requires Request(t.call).Some?
  {
    t.cache(Request(t.call).value)
  }

  /** The messages left unread after a session. */
  ghost function Pending(session: seq<Turn>): (q: seq<Msg>)
    ensures Ended(q)
  {
    if session == [] then []
    else
      var before, t := Pending(session[..|session| - 1]), session[|session| - 1];
      if Request(t.call).None? then before
      else
        EnoughToRead(t.call, before, Asked(t));
        var q := before + Replies(Request(t.call).value, Asked(t));
        q[ReadCount(t.call, q)..]
  }

  ghost predicate NoneLeavesEnd(session: seq<Turn>) {
    forall i :: 0 <= i < |session| && Request(session[i].call).Some? ==>
      !LeavesEnd(session[i].call, Asked(session[i]))
  }

  lemma NoneLeavesEndLast(session: seq<Turn>)
    requires session != []
    ensures var last := session[|session| - 1];
            NoneLeavesEnd(session) <==>
            && NoneLeavesEnd(session[..|session| - 1])
            && (Request(last.call).Some? ==> !LeavesEnd(last.call, Asked(last)))
  {
  }

  /** A session leaves nothing unread exactly when it has no Ping and no Has whose answer does not decode: after one of
      these the connection stays out of step. */
  lemma {:induction false} InStepIff(session: seq<Turn>)
    ensures Pending(session) == [] <==> NoneLeavesEnd(session)
  {
    if session == [] {
    } else {
      hide Replies, ReadCount, Ended, CheckKey, NoneLeavesEnd;
      var before, t := session[..|session| - 1], session[|session| - 1];
      NoneLeavesEndLast(session);
      InStepIff(before);
      if Request(t.call).Some? {
        EnoughToRead(t.call, Pending(before), Asked(t));
      }
    }
  }

  /** What the cache itself answered, as the call should report it. */
  ghost function Direct(c: Call, a: Answers): Result {
    if Takes(c) && CheckKey(c.key).Some? then RefusedKey(CheckKey(c.key).value)
    else
      match c
      case Get(_) => (match a.got case Good((v, ttl)) => Item(v, ttl) case Bad(text) => ServerError(text))
      case Set(_, _, _) => (match a.stored case Good(_) => Ok case Bad(text) => ServerError(text))
      case Delete(_) => (match a.deleted case Good(_) => Ok case Bad(text) => ServerError(text))
      case Clear => (match a.cleared case Good(_) => Ok case Bad(text) => ServerError(text))
      case Has(_, accepts) => if accepts(FormatBool(a.present)) then Yes else Undecoded
      case Keys => Listed(Parsed(JoinKeys(a.keys)))
      case Ping => Ok
  }

  /** With nothing left unread before it, every call reports the cache's answer to its own request. */
  lemma OwnAnswer(c: Call, a: Answers)
    requires Request(c).Some?
    ensures var q := Replies(Request(c).value, a);
            && q != [] && ReadCount(c, q) <= |q| && Outcome(c, q) == Direct(c, a)
            && q[ReadCount(c, q)..] == if LeavesEnd(c, a) then [END_MESSAGE] else []
  {
  }

  /** One END left by a Ping is enough for a call to report success for a request the cache refused. */
  lemma StaleEnd(k: Key, text: seq<byte>, cache: Backend)
    requires IsValidKey(k) && cache(Msg(DELETE, 0, k, [])).deleted == Bad(text)
    ensures Pending([Turn(Ping, cache)]) == [END_MESSAGE]
    ensures var a := cache(Msg(DELETE, 0, k, []));
            var q := [END_MESSAGE] + Replies(Msg(DELETE, 0, k, []), a);
            Outcome(Delete(k), q) == Ok && Direct(Delete(k), a) == ServerError(text) && q[1..] == [ErrorMsg(text)]
  {
    var turn := Turn(Ping, cache);
    assert [turn][..0] == [];
    assert [] + Replies(Msg(PING, 0, [], []), Asked(turn)) == [Msg(PONG, 0, [], []), END_MESSAGE];
  }

  // ---------------------------------------------------------------- the calls themselves

  /** Sends a request; the server answers it while the client waits. */
  method Ask(conn: Conn, message: Message, cache: Backend, ghost pending: seq<Msg>)
    requires conn.Holds(pending) && Fits(message.Abs()) && AllFit(Replies(message.Abs(), cache(message.Abs())))
    modifies conn.toServer, conn.toClient
    ensures conn.Holds(pending + Replies(message.Abs(), cache(message.Abs())))
    ensures message.Abs() == old(message.Abs())
  {
    hide Encode, Decode, EncodeAll, Replies;
    ghost var req := message.Abs();
    var _ := message.WriteTo(conn.toServer);
    RoundTrip(req, []);
    assert conn.toServer.data == Encode(req) + [];
    EncodeAllConcat(pending, Replies(req, cache(req)));
    var _ := Serve(conn, cache);
  }

  /** Reads the next message waiting. */
  method Next(conn: Conn, message: Message, ghost q: seq<Msg>)
    requires conn.Holds(q) && q != []
    modifies message, conn.toClient
    ensures message.Abs() == q[0] && conn.Holds(q[1..])
  {
    hide Encode, Decode;
    assert q[0] in q && AllFit(q[1..]);
    RoundTrip(q[0], EncodeAll(q[1..]));
    var _ := message.ReadFrom(conn.toClient);
  }

  method ListenForEnd(conn: Conn, ghost q: seq<Msg>) returns (r: Result)
    requires conn.Holds(q) && q != []
    modifies conn.toClient
    ensures r == Listen(q) && conn.Holds(q[1..])
  {
    hide EncodeAll;
    var message := new Message(0, 0, [], []);
    Next(conn, message, q);
    if message.Type == ERROR {
      return ServerError(message.Value);
    } else if message.Type != END {
      return Unexpected(message.Type);
    }
    return Ok;
  }

  /** The state of the connection and the messages after a call. */
  ghost predicate Done(conn: Conn, c: Call, a: Answers, pending: seq<Msg>, r: Result)
    requires Request(c).Some? && Ended(pending)
    reads conn.toServer, conn.toClient
  {
    EnoughToRead(c, pending, a);
    var q := pending + Replies(Request(c).value, a);
    r == Outcome(c, q) && conn.Holds(q[ReadCount(c, q)..])
  }

  /** A call fits when its request and the replies to it do. */
  ghost predicate CallFits(c: Call, cache: Backend) {
    Request(c).Some? ==> Fits(Request(c).value) && AllFit(Replies(Request(c).value, cache(Request(c).value)))
  }

  method DoGet(conn: Conn, key: Key, cache: Backend, ghost pending: seq<Msg>) returns (r: Result)
    requires conn.Holds(pending) && Ended(pending) && CallFits(Get(key), cache)
    modifies conn.toServer, conn.toClient
    ensures CheckKey(key).Some? ==> r == RefusedKey(CheckKey(key).value) && conn.Holds(pending)
    ensures CheckKey(key).None? ==>
              && Request(Get(key)) == Some(Msg(GET, 0, key, []))
              && Done(conn, Get(key), cache(Msg(GET, 0, key, [])), pending, r)
  {
    hide EncodeAll, Replies, CheckKey, AllFit, JoinKeys;
    if CheckKey(key).Some? {
      return RefusedKey(CheckKey(key).value);
    }
    ghost var q := pending + Replies(Msg(GET, 0, key, []), cache(Msg(GET, 0, key, [])));
    EnoughToRead(Get(key), pending, cache(Msg(GET, 0, key, [])));
    var message := new Message(GET, 0, key, []);
    Ask(conn, message, cache, pending);
    Next(conn, message, q);
    if message.Type == ERROR {
      return ServerError(message.Value);
    } else if message.Type != GET {
      return Unexpected(message.Type);
    }
    var end := ListenForEnd(conn, q[1..]);
    assert q[1..][1..] == q[2..];
    if end != Ok {
      return end;
    }
    return Item(message.Value, message.TTL);
  }

  /** Has says yes to whatever answer decodes. */
  method DoHas(conn: Conn, key: Key, accepts: seq<byte> -> bool, cache: Backend, ghost pending: seq<Msg>)
    returns (r: Result)
    requires conn.Holds(pending) && Ended(pending) && CallFits(Has(key, accepts), cache)
    modifies conn.toServer, conn.toClient
    ensures CheckKey(key).Some? ==> r == RefusedKey(CheckKey(key).value) && conn.Holds(pending)
    ensures CheckKey(key).None? ==>
              && Request(Has(key, accepts)) == Some(Msg(HAS, 0, key, []))
              && Done(conn, Has(key, accepts), cache(Msg(HAS, 0, key, [])), pending, r)
  {
    hide EncodeAll, Replies, CheckKey, AllFit, JoinKeys;
    if CheckKey(key).Some? {
      return RefusedKey(CheckKey(key).value);
    }
    ghost var q := pending + Replies(Msg(HAS, 0, key, []), cache(Msg(HAS, 0, key, [])));
    EnoughToRead(Has(key, accepts), pending, cache(Msg(HAS, 0, key, [])));
    var message := new Message(HAS, 0, key, []);
    Ask(conn, message, cache, pending);
    Next(conn, message, q);
    if message.Type == ERROR {
      return ServerError(message.Value);
    } else if message.Type != HAS {
      return Unexpected(message.Type);
    }
    if !accepts(message.Value) {
      return Undecoded;
    }
    var end := ListenForEnd(conn, q[1..]);
    assert q[1..][1..] == q[2..];
    if end != Ok {
      return end;
    }
    return Yes;
  }

  /** Set, Delete and Clear, once their key has been accepted: a request, and the wait for its END. */
  method Confirm(conn: Conn, message: Message, ghost c: Call, cache: Backend, ghost pending: seq<Msg>)
    returns (r: Result)
    requires conn.Holds(pending) && Ended(pending) && CallFits(c, cache)
    requires (c.Set? || c.Delete? || c.Clear?) && Request(c) == Some(message.Abs())
    modifies conn.toServer, conn.toClient
    ensures Done(conn, c, cache(old(message.Abs())), pending, r)
  {
    hide EncodeAll, Replies, CheckKey, AllFit, JoinKeys;
    ghost var req := message.Abs();
    EnoughToRead(c, pending, cache(req));
    Ask(conn, message, cache, pending);
    r := ListenForEnd(conn, pending + Replies(req, cache(req)));
  }

  method DoSet(conn: Conn, key: Key, value: seq<byte>, ttl: int64, cache: Backend, ghost pending: seq<Msg>)
    returns (r: Result)
    requires conn.Holds(pending) && Ended(pending) && CallFits(Set(key, value, ttl), cache)
    modifies conn.toServer, conn.toClient
    ensures CheckKey(key).Some? ==> r == RefusedKey(CheckKey(key).value) && conn.Holds(pending)
    ensures CheckKey(key).None? ==>
              && Request(Set(key, value, ttl)) == Some(Msg(SET, ttl, key, value))
              && Done(conn, Set(key, value, ttl), cache(Msg(SET, ttl, key, value)), pending, r)
  {
    if CheckKey(key).Some? {
      return RefusedKey(CheckKey(key).value);
    }
    var message := new Message(SET, ttl, key, value);
    r := Confirm(conn, message, Set(key, value, ttl), cache, pending);
  }

  method DoDelete(conn: Conn, key: Key, cache: Backend, ghost pending: seq<Msg>) returns (r: Result)
    requires conn.Holds(pending) && Ended(pending) && CallFits(Delete(key), cache)
    modifies conn.toServer, conn.toClient
    ensures CheckKey(key).Some? ==> r == RefusedKey(CheckKey(key).value) && conn.Holds(pending)
    ensures CheckKey(key).None? ==>
              && Request(Delete(key)) == Some(Msg(DELETE, 0, key, []))
              && Done(conn, Delete(key), cache(Msg(DELETE, 0, key, [])), pending, r)
  {
    if CheckKey(key).Some? {
      return RefusedKey(CheckKey(key).value);
    }
    var message := new Message(DELETE, 0, key, []);
    r := Confirm(conn, message, Delete(key), cache, pending);
  }

  method DoClear(conn: Conn, cache: Backend, ghost pending: seq<Msg>) returns (r: Result)
    requires conn.Holds(pending) && Ended(pending) && CallFits(Clear, cache)
    modifies conn.toServer, conn.toClient
    ensures Done(conn, Clear, cache(Msg(CLEAR, 0, [], [])), pending, r) && Request(Clear) == Some(Msg(CLEAR, 0, [], []))
  {
    var message := new Message(CLEAR, 0, [], []);
    r := Confirm(conn, message, Clear, cache, pending);
  }

  /** Keys does not look at the type of the reply, unless it is an error. */
  method DoKeys(conn: Conn, cache: Backend, ghost pending: seq<Msg>) returns (r: Result)
    requires conn.Holds(pending) && Ended(pending) && CallFits(Keys, cache)
    modifies conn.toServer, conn.toClient
    ensures Done(conn, Keys, cache(Msg(KEYS, 0, [], [])), pending, r) && Request(Keys) == Some(Msg(KEYS, 0, [], []))
  {
    hide EncodeAll, Replies, AllFit, JoinKeys, Parsed;
    ghost var q := pending + Replies(Msg(KEYS, 0, [], []), cache(Msg(KEYS, 0, [], [])));
    EnoughToRead(Keys, pending, cache(Msg(KEYS, 0, [], [])));
    var message := new Message(KEYS, 0, [], []);
    Ask(conn, message, cache, pending);
    Next(conn, message, q);
    if message.Type == ERROR {
      return ServerError(message.Value);
    }
    var end := ListenForEnd(conn, q[1..]);
    assert q[1..][1..] == q[2..];
    if end != Ok {
      return end;
    }
    var keys := ParseKeys(message.Value);
    return Listed(keys);
  }

  /** Ping does not wait for the END that follows the PONG. */
  method DoPing(conn: Conn, cache: Backend, ghost pending: seq<Msg>) returns (r: Result)
    requires conn.Holds(pending) && Ended(pending) && CallFits(Ping, cache)
    modifies conn.toServer, conn.toClient
    ensures Done(conn, Ping, cache(Msg(PING, 0, [], [])), pending, r) && Request(Ping) == Some(Msg(PING, 0, [], []))
  {
    hide EncodeAll, Replies, AllFit, JoinKeys;
    EnoughToRead(Ping, pending, cache(Msg(PING, 0, [], [])));
    var message := new Message(PING, 0, [], []);
    Ask(conn, message, cache, pending);
    var pong := new Message(0, 0, [], []);
    Next(conn, pong, pending + Replies(Msg(PING, 0, [], []), cache(Msg(PING, 0, [], []))));
    if pong.Type != PONG {
      return Unexpected(message.Type);
    }
    return Ok;
  }

  // ---------------------------------------------------------------- whole sessions on a connection

  /** One call of a session. */
  method Make(conn: Conn, t: Turn, ghost pending: seq<Msg>) returns (r: Result)
    requires conn.Holds(pending) && Ended(pending) && CallFits(t.call, t.cache)
    modifies conn.toServer, conn.toClient
    ensures Request(t.call).None? ==> r == RefusedKey(CheckKey(t.call.key).value) && conn.Holds(pending)
    ensures Request(t.call).Some? ==> Done(conn, t.call, Asked(t), pending, r)
  {
    hide Done, CheckKey;
    match t.call {
      case Get(k) => r := DoGet(conn, k, t.cache, pending);
      case Has(k, accepts) => r := DoHas(conn, k, accepts, t.cache, pending);
      case Set(k, v, ttl) => r := DoSet(conn, k, v, ttl, t.cache, pending);
      case Delete(k) => r := DoDelete(conn, k, t.cache, pending);
      case Clear => r := DoClear(conn, t.cache, pending);
      case Keys => r := DoKeys(conn, t.cache, pending);
      case Ping => r := DoPing(conn, t.cache, pending);
    }
  }

  /** What a call should report: a refused key, or what the cache answers to its own request. */
  ghost function Told(t: Turn): Result {
    if Takes(t.call) && CheckKey(t.call.key).Some? then RefusedKey(CheckKey(t.call.key).value)
    else Direct(t.call, Asked(t))
  }

  /** What every call of a session returns, from the messages that the calls before it left unread. */
  ghost function Reported(session: seq<Turn>, i: nat): Result
    requires i < |session|
  {
    var t, before := session[i], Pending(session[..i]);
    if Request(t.call).None? then RefusedKey(CheckKey(t.call.key).value)
    else
      EnoughToRead(t.call, before, Asked(t));
      Outcome(t.call, before + Replies(Request(t.call).value, Asked(t)))
  }

  lemma NothingPending()
    ensures Pending([]) == []
  {
  }

  /** The messages left after one more call, and its result. */
  lemma PendingNext(conn: Conn, session: seq<Turn>, n: nat, r: Result)
    requires n < |session|
    requires var t, before := session[n], Pending(session[..n]);
             && (Request(t.call).None? ==> r == RefusedKey(CheckKey(t.call.key).value) && conn.Holds(before))
             && (Request(t.call).Some? ==> Done(conn, t.call, Asked(t), before, r))
    ensures conn.Holds(Pending(session[..n + 1])) && r == Reported(session, n)
  {
    hide Outcome, Direct, Replies;
    assert session[..n + 1][..n] == session[..n];
  }

  /** What a connection holds is told by its bytes: nothing is left exactly when they are used up. */
  lemma HoldsOne(conn: Conn, q: seq<Msg>)
    requires conn.Holds(q)
    ensures conn.Holds([]) <==> q == []
  {
    if q != [] {
      assert q[0] in q;
      assert |EncodeAll(q)| >= |Encode(q[0])| > 0;
    }
  }

  lemma InStepReports(session: seq<Turn>, i: nat)
    requires i < |session| && NoneLeavesEnd(session)
    ensures Reported(session, i) == Told(session[i])
  {
    hide Outcome, Direct, Replies;
    InStepIff(session[..i]);
    var t := session[i];
    if Request(t.call).Some? {
      OwnAnswer(t.call, Asked(t));
      assert [] + Replies(Request(t.call).value, Asked(t)) == Replies(Request(t.call).value, Asked(t));
    }
  }

  /** A whole session on one connection, its calls one after the other. Whatever the cache answers, each call returns
      what Reported says and the messages left unread are those of Pending. Nothing is left exactly in a session
      without a Ping and without a Has that does not decode, and there every call reports the answer to its
      own request. */
  method Converse(conn: Conn, session: seq<Turn>) returns (results: seq<Result>)
    requires conn.Holds([]) && forall i :: 0 <= i < |session| ==> CallFits(session[i].call, session[i].cache)
    modifies conn.toServer, conn.toClient
    ensures |results| == |session| && conn.Holds(Pending(session))
    ensures forall i :: 0 <= i < |session| ==> results[i] == Reported(session, i)
    ensures conn.Holds([]) <==> NoneLeavesEnd(session)
    ensures NoneLeavesEnd(session) ==>
              forall i :: 0 <= i < |session| ==> results[i] == Told(session[i])
  {
    hide CallFits, Direct, Outcome, Pending, Reported, AllFit, EncodeAll, Ended, Done, CheckKey, NoneLeavesEnd;
    results := [];
    NothingPending();
    assert session[..|session|] == session;
    while |results| < |session|
      invariant |results| <= |session| && conn.Holds(Pending(session[..|results|]))
      invariant forall i :: 0 <= i < |results| ==> results[i] == Reported(session, i)
      decreases |session| - |results|
    {
      var n := |results|;
      var r := Make(conn, session[n], Pending(session[..n]));
      PendingNext(conn, session, n, r);
      results := results + [r];
    }
    InStepIff(session);
    HoldsOne(conn, Pending(session));
    if NoneLeavesEnd(session) {
      forall i | 0 <= i < |session| ensures Reported(session, i) == Told(session[i]) {
        InStepReports(session, i);
      }
    }
  }

  // ---------------------------------------------------------------- the key list, end to end

  lemma KeysAnswer(cache: Backend)
    requires |JoinKeys(cache(Msg(KEYS, 0, [], [])).keys)| <= MAX_ALLOC
    ensures CallFits(Keys, cache) && Request(Keys) == Some(Msg(KEYS, 0, [], []))
    ensures var a := cache(Msg(KEYS, 0, [], []));
            var q := Replies(Msg(KEYS, 0, [], []), a);
            && q != [] && ReadCount(Keys, q) <= |q| && q[ReadCount(Keys, q)..] == []
            && Outcome(Keys, q) == Listed(Parsed(JoinKeys(a.keys)))
  {
    OwnAnswer(Keys, cache(Msg(KEYS, 0, [], [])));
  }

  /** A KEYS exchange over a connection in step. */
  method ExchangeKeys(conn: Conn, cache: Backend) returns (r: Result)
    requires conn.Holds([]) && |JoinKeys(cache(Msg(KEYS, 0, [], [])).keys)| <= MAX_ALLOC
    modifies conn.toServer, conn.toClient
    ensures conn.Holds([]) && r == Listed(Parsed(JoinKeys(cache(Msg(KEYS, 0, [], [])).keys)))
  {
    hide JoinKeys, Parsed, Replies, CheckKey, Outcome, Direct, ReadCount;
    KeysAnswer(cache);
    r := DoKeys(conn, cache, []);
    ghost var replies := Replies(Msg(KEYS, 0, [], []), cache(Msg(KEYS, 0, [], [])));
    assert [] + replies == replies;
  }

  lemma TreeHeld(cache: FileCache)
    requires cache.Valid()
    ensures var t, n := cache.cache.tree, cache.cache.Length;
            var keys := KeysOf(Trees.InOrder(t));
            && n >= Trees.Size(t) && Increasing(keys)
            && Parsed(JoinKeys(keys + Blank(n - Trees.Size(t)))) == if t.Leaf? then [[]] else keys
  {
    hide Parsed, JoinKeys, Increasing, AllValid;
    var t, n := cache.cache.tree, cache.cache.Length;
    cache.TreeKeys();
    TreeArrives(t, n);
    ListArrives(KeysOf(Trees.InOrder(t)), n - Trees.Size(t));
    assert KeysOf(Trees.InOrder(t)) == [] <==> t.Leaf?;
  }

  /** From the file cache to the client: over a connection in step, Keys returns the tree's keys, in order, if there
      are any, and one empty key if there are none; the connection is in step again. */
  method ListKeys(cache: FileCache, conn: Conn, a: Answers) returns (r: Result)
    requires cache.Valid() && conn.Holds([])
    requires var t, n := cache.cache.tree, cache.cache.Length;
             |JoinKeys(KeysOf(Trees.InOrder(t)) + Blank(n - Trees.Size(t)))| <= MAX_ALLOC
    modifies cache`locked, conn.toServer, conn.toClient
    ensures conn.Holds([])
    ensures r == Listed(if cache.cache.tree.Leaf? then [[]] else KeysOf(Trees.InOrder(cache.cache.tree)))
    ensures Increasing(KeysOf(Trees.InOrder(cache.cache.tree)))
  {
    hide *;
    TreeHeld(cache);
    var keys := cache.Keys();
    r := ExchangeKeys(conn, _ => a.(keys := keys));
  }
}
