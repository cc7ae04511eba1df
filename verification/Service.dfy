/** A client's session with a server whose cache is the file cache: what each call reports, from the calls themselves
    and from what others did to the cache between them. */
module Service {
  import opened Keys
  import opened Items
  import opened FileSystem
  import opened PlainMap
  import opened FileCaches
  import opened Wire
  import opened Dialogue
  import opened Session
  import Client
  import Overlap
  import Trees

  /** How the server words the errors it sends. */
  datatype Texts = Texts(notFound: seq<byte>, notSet: SetError -> seq<byte>, badKey: KeyError -> seq<byte>)

  // ---------------------------------------------------------------- the server's side

  /** The cache operation that a request is handled with. */
  function Handled(m: Msg): Option<Op> {
    if m.kind == GET then Some(GetOp(m.key))
    else if m.kind == SET then Some(SetOp(m.key, m.value, m.ttl))
    else if m.kind == DELETE then Some(DeleteOp(m.key))
    else if m.kind == CLEAR then Some(ClearOp)
    else if m.kind == HAS then Some(HasOp(m.key))
    else None
  }

  /** The handler of m passes on what the cache answered. */
  ghost predicate Conveys(a: Answers, m: Msg, r: Answer, texts: Texts) {
    match r
    case Got(Hit(value, ttl)) => a.got.Good? && a.got.value.0 == value && a.got.value.1 == ttl
    case Got(_) => a.got == Bad(texts.notFound)
    case Stored(_, err) => a.stored == if err.None? then Good(()) else Bad(texts.notSet(err.value))
    case Deletion(BadKey(e)) => a.deleted == Bad(texts.badKey(e))
    case Deletion(_) => a.deleted == Good(())
    case Cleared(_) => a.cleared == Good(())
    case Had(_, has) => a.present == has
    case Swept(_) => true
  }

  /** All that was set came over the wire: a ttl of 64 bits. */
  ghost predicate Carried(h: seq<Event>) {
    forall i :: 0 <= i < |h| && h[i].Set? ==> h[i].ttl <= MAX
  }

  /** What is left of a ttl fits into a message. */
  lemma HitFits(h: seq<Event>, k: Key, now: int, start: int, interval: int)
    requires WellTimed(h, start) && Clock(h, start) <= now && interval > 0 && Carried(h)
    ensures var r := PlainAnswer(h + [Read(k, now)], k, start, interval);
            r.Hit? ==> 0 < r.ttl <= MAX
  {
    hide Run, Spent, LateSince;
    var h' := h + [Read(k, now)];
    Snoc(h, Read(k, now), start, interval);
    AlwaysAccounted(h', k, start, interval);
    if k in Run(h', start, interval).entries {
      var n := LiveEverSince(h', k, start, interval);
      assert h'[n] == h[n];
    }
  }

  lemma ReadFits(cache: FileCache, k: Key, now: int)
    requires cache.Valid() && Clock(cache.history, cache.start) <= now && Carried(cache.history)
    ensures var r := PlainAnswer(cache.history + [Read(k, now)], k, cache.start, cache.cleanupInterval);
            r.Hit? ==> 0 < r.ttl <= MAX
  {
    hide Run, Clock, PlainAnswer, Counters, Trees.BST, Trees.Rep;
    HitFits(cache.history, k, now, cache.start, cache.cleanupInterval);
  }

  /** One request, handled on the file cache itself. */
  method Consult(cache: FileCache, m: Msg, texts: Texts, now: int) returns (a: Answers, ended: bool)
    requires cache.Valid() && Clock(cache.history, cache.start) <= now && Carried(cache.history) && Handled(m).Some?
    modifies cache, cache.cache, Trees.Nodes(cache.cache.tree), Trees.Elems(cache.cache.tree)
    ensures cache.Valid() && (!ended ==> Carried(cache.history))
    ensures fresh(Trees.Nodes(cache.cache.tree) - old(Trees.Nodes(cache.cache.tree)))
    ensures fresh(Trees.Elems(cache.cache.tree) - old(Trees.Elems(cache.cache.tree)))
    ensures ended <==> Ends(Handled(m).value, old(cache.View()))
    ensures !ended ==>
              var t := Timed(Handled(m).value, now);
              && cache.history == old(cache.history) + (if EventOf(t).Some? then [EventOf(t).value] else [])
              && cache.View() == Overlap.DoAll(old(cache.View()), ActsOf(t), cache.dir, cache.cleanupInterval)
              && Conveys(a, m, Expected(t, old(cache.View()), cache.history, cache.start, cache.cleanupInterval), texts)
  {
    hide Run, Clock, FileCache.Valid, FileCache.View, Ends, Overlap.DoAll, ActsOf, PlainAnswer, CheckKey;
    var t := Timed(Handled(m).value, now);
    ReadFits(cache, m.key, now);
    var r, over := Perform(cache, t);
    ended := over;
    a := Answers(Bad([]), Good(()), Good(()), Good(()), false, []);
    if ended {
      return;
    }
    match r {
      case Got(Hit(value, ttl)) => a := a.(got := Good((value, ttl)));
      case Got(_) => a := a.(got := Bad(texts.notFound));
      case Stored(_, err) => a := a.(stored := if err.None? then Good(()) else Bad(texts.notSet(err.value)));
      case Deletion(BadKey(e)) => a := a.(deleted := Bad(texts.badKey(e)));
      case Deletion(_) =>
      case Cleared(_) =>
      case Had(_, has) => a := a.(present := has);
      case Swept(_) =>
    }
  }

  // ---------------------------------------------------------------- a session, and what it does to the cache

  /** A call of the client, and what others did to the cache since the call before: sweeps, and operations on
      other connections. */
  datatype Moment = Moment(others: seq<Timed>, call: Client.Call, now: int)

  /** The operation a call asks for, if its key is not refused. */
  function Meant(c: Client.Call): Option<Op> {
    match c
    case Get(k) => if CheckKey(k).None? then Some(GetOp(k)) else None
    case Has(k, _) => if CheckKey(k).None? then Some(HasOp(k)) else None
    case Set(k, value, ttl) => if CheckKey(k).None? then Some(SetOp(k, value, ttl)) else None
    case Delete(k) => if CheckKey(k).None? then Some(DeleteOp(k)) else None
    case Clear => Some(ClearOp)
    case Keys => None
    case Ping => None
  }

  /** All operations on the cache, in order. */
  function Log(ms: seq<Moment>): seq<Timed> {
    if ms == [] then []
    else
      var last := ms[|ms| - 1];
      Log(ms[..|ms| - 1]) + last.others
      + if Meant(last.call).Some? then [Timed(Meant(last.call).value, last.now)] else []
  }

  /** The operations before the i-th call. */
  function Before(ms: seq<Moment>, i: nat): seq<Timed>
    requires i < |ms|
  {
    Log(ms[..i]) + ms[i].others
  }

  /** What the cache answers to an operation made after ops. */
  ghost function AnswerTo(c: Setup, ops: seq<Timed>, op: Op, now: int): Answer {
    Predicted(c, ops + [Timed(op, now)], |ops|)
  }

  /** The cache behind every turn is the file cache as it is then: it answers any request with a valid key as the file
      cache does after the operations before the call. */
  ghost predicate Backed(session: seq<Client.Turn>, c: Setup, ms: seq<Moment>, texts: Texts) {
    && |session| == |ms|
    && forall i, m: Msg :: 0 <= i < |ms| && Handled(m).Some? && (m.kind == CLEAR || CheckKey(m.key).None?) ==>
         Conveys(session[i].cache(m), m, AnswerTo(c, Before(ms, i), Handled(m).value, ms[i].now), texts)
  }

  /** What a call should report, from what the cache answers to the operation it asks for. Has reports
      yes whatever the answer; Keys and Ping ask for none of these. */
  ghost predicate Reports(r: Client.Result, c: Client.Call, a: Answer, texts: Texts) {
    match c
    case Get(_) =>
      (match a
       case Got(Hit(value, ttl)) => r.Item? && r.value == value && r.ttl == ttl
       case _ => r == Client.ServerError(texts.notFound))
    case Set(_, _, _) =>
      a.Stored? && r == if a.err.None? then Client.Ok else Client.ServerError(texts.notSet(a.err.value))
    case Has(_, accepts) =>
      a.Had? && r == if accepts(Ascii(if a.has then "true" else "false")) then Client.Yes else Client.Undecoded
    case Delete(_) => r == Client.Ok
    case Clear => r == Client.Ok
    case Keys => true
    case Ping => true
  }

  /** The call's own answer, passed on by its request and its reply, is the one to the operation it names. */
  lemma CallTold(t: Client.Turn, c: Setup, ops: seq<Timed>, now: int, texts: Texts)
    requires Meant(t.call).Some?
    requires forall m: Msg :: Handled(m).Some? && (m.kind == CLEAR || CheckKey(m.key).None?) ==>
               Conveys(t.cache(m), m, AnswerTo(c, ops, Handled(m).value, now), texts)
    ensures Reports(Client.Told(t), t.call, AnswerTo(c, ops, Meant(t.call).value, now), texts)
  {
    hide CheckKey, Seen, Recorded, PlainAnswer, Ascii, FormatBool;
    var m := Client.Request(t.call).value;
    assert Handled(m) == Meant(t.call) && (m.kind == CLEAR || CheckKey(m.key).None?);
    assert Conveys(t.cache(m), m, AnswerTo(c, ops, Handled(m).value, now), texts);
    var a := AnswerTo(c, ops, Meant(t.call).value, now);
    assert (ops + [Timed(Meant(t.call).value, now)])[|ops|] == Timed(Meant(t.call).value, now);
    FormatsBool(t.cache(m).present);
  }

  /** A session on one connection with a server whose cache is the file cache. The calls may be any but a Ping or a Has
      that does not decode, and others may do anything to the cache in between. Every call reports what the file
      cache answers, after all operations before it, to the operation that the call names. */
  method ConverseWithCache(conn: Conn, session: seq<Client.Turn>, ghost c: Setup, ghost ms: seq<Moment>,
                           ghost texts: Texts)
    returns (results: seq<Client.Result>)
    requires conn.Holds([]) && Client.NoneLeavesEnd(session)
    requires forall i :: 0 <= i < |session| ==> Client.CallFits(session[i].call, session[i].cache)
    requires Backed(session, c, ms, texts) && forall i :: 0 <= i < |ms| ==> session[i].call == ms[i].call
    modifies conn.toServer, conn.toClient
    ensures conn.Holds([]) && |results| == |ms|
    ensures forall i :: 0 <= i < |ms| ==>
              if Meant(ms[i].call).Some? then
                Reports(results[i], ms[i].call, AnswerTo(c, Before(ms, i), Meant(ms[i].call).value, ms[i].now), texts)
              else Client.Takes(ms[i].call) ==>
                CheckKey(ms[i].call.key).Some? && results[i] == Client.RefusedKey(CheckKey(ms[i].call.key).value)
  {
    hide Conveys, Reports, AnswerTo, CheckKey, Client.Direct, Client.Outcome, Client.Pending, Client.Reported,
      Client.CallFits, Client.NoneLeavesEnd;
    results := Client.Converse(conn, session);
    forall i | 0 <= i < |ms| && Meant(ms[i].call).Some?
      ensures Reports(results[i], ms[i].call, AnswerTo(c, Before(ms, i), Meant(ms[i].call).value, ms[i].now), texts) {
      CallTold(session[i], c, Before(ms, i), ms[i].now, texts);
    }
  }

  /** For instance: a Get directly after a Set of the same key reports that Set's bytes, with what is left of its ttl
      since the last sweep, and reports nothing exactly if nothing is left. */
  lemma SetThenGet(c: Setup, ms: seq<Moment>, i: nat, k: Key, value: seq<byte>, ttl: int64)
    requires 0 < i < |ms| && c.interval > 0 && IsFileKey(k) && ttl > SECOND
    requires ms[i - 1].call == Client.Set(k, value, ttl) && ms[i].others == []
    requires Chronological(Before(ms, i) + [Timed(GetOp(k), ms[i].now)], c.start)
    ensures var elapsed := ms[i].now - LastTick(Recorded(Before(ms, i - 1)), c.start);
            AnswerTo(c, Before(ms, i), GetOp(k), ms[i].now) ==
            Got(if elapsed < ttl then Hit(value, ttl - elapsed) else NotFound)
  {
    hide CheckKey, Seen, PlainAnswer, Run, Spent, LastTick, Recorded, Predicted, Chronological;
    var pre, t := Before(ms, i - 1), Timed(SetOp(k, value, ttl), ms[i - 1].now);
    var ops, now := Before(ms, i), ms[i].now;
    assert ms[..i][..i - 1] == ms[..i - 1] && ops == pre + [t];
    assert ops[..|ops| - 1] == pre;
    GetTellsLatest(c, ops, k, now);
    RecordedLast(ops);
    SpentSetRead(Recorded(pre), EventOf(t).value, k, now, c.start, c.interval);
  }
}
