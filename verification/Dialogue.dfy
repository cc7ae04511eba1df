/** The dialogue on one connection: the server's loop and handlers, the client's calls, and what each leaves unread.
    The cache behind the server is any answers at all. Neither timeouts nor connection faults occur. */
module Dialogue {
  import opened Keys
  import opened Wire
  import opened KeyList

  // ---------------------------------------------------------------- the server's replies

  datatype CacheAnswer<T> = Good(value: T) | Bad(text: seq<byte>)

  /** What the cache would answer to each kind of request. */
  datatype Answers = Answers(
    got: CacheAnswer<(seq<byte>, int64)>,
    stored: CacheAnswer<()>,
    deleted: CacheAnswer<()>,
    cleared: CacheAnswer<()>,
    present: bool,
    keys: seq<Key>)

  /** A cache, as its answers to each request at some moment. */
  type Backend = Msg -> Answers

  const END_MESSAGE := Msg(END, 0, [], [])

  function ErrorMsg(text: seq<byte>): Msg {
    Msg(ERROR, 0, [], text)
  }

  /** `strconv.FormatBool`, in ASCII. */
  function FormatBool(b: bool): seq<byte> {
    if b then [116, 114, 117, 101] else [102, 97, 108, 115, 101]
  }

  /** The bytes of a text, one for each character. */
  function Ascii(text: string): seq<byte>
    requires forall i :: 0 <= i < |text| ==> text[i] < 256 as char
  {
    seq(|text|, i requires 0 <= i < |text| => text[i] as int)
  }

  function EndOrError<T>(a: CacheAnswer<T>): seq<Msg> {
    match a
    case Good(_) => [END_MESSAGE]
    case Bad(text) => [ErrorMsg(text)]
  }

  /** The messages one request is answered with. */
  function Replies(req: Msg, a: Answers): seq<Msg> {
    if req.kind == GET then
      match a.got
      case Good((value, ttl)) => [req.(value := value, ttl := ttl), END_MESSAGE]
      case Bad(text) => [ErrorMsg(text)]
    else if req.kind == SET then EndOrError(a.stored)
    else if req.kind == DELETE then EndOrError(a.deleted)
    else if req.kind == CLEAR then EndOrError(a.cleared)
    else if req.kind == HAS then [req.(value := FormatBool(a.present)), END_MESSAGE]
    else if req.kind == PING then [Msg(PONG, 0, [], []), END_MESSAGE]
    else if req.kind == KEYS then [Msg(KEYS, 0, [], JoinKeys(a.keys)), END_MESSAGE]
    else [END_MESSAGE]
  }

  ghost predicate AllFit(ms: seq<Msg>) {
    forall m :: m in ms ==> Fits(m)
  }

  // ---------------------------------------------------------------- the connection

  class Conn {
    const toServer: Stream
    const toClient: Stream

    /** The server has read every request, and the messages of q wait for the client. */
    ghost predicate Holds(q: seq<Msg>)
      reads toServer, toClient
    {
      toServer != toClient && AllFit(q) && toServer.data == [] && toClient.data == EncodeAll(q)
    }

    constructor ()
      ensures fresh(toServer) && fresh(toClient) && Holds([])
    {
      toServer := new Stream();
      toClient := new Stream();
    }
  }

  lemma {:induction false} EncodeAllConcat(a: seq<Msg>, b: seq<Msg>)
    requires AllFit(a) && AllFit(b)
    ensures AllFit(a + b) && EncodeAll(a + b) == EncodeAll(a) + EncodeAll(b)
  {
    hide Encode, Fits;
    if a == [] {
      assert a + b == b;
    } else {
      assert AllFit(a[1..]);
      EncodeAllConcat(a[1..], b);
      assert (a + b)[1..] == a[1..] + b;
    }
  }

  lemma EncodeOne(m: Msg)
    requires Fits(m)
    ensures EncodeAll([m]) == Encode(m)
  {
    assert [m][1..] == [];
  }

  // ---------------------------------------------------------------- the server

  method HandleGet(conn: Conn, message: Message, a: Answers) returns (err: Option<seq<byte>>)
    requires AllFit(Replies(message.Abs(), a)) && message.Type == GET
    modifies conn.toClient, message
    ensures match a.got
            case Bad(text) => err == Some(text) && conn.toClient.data == old(conn.toClient.data)
            case Good(_) => err == None
                            && conn.toClient.data == old(conn.toClient.data) + Encode(Replies(old(message.Abs()), a)[0])
  {
    match a.got {
      case Bad(text) => return Some(text);
      case Good((value, ttl)) =>
        assert Replies(message.Abs(), a)[0] in Replies(message.Abs(), a);
        message.Value := value;
        message.TTL := ttl;
        var _ := message.WriteTo(conn.toClient);
        return None;
    }
  }

  lemma FormatsBool(b: bool)
    ensures FormatBool(b) == Ascii(if b then "true" else "false")
  {
  }

  method HandleHas(conn: Conn, message: Message, a: Answers)
    requires AllFit(Replies(message.Abs(), a)) && message.Type == HAS
    modifies conn.toClient, message
    ensures conn.toClient.data == old(conn.toClient.data) + Encode(Replies(old(message.Abs()), a)[0])
    ensures message.Abs() == old(message.Abs()).(value := Ascii(if a.present then "true" else "false"))
  {
    assert Replies(message.Abs(), a)[0] in Replies(message.Abs(), a);
    FormatsBool(a.present);
    message.Value := FormatBool(a.present);
    var _ := message.WriteTo(conn.toClient);
  }

  method HandleKeys(conn: Conn, a: Answers)
    requires Fits(Msg(KEYS, 0, [], JoinKeys(a.keys)))
    modifies conn.toClient
    ensures conn.toClient.data == old(conn.toClient.data) + Encode(Msg(KEYS, 0, [], JoinKeys(a.keys)))
  {
    var message := new Message(KEYS, 0, [], JoinKeys(a.keys));
    var _ := message.WriteTo(conn.toClient);
  }

  method HandlePing(conn: Conn)
    modifies conn.toClient
    ensures conn.toClient.data == old(conn.toClient.data) + Encode(Msg(PONG, 0, [], []))
  {
    var message := new Message(PONG, 0, [], []);
    var _ := message.WriteTo(conn.toClient);
  }

  function ErrorOf<T>(a: CacheAnswer<T>): Option<seq<byte>> {
    if a.Bad? then Some(a.text) else None
  }

  datatype Served = Answered | GivenUp | Crashed

  /** The bytes of the replies: one message, or one and an END. */
  lemma RepliesFold(req: Msg, a: Answers)
    requires AllFit(Replies(req, a))
    ensures var r := Replies(req, a);
            && 1 <= |r| <= 2 && Fits(r[0])
            && (|r| == 1 ==> EncodeAll(r) == Encode(r[0]))
            && (|r| == 2 ==> r[1] == END_MESSAGE && EncodeAll(r) == Encode(r[0]) + Encode(END_MESSAGE))
  {
    var r := Replies(req, a);
    assert r[0] in r;
    if |r| == 1 {
      assert r == [r[0]];
      EncodeOne(r[0]);
    } else {
      assert r[1..] == [END_MESSAGE];
      EncodeOne(END_MESSAGE);
    }
  }

  /** What the server writes for a request it has read, given what the cache answered. */
  method Respond(conn: Conn, message: Message, a: Answers)
    requires conn.toServer != conn.toClient && AllFit(Replies(message.Abs(), a))
    modifies conn.toClient, message
    ensures conn.toClient.data == old(conn.toClient.data) + EncodeAll(Replies(old(message.Abs()), a))
  {
    hide Encode, Decode, EncodeAll, JoinKeys;
    ghost var req, before := message.Abs(), conn.toClient.data;
    RepliesFold(req, a);
    var err: Option<seq<byte>> := None;
    if message.Type == GET {
      err := HandleGet(conn, message, a);
    } else if message.Type == SET {
      err := ErrorOf(a.stored);
    } else if message.Type == DELETE {
      err := ErrorOf(a.deleted);
    } else if message.Type == CLEAR {
      err := ErrorOf(a.cleared);
    } else if message.Type == HAS {
      HandleHas(conn, message, a);
    } else if message.Type == PING {
      HandlePing(conn);
    } else if message.Type == KEYS {
      HandleKeys(conn, a);
    }
    if err.Some? {
      var failure := new Message(ERROR, 0, [], err.value);
      var _ := failure.WriteTo(conn.toClient);
    } else {
      var _ := WriteEnd(conn.toClient);
    }
    assert conn.toClient.data == before + EncodeAll(Replies(req, a));
  }

  /** One turn of the server's loop: a request is read and answered, the connection is given up, or the panic of a
      request with an impossible length ends the program. The cache is asked with the request as it was read. */
  method Serve(conn: Conn, cache: Backend) returns (r: Served)
    requires conn.toServer != conn.toClient
    requires Decode(conn.toServer.data).Done? ==>
               var req := Decode(conn.toServer.data).msg;
               AllFit(Replies(req, cache(req)))
    modifies conn.toServer, conn.toClient
    ensures r.Answered? <==> Decode(old(conn.toServer.data)).Done?
    ensures r.Crashed? <==> Decode(old(conn.toServer.data)).Panic?
    ensures !r.Answered? ==> conn.toClient.data == old(conn.toClient.data)
    ensures r.Answered? ==>
              var Done(req, _, rest) := Decode(old(conn.toServer.data));
              && conn.toServer.data == rest
              && conn.toClient.data == old(conn.toClient.data) + EncodeAll(Replies(req, cache(req)))
              && (req.kind == HAS ==>
                    var text := if cache(req).present then "true" else "false";
                    && Fits(req.(value := Ascii(text)))
                    && conn.toClient.data ==
                       old(conn.toClient.data) + (Encode(req.(value := Ascii(text))) + Encode(Msg(END, 0, [], []))))
  {
    hide Encode, Decode, EncodeAll, JoinKeys, Ascii, FormatBool;
    var message := new Message(0, 0, [], []);
    var res := message.ReadFrom(conn.toServer);
    if !res.Size? {
      return if res.ReadPanic? then Crashed else GivenUp;
    }
    var a := cache(Msg(message.Type, message.TTL, message.Key, message.Value));
    FormatsBool(a.present);
    RepliesFold(message.Abs(), a);
    Respond(conn, message, a);
    return Answered;
  }
}
