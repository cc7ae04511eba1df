/** The wire format of messages, and the two methods that write and read it. */
module Wire {
  import opened Keys

  type int8 = x: int | -0x80 <= x < 0x80
  type int64 = x: int | -0x8000_0000_0000_0000 <= x < 0x8000_0000_0000_0000

  const MAX: nat := 0x7FFF_FFFF_FFFF_FFFF

  /** The longest byte slice there is in Go on a 64-bit machine: `make` panics beyond it. */
  const MAX_ALLOC: nat := 0x1_0000_0000_0000

  // message types
  const SET: int8 := 0
  const GET: int8 := 1
  const DELETE: int8 := 2
  const CLEAR: int8 := 3
  const HAS: int8 := 4
  const KEYS: int8 := 5
  const ERROR: int8 := 6
  const END: int8 := 7
  const PING: int8 := 8
  const PONG: int8 := 9

  datatype Msg = Msg(kind: int8, ttl: int64, key: seq<byte>, value: seq<byte>)

  // ---------------------------------------------------------------- integers

  function Little(u: nat, n: nat): (bs: seq<byte>)
    ensures |bs| == n
  {
    if n == 0 then [] else [u % 256] + Little(u / 256, n - 1)
  }

  function FromLittle(bs: seq<byte>): nat {
    if bs == [] then 0 else bs[0] + 256 * FromLittle(bs[1..])
  }

  ghost function Pow256(n: nat): (p: nat)
    ensures p > 0
  {
    if n == 0 then 1 else 256 * Pow256(n - 1)
  }

  lemma TimesMonotone(a: int, b: int, p: nat)
    requires a <= b
    ensures a * p <= b * p
  {
    assert b * p - a * p == (b - a) * p;
  }

  lemma QuotientIs(x: nat, p: nat, q: nat, s: nat)
    requires x == q * p + s && s < p
    ensures x / p == q
  {
    var d := x / p - q;
    assert x == (x / p) * p + x % p;
    assert d * p == s - x % p;
    if d > 0 {
      TimesMonotone(1, d, p);
    } else if d < 0 {
      TimesMonotone(d, -1, p);
    }
  }

  lemma DivTwice(u: nat, p: nat)
    requires p > 0
    ensures u / 256 / p == u / (256 * p)
  {
    var q, r := u / (256 * p), u % (256 * p);
    assert u == q * (256 * p) + r == 256 * (q * p) + r;
    assert u / 256 == q * p + r / 256 by { assert r == 256 * (r / 256) + r % 256; }
    var s := r / 256;
    assert 0 <= s < p;
    QuotientIs(q * p + s, p, q, s);
  }

  /** The low byte comes first: the i-th is the i-th digit in base 256. */
  lemma {:induction false} LittleDigits(u: nat, n: nat, i: nat)
    requires i < n
    ensures Little(u, n)[i] == u / Pow256(i) % 256
  {
    if i == 0 {
    } else {
      LittleDigits(u / 256, n - 1, i - 1);
      DivTwice(u, Pow256(i - 1));
    }
  }

  lemma {:induction false} LittleRoundTrip(u: nat, n: nat)
    requires u < Pow256(n)
    ensures FromLittle(Little(u, n)) == u
  {
    if n == 0 {
    } else {
      LittleRoundTrip(u / 256, n - 1);
    }
  }

  lemma {:induction false} FromLittleRoundTrip(bs: seq<byte>)
    ensures Little(FromLittle(bs), |bs|) == bs && FromLittle(bs) < Pow256(|bs|)
  {
    if bs == [] {
    } else {
      FromLittleRoundTrip(bs[1..]);
      assert (bs[0] + 256 * FromLittle(bs[1..])) / 256 == FromLittle(bs[1..]);
      assert bs == [bs[0]] + bs[1..];
    }
  }

  lemma Pow256Of8()
    ensures Pow256(8) == WORD
  {
    assert Pow256(4) == 0x1_0000_0000 by { assert Pow256(2) == 0x1_0000; }
    assert Pow256(6) == 0x1_0000_0000_0000;
  }

  /** A signed 64-bit integer in two's complement. */
  function PutInt64(x: int64): (bs: seq<byte>)
    ensures |bs| == 8
  {
    Little(if x < 0 then x + WORD else x, 8)
  }

  function GetInt64(bs: seq<byte>): int64
    requires |bs| == 8
  {
    FromLittleRoundTrip(bs);
    Pow256Of8();
    var u := FromLittle(bs);
    if u > MAX then u - WORD else u
  }

  /** Eight bytes and the signed 64-bit integers correspond one to one. */
  lemma Int64RoundTrip(x: int64, bs: seq<byte>)
    ensures GetInt64(PutInt64(x)) == x
    ensures |bs| == 8 ==> PutInt64(GetInt64(bs)) == bs
  {
    Pow256Of8();
    LittleRoundTrip(if x < 0 then x + WORD else x, 8);
    FromLittleRoundTrip(bs);
  }

  function PutInt8(x: int8): byte {
    if x < 0 then x + 256 else x
  }

  function GetInt8(b: byte): int8 {
    if b > 127 then b - 256 else b
  }

  // ---------------------------------------------------------------- frames

  /** The length of the body of a message. */
  function SizeOf(m: Msg): nat {
    25 + |m.key| + |m.value|
  }

  /** A message that can be: its key and its value are byte slices. */
  predicate Fits(m: Msg)
    ensures Fits(m) ==> SizeOf(m) <= MAX
  {
    |m.key| <= MAX_ALLOC && |m.value| <= MAX_ALLOC
  }

  function Body(m: Msg): (b: seq<byte>)
    requires Fits(m)
    ensures |b| == SizeOf(m)
  {
    [PutInt8(m.kind)] + PutInt64(m.ttl) + PutInt64(|m.key|) + m.key + PutInt64(|m.value|) + m.value
  }

  function Encode(m: Msg): (b: seq<byte>)
    requires Fits(m)
    ensures |b| == 8 + SizeOf(m)
  {
    PutInt64(SizeOf(m)) + Body(m)
  }

  /** What reading a frame comes to: a message, its size and the bytes after it; an error; or the panic of
      `make` on a length that is negative or too large. */
  datatype Decoded = Done(msg: Msg, size: nat, rest: seq<byte>) | Failed(rest: seq<byte>) | Panic(rest: seq<byte>)

  datatype BodyResult = BodyOk(msg: Msg) | BodyShort | BodyPanic

  function DecodeBody(b: seq<byte>): BodyResult {
    if |b| < 17 then BodyShort
    else
      var keySize := GetInt64(b[9..17]);
      if keySize < 0 || keySize > MAX_ALLOC then BodyPanic
      else if |b| < 25 + keySize then BodyShort
      else
        var valueSize := GetInt64(b[17 + keySize..25 + keySize]);
        if valueSize < 0 || valueSize > MAX_ALLOC then BodyPanic
        else if |b| < 25 + keySize + valueSize then BodyShort
        else BodyOk(Msg(GetInt8(b[0]), GetInt64(b[1..9]), b[17..17 + keySize],
                        b[25 + keySize..25 + keySize + valueSize]))
  }

  /** The fields of m after a body has been read into it, as far as it goes: each is overwritten once it is complete. */
  function Overwritten(m: Msg, b: seq<byte>): Msg {
    if |b| < 1 then m
    else
      var m1 := m.(kind := GetInt8(b[0]));
      if |b| < 9 then m1
      else
        var m2 := m1.(ttl := GetInt64(b[1..9]));
        if |b| < 17 then m2
        else
          var k := GetInt64(b[9..17]);
          if k < 0 || k > MAX_ALLOC || |b| < 17 + k then m2
          else
            var m3 := m2.(key := b[17..17 + k]);
            if DecodeBody(b).BodyOk? then m3.(value := DecodeBody(b).msg.value) else m3
  }

  /** The same for a whole frame, which is only looked into once it is there. */
  function OverwrittenBy(m: Msg, data: seq<byte>): Msg {
    if |data| < 8 then m
    else
      var size := GetInt64(data[..8]);
      if size < 0 || |data| < 8 + size then m else Overwritten(m, data[8..8 + size])
  }

  function Decode(data: seq<byte>): Decoded {
    if |data| < 8 then Failed([])
    else
      var size := GetInt64(data[..8]);
      if size < 0 then Failed(data[8..])
      else if |data| < 8 + size then Failed([])
      else
        match DecodeBody(data[8..8 + size])
        case BodyOk(m) => Done(m, size, data[8 + size..])
        case BodyShort => Failed(data[8 + size..])
        case BodyPanic => Panic(data[8 + size..])
  }

  lemma BodyParts(m: Msg)
    requires Fits(m)
    ensures var b, k := Body(m), |m.key|;
            && b[0] == PutInt8(m.kind) && b[1..9] == PutInt64(m.ttl) && b[9..17] == PutInt64(k)
            && b[17..17 + k] == m.key && b[17 + k..25 + k] == PutInt64(|m.value|) && b[25 + k..] == m.value
  {
  }

  lemma DecodeOfBody(m: Msg)
    requires Fits(m)
    ensures DecodeBody(Body(m)) == BodyOk(m)
  {
    hide Body, PutInt64, GetInt64;
    BodyParts(m);
    Int64RoundTrip(m.ttl, []);
    Int64RoundTrip(|m.key|, []);
    Int64RoundTrip(|m.value|, []);
  }

  /** Reading what was written gives the message back and consumes exactly its frame. */
  lemma RoundTrip(m: Msg, rest: seq<byte>)
    requires Fits(m)
    ensures Decode(Encode(m) + rest) == Done(m, SizeOf(m), rest)
  {
    hide Body, PutInt64, GetInt64, DecodeBody;
    var data, n := Encode(m) + rest, SizeOf(m);
    Int64RoundTrip(n, []);
    assert data[..8] == PutInt64(n) && data[8..8 + n] == Body(m) && data[8 + n..] == rest;
    DecodeOfBody(m);
  }

  function EncodeAll(ms: seq<Msg>): seq<byte>
    requires forall m :: m in ms ==> Fits(m)
  {
    if ms == [] then [] else Encode(ms[0]) + EncodeAll(ms[1..])
  }

  /** Reading n frames one after the other. */
  function DecodeAll(data: seq<byte>, n: nat): Option<(seq<Msg>, seq<byte>)> {
    if n == 0 then Some(([], data))
    else
      match Decode(data)
      case Done(m, _, rest) =>
        (match DecodeAll(rest, n - 1)
         case Some((ms, end)) => Some(([m] + ms, end))
         case None => None)
      case _ => None
  }

  lemma {:induction false} StreamRoundTrip(ms: seq<Msg>, rest: seq<byte>)
    requires forall m :: m in ms ==> Fits(m)
    ensures DecodeAll(EncodeAll(ms) + rest, |ms|) == Some((ms, rest))
  {
    hide Encode, Decode, Fits;
    if ms == [] {
      assert EncodeAll(ms) + rest == rest;
    } else {
      assert EncodeAll(ms) + rest == Encode(ms[0]) + (EncodeAll(ms[1..]) + rest);
      RoundTrip(ms[0], EncodeAll(ms[1..]) + rest);
      StreamRoundTrip(ms[1..], rest);
      assert ms == [ms[0]] + ms[1..];
    }
  }

  /** A frame cut short anywhere is refused. */
  lemma PrefixRefused(m: Msg, n: nat)
    requires Fits(m) && n < |Encode(m)|
    ensures Decode(Encode(m)[..n]).Failed?
  {
    if n >= 8 {
      assert Encode(m)[..n][..8] == PutInt64(SizeOf(m));
      Int64RoundTrip(SizeOf(m), []);
    }
  }

  lemma BodyOkParts(b: seq<byte>)
    requires DecodeBody(b).BodyOk?
    ensures var m := DecodeBody(b).msg;
            && SizeOf(m) <= |b| && Fits(m)
            && b[0] == PutInt8(m.kind) && b[1..9] == PutInt64(m.ttl) && b[9..17] == PutInt64(|m.key|)
            && b[17..17 + |m.key|] == m.key
            && b[17 + |m.key|..25 + |m.key|] == PutInt64(|m.value|)
            && b[25 + |m.key|..SizeOf(m)] == m.value
  {
    hide PutInt64, GetInt64;
    Int64RoundTrip(0, b[1..9]);
    Int64RoundTrip(0, b[9..17]);
    var k := GetInt64(b[9..17]);
    Int64RoundTrip(0, b[17 + k..25 + k]);
  }

  lemma SameSoFar(a: seq<byte>, b: seq<byte>, i: nat, j: nat)
    requires i <= j <= |a| && j <= |b| && a[..i] == b[..i] && a[i..j] == b[i..j]
    ensures a[..j] == b[..j]
  {
    assert a[..j] == a[..i] + a[i..j] && b[..j] == b[..i] + b[i..j];
  }

  lemma SameParts(a: seq<byte>, b: seq<byte>, k: nat)
    requires |a| == |b| >= 25 + k
    requires a[0] == b[0] && a[1..9] == b[1..9] && a[9..17] == b[9..17] && a[17..17 + k] == b[17..17 + k]
    requires a[17 + k..25 + k] == b[17 + k..25 + k] && a[25 + k..] == b[25 + k..]
    ensures a == b
  {
    SameSoFar(a, b, 1, 9);
    SameSoFar(a, b, 9, 17);
    SameSoFar(a, b, 17, 17 + k);
    SameSoFar(a, b, 17 + k, 25 + k);
    assert a == a[..25 + k] + a[25 + k..] && b == b[..25 + k] + b[25 + k..];
  }

  /** A frame that is read holds at least its message; it holds no more exactly when encoding the message
      gives the consumed bytes again. */
  lemma FrameBound(data: seq<byte>)
    requires Decode(data).Done?
    ensures var Done(m, size, rest) := Decode(data);
            && |data| == 8 + size + |rest| && data[8 + size..] == rest
            && SizeOf(m) <= size && Fits(m)
            && (SizeOf(m) == size <==> data[..8 + size] == Encode(m))
  {
    hide PutInt64, GetInt64, DecodeBody, Body;
    var Done(m, size, rest) := Decode(data);
    var b := data[8..8 + size];
    BodyOkParts(b);
    Int64RoundTrip(size, data[..8]);
    if SizeOf(m) == size {
      BodyParts(m);
      assert b[25 + |m.key|..] == b[25 + |m.key|..SizeOf(m)];
      SameParts(b, Body(m), |m.key|);
      assert data[..8 + size] == data[..8] + b;
    } else {
      assert |Encode(m)| == 8 + SizeOf(m);
    }
  }

  // ---------------------------------------------------------------- the methods

  /** One direction of a connection, or a buffer: bytes written and not yet read. */
  class Stream {
    var data: seq<byte>

    constructor ()
      ensures data == []
    {
      data := [];
    }

    method Write(bs: seq<byte>)
      modifies this
      ensures data == old(data) + bs
    {
      data := data + bs;
    }

    /** `io.ReadFull` for n bytes: when there are fewer they are consumed and it fails. */
    method ReadFull(n: nat) returns (bs: Option<seq<byte>>)
      modifies this
      ensures if n <= |old(data)| then bs == Some(old(data)[..n]) && data == old(data)[n..]
              else bs == None && data == []
    {
      if n <= |data| {
        bs, data := Some(data[..n]), data[n..];
      } else {
        bs, data := None, [];
      }
    }
  }

  datatype WriteResult = Wrote(n: nat) | ClosedPipe

  datatype ReadResult = Size(n: nat) | ReadError | ReadPanic

  class Message {
    var Type: int8
    var TTL: int64
    var Key: seq<byte>
    var Value: seq<byte>

    ghost function Abs(): Msg
      reads this
    {
      Msg(Type, TTL, Key, Value)
    }

    constructor (kind: int8, ttl: int64, key: seq<byte>, value: seq<byte>)
      ensures Abs() == Msg(kind, ttl, key, value)
    {
      Type, TTL, Key, Value := kind, ttl, key, value;
    }

    /** Appends the frame of the message; the result is the size of its body. */
    method WriteTo(w: Stream?) returns (r: WriteResult)
      requires Fits(Abs())
      modifies w
      ensures w == null ==> r == ClosedPipe
      ensures w != null ==> r == Wrote(SizeOf(Abs())) && w.data == old(w.data) + Encode(Abs())
    {
      hide PutInt64, PutInt8, MAX_ALLOC;
      var b := new Stream();
      if w == null {
        return ClosedPipe;
      }
      b.Write([PutInt8(Type)]);
      b.Write(PutInt64(TTL));
      b.Write(PutInt64(|Key|));
      b.Write(Key);
      b.Write(PutInt64(|Value|));
      b.Write(Value);
      ghost var body := Body(Abs());
      assert b.data == body;
      w.Write(PutInt64(|b.data|));
      w.Write(b.data);
      r := Wrote(|b.data|);
      assert w.data == old(w.data) + (PutInt64(|body|) + body);
    }

    /** The fields, in turn, from the buffer that holds the body. */
    method ReadBody(b: Stream) returns (res: ReadResult)
      modifies this, b
      ensures match DecodeBody(old(b.data))
              case BodyOk(m) => res.Size? && Abs() == m
              case BodyShort => res == ReadError
              case BodyPanic => res == ReadPanic
      ensures Abs() == Overwritten(old(Abs()), old(b.data))
    {
      hide GetInt64, GetInt8, MAX_ALLOC;
      ghost var body := b.data;
      var kind := b.ReadFull(1);
      if kind.None? {
        return ReadError;
      }
      assert b.data == body[1..] && kind.value[0] == body[0];
      Type := GetInt8(kind.value[0]);
      var ttl := b.ReadFull(8);
      if ttl.None? {
        return ReadError;
      }
      assert b.data == body[9..] && ttl.value == body[1..9];
      TTL := GetInt64(ttl.value);
      var keySize := b.ReadFull(8);
      if keySize.None? {
        return ReadError;
      }
      assert b.data == body[17..] && keySize.value == body[9..17];
      var k: int := GetInt64(keySize.value);
      if k < 0 || k > MAX_ALLOC {
        return ReadPanic;
      }
      var key := b.ReadFull(k);
      if key.None? {
        return ReadError;
      }
      assert b.data == body[17 + k..] && key.value == body[17..17 + k];
      Key := key.value;
      var valueSize := b.ReadFull(8);
      if valueSize.None? {
        return ReadError;
      }
      assert b.data == body[25 + k..] && valueSize.value == body[17 + k..25 + k];
      var v: int := GetInt64(valueSize.value);
      if v < 0 || v > MAX_ALLOC {
        return ReadPanic;
      }
      var value := b.ReadFull(v);
      if value.None? {
        return ReadError;
      }
      Value := value.value;
      assert Value == body[25 + k..25 + k + v];
      return Size(0);
    }

    /** Reads one frame: what is read, and what is consumed, is what Decode says. When reading fails the fields that
        were complete have been overwritten. */
    method ReadFrom(r: Stream) returns (res: ReadResult)
      modifies this, r
      ensures match Decode(old(r.data))
              case Done(m, size, rest) => res == Size(size) && Abs() == m && r.data == rest
              case Failed(rest) => res == ReadError && r.data == rest
              case Panic(rest) => res == ReadPanic && r.data == rest
      ensures Abs() == OverwrittenBy(old(Abs()), old(r.data))
    {
      hide GetInt64, GetInt8;
      ghost var data := r.data;
      var head := r.ReadFull(8);
      if head.None? {
        return ReadError;
      }
      var size := GetInt64(head.value);
      assert head.value == data[..8];
      // CopyN of a negative count copies nothing, and the type is then missing
      var copied := r.ReadFull(if size < 0 then 0 else size);
      if copied.None? {
        return ReadError;
      }
      var b := new Stream();
      b.Write(copied.value);
      ghost var body := b.data;
      assert size >= 0 ==> body == data[8..8 + size] && r.data == data[8 + size..];
      res := ReadBody(b);
      if res.Size? {
        res := Size(if size < 0 then 0 else size);
      }
    }
  }

  lemma {:induction false} ZeroBytes(n: nat)
    ensures Little(0, n) == seq(n, _ => 0)
  {
    if n == 0 {
    } else {
      ZeroBytes(n - 1);
    }
  }

  lemma SmallBytes(x: int64)
    requires 0 <= x < 256
    ensures PutInt64(x) == [x, 0, 0, 0, 0, 0, 0, 0]
  {
    ZeroBytes(7);
    assert x % 256 == x && x / 256 == 0;
    assert Little(x, 8) == [x] + Little(0, 7);
  }

  lemma EndBytes()
    ensures Encode(Msg(END, 0, [], [])) == [25, 0, 0, 0, 0, 0, 0, 0, 7] + seq(24, _ => 0)
  {
    hide PutInt64;
    SmallBytes(25);
    SmallBytes(0);
    var z := PutInt64(0);
    assert z == seq(8, _ => 0);
    assert Body(Msg(END, 0, [], [])) == [7] + z + z + [] + z + [] == [7] + (z + z + z);
    assert z + z + z == seq(24, _ => 0);
    assert [25, 0, 0, 0, 0, 0, 0, 0] + ([7] + seq(24, _ => 0)) == [25, 0, 0, 0, 0, 0, 0, 0, 7] + seq(24, _ => 0);
  }

  /** The byte of each kind of message. */
  lemma KindByte(m: Msg)
    requires Fits(m)
    ensures [SET, GET, DELETE, CLEAR, HAS, KEYS, ERROR, END, PING, PONG] == [0, 1, 2, 3, 4, 5, 6, 7, 8, 9]
    ensures 0 <= m.kind <= 9 ==> Encode(m)[8] == m.kind
  {
    hide PutInt64;
  }

  lemma SliceOfSlice(s: seq<byte>, i: nat, n: nat, a: nat, b: nat)
    requires a <= b <= n && i + n <= |s|
    ensures s[i..i + n][a..b] == s[i + a..i + b]
  {
    var inner, outer := s[i..i + n][a..b], s[i + a..i + b];
    forall j | 0 <= j < b - a ensures inner[j] == outer[j] {
      assert s[i..i + n][a + j] == s[i + a + j];
    }
  }

  /** `make` panics exactly at a length that is negative or above 2^48. */
  lemma PanicIff(data: seq<byte>)
    ensures Decode(data).Panic? <==>
            && |data| >= 8
            && (var size := GetInt64(data[..8]);
                && 0 <= size <= |data| - 8 && size >= 17
                && (var b, k := data[8..8 + size], GetInt64(data[17..25]);
                    || k < 0 || k > 0x1_0000_0000_0000
                    || (size >= 25 + k
                        && var v := GetInt64(b[17 + k..25 + k]); v < 0 || v > 0x1_0000_0000_0000)))
  {
    hide GetInt64, GetInt8;
    if |data| >= 8 {
      var size := GetInt64(data[..8]);
      if 17 <= size <= |data| - 8 {
        SliceOfSlice(data, 8, size, 9, 17);
      }
    }
  }

  /** The END frame: a size of 25, the kind, and 24 zeros. */
  method WriteEnd(w: Stream) returns (r: WriteResult)
    modifies w
    ensures r == Wrote(25) && w.data == old(w.data) + Encode(Msg(END, 0, [], []))
    ensures w.data == old(w.data) + ([25, 0, 0, 0, 0, 0, 0, 0, 7] + seq(24, _ => 0))
  {
    EndBytes();
    var message := new Message(END, 0, [], []);
    r := message.WriteTo(w);
  }
}
