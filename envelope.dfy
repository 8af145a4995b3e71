/**
 * The wire vocabulary shared by the NetMQ client and server: bytes and
 * frames, the C# `int`, the `RequestType` tag and the two byte-order
 * conversions used on it, and the payload encodings that come from
 * generated Protocol Buffers code (which enter the model as parameters).
 */
module Envelope {

  /** One byte of a frame. */
  type Byte = b: int | 0 <= b < 0x100

  /** The contents of one frame (a `byte[]` / `NetMQFrame.Buffer`). */
  type Bytes = seq<Byte>

  /** A multipart message: the ordered frames of one request or reply. */
  type Frames = seq<Bytes>

  /** The C# `int`. */
  type Int32 = x: int | -0x8000_0000 <= x < 0x8000_0000

  /**
   * `RequestType` is a C# enum over `int`. Casting an `int` to it does not
   * range-check, so a decoded tag is any 32-bit value; the six named
   * members are the constants below.
   */
  type RequestType = Int32

  const Unspecified: RequestType := 0
  const GetSmallPayload: RequestType := 1
  const GetLargePayload: RequestType := 2
  const PostLargePayload: RequestType := 3
  const GetLargePayloadMultipart: RequestType := 4
  const PostLargePayloadMultipart: RequestType := 5

  /** The five kinds that have a handler of their own on the server. */
  predicate IsPayloadKind(t: RequestType) {
    GetSmallPayload <= t <= PostLargePayloadMultipart
  }

  datatype Option<T> = None | Some(value: T)

  /**
   * `BitConverter.ToInt32(b, 0)` on a little-endian machine. Fewer than four
   * bytes make it throw (None); otherwise bytes 0..3 are read least
   * significant first as a two's complement value and the rest are ignored.
   */
  function ToInt32(b: Bytes): (r: Option<Int32>)
    ensures r.Some? <==> |b| >= 4
  {
    if |b| < 4 then None
    else
      var u := b[0] as int + 0x100 * (b[1] as int + 0x100 * (b[2] as int + 0x100 * b[3] as int));
      Some(if u < 0x8000_0000 then u else u - 0x1_0000_0000)
  }

  /**
   * `BitConverter.GetBytes(int)` on a little-endian machine: the two's
   * complement value, least significant byte first. Reading the four bytes
   * back gives the same value.
   */
  function GetBytes(x: Int32): (b: Bytes)
    ensures |b| == 4
    ensures ToInt32(b) == Some(x)
  {
    var u := if x < 0 then x + 0x1_0000_0000 else x;
    var q1 := u / 0x100;
    var q2 := q1 / 0x100;
    var q3 := q2 / 0x100;
    [u % 0x100, q1 % 0x100, q2 % 0x100, q3]
  }

  /**
   * Conversely, the first four bytes of any frame long enough to hold a tag
   * are exactly the encoding of the value read from them.
   */
  lemma {:induction false} GetBytesOfToInt32(b: Bytes)
    requires |b| >= 4
    ensures GetBytes(ToInt32(b).value) == b[..4]
  {
    var q2: nat := b[2] as int + 0x100 * b[3] as int;
    var q1: nat := b[1] + 0x100 * q2;
    DivModByte(b[2], b[3]);
    DivModByte(b[1], q2);
    DivModByte(b[0], q1);
    var e := GetBytes(ToInt32(b).value);
    assert e[0] == b[0] && e[1] == b[1] && e[2] == b[2] && e[3] == b[3];
  }

  /** Splitting `lo + 256 * hi` by 256 gives back `lo` and `hi`. */
  lemma DivModByte(lo: Byte, hi: nat)
    ensures (lo + 0x100 * hi) / 0x100 == hi
    ensures (lo + 0x100 * hi) % 0x100 == lo
  {
  }

  /** Only the first four bytes of a frame decide the value read from it. */
  lemma ToInt32ReadsFirstFourBytes(a: Bytes, b: Bytes)
    requires |a| >= 4 && |b| >= 4 && a[..4] == b[..4]
    ensures ToInt32(a) == ToInt32(b)
  {
    assert a[0] == a[..4][0] && a[1] == a[..4][1] && a[2] == a[..4][2] && a[3] == a[..4][3];
    assert b[0] == b[..4][0] && b[1] == b[..4][1] && b[2] == b[..4][2] && b[3] == b[..4][3];
  }

  /**
   * NetMQ's `NetMQMessage.Append(int)`: the value in network byte order,
   * most significant byte first, i.e. `GetBytes` reversed.
   */
  function NetworkOrderGetBytes(x: Int32): (b: Bytes)
    ensures |b| == 4
    ensures forall i :: 0 <= i < 4 ==> b[i] == GetBytes(x)[3 - i]
  {
    var u := if x < 0 then x + 0x1_0000_0000 else x;
    var q1 := u / 0x100;
    var q2 := q1 / 0x100;
    [q2 / 0x100, q2 % 0x100, q1 % 0x100, u % 0x100]
  }

  /** A frame whose first four bytes are the little-endian encoding of `kind`. */
  predicate CarriesTag(frame: Bytes, kind: RequestType) {
    |frame| >= 4 && frame[..4] == GetBytes(kind)
  }

  /**
   * A message type of the generated Protocol Buffers code, as the core uses
   * it: `ToByteArray` (`ser`) and `Parser.ParseFrom` (`parse`, None where it
   * throws on malformed bytes).
   */
  datatype Codec<!T> = Codec(ser: T -> Bytes, parse: Bytes -> Option<T>)

  /** Parsing what was serialized gives the same value back. */
  ghost predicate RoundTrips<T(!new)>(c: Codec<T>) {
    forall x :: c.parse(c.ser(x)) == Some(x)
  }

  /**
   * NetMQ's string frames: `NetMQMessage.Append(string)` (`encode`) and
   * `NetMQFrame.ConvertToString` (`decode`, which never throws).
   */
  datatype TextCodec = TextCodec(encode: string -> Bytes, decode: Bytes -> string)

  ghost predicate TextRoundTrips(t: TextCodec) {
    forall s :: t.decode(t.encode(s)) == s
  }

  /** The `StatusResponse` message: one status string. */
  datatype StatusResponse = StatusResponse(status: string)

  /**
   * Every encoding the protocol uses: text frames, one record
   * (`MeteoriteLanding`), a record list (`MeteoriteLandingList`) and a
   * `StatusResponse`.
   */
  datatype Codecs<!R> = Codecs(
    text: TextCodec,
    record: Codec<R>,
    recordList: Codec<seq<R>>,
    status: Codec<StatusResponse>)

  ghost predicate ValidCodecs<R(!new)>(c: Codecs<R>) {
    && TextRoundTrips(c.text)
    && RoundTrips(c.record)
    && RoundTrips(c.recordList)
    && RoundTrips(c.status)
  }

  /**
   * What a client call ends with: a returned value, or the parse exception
   * that `Parser.ParseFrom` throws out of the call (the client does not catch it).
   */
  datatype Outcome<T> = Returned(value: T) | ThrewParseError

  /** `Parser.ParseFrom` on one frame, its exception made explicit. */
  function ParseFrom<T>(c: Codec<T>, frame: Bytes): (r: Outcome<T>)
    ensures r.Returned? <==> c.parse(frame).Some?
    ensures r.Returned? ==> c.parse(frame) == Some(r.value)
  {
    match c.parse(frame)
    case Some(v) => Returned(v)
    case None => ThrewParseError
  }

  /** The multipart form of a record list: one serialized record per frame, in order. */
  function RecordFrames<T>(ser: T -> Bytes, items: seq<T>): (m: Frames)
    ensures |m| == |items|
  {
    seq(|items|, i requires 0 <= i < |items| => ser(items[i]))
  }

  /**
   * Parsing every frame of a multipart payload in order; the first frame that
   * fails to parse throws, so the whole read fails.
   */
  function ParseRecords<T>(c: Codec<T>, frames: Frames): (r: Outcome<seq<T>>)
  {
    if forall i :: 0 <= i < |frames| ==> c.parse(frames[i]).Some? then
      Returned(seq(|frames|, i requires 0 <= i < |frames| => c.parse(frames[i]).value))
    else
      ThrewParseError
  }

  /**
   * A read of a multipart payload succeeds exactly when every frame parses,
   * and then yields one record per frame, element i from frame i.
   */
  lemma ParseRecordsSpec<T>(c: Codec<T>, frames: Frames)
    ensures ParseRecords(c, frames).Returned? <==> forall i :: 0 <= i < |frames| ==> c.parse(frames[i]).Some?
    ensures ParseRecords(c, frames).Returned? ==>
      && |ParseRecords(c, frames).value| == |frames|
      && forall i :: 0 <= i < |frames| ==> c.parse(frames[i]) == Some(ParseRecords(c, frames).value[i])
  {
  }

  /** Multipart round trip: parsing the frames of a record list gives the list back, in order. */
  lemma {:induction false} ParseRecordFrames<T(!new)>(c: Codec<T>, items: seq<T>)
    ensures RoundTrips(c) ==> ParseRecords(c, RecordFrames(c.ser, items)) == Returned(items)
  {
    if RoundTrips(c) {
      var frames := RecordFrames(c.ser, items);
      forall i | 0 <= i < |frames|
        ensures c.parse(frames[i]) == Some(items[i])
      {
        assert frames[i] == c.ser(items[i]);
      }
      assert ParseRecords(c, frames).value == items;
    }
  }
}
