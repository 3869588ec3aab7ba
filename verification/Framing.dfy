/** Frames of the metadata and transfer protocols: magic, version, kind, big-endian
    length, payload; and the dispatch that reads a magic and replays it. */
module Framing {
  import opened Bytes
  import opened Options

  /** What distinguishes the two protocols on the wire. */
  datatype Protocol = Protocol(magic: seq<byte>, version: byte, lastKind: byte, chunkKinds: set<byte>)

  const METADATA := Protocol([0x49, 0x52, 0x4D, 0x44], 2, 2, {})
  const TRANSFER := Protocol([0x49, 0x52, 0x46, 0x54], 2, 20, {3, 7})

  const MAX_CONTROL_BYTES: nat := 8 * 1024
  const MAX_CHUNK_BYTES: nat := 64 * 1024

  predicate Known(p: Protocol) {
    p == METADATA || p == TRANSFER
  }

  predicate IsKind(p: Protocol, kind: byte) {
    1 <= kind <= p.lastKind
  }

  function Limit(p: Protocol, kind: byte): nat {
    if kind in p.chunkKinds then MAX_CHUNK_BYTES else MAX_CONTROL_BYTES
  }

  datatype FrameError =
    | UnexpectedEof
    | InvalidMagic
    | UnsupportedVersion(version: byte)
    | UnsupportedKind(kind: byte)
    | PayloadTooLarge(size: nat)

  datatype Frame = Frame(kind: byte, payload: seq<byte>)

  predicate Sendable(p: Protocol, f: Frame) {
    IsKind(p, f.kind) && |f.payload| <= Limit(p, f.kind)
  }

  // ---- Lengths -----------------------------------------------------------------------

  /** Big-endian: each division by 256 drops the last byte. */
  function U32(n: nat): (r: seq<byte>)
    requires n < 0x1_0000_0000
    ensures |r| == 4
  {
    var n1 := n / 0x100;
    var n2 := n1 / 0x100;
    var n3 := n2 / 0x100;
    [n3 as byte, (n2 % 0x100) as byte, (n1 % 0x100) as byte, (n % 0x100) as byte]
  }

  function FromU32(b: seq<byte>): (n: nat)
    requires |b| == 4
    ensures n < 0x1_0000_0000
  {
    var n2 := b[0] as nat * 0x100 + b[1] as nat;
    var n1 := n2 * 0x100 + b[2] as nat;
    n1 * 0x100 + b[3] as nat
  }

  lemma LengthReadsBack(n: nat)
    requires n < 0x1_0000_0000
    ensures FromU32(U32(n)) == n
  {
  }

  lemma LengthWritesBack(b: seq<byte>)
    requires |b| == 4
    ensures U32(FromU32(b)) == b
  {
    var n2 := b[0] as nat * 0x100 + b[1] as nat;
    var n1 := n2 * 0x100 + b[2] as nat;
    LastByte(n2, b[2] as nat);
    LastByte(n1, b[3] as nat);
    LastByte(b[0] as nat, b[1] as nat);
  }

  lemma LastByte(high: nat, low: nat)
    requires low < 0x100
    ensures (high * 0x100 + low) / 0x100 == high && (high * 0x100 + low) % 0x100 == low
  {
  }

  // ---- The format -----------------------------------------------------------------------

  function Header(p: Protocol, kind: byte, size: nat): seq<byte>
    requires size < 0x1_0000_0000
  {
    p.magic + [p.version] + [kind] + U32(size)
  }

  function Encode(p: Protocol, f: Frame): seq<byte>
    requires |f.payload| < 0x1_0000_0000
  {
    Header(p, f.kind, |f.payload|) + f.payload
  }

  datatype Decoded = Ok(frame: Frame, rest: seq<byte>) | Err(error: FrameError)

  datatype FrameRead = Received(frame: Frame) | Refused(error: FrameError)

  /** What the readers of both protocols make of the bytes at hand. */
  function Decode(p: Protocol, s: seq<byte>): Decoded {
    if |s| < 4 then Err(UnexpectedEof)
    else if s[..4] != p.magic then Err(InvalidMagic)
    else if |s| < 5 then Err(UnexpectedEof)
    else if s[4] != p.version then Err(UnsupportedVersion(s[4]))
    else if |s| < 6 then Err(UnexpectedEof)
    else if !IsKind(p, s[5]) then Err(UnsupportedKind(s[5]))
    else if |s| < 10 then Err(UnexpectedEof)
    else
      var size := FromU32(s[6..10]);
      if size > Limit(p, s[5]) then Err(PayloadTooLarge(size))
      else if |s| < 10 + size then Err(UnexpectedEof)
      else Ok(Frame(s[5], s[10..10 + size]), s[10 + size..])
  }

  /** Where reading stops and with which error, byte by byte: too few bytes for the next
      field come before any verdict on a later one. */
  lemma RefusedExactly(p: Protocol, s: seq<byte>)
    requires |p.magic| == 4
    ensures Decode(p, s) == Err(InvalidMagic) <==>
              |s| >= 4 && (s[0] != p.magic[0] || s[1] != p.magic[1] || s[2] != p.magic[2] || s[3] != p.magic[3])
    ensures forall v :: Decode(p, s) == Err(UnsupportedVersion(v)) <==>
              HasMagic(p, s) && |s| >= 5 && s[4] == v && v != p.version
    ensures forall k :: Decode(p, s) == Err(UnsupportedKind(k)) <==>
              HasMagic(p, s) && |s| >= 6 && s[4] == p.version && s[5] == k && !(1 <= k <= p.lastKind)
    ensures forall n :: Decode(p, s) == Err(PayloadTooLarge(n)) <==>
              && HasMagic(p, s) && |s| >= 10 && s[4] == p.version && 1 <= s[5] <= p.lastKind
              && n == BigEndian(s[6], s[7], s[8], s[9]) && n > if s[5] in p.chunkKinds then 65536 else 8192
    ensures Decode(p, s).Ok? <==>
              && HasMagic(p, s) && |s| >= 10 && s[4] == p.version && 1 <= s[5] <= p.lastKind
              && BigEndian(s[6], s[7], s[8], s[9]) <= (if s[5] in p.chunkKinds then 65536 else 8192)
              && |s| >= 10 + BigEndian(s[6], s[7], s[8], s[9])
  {
    if |s| >= 4 {
      assert s[..4] == [s[0], s[1], s[2], s[3]];
      assert p.magic == [p.magic[0], p.magic[1], p.magic[2], p.magic[3]];
    }
    if |s| >= 10 {
      assert s[6..10] == [s[6], s[7], s[8], s[9]];
      LengthIsBigEndian(s[6..10]);
    }
  }

  predicate HasMagic(p: Protocol, s: seq<byte>)
    requires |p.magic| == 4
  {
    |s| >= 4 && s[0] == p.magic[0] && s[1] == p.magic[1] && s[2] == p.magic[2] && s[3] == p.magic[3]
  }

  function BigEndian(a: byte, b: byte, c: byte, d: byte): nat {
    a as nat * 16777216 + b as nat * 65536 + c as nat * 256 + d as nat
  }

  lemma LengthIsBigEndian(b: seq<byte>)
    requires |b| == 4
    ensures FromU32(b) == BigEndian(b[0], b[1], b[2], b[3])
  {
  }

  /** The two protocols on the wire: `IRMD` version 2 with kinds 1 and 2, and `IRFT`
      version 2 with kinds 1 to 20, of which 3 and 7 carry up to 64 KiB. */
  lemma WireFormat(p: Protocol, f: Frame)
    requires |f.payload| < 0x1_0000_0000
    ensures Encode(METADATA, f)[..6] == [0x49, 0x52, 0x4D, 0x44, 2, f.kind]
    ensures Encode(TRANSFER, f)[..6] == [0x49, 0x52, 0x46, 0x54, 2, f.kind]
    ensures |Encode(p, f)| == |p.magic| + 6 + |f.payload|
    ensures Sendable(METADATA, f) <==> (f.kind == 1 || f.kind == 2) && |f.payload| <= 8192
    ensures Sendable(TRANSFER, f) <==>
              1 <= f.kind <= 20 && |f.payload| <= if f.kind == 3 || f.kind == 7 then 65536 else 8192
  {
  }

  // ---- Streams -----------------------------------------------------------------------------

  /** A writer that accepts bytes piece by piece. */
  class Sink {
    var sent: seq<byte>

    constructor ()
      ensures sent == []
    {
      sent := [];
    }

    method WriteAll(bytes: seq<byte>)
      modifies this
      ensures sent == old(sent) + bytes
    {
      sent := sent + bytes;
    }

    /** An oversized payload is refused before anything is sent. */
    method WriteFrame(p: Protocol, f: Frame) returns (error: Option<FrameError>)
      modifies this
      ensures |f.payload| > Limit(p, f.kind) ==>
                error == Some(PayloadTooLarge(|f.payload|)) && sent == old(sent)
      ensures |f.payload| <= Limit(p, f.kind) ==> error == None && sent == old(sent) + Encode(p, f)
    {
      if |f.payload| > Limit(p, f.kind) {
        return Some(PayloadTooLarge(|f.payload|));
      }
      ghost var before := sent;
      WriteAll(p.magic);
      WriteAll([p.version]);
      WriteAll([f.kind]);
      WriteAll(U32(|f.payload|));
      WriteAll(f.payload);
      assert sent == before + Encode(p, f);
      return None;
    }
  }

  /** A replayed prefix followed by the rest of a stream: reads drain the prefix
      first, and each read yields as few bytes as it likes but at least one. */
  class PrefixedStream {
    var prefix: seq<byte>
    var recv: seq<byte>

    constructor (prefix: seq<byte>, recv: seq<byte>)
      ensures Ahead() == prefix + recv && this.prefix == prefix && this.recv == recv
    {
      this.prefix, this.recv := prefix, recv;
    }

    /** The bytes still to come. */
    ghost function Ahead(): seq<byte>
      reads this
    {
      prefix + recv
    }

    /** One read of at most `max` bytes, willing to deliver `offered`; empty at the end. */
    method Read(max: nat, offered: nat) returns (chunk: seq<byte>)
      requires max > 0 && offered > 0
      modifies this
      ensures old(Ahead()) == chunk + Ahead() && |chunk| <= max
      ensures chunk == [] <==> old(Ahead()) == []
    {
      if prefix != [] {
        var n := if offered < max then offered else max;
        n := if n < |prefix| then n else |prefix|;
        chunk := prefix[..n];
        assert prefix == chunk + prefix[n..];
        prefix := prefix[n..];
      } else {
        var n := if offered < max then offered else max;
        n := if n < |recv| then n else |recv|;
        chunk := recv[..n];
        recv := recv[n..];
      }
    }

    /** Reads until `n` bytes are there; `None` when the stream ends before. */
    method ReadExact(n: nat, offered: nat) returns (r: Option<seq<byte>>)
      requires offered > 0
      modifies this
      ensures |old(Ahead())| < n ==> r == None
      ensures |old(Ahead())| >= n ==> r == Some(old(Ahead())[..n]) && Ahead() == old(Ahead())[n..]
    {
      var got: seq<byte> := [];
      while |got| < n
        invariant |got| <= n && old(Ahead()) == got + Ahead()
      {
        var chunk := Read(n - |got|, offered);
        if chunk == [] {
          assert old(Ahead()) == got;
          return None;
        }
        got := got + chunk;
      }
      return Some(got);
    }

    method ReadFrame(p: Protocol, offered: nat) returns (r: FrameRead)
      requires Known(p) && offered > 0
      modifies this
      ensures match Decode(p, old(Ahead()))
              case Ok(frame, rest) => r == Received(frame) && Ahead() == rest
              case Err(error) => r == Refused(error)
    {
      ghost var s := Ahead();
      var magic := ReadExact(4, offered);
      if magic.None? {
        return Refused(UnexpectedEof);
      }
      if magic.value != p.magic {
        return Refused(InvalidMagic);
      }
      var version := ReadExact(1, offered);
      if version.None? {
        return Refused(UnexpectedEof);
      }
      assert Ahead() == s[5..];
      if version.value[0] != p.version {
        return Refused(UnsupportedVersion(version.value[0]));
      }
      var kind := ReadExact(1, offered);
      if kind.None? {
        return Refused(UnexpectedEof);
      }
      assert Ahead() == s[6..];
      if !IsKind(p, kind.value[0]) {
        return Refused(UnsupportedKind(kind.value[0]));
      }
      var length := ReadExact(4, offered);
      if length.None? {
        return Refused(UnexpectedEof);
      }
      assert length.value == s[6..10] && Ahead() == s[10..];
      var size := FromU32(length.value);
      if size > Limit(p, kind.value[0]) {
        return Refused(PayloadTooLarge(size));
      }
      var payload := ReadExact(size, offered);
      if payload.None? {
        return Refused(UnexpectedEof);
      }
      assert payload.value == s[10..10 + size] && Ahead() == s[10 + size..];
      return Received(Frame(kind.value[0], payload.value));
    }
  }

  // ---- Unambiguous and canonical ------------------------------------------------------------

  lemma HeaderParts(p: Protocol, f: Frame, rest: seq<byte>)
    requires Known(p) && |f.payload| < 0x1_0000_0000
    ensures var s := Encode(p, f) + rest;
            && |s| >= 10 + |f.payload| && s[..4] == p.magic && s[4] == p.version && s[5] == f.kind
            && s[6..10] == U32(|f.payload|) && s[10..10 + |f.payload|] == f.payload && s[10 + |f.payload|..] == rest
  {
  }

  /** A frame reads back, leaving exactly what followed it. */
  lemma DecodeInvertsEncode(p: Protocol, f: Frame, rest: seq<byte>)
    requires Known(p) && Sendable(p, f)
    ensures Decode(p, Encode(p, f) + rest) == Ok(f, rest)
  {
    HeaderParts(p, f, rest);
    LengthReadsBack(|f.payload|);
  }

  /** There is one way to write a frame: whatever decodes is its encoding. */
  lemma DecodedIsEncoded(p: Protocol, s: seq<byte>)
    requires Known(p) && Decode(p, s).Ok?
    ensures var d := Decode(p, s);
            Sendable(p, d.frame) && s == Encode(p, d.frame) + d.rest
  {
    var d := Decode(p, s);
    LengthWritesBack(s[6..10]);
    assert s == s[..4] + [s[4]] + [s[5]] + s[6..10] + s[10..10 + |d.frame.payload|] + d.rest;
  }

  /** A frame cut short anywhere is incomplete, never another frame or another error. */
  lemma StrictPrefixIsIncomplete(p: Protocol, f: Frame, cut: nat)
    requires Known(p) && Sendable(p, f) && cut < |Encode(p, f)|
    ensures Decode(p, Encode(p, f)[..cut]) == Err(UnexpectedEof)
  {
    var s := Encode(p, f);
    HeaderParts(p, f, []);
    assert s + [] == s;
    LengthReadsBack(|f.payload|);
    var t := s[..cut];
    if cut >= 4 {
      assert t[..4] == s[..4];
    }
    if cut >= 10 {
      assert t[6..10] == s[6..10];
    }
  }

  function EncodeAll(p: Protocol, fs: seq<Frame>): seq<byte>
    requires forall i | 0 <= i < |fs| :: Sendable(p, fs[i])
  {
    if fs == [] then []
    else
      assert Sendable(p, fs[0]);
      Encode(p, fs[0]) + EncodeAll(p, fs[1..])
  }

  /** Reading frame after frame until the bytes run out. */
  function DecodeAll(p: Protocol, s: seq<byte>): Option<seq<Frame>>
    decreases |s|
  {
    if s == [] then Some([])
    else
      var d := Decode(p, s);
      if d.Err? then None
      else
        var more := DecodeAll(p, d.rest);
        if more.None? then None else Some([d.frame] + more.value)
  }

  /** Framing survives concatenation: a list of frames reads back as that list. */
  lemma {:induction false} ListsRoundTrip(p: Protocol, fs: seq<Frame>)
    requires Known(p) && forall i | 0 <= i < |fs| :: Sendable(p, fs[i])
    ensures DecodeAll(p, EncodeAll(p, fs)) == Some(fs)
  {
    if fs != [] {
      assert Sendable(p, fs[0]);
      var rest := EncodeAll(p, fs[1..]);
      ListsRoundTrip(p, fs[1..]);
      DecodeInvertsEncode(p, fs[0], rest);
      DecodeAllStep(p, EncodeAll(p, fs), fs[0], rest);
      assert [fs[0]] + fs[1..] == fs;
    }
  }

  lemma DecodeAllStep(p: Protocol, s: seq<byte>, f: Frame, rest: seq<byte>)
    requires Decode(p, s) == Ok(f, rest) && DecodeAll(p, rest).Some?
    ensures DecodeAll(p, s) == Some([f] + DecodeAll(p, rest).value)
  {
  }

  /** Two lists of frames with the same bytes are the same list. */
  lemma EncodingIsInjective(p: Protocol, a: seq<Frame>, b: seq<Frame>)
    requires Known(p)
    requires (forall i | 0 <= i < |a| :: Sendable(p, a[i])) && (forall i | 0 <= i < |b| :: Sendable(p, b[i]))
    requires EncodeAll(p, a) == EncodeAll(p, b)
    ensures a == b
  {
    ListsRoundTrip(p, a);
    ListsRoundTrip(p, b);
  }

  // ---- Dispatch on the magic -------------------------------------------------------------------

  function ReadOf(d: Decoded): FrameRead {
    if d.Ok? then Received(d.frame) else Refused(d.error)
  }

  datatype Route = ToMetadata | ToTransfer | Unknown

  function RouteOf(magic: seq<byte>): Route {
    if magic == METADATA.magic then ToMetadata
    else if magic == TRANSFER.magic then ToTransfer
    else Unknown
  }

  /** Dispatches a fresh side stream: reads the magic, then hands on a stream that
      replays it, so the handler's reader sees the stream as it was. */
  method Dispatch(incoming: seq<byte>, offered: nat) returns (route: Option<Route>, frame: Option<FrameRead>)
    requires offered > 0
    ensures |incoming| < 4 <==> route == None
    ensures route.Some? ==> route.value == RouteOf(incoming[..4])
    ensures route == Some(ToMetadata) ==> frame == Some(ReadOf(Decode(METADATA, incoming)))
    ensures route == Some(ToTransfer) ==> frame == Some(ReadOf(Decode(TRANSFER, incoming)))
    ensures route == None || route == Some(Unknown) ==> frame == None
  {
    var recv := new PrefixedStream([], incoming);
    assert [] + incoming == incoming;
    var magic := recv.ReadExact(4, offered);
    if magic.None? {
      return None, None;
    }
    route, frame := Some(RouteOf(magic.value)), None;
    if route != Some(Unknown) {
      assert recv.Ahead() == incoming[4..];
      var rest := recv.prefix + recv.recv;
      var stream := new PrefixedStream(magic.value, rest);
      assert stream.Ahead() == incoming;
      var decoded := stream.ReadFrame(if route == Some(ToMetadata) then METADATA else TRANSFER, offered);
      frame := Some(decoded);
    }
  }

  /** No stream is a frame of both protocols: a stream that starts with a frame of one
      is routed to it, and the other refuses it for its magic. */
  lemma RoutesAreExclusive(p: Protocol, q: Protocol, f: Frame, rest: seq<byte>)
    requires Known(p) && Known(q) && p != q && Sendable(p, f)
    ensures RouteOf((Encode(p, f) + rest)[..4]) == if p == METADATA then ToMetadata else ToTransfer
    ensures Decode(q, Encode(p, f) + rest) == Err(InvalidMagic)
  {
    HeaderParts(p, f, rest);
    assert METADATA.magic[2] != TRANSFER.magic[2];
  }

  /** A fresh stream is routed by its first four bytes, whatever follows. */
  lemma RoutedExactly(magic: seq<byte>)
    ensures RouteOf(magic) == ToMetadata <==> magic == [0x49, 0x52, 0x4D, 0x44]
    ensures RouteOf(magic) == ToTransfer <==> magic == [0x49, 0x52, 0x46, 0x54]
  {
    assert METADATA.magic[2] != TRANSFER.magic[2];
  }

  // ---- Typed readers ----------------------------------------------------------------------------

  const KIND_METADATA_REQUEST: byte := 1

  datatype RequestResult = RequestOk | UnexpectedKind(actual: byte) | RequestErr(error: FrameError)

  /** What a read frame is as a request: any other kind is refused for its kind, and a
      request with a payload for its length. */
  function RequestOf(d: Decoded): RequestResult {
    match d
    case Err(error) => RequestErr(error)
    case Ok(frame, _) =>
      if frame.kind != KIND_METADATA_REQUEST then UnexpectedKind(frame.kind)
      else if frame.payload != [] then RequestErr(PayloadTooLarge(|frame.payload|))
      else RequestOk
  }

  /** A metadata frame of kind 2 is refused for its kind, and a request with a payload for
      the size of it. */
  lemma RequestRefusals(payload: seq<byte>, rest: seq<byte>)
    requires |payload| <= 8192
    ensures RequestOf(Decode(METADATA, Encode(METADATA, Frame(2, payload)) + rest)) == UnexpectedKind(2)
    ensures RequestOf(Decode(METADATA, Encode(METADATA, Frame(1, payload)) + rest)) ==
            if payload == [] then RequestOk else RequestErr(PayloadTooLarge(|payload|))
  {
    DecodeInvertsEncode(METADATA, Frame(1, payload), rest);
    DecodeInvertsEncode(METADATA, Frame(2, payload), rest);
  }

  /** Reads one metadata request. */
  method ReadMetadataRequest(stream: PrefixedStream, offered: nat) returns (r: RequestResult)
    requires offered > 0
    modifies stream
    ensures r == RequestOf(Decode(METADATA, old(stream.Ahead())))
    ensures r == RequestOk <==>
              exists rest :: old(stream.Ahead()) == Encode(METADATA, Frame(KIND_METADATA_REQUEST, [])) + rest
    ensures r == RequestOk ==>
              old(stream.Ahead()) == Encode(METADATA, Frame(KIND_METADATA_REQUEST, [])) + stream.Ahead()
  {
    ghost var s := stream.Ahead();
    var request := Frame(KIND_METADATA_REQUEST, []);
    var d := stream.ReadFrame(METADATA, offered);
    if rest :| s == Encode(METADATA, request) + rest {
      DecodeInvertsEncode(METADATA, request, rest);
    }
    if d.Refused? {
      return RequestErr(d.error);
    }
    DecodedIsEncoded(METADATA, s);
    if d.frame.kind != KIND_METADATA_REQUEST {
      return UnexpectedKind(d.frame.kind);
    }
    if d.frame.payload != [] {
      return RequestErr(PayloadTooLarge(|d.frame.payload|));
    }
    return RequestOk;
  }
}
