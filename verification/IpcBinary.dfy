/**
  The binary frame format: "DP", a version byte, a kind byte, a four-byte big-endian length
  and the payload; and reading such frames from a stream that returns arbitrary chunks.
 */
module IpcBinary {
  import opened Wrappers

  const MAGIC: seq<Byte> := [68, 80]
  const VERSION: Byte := 1
  const HEADER_SIZE := 8
  const KIND_COMMAND := 2

  datatype Frame = Frame(kind: int, payload: seq<Byte>)

  /** What `pack_frame` can pack: anything else raises. */
  predicate Packable(f: Frame) {
    0 <= f.kind < 256 && |f.payload| < 0x1_0000_0000
  }

  datatype PackError = KindOutOfRange | PayloadTooLong

  datatype HeaderError = InvalidSize | BadMagic | UnsupportedVersion

  // ----- four-byte big-endian numbers -----------------------------------------------

  function BigEndian(n: nat): (r: seq<Byte>)
    requires n < 0x1_0000_0000
    ensures |r| == 4
  {
    [n / 0x100_0000, n / 0x1_0000 % 256, n / 0x100 % 256, n % 256]
  }

  function FromBigEndian(b: seq<Byte>): (n: nat)
    requires |b| == 4
    ensures n < 0x1_0000_0000
  {
    ((b[0] as int * 256 + b[1]) * 256 + b[2]) * 256 + b[3]
  }

  lemma NumberRoundTrip(n: nat)
    requires n < 0x1_0000_0000
    ensures FromBigEndian(BigEndian(n)) == n
  {
    var a, b, c := n / 0x100_0000, n / 0x1_0000, n / 0x100;
    assert c == n / 256 && b == c / 256 && a == b / 256;
  }

  lemma BytesRoundTrip(b: seq<Byte>)
    requires |b| == 4
    ensures BigEndian(FromBigEndian(b)) == b
  {
    var n3: int := b[0] as int * 256 + b[1];
    var n2: int := n3 * 256 + b[2];
    var n: int := FromBigEndian(b);
    assert n == n2 * 256 + b[3];
    assert n / 0x100 == n2 && n % 256 == b[3];
    assert n / 0x1_0000 == n2 / 256 == n3 && n / 0x100_0000 == n3 / 256 == b[0];
  }

  // ----- frames ---------------------------------------------------------------------

  function PackFrame(f: Frame): (r: Result<seq<Byte>, PackError>)
    ensures r.Ok? <==> Packable(f)
    ensures r.Ok? ==> |r.value| == HEADER_SIZE + |f.payload|
  {
    if !(0 <= f.kind < 256) then Err(KindOutOfRange)
    else if |f.payload| >= 0x1_0000_0000 then Err(PayloadTooLong)
    else Ok(MAGIC + [VERSION, f.kind] + BigEndian(|f.payload|) + f.payload)
  }

  function UnpackHeader(b: seq<Byte>): Result<(int, nat), HeaderError> {
    if |b| != HEADER_SIZE then Err(InvalidSize)
    else if b[..2] != MAGIC then Err(BadMagic)
    else if b[2] != VERSION then Err(UnsupportedVersion)
    else Ok((b[3] as int, FromBigEndian(b[4..8])))
  }

  /** The header of a packed frame unpacks to its kind and length. */
  lemma PackedHeader(f: Frame)
    requires Packable(f)
    ensures var packed := PackFrame(f);
      && packed.Ok? && |packed.value| == HEADER_SIZE + |f.payload|
      && UnpackHeader(packed.value[..HEADER_SIZE]) == Ok((f.kind, |f.payload|))
      && packed.value[HEADER_SIZE..] == f.payload
  {
    var b := PackFrame(f).value[..HEADER_SIZE];
    assert b[..2] == MAGIC && b[2] == VERSION && b[3] == f.kind && b[4..8] == BigEndian(|f.payload|);
    NumberRoundTrip(|f.payload|);
  }

  predicate HeaderOf(b: seq<Byte>, f: Frame) {
    Packable(f) && b == PackFrame(f).value[..HEADER_SIZE]
  }

  /** `unpack_header` accepts exactly the headers that `pack_frame` makes, and what it reads
      off is the kind and length of every frame with that header. */
  lemma AcceptsExactlyPackedHeaders(b: seq<Byte>)
    ensures UnpackHeader(b).Ok? <==> exists f :: HeaderOf(b, f)
    ensures forall f :: HeaderOf(b, f) ==> UnpackHeader(b) == Ok((f.kind, |f.payload|))
  {
    forall f | HeaderOf(b, f) ensures UnpackHeader(b) == Ok((f.kind, |f.payload|)) {
      PackedHeader(f);
    }
    if UnpackHeader(b).Ok? {
      var (kind, length) := UnpackHeader(b).value;
      var f := Frame(kind, seq(length, _ => 0));
      BytesRoundTrip(b[4..8]);
      assert b == b[..2] + [b[2], b[3]] + b[4..8];
      assert HeaderOf(b, f);
    }
  }

  /** The bytes on the wire: 'D', 'P', 1, the kind, the length from its highest byte down, and
      the payload. */
  lemma WireFormat(f: Frame)
    ensures var n := |f.payload|;
      PackFrame(f) ==
      if f.kind < 0 || f.kind > 255 then Err(KindOutOfRange)
      else if n > 4294967295 then Err(PayloadTooLong)
      else Ok([68, 80, 1, f.kind, n / 16777216, n / 65536 % 256, n / 256 % 256, n % 256] + f.payload)
  {
    if 0 <= f.kind < 256 && |f.payload| < 0x1_0000_0000 {
      var n := |f.payload|;
      assert MAGIC + [VERSION, f.kind] + BigEndian(n) ==
             [68, 80, 1, f.kind, n / 16777216, n / 65536 % 256, n / 256 % 256, n % 256];
    }
  }

  /** What each header is refused for, in order, or the kind and the length read off. */
  lemma HeaderOutcome(b: seq<Byte>)
    ensures UnpackHeader(b) ==
      if |b| != 8 then Err(InvalidSize)
      else if b[0] != 68 || b[1] != 80 then Err(BadMagic)
      else if b[2] != 1 then Err(UnsupportedVersion)
      else Ok((b[3] as int, b[4] as int * 16777216 + b[5] as int * 65536 + b[6] as int * 256 + b[7] as int))
  {
    if |b| == 8 {
      assert b[..2] == [b[0], b[1]];
    }
  }

  predicate AllPackable(frames: seq<Frame>) {
    frames == [] || (Packable(frames[0]) && AllPackable(frames[1..]))
  }

  function PackAll(frames: seq<Frame>): seq<Byte>
    requires AllPackable(frames)
  {
    if frames == [] then [] else PackFrame(frames[0]).value + PackAll(frames[1..])
  }

  // ----- reading --------------------------------------------------------------------

  /** A buffered stream: `read` returns a non-empty chunk of its own choosing, or nothing at
      the end. */
  class Stream {
    ghost var unread: seq<Byte>
    var data: seq<Byte>
    var position: nat

    ghost predicate Valid()
      reads this
    {
      position <= |data| && unread == data[position..]
    }

    constructor (data: seq<Byte>)
      ensures Valid() && unread == data
    {
      this.data, position, unread := data, 0, data;
    }

    method Read(n: nat) returns (chunk: seq<Byte>)
      requires Valid() && n > 0
      modifies this
      ensures Valid() && old(unread) == chunk + unread && |chunk| <= n
      ensures chunk == [] <==> old(unread) == []
    {
      if position == |data| {
        return [];
      }
      var size: nat :| 1 <= size <= n && position + size <= |data|;
      chunk := data[position..position + size];
      position := position + size;
      unread := unread[size..];
    }
  }

  /** Whatever the chunks, exactly `n` bytes come back, or all that is left. */
  method ReadExact(stream: Stream, n: nat) returns (r: seq<Byte>)
    requires stream.Valid()
    modifies stream
    ensures stream.Valid() && old(stream.unread) == r + stream.unread
    ensures |r| == Min(n, |old(stream.unread)|)
  {
    r := [];
    while |r| < n
      invariant stream.Valid() && |r| <= n
      invariant old(stream.unread) == r + stream.unread
      decreases n - |r|
    {
      var chunk := stream.Read(n - |r|);
      if chunk == [] {
        return;
      }
      r := r + chunk;
    }
  }

  /** Header, then payload; None at the end of the stream. */
  method ReadFrame(stream: Stream, ghost frames: seq<Frame>) returns (r: Option<Frame>)
    requires stream.Valid() && AllPackable(frames) && stream.unread == PackAll(frames)
    modifies stream
    ensures stream.Valid()
    ensures if frames == [] then r == None && stream.unread == []
            else r == Some(frames[0]) && stream.unread == PackAll(frames[1..])
  {
    ghost var all := stream.unread;
    var header := ReadExact(stream, HEADER_SIZE);
    if header == [] {
      NothingPacked(frames);
      return None;
    }
    FirstFrame(frames, all, header, stream.unread);
    var unpacked := UnpackHeader(header);
    ghost var middle := stream.unread;
    var payload := ReadExact(stream, unpacked.value.1);
    assert payload == middle[..|payload|] && stream.unread == middle[|payload|..];
    return Some(Frame(unpacked.value.0, payload));
  }

  /** Framed streams round trip: reading a packed list gives the list back, however the
      stream cuts it into chunks. */
  method ReadFrames(stream: Stream, ghost frames: seq<Frame>) returns (r: seq<Frame>)
    requires stream.Valid() && AllPackable(frames) && stream.unread == PackAll(frames)
    modifies stream
    ensures r == frames && stream.Valid() && stream.unread == []
  {
    r := [];
    ghost var rest := frames;
    while true
      invariant stream.Valid() && frames == r + rest
      invariant AllPackable(rest) && stream.unread == PackAll(rest)
      decreases |rest|
    {
      var f := ReadFrame(stream, rest);
      if f.None? {
        return;
      }
      r := r + [f.value];
      rest := rest[1..];
    }
  }

  lemma NothingPacked(frames: seq<Frame>)
    requires AllPackable(frames) && Min(HEADER_SIZE, |PackAll(frames)|) == 0
    ensures frames == []
  {
  }

  /** Reading a header off a packed list leaves the first payload and the other frames. */
  lemma FirstFrame(frames: seq<Frame>, all: seq<Byte>, header: seq<Byte>, rest: seq<Byte>)
    requires AllPackable(frames) && all == PackAll(frames) && all == header + rest
    requires |header| == Min(HEADER_SIZE, |all|) && header != []
    ensures frames != [] && UnpackHeader(header) == Ok((frames[0].kind, |frames[0].payload|))
    ensures rest == frames[0].payload + PackAll(frames[1..])
  {
    var f := frames[0];
    PackedHeader(f);
    var packed := PackFrame(f).value;
    assert packed == packed[..HEADER_SIZE] + packed[HEADER_SIZE..];
    assert all == packed[..HEADER_SIZE] + (f.payload + PackAll(frames[1..]));
    assert header == all[..HEADER_SIZE] && rest == all[HEADER_SIZE..];
  }

  // ----- the receive loop of the launcher -------------------------------------------

  /** The frames before the first empty payload. */
  function UpToEmpty(frames: seq<Frame>): seq<Frame> {
    if frames == [] || frames[0].payload == [] then [] else [frames[0]] + UpToEmpty(frames[1..])
  }

  function Commands(frames: seq<Frame>): seq<Frame> {
    if frames == [] then []
    else (if frames[0].kind == KIND_COMMAND then [frames[0]] else []) + Commands(frames[1..])
  }

  /** The loop ends at the first empty payload. */
  lemma {:induction false} EndsAtFirstEmpty(frames: seq<Frame>, k: nat)
    requires k <= |frames| && (forall i :: 0 <= i < k ==> frames[i].payload != [])
    requires k < |frames| ==> frames[k].payload == []
    ensures UpToEmpty(frames) == frames[..k]
  {
    if k > 0 {
      EndsAtFirstEmpty(frames[1..], k - 1);
      assert frames[..k] == [frames[0]] + frames[1..][..k - 1];
    }
  }

  /** Frames of kind 2 are commands, each kept in its place, and no others are. */
  lemma {:induction false} CommandsAreKindTwo(a: seq<Frame>, f: Frame)
    ensures Commands(a + [f]) == Commands(a) + if f.kind == 2 then [f] else []
    ensures forall g :: g in Commands(a) <==> g in a && g.kind == 2
  {
    if a == [] {
      assert a + [f] == [f] && [f][1..] == [];
    } else {
      CommandsAreKindTwo(a[1..], f);
      assert (a + [f])[1..] == a[1..] + [f];
      assert forall g :: g in a <==> g == a[0] || g in a[1..];
    }
  }

  lemma {:induction false} AllUpToEmptyIff(frames: seq<Frame>)
    ensures UpToEmpty(frames) == frames <==> forall f :: f in frames ==> f.payload != []
  {
    if frames != [] {
      AllUpToEmptyIff(frames[1..]);
      assert frames == [frames[0]] + frames[1..];
      if frames[0].payload != [] {
        assert UpToEmpty(frames)[1..] == UpToEmpty(frames[1..]);
      }
    }
  }

  /** The receive loop treats an empty payload as the end of the stream, so it handles the
      commands before the first empty frame: all commands, if no payload is empty. */
  method ReceiveCommands(stream: Stream, ghost frames: seq<Frame>) returns (handled: seq<Frame>)
    requires stream.Valid() && AllPackable(frames) && stream.unread == PackAll(frames)
    modifies stream
    ensures handled == Commands(UpToEmpty(frames))
    ensures (forall f :: f in frames ==> f.payload != []) ==> handled == Commands(frames)
  {
    hide UpToEmpty, Commands, PackAll;
    AllUpToEmptyIff(frames);
    handled := [];
    ghost var rest := frames;
    while true
      invariant stream.Valid() && Commands(UpToEmpty(frames)) == handled + Commands(UpToEmpty(rest))
      invariant AllPackable(rest) && stream.unread == PackAll(rest)
      decreases |rest|
    {
      var f := ReadFrame(stream, rest);
      if f.None? || f.value.payload == [] {
        CommandsEnd(rest);
        return;
      }
      CommandsStep(rest);
      if f.value.kind == KIND_COMMAND {
        handled := handled + [f.value];
      }
      rest := rest[1..];
    }
  }

  lemma CommandsEnd(frames: seq<Frame>)
    requires frames == [] || frames[0].payload == []
    ensures Commands(UpToEmpty(frames)) == []
  {
  }

  lemma CommandsStep(frames: seq<Frame>)
    requires frames != [] && frames[0].payload != []
    ensures Commands(UpToEmpty(frames)) ==
      (if frames[0].kind == KIND_COMMAND then [frames[0]] else []) + Commands(UpToEmpty(frames[1..]))
  {
    assert UpToEmpty(frames)[1..] == UpToEmpty(frames[1..]);
  }
}
