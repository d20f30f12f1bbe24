/** The resumable tar scanner of src/wheelguard/distributions.py.

    The scanner is specified one byte at a time by `Push`; `Absorb` folds it over a string. The class
    `TarMetadata` is the buffered loop of the source, and its `Feed` is proved to compute `Absorb`. */
module TarScanner {
  import opened Prelude

  const BLOCK: nat := 512
  const METADATA_LIMIT: nat := 1024 * 1024

  /** What `tarfile` reports about one header block. */
  datatype TarInfo = TarInfo(size: int, name: string, regular: bool)

  /** Header decoding is a parameter; `None` stands for a header or Unicode error. */
  type Decoder = Bytes -> Option<TarInfo>

  datatype ScanError =
    | DataAfterEnd
    | InvalidHeader
    | InvalidMemberSize
    | InvalidMetadataMember
    | EmptyMetadata

  datatype Scan = Scan(
    buffer: Bytes,
    remaining: nat,
    padding: nat,
    capture: bool,
    metadata: Option<Bytes>,
    member: Bytes,
    ended: bool)

  const INITIAL: Scan := Scan([], 0, 0, false, None, [], false)

  /** `<dir>/PKG-INFO` with exactly one slash. */
  predicate IsMetadataName(name: string) {
    && |name| >= 9
    && name[|name| - 9..] == "/PKG-INFO"
    && '/' !in name[..|name| - 9]
  }

  /** `(-size) % 512` */
  function Padding(size: nat): (p: nat)
    ensures p < BLOCK && (size + p) % BLOCK == 0
  {
    var rest := size % BLOCK;
    assert size == size / BLOCK * BLOCK + rest;
    if rest == 0 then 0
    else
      assert size + (BLOCK - rest) == (size / BLOCK + 1) * BLOCK;
      BLOCK - rest
  }

  /** A complete header block read by a scanner that is between members. */
  function OpenMember(d: Decoder, s: Scan, header: Bytes): Result<Scan, ScanError> {
    if header == Zeros(BLOCK) then Success(s.(ended := true))
    else if s.ended then Failure(DataAfterEnd)
    else match d(header)
      case None => Failure(InvalidHeader)
      case Some(info) =>
        var capture := IsMetadataName(info.name);
        if info.size < 0 then Failure(InvalidMemberSize)
        else if capture && (!info.regular || info.size > METADATA_LIMIT || s.metadata.Some?) then
          Failure(InvalidMetadataMember)
        else if capture && info.size == 0 then Failure(EmptyMetadata)
        else
          Success(s.(capture := capture, member := [], remaining := info.size, padding := Padding(info.size)))
  }

  /** The reference automaton: one byte of the archive. */
  function Push(d: Decoder, s: Scan, b: byte): Result<Scan, ScanError> {
    if s.remaining > 0 then
      var member := if s.capture then s.member + [b] else s.member;
      Success(s.(
              member := member,
              remaining := s.remaining - 1,
              metadata := if s.capture && s.remaining == 1 then Some(member) else s.metadata))
    else if s.padding > 0 then Success(s.(padding := s.padding - 1))
    else if |s.buffer| + 1 < BLOCK then Success(s.(buffer := s.buffer + [b]))
    else OpenMember(d, s.(buffer := []), s.buffer + [b])
  }

  function Absorb(d: Decoder, s: Scan, data: Bytes): Result<Scan, ScanError>
    decreases data
  {
    if data == [] then Success(s)
    else match Push(d, s, data[0])
      case Failure(e) => Failure(e)
      case Success(next) => Absorb(d, next, data[1..])
  }

  /** Continue with `data` unless the scan already failed. */
  function AbsorbAfter(d: Decoder, r: Result<Scan, ScanError>, data: Bytes): Result<Scan, ScanError> {
    if r.Failure? then r else Absorb(d, r.value, data)
  }

  /** Chunking independence of the reference: only the bytes matter, not where they are cut. */
  lemma {:induction false} AbsorbSplit(d: Decoder, s: Scan, a: Bytes, b: Bytes)
    ensures Absorb(d, s, a + b) == AbsorbAfter(d, Absorb(d, s, a), b)
    decreases a
  {
    if a == [] {
      assert a + b == b;
    } else {
      assert (a + b)[0] == a[0] && (a + b)[1..] == a[1..] + b;
      var r := Push(d, s, a[0]);
      if r.Success? {
        AbsorbSplit(d, r.value, a[1..], b);
      }
    }
  }

  /** Successive feeds; the first error ends the scan. */
  function FeedEach(d: Decoder, s: Scan, chunks: seq<Bytes>): Result<Scan, ScanError>
    decreases chunks
  {
    if chunks == [] then Success(s)
    else match Absorb(d, s, chunks[0])
      case Failure(e) => Failure(e)
      case Success(next) => FeedEach(d, next, chunks[1..])
  }

  /** Every way of cutting a stream into chunks gives the same state, or the same error. */
  lemma {:induction false} ChunkingIndependent(d: Decoder, s: Scan, chunks: seq<Bytes>)
    ensures FeedEach(d, s, chunks) == Absorb(d, s, Concat(chunks))
    decreases chunks
  {
    if chunks != [] {
      AbsorbSplit(d, s, chunks[0], Concat(chunks[1..]));
      var r := Absorb(d, s, chunks[0]);
      if r.Success? {
        ChunkingIndependent(d, r.value, chunks[1..]);
      }
    }
  }

  // ---------- invariants of the scanner ----------

  /** What every state between two feeds satisfies. */
  predicate WellFormed(s: Scan) {
    && |s.buffer| < BLOCK
    && (s.remaining > 0 || s.padding > 0 ==> s.buffer == [])
    && Bounded(s)
  }

  /** Storage bounds and bookkeeping that hold even in the middle of a feed. */
  predicate Bounded(s: Scan) {
    && s.padding < BLOCK
    && (s.ended ==> s.remaining == 0 && s.padding == 0)
    && |s.member| <= METADATA_LIMIT
    && (s.metadata.Some? ==> 0 < |s.metadata.value| <= METADATA_LIMIT)
    && (s.capture && s.remaining > 0 ==>
          && s.metadata == None
          && |s.member| + s.remaining <= METADATA_LIMIT)
    && (!s.capture ==> s.member == [])
  }

  lemma PushWellFormed(d: Decoder, s: Scan, b: byte)
    requires WellFormed(s) && Push(d, s, b).Success?
    ensures WellFormed(Push(d, s, b).value)
  {
  }

  lemma {:induction false} AbsorbWellFormed(d: Decoder, s: Scan, data: Bytes)
    requires WellFormed(s) && Absorb(d, s, data).Success?
    ensures WellFormed(Absorb(d, s, data).value)
    decreases data
  {
    if data != [] {
      PushWellFormed(d, s, data[0]);
      AbsorbWellFormed(d, Push(d, s, data[0]).value, data[1..]);
    }
  }

  /** Header blocks start at multiples of 512: `position` bytes of the archive have been consumed. */
  predicate Aligned(s: Scan, position: nat) {
    Boundary(s, position) % BLOCK == 0
  }

  /** Where the header being received starts, or the next one will. */
  function Boundary(s: Scan, position: nat): int {
    position - |s.buffer| + s.remaining + s.padding
  }

  lemma SumAligned(a: int, b: int)
    requires a % BLOCK == 0 && b % BLOCK == 0
    ensures (a + b) % BLOCK == 0
  {
    assert a == a / BLOCK * BLOCK && b == b / BLOCK * BLOCK;
    assert a + b == (a / BLOCK + b / BLOCK) * BLOCK;
  }

  /** The boundary stays, or moves behind the member that a header opens. */
  lemma PushMovesBoundary(d: Decoder, s: Scan, position: nat, b: byte)
    requires WellFormed(s) && Push(d, s, b).Success?
    ensures
      var moved := Boundary(Push(d, s, b).value, position + 1) - Boundary(s, position);
      moved == 0 || moved == BLOCK || exists size: nat :: moved == BLOCK + (size + Padding(size))
  {
    if AtHeader(s) {
      var header := s.buffer + [b];
      if header != Zeros(BLOCK) {
        var size: nat := d(header).value.size;
        assert Push(d, s, b).value.remaining == size && Push(d, s, b).value.padding == Padding(size);
      }
    }
  }

  lemma PushAligned(d: Decoder, s: Scan, position: nat, b: byte)
    requires WellFormed(s) && Aligned(s, position) && Push(d, s, b).Success?
    ensures WellFormed(Push(d, s, b).value) && Aligned(Push(d, s, b).value, position + 1)
  {
    PushWellFormed(d, s, b);
    PushMovesBoundary(d, s, position, b);
    var moved := Boundary(Push(d, s, b).value, position + 1) - Boundary(s, position);
    if moved != 0 && moved != BLOCK {
      var size: nat :| moved == BLOCK + (size + Padding(size));
      SumAligned(BLOCK, size + Padding(size));
    }
    SumAligned(Boundary(s, position), moved);
  }

  lemma {:induction false} AbsorbAligned(d: Decoder, s: Scan, position: nat, data: Bytes)
    requires WellFormed(s) && Aligned(s, position) && Absorb(d, s, data).Success?
    ensures Aligned(Absorb(d, s, data).value, position + |data|)
    decreases data
  {
    if data != [] {
      var next := Push(d, s, data[0]).value;
      PushAligned(d, s, position, data[0]);
      AbsorbAligned(d, next, position + 1, data[1..]);
    }
  }

  /** The carried-over bytes are the last bytes of the stream. */
  predicate Carries(s: Scan, stream: Bytes) {
    |s.buffer| <= |stream| && stream[|stream| - |s.buffer|..] == s.buffer
  }

  lemma PushCarries(d: Decoder, s: Scan, stream: Bytes, b: byte)
    requires WellFormed(s) && Carries(s, stream) && Push(d, s, b).Success?
    ensures Carries(Push(d, s, b).value, stream + [b])
  {
    var k := |stream| - |s.buffer|;
    assert (stream + [b])[k..] == stream[k..] + [b];
  }

  lemma {:induction false} AbsorbCarries(d: Decoder, s: Scan, stream: Bytes, data: Bytes)
    requires WellFormed(s) && Carries(s, stream) && Absorb(d, s, data).Success?
    ensures Carries(Absorb(d, s, data).value, stream + data)
    decreases data
  {
    if data == [] {
      assert stream + data == stream;
    } else {
      PushWellFormed(d, s, data[0]);
      PushCarries(d, s, stream, data[0]);
      AbsorbCarries(d, Push(d, s, data[0]).value, stream + [data[0]], data[1..]);
      assert stream + [data[0]] + data[1..] == stream + data;
    }
  }

  /** The next byte completes a header. */
  predicate AtHeader(s: Scan) {
    s.remaining == 0 && s.padding == 0 && |s.buffer| + 1 == BLOCK
  }

  /** Every header that is interpreted is the block of the stream that starts at some multiple of 512. */
  lemma HeadersAligned(d: Decoder, before: Bytes, b: byte)
    requires Absorb(d, INITIAL, before).Success? && AtHeader(Absorb(d, INITIAL, before).value)
    ensures
      var s := Absorb(d, INITIAL, before).value;
      var start := |before| + 1 - BLOCK;
      && start >= 0 && start % BLOCK == 0
      && Push(d, s, b) == OpenMember(d, s.(buffer := []), (before + [b])[start..])
  {
    AbsorbAligned(d, INITIAL, 0, before);
    AbsorbCarries(d, INITIAL, [], before);
    assert [] + before == before;
    HeaderBlock(d, Absorb(d, INITIAL, before).value, before, b);
  }

  lemma HeaderBlock(d: Decoder, s: Scan, before: Bytes, b: byte)
    requires AtHeader(s) && Aligned(s, |before|) && Carries(s, before)
    ensures
      var start := |before| + 1 - BLOCK;
      && start >= 0 && start % BLOCK == 0
      && Push(d, s, b) == OpenMember(d, s.(buffer := []), (before + [b])[start..])
  {
    var start := |before| + 1 - BLOCK;
    assert (before + [b])[start..] == before[start..] + [b];
  }

  // ---------- bulk steps: many pushes at once ----------

  /** The scan after `piece`, a piece of the content of the current member. */
  function AfterContent(s: Scan, piece: Bytes): Scan
    requires |piece| <= s.remaining
  {
    var member := if s.capture then s.member + piece else s.member;
    s.(member := member,
       remaining := s.remaining - |piece|,
       metadata := if s.capture && 0 < |piece| == s.remaining then Some(member) else s.metadata)
  }

  lemma {:induction false} AbsorbContent(d: Decoder, s: Scan, piece: Bytes)
    requires |piece| <= s.remaining
    ensures Absorb(d, s, piece) == Success(AfterContent(s, piece))
    decreases piece
  {
    if piece == [] {
      assert s.member + piece == s.member;
    } else {
      AbsorbContent(d, Push(d, s, piece[0]).value, piece[1..]);
      assert s.member + piece == (s.member + [piece[0]]) + piece[1..];
    }
  }

  lemma {:induction false} AbsorbPadding(d: Decoder, s: Scan, data: Bytes)
    requires s.remaining == 0 && |data| <= s.padding
    ensures Absorb(d, s, data) == Success(s.(padding := s.padding - |data|))
    decreases data
  {
    if data != [] {
      AbsorbPadding(d, s.(padding := s.padding - 1), data[1..]);
    }
  }

  lemma {:induction false} AbsorbPartial(d: Decoder, s: Scan, data: Bytes)
    requires s.remaining == 0 && s.padding == 0 && |s.buffer| + |data| < BLOCK
    ensures Absorb(d, s, data) == Success(s.(buffer := s.buffer + data))
    decreases data
  {
    if data == [] {
      assert s.buffer + data == s.buffer;
    } else {
      AbsorbPartial(d, s.(buffer := s.buffer + [data[0]]), data[1..]);
      assert s.buffer + data == (s.buffer + [data[0]]) + data[1..];
    }
  }

  lemma AbsorbHeader(d: Decoder, s: Scan, header: Bytes)
    requires s.remaining == 0 && s.padding == 0 && s.buffer == [] && |header| == BLOCK
    ensures Absorb(d, s, header) == OpenMember(d, s, header)
  {
    var front, last := header[..BLOCK - 1], header[BLOCK - 1];
    assert header == front + [last];
    AbsorbPartial(d, s, front);
    AbsorbSplit(d, s, front, [last]);
    assert s.buffer + front + [last] == header;
    var mid := s.(buffer := front);
    assert Absorb(d, s, header) == Absorb(d, mid, [last]);
    assert mid.(buffer := []) == s && front + [last] == header;
    assert Push(d, mid, last) == OpenMember(d, s, header);
    AbsorbOne(d, mid, last);
  }

  lemma AbsorbOne(d: Decoder, s: Scan, b: byte)
    ensures Absorb(d, s, [b]) == Push(d, s, b)
  {
    var r := Push(d, s, b);
    assert [b][1..] == [];
    if r.Success? {
      assert Absorb(d, r.value, []) == r;
    }
  }

  lemma TakeContent(d: Decoder, s: Scan, data: Bytes, count: nat)
    requires count <= |data| && count <= s.remaining
    ensures Absorb(d, s, data) == Absorb(d, AfterContent(s, data[..count]), data[count..])
  {
    assert data == data[..count] + data[count..];
    AbsorbContent(d, s, data[..count]);
    AbsorbSplit(d, s, data[..count], data[count..]);
  }

  lemma TakePadding(d: Decoder, s: Scan, data: Bytes, count: nat)
    requires s.remaining == 0 && count <= |data| && count <= s.padding
    ensures Absorb(d, s, data) == Absorb(d, s.(padding := s.padding - count), data[count..])
  {
    assert data == data[..count] + data[count..];
    AbsorbPadding(d, s, data[..count]);
    AbsorbSplit(d, s, data[..count], data[count..]);
  }

  lemma TakeHeader(d: Decoder, s: Scan, data: Bytes)
    requires s.remaining == 0 && s.padding == 0 && s.buffer == [] && |data| >= BLOCK
    ensures Absorb(d, s, data) == AbsorbAfter(d, OpenMember(d, s, data[..BLOCK]), data[BLOCK..])
  {
    assert data == data[..BLOCK] + data[BLOCK..];
    AbsorbHeader(d, s, data[..BLOCK]);
    AbsorbSplit(d, s, data[..BLOCK], data[BLOCK..]);
  }

  // ---------- the buffered scanner ----------

  /** Scan tar blocks with bounded storage: a partial header, the rest of a member, and its padding
      carry over from one call of `Feed` to the next. */
  class TarMetadata {
    const decode: Decoder
    var buffer: Bytes
    var remaining: nat
    var padding: nat
    var capture: bool
    var metadata: Option<Bytes>
    var member: Bytes
    var ended: bool

    function State(): Scan
      reads this
    {
      Scan(buffer, remaining, padding, capture, metadata, member, ended)
    }

    predicate Valid()
      reads this
    {
      WellFormed(State())
    }

    constructor (decode: Decoder)
      ensures Valid() && State() == INITIAL && this.decode == decode
    {
      this.decode := decode;
      buffer, remaining, padding, capture, metadata, member, ended := [], 0, 0, false, None, [], false;
    }

    /** The scanner with its unread bytes set aside. */
    function Read(): Scan
      reads this
    {
      State().(buffer := [])
    }

    method Feed(data: Bytes) returns (r: Outcome<ScanError>)
      requires Valid()
      modifies this
      ensures r.Pass? ==> Valid() && Absorb(decode, old(State()), data) == Success(State())
      ensures r.Fail? ==> Absorb(decode, old(State()), data) == Failure(r.error)
    {
      ghost var start := State();
      buffer := buffer + data;
      Rebuffer(decode, start, data);
      while buffer != []
        invariant Bounded(State())
        invariant Absorb(decode, start, data) == Absorb(decode, Read(), buffer)
        decreases |buffer|
      {
        var waiting := Drain();
        if waiting {
          return Pass;
        }
        if |buffer| < BLOCK {
          AbsorbPartial(decode, Read(), buffer);
          assert [] + buffer == buffer;
          return Pass;
        }
        var header := buffer[..BLOCK];
        TakeHeader(decode, Read(), buffer);
        buffer := buffer[BLOCK..];
        r := Open(header);
        if r.Fail? {
          return;
        }
      }
      return Pass;
    }

    /** The first half of a pass: consume the rest of the current member, then its padding. */
    method Drain() returns (waiting: bool)
      requires Bounded(State())
      modifies this
      ensures Bounded(State()) && |buffer| <= |old(buffer)|
      ensures Absorb(decode, old(Read()), old(buffer)) == Absorb(decode, Read(), buffer)
      ensures waiting <==> remaining > 0 || padding > 0
      ensures waiting ==> buffer == []
    {
      if remaining > 0 {
        var count := Min(remaining, |buffer|);
        TakeContent(decode, Read(), buffer, count);
        if capture {
          member := member + buffer[..count];
        }
        buffer := buffer[count..];
        remaining := remaining - count;
        if remaining > 0 {
          return true;
        }
        if capture {
          metadata := Some(member);
        }
      }
      if padding > 0 {
        var count := Min(padding, |buffer|);
        TakePadding(decode, Read(), buffer, count);
        buffer := buffer[count..];
        padding := padding - count;
        if padding > 0 {
          return true;
        }
      }
      return false;
    }

    /** The second half of a pass: interpret one header block. */
    method Open(header: Bytes) returns (r: Outcome<ScanError>)
      requires Bounded(State()) && remaining == 0 && padding == 0
      modifies this
      ensures r.Pass? ==>
        Bounded(State()) && buffer == old(buffer) && OpenMember(decode, old(Read()), header) == Success(Read())
      ensures r.Fail? ==> OpenMember(decode, old(Read()), header) == Failure(r.error)
    {
      if header == Zeros(BLOCK) {
        ended := true;
        return Pass;
      }
      if ended {
        return Fail(DataAfterEnd);
      }
      var decoded := decode(header);
      if decoded.None? {
        return Fail(InvalidHeader);
      }
      var info := decoded.value;
      if info.size < 0 {
        return Fail(InvalidMemberSize);
      }
      capture := IsMetadataName(info.name);
      if capture && (!info.regular || info.size > METADATA_LIMIT || metadata.Some?) {
        return Fail(InvalidMetadataMember);
      }
      member := [];
      remaining := info.size;
      padding := Padding(info.size);
      if capture && info.size == 0 {
        return Fail(EmptyMetadata);
      }
      return Pass;
    }
  }

  /** Putting the carried-over bytes back in front of the new ones changes nothing. */
  lemma Rebuffer(d: Decoder, s: Scan, data: Bytes)
    requires WellFormed(s)
    ensures Absorb(d, s, data) == Absorb(d, s.(buffer := []), s.buffer + data)
  {
    var idle := s.(buffer := []);
    if s.buffer == [] {
      assert s.buffer + data == data;
    } else {
      AbsorbPartial(d, idle, s.buffer);
      AbsorbSplit(d, idle, s.buffer, data);
      assert idle.(buffer := [] + s.buffer) == s;
    }
  }
}
