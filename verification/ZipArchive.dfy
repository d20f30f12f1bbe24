/** The part of the ZIP format that src/wheelguard/distributions.py reads, as a writer lays it out: the local file
    header of section 4.3.7 and the end of central directory record of section 4.3.16 of PKWARE's APPNOTE. */
module ZipArchive {
  import opened Prelude

  const LOCAL_SIGNATURE: Bytes := [0x50, 0x4b, 3, 4]
  const END_SIGNATURE: Bytes := [0x50, 0x4b, 5, 6]

  const LOCAL_SIZE: nat := 30
  const END_SIZE: nat := 22

  /** The largest comment a two-byte length can announce. */
  const COMMENT_LIMIT: nat := 65535

  /** A little-endian field of `width` bytes. */
  function Field(width: nat, n: nat): (b: Bytes)
    ensures |b| == width
  {
    if width == 0 then [] else [n % 256] + Field(width - 1, n / 256)
  }

  function Number(b: Bytes): nat {
    if b == [] then 0 else b[0] + 256 * Number(b[1..])
  }

  function Capacity(width: nat): (c: nat)
    ensures c > 0
  {
    if width == 0 then 1 else 256 * Capacity(width - 1)
  }

  lemma {:induction false} NumberOfField(width: nat, n: nat)
    requires n < Capacity(width)
    ensures Number(Field(width, n)) == n
  {
    if width > 0 {
      NumberOfField(width - 1, n / 256);
      assert Field(width, n)[1..] == Field(width - 1, n / 256);
    }
  }

  lemma {:induction false} FieldOfNumber(b: Bytes)
    ensures Number(b) < Capacity(|b|)
    ensures Field(|b|, Number(b)) == b
  {
    if b != [] {
      FieldOfNumber(b[1..]);
      assert b == [b[0]] + b[1..];
    }
  }

  /** Two- and four-byte fields: reading one and writing one undo each other. */
  lemma Two(b: Bytes, n: nat)
    requires |b| == 2
    ensures Number(b) < 0x1_0000
    ensures n < 0x1_0000 ==> (b == Field(2, n) <==> Number(b) == n)
  {
    assert Capacity(2) == 0x1_0000;
    FieldOfNumber(b);
    if n < 0x1_0000 {
      NumberOfField(2, n);
    }
  }

  lemma Four(b: Bytes, n: nat)
    requires |b| == 4
    ensures Number(b) < 0x1_0000_0000
    ensures n < 0x1_0000_0000 ==> (b == Field(4, n) <==> Number(b) == n)
  {
    assert Capacity(4) == 0x1_0000_0000;
    FieldOfNumber(b);
    if n < 0x1_0000_0000 {
      NumberOfField(4, n);
    }
  }

  /** The end record of a one-disk archive, followed by its comment. */
  function EndRecord(entries: nat, size: nat, offset: nat, comment: Bytes): (r: Bytes)
    ensures |r| == END_SIZE + |comment| && r[..4] == END_SIGNATURE
  {
    END_SIGNATURE + Field(2, 0) + Field(2, 0) + Field(2, entries) + Field(2, entries)
    + Field(4, size) + Field(4, offset) + Field(2, |comment|) + comment
  }

  function LocalHeader(middle: Bytes, name: nat, extra: nat): (h: Bytes)
    requires |middle| == 22
    ensures |h| == LOCAL_SIZE
  {
    LOCAL_SIGNATURE + middle + Field(2, name) + Field(2, extra)
  }

  /** An archive seen from one of its members. */
  datatype Archive = Archive(
    before: Bytes,     // whatever precedes the member
    middle: Bytes,     // the local header between its signature and its two lengths
    name: Bytes,
    extra: Bytes,
    data: Bytes,       // the member as stored
    between: Bytes,    // whatever follows it
    directory: Bytes,
    entries: nat,
    comment: Bytes)
  {
    predicate WellFormed() {
      && |middle| == 22
      && |name| < 0x1_0000
      && |extra| < 0x1_0000
      && |comment| <= COMMENT_LIMIT
      && |directory| < 0x1_0000_0000
      && |before| + LOCAL_SIZE + |name| + |extra| + |data| + |between| < 0x1_0000_0000
      && entries < 0x1_0000
    }

    function Member(): Bytes
      requires WellFormed()
    {
      LocalHeader(middle, |name|, |extra|) + name + extra + data
    }

    function Files(): Bytes
      requires WellFormed()
    {
      before + Member() + between
    }

    function End(): Bytes
      requires WellFormed()
    {
      EndRecord(entries, |directory|, |Files()|, comment)
    }

    /** The archive as a file. */
    function Written(): Bytes
      requires WellFormed()
    {
      Files() + directory + End()
    }

    function EndAt(): nat
      requires WellFormed()
    {
      |Files()| + |directory|
    }
  }

  /** The fields of the first 22 bytes, at the offsets of `struct.unpack("<4s4H2LH", ...)`. */
  datatype EndFields = EndFields(
    disk: nat, directoryDisk: nat, diskEntries: nat, entries: nat, size: nat, offset: nat, comment: nat)

  function Unpack(r: Bytes): EndFields
    requires |r| >= END_SIZE
  {
    EndFields(Number(r[4..6]), Number(r[6..8]), Number(r[8..10]), Number(r[10..12]),
              Number(r[12..16]), Number(r[16..20]), Number(r[20..22]))
  }

  /** A string of the record's shape is its pieces, and its pieces are its slices. */
  lemma Pieces(r: Bytes, a: Bytes, b: Bytes, c: Bytes, d: Bytes, e: Bytes, f: Bytes, g: Bytes, h: Bytes, rest: Bytes)
    requires |a| == 4 && |b| == 2 && |c| == 2 && |d| == 2 && |e| == 2 && |f| == 4 && |g| == 4 && |h| == 2
    requires |r| >= END_SIZE
    ensures r == a + b + c + d + e + f + g + h + rest <==>
            && r[..4] == a && r[4..6] == b && r[6..8] == c && r[8..10] == d && r[10..12] == e
            && r[12..16] == f && r[16..20] == g && r[20..22] == h && r[22..] == rest
  {
  }

  /** Unpacking recognises exactly the records that a writer produces. */
  lemma UnpackIff(r: Bytes, e: EndFields)
    requires |r| >= END_SIZE && e == Unpack(r)
    ensures e.size < 0x1_0000_0000 && e.offset < 0x1_0000_0000 && e.entries < 0x1_0000
    ensures && r[..4] == END_SIGNATURE && e.disk == 0 && e.directoryDisk == 0 && e.diskEntries == e.entries
            && |r| == END_SIZE + e.comment
            <==>
            && |r| <= END_SIZE + COMMENT_LIMIT
            && r == EndRecord(e.entries, e.size, e.offset, r[22..])
  {
    UnpackFields(r, e);
    UnpackLengths(r, e);
    Pieces(r, END_SIGNATURE, Field(2, 0), Field(2, 0), Field(2, e.entries), Field(2, e.entries),
           Field(4, e.size), Field(4, e.offset), Field(2, |r| - 22), r[22..]);
  }

  lemma UnpackFields(r: Bytes, e: EndFields)
    requires |r| >= END_SIZE && e == Unpack(r)
    ensures e.entries < 0x1_0000
    ensures r[4..6] == Field(2, 0) <==> e.disk == 0
    ensures r[6..8] == Field(2, 0) <==> e.directoryDisk == 0
    ensures r[8..10] == Field(2, e.entries) <==> e.diskEntries == e.entries
    ensures r[10..12] == Field(2, e.entries)
  {
    Two(r[4..6], 0);
    Two(r[6..8], 0);
    Two(r[10..12], e.entries);
    Two(r[8..10], e.entries);
  }

  lemma UnpackLengths(r: Bytes, e: EndFields)
    requires |r| >= END_SIZE && e == Unpack(r)
    ensures e.size < 0x1_0000_0000 && e.offset < 0x1_0000_0000 && e.comment < 0x1_0000
    ensures r[12..16] == Field(4, e.size) && r[16..20] == Field(4, e.offset)
    ensures |r| - 22 < 0x1_0000 ==> (r[20..22] == Field(2, |r| - 22) <==> e.comment == |r| - 22)
  {
    Four(r[12..16], e.size);
    Four(r[16..20], e.offset);
    Two(r[20..22], |r| - 22);
  }

  /** Reading back what a writer wrote. */
  lemma UnpackWritten(entries: nat, size: nat, offset: nat, comment: Bytes)
    requires entries < 0x1_0000 && size < 0x1_0000_0000 && offset < 0x1_0000_0000 && |comment| <= COMMENT_LIMIT
    ensures Unpack(EndRecord(entries, size, offset, comment))
         == EndFields(0, 0, entries, entries, size, offset, |comment|)
    ensures EndRecord(entries, size, offset, comment)[END_SIZE..] == comment
  {
    var r := EndRecord(entries, size, offset, comment);
    Pieces(r, END_SIGNATURE, Field(2, 0), Field(2, 0), Field(2, entries), Field(2, entries),
           Field(4, size), Field(4, offset), Field(2, |comment|), comment);
    WrittenFields(entries, |comment|);
    Four(Field(4, size), size);
    Four(Field(4, offset), offset);
  }

  lemma WrittenFields(entries: nat, comment: nat)
    requires entries < 0x1_0000 && comment <= COMMENT_LIMIT
    ensures Number(Field(2, 0)) == 0 && Number(Field(2, entries)) == entries && Number(Field(2, comment)) == comment
  {
    Two(Field(2, 0), 0);
    Two(Field(2, entries), entries);
    Two(Field(2, comment), comment);
  }

  /** The 30 bytes of a local header, likewise. */
  lemma LocalHeaderIff(h: Bytes, name: nat, extra: nat)
    requires |h| == LOCAL_SIZE && name < 0x1_0000 && extra < 0x1_0000
    ensures h == LocalHeader(h[4..26], name, extra) <==>
            h[..4] == LOCAL_SIGNATURE && Number(h[26..28]) == name && Number(h[28..30]) == extra
  {
    Two(h[26..28], name);
    Two(h[28..30], extra);
    var w := LocalHeader(h[4..26], name, extra);
    assert w[..4] == LOCAL_SIGNATURE && w[4..26] == h[4..26];
    assert w[26..28] == Field(2, name) && w[28..30] == Field(2, extra);
    assert h == h[..4] + h[4..26] + h[26..28] + h[28..30];
  }
}
