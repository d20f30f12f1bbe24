/** A legal archive that is read, and no longer read once its comment ends in the signature of the end record. */
module ZipExample {
  import opened Prelude
  import opened ZipArchive
  import opened ZipMetadata

  /** The CRC-32 of the content, and its bytes. */
  const CHECKSUM: nat := 1281784366
  const CRC: Bytes := [46, 122, 102, 76]

  const CONTENT: Bytes := [7]

  const NAME: Bytes := [112, 47, 80, 75, 71, 45, 73, 78, 70, 79]

  /** Version, flags, method, time, checksum and the two sizes, as both headers have them. */
  const MIDDLE: Bytes := [20, 0, 0, 0, 0, 0, 0, 0, 33, 0] + CRC + [1, 0, 0, 0, 1, 0, 0, 0]

  /** The central header of section 4.3.12: 46 bytes, and the name. */
  const DIRECTORY: Bytes :=
    [0x50, 0x4b, 1, 2, 20, 0] + MIDDLE + [10, 0, 0, 0, 0, 0, 0, 0, 0, 0, 0, 0, 0, 0, 0, 0, 0, 0] + NAME

  const ENTRY: Entry := Entry("p/PKG-INFO", -41, 1, 1, 0, 0, CHECKSUM)

  /** Libraries that know this directory, this name and this content. */
  const LIBRARIES: Libraries := Libraries(
    bytes => if DIRECTORY <= bytes then Some([ENTRY]) else None,
    (name, utf8) => if name == "p/PKG-INFO" then NAME else [],
    _ => Corrupt,
    content => if content == CONTENT then CHECKSUM else 0)

  /** One member with one byte of content, its directory, and a comment. */
  function Example(comment: Bytes): Archive {
    Archive([], MIDDLE, NAME, [], CONTENT, [], DIRECTORY, 1, comment)
  }

  lemma ExampleShape(comment: Bytes)
    requires |comment| <= COMMENT_LIMIT
    ensures
      var a := Example(comment);
      a.WellFormed() && |a.Files()| == 41 && a.EndAt() == 97 && a.End() == EndRecord(1, 56, 41, comment)
  {
  }

  lemma FieldBytes()
    ensures END_SIGNATURE[0] !in Field(2, 0) && END_SIGNATURE[0] !in Field(2, 1)
    ensures END_SIGNATURE[0] !in Field(4, 56) && END_SIGNATURE[0] !in Field(4, 41)
  {
    assert Field(2, 0) == [0, 0] && Field(2, 1) == [1, 0];
    assert Field(4, 56) == [56, 0] + Field(2, 0) && Field(4, 41) == [41, 0] + Field(2, 0);
  }

  lemma FirstOnly(sig: Bytes, a: Bytes, b: Bytes, c: Bytes, d: Bytes, e: Bytes, f: Bytes, g: Bytes)
    requires sig != [] && sig[0] !in sig[1..]
    requires sig[0] !in a && sig[0] !in b && sig[0] !in c && sig[0] !in d && sig[0] !in e && sig[0] !in f && sig[0] !in g
    ensures sig[0] !in (sig + a + b + c + d + e + f + g + [])[1..]
  {
    assert (sig + a + b + c + d + e + f + g + [])[1..] == sig[1..] + a + b + c + d + e + f + g;
  }

  lemma RecordHasOne()
    ensures END_SIGNATURE[0] !in EndRecord(1, 56, 41, [])[1..]
  {
    FieldBytes();
    FirstOnly(END_SIGNATURE, Field(2, 0), Field(2, 0), Field(2, 1), Field(2, 1), Field(4, 56), Field(4, 41), Field(2, 0));
  }

  /** The signature begins with a byte that the rest of the record does not contain. */
  lemma NoLaterSignature()
    ensures
      var a := Example([]);
      a.WellFormed() && forall i | i > a.EndAt() :: !Occurs(a.Written(), i)
  {
    var a := Example([]);
    ExampleShape([]);
    RecordHasOne();
    assert a.Written()[97..] == a.End();
    OnlyFirst(a.Written(), 97);
  }

  lemma OnlyFirst(file: Bytes, e: nat)
    requires e < |file| && END_SIGNATURE[0] !in file[e..][1..]
    ensures forall i | i > e :: !Occurs(file, i)
  {
    forall i | i > e ensures !Occurs(file, i) {
      if i <= |file| - 4 {
        assert file[i..i + 4][0] == file[i] == file[e..][1..][i - e - 1];
      }
    }
  }

  lemma SlashFree(s: string)
    requires '/' !in s
    ensures Slashes(s) == 0
  {
  }

  lemma OneSlash(before: char, after: string)
    requires before != '/' && '/' !in after
    ensures Slashes([before] + ['/'] + after) == 1
  {
    var name := [before] + ['/'] + after;
    assert name[1..] == ['/'] + after && name[1..][1..] == after;
    SlashFree(after);
  }

  lemma NameIsCandidate()
    ensures IsCandidate("p/PKG-INFO", false)
  {
    var name := "p/PKG-INFO";
    assert name == ['p'] + ['/'] + "PKG-INFO";
    OneSlash('p', "PKG-INFO");
    assert name[|name| - 9..] == "/PKG-INFO";
  }

  lemma EntryIsSole()
    ensures IsSole([ENTRY], false, ENTRY)
  {
    NameIsCandidate();
    assert IsCandidateAt([ENTRY], false, 0);
    assert IsOnly([ENTRY], false, 0);
  }

  lemma ExampleMember()
    ensures Example([]).WellFormed() && IsMember(LIBRARIES, false, Example([]), ENTRY, CONTENT)
  {
    ExampleShape([]);
    EntryIsSole();
    var bytes := DIRECTORY + Example([]).End();
    assert DIRECTORY <= bytes;
    assert LIBRARIES.directory(bytes) == Some([ENTRY]);
    ExampleUnpacks();
  }

  lemma ExampleUnpacks()
    ensures NAME == Encoded(LIBRARIES, ENTRY) && IsReadable(ENTRY) && Unpacks(LIBRARIES, ENTRY, CONTENT, CONTENT)
  {
  }

  /** The comment alone makes the difference. */
  lemma CommentLosesMetadata(content: Bytes)
    ensures Example([]).WellFormed() && Example(END_SIGNATURE).WellFormed()
    ensures HasMetadata(LIBRARIES, false, Example([]).Written(), CONTENT)
    ensures !HasMetadata(LIBRARIES, false, Example(END_SIGNATURE).Written(), content)
  {
    ExampleShape([]);
    NoLaterSignature();
    ExampleMember();
    assert IsMetadata(LIBRARIES, false, Example([]).Written(), Example([]), ENTRY, CONTENT);
    CommentHidesRecord(LIBRARIES, false, Example(END_SIGNATURE), content);
  }
}
