// What the reader of ZipEndRecords accepts, byte by byte: the layout of the end records (PKWARE .ZIP
// File Format Specification, sections 4.3.14 to 4.3.16) and its byte order, stated on their own.
module ZipBytes {
  import opened Bytes
  import opened Wrappers
  import opened ZipEndRecords

  function LittleEndian(b: seq<byte>): nat {
    if b == [] then 0 else b[0] as nat + 256 * LittleEndian(b[1..])
  }

  lemma LittleEndianSplit(b: seq<byte>)
    requires |b| >= 2
    ensures LittleEndian(b) == LittleEndian(b[..2]) + 65536 * LittleEndian(b[2..])
    ensures LittleEndian(b[..2]) == b[0] as nat + 256 * b[1] as nat
  {
    assert b[1..][1..] == b[2..] && b[..2][1..] == [b[1]] && [b[1]][1..] == [];
  }

  lemma Field16(s: seq<byte>, at: nat)
    requires at + 2 <= |s|
    ensures U16(s, at) == LittleEndian(s[at..at + 2])
  {
    var b := s[at..at + 2];
    LittleEndianSplit(b);
    assert b[..2] == b;
  }

  lemma Field32(s: seq<byte>, at: nat)
    requires at + 4 <= |s|
    ensures U32(s, at) == LittleEndian(s[at..at + 4])
  {
    hide U16;
    var b := s[at..at + 4];
    LittleEndianSplit(b);
    Field16(s, at);
    Field16(s, at + 2);
    assert b[..2] == s[at..at + 2] && b[2..] == s[at + 2..at + 4];
  }

  lemma Field64(s: seq<byte>, at: nat)
    requires at + 8 <= |s|
    ensures U64(s, at) == LittleEndian(s[at..at + 8])
  {
    hide U32;
    var b := s[at..at + 8];
    LittleEndianSplit(b);
    LittleEndianSplit(b[2..]);
    LittleEndianSplit(s[at..at + 4]);
    Field32(s, at);
    Field32(s, at + 4);
    assert b[2..][2..] == s[at + 4..at + 8] && b[..2] == s[at..at + 4][..2] && b[2..][..2] == s[at..at + 4][2..];
    LittleEndianSplit(s[at..at + 4][2..]);
    assert s[at..at + 4][2..][2..] == [] && s[at..at + 4][2..][..2] == s[at..at + 4][2..];
  }

  // --------------------------------------------------------------------------------- the layout

  /** The four bytes `50 4B 05 06`. */
  predicate EndSignatureAt(file: seq<byte>, at: int) {
    && 0 <= at && at + 4 <= |file|
    && file[at] == 0x50 && file[at + 1] == 0x4B && file[at + 2] == 0x05 && file[at + 3] == 0x06
  }

  ghost predicate LastEndSignature(file: seq<byte>, at: int) {
    EndSignatureAt(file, at) && forall k :: at < k ==> !EndSignatureAt(file, k)
  }

  /** Both disk numbers are zero, and the comment ends with the file. */
  predicate Closes(file: seq<byte>, end: nat) {
    && end + 22 <= |file|
    && file[end + 4] == 0 && file[end + 5] == 0 && file[end + 6] == 0 && file[end + 7] == 0
    && end + 22 + LittleEndian(file[end + 20..end + 22]) == |file|
  }

  predicate PlainAt(file: seq<byte>, end: nat, cd: CentralDirectory) {
    && Closes(file, end) && !cd.zip64
    && LittleEndian(file[end + 8..end + 10]) == LittleEndian(file[end + 10..end + 12]) == cd.entries
    && LittleEndian(file[end + 12..end + 16]) == cd.size && LittleEndian(file[end + 16..end + 20]) == cd.offset
    && cd.entries != 65535 && cd.size != 4294967295 && cd.offset != 4294967295
    && cd.offset + cd.size <= end
  }

  /** Some field of the end record holds its largest value. */
  predicate FullField(file: seq<byte>, end: nat)
    requires end + 22 <= |file|
  {
    || LittleEndian(file[end + 8..end + 10]) == 65535 || LittleEndian(file[end + 10..end + 12]) == 65535
    || LittleEndian(file[end + 12..end + 16]) == 4294967295 || LittleEndian(file[end + 16..end + 20]) == 4294967295
  }

  /** `50 4B 06 07`, disk 0, the offset of the ZIP64 record, and one disk in all. */
  predicate LocatorAt(file: seq<byte>, at: nat, record: nat) {
    && at + 20 <= |file|
    && file[at] == 0x50 && file[at + 1] == 0x4B && file[at + 2] == 0x06 && file[at + 3] == 0x07
    && LittleEndian(file[at + 4..at + 8]) == 0 && LittleEndian(file[at + 8..at + 16]) == record
    && LittleEndian(file[at + 16..at + 20]) == 1
  }

  /** `50 4B 06 06`, the length of what follows up to `until`, two versions, two disk numbers, and the directory. */
  predicate Zip64RecordAt(file: seq<byte>, at: nat, until: nat, cd: CentralDirectory) {
    && at + 56 <= until <= |file|
    && file[at] == 0x50 && file[at + 1] == 0x4B && file[at + 2] == 0x06 && file[at + 3] == 0x06
    && at + 12 + LittleEndian(file[at + 4..at + 12]) == until
    && LittleEndian(file[at + 16..at + 20]) == 0 && LittleEndian(file[at + 20..at + 24]) == 0
    && LittleEndian(file[at + 24..at + 32]) == LittleEndian(file[at + 32..at + 40]) == cd.entries
    && LittleEndian(file[at + 40..at + 48]) == cd.size && LittleEndian(file[at + 48..at + 56]) == cd.offset
  }

  predicate Zip64At(file: seq<byte>, end: nat, record: nat, cd: CentralDirectory) {
    && Closes(file, end) && cd.zip64 && FullField(file, end) && end >= 20
    && LocatorAt(file, end - 20, record) && Zip64RecordAt(file, record, end - 20, cd)
    && cd.offset + cd.size <= record
  }

  // ------------------------------------------------------------------------------- the reading

  lemma SignatureInBytes(file: seq<byte>, at: int)
    ensures OccursAt(file, END_SIGNATURE, at) <==> EndSignatureAt(file, at)
  {
    if 0 <= at && at + 4 <= |file| {
      assert file[at..at + 4] == [file[at], file[at + 1], file[at + 2], file[at + 3]];
    }
  }

  lemma LastInBytes(file: seq<byte>, end: nat)
    requires LastEndSignature(file, end)
    ensures LastIndexOf(file, END_SIGNATURE) == end
  {
    hide LastIndexOf, OccursAt, EndSignatureAt;
    forall k ensures OccursAt(file, END_SIGNATURE, k) <==> EndSignatureAt(file, k) {
      SignatureInBytes(file, k);
    }
  }

  lemma EndFields(file: seq<byte>, end: nat)
    requires end + 22 <= |file|
    ensures Closed(file, end) && U16(file, end + 4) == 0 && U16(file, end + 6) == 0 <==> Closes(file, end)
    ensures Saturated(file, end) <==> FullField(file, end)
    ensures U16(file, end + 8) == LittleEndian(file[end + 8..end + 10])
    ensures U16(file, end + 10) == LittleEndian(file[end + 10..end + 12])
    ensures U32(file, end + 12) == LittleEndian(file[end + 12..end + 16])
    ensures U32(file, end + 16) == LittleEndian(file[end + 16..end + 20])
  {
    assert U16(file, end + 4) == 0 <==> file[end + 4] == 0 && file[end + 5] == 0;
    assert U16(file, end + 6) == 0 <==> file[end + 6] == 0 && file[end + 7] == 0;
    hide U16, U32, LittleEndian;
    Field16(file, end + 20);
    Field16(file, end + 8);
    Field16(file, end + 10);
    Field32(file, end + 12);
    Field32(file, end + 16);
  }

  lemma LocatorFields(file: seq<byte>, at: nat)
    requires at + 20 <= |file|
    ensures Signed(file, at, LOCATOR_SIGNATURE) && U32(file, at + 4) == 0 && U32(file, at + 16) == 1
       <==> LocatorAt(file, at, U64(file, at + 8))
    ensures forall record :: LocatorAt(file, at, record) ==> record == U64(file, at + 8)
  {
    hide U32, U64, LittleEndian;
    Field32(file, at + 4);
    Field64(file, at + 8);
    Field32(file, at + 16);
  }

  lemma RecordFields(file: seq<byte>, at: nat, until: nat, cd: CentralDirectory)
    requires at + 56 <= |file| && until <= |file|
    ensures && Signed(file, at, ZIP64_SIGNATURE) && U64(file, at + 4) >= 44 && at + 12 + U64(file, at + 4) == until
            && U32(file, at + 16) == 0 && U32(file, at + 20) == 0
            && U64(file, at + 24) == U64(file, at + 32) == cd.entries
            && U64(file, at + 40) == cd.size && U64(file, at + 48) == cd.offset
       <==> Zip64RecordAt(file, at, until, cd)
  {
    hide U32, U64, LittleEndian;
    Field64(file, at + 4);
    Field32(file, at + 16);
    Field32(file, at + 20);
    Field64(file, at + 24);
    Field64(file, at + 32);
    Field64(file, at + 40);
    Field64(file, at + 48);
  }

  /**
   * A file is read as a directory exactly when its last end signature begins an end record that
   * closes the file and states the directory in these bytes, or one with a full field that a locator
   * links to a ZIP64 record that does.
   */
  lemma ReadInBytes(file: seq<byte>, end: nat, cd: CentralDirectory)
    requires LastEndSignature(file, end)
    ensures Reading(file) == Some(cd) <==> PlainAt(file, end, cd) || exists record :: Zip64At(file, end, record, cd)
  {
    hide U16, U32, U64, LastIndexOf, OccursAt, EndSignatureAt, LittleEndian, Signed, Saturated;
    LastInBytes(file, end);
    if end + 22 <= |file| {
      EndFields(file, end);
      if Saturated(file, end) {
        SaturatedInBytes(file, end, cd);
      }
    }
  }

  lemma SaturatedInBytes(file: seq<byte>, end: nat, cd: CentralDirectory)
    requires LastIndexOf(file, END_SIGNATURE) == end && end + 22 <= |file| && Saturated(file, end)
    requires Closed(file, end) && U16(file, end + 4) == 0 && U16(file, end + 6) == 0 <==> Closes(file, end)
    requires FullField(file, end)
    ensures Reading(file) == Some(cd) <==> exists record :: Zip64At(file, end, record, cd)
  {
    hide U16, U32, U64, LastIndexOf, LittleEndian, Signed, Closes, FullField, Saturated, LocatorAt, Zip64RecordAt;
    if end >= 20 {
      LocatorFields(file, end - 20);
      var record := U64(file, end - 12);
      if record + 56 <= |file| {
        RecordFields(file, record, end - 20, cd);
      }
      assert Reading(file) == Some(cd) <==> Zip64At(file, end, record, cd) by {
        if record + 56 > |file| {
          TooFar(file, record, end - 20, cd);
        }
      }
    }
  }

  lemma TooFar(file: seq<byte>, at: nat, until: nat, cd: CentralDirectory)
    requires at + 56 > |file|
    ensures !Zip64RecordAt(file, at, until, cd)
  {
  }

  /** Without these four bytes there is no archive. */
  lemma NoSignatureNoArchive(file: seq<byte>)
    requires forall k :: !EndSignatureAt(file, k)
    ensures Reading(file) == None
  {
    hide LastIndexOf, OccursAt, EndSignatureAt;
    forall k ensures OccursAt(file, END_SIGNATURE, k) <==> EndSignatureAt(file, k) {
      SignatureInBytes(file, k);
    }
    assert LastIndexOf(file, END_SIGNATURE) == -1;
  }

  /** The empty archive of 22 bytes. */
  lemma EmptyArchive()
    ensures Reading([0x50, 0x4B, 0x05, 0x06, 0, 0, 0, 0, 0, 0, 0, 0, 0, 0, 0, 0, 0, 0, 0, 0, 0, 0])
         == Some(CentralDirectory(0, 0, 0, false))
  {
    var file: seq<byte> := [0x50, 0x4B, 0x05, 0x06, 0, 0, 0, 0, 0, 0, 0, 0, 0, 0, 0, 0, 0, 0, 0, 0, 0, 0];
    EmptyDirectory(file);
  }

  lemma EmptyDirectory(file: seq<byte>)
    requires |file| == 22 && EndSignatureAt(file, 0) && forall i :: 4 <= i < 22 ==> file[i] == 0
    ensures Reading(file) == Some(CentralDirectory(0, 0, 0, false))
  {
    hide Reading, LittleEndian;
    ZerosAreZero(file[8..10]);
    ZerosAreZero(file[10..12]);
    ZerosAreZero(file[12..16]);
    ZerosAreZero(file[16..20]);
    ZerosAreZero(file[20..22]);
    assert PlainAt(file, 0, CentralDirectory(0, 0, 0, false));
    ReadInBytes(file, 0, CentralDirectory(0, 0, 0, false));
  }

  lemma {:induction false} ZerosAreZero(b: seq<byte>)
    requires forall i :: 0 <= i < |b| ==> b[i] == 0
    ensures LittleEndian(b) == 0
  {
    if b != [] {
      ZerosAreZero(b[1..]);
    }
  }
}
