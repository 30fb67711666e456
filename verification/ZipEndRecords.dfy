// The end records of a ZIP archive (PKWARE .ZIP File Format Specification, sections 4.3.14
// to 4.3.16): the reader reads them through a bounded tail window, and here it is proved
// equal to a reading of the whole file at absolute positions, whose accepted files are exactly
// what a writer of end records can produce.
module ZipEndRecords {
  import opened Bytes
  import opened Wrappers

  const END_SIGNATURE: seq<byte> := [0x50, 0x4B, 0x05, 0x06]
  const LOCATOR_SIGNATURE: seq<byte> := [0x50, 0x4B, 0x06, 0x07]
  const ZIP64_SIGNATURE: seq<byte> := [0x50, 0x4B, 0x06, 0x06]
  const MAX_16 := 0xFFFF
  const MAX_32 := 0xFFFF_FFFF
  const MAX_64 := 0xFFFF_FFFF_FFFF_FFFF
  /** An end record, the longest comment, and room for the locator before it. */
  const WINDOW := 22 + MAX_16 + 20

  datatype CentralDirectory = CentralDirectory(size: nat, offset: nat, entries: nat, zip64: bool)

  /** What breaks the link from the end record to its ZIP64 record. */
  datatype LinkDefect =
    | NoLocator
    | LocatorDisk
    | LocatorOutsideFile
    | NoZip64Record
    | Zip64RecordTooShort
    | Zip64RecordNotAdjacent
    | Zip64RecordDisk

  datatype Refusal =
    | TooShort
    | NoEndRecord
    | Truncated
    | FramingDoesNotClose
    | NotLinked(defect: LinkDefect)
    | MultiDisk
    | CountsDisagree
    | DirectoryPastFile
    | DirectoryOverlapsEndRecords

  // ---------------------------------------------------------------- reading the whole file

  /** `s[at : at + 4] == signature`. */
  predicate Signed(s: seq<byte>, at: nat, signature: seq<byte>)
    requires at + 4 <= |s| && |signature| == 4
  {
    s[at] == signature[0] && s[at + 1] == signature[1] && s[at + 2] == signature[2] && s[at + 3] == signature[3]
  }

  predicate Saturated(file: seq<byte>, end: nat)
    requires end + 22 <= |file|
  {
    || U32(file, end + 12) == MAX_32
    || U32(file, end + 16) == MAX_32
    || U16(file, end + 10) == MAX_16
    || U16(file, end + 8) == MAX_16
  }

  /** A locator directly before the end record, linked to a ZIP64 record directly before it. */
  predicate Linked(file: seq<byte>, end: nat)
    requires end + 22 <= |file|
  {
    && end >= 20
    && Signed(file, end - 20, LOCATOR_SIGNATURE)
    && U32(file, end - 16) == 0
    && U32(file, end - 4) == 1
    && var record := U64(file, end - 12);
    && record + 56 <= |file|
    && Signed(file, record, ZIP64_SIGNATURE)
    && U64(file, record + 4) >= 44
    && record + 12 + U64(file, record + 4) == end - 20
    && U32(file, record + 16) == 0
    && U32(file, record + 20) == 0
  }

  /** The end record starting at `end` is complete and its comment ends exactly at the end of the file. */
  predicate Closed(file: seq<byte>, end: int) {
    0 <= end && end + 22 <= |file| && end + 22 + U16(file, end + 20) == |file|
  }

  predicate Claims(file: seq<byte>, end: int) {
    Closed(file, end) && (Saturated(file, end) ==> Linked(file, end))
  }

  /** Counts, size and offset of the claimed directory, and where the first end record begins. */
  datatype Claim = Claim(here: nat, total: nat, declared: nat, offset: nat, firstEndRecord: nat)

  function ClaimAt(file: seq<byte>, end: int): (c: Claim)
    requires Claims(file, end)
    ensures c.firstEndRecord <= end
  {
    if Saturated(file, end) then
      var record := U64(file, end - 12);
      Claim(U64(file, record + 24), U64(file, record + 32), U64(file, record + 40), U64(file, record + 48), record)
    else
      Claim(U16(file, end + 8), U16(file, end + 10), U32(file, end + 12), U32(file, end + 16), end)
  }

  /**
   * The end record at absolute position `end` frames the whole file: it and its comment end exactly
   * at the end of the file, it is a single-disk record, a saturated field is backed by a linked
   * ZIP64 record, and the directory it claims ends before the first end record.
   */
  predicate Framed(file: seq<byte>, end: int) {
    && Claims(file, end)
    && U16(file, end + 4) == 0
    && U16(file, end + 6) == 0
    && var claim := ClaimAt(file, end);
    && claim.here == claim.total
    && claim.offset + claim.declared <= claim.firstEndRecord
  }

  /** What the last end record of the file claims, when that record frames the file. */
  function Reading(file: seq<byte>): Option<CentralDirectory> {
    var end := LastIndexOf(file, END_SIGNATURE);
    if Framed(file, end) then
      var claim := ClaimAt(file, end);
      Some(CentralDirectory(claim.declared, claim.offset, claim.total, Saturated(file, end)))
    else None
  }

  /** Each refusal names a defect the file really has. */
  predicate Justified(file: seq<byte>, refusal: Refusal) {
    var end := LastIndexOf(file, END_SIGNATURE);
    match refusal
    case TooShort => |file| < 22
    case NoEndRecord => end < 0 || end + 22 + MAX_16 < |file|
    case Truncated => 0 <= end && |file| < end + 22
    case FramingDoesNotClose => 0 <= end && end + 22 <= |file| && !Closed(file, end)
    case MultiDisk => Closed(file, end) && (U16(file, end + 4) != 0 || U16(file, end + 6) != 0)
    case NotLinked(_) => Closed(file, end) && Saturated(file, end) && !Linked(file, end)
    case CountsDisagree => Claims(file, end) && ClaimAt(file, end).here != ClaimAt(file, end).total
    case DirectoryPastFile =>
      Claims(file, end) && ClaimAt(file, end).offset + ClaimAt(file, end).declared > |file|
    case DirectoryOverlapsEndRecords =>
      && Claims(file, end)
      && ClaimAt(file, end).offset + ClaimAt(file, end).declared > ClaimAt(file, end).firstEndRecord
  }

  // --------------------------------------------------------------- reading the tail window

  /** A field of a part of the file is the field at its absolute position. */
  lemma PartOf(file: seq<byte>, part: seq<byte>, base: nat, at: nat)
    requires base + |part| <= |file| && part == file[base..base + |part|]
    ensures at + 2 <= |part| ==> U16(part, at) == U16(file, base + at)
    ensures at + 4 <= |part| ==> U32(part, at) == U32(file, base + at)
    ensures at + 8 <= |part| ==> U64(part, at) == U64(file, base + at)
  {
  }

  lemma OccursInPart(file: seq<byte>, base: nat, at: int)
    requires base <= |file|
    ensures OccursAt(file[base..], END_SIGNATURE, at) <==> at >= 0 && OccursAt(file, END_SIGNATURE, base + at)
  {
    if 0 <= at && base + at + 4 <= |file| {
      assert file[base..][at..at + 4] == file[base + at..base + at + 4];
    }
  }

  /** Searching the tail window finds the last signature of the file, unless it lies before the window. */
  lemma WindowSearch(file: seq<byte>, base: nat)
    requires base <= |file|
    ensures var found, last := LastIndexOf(file[base..], END_SIGNATURE), LastIndexOf(file, END_SIGNATURE);
            if found >= 0 then base + found == last else last < base
  {
    hide OccursAt, LastIndexOf;
    var found, last := LastIndexOf(file[base..], END_SIGNATURE), LastIndexOf(file, END_SIGNATURE);
    OccursInPart(file, base, found);
    OccursInPart(file, base, last - base);
  }

  /** A last signature before the window is too far from the end for any comment to close the framing. */
  lemma BeforeWindow(file: seq<byte>, base: nat)
    requires base == 0 || base + WINDOW == |file|
    requires LastIndexOf(file, END_SIGNATURE) < base
    ensures Reading(file) == None && Justified(file, NoEndRecord)
  {
  }

  /** The ZIP64 branch: follow the locator before the end record and read the record it names. */
  method ReadZip64(file: seq<byte>, tail: seq<byte>, base: nat, end: nat) returns (r: Result<Claim, LinkDefect>)
    requires base + |tail| == |file| && tail == file[base..] && end + 22 <= |tail|
    requires end < 20 ==> base == 0
    requires Closed(file, base + end) && Saturated(file, base + end)
    ensures r.Ok? <==> Linked(file, base + end)
    ensures r.Ok? ==> r.value == ClaimAt(file, base + end)
  {
    hide U16, U32, U64, Saturated, Closed;
    var locatorAt := end - 20;
    if locatorAt < 0 || !Signed(tail, locatorAt, LOCATOR_SIGNATURE) {
      return Err(NoLocator);
    }
    PartOf(file, tail, base, locatorAt + 16);
    var locatorDisks := U32(tail, locatorAt + 16);
    PartOf(file, tail, base, locatorAt + 4);
    var locatorDisk := U32(tail, locatorAt + 4);
    if locatorDisk != 0 || locatorDisks != 1 {
      return Err(LocatorDisk);
    }
    PartOf(file, tail, base, locatorAt + 8);
    var recordOffset := U64(tail, locatorAt + 8);
    if recordOffset > |file| - 56 {
      return Err(LocatorOutsideFile);
    }
    var record;
    if recordOffset < base {
      record := file[recordOffset..recordOffset + 56];
    } else {
      record := tail[recordOffset - base..recordOffset - base + 56];
    }
    if !Signed(record, 0, ZIP64_SIGNATURE) {
      return Err(NoZip64Record);
    }
    PartOf(file, record, recordOffset, 4);
    var recordSize := U64(record, 4);
    if recordSize < 44 {
      return Err(Zip64RecordTooShort);
    }
    if recordOffset + 12 + recordSize != base + locatorAt {
      return Err(Zip64RecordNotAdjacent);
    }
    PartOf(file, record, recordOffset, 16);
    var recordDisk := U32(record, 16);
    PartOf(file, record, recordOffset, 20);
    var recordCdDisk := U32(record, 20);
    if recordDisk != 0 || recordCdDisk != 0 {
      return Err(Zip64RecordDisk);
    }
    PartOf(file, record, recordOffset, 24);
    PartOf(file, record, recordOffset, 32);
    PartOf(file, record, recordOffset, 40);
    PartOf(file, record, recordOffset, 48);
    r := Ok(Claim(U64(record, 24), U64(record, 32), U64(record, 40), U64(record, 48), recordOffset));
  }

  /** Counts, size and offset: of the end record, or of the ZIP64 record when a field is saturated. */
  method ReadClaim(file: seq<byte>, tail: seq<byte>, base: nat, end: nat)
    returns (zip64: bool, r: Result<Claim, LinkDefect>)
    requires base + |tail| == |file| && tail == file[base..] && end + 22 <= |tail|
    requires end < 20 ==> base == 0
    requires Closed(file, base + end)
    ensures zip64 == Saturated(file, base + end)
    ensures r.Ok? <==> Claims(file, base + end)
    ensures r.Ok? ==> r.value == ClaimAt(file, base + end)
  {
    hide U16, U32, U64, Linked, Closed;
    PartOf(file, tail, base, end + 8);
    var here := U16(tail, end + 8);
    PartOf(file, tail, base, end + 10);
    var total := U16(tail, end + 10);
    PartOf(file, tail, base, end + 12);
    var declared := U32(tail, end + 12);
    PartOf(file, tail, base, end + 16);
    var offset := U32(tail, end + 16);
    zip64 := declared == MAX_32 || offset == MAX_32 || total == MAX_16 || here == MAX_16;
    if zip64 {
      r := ReadZip64(file, tail, base, end);
    } else {
      r := Ok(Claim(here, total, declared, offset, base + end));
    }
  }

  /** Find the last end record in the tail window and check that it closes the file. */
  method FindEndRecord(file: seq<byte>) returns (r: Result<(seq<byte>, nat, nat), Refusal>)
    ensures r.Ok? ==>
              && var (tail, base, end) := r.value;
              && base + |tail| == |file| && tail == file[base..] && end + 22 <= |tail|
              && (end < 20 ==> base == 0)
              && base + end == LastIndexOf(file, END_SIGNATURE)
              && Closed(file, base + end)
    ensures r.Err? ==> Reading(file) == None && Justified(file, r.error)
  {
    hide U16, LastIndexOf, Saturated, Linked, ClaimAt;
    var size := |file|;
    if size < 22 {
      return Err(TooShort);
    }
    var window := if size < WINDOW then size else WINDOW;
    var tail := file[size - window..];
    var base := size - |tail|;
    WindowSearch(file, base);

    var end := LastIndexOf(tail, END_SIGNATURE);
    if end < 0 {
      BeforeWindow(file, base);
      return Err(NoEndRecord);
    }
    if end + 22 > |tail| {
      return Err(Truncated);
    }
    PartOf(file, tail, base, end + 20);
    var comment := U16(tail, end + 20);
    if comment != |tail| - (end + 22) {
      return Err(FramingDoesNotClose);
    }
    r := Ok((tail, base, end));
  }

  method ZipCentralDirectory(file: seq<byte>) returns (r: Result<CentralDirectory, Refusal>)
    ensures r.Ok? <==> Reading(file).Some?
    ensures r.Ok? ==> r.value == Reading(file).value
    ensures r.Err? ==> Justified(file, r.error)
  {
    hide U16, U32, U64, Linked, LastIndexOf, Closed, Judge, Reading, Justified;
    var found := FindEndRecord(file);
    if found.Err? {
      return Err(found.error);
    }
    var (tail, base, end) := found.value;
    PartOf(file, tail, base, end + 4);
    var thisDisk := U16(tail, end + 4);
    PartOf(file, tail, base, end + 6);
    var cdDisk := U16(tail, end + 6);
    var zip64, read := ReadClaim(file, tail, base, end);
    if read.Err? {
      UnlinkedRefused(file, base + end, read.error);
      return Err(NotLinked(read.error));
    }
    r := Judge(thisDisk, cdDisk, read.value, |file|, zip64);
    JudgeAgrees(file, base + end);
  }

  /** The checks made on the fields, once read. */
  function Judge(thisDisk: nat, cdDisk: nat, claim: Claim, size: nat, zip64: bool): Result<CentralDirectory, Refusal> {
    if thisDisk != 0 || cdDisk != 0 then Err(MultiDisk)
    else if claim.here != claim.total then Err(CountsDisagree)
    else if claim.offset + claim.declared > size then Err(DirectoryPastFile)
    else if claim.offset + claim.declared > claim.firstEndRecord then Err(DirectoryOverlapsEndRecords)
    else Ok(CentralDirectory(claim.declared, claim.offset, claim.total, zip64))
  }

  lemma UnlinkedRefused(file: seq<byte>, end: int, defect: LinkDefect)
    requires end == LastIndexOf(file, END_SIGNATURE) && Closed(file, end) && Saturated(file, end) && !Linked(file, end)
    ensures Reading(file) == None && Justified(file, NotLinked(defect))
  {
  }

  lemma JudgeAgrees(file: seq<byte>, end: int)
    requires end == LastIndexOf(file, END_SIGNATURE) && Claims(file, end)
    ensures var judged := Judge(U16(file, end + 4), U16(file, end + 6), ClaimAt(file, end), |file|,
                                 Saturated(file, end));
            && (judged.Ok? <==> Reading(file).Some?)
            && (judged.Ok? ==> judged.value == Reading(file).value)
            && (judged.Err? ==> Justified(file, judged.error))
  {
    hide U16, U32, U64, Linked, LastIndexOf, Closed, Saturated;
  }
}
