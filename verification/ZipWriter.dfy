// A writer of ZIP end records, and what the reader of ZipEndRecords makes of its output.
module ZipWriter {
  import opened Bytes
  import opened Wrappers
  import opened ZipEndRecords

  /** A ZIP64 record: version fields, extensible data, and what the plain end record shows instead. */
  datatype Zip64 = Zip64(versions: seq<byte>, extension: seq<byte>,
                         here: nat, total: nat, declared: nat, offset: nat)

  /** Everything before the end records, the directory claimed inside it, and the trailing comment. */
  datatype Archive = Archive(body: seq<byte>, size: nat, offset: nat, entries: nat, comment: seq<byte>,
                             zip64: Option<Zip64>)
  {
    predicate WellFormed() {
      && |comment| <= MAX_16
      && offset + size <= |body|
      && match zip64
         case None => entries < MAX_16 && size < MAX_32 && offset < MAX_32
         case Some(z) =>
           && |body| <= MAX_64 && entries <= MAX_64
           && |z.versions| == 4 && 44 + |z.extension| <= MAX_64
           && z.here <= MAX_16 && z.total <= MAX_16 && z.declared <= MAX_32 && z.offset <= MAX_32
           && (z.here == MAX_16 || z.total == MAX_16 || z.declared == MAX_32 || z.offset == MAX_32)
    }

    function Zip64Record(): (s: seq<byte>)
      requires WellFormed() && zip64.Some?
      ensures |s| == 56 + |zip64.value.extension|
    {
      RecordHead(44 + |zip64.value.extension|, zip64.value.versions) + RecordCounts(entries, size, offset)
      + zip64.value.extension
    }

    function Locator(): (s: seq<byte>)
      requires WellFormed() && zip64.Some?
      ensures |s| == 20
    {
      LocatorBytes(|body|)
    }

    /** What precedes the plain end record. */
    function Front(): seq<byte>
      requires WellFormed()
    {
      if zip64.None? then body else body + Zip64Record() + Locator()
    }

    function Write(): seq<byte>
      requires WellFormed()
    {
      Front() + match zip64
                case None => EndRecord(entries, entries, size, offset, comment)
                case Some(z) => EndRecord(z.here, z.total, z.declared, z.offset, comment)
    }

    function Stated(): CentralDirectory {
      CentralDirectory(size, offset, entries, zip64.Some?)
    }
  }

  function EndRecord(here: nat, total: nat, declared: nat, offset: nat, comment: seq<byte>): (s: seq<byte>)
    requires here <= MAX_16 && total <= MAX_16 && declared <= MAX_32 && offset <= MAX_32 && |comment| <= MAX_16
    ensures |s| == 22 + |comment|
  {
    END_SIGNATURE + Write16(0) + Write16(0) + Write16(here) + Write16(total) + Write32(declared) + Write32(offset)
    + Write16(|comment|) + comment
  }

  function RecordHead(length: nat, versions: seq<byte>): (s: seq<byte>)
    requires length <= MAX_64 && |versions| == 4
    ensures |s| == 24
  {
    ZIP64_SIGNATURE + Write64(length) + versions + Write32(0) + Write32(0)
  }

  function RecordCounts(entries: nat, size: nat, offset: nat): (s: seq<byte>)
    requires entries <= MAX_64 && size <= MAX_64 && offset <= MAX_64
    ensures |s| == 32
  {
    Write64(entries) + Write64(entries) + Write64(size) + Write64(offset)
  }

  function LocatorBytes(record: nat): (s: seq<byte>)
    requires record <= MAX_64
    ensures |s| == 20
  {
    LOCATOR_SIGNATURE + Write32(0) + Write64(record) + Write32(1)
  }

  lemma EndRecordFields(file: seq<byte>, front: seq<byte>, here: nat, total: nat, declared: nat, offset: nat,
                        comment: seq<byte>)
    requires here <= MAX_16 && total <= MAX_16 && declared <= MAX_32 && offset <= MAX_32 && |comment| <= MAX_16
    requires file == front + EndRecord(here, total, declared, offset, comment)
    ensures OccursAt(file, END_SIGNATURE, |front|)
    ensures U16(file, |front| + 4) == 0 && U16(file, |front| + 6) == 0
    ensures U16(file, |front| + 8) == here && U16(file, |front| + 10) == total
    ensures U32(file, |front| + 12) == declared && U32(file, |front| + 16) == offset
    ensures U16(file, |front| + 20) == |comment|
  {
  }

  lemma HeadFields(file: seq<byte>, front: seq<byte>, length: nat, versions: seq<byte>, rest: seq<byte>)
    requires length <= MAX_64 && |versions| == 4 && file == front + RecordHead(length, versions) + rest
    ensures Signed(file, |front|, ZIP64_SIGNATURE) && U64(file, |front| + 4) == length
    ensures U32(file, |front| + 16) == 0 && U32(file, |front| + 20) == 0
  {
  }

  lemma Placed64(file: seq<byte>, front: seq<byte>, v: nat, rest: seq<byte>)
    requires v <= MAX_64 && file == front + Write64(v) + rest
    ensures U64(file, |front|) == v
  {
    PartOf(file, Write64(v), |front|, 0);
  }

  lemma CountsFields(file: seq<byte>, front: seq<byte>, entries: nat, size: nat, offset: nat, rest: seq<byte>)
    requires entries <= MAX_64 && size <= MAX_64 && offset <= MAX_64
    requires file == front + RecordCounts(entries, size, offset) + rest
    ensures U64(file, |front|) == entries && U64(file, |front| + 8) == entries
    ensures U64(file, |front| + 16) == size && U64(file, |front| + 24) == offset
  {
    hide U64, Write64;
    var e, s, o := Write64(entries), Write64(size), Write64(offset);
    assert file == front + e + (e + s + o + rest);
    Placed64(file, front, entries, e + s + o + rest);
    assert file == (front + e) + e + (s + o + rest);
    Placed64(file, front + e, entries, s + o + rest);
    assert file == (front + e + e) + s + (o + rest);
    Placed64(file, front + e + e, size, o + rest);
    assert file == (front + e + e + s) + o + rest;
    Placed64(file, front + e + e + s, offset, rest);
  }

  lemma LocatorFields(a: Archive, front: seq<byte>, rest: seq<byte>, file: seq<byte>)
    requires a.WellFormed() && a.zip64.Some? && file == front + a.Locator() + rest
    ensures Signed(file, |front|, LOCATOR_SIGNATURE)
    ensures U32(file, |front| + 4) == 0 && U64(file, |front| + 8) == |a.body| && U32(file, |front| + 16) == 1
  {
  }

  /** The record a writer emits frames the file and claims what the writer stated. */
  lemma WrittenFrames(a: Archive)
    requires a.WellFormed()
    ensures var file, end := a.Write(), |a.Front()|;
            && OccursAt(file, END_SIGNATURE, end)
            && Framed(file, end)
            && Saturated(file, end) == a.zip64.Some?
            && var claim := ClaimAt(file, end);
            && claim.declared == a.size && claim.offset == a.offset && claim.total == a.entries
  {
    hide U16, U32, U64, OccursAt, Signed, EndRecord, RecordHead, RecordCounts, Archive.Locator;
    var file, front := a.Write(), a.Front();
    match a.zip64
    case None => EndRecordFields(file, front, a.entries, a.entries, a.size, a.offset, a.comment);
    case Some(z) =>
      var last := EndRecord(z.here, z.total, z.declared, z.offset, a.comment);
      EndRecordFields(file, front, z.here, z.total, z.declared, z.offset, a.comment);
      var record := a.body + a.Zip64Record();
      assert file == record + a.Locator() + last;
      LocatorFields(a, record, last, file);
      var length := 44 + |z.extension|;
      var head, counts := RecordHead(length, z.versions), RecordCounts(a.entries, a.size, a.offset);
      assert file == a.body + head + (counts + z.extension + a.Locator() + last);
      HeadFields(file, a.body, length, z.versions, counts + z.extension + a.Locator() + last);
      assert file == (a.body + head) + counts + (z.extension + a.Locator() + last);
      CountsFields(file, a.body + head, a.entries, a.size, a.offset, z.extension + a.Locator() + last);
  }

  // ------------------------------------------------------- every accepted file is a written one

  lemma Rewrite16(s: seq<byte>, at: nat)
    requires at + 2 <= |s|
    ensures Write16(U16(s, at)) == s[at..at + 2]
  {
  }

  lemma Rewrite32(s: seq<byte>, at: nat)
    requires at + 4 <= |s|
    ensures Write32(U32(s, at)) == s[at..at + 4]
  {
    hide U16, Write16;
    Rewrite16(s, at);
    Rewrite16(s, at + 2);
    assert s[at..at + 4] == s[at..at + 2] + s[at + 2..at + 4];
  }

  lemma Rewrite64(s: seq<byte>, at: nat)
    requires at + 8 <= |s|
    ensures Write64(U64(s, at)) == s[at..at + 8]
  {
    hide U32, Write32;
    Rewrite32(s, at);
    Rewrite32(s, at + 4);
    assert s[at..at + 8] == s[at..at + 4] + s[at + 4..at + 8];
  }

  lemma Cut<T>(s: seq<T>, lo: nat, mid: nat)
    requires lo <= mid <= |s|
    ensures s[lo..] == s[lo..mid] + s[mid..]
  {
  }

  lemma EndRecordRewritten(file: seq<byte>, end: nat)
    requires Closed(file, end) && Signed(file, end, END_SIGNATURE)
    requires U16(file, end + 4) == 0 && U16(file, end + 6) == 0
    ensures file[end..] == EndRecord(U16(file, end + 8), U16(file, end + 10), U32(file, end + 12), U32(file, end + 16),
                                     file[end + 22..])
  {
    hide U16, U32, Write16, Write32;
    Rewrite16(file, end + 4);
    Rewrite16(file, end + 6);
    Rewrite16(file, end + 8);
    Rewrite16(file, end + 10);
    Rewrite32(file, end + 12);
    Rewrite32(file, end + 16);
    Rewrite16(file, end + 20);
    assert file[end..end + 4] == END_SIGNATURE;
    Cut(file, end, end + 4);
    Cut(file, end + 4, end + 6);
    Cut(file, end + 6, end + 8);
    Cut(file, end + 8, end + 10);
    Cut(file, end + 10, end + 12);
    Cut(file, end + 12, end + 16);
    Cut(file, end + 16, end + 20);
    Cut(file, end + 20, end + 22);
  }

  /** The archive a framed file is the writing of. */
  function Recovered(file: seq<byte>, end: int): Archive
    requires Framed(file, end)
  {
    var claim := ClaimAt(file, end);
    Archive(file[..claim.firstEndRecord], claim.declared, claim.offset, claim.total, file[end + 22..],
            if Saturated(file, end) then
              var record := U64(file, end - 12);
              Some(Zip64(file[record + 12..record + 16], file[record + 56..end - 20],
                         U16(file, end + 8), U16(file, end + 10), U32(file, end + 12), U32(file, end + 16)))
            else None)
  }

  lemma HeadRewritten(r: seq<byte>)
    requires |r| == 24 && Signed(r, 0, ZIP64_SIGNATURE) && U32(r, 16) == 0 && U32(r, 20) == 0
    ensures r == RecordHead(U64(r, 4), r[12..16])
  {
    hide U32, U64, Write32, Write64;
    Rewrite64(r, 4);
    Rewrite32(r, 16);
    Rewrite32(r, 20);
    assert r[0..4] == ZIP64_SIGNATURE;
    Cut(r, 0, 4);
    Cut(r, 4, 12);
    Cut(r, 12, 16);
    Cut(r, 16, 20);
  }

  lemma CountsRewritten(r: seq<byte>)
    requires |r| == 32 && U64(r, 0) == U64(r, 8)
    ensures r == RecordCounts(U64(r, 8), U64(r, 16), U64(r, 24))
  {
    hide U64, Write64;
    Rewrite64(r, 0);
    Rewrite64(r, 8);
    Rewrite64(r, 16);
    Rewrite64(r, 24);
    Cut(r, 0, 8);
    Cut(r, 8, 16);
    Cut(r, 16, 24);
  }

  lemma LocatorRewritten(l: seq<byte>)
    requires |l| == 20 && Signed(l, 0, LOCATOR_SIGNATURE) && U32(l, 4) == 0 && U32(l, 16) == 1
    ensures l == LocatorBytes(U64(l, 8))
  {
    hide U32, U64, Write32, Write64;
    Rewrite32(l, 4);
    Rewrite64(l, 8);
    Rewrite32(l, 16);
    assert l[0..4] == LOCATOR_SIGNATURE;
    Cut(l, 0, 4);
    Cut(l, 4, 8);
    Cut(l, 8, 16);
  }

  lemma LinkRewritten(file: seq<byte>, end: int)
    requires Framed(file, end) && Saturated(file, end)
    ensures var a, record := Recovered(file, end), U64(file, end - 12);
            && a.WellFormed()
            && file[record..end - 20] == a.Zip64Record()
            && file[end - 20..end] == a.Locator()
  {
    hide U16, U32, U64, RecordHead, RecordCounts, LocatorBytes;
    var record := U64(file, end - 12);
    var head, counts, l := file[record..record + 24], file[record + 24..record + 56], file[end - 20..end];
    PartOf(file, head, record, 4);
    PartOf(file, head, record, 16);
    PartOf(file, head, record, 20);
    HeadRewritten(head);
    PartOf(file, counts, record + 24, 0);
    PartOf(file, counts, record + 24, 8);
    PartOf(file, counts, record + 24, 16);
    PartOf(file, counts, record + 24, 24);
    CountsRewritten(counts);
    PartOf(file, l, end - 20, 4);
    PartOf(file, l, end - 20, 8);
    PartOf(file, l, end - 20, 16);
    LocatorRewritten(l);
    assert head[12..16] == file[record + 12..record + 16];
    assert file[record..end - 20] == head + counts + file[record + 56..end - 20];
  }

  lemma RecoveredWrites(file: seq<byte>, end: int)
    requires Framed(file, end) && OccursAt(file, END_SIGNATURE, end)
    ensures var a := Recovered(file, end); a.WellFormed() && |a.Front()| == end && a.Write() == file
  {
    hide U16, U32, U64, EndRecord, Archive.Zip64Record, Archive.Locator;
    EndRecordRewritten(file, end);
    if Saturated(file, end) {
      LinkRewritten(file, end);
      var record := U64(file, end - 12);
      assert file[..end] == file[..record] + file[record..end - 20] + file[end - 20..end];
    }
    assert Recovered(file, end).Front() == file[..end];
    assert file == file[..end] + file[end..];
  }

  // ------------------------------------------------------------------------------ main results

  /** What a writer stated is read back, when no signature occurs after its end record begins. */
  lemma WrittenReadsBack(a: Archive)
    requires a.WellFormed()
    requires LastIndexOf(a.Write(), END_SIGNATURE) == |a.Front()|
    ensures Reading(a.Write()) == Some(a.Stated())
  {
    hide U16, U32, U64, OccursAt, LastIndexOf;
    WrittenFrames(a);
  }

  /** The accepted files are exactly the written ones whose last signature is their end record's. */
  lemma AcceptedAreWritten(file: seq<byte>, cd: CentralDirectory)
    ensures Reading(file) == Some(cd)
       <==> exists a: Archive :: && a.WellFormed() && a.Write() == file && a.Stated() == cd
                                && LastIndexOf(file, END_SIGNATURE) == |a.Front()|
  {
    hide U16, U32, U64, OccursAt, LastIndexOf;
    if Reading(file) == Some(cd) {
      var end := LastIndexOf(file, END_SIGNATURE);
      RecoveredWrites(file, end);
      assert Recovered(file, end).Stated() == cd;
    }
    forall a: Archive | a.WellFormed() && a.Write() == file && LastIndexOf(file, END_SIGNATURE) == |a.Front()|
      ensures Reading(file) == Some(a.Stated())
    {
      WrittenReadsBack(a);
    }
  }

  /** A signature in the last 21 bytes, of the fields or of the comment, makes the reader refuse the archive. */
  lemma LateSignatureRefused(a: Archive)
    requires a.WellFormed() && LastIndexOf(a.Write(), END_SIGNATURE) + 22 > |a.Write()|
    ensures Reading(a.Write()) == None
  {
  }

  /**
   * The bytes from `at` on are a complete end record of the archive's directory: of its own fields,
   * or of saturated ones directly after a locator and a ZIP64 record that holds them and that begins
   * after the directory.
   */
  predicate RestatedAt(a: Archive, file: seq<byte>, at: int)
    requires a.WellFormed()
  {
    && 0 <= at && at + 22 <= |file| && |file| <= at + 22 + MAX_16
    && var comment := file[at + 22..];
    match a.zip64
    case None => file[at..] == EndRecord(a.entries, a.entries, a.size, a.offset, comment)
    case Some(_) =>
      && Saturated(file, at)
      && file[at..] == EndRecord(U16(file, at + 8), U16(file, at + 10), U32(file, at + 12), U32(file, at + 16), comment)
      && at >= 20 && var record := U64(file, at - 12);
      && a.offset + a.size <= record && record + 76 <= at <= record + 32 + MAX_64
      && file[record..at] ==
           RecordHead(at - record - 32, file[record + 12..record + 16]) + RecordCounts(a.entries, a.size, a.offset)
           + file[record + 56..at - 20] + LocatorBytes(record)
  }

  /** The archive that a restatement at `at` is the writing of. */
  function Restated(a: Archive, file: seq<byte>, at: int): Archive
    requires a.WellFormed() && RestatedAt(a, file, at)
  {
    match a.zip64
    case None => a.(body := file[..at], comment := file[at + 22..])
    case Some(_) =>
      var record := U64(file, at - 12);
      a.(body := file[..record], comment := file[at + 22..],
         zip64 := Some(Zip64(file[record + 12..record + 16], file[record + 56..at - 20],
                             U16(file, at + 8), U16(file, at + 10), U32(file, at + 12), U32(file, at + 16))))
  }

  lemma RestatedWrites(a: Archive, file: seq<byte>, at: int)
    requires a.WellFormed() && RestatedAt(a, file, at) && a.offset + a.size <= at
    ensures var b := Restated(a, file, at);
            b.WellFormed() && |b.Front()| == at && b.Write() == file && b.Stated() == a.Stated()
  {
    hide U16, U32, U64, EndRecord, RecordHead, RecordCounts, LocatorBytes;
    var b := Restated(a, file, at);
    if a.zip64.Some? {
      var record := U64(file, at - 12);
      assert b.Front() == file[..record] + file[record..at];
    }
    assert file == file[..at] + file[at..];
  }

  lemma SignedThere(file: seq<byte>, at: int)
    requires OccursAt(file, END_SIGNATURE, at)
    ensures Signed(file, at, END_SIGNATURE)
  {
    assert file[at..at + 4] == END_SIGNATURE;
  }

  lemma ReadIsRestated(a: Archive, file: seq<byte>, at: int)
    requires a.WellFormed() && at == LastIndexOf(file, END_SIGNATURE) && Reading(file) == Some(a.Stated())
    ensures RestatedAt(a, file, at)
  {
    hide U16, U32, U64, LastIndexOf, OccursAt, EndRecord, RecordHead, RecordCounts, LocatorBytes;
    SignedThere(file, at);
    EndRecordRewritten(file, at);
    if Saturated(file, at) {
      LinkRewritten(file, at);
      var record := U64(file, at - 12);
      assert file[record..at] == file[record..at - 20] + file[at - 20..at];
    }
  }

  /**
   * With any comment: what was written is read back if and only if the last signature of the file
   * begins an end record that states the same, the archive's own or another one.
   */
  lemma ReadBackExactly(a: Archive)
    requires a.WellFormed()
    ensures Reading(a.Write()) == Some(a.Stated()) <==> RestatedAt(a, a.Write(), LastIndexOf(a.Write(), END_SIGNATURE))
  {
    hide U16, U32, U64, OccursAt, LastIndexOf, Framed, RestatedAt, Restated, Archive.Write;
    var file := a.Write();
    var at := LastIndexOf(file, END_SIGNATURE);
    WrittenFrames(a);
    if Reading(file) == Some(a.Stated()) {
      ReadIsRestated(a, file, at);
    }
    if RestatedAt(a, file, at) {
      RestatedWrites(a, file, at);
      WrittenReadsBack(Restated(a, file, at));
    }
  }

  /** Such another one: a comment that is itself the end record of the same empty directory. */
  lemma SecondEndRecord()
    ensures var a := Archive([], 0, 0, 0, EndRecord(0, 0, 0, 0, []), None);
            && a.WellFormed() && LastIndexOf(a.Write(), END_SIGNATURE) != |a.Front()|
            && Reading(a.Write()) == Some(a.Stated())
  {
    var e := EndRecord(0, 0, 0, 0, []);
    var a := Archive([], 0, 0, 0, e, None);
    var file := a.Write();
    EmptyRecord();
    assert file[22..] == e && file[44..] == [];
    hide EndRecord, Archive.Write, LastIndexOf;
    LastBeginsLatter(file, e);
    ReadBackExactly(a);
  }

  lemma LastBeginsLatter(file: seq<byte>, e: seq<byte>)
    requires |file| == 44 && file[22..] == e && e[..4] == END_SIGNATURE && forall i :: 0 < i < 22 ==> e[i] != 0x50
    ensures LastIndexOf(file, END_SIGNATURE) == 22
  {
    hide LastIndexOf;
    assert file[22..26] == e[..4];
    assert OccursAt(file, END_SIGNATURE, 22);
    forall k | 22 < k <= 40 ensures !OccursAt(file, END_SIGNATURE, k) {
      assert file[k..k + 4][0] == e[k - 22];
    }
  }

  lemma EmptyRecord()
    ensures var e := EndRecord(0, 0, 0, 0, []); e[..4] == END_SIGNATURE && forall i :: 0 < i < 22 ==> e[i] != 0x50
  {
  }

  /** Without a comment there is room for no other: the archive's own fields must hold no signature. */
  lemma WithoutComment(a: Archive)
    requires a.WellFormed() && a.comment == []
    ensures Reading(a.Write()) == Some(a.Stated()) <==> LastIndexOf(a.Write(), END_SIGNATURE) == |a.Front()|
  {
    hide U16, U32, U64, OccursAt, LastIndexOf, Framed;
    WrittenFrames(a);
    if LastIndexOf(a.Write(), END_SIGNATURE) == |a.Front()| {
      WrittenReadsBack(a);
    } else {
      LateSignatureRefused(a);
    }
  }

  /** Not every well-formed archive is read back: the comment may hold the signature. */
  lemma SignatureInComment()
    ensures var a := Archive([], 0, 0, 0, END_SIGNATURE, None);
            a.WellFormed() && Reading(a.Write()) == None
  {
    var a := Archive([], 0, 0, 0, END_SIGNATURE, None);
    assert OccursAt(a.Write(), END_SIGNATURE, 22);
    LateSignatureRefused(a);
  }
}
