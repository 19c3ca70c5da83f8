/** Rendering and parsing are inverse on exactly the records the line format can carry. */
module NarInfoRoundTrip {
  import opened Prelude
  import opened Text
  import Compressions
  import Digests
  import NarUrls
  import Signatures
  import StorePaths
  import opened NarInfos
  import opened NarInfoParsing

  // ----- Each value reads back -----

  lemma CompressionReadsBack(compression: Compressions.Compression)
    ensures Compressions.Parse(Compressions.Show(compression)) == Some(compression)
  {
    match compression
    case None_ =>
    case Zstd =>
    case Xz =>
    case Bzip2 =>
    case Br =>
  }

  lemma {:induction false} ReferencesReadBack(paths: seq<StorePaths.Path>)
    ensures ParseReferences(ShowAll(paths)) == Ok(paths)
  {
    hide StorePaths.Parse, StorePaths.Show;
    if paths != [] {
      StorePaths.ParseOfShow(paths[0]);
      ReferencesReadBack(paths[1..]);
      assert ShowAll(paths)[1..] == ShowAll(paths[1..]);
      assert [paths[0]] + paths[1..] == paths;
    }
  }

  lemma ReferenceWords(paths: seq<StorePaths.Path>)
    ensures Words(Join(ShowAll(paths), " ")) == ShowAll(paths)
  {
    forall part | part in ShowAll(paths)
      ensures part != "" && ' ' !in part
    {
      var i :| 0 <= i < |paths| && part == StorePaths.Show(paths[i]);
      StorePaths.ShowShape(paths[i]);
    }
    WordsOfJoin(ShowAll(paths));
  }

  lemma DeriverReadsBack(path: StorePaths.Path)
    ensures StorePaths.Show(path) != DERIVER_UNKNOWN
    ensures StorePaths.Parse(StorePaths.Show(path)) == Ok(path)
  {
    StorePaths.ShowShape(path);
    StorePaths.ParseOfShow(path);
    assert |DERIVER_UNKNOWN| == 15;
  }

  // ----- The fold over a record's entries -----

  lemma AbsorbAt(draft: Draft, entries: seq<Entry>, i: nat, next: Draft, dir: StorePaths.Dir)
    requires i < |entries| && Absorb(draft, entries[i].field, entries[i].value, dir) == Ok(next)
    ensures AbsorbEntries(draft, entries[i..], dir) == AbsorbEntries(next, entries[i + 1..], dir)
  {
    hide Absorb;
    assert entries[i..][0] == entries[i] && entries[i..][1..] == entries[i + 1..];
  }

  lemma AbsorbsStorePath(draft: Draft, path: StorePaths.Path, dir: StorePaths.Dir)
    ensures Absorb(draft, StorePath, StorePaths.Print(dir, path), dir) == Ok(draft.(storePath := Some(path)))
  {
    StorePaths.ParseInOfPrint(dir, path);
  }

  lemma AbsorbsDigests(draft: Draft, digest: Digests.Digest, dir: StorePaths.Dir)
    ensures Absorb(draft, FileHash, Digests.Show(digest), dir) == Ok(draft.(fileHash := Some(digest)))
    ensures Absorb(draft, NarHash, Digests.Show(digest), dir) == Ok(draft.(narHash := Some(digest)))
  {
    Digests.ParseOfShow(digest);
  }

  lemma AbsorbsNumbers(draft: Draft, n: u64, dir: StorePaths.Dir)
    ensures Absorb(draft, FileSize, Decimal(n), dir) == Ok(draft.(fileSize := Some(n)))
    ensures Absorb(draft, NarSize, Decimal(n), dir) == Ok(draft.(narSize := Some(n)))
  {
    ParseOfDecimal(n);
  }

  lemma AbsorbsCompression(draft: Draft, compression: Compressions.Compression, dir: StorePaths.Dir)
    ensures Absorb(draft, Compression, Compressions.Show(compression), dir)
            == Ok(draft.(compression := Some(compression)))
  {
    CompressionReadsBack(compression);
  }

  lemma AbsorbsReferences(draft: Draft, paths: seq<StorePaths.Path>, dir: StorePaths.Dir)
    requires draft.references == []
    ensures Absorb(draft, References, Join(ShowAll(paths), " "), dir) == Ok(draft.(references := paths))
  {
    ReferenceWords(paths);
    ReferencesReadBack(paths);
    assert draft.references + paths == paths;
  }

  lemma AbsorbsTheRest(draft: Draft, url: string, path: StorePaths.Path, ca: string, dir: StorePaths.Dir)
    ensures Absorb(draft, Url, url, dir) == Ok(draft.(url := Some(url)))
    ensures Absorb(draft, Deriver, StorePaths.Show(path), dir) == Ok(draft.(deriver := Some(path)))
    ensures Absorb(draft, Ca, ca, dir) == Ok(draft.(ca := Some(ca)))
  {
    DeriverReadsBack(path);
  }

  lemma PayloadEntries(record: NarInfo, dir: StorePaths.Dir)
    ensures var p := Payload(record, dir);
            && |p| == 8
            && p[0] == Entry(StorePath, StorePaths.Print(dir, record.storePath))
            && p[1] == Entry(Url, NarUrls.Url(Nar(record)))
            && p[2] == Entry(Compression, Compressions.Show(record.compression))
            && p[3] == Entry(FileHash, Digests.Show(record.fileHash))
            && p[4] == Entry(FileSize, Decimal(record.fileSize))
            && p[5] == Entry(NarHash, Digests.Show(record.narHash))
            && p[6] == Entry(NarSize, Decimal(record.narSize))
            && p[7] == Entry(References, Join(ShowAll(record.references), " "))
  {
    hide StorePaths.Print, NarUrls.Url, Compressions.Show, Digests.Show, Decimal, Join, ShowAll;
  }

  lemma EmptyDraft()
    ensures EMPTY_DRAFT == Draft(None, None, None, None, None, None, None, [], None, [], None)
  {
  }

  lemma AbsorbNothing(draft: Draft, entries: seq<Entry>, dir: StorePaths.Dir)
    requires entries == []
    ensures AbsorbEntries(draft, entries, dir) == Ok(draft)
  {
  }

  lemma PayloadReadsBack(record: NarInfo, dir: StorePaths.Dir)
    ensures AbsorbEntries(EMPTY_DRAFT, Payload(record, dir), dir)
            == Ok(Draft(Some(record.storePath), Some(NarUrls.Url(Nar(record))), Some(record.compression),
                        Some(record.fileHash), Some(record.fileSize), Some(record.narHash), Some(record.narSize),
                        record.references, None, [], None))
  {
    hide *;
    PayloadEntries(record, dir);
    var p, url := Payload(record, dir), NarUrls.Url(Nar(record));
    var d0 := EMPTY_DRAFT;
    EmptyDraft();
    var d1 := d0.(storePath := Some(record.storePath));
    var d2 := d1.(url := Some(url));
    var d3 := d2.(compression := Some(record.compression));
    var d4 := d3.(fileHash := Some(record.fileHash));
    var d5 := d4.(fileSize := Some(record.fileSize));
    var d6 := d5.(narHash := Some(record.narHash));
    var d7 := d6.(narSize := Some(record.narSize));
    var d8 := d7.(references := record.references);
    assert p[0..] == p;
    AbsorbsStorePath(d0, record.storePath, dir);
    AbsorbAt(d0, p, 0, d1, dir);
    AbsorbsTheRest(d1, url, record.storePath, "", dir);
    AbsorbAt(d1, p, 1, d2, dir);
    AbsorbsCompression(d2, record.compression, dir);
    AbsorbAt(d2, p, 2, d3, dir);
    AbsorbsDigests(d3, record.fileHash, dir);
    AbsorbAt(d3, p, 3, d4, dir);
    AbsorbsNumbers(d4, record.fileSize, dir);
    AbsorbAt(d4, p, 4, d5, dir);
    AbsorbsDigests(d5, record.narHash, dir);
    AbsorbAt(d5, p, 5, d6, dir);
    AbsorbsNumbers(d6, record.narSize, dir);
    AbsorbAt(d6, p, 6, d7, dir);
    AbsorbsReferences(d7, record.references, dir);
    AbsorbAt(d7, p, 7, d8, dir);
    AbsorbNothing(d8, p[8..], dir);
  }

  lemma AbsorbsSig(draft: Draft, signature: Signatures.Signature, dir: StorePaths.Dir)
    requires SigNameOk(signature)
    ensures Absorb(draft, Sig, Signatures.Show(signature), dir) == Ok(draft.(sigs := draft.sigs + [signature]))
  {
    Signatures.ParseOfShow(signature);
  }

  lemma {:induction false} SigsReadBack(draft: Draft, sigs: seq<Signatures.Signature>, dir: StorePaths.Dir)
    requires forall signature <- sigs :: SigNameOk(signature)
    ensures AbsorbEntries(draft, SigEntries(sigs), dir) == Ok(draft.(sigs := draft.sigs + sigs))
    decreases |sigs|
  {
    hide Absorb, Signatures.Show;
    if sigs == [] {
      assert draft.sigs + sigs == draft.sigs;
    } else {
      assert SigNameOk(sigs[0]);
      AbsorbsSig(draft, sigs[0], dir);
      assert SigEntries(sigs)[1..] == SigEntries(sigs[1..]);
      SigsReadBack(draft.(sigs := draft.sigs + [sigs[0]]), sigs[1..], dir);
      assert draft.sigs + [sigs[0]] + sigs[1..] == draft.sigs + sigs;
    }
  }

  function RecordDraft(record: NarInfo): Draft {
    Draft(Some(record.storePath), Some(NarUrls.Url(Nar(record))), Some(record.compression), Some(record.fileHash),
          Some(record.fileSize), Some(record.narHash), Some(record.narSize), record.references, record.deriver,
          record.sigs, record.ca)
  }

  lemma DeriverEntriesReadBack(draft: Draft, record: NarInfo, dir: StorePaths.Dir)
    requires draft.deriver == None
    ensures AbsorbEntries(draft, DeriverEntries(record), dir) == Ok(draft.(deriver := record.deriver))
  {
    hide Absorb, StorePaths.Show;
    if record.deriver.Some? {
      AbsorbsTheRest(draft, "", record.deriver.value, "", dir);
    }
  }

  lemma CaEntriesReadBack(draft: Draft, record: NarInfo, dir: StorePaths.Dir)
    requires draft.ca == None
    ensures AbsorbEntries(draft, CaEntries(record), dir) == Ok(draft.(ca := record.ca))
  {
    hide Absorb, StorePaths.Show;
    if record.ca.Some? {
      AbsorbsTheRest(draft, "", record.storePath, record.ca.value, dir);
    }
  }

  lemma EntriesReadBack(record: NarInfo, dir: StorePaths.Dir)
    requires forall signature <- record.sigs :: SigNameOk(signature)
    ensures AbsorbEntries(EMPTY_DRAFT, Entries(record, dir), dir) == Ok(RecordDraft(record))
  {
    hide Payload, DeriverEntries, SigEntries, CaEntries, AbsorbEntries, SigNameOk, NarUrls.Url;
    var p, d, s, c := Payload(record, dir), DeriverEntries(record), SigEntries(record.sigs), CaEntries(record);
    PayloadReadsBack(record, dir);
    var withPayload := AbsorbEntries(EMPTY_DRAFT, p, dir).value;
    var withDeriver := withPayload.(deriver := record.deriver);
    AbsorbAppend(EMPTY_DRAFT, p, d, dir);
    DeriverEntriesReadBack(withPayload, record, dir);
    AbsorbAppend(EMPTY_DRAFT, p + d, s, dir);
    SigsReadBack(withDeriver, record.sigs, dir);
    assert withDeriver.sigs + record.sigs == record.sigs;
    AbsorbAppend(EMPTY_DRAFT, p + d + s, c, dir);
    CaEntriesReadBack(withDeriver.(sigs := record.sigs), record, dir);
  }

  // ----- The lines survive -----

  /** Only the CA can lose a character to the line reader. */
  function CaStripped(record: NarInfo): NarInfo {
    match record.ca
    case Some(ca) => record.(ca := Some(StripCr(ca)))
    case None => record
  }

  ghost predicate Printable(text: string) {
    forall c <- text :: c >= ' '
  }

  lemma {:induction false} JoinPrintable(parts: seq<string>)
    requires forall part <- parts :: Printable(part)
    ensures Printable(Join(parts, " "))
  {
    if |parts| >= 1 {
      assert Printable(parts[0]);
      if |parts| > 1 {
        JoinPrintable(parts[1..]);
      }
    }
  }

  lemma ShowAllPrintable(paths: seq<StorePaths.Path>)
    ensures Printable(Join(ShowAll(paths), " "))
  {
    hide Join, StorePaths.Show;
    forall part | part in ShowAll(paths)
      ensures Printable(part)
    {
      var i :| 0 <= i < |paths| && part == StorePaths.Show(paths[i]);
      StorePaths.ShowShape(paths[i]);
    }
    JoinPrintable(ShowAll(paths));
  }

  lemma DigestPrintable(digest: Digests.Digest)
    ensures Printable(Digests.Show(digest)) && Printable(Digests.Base32Text(digest))
  {
    Digests.Base32TextShape(digest);
  }

  lemma StorePathLine(dir: StorePaths.Dir, path: StorePaths.Path)
    requires '\n' !in dir
    ensures LineText(StorePaths.Print(dir, path))
  {
    StorePaths.ShowShape(path);
    var show := StorePaths.Show(path);
    assert StorePaths.NameChar(show[|show| - 1]);
    assert StorePaths.Print(dir, path)[|StorePaths.Print(dir, path)| - 1] == show[|show| - 1];
  }

  lemma PrintableIsLineText(text: string)
    requires Printable(text)
    ensures LineText(text)
  {
    if text != "" {
      assert text[|text| - 1] in text;
    }
  }

  lemma DecimalPrintable(n: nat)
    ensures Printable(Decimal(n))
  {
    hide Decimal;
    assert forall c <- Decimal(n) :: IsDigit(c);
  }

  lemma ShortTextsPrintable(record: NarInfo)
    ensures Printable(NarUrls.Url(Nar(record))) && Printable(Compressions.Show(record.compression))
  {
    hide Digests.Base32Text;
    DigestPrintable(record.fileHash);
  }

  lemma PayloadLines(record: NarInfo, dir: StorePaths.Dir)
    requires '\n' !in dir
    ensures forall entry <- Payload(record, dir) :: LineText(entry.value)
  {
    PayloadEntries(record, dir);
    hide Payload, StorePaths.Print, NarUrls.Url, Compressions.Show, Digests.Show, Decimal, Join, ShowAll;
    StorePathLine(dir, record.storePath);
    ShortTextsPrintable(record);
    DigestPrintable(record.fileHash);
    DigestPrintable(record.narHash);
    DecimalPrintable(record.fileSize);
    DecimalPrintable(record.narSize);
    ShowAllPrintable(record.references);
    var p := Payload(record, dir);
    forall i | 0 <= i < |p|
      ensures LineText(p[i].value)
    {
      if i > 0 {
        assert i == 1 || i == 2 || i == 3 || i == 4 || i == 5 || i == 6 || i == 7;
        PrintableIsLineText(p[i].value);
      }
    }
  }

  lemma OtherLines(record: NarInfo)
    requires forall signature <- record.sigs :: SigNameOk(signature)
    ensures forall entry <- DeriverEntries(record) :: LineText(entry.value)
    ensures forall entry <- SigEntries(record.sigs) :: LineText(entry.value)
  {
    hide StorePaths.Show, Signatures.Show;
    if record.deriver.Some? {
      StorePaths.ShowShape(record.deriver.value);
      assert Printable(StorePaths.Show(record.deriver.value));
      PrintableIsLineText(StorePaths.Show(record.deriver.value));
    }
    forall i | 0 <= i < |record.sigs|
      ensures LineText(SigEntries(record.sigs)[i].value)
    {
      assert SigNameOk(record.sigs[i]);
      Signatures.ShowShape(record.sigs[i]);
    }
  }

  lemma StrippedLineText(entries: seq<Entry>)
    requires forall entry <- entries :: LineText(entry.value)
    ensures StrippedAll(entries) == entries
  {
    forall i | 0 <= i < |entries|
      ensures Stripped(entries[i]) == entries[i]
    {
      assert LineText(entries[i].value);
    }
  }

  lemma CaEntriesStripped(record: NarInfo)
    ensures StrippedAll(CaEntries(record)) == CaEntries(CaStripped(record))
  {
  }

  lemma StrippedAppend(a: seq<Entry>, b: seq<Entry>)
    ensures StrippedAll(a + b) == StrippedAll(a) + StrippedAll(b)
  {
  }

  lemma StrippedEntries(record: NarInfo, dir: StorePaths.Dir)
    requires Renderable(record) && '\n' !in dir
    ensures forall entry <- Entries(record, dir) :: '\n' !in entry.value
    ensures StrippedAll(Entries(record, dir)) == Entries(CaStripped(record), dir)
  {
    var p, d, s, c := Payload(record, dir), DeriverEntries(record), SigEntries(record.sigs), CaEntries(record);
    SamePayload(record, dir);
    hide Payload, DeriverEntries, SigEntries, CaEntries, StrippedAll, StripCr;
    PayloadLines(record, dir);
    OtherLines(record);
    StrippedLineText(p);
    StrippedLineText(d);
    StrippedLineText(s);
    CaEntriesStripped(record);
    StrippedAppend(p, d);
    StrippedAppend(p + d, s);
    StrippedAppend(p + d + s, c);
    CaEntriesNewlineFree(record);
  }

  lemma CaEntriesNewlineFree(record: NarInfo)
    requires Renderable(record)
    ensures forall entry <- CaEntries(record) :: '\n' !in entry.value
  {
  }

  lemma SamePayload(record: NarInfo, dir: StorePaths.Dir)
    ensures Payload(CaStripped(record), dir) == Payload(record, dir)
    ensures DeriverEntries(CaStripped(record)) == DeriverEntries(record)
    ensures CaStripped(record).sigs == record.sigs
  {
  }

  // ----- The theorems -----

  /** What a rendered record reads back as, for every renderable record. */
  lemma RenderedReadsBack(record: NarInfo, dir: StorePaths.Dir)
    requires Renderable(record) && '\n' !in dir
    ensures Parsed(Rendered(record, dir), dir) == Ok(CaStripped(record))
  {
    RecordDraftFinishes(CaStripped(record));
    hide Entries, RecordDraft, Finish, StrippedAll, AbsorbEntries, AbsorbLines, CaStripped;
    StrippedEntries(record, dir);
    BodyReadsBack(Entries(record, dir), dir);
    SameSigs(record);
    EntriesReadBack(CaStripped(record), dir);
  }

  lemma SameSigs(record: NarInfo)
    ensures CaStripped(record).sigs == record.sigs
  {
  }

  lemma RecordDraftFinishes(record: NarInfo)
    ensures Finish(RecordDraft(record)) == Ok(record)
  {
    hide NarUrls.Name;
    assert |NarUrls.Url(Nar(record))| >= |NarUrls.PREFIX|;
  }

  /** A record survives rendering and parsing exactly when its free text fits the line format. */
  lemma RoundTripsExactlyWhenRenderable(record: NarInfo, dir: StorePaths.Dir)
    ensures Parsed(Rendered(record, dir), dir) == Ok(record)
            <==> Renderable(record) && '\n' !in dir && !CaEndsInCr(record)
  {
    if Parsed(Rendered(record, dir), dir) == Ok(record) {
      AcceptedIsRenderable(Rendered(record, dir), dir);
    }
    if Renderable(record) && '\n' !in dir {
      RenderedReadsBack(record, dir);
    }
  }

  /**
   Rendering normalises every accepted body: reading the rendering gives the record back, unless its
   CA ends in a carriage return, in which case reading drops that character.
   */
  lemma RenderingNormalises(body: string, dir: StorePaths.Dir)
    requires Parsed(body, dir).Ok?
    ensures var record := Parsed(body, dir).value;
            && Parsed(Rendered(record, dir), dir) == Ok(CaStripped(record))
            && (Parsed(Rendered(record, dir), dir) == Ok(record) <==> !CaEndsInCr(record))
  {
    AcceptedIsRenderable(body, dir);
    RenderedReadsBack(Parsed(body, dir).value, dir);
  }

  /** A body whose CA line ends in two carriage returns is accepted, and rendering loses one of them. */
  lemma CarriageReturnIsLost(record: NarInfo, dir: StorePaths.Dir)
    requires Renderable(record) && '\n' !in dir && record.ca.None?
    ensures var body := Rendered(record, dir) + "CA: x\r\r\n";
            && Parsed(body, dir) == Ok(record.(ca := Some("x\r")))
            && Parsed(Rendered(record.(ca := Some("x\r")), dir), dir) == Ok(record.(ca := Some("x")))
  {
    var twice, once := record.(ca := Some("x\r\r")), record.(ca := Some("x\r"));
    AddedCaLine(record, dir, "x\r\r");
    assert Rendered(record, dir) + "CA: " + "x\r\r" + "\n" == Rendered(record, dir) + "CA: x\r\r\n";
    assert StripCr("x\r\r") == "x\r" && StripCr("x\r") == "x";
    hide Parsed, Rendered;
    RenderedReadsBack(twice, dir);
    RenderedReadsBack(once, dir);
  }

  lemma AddedCaLine(record: NarInfo, dir: StorePaths.Dir, ca: string)
    requires record.ca.None?
    ensures Rendered(record.(ca := Some(ca)), dir) == Rendered(record, dir) + "CA: " + ca + "\n"
  {
    PayloadWithCa(record, dir, ca);
    hide Payload, DeriverEntries, SigEntries, Body;
    BodySnoc(Entries(record, dir), Entry(Ca, ca));
    assert Entries(record.(ca := Some(ca)), dir) == Entries(record, dir) + [Entry(Ca, ca)];
    assert Line(Entry(Ca, ca)) == "CA" + ": " + ca;
  }

  lemma PayloadWithCa(record: NarInfo, dir: StorePaths.Dir, ca: string)
    ensures Payload(record.(ca := Some(ca)), dir) == Payload(record, dir)
    ensures DeriverEntries(record.(ca := Some(ca))) == DeriverEntries(record)
  {
  }
}
