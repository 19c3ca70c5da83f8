/** The narinfo record, the text it renders to, and the string its signature covers. */
module NarInfos {
  import opened Prelude
  import opened Text
  import Compressions
  import Digests
  import NarUrls
  import Signatures
  import StorePaths

  datatype NarInfo = NarInfo(
    storePath: StorePaths.Path,
    compression: Compressions.Compression,
    fileHash: Digests.Digest,
    fileSize: u64,
    narHash: Digests.Digest,
    narSize: NonZeroU64,
    references: seq<StorePaths.Path>,
    deriver: Option<StorePaths.Path>,
    sigs: seq<Signatures.Signature>,
    ca: Option<string>)

  function Nar(record: NarInfo): NarUrls.NarUrl {
    NarUrls.NarUrl(record.fileHash, record.compression)
  }

  // ----- Rendering -----

  datatype Field =
    | StorePath | Url | Compression | FileHash | FileSize | NarHash | NarSize
    | References | Deriver | Sig | Ca

  function Key(field: Field): string {
    match field
    case StorePath => "StorePath"
    case Url => "URL"
    case Compression => "Compression"
    case FileHash => "FileHash"
    case FileSize => "FileSize"
    case NarHash => "NarHash"
    case NarSize => "NarSize"
    case References => "References"
    case Deriver => "Deriver"
    case Sig => "Sig"
    case Ca => "CA"
  }

  datatype Entry = Entry(field: Field, value: string)

  function Line(entry: Entry): string {
    Key(entry.field) + ": " + entry.value
  }

  function ShowAll(paths: seq<StorePaths.Path>): (r: seq<string>)
    ensures |r| == |paths| && forall i :: 0 <= i < |paths| ==> r[i] == StorePaths.Show(paths[i])
  {
    seq(|paths|, i requires 0 <= i < |paths| => StorePaths.Show(paths[i]))
  }

  function Payload(record: NarInfo, dir: StorePaths.Dir): seq<Entry> {
    [Entry(StorePath, StorePaths.Print(dir, record.storePath)),
     Entry(Url, NarUrls.Url(Nar(record))),
     Entry(Compression, Compressions.Show(record.compression)),
     Entry(FileHash, Digests.Show(record.fileHash)),
     Entry(FileSize, Decimal(record.fileSize)),
     Entry(NarHash, Digests.Show(record.narHash)),
     Entry(NarSize, Decimal(record.narSize)),
     Entry(References, Join(ShowAll(record.references), " "))]
  }

  function SigEntries(sigs: seq<Signatures.Signature>): (r: seq<Entry>)
    ensures |r| == |sigs| && forall i :: 0 <= i < |sigs| ==> r[i] == Entry(Sig, Signatures.Show(sigs[i]))
  {
    seq(|sigs|, i requires 0 <= i < |sigs| => Entry(Sig, Signatures.Show(sigs[i])))
  }

  function DeriverEntries(record: NarInfo): seq<Entry> {
    match record.deriver
    case Some(path) => [Entry(Deriver, StorePaths.Show(path))]
    case None => []
  }

  function CaEntries(record: NarInfo): seq<Entry> {
    match record.ca
    case Some(ca) => [Entry(Ca, ca)]
    case None => []
  }

  /** What a rendered body says, line by line, in the order nix writes it. */
  function Entries(record: NarInfo, dir: StorePaths.Dir): seq<Entry> {
    Payload(record, dir) + DeriverEntries(record) + SigEntries(record.sigs) + CaEntries(record)
  }

  function LinesOf(entries: seq<Entry>): (r: seq<string>)
    ensures |r| == |entries| && forall i :: 0 <= i < |entries| ==> r[i] == Line(entries[i])
  {
    seq(|entries|, i requires 0 <= i < |entries| => Line(entries[i]))
  }

  function Body(entries: seq<Entry>): string {
    Unlines(LinesOf(entries))
  }

  function Rendered(record: NarInfo, dir: StorePaths.Dir): string {
    Body(Entries(record, dir))
  }

  lemma BodySnoc(entries: seq<Entry>, entry: Entry)
    ensures Body(entries + [entry]) == Body(entries) + Line(entry) + "\n"
  {
    assert LinesOf(entries + [entry]) == LinesOf(entries) + [Line(entry)];
    UnlinesAppend(LinesOf(entries), [Line(entry)]);
    assert Unlines([Line(entry)]) == Line(entry) + "\n" + Unlines([Line(entry)][1..]);
    assert Unlines([Line(entry)][1..]) == "";
  }

  lemma {:induction false} JoinSnoc(parts: seq<string>, part: string, sep: string)
    requires parts != []
    ensures Join(parts + [part], sep) == Join(parts, sep) + sep + part
  {
    if |parts| > 1 {
      assert (parts + [part])[1..] == parts[1..] + [part];
      JoinSnoc(parts[1..], part, sep);
    }
  }

  method PushLine(body: string, field: Field, value: string, ghost entries: seq<Entry>)
    returns (longer: string, ghost more: seq<Entry>)
    requires body == Body(entries)
    ensures more == entries + [Entry(field, value)] && longer == Body(more)
  {
    longer := body + Key(field) + ": " + value + "\n";
    more := entries + [Entry(field, value)];
    BodySnoc(entries, Entry(field, value));
    assert body + Line(Entry(field, value)) + "\n" == longer;
  }

  method RenderReferences(references: seq<StorePaths.Path>) returns (text: string)
    ensures text == Join(ShowAll(references), " ")
  {
    text := "";
    if references == [] {
      return;
    }
    text := StorePaths.Show(references[0]);
    assert ShowAll(references[..1]) == [text];
    for i := 1 to |references|
      invariant text == Join(ShowAll(references[..i]), " ")
    {
      var part := StorePaths.Show(references[i]);
      JoinSnoc(ShowAll(references[..i]), part, " ");
      assert ShowAll(references[..i + 1]) == ShowAll(references[..i]) + [part];
      text := text + " " + part;
    }
    assert references[..|references|] == references;
  }

  method RenderPayload(record: NarInfo, dir: StorePaths.Dir) returns (body: string)
    ensures body == Body(Payload(record, dir))
  {
    hide StorePaths.Print, NarUrls.Url, Compressions.Show, Digests.Show, Decimal, Join, ShowAll, StorePaths.Show;
    assert Body([]) == "";
    hide Body;
    body := "";
    ghost var said: seq<Entry> := [];
    body, said := PushLine(body, StorePath, StorePaths.Print(dir, record.storePath), said);
    body, said := PushLine(body, Url, NarUrls.Url(Nar(record)), said);
    body, said := PushLine(body, Compression, Compressions.Show(record.compression), said);
    body, said := PushLine(body, FileHash, Digests.Show(record.fileHash), said);
    body, said := PushLine(body, FileSize, Decimal(record.fileSize), said);
    body, said := PushLine(body, NarHash, Digests.Show(record.narHash), said);
    body, said := PushLine(body, NarSize, Decimal(record.narSize), said);
    var references := RenderReferences(record.references);
    body, said := PushLine(body, References, references, said);
    assert said == Payload(record, dir);
  }

  method Render(record: NarInfo, dir: StorePaths.Dir) returns (body: string)
    ensures body == Rendered(record, dir)
  {
    hide Payload, Body, Signatures.Show, StorePaths.Show;
    body := RenderPayload(record, dir);
    ghost var said := Payload(record, dir);
    if record.deriver.Some? {
      body, said := PushLine(body, Deriver, StorePaths.Show(record.deriver.value), said);
    }
    assert said == Payload(record, dir) + DeriverEntries(record);
    ghost var before := said;
    for i := 0 to |record.sigs|
      invariant said == before + SigEntries(record.sigs[..i]) && body == Body(said)
    {
      body, said := PushLine(body, Sig, Signatures.Show(record.sigs[i]), said);
      assert SigEntries(record.sigs[..i + 1]) == SigEntries(record.sigs[..i]) + [Entry(Sig, Signatures.Show(record.sigs[i]))];
    }
    assert record.sigs[..|record.sigs|] == record.sigs;
    if record.ca.Some? {
      body, said := PushLine(body, Ca, record.ca.value, said);
    }
    assert said == Entries(record, dir);
  }
}
