/** Reading a narinfo body, and the exact sense in which rendering and reading undo each other. */
module NarInfoParsing {
  import opened Prelude
  import opened Text
  import Compressions
  import Digests
  import Signatures
  import StorePaths
  import opened NarInfos

  const DERIVER_UNKNOWN: string := "unknown-deriver"

  datatype Error =
    | BadLine(line: string)
    | Missing(field: Field)
    | BadPath(field: Field, path: StorePaths.Error)
    | BadDigest(field: Field, digest: Digests.Error)
    | Number(field: Field)
    | NarSizeZero
    | Algorithm
    | BadSignature(signature: Signatures.Error)

  datatype Draft = Draft(
    storePath: Option<StorePaths.Path>,
    url: Option<string>,
    compression: Option<Compressions.Compression>,
    fileHash: Option<Digests.Digest>,
    fileSize: Option<u64>,
    narHash: Option<Digests.Digest>,
    narSize: Option<u64>,
    references: seq<StorePaths.Path>,
    deriver: Option<StorePaths.Path>,
    sigs: seq<Signatures.Signature>,
    ca: Option<string>)

  const EMPTY_DRAFT: Draft := Draft(None, None, None, None, None, None, None, [], None, [], None)

  function FieldOf(key: string): Option<Field> {
    if key == "StorePath" then Some(StorePath)
    else if key == "URL" then Some(Url)
    else if key == "Compression" then Some(Compression)
    else if key == "FileHash" then Some(FileHash)
    else if key == "FileSize" then Some(FileSize)
    else if key == "NarHash" then Some(NarHash)
    else if key == "NarSize" then Some(NarSize)
    else if key == "References" then Some(References)
    else if key == "Deriver" then Some(Deriver)
    else if key == "Sig" then Some(Sig)
    else if key == "CA" then Some(Ca)
    else None
  }

  /** `Key: value`, or a bare `Key:` read as an empty value. */
  function KeyValue(line: string): (r: Option<(string, string)>)
    ensures r.Some? ==> forall c <- r.value.1 :: c in line
  {
    match SplitOnce(line, ": ")
    case Some(parts) => Some(parts)
    case None =>
      match StripSuffix(line, ":")
      case Some(key) => Some((key, ""))
      case None => None
  }

  function ParseReferences(names: seq<string>): Result<seq<StorePaths.Path>, Error> {
    if names == [] then Ok([])
    else match StorePaths.Parse(names[0])
      case Err(error) => Err(BadPath(References, error))
      case Ok(path) =>
        match ParseReferences(names[1..])
        case Err(error) => Err(error)
        case Ok(rest) => Ok([path] + rest)
  }

  function AbsorbDigest(field: Field, value: string): Result<Digests.Digest, Error> {
    match Digests.Parse(value)
    case Ok(digest) => Ok(digest)
    case Err(error) => Err(BadDigest(field, error))
  }

  function AbsorbNumber(field: Field, value: string): Result<u64, Error> {
    match ParseU64(value)
    case Some(n) => Ok(n)
    case None => Err(Number(field))
  }

  function Absorb(draft: Draft, field: Field, value: string, dir: StorePaths.Dir): Result<Draft, Error> {
    match field
    case StorePath =>
      (match StorePaths.ParseIn(dir, value)
       case Ok(path) => Ok(draft.(storePath := Some(path)))
       case Err(error) => Err(BadPath(field, error)))
    case Url => Ok(draft.(url := Some(value)))
    case Compression =>
      (match Compressions.Parse(value)
       case Some(compression) => Ok(draft.(compression := Some(compression)))
       case None => Err(Algorithm))
    case FileHash =>
      (match AbsorbDigest(field, value)
       case Ok(digest) => Ok(draft.(fileHash := Some(digest)))
       case Err(error) => Err(error))
    case FileSize =>
      (match AbsorbNumber(field, value)
       case Ok(n) => Ok(draft.(fileSize := Some(n)))
       case Err(error) => Err(error))
    case NarHash =>
      (match AbsorbDigest(field, value)
       case Ok(digest) => Ok(draft.(narHash := Some(digest)))
       case Err(error) => Err(error))
    case NarSize =>
      (match AbsorbNumber(field, value)
       case Ok(n) => Ok(draft.(narSize := Some(n)))
       case Err(error) => Err(error))
    case References =>
      (match ParseReferences(Words(value))
       case Ok(paths) => Ok(draft.(references := draft.references + paths))
       case Err(error) => Err(error))
    case Deriver =>
      if value == DERIVER_UNKNOWN then Ok(draft)
      else (match StorePaths.Parse(value)
            case Ok(path) => Ok(draft.(deriver := Some(path)))
            case Err(error) => Err(BadPath(field, error)))
    case Sig =>
      (match Signatures.Parse(value)
       case Ok(signature) => Ok(draft.(sigs := draft.sigs + [signature]))
       case Err(error) => Err(BadSignature(error)))
    case Ca => Ok(draft.(ca := Some(value)))
  }

  function AbsorbLine(draft: Draft, line: string, dir: StorePaths.Dir): Result<Draft, Error> {
    if line == "" then Ok(draft)
    else match KeyValue(line)
      case None => Err(BadLine(line))
      case Some(parts) =>
        match FieldOf(parts.0)
        case None => Ok(draft)
        case Some(field) => Absorb(draft, field, parts.1, dir)
  }

  function AbsorbLines(draft: Draft, lines: seq<string>, dir: StorePaths.Dir): Result<Draft, Error>
    decreases |lines|
  {
    if lines == [] then Ok(draft)
    else match AbsorbLine(draft, lines[0], dir)
      case Err(error) => Err(error)
      case Ok(next) => AbsorbLines(next, lines[1..], dir)
  }

  function Finish(draft: Draft): Result<NarInfo, Error> {
    if draft.narSize.None? then Err(Missing(NarSize))
    else if draft.url.None? || draft.url.value == "" then Err(Missing(Url))
    else if draft.storePath.None? then Err(Missing(StorePath))
    else if draft.fileHash.None? then Err(Missing(FileHash))
    else if draft.fileSize.None? then Err(Missing(FileSize))
    else if draft.narHash.None? then Err(Missing(NarHash))
    else if draft.narSize.value == 0 then Err(NarSizeZero)
    else Ok(NarInfo(
      draft.storePath.value,
      // The default is what nix assumes.
      if draft.compression.Some? then draft.compression.value else Compressions.Bzip2,
      draft.fileHash.value, draft.fileSize.value, draft.narHash.value, draft.narSize.value,
      draft.references, draft.deriver, draft.sigs, draft.ca))
  }

  function Parsed(body: string, dir: StorePaths.Dir): Result<NarInfo, Error> {
    match AbsorbLines(EMPTY_DRAFT, Lines(body), dir)
    case Err(error) => Err(error)
    case Ok(draft) => Finish(draft)
  }

  method Parse(body: string, dir: StorePaths.Dir) returns (r: Result<NarInfo, Error>)
    ensures r == Parsed(body, dir)
  {
    var draft := EMPTY_DRAFT;
    var lines := Lines(body);
    for i := 0 to |lines|
      invariant AbsorbLines(EMPTY_DRAFT, lines, dir) == AbsorbLines(draft, lines[i..], dir)
    {
      assert lines[i..][0] == lines[i] && lines[i..][1..] == lines[i + 1..];
      var absorbed := AbsorbLine(draft, lines[i], dir);
      if absorbed.Err? {
        return Err(absorbed.error);
      }
      draft := absorbed.value;
    }
    return Finish(draft);
  }

  // ----- What an accepted body guarantees -----

  ghost predicate SigNameOk(signature: Signatures.Signature) {
    Signatures.ValidName(signature.name) && '\n' !in signature.name
  }

  /** The record's free text fits the line format, up to a trailing `\r` in its CA. */
  ghost predicate Renderable(record: NarInfo) {
    && (forall signature <- record.sigs :: SigNameOk(signature))
    && (record.ca.Some? ==> '\n' !in record.ca.value)
  }

  ghost predicate CaEndsInCr(record: NarInfo) {
    record.ca.Some? && EndsInCr(record.ca.value)
  }

  ghost predicate DraftOk(draft: Draft, dir: StorePaths.Dir) {
    && (forall signature <- draft.sigs :: SigNameOk(signature))
    && (draft.ca.Some? ==> '\n' !in draft.ca.value)
    && (draft.storePath.Some? ==> '\n' !in dir)
  }

  lemma AbsorbKeepsOk(draft: Draft, field: Field, value: string, dir: StorePaths.Dir)
    requires DraftOk(draft, dir) && '\n' !in value
    ensures Absorb(draft, field, value, dir).Ok? ==> DraftOk(Absorb(draft, field, value, dir).value, dir)
  {
    match field
    case StorePath =>
      if StorePaths.ParseIn(dir, value).Ok? {
        assert forall c <- dir :: c in value;
      }
    case Sig =>
      if Signatures.Parse(value).Ok? {
        SplitOnceNames(value);
      }
    case _ =>
  }

  lemma SplitOnceNames(value: string)
    requires '\n' !in value && Signatures.Parse(value).Ok?
    ensures SigNameOk(Signatures.Parse(value).value)
  {
    var parts := SplitOnce(value, ":").value;
    assert forall c <- parts.0 :: c in value;
  }

  lemma {:induction false} LinesKeepOk(draft: Draft, lines: seq<string>, dir: StorePaths.Dir)
    requires DraftOk(draft, dir) && forall line <- lines :: '\n' !in line
    ensures AbsorbLines(draft, lines, dir).Ok? ==> DraftOk(AbsorbLines(draft, lines, dir).value, dir)
    decreases |lines|
  {
    if lines != [] && AbsorbLine(draft, lines[0], dir).Ok? {
      if lines[0] != "" && FieldOf(KeyValue(lines[0]).value.0).Some? {
        AbsorbKeepsOk(draft, FieldOf(KeyValue(lines[0]).value.0).value, KeyValue(lines[0]).value.1, dir);
      }
      LinesKeepOk(AbsorbLine(draft, lines[0], dir).value, lines[1..], dir);
    }
  }

  lemma AcceptedIsRenderable(body: string, dir: StorePaths.Dir)
    requires Parsed(body, dir).Ok?
    ensures Renderable(Parsed(body, dir).value) && '\n' !in dir
  {
    hide AbsorbLines, Lines, Finish;
    LinesHaveNoNewline(body);
    LinesKeepOk(EMPTY_DRAFT, Lines(body), dir);
    FinishKeeps(AbsorbLines(EMPTY_DRAFT, Lines(body), dir).value);
  }

  lemma FinishKeeps(draft: Draft)
    requires Finish(draft).Ok?
    ensures draft.storePath.Some? && Finish(draft).value.sigs == draft.sigs && Finish(draft).value.ca == draft.ca
  {
  }

  // ----- Reading back what was rendered -----

  function AbsorbEntries(draft: Draft, entries: seq<Entry>, dir: StorePaths.Dir): Result<Draft, Error>
    decreases |entries|
  {
    if entries == [] then Ok(draft)
    else match Absorb(draft, entries[0].field, entries[0].value, dir)
      case Err(error) => Err(error)
      case Ok(next) => AbsorbEntries(next, entries[1..], dir)
  }

  lemma {:induction false} AbsorbAppend(draft: Draft, a: seq<Entry>, b: seq<Entry>, dir: StorePaths.Dir)
    requires AbsorbEntries(draft, a, dir).Ok?
    ensures AbsorbEntries(draft, a + b, dir) == AbsorbEntries(AbsorbEntries(draft, a, dir).value, b, dir)
    decreases |a|
  {
    hide Absorb;
    if a == [] {
      assert a + b == b;
    } else {
      AppendTail(a, b);
      AbsorbAppend(Absorb(draft, a[0].field, a[0].value, dir).value, a[1..], b, dir);
    }
  }

  lemma KeyShape(field: Field)
    ensures FieldOf(Key(field)) == Some(field)
    ensures ':' !in Key(field) && '\n' !in Key(field)
  {
  }

  function Stripped(entry: Entry): Entry {
    Entry(entry.field, StripCr(entry.value))
  }

  function StrippedAll(entries: seq<Entry>): (r: seq<Entry>)
    ensures |r| == |entries| && forall i :: 0 <= i < |entries| ==> r[i] == Stripped(entries[i])
  {
    seq(|entries|, i requires 0 <= i < |entries| => Stripped(entries[i]))
  }

  lemma LineOfStripped(entry: Entry)
    ensures StripCr(Line(entry)) == Line(Stripped(entry))
  {
    if entry.value == "" {
      assert Line(entry)[|Line(entry)| - 1] == ' ';
    } else {
      assert Line(entry)[|Line(entry)| - 1] == entry.value[|entry.value| - 1];
    }
  }

  lemma LineReadsBack(draft: Draft, entry: Entry, dir: StorePaths.Dir)
    ensures AbsorbLine(draft, Line(entry), dir) == Absorb(draft, entry.field, entry.value, dir)
  {
    KeyShape(entry.field);
    SplitOnceAt(Key(entry.field), ": ", entry.value);
  }

  lemma {:induction false} LinesReadBack(draft: Draft, entries: seq<Entry>, dir: StorePaths.Dir)
    ensures AbsorbLines(draft, LinesOf(entries), dir) == AbsorbEntries(draft, entries, dir)
    decreases |entries|
  {
    if entries != [] {
      LineReadsBack(draft, entries[0], dir);
      var lines := LinesOf(entries);
      assert lines[0] == Line(entries[0]) && lines[1..] == LinesOf(entries[1..]);
      if Absorb(draft, entries[0].field, entries[0].value, dir).Ok? {
        LinesReadBack(Absorb(draft, entries[0].field, entries[0].value, dir).value, entries[1..], dir);
      }
    }
  }

  lemma BodyReadsBack(entries: seq<Entry>, dir: StorePaths.Dir)
    requires forall entry <- entries :: '\n' !in entry.value
    ensures AbsorbLines(EMPTY_DRAFT, Lines(Body(entries)), dir)
            == AbsorbEntries(EMPTY_DRAFT, StrippedAll(entries), dir)
  {
    forall i | 0 <= i < |entries|
      ensures '\n' !in LinesOf(entries)[i] && StripCr(LinesOf(entries)[i]) == LinesOf(StrippedAll(entries))[i]
    {
      KeyShape(entries[i].field);
      assert entries[i] in entries;
      LineOfStripped(entries[i]);
    }
    LinesOfUnlines(LinesOf(entries));
    assert Lines(Body(entries)) == LinesOf(StrippedAll(entries));
    LinesReadBack(EMPTY_DRAFT, StrippedAll(entries), dir);
  }
}
