/** What a narinfo body says, read off its lines as a whole: which bodies are accepted, and as what. */
module NarInfoReadings {
  import opened Prelude
  import opened Text
  import Compressions
  import Digests
  import Signatures
  import StorePaths
  import opened NarInfos
  import opened NarInfoParsing
  import opened NarInfoVariants

  // ----- One line -----

  /** What a line says of a field: what follows `Key: `, or nothing after a bare `Key:`. */
  function ValueOf(line: string, field: Field): Option<string> {
    var key := Key(field) + ":";
    if line == key then Some("")
    else if key + " " <= line then Some(line[|key| + 1..])
    else None
  }

  /** A colon and a space somewhere, or a colon at the end. */
  ghost predicate HasKey(line: string) {
    || (exists i: nat :: OccursAt(line, ": ", i))
    || (line != "" && line[|line| - 1] == ':')
  }

  /** The values a field can take. */
  ghost predicate Takes(field: Field, value: string, dir: StorePaths.Dir) {
    match field
    case StorePath => StorePaths.ParseIn(dir, value).Ok?
    case Url => true
    case Compression => Compressions.Parse(value).Some?
    case FileHash => Digests.Parse(value).Ok?
    case FileSize => ParseU64(value).Some?
    case NarHash => Digests.Parse(value).Ok?
    case NarSize => ParseU64(value).Some?
    case References => forall word <- Words(value) :: StorePaths.Parse(word).Ok?
    case Deriver => value == "unknown-deriver" || StorePaths.Parse(value).Ok?
    case Sig => Signatures.Parse(value).Ok?
    case Ca => true
  }

  /** A line no body is refused for. */
  ghost predicate Readable(line: string, dir: StorePaths.Dir) {
    line == ""
    || (HasKey(line)
        && forall field: Field :: ValueOf(line, field).Some? ==> Takes(field, ValueOf(line, field).value, dir))
  }

  // ----- All the lines -----

  /** What the lines say of a field, one value a line, in order. */
  function Values(lines: seq<string>, field: Field): seq<string>
    decreases |lines|
  {
    if lines == [] then []
    else
      var front := Values(lines[..|lines| - 1], field);
      match ValueOf(lines[|lines| - 1], field)
      case Some(value) => front + [value]
      case None => front
  }

  function Last(values: seq<string>): Option<string> {
    if values == [] then None else Some(values[|values| - 1])
  }

  function AllWords(values: seq<string>): seq<string>
    decreases |values|
  {
    if values == [] then [] else AllWords(values[..|values| - 1]) + Words(values[|values| - 1])
  }

  /** Without the ones that say that the deriver is not known. */
  function Known(values: seq<string>): seq<string>
    decreases |values|
  {
    if values == [] then []
    else Known(values[..|values| - 1]) + if values[|values| - 1] == "unknown-deriver" then [] else [values[|values| - 1]]
  }

  ghost predicate SpellPaths(words: seq<string>, paths: seq<StorePaths.Path>) {
    |words| == |paths| && forall i :: 0 <= i < |words| ==> StorePaths.Parse(words[i]) == Ok(paths[i])
  }

  ghost predicate SpellSigs(values: seq<string>, sigs: seq<Signatures.Signature>) {
    |values| == |sigs| && forall i :: 0 <= i < |values| ==> Signatures.Parse(values[i]) == Ok(sigs[i])
  }

  /**
   What a field's values make of the record: the last one counts, but the words of all the References add
   up, and so do the signatures. A missing Compression means bzip2, and a deriver that is not known means
   nothing. The URL has to be there and say something, though the record does not keep it.
   */
  ghost predicate Says(field: Field, values: seq<string>, record: NarInfo, dir: StorePaths.Dir) {
    match field
    case StorePath =>
      (match Last(values)
       case None => false
       case Some(value) => StorePaths.ParseIn(dir, value) == Ok(record.storePath))
    case Url => Last(values) != None && Last(values) != Some("")
    case Compression =>
      (match Last(values)
       case None => record.compression == Compressions.Bzip2
       case Some(value) => Compressions.Parse(value) == Some(record.compression))
    case FileHash => SaysDigest(values, record.fileHash)
    case FileSize => SaysNumber(values, record.fileSize)
    case NarHash => SaysDigest(values, record.narHash)
    case NarSize => SaysNumber(values, record.narSize)
    case References => SpellPaths(AllWords(values), record.references)
    case Deriver =>
      (match Last(Known(values))
       case None => record.deriver == None
       case Some(value) => record.deriver.Some? && StorePaths.Parse(value) == Ok(record.deriver.value))
    case Sig => SpellSigs(values, record.sigs)
    case Ca => record.ca == Last(values)
  }

  ghost predicate SaysDigest(values: seq<string>, digest: Digests.Digest) {
    match Last(values)
    case None => false
    case Some(value) => Digests.Parse(value) == Ok(digest)
  }

  ghost predicate SaysNumber(values: seq<string>, number: u64) {
    match Last(values)
    case None => false
    case Some(value) => ParseU64(value) == Some(number)
  }

  ghost predicate Describe(lines: seq<string>, dir: StorePaths.Dir, record: NarInfo) {
    forall field: Field :: Says(field, Values(lines, field), record, dir)
  }

  // ----- A line against the draft -----

  lemma FieldExactly(key: string, field: Field)
    ensures FieldOf(key) == Some(field) <==> key == Key(field)
  {
    KeyShape(field);
  }

  lemma KeyOrNot(line: string)
    ensures KeyValue(line).Some? <==> HasKey(line)
  {
    SplitsAtFirst(line, ": ");
    hide SplitOnce, OccursAt;
    if StripSuffix(line, ":").None? && line != "" {
      assert line[|line| - 1..] == [line[|line| - 1]];
    }
  }

  lemma NoValue(key: string)
    requires ':' !in key
    ensures SplitOnce(key + ":", ": ").None?
  {
    SplitsAtFirst(key + ":", ": ");
    hide SplitOnce;
    forall i: nat
      ensures !OccursAt(key + ":", ": ", i)
    {
      if i + 2 <= |key| + 1 {
        assert (key + ":")[i..i + 2][0] == key[i];
      }
    }
  }

  lemma BareKey(line: string, field: Field)
    requires line == Key(field) + ":"
    ensures KeyValue(line) == Some((Key(field), ""))
  {
    KeyShape(field);
    NoValue(Key(field));
    hide SplitOnce, Key, FieldOf;
    assert line[|line| - 1..] == ":" && line[..|line| - 1] == Key(field);
  }

  lemma KeyWithValue(line: string, field: Field, value: string)
    requires line == Key(field) + ": " + value
    ensures KeyValue(line) == Some((Key(field), value)) && ValueOf(line, field) == Some(value)
  {
    KeyShape(field);
    hide SplitOnce, Key, FieldOf;
    SplitOnceAt(Key(field), ": ", value);
    var key := Key(field) + ":";
    assert line == key + " " + value && line[|key| + 1..] == value;
  }

  lemma KeyRead(line: string, field: Field)
    requires KeyValue(line).Some? && KeyValue(line).value.0 == Key(field)
    ensures ValueOf(line, field) == Some(KeyValue(line).value.1)
  {
    hide SplitOnce, Key;
    if SplitOnce(line, ": ").Some? {
      KeyWithValue(line, field, KeyValue(line).value.1);
    }
  }

  /** A line with a key, and what it says. */
  lemma KeyExactly(line: string, field: Field)
    ensures KeyValue(line).Some? <==> HasKey(line)
    ensures ValueOf(line, field).Some? <==> KeyValue(line).Some? && FieldOf(KeyValue(line).value.0) == Some(field)
    ensures ValueOf(line, field).Some? ==> KeyValue(line).value.1 == ValueOf(line, field).value
  {
    KeyOrNot(line);
    KeyShape(field);
    hide HasKey, KeyValue, Key, FieldOf;
    if ValueOf(line, field).Some? {
      var key := Key(field) + ":";
      if line == key {
        BareKey(line, field);
      } else {
        var value := line[|key| + 1..];
        assert line == key + " " + value;
        assert key + " " + value == Key(field) + ": " + value;
        KeyWithValue(line, field, value);
      }
    } else if KeyValue(line).Some? {
      FieldExactly(KeyValue(line).value.0, field);
      if KeyValue(line).value.0 == Key(field) {
        KeyRead(line, field);
      }
    }
  }

  // ----- The draft against the lines so far -----

  /** The draft holds of a field what the values say. */
  ghost predicate Holds(field: Field, draft: Draft, values: seq<string>, dir: StorePaths.Dir) {
    match field
    case StorePath =>
      (match Last(values)
       case None => draft.storePath == None
       case Some(value) => draft.storePath.Some? && StorePaths.ParseIn(dir, value) == Ok(draft.storePath.value))
    case Url => draft.url == Last(values)
    case Compression =>
      (match Last(values)
       case None => draft.compression == None
       case Some(value) => draft.compression.Some? && Compressions.Parse(value) == draft.compression)
    case FileHash => HoldsDigest(draft.fileHash, values)
    case FileSize => HoldsNumber(draft.fileSize, values)
    case NarHash => HoldsDigest(draft.narHash, values)
    case NarSize => HoldsNumber(draft.narSize, values)
    case References => SpellPaths(AllWords(values), draft.references)
    case Deriver =>
      (match Last(Known(values))
       case None => draft.deriver == None
       case Some(value) => draft.deriver.Some? && StorePaths.Parse(value) == Ok(draft.deriver.value))
    case Sig => SpellSigs(values, draft.sigs)
    case Ca => draft.ca == Last(values)
  }

  ghost predicate HoldsDigest(digest: Option<Digests.Digest>, values: seq<string>) {
    match Last(values)
    case None => digest == None
    case Some(value) => digest.Some? && Digests.Parse(value) == Ok(digest.value)
  }

  ghost predicate HoldsNumber(number: Option<u64>, values: seq<string>) {
    match Last(values)
    case None => number == None
    case Some(value) => number.Some? && ParseU64(value) == number
  }

  ghost predicate HoldsAll(draft: Draft, seen: seq<string>, dir: StorePaths.Dir) {
    forall field: Field :: Holds(field, draft, Values(seen, field), dir)
  }

  lemma {:induction false} ReferencesExactly(words: seq<string>)
    ensures ParseReferences(words).Ok? <==> forall word <- words :: StorePaths.Parse(word).Ok?
    ensures ParseReferences(words).Ok? ==> SpellPaths(words, ParseReferences(words).value)
  {
    hide StorePaths.Parse;
    if words != [] {
      assert words == [words[0]] + words[1..];
      ReferencesExactly(words[1..]);
    }
  }

  lemma SpellMore(words: seq<string>, paths: seq<StorePaths.Path>, more: seq<string>, longer: seq<StorePaths.Path>)
    requires SpellPaths(words, paths) && SpellPaths(more, longer)
    ensures SpellPaths(words + more, paths + longer)
  {
    hide StorePaths.Parse;
  }

  lemma ValuesSnoc(values: seq<string>, value: string)
    ensures Last(values + [value]) == Some(value)
    ensures AllWords(values + [value]) == AllWords(values) + Words(value)
    ensures Known(values + [value]) == Known(values) + if value == "unknown-deriver" then [] else [value]
  {
    assert (values + [value])[..|values|] == values;
  }

  /** A value is absorbed exactly when the field takes it, and then the draft holds it too. */
  lemma AbsorbsExactly(field: Field, value: string, draft: Draft, values: seq<string>, dir: StorePaths.Dir)
    ensures Absorb(draft, field, value, dir).Ok? <==> Takes(field, value, dir)
    ensures Holds(field, draft, values, dir) && Absorb(draft, field, value, dir).Ok?
            ==> Holds(field, Absorb(draft, field, value, dir).value, values + [value], dir)
  {
    ValuesSnoc(values, value);
    hide StorePaths.ParseIn, StorePaths.Parse, Words, Signatures.Parse, Compressions.Parse, Digests.Parse, ParseU64,
         AllWords, Known;
    if field == References {
      ReferencesExactly(Words(value));
      if Holds(References, draft, values, dir) && Absorb(draft, field, value, dir).Ok? {
        SpellMore(AllWords(values), draft.references, Words(value), ParseReferences(Words(value)).value);
      }
    }
  }

  lemma HeldAlike(field: Field, a: Draft, b: Draft, values: seq<string>, dir: StorePaths.Dir)
    requires Agree(field, a, b) && Holds(field, b, values, dir)
    ensures Holds(field, a, values, dir)
  {
    hide StorePaths.ParseIn, StorePaths.Parse, AllWords, Known, Digests.Parse, ParseU64, Compressions.Parse,
         Signatures.Parse;
  }

  lemma LinesSnoc(lines: seq<string>, line: string, field: Field)
    ensures Values(lines + [line], field)
         == match ValueOf(line, field)
            case Some(value) => Values(lines, field) + [value]
            case None => Values(lines, field)
  {
    assert (lines + [line])[..|lines|] == lines;
  }

  lemma SilentLine(line: string)
    ensures line == "" ==> forall field: Field :: ValueOf(line, field).None?
  {
  }

  /** A line that sets a field. */
  lemma FieldLine(draft: Draft, seen: seq<string>, line: string, field: Field, dir: StorePaths.Dir)
    requires HoldsAll(draft, seen, dir) && line != "" && ValueOf(line, field).Some?
    ensures AbsorbLine(draft, line, dir).Ok? <==> Readable(line, dir)
    ensures AbsorbLine(draft, line, dir).Ok? ==> HoldsAll(AbsorbLine(draft, line, dir).value, seen + [line], dir)
  {
    var value := ValueOf(line, field).value;
    hide Values, ValueOf, KeyValue, FieldOf, Absorb, Holds, Takes, HasKey, Agree;
    KeyExactly(line, field);
    AbsorbsExactly(field, value, draft, Values(seen, field), dir);
    forall other: Field | ValueOf(line, other).Some?
      ensures other == field
    {
      KeyExactly(line, other);
    }
    if Absorb(draft, field, value, dir).Ok? {
      AbsorbIsLocal(field, value, dir, draft, draft);
      var next := Absorb(draft, field, value, dir).value;
      forall other: Field
        ensures Holds(other, next, Values(seen + [line], other), dir)
      {
        LinesSnoc(seen, line, other);
        if other != field {
          assert Agree(other, next, draft);
          HeldAlike(other, next, draft, Values(seen, other), dir);
        }
      }
    }
  }

  lemma LineExactly(draft: Draft, seen: seq<string>, line: string, dir: StorePaths.Dir)
    requires HoldsAll(draft, seen, dir)
    ensures AbsorbLine(draft, line, dir).Ok? <==> Readable(line, dir)
    ensures AbsorbLine(draft, line, dir).Ok? ==> HoldsAll(AbsorbLine(draft, line, dir).value, seen + [line], dir)
  {
    hide Values, ValueOf, KeyValue, FieldOf, Absorb, Holds, Takes, HasKey;
    SilentLine(line);
    if field: Field :| line != "" && ValueOf(line, field).Some? {
      FieldLine(draft, seen, line, field, dir);
    } else {
      forall field: Field
        ensures Values(seen + [line], field) == Values(seen, field)
        ensures line != "" ==> (KeyValue(line).Some? <==> HasKey(line))
        ensures line != "" && KeyValue(line).Some? ==> FieldOf(KeyValue(line).value.0) != Some(field)
      {
        LinesSnoc(seen, line, field);
        KeyExactly(line, field);
      }
      assert line != "" ==> (KeyValue(line).Some? <==> HasKey(line)) by {
        KeyExactly(line, Ca);
      }
    }
  }

  lemma {:induction false} LinesExactly(draft: Draft, seen: seq<string>, lines: seq<string>, dir: StorePaths.Dir)
    requires HoldsAll(draft, seen, dir)
    ensures AbsorbLines(draft, lines, dir).Ok? <==> forall line <- lines :: Readable(line, dir)
    ensures AbsorbLines(draft, lines, dir).Ok? ==> HoldsAll(AbsorbLines(draft, lines, dir).value, seen + lines, dir)
    decreases |lines|
  {
    hide AbsorbLine, HoldsAll, Readable;
    if lines == [] {
      assert seen + lines == seen;
    } else {
      assert lines == [lines[0]] + lines[1..];
      assert seen + lines == seen + [lines[0]] + lines[1..];
      LineExactly(draft, seen, lines[0], dir);
      if AbsorbLine(draft, lines[0], dir).Ok? {
        LinesExactly(AbsorbLine(draft, lines[0], dir).value, seen + [lines[0]], lines[1..], dir);
      }
    }
  }

  // ----- The draft, finished -----

  lemma SpelledOnce(words: seq<string>, a: seq<StorePaths.Path>, b: seq<StorePaths.Path>)
    requires SpellPaths(words, a) && SpellPaths(words, b)
    ensures a == b
  {
    hide StorePaths.Parse;
    forall i | 0 <= i < |a|
      ensures a[i] == b[i]
    {
      assert StorePaths.Parse(words[i]) == Ok(a[i]);
    }
  }

  lemma SignedOnce(values: seq<string>, a: seq<Signatures.Signature>, b: seq<Signatures.Signature>)
    requires SpellSigs(values, a) && SpellSigs(values, b)
    ensures a == b
  {
    hide Signatures.Parse;
    forall i | 0 <= i < |a|
      ensures a[i] == b[i]
    {
      assert Signatures.Parse(values[i]) == Ok(a[i]);
    }
  }

  /** The finished record takes from the draft what it should. */
  ghost predicate Keeps(field: Field, draft: Draft, record: NarInfo) {
    match field
    case StorePath => draft.storePath == Some(record.storePath)
    case Url => draft.url != None && draft.url != Some("")
    case Compression => record.compression == if draft.compression.Some? then draft.compression.value else Compressions.Bzip2
    case FileHash => draft.fileHash == Some(record.fileHash)
    case FileSize => draft.fileSize == Some(record.fileSize)
    case NarHash => draft.narHash == Some(record.narHash)
    case NarSize => draft.narSize == Some(record.narSize)
    case References => draft.references == record.references
    case Deriver => draft.deriver == record.deriver
    case Sig => draft.sigs == record.sigs
    case Ca => draft.ca == record.ca
  }

  lemma KeepsWhatItSays(field: Field, draft: Draft, values: seq<string>, record: NarInfo, dir: StorePaths.Dir)
    requires Holds(field, draft, values, dir)
    ensures Keeps(field, draft, record) <==> Says(field, values, record, dir)
  {
    hide StorePaths.ParseIn, StorePaths.Parse, AllWords, Known, Digests.Parse, ParseU64, Compressions.Parse,
         Signatures.Parse, SpellPaths, SpellSigs;
    if field == References && Says(field, values, record, dir) {
      SpelledOnce(AllWords(values), draft.references, record.references);
    } else if field == Sig && Says(field, values, record, dir) {
      SignedOnce(values, draft.sigs, record.sigs);
    }
  }

  lemma FinishKeepsAll(draft: Draft, record: NarInfo)
    ensures Finish(draft) == Ok(record) <==> forall field: Field :: Keeps(field, draft, record)
  {
    if forall field: Field :: Keeps(field, draft, record) {
      assert Keeps(StorePath, draft, record) && Keeps(Url, draft, record) && Keeps(Compression, draft, record);
      assert Keeps(FileHash, draft, record) && Keeps(FileSize, draft, record) && Keeps(NarHash, draft, record);
      assert Keeps(NarSize, draft, record) && Keeps(References, draft, record) && Keeps(Deriver, draft, record);
      assert Keeps(Sig, draft, record) && Keeps(Ca, draft, record);
    }
  }

  lemma FinishExactly(draft: Draft, lines: seq<string>, dir: StorePaths.Dir, record: NarInfo)
    requires HoldsAll(draft, lines, dir)
    ensures Finish(draft) == Ok(record) <==> Describe(lines, dir, record)
  {
    hide Finish, Keeps, Says, Holds, Values;
    FinishKeepsAll(draft, record);
    forall field: Field
      ensures Keeps(field, draft, record) <==> Says(field, Values(lines, field), record, dir)
    {
      KeepsWhatItSays(field, draft, Values(lines, field), record, dir);
    }
  }

  /** A body is accepted as a record exactly when every line reads and together they describe that record. */
  lemma ParsedExactly(body: string, dir: StorePaths.Dir, record: NarInfo)
    ensures Parsed(body, dir) == Ok(record)
        <==> (forall line <- Lines(body) :: Readable(line, dir)) && Describe(Lines(body), dir, record)
  {
    hide Lines, Readable, Describe, Finish, AbsorbLines, HoldsAll;
    NothingHeld(dir);
    LinesExactly(EMPTY_DRAFT, [], Lines(body), dir);
    assert [] + Lines(body) == Lines(body);
    if AbsorbLines(EMPTY_DRAFT, Lines(body), dir).Ok? {
      FinishExactly(AbsorbLines(EMPTY_DRAFT, Lines(body), dir).value, Lines(body), dir, record);
    }
  }

  lemma NothingHeld(dir: StorePaths.Dir)
    ensures HoldsAll(EMPTY_DRAFT, [], dir)
  {
  }

  /** What a body has to say, once every line reads: the required fields, and more than nothing. */
  ghost predicate Complete(lines: seq<string>) {
    && Values(lines, StorePath) != [] && Values(lines, FileHash) != [] && Values(lines, FileSize) != []
    && Values(lines, NarHash) != []
    && Last(Values(lines, Url)) != None && Last(Values(lines, Url)) != Some("")
    && Last(Values(lines, NarSize)) != None && ParseU64(Last(Values(lines, NarSize)).value) != Some(0)
  }

  /** So a body is accepted exactly when every line reads and the required fields say something. */
  lemma AcceptedExactly(body: string, dir: StorePaths.Dir)
    ensures Parsed(body, dir).Ok? <==> (forall line <- Lines(body) :: Readable(line, dir)) && Complete(Lines(body))
  {
    hide Lines, Readable, Complete, Finish, AbsorbLines, HoldsAll;
    NothingHeld(dir);
    LinesExactly(EMPTY_DRAFT, [], Lines(body), dir);
    assert [] + Lines(body) == Lines(body);
    if AbsorbLines(EMPTY_DRAFT, Lines(body), dir).Ok? {
      FinishesExactly(AbsorbLines(EMPTY_DRAFT, Lines(body), dir).value, Lines(body), dir);
    }
  }

  /** The reason a complete draft is refused for, if it is. */
  ghost predicate Lacks(lines: seq<string>, error: Error) {
    match error
    case Missing(field) =>
      Values(lines, field) == [] || (field == Url && Last(Values(lines, Url)) == Some(""))
    case NarSizeZero => Last(Values(lines, NarSize)).Some? && ParseU64(Last(Values(lines, NarSize)).value) == Some(0)
    case _ => false
  }

  lemma FinishesExactly(draft: Draft, lines: seq<string>, dir: StorePaths.Dir)
    requires HoldsAll(draft, lines, dir)
    ensures Finish(draft).Ok? <==> Complete(lines)
    ensures Finish(draft).Err? ==> Lacks(lines, Finish(draft).error)
  {
    FinishWants(draft);
    hide Finish;
    RequiredHeld(draft, lines, dir);
    hide HoldsAll, Holds, Values, ParseU64;
  }

  /** The draft lacks what a refusal to finish it says it lacks. */
  ghost predicate Wants(draft: Draft, error: Error) {
    match error
    case Missing(StorePath) => draft.storePath.None?
    case Missing(Url) => draft.url == None || draft.url == Some("")
    case Missing(FileHash) => draft.fileHash.None?
    case Missing(FileSize) => draft.fileSize.None?
    case Missing(NarHash) => draft.narHash.None?
    case Missing(NarSize) => draft.narSize.None?
    case NarSizeZero => draft.narSize == Some(0)
    case _ => false
  }

  lemma FinishWants(draft: Draft)
    ensures Finish(draft).Ok? <==>
      && draft.storePath.Some? && draft.fileHash.Some? && draft.fileSize.Some? && draft.narHash.Some?
      && draft.url != None && draft.url != Some("") && draft.narSize != None && draft.narSize != Some(0)
    ensures Finish(draft).Err? ==> Wants(draft, Finish(draft).error)
  {
  }

  lemma RequiredHeld(draft: Draft, lines: seq<string>, dir: StorePaths.Dir)
    requires HoldsAll(draft, lines, dir)
    ensures draft.storePath.Some? <==> Values(lines, StorePath) != []
    ensures draft.fileHash.Some? <==> Values(lines, FileHash) != []
    ensures draft.fileSize.Some? <==> Values(lines, FileSize) != []
    ensures draft.narHash.Some? <==> Values(lines, NarHash) != []
    ensures draft.narSize.Some? <==> Values(lines, NarSize) != []
    ensures draft.narSize.Some? ==> ParseU64(Last(Values(lines, NarSize)).value) == draft.narSize
    ensures draft.url == Last(Values(lines, Url))
  {
    hide Values, ParseU64, StorePaths.ParseIn, Digests.Parse;
    assert Holds(StorePath, draft, Values(lines, StorePath), dir) && Holds(Url, draft, Values(lines, Url), dir);
    assert Holds(FileHash, draft, Values(lines, FileHash), dir) && Holds(FileSize, draft, Values(lines, FileSize), dir);
    assert Holds(NarHash, draft, Values(lines, NarHash), dir) && Holds(NarSize, draft, Values(lines, NarSize), dir);
  }

  // ----- The reason for a refusal -----

  /** Why a field does not take a value. */
  ghost predicate Refuses(field: Field, value: string, dir: StorePaths.Dir, error: Error) {
    match field
    case StorePath => error.BadPath? && error.field == field && StorePaths.ParseIn(dir, value) == Err(error.path)
    case Compression => error.Algorithm? && Compressions.Parse(value).None?
    case FileHash => error.BadDigest? && error.field == field && Digests.Parse(value) == Err(error.digest)
    case FileSize => error == Number(field) && ParseU64(value).None?
    case NarHash => error.BadDigest? && error.field == field && Digests.Parse(value) == Err(error.digest)
    case NarSize => error == Number(field) && ParseU64(value).None?
    case References =>
      error.BadPath? && error.field == field
      && exists word :: word in Words(value) && StorePaths.Parse(word) == Err(error.path)
    case Deriver =>
      error.BadPath? && error.field == field
      && value != "unknown-deriver" && StorePaths.Parse(value) == Err(error.path)
    case Sig => error.BadSignature? && Signatures.Parse(value) == Err(error.signature)
    case _ => false
  }

  /** Why a line does not read. */
  ghost predicate Spoils(line: string, dir: StorePaths.Dir, error: Error) {
    || (error == BadLine(line) && line != "" && !HasKey(line))
    || exists field: Field :: ValueOf(line, field).Some? && Refuses(field, ValueOf(line, field).value, dir, error)
  }

  lemma {:induction false} ReferencesRefused(words: seq<string>)
    ensures ParseReferences(words).Err? ==>
      var error := ParseReferences(words).error;
      error.BadPath? && error.field == References
      && exists word :: word in words && StorePaths.Parse(word) == Err(error.path)
  {
    hide StorePaths.Parse;
    if words != [] {
      FirstIsIn(words);
      ReferencesRefused(words[1..]);
    }
  }

  lemma ValueRefused(field: Field, value: string, draft: Draft, dir: StorePaths.Dir)
    ensures Absorb(draft, field, value, dir).Err? ==> Refuses(field, value, dir, Absorb(draft, field, value, dir).error)
  {
    ReferencesRefused(Words(value));
    hide StorePaths.ParseIn, StorePaths.Parse, Words, Signatures.Parse, Compressions.Parse, Digests.Parse, ParseU64,
         ParseReferences;
  }

  lemma LineRefused(draft: Draft, line: string, dir: StorePaths.Dir)
    requires AbsorbLine(draft, line, dir).Err?
    ensures Spoils(line, dir, AbsorbLine(draft, line, dir).error)
  {
    hide KeyValue, FieldOf, ValueOf, HasKey, Absorb, Refuses;
    KeyExactly(line, Ca);
    if KeyValue(line).Some? {
      var field := FieldOf(KeyValue(line).value.0).value;
      KeyExactly(line, field);
      ValueRefused(field, KeyValue(line).value.1, draft, dir);
    }
  }

  lemma {:induction false} LinesRefused(draft: Draft, seen: seq<string>, lines: seq<string>, dir: StorePaths.Dir)
      returns (i: nat)
    requires HoldsAll(draft, seen, dir) && AbsorbLines(draft, lines, dir).Err?
    ensures i < |lines| && Spoils(lines[i], dir, AbsorbLines(draft, lines, dir).error)
    ensures forall j :: 0 <= j < i ==> Readable(lines[j], dir)
    decreases |lines|
  {
    hide AbsorbLine, HoldsAll, Readable, Spoils;
    LineExactly(draft, seen, lines[0], dir);
    if AbsorbLine(draft, lines[0], dir).Ok? {
      i := LinesRefused(AbsorbLine(draft, lines[0], dir).value, seen + [lines[0]], lines[1..], dir);
      i := i + 1;
    } else {
      LineRefused(draft, lines[0], dir);
      i := 0;
    }
  }

  /** A body is refused for the first line that does not read, or for what the lines together lack. */
  lemma RefusedForCause(body: string, dir: StorePaths.Dir)
    requires Parsed(body, dir).Err?
    ensures var lines, error := Lines(body), Parsed(body, dir).error;
            || (exists i :: 0 <= i < |lines| && Spoils(lines[i], dir, error)
                            && forall j :: 0 <= j < i ==> Readable(lines[j], dir))
            || ((forall line <- lines :: Readable(line, dir)) && Lacks(lines, error))
  {
    hide Lines, Readable, Complete, Finish, AbsorbLines, HoldsAll, Spoils, Lacks;
    NothingHeld(dir);
    LinesExactly(EMPTY_DRAFT, [], Lines(body), dir);
    assert [] + Lines(body) == Lines(body);
    if AbsorbLines(EMPTY_DRAFT, Lines(body), dir).Ok? {
      FinishesExactly(AbsorbLines(EMPTY_DRAFT, Lines(body), dir).value, Lines(body), dir);
    } else {
      var i := LinesRefused(EMPTY_DRAFT, [], Lines(body), dir);
    }
  }
}
