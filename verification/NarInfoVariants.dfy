/** Bodies that say the same thing in a different way: unknown keys, and fields in another order. */
module NarInfoVariants {
  import opened Prelude
  import opened Text
  import Compressions
  import Signatures
  import StorePaths
  import opened NarInfos
  import opened NarInfoParsing

  /** The field a line sets, if it is a field line at all. */
  function FieldSet(line: string): Option<Field> {
    match KeyValue(line)
    case None => None
    case Some(parts) => FieldOf(parts.0)
  }

  ghost predicate UnknownKey(line: string) {
    KeyValue(line).Some? && FieldSet(line).None?
  }

  lemma {:induction false} LinesAppend(draft: Draft, a: seq<string>, b: seq<string>, dir: StorePaths.Dir)
    ensures AbsorbLines(draft, a + b, dir)
         == match AbsorbLines(draft, a, dir)
            case Err(error) => Err(error)
            case Ok(next) => AbsorbLines(next, b, dir)
    decreases |a|
  {
    hide AbsorbLine;
    if a == [] {
      assert a + b == b;
    } else {
      AppendTail(a, b);
      if AbsorbLine(draft, a[0], dir).Ok? {
        LinesAppend(AbsorbLine(draft, a[0], dir).value, a[1..], b, dir);
      }
    }
  }

  /** A line with an unknown key changes nothing, wherever it stands. */
  lemma UnknownKeyIgnored(
      body: string, without: string, before: seq<string>, line: string, after: seq<string>, dir: StorePaths.Dir)
    requires Lines(body) == before + [line] + after && Lines(without) == before + after && UnknownKey(line)
    ensures Parsed(body, dir) == Parsed(without, dir)
  {
    hide AbsorbLines, Finish, Lines, UnknownKey;
    assert before + [line] + after == before + ([line] + after);
    LinesAppend(EMPTY_DRAFT, before, [line] + after, dir);
    LinesAppend(EMPTY_DRAFT, before, after, dir);
    if AbsorbLines(EMPTY_DRAFT, before, dir).Ok? {
      LineSkipped(AbsorbLines(EMPTY_DRAFT, before, dir).value, line, after, dir);
    }
  }

  lemma LineSkipped(draft: Draft, line: string, after: seq<string>, dir: StorePaths.Dir)
    requires UnknownKey(line)
    ensures AbsorbLines(draft, [line] + after, dir) == AbsorbLines(draft, after, dir)
  {
    assert AbsorbLine(draft, line, dir) == Ok(draft);
    hide AbsorbLine;
    assert ([line] + after)[0] == line && ([line] + after)[1..] == after;
  }

  ghost predicate Agree(f: Field, a: Draft, b: Draft) {
    match f
    case StorePath => a.storePath == b.storePath
    case Url => a.url == b.url
    case Compression => a.compression == b.compression
    case FileHash => a.fileHash == b.fileHash
    case FileSize => a.fileSize == b.fileSize
    case NarHash => a.narHash == b.narHash
    case NarSize => a.narSize == b.narSize
    case References => a.references == b.references
    case Deriver => a.deriver == b.deriver
    case Sig => a.sigs == b.sigs
    case Ca => a.ca == b.ca
  }

  lemma AgreeOnAll(a: Draft, b: Draft)
    requires forall f: Field :: Agree(f, a, b)
    ensures a == b
  {
    assert Agree(StorePath, a, b) && Agree(Url, a, b) && Agree(Compression, a, b) && Agree(FileHash, a, b);
    assert Agree(FileSize, a, b) && Agree(NarHash, a, b) && Agree(NarSize, a, b) && Agree(References, a, b);
    assert Agree(Deriver, a, b) && Agree(Sig, a, b) && Agree(Ca, a, b);
  }

  lemma AgreeThrough(f: Field, a: Draft, b: Draft, c: Draft)
    requires Agree(f, a, b) && Agree(f, b, c)
    ensures Agree(f, a, c) && Agree(f, b, a)
  {
  }

  /** A field is read the same whatever the draft holds, sets its own slot from that slot, and no other. */
  lemma AbsorbIsLocal(f: Field, v: string, dir: StorePaths.Dir, a: Draft, b: Draft)
    ensures Absorb(a, f, v, dir).Ok? <==> Absorb(b, f, v, dir).Ok?
    ensures Absorb(a, f, v, dir).Ok? && Agree(f, a, b)
            ==> Agree(f, Absorb(a, f, v, dir).value, Absorb(b, f, v, dir).value)
    ensures Absorb(a, f, v, dir).Ok? ==> forall g: Field :: g != f ==> Agree(g, Absorb(a, f, v, dir).value, a)
  {
    hide StorePaths.ParseIn, StorePaths.Parse, ParseReferences, Words, AbsorbDigest, AbsorbNumber,
         Compressions.Parse, Signatures.Parse;
  }

  /** Both settings in a row, errors aside. */
  function Twice(draft: Draft, f: Field, v: string, g: Field, w: string, dir: StorePaths.Dir): Option<Draft> {
    match Absorb(draft, f, v, dir)
    case Err(_) => None
    case Ok(once) =>
      match Absorb(once, g, w, dir)
      case Err(_) => None
      case Ok(twice) => Some(twice)
  }

  /** Setting two different fields commutes, and so does being able to. */
  lemma AbsorbCommutes(d: Draft, f: Field, v: string, g: Field, w: string, dir: StorePaths.Dir)
    requires f != g
    ensures Twice(d, f, v, g, w, dir) == Twice(d, g, w, f, v, dir)
  {
    hide Absorb, Agree;
    var df, dg := Absorb(d, f, v, dir), Absorb(d, g, w, dir);
    if df.Ok? {
      AbsorbIsLocal(g, w, dir, df.value, d);
    }
    if dg.Ok? {
      AbsorbIsLocal(f, v, dir, dg.value, d);
    }
    if df.Ok? && dg.Ok? {
      AbsorbIsLocal(f, v, dir, d, dg.value);
      AbsorbIsLocal(g, w, dir, d, df.value);
      SwappedAgree(d, f, v, g, w, dir);
    }
  }

  lemma SwappedAgree(d: Draft, f: Field, v: string, g: Field, w: string, dir: StorePaths.Dir)
    requires f != g && Absorb(d, f, v, dir).Ok? && Absorb(d, g, w, dir).Ok?
    requires Absorb(Absorb(d, f, v, dir).value, g, w, dir).Ok?
    requires Absorb(Absorb(d, g, w, dir).value, f, v, dir).Ok?
    ensures Absorb(Absorb(d, f, v, dir).value, g, w, dir) == Absorb(Absorb(d, g, w, dir).value, f, v, dir)
  {
    hide Absorb, Agree;
    var df, dg := Absorb(d, f, v, dir).value, Absorb(d, g, w, dir).value;
    var dfg, dgf := Absorb(df, g, w, dir).value, Absorb(dg, f, v, dir).value;
    AbsorbIsLocal(f, v, dir, d, dg);
    AbsorbIsLocal(g, w, dir, d, df);
    AbsorbIsLocal(f, v, dir, dg, d);
    AbsorbIsLocal(g, w, dir, df, d);
    forall h: Field
      ensures Agree(h, dfg, dgf)
    {
      Reflexive(h, d);
      if h == f {
        AgreeThrough(f, dg, d, d);
        AgreeThrough(f, dfg, df, dgf);
      } else if h == g {
        AgreeThrough(g, df, d, d);
        AgreeThrough(g, dgf, dg, dfg);
        AgreeThrough(g, dgf, dfg, dfg);
      } else {
        AgreeThrough(h, dfg, df, d);
        AgreeThrough(h, dgf, dg, d);
        AgreeThrough(h, dgf, d, d);
        AgreeThrough(h, dfg, d, dgf);
      }
    }
    AgreeOnAll(dfg, dgf);
  }

  lemma Reflexive(f: Field, d: Draft)
    ensures Agree(f, d, d)
  {
  }

  /**
   Two lines that set different fields may stand in either order: a body is accepted in one order
   exactly when it is in the other, as the same record.
   */
  lemma FieldOrderIsFree(
      body: string, swapped: string, before: seq<string>, p: string, q: string, after: seq<string>,
      dir: StorePaths.Dir)
    requires Lines(body) == before + [p, q] + after && Lines(swapped) == before + [q, p] + after
    requires FieldSet(p).Some? && FieldSet(q).Some? && FieldSet(p) != FieldSet(q)
    ensures Parsed(body, dir).Ok? <==> Parsed(swapped, dir).Ok?
    ensures Parsed(body, dir).Ok? ==> Parsed(body, dir) == Parsed(swapped, dir)
  {
    hide Finish, Lines, FieldSet, AbsorbLines;
    assert before + [p, q] + after == before + ([p, q] + after);
    assert before + [q, p] + after == before + ([q, p] + after);
    LinesAppend(EMPTY_DRAFT, before, [p, q] + after, dir);
    LinesAppend(EMPTY_DRAFT, before, [q, p] + after, dir);
    if AbsorbLines(EMPTY_DRAFT, before, dir).Ok? {
      TwoLines(AbsorbLines(EMPTY_DRAFT, before, dir).value, p, q, after, dir);
    }
  }

  lemma TwoLines(draft: Draft, p: string, q: string, after: seq<string>, dir: StorePaths.Dir)
    requires FieldSet(p).Some? && FieldSet(q).Some? && FieldSet(p) != FieldSet(q)
    ensures var there, back := AbsorbLines(draft, [p, q] + after, dir), AbsorbLines(draft, [q, p] + after, dir);
            (there.Ok? <==> back.Ok?) && (there.Ok? ==> there == back)
  {
    var f, v, g, w := FieldSet(p).value, KeyValue(p).value.1, FieldSet(q).value, KeyValue(q).value.1;
    AbsorbCommutes(draft, f, v, g, w, dir);
    FirstTwo(draft, p, q, after, dir);
    FirstTwo(draft, q, p, after, dir);
  }

  lemma FirstTwo(draft: Draft, p: string, q: string, after: seq<string>, dir: StorePaths.Dir)
    requires FieldSet(p).Some? && FieldSet(q).Some?
    ensures var read := AbsorbLines(draft, [p, q] + after, dir);
            match Twice(draft, FieldSet(p).value, KeyValue(p).value.1, FieldSet(q).value, KeyValue(q).value.1, dir)
            case None => read.Err?
            case Some(twice) => read == AbsorbLines(twice, after, dir)
  {
    hide Absorb;
    assert ([p, q] + after)[1..] == [q] + after && ([q] + after)[1..] == after;
  }
}
