/** A narinfo as the octets a client gets, and what it reads in them. */
module Servings {
  import opened Prelude
  import opened Text
  import Base64
  import Http
  import Compressions
  import Digests
  import NarUrls
  import Signatures
  import StorePaths
  import opened NarInfos
  import opened NarInfoParsing
  import opened NarInfoRoundTrip

  /** The line format carries the record, octet by octet. */
  ghost predicate Servable(record: NarInfo, dir: StorePaths.Dir) {
    && Renderable(record) && '\n' !in dir && OctetText(dir)
    && (forall signature <- record.sigs :: OctetText(signature.name))
    && (record.ca.Some? ==> OctetText(record.ca.value))
  }

  lemma JoinedText(a: string, b: string)
    ensures OctetText(a + b) <==> OctetText(a) && OctetText(b)
  {
    if OctetText(a + b) {
      forall i | 0 <= i < |a|
        ensures a[i] < '\U{100}'
      {
        assert (a + b)[i] == a[i];
      }
      forall i | 0 <= i < |b|
        ensures b[i] < '\U{100}'
      {
        assert (a + b)[|a| + i] == b[i];
      }
    }
  }

  lemma {:induction false} UnlinesText(lines: seq<string>)
    requires forall i :: 0 <= i < |lines| ==> OctetText(lines[i])
    ensures OctetText(Unlines(lines))
  {
    hide OctetText;
    if lines == [] {
      EmptyText();
    } else {
      UnlinesText(lines[1..]);
      JoinedText("\n", Unlines(lines[1..]));
      NewlineText();
      JoinedText(lines[0], "\n" + Unlines(lines[1..]));
      assert Unlines(lines) == lines[0] + ("\n" + Unlines(lines[1..]));
    }
  }

  lemma EmptyText()
    ensures OctetText("")
  {
  }

  lemma NewlineText()
    ensures OctetText("\n")
  {
  }

  lemma {:induction false} JoinText(parts: seq<string>, sep: string)
    requires OctetText(sep) && forall i :: 0 <= i < |parts| ==> OctetText(parts[i])
    ensures OctetText(Join(parts, sep))
  {
    if |parts| > 1 {
      JoinText(parts[1..], sep);
      hide OctetText;
      JoinedText(parts[0], sep);
      JoinedText(parts[0] + sep, Join(parts[1..], sep));
    }
  }

  lemma PathText(path: StorePaths.Path)
    ensures OctetText(StorePaths.Show(path))
  {
    hide StorePaths.Show;
    StorePaths.ShowShape(path);
    var text := StorePaths.Show(path);
    forall i | 0 <= i < |text|
      ensures text[i] < '\U{100}'
    {
      assert text[i] in text;
    }
  }

  lemma DigestText(digest: Digests.Digest)
    ensures OctetText(Digests.Base32Text(digest)) && OctetText(Digests.Show(digest))
  {
    hide Digests.Base32Text;
    Digests.Base32TextShape(digest);
    var text := Digests.Base32Text(digest);
    forall i | 0 <= i < |text|
      ensures text[i] < '\U{100}'
    {
      assert text[i] in text;
    }
    JoinedText("sha256:", text);
  }

  lemma NumberText(n: nat)
    ensures OctetText(Decimal(n))
  {
    hide Decimal;
    var text := Decimal(n);
    forall i | 0 <= i < |text|
      ensures text[i] < '\U{100}'
    {
      assert text[i] in text;
    }
  }

  lemma SignatureText(signature: Signatures.Signature)
    requires OctetText(signature.name)
    ensures OctetText(Signatures.Show(signature))
  {
    hide Base64.Encode;
    Base64.EncodeCharacters(signature.bytes);
    var text := Base64.Encode(signature.bytes);
    forall i | 0 <= i < |text|
      ensures text[i] < '\U{100}'
    {
      assert text[i] in text;
    }
  }

  lemma UrlText(url: NarUrls.NarUrl)
    ensures OctetText(NarUrls.Url(url))
  {
    hide Digests.Base32Text;
    DigestText(url.fileHash);
  }

  lemma ReferencesText(paths: seq<StorePaths.Path>)
    ensures OctetText(Join(ShowAll(paths), " "))
  {
    hide Join, StorePaths.Show;
    forall i | 0 <= i < |paths|
      ensures OctetText(ShowAll(paths)[i])
    {
      PathText(paths[i]);
    }
    JoinText(ShowAll(paths), " ");
  }

  lemma PayloadText(record: NarInfo, dir: StorePaths.Dir)
    requires OctetText(dir)
    ensures forall i :: 0 <= i < |Payload(record, dir)| ==> OctetText(Payload(record, dir)[i].value)
  {
    PayloadEntries(record, dir);
    PathText(record.storePath);
    assert OctetText(StorePaths.Print(dir, record.storePath));
    assert OctetText(Compressions.Show(record.compression));
    hide Payload, StorePaths.Print, NarUrls.Url, Compressions.Show, Digests.Show, Decimal, Join, ShowAll, OctetText;
    UrlText(Nar(record));
    DigestText(record.fileHash);
    DigestText(record.narHash);
    NumberText(record.fileSize);
    NumberText(record.narSize);
    ReferencesText(record.references);
    var p := Payload(record, dir);
    forall i | 0 <= i < |p|
      ensures OctetText(p[i].value)
    {
      assert i == 0 || i == 1 || i == 2 || i == 3 || i == 4 || i == 5 || i == 6 || i == 7;
    }
  }

  lemma EntriesText(record: NarInfo, dir: StorePaths.Dir)
    requires Servable(record, dir)
    ensures forall i :: 0 <= i < |Entries(record, dir)| ==> OctetText(Entries(record, dir)[i].value)
  {
    hide Payload, StorePaths.Show, Signatures.Show, OctetText;
    PayloadText(record, dir);
    if record.deriver.Some? {
      PathText(record.deriver.value);
    }
    forall i | 0 <= i < |record.sigs|
      ensures OctetText(SigEntries(record.sigs)[i].value)
    {
      assert record.sigs[i] in record.sigs;
      SignatureText(record.sigs[i]);
    }
  }

  lemma LineIsText(entry: Entry)
    requires OctetText(entry.value)
    ensures OctetText(Line(entry))
  {
  }

  /** What is sent for a record is its rendering, one octet a character. */
  lemma RenderedIsText(record: NarInfo, dir: StorePaths.Dir)
    requires Servable(record, dir)
    ensures OctetText(Rendered(record, dir))
  {
    hide Entries, Servable, OctetText, Line;
    EntriesText(record, dir);
    var entries := Entries(record, dir);
    forall i | 0 <= i < |entries|
      ensures OctetText(LinesOf(entries)[i])
    {
      LineIsText(entries[i]);
    }
    UnlinesText(LinesOf(entries));
  }

  /** A client that parses the octets of a rendered record gets the record back, as far as the line format can carry it. */
  lemma ServedReadsBack(record: NarInfo, dir: StorePaths.Dir)
    requires Servable(record, dir)
    ensures var read := Parsed(Http.AsText(Http.Octets(Rendered(record, dir))), dir);
            read == Ok(CaStripped(record)) && (read == Ok(record) <==> !CaEndsInCr(record))
  {
    RenderedIsText(record, dir);
    hide Rendered, Http.Octets, Http.AsText, Parsed;
    Http.OctetsReadBack(Rendered(record, dir));
    RenderedReadsBack(record, dir);
    RoundTripsExactlyWhenRenderable(record, dir);
  }
}
