/** The compression field and its two spellings: a protocol name and a file extension. */
module Compressions {
  import opened Prelude

  datatype Compression = None_ | Zstd | Xz | Bzip2 | Br

  function Show(compression: Compression): string {
    match compression
    case None_ => "none"
    case Zstd => "zstd"
    case Xz => "xz"
    case Bzip2 => "bzip2"
    case Br => "br"
  }

  const VARIANTS: seq<Compression> := [None_, Zstd, Xz, Bzip2, Br]

  function Parse(text: string): Option<Compression> {
    if text == "none" then Some(None_)
    else if text == "zstd" then Some(Zstd)
    else if text == "xz" then Some(Xz)
    else if text == "bzip2" then Some(Bzip2)
    else if text == "br" then Some(Br)
    else None
  }

  function Extension(compression: Compression): string {
    match compression
    case None_ => ""
    case Zstd => ".zst"
    case Xz => ".xz"
    case Bzip2 => ".bz2"
    case Br => ".br"
  }

  function Find(extension: string, candidates: seq<Compression>): Option<Compression> {
    if candidates == [] then None
    else if Extension(candidates[0]) == extension then Some(candidates[0])
    else Find(extension, candidates[1..])
  }

  function FromExtension(extension: string): Option<Compression> {
    Find(extension, VARIANTS)
  }

  lemma {:induction false} FindSound(extension: string, candidates: seq<Compression>)
    ensures Find(extension, candidates).Some? ==> Extension(Find(extension, candidates).value) == extension
    ensures Find(extension, candidates).None? ==> forall c <- candidates :: Extension(c) != extension
  {
    if candidates != [] {
      FindSound(extension, candidates[1..]);
    }
  }

  /** The names nix gives the algorithms, and the endings of the files. */
  lemma Spellings(compression: Compression)
    ensures (Show(compression), Extension(compression))
         in {("none", ""), ("zstd", ".zst"), ("xz", ".xz"), ("bzip2", ".bz2"), ("br", ".br")}
    ensures compression.None_? <==> Extension(compression) == ""
  {
    match compression
    case None_ =>
    case Zstd =>
    case Xz =>
    case Bzip2 =>
    case Br =>
  }

  lemma ExtensionInjective(a: Compression, b: Compression)
    requires Extension(a) == Extension(b)
    ensures a == b
  {
    assert |Extension(a)| == |Extension(b)|;
    if |Extension(a)| == 3 {
      assert Extension(a)[1] == Extension(b)[1];
    } else if |Extension(a)| == 4 {
      assert Extension(a)[1] == Extension(b)[1];
    }
  }

  lemma FromExtensionSound(extension: string)
    requires FromExtension(extension).Some?
    ensures Extension(FromExtension(extension).value) == extension
  {
    FindSound(extension, VARIANTS);
  }

  lemma FromExtensionOfExtension(compression: Compression)
    ensures FromExtension(Extension(compression)) == Some(compression)
  {
    FindSound(Extension(compression), VARIANTS);
    assert VARIANTS[0] == None_ && VARIANTS[1] == Zstd && VARIANTS[2] == Xz && VARIANTS[3] == Bzip2 && VARIANTS[4] == Br;
    assert compression in VARIANTS;
    if FromExtension(Extension(compression)).Some? {
      ExtensionInjective(FromExtension(Extension(compression)).value, compression);
    }
  }
}

/** `<file hash>.nar<ext>`: the name of an artifact on disk, in a URL and in a request target. */
module NarUrls {
  import opened Prelude
  import opened Text
  import Compressions
  import Digests

  datatype NarUrl = NarUrl(fileHash: Digests.Digest, compression: Compressions.Compression)

  datatype Error = Suffix | Extension | Digest(error: Digests.Error)

  const PREFIX: string := "nar/"

  function Name(url: NarUrl): string {
    Digests.Base32Text(url.fileHash) + ".nar" + Compressions.Extension(url.compression)
  }

  function Url(url: NarUrl): string {
    PREFIX + Name(url)
  }

  function Parse(name: string): Result<NarUrl, Error> {
    match SplitOnce(name, ".nar")
    case None => Err(Suffix)
    case Some(parts) =>
      match Compressions.FromExtension(parts.1)
      case None => Err(Extension)
      case Some(compression) =>
        match Digests.Parse(parts.0)
        case Err(error) => Err(Digest(error))
        case Ok(fileHash) => Ok(NarUrl(fileHash, compression))
  }

  lemma ParseOfName(url: NarUrl)
    ensures Parse(Name(url)) == Ok(url)
  {
    Digests.Base32TextShape(url.fileHash);
    SplitOnceAt(Digests.Base32Text(url.fileHash), ".nar", Compressions.Extension(url.compression));
    Compressions.FromExtensionOfExtension(url.compression);
    Digests.ParseOfBase32Text(url.fileHash);
  }

  ghost predicate Spells(name: string, digits: string, url: NarUrl) {
    && Digests.Parse(digits) == Ok(url.fileHash)
    && name == digits + ".nar" + Compressions.Extension(url.compression)
  }

  /** A name is read as an artifact exactly when it is a spelling of its digest, `.nar`, and its ending. */
  lemma ParseExactly(name: string, url: NarUrl)
    ensures Parse(name) == Ok(url) <==> exists digits: string :: Spells(name, digits, url)
  {
    hide Digests.Parse, Compressions.FromExtension, SplitOnce, Compressions.Extension;
    if digits: string :| Spells(name, digits, url) {
      Digests.NoDot(digits);
      SplitOnceAt(digits, ".nar", Compressions.Extension(url.compression));
      Compressions.FromExtensionOfExtension(url.compression);
    }
    if Parse(name) == Ok(url) {
      var parts := SplitOnce(name, ".nar").value;
      Compressions.FromExtensionSound(parts.1);
      assert Spells(name, parts.0, url);
    }
  }

  lemma NameInjective(a: NarUrl, b: NarUrl)
    requires Name(a) == Name(b)
    ensures a == b
  {
    ParseOfName(a);
    ParseOfName(b);
  }
}
