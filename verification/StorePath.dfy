/** Store paths: a twenty-byte hash, the name after it, and the directory both hang under. */
module StorePaths {
  import opened Prelude
  import opened Text
  import Base32

  const HASH_WIDTH: nat := 20
  const HASH_TEXT_LEN: nat := 32
  const NAME_LEN_MAX: nat := 211

  type Hash = bytes: seq<byte> | |bytes| == HASH_WIDTH witness seq(HASH_WIDTH, _ => 0)

  type Name = text: string | ValidName(text) witness "a"

  datatype Path = Path(hash: Hash, name: Name)

  /** An absolute directory with no trailing slash. */
  type Dir = text: string | ValidDir(text) witness "/n"

  datatype Error =
    | HashText(error: Base32.Error)
    | Separator
    | NameEmpty
    | NameLength(found: nat)
    | NameLeadingDot
    | NameCharacter(character: char)
    | DirRelative
    | DirTrailingSlash
    | DirPrefix

  predicate NameChar(c: char) {
    '0' <= c <= '9' || 'a' <= c <= 'z' || 'A' <= c <= 'Z' || c in "+-._?="
  }

  predicate ValidName(text: string) {
    text != "" && |text| <= NAME_LEN_MAX && text[0] != '.' && forall c <- text :: NameChar(c)
  }

  predicate ValidDir(text: string) {
    text != "" && text[0] == '/' && text[|text| - 1] != '/'
  }

  function FirstIllegal(text: string): (c: Option<char>)
    ensures c.None? <==> forall c <- text :: NameChar(c)
    ensures c.Some? ==> c.value in text && !NameChar(c.value)
  {
    if text == "" then None
    else if !NameChar(text[0]) then Some(text[0])
    else
      assert text == [text[0]] + text[1..];
      FirstIllegal(text[1..])
  }

  function NewName(text: string): (r: Result<Name, Error>)
    ensures r.Ok? <==> ValidName(text)
    ensures r.Ok? ==> r.value == text
    ensures r.Err? ==>
      || (r.error == NameEmpty && text == "")
      || (r.error == NameLength(|text|) && |text| > NAME_LEN_MAX)
      || (r.error == NameLeadingDot && "." <= text)
      || (r.error.NameCharacter? && r.error.character in text && !NameChar(r.error.character))
  {
    if text == "" then Err(NameEmpty)
    else if |text| > NAME_LEN_MAX then Err(NameLength(|text|))
    else if text[0] == '.' then Err(NameLeadingDot)
    else match FirstIllegal(text)
      case Some(c) => Err(NameCharacter(c))
      case None => Ok(text)
  }

  function ParseHash(text: string): (r: Result<Hash, Error>)
  {
    Base32.EncodeOfDecode(HASH_WIDTH, text);
    match Base32.Decoded(HASH_WIDTH, text)
    case Ok(bytes) => Ok(bytes)
    case Err(error) => Err(HashText(error))
  }

  function ShowHash(hash: Hash): string {
    Base32.Encoded(hash)
  }

  function Show(path: Path): string {
    ShowHash(path.hash) + "-" + path.name
  }

  function Parse(text: string): Result<Path, Error> {
    if !(|text| > HASH_TEXT_LEN && text[HASH_TEXT_LEN] == '-') then Err(Separator)
    else match ParseHash(text[..HASH_TEXT_LEN])
      case Err(error) => Err(error)
      case Ok(hash) =>
        match NewName(text[HASH_TEXT_LEN + 1..])
        case Err(error) => Err(error)
        case Ok(name) => Ok(Path(hash, name))
  }

  function NewDir(text: string): (r: Result<Dir, Error>)
    ensures r.Ok? <==> ValidDir(text)
    ensures r.Ok? ==> r.value == text
    ensures r.Err? ==> r.error == if "/" <= text then DirTrailingSlash else DirRelative
  {
    if !(text != "" && text[0] == '/') then Err(DirRelative)
    else if text[|text| - 1] == '/' then Err(DirTrailingSlash)
    else Ok(text)
  }

  function Print(dir: Dir, path: Path): string {
    dir + "/" + Show(path)
  }

  function ParseIn(dir: Dir, text: string): Result<Path, Error> {
    match StripPrefix(text, dir)
    case None => Err(DirPrefix)
    case Some(rest) =>
      match StripPrefix(rest, "/")
      case None => Err(DirPrefix)
      case Some(base) => Parse(base)
  }

  lemma HashShape(hash: Hash)
    ensures |ShowHash(hash)| == HASH_TEXT_LEN
    ensures forall c <- ShowHash(hash) :: '0' <= c <= '9' || 'a' <= c <= 'z'
    ensures ParseHash(ShowHash(hash)) == Ok(hash)
  {
    Base32.EncodedShape(hash);
    Base32.DecodeOfEncode(hash);
  }

  lemma HashSpelling(text: string)
    ensures ParseHash(text).Ok? ==> ShowHash(ParseHash(text).value) == text
  {
    Base32.EncodeOfDecode(HASH_WIDTH, text);
  }

  lemma ShowShape(path: Path)
    ensures |Show(path)| > HASH_TEXT_LEN
    ensures forall c <- Show(path) :: NameChar(c)
  {
    HashShape(path.hash);
  }

  lemma ParseOfShow(path: Path)
    ensures Parse(Show(path)) == Ok(path)
  {
    HashShape(path.hash);
    var text := Show(path);
    assert text[..HASH_TEXT_LEN] == ShowHash(path.hash);
    assert text[HASH_TEXT_LEN + 1..] == path.name;
  }

  /** A store path has one spelling. */
  lemma ShowOfParse(text: string)
    requires Parse(text).Ok?
    ensures Show(Parse(text).value) == text
  {
    Base32.EncodeOfDecode(HASH_WIDTH, text[..HASH_TEXT_LEN]);
    assert text == text[..HASH_TEXT_LEN] + "-" + text[HASH_TEXT_LEN + 1..];
  }

  /** A base name is accepted as a path exactly when it is the path's rendering. */
  lemma ParseExactly(text: string, path: Path)
    ensures Parse(text) == Ok(path) <==> text == Show(path)
  {
    ParseOfShow(path);
    hide Parse, Show;
    if Parse(text) == Ok(path) {
      ShowOfParse(text);
    }
  }

  lemma ParseInExactly(dir: Dir, text: string, path: Path)
    ensures ParseIn(dir, text) == Ok(path) <==> text == Print(dir, path)
  {
    hide Parse, Show;
    ParseInOfPrint(dir, path);
    if ParseIn(dir, text) == Ok(path) {
      var base := text[|dir|..][1..];
      ParseExactly(base, path);
      assert text == dir + ("/" + base);
    }
  }

  lemma ParseInOfPrint(dir: Dir, path: Path)
    ensures ParseIn(dir, Print(dir, path)) == Ok(path)
  {
    ParseOfShow(path);
    assert Print(dir, path)[|dir|..] == "/" + Show(path);
    assert ("/" + Show(path))[1..] == Show(path);
  }

  lemma ShowInjective(a: Path, b: Path)
    requires Show(a) == Show(b)
    ensures a == b
  {
    ParseOfShow(a);
    ParseOfShow(b);
  }
}
