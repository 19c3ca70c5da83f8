/** SHA-256 digests as text: one spelling out, three spellings in. */
module Digests {
  import opened Prelude
  import opened Text
  import Base32
  import Base64
  import Hex

  const WIDTH: nat := 32
  const TEXT_LEN: nat := 52
  const HEX_LEN: nat := 64
  const BASE64_LEN: nat := 44

  type Digest = bytes: seq<byte> | |bytes| == WIDTH witness seq(WIDTH, _ => 0)

  datatype Error =
    | Base32(error: Base32.Error)
    | Hex
    | Base64
    | Width
    | Encoding(found: nat)

  function Base32Text(digest: Digest): string {
    Base32.Encoded(digest)
  }

  function Show(digest: Digest): (text: string)
    ensures "sha256:" <= text
  {
    "sha256:" + Base32Text(digest)
  }

  function Body(text: string): string {
    match StripPrefix(text, "sha256:")
    case Some(body) => body
    case None =>
      match StripPrefix(text, "sha256-")
      case Some(body) => body
      case None => text
  }

  function Parse(text: string): Result<Digest, Error> {
    var body := Body(text);
    if |body| == TEXT_LEN then
      Base32.EncodeOfDecode(WIDTH, body);
      match Base32.Decoded(WIDTH, body)
      case Ok(bytes) => Ok(bytes)
      case Err(error) => Err(Error.Base32(error))
    else if |body| == HEX_LEN then
      match Hex.Decode(body)
      case Some(bytes) => FromSlice(bytes)
      case None => Err(Error.Hex)
    else if |body| == BASE64_LEN then
      match Base64.Decode(body)
      case Some(bytes) => FromSlice(bytes)
      case None => Err(Error.Base64)
    else Err(Encoding(|body|))
  }

  function FromSlice(bytes: seq<byte>): Result<Digest, Error> {
    if |bytes| == WIDTH then Ok(bytes) else Err(Width)
  }

  /** The rendered digest is 52 characters that belong to no separator the text formats use. */
  lemma Base32TextShape(digest: Digest)
    ensures |Base32Text(digest)| == TEXT_LEN
    ensures forall c <- Base32Text(digest) :: '0' <= c <= '9' || 'a' <= c <= 'z'
  {
    Base32.EncodedShape(digest);
  }

  lemma ParseOfBase32Text(digest: Digest)
    ensures Parse(Base32Text(digest)) == Ok(digest)
  {
    var text := Base32Text(digest);
    Base32TextShape(digest);
    Base32.DecodeOfEncode(digest);
    assert text[6] in text;
  }

  lemma ParseOfShow(digest: Digest)
    ensures Parse(Show(digest)) == Ok(digest)
  {
    Base32TextShape(digest);
    Base32.DecodeOfEncode(digest);
    assert Body(Show(digest)) == Base32Text(digest);
  }

  /** Hexadecimal text names the same digest the rendering does. */
  lemma HexReadsBack(digest: Digest)
    ensures Parse(Hex.Encode(digest)) == Ok(digest)
  {
    Hex.DecodeOfEncode(digest);
    var hex := Hex.Encode(digest);
    assert hex[0] in hex && Hex.Nibble('s').None?;
    hide Base32.Decoded, Base64.Decode, Hex.Decode, Hex.Encode, Hex.Nibble;
    assert Body(hex) == hex;
  }

  /** So does the base64 form, under its own prefix. */
  lemma Base64ReadsBack(digest: Digest)
    ensures Parse("sha256-" + Base64.Encode(digest)) == Ok(digest)
  {
    hide Base32.Decoded, Base64.Decode, Base64.Encode, Hex.Decode;
    Base64.DecodeOfEncode(digest);
    Base64.EncodedLength(digest);
    var text := "sha256-" + Base64.Encode(digest);
    assert text[6] == '-' && "sha256:"[6] == ':';
    assert text[..7] == "sha256-" && text[7..] == Base64.Encode(digest);
    assert Body(text) == Base64.Encode(digest);
  }

  /** The three spellings of a digest without their prefix. */
  ghost predicate Names(body: string, digest: Digest) {
    || body == Base32Text(digest)
    || SameIgnoringCase(body, Hex.Encode(digest))
    || (|body| == 44 && Base64.Decode(body) == Some(digest))
  }

  lemma BodyExactly(body: string, digest: Digest)
    ensures Parse(body) == Ok(digest) && Body(body) == body <==> Names(body, digest) && Body(body) == body
  {
    Base32TextShape(digest);
    Base32.EncodeOfDecode(WIDTH, body);
    Base32.DecodeOfEncode(digest);
    Hex.DecodeExactly(body, digest);
    hide Base32.Decoded, Base64.Decode, Hex.Decode, Hex.Encode, Base32.Encoded, Lower;
  }

  lemma Base32Alphanumeric(text: string)
    requires Base32.Decoded(WIDTH, text).Ok?
    ensures forall i :: 0 <= i < |text| ==> '0' <= text[i] <= '9' || 'a' <= text[i] <= 'z'
  {
    hide Base32.Encoded, Base32.Decoded;
    Base32.EncodeOfDecode(WIDTH, text);
    Base32TextShape(Base32.Decoded(WIDTH, text).value);
    forall i | 0 <= i < |text|
      ensures '0' <= text[i] <= '9' || 'a' <= text[i] <= 'z'
    {
      assert text[i] in text;
    }
  }

  lemma HexStarts(text: string)
    requires text != "" && text[0] == 's'
    ensures Hex.Decode(text).None?
  {
  }

  /** Nothing with a prefix reads as a digest's characters. */
  lemma PrefixIsNoBody(text: string)
    requires |text| >= 7 && text[0] == 's' && (text[6] == ':' || text[6] == '-')
    ensures Base32.Decoded(WIDTH, text).Err? && Hex.Decode(text).None? && Base64.Decode(text).None?
  {
    assert !Base64.IsCharacter(text[6]);
    hide *;
    HexStarts(text);
    if Base32.Decoded(WIDTH, text).Ok? {
      Base32Alphanumeric(text);
    }
    if Base64.Decode(text).Some? {
      Base64.DecodedCharacters(text);
    }
  }

  lemma NoNameIsPrefixed(text: string, digest: Digest)
    requires |text| >= 7 && text[0] == 's' && (text[6] == ':' || text[6] == '-')
    ensures !Names(text, digest)
  {
    PrefixIsNoBody(text);
    Base32.DecodeOfEncode(digest);
    Hex.DecodeExactly(text, digest);
  }

  lemma BodyIsParsed(text: string)
    ensures Body(Body(text)) == Body(text) ==> Parse(text) == Parse(Body(text))
  {
  }

  /**
   A text is read as a digest exactly when it is one of the digest's three spellings, alone or after
   `sha256:` or `sha256-`, whichever spelling that is.
   */
  lemma ParseExactly(text: string, digest: Digest)
    ensures Parse(text) == Ok(digest)
        <==> || Names(text, digest)
             || ("sha256:" <= text && Names(text[7..], digest))
             || ("sha256-" <= text && Names(text[7..], digest))
  {
    var body := Body(text);
    hide Names, Parse;
    BodyIsParsed(text);
    if "sha256:" <= text || "sha256-" <= text {
      assert text[..7][0] == text[0] && text[..7][6] == text[6];
      assert body == text[7..];
      NoNameIsPrefixed(text, digest);
      if "sha256:" <= body || "sha256-" <= body {
        assert body[..7][0] == body[0] && body[..7][6] == body[6];
        NoNameIsPrefixed(body, digest);
        TwicePrefixed(text, body);
      }
    }
    BodyExactly(body, digest);
  }

  /** What is left after one prefix is not stripped of another. */
  lemma TwicePrefixed(text: string, body: string)
    requires Body(text) == body && |body| >= 7 && body[0] == 's' && (body[6] == ':' || body[6] == '-')
    ensures Parse(text).Err?
  {
    PrefixIsNoBody(body);
    hide Base32.Decoded, Base64.Decode, Hex.Decode;
  }

  /** No spelling of a digest has a dot in it. */
  lemma NoDot(text: string)
    requires Parse(text).Ok?
    ensures '.' !in text
  {
    var body := Body(text);
    if |body| == TEXT_LEN {
      Base32Alphanumeric(body);
    } else if |body| == HEX_LEN {
      Hex.DecodedNibbles(body);
    } else {
      Base64.DecodedCharacters(body);
    }
    assert '.' !in body;
    assert text == body || text == "sha256:" + body || text == "sha256-" + body;
  }

  lemma ShowInjective(a: Digest, b: Digest)
    requires Show(a) == Show(b)
    ensures a == b
  {
    ParseOfShow(a);
    ParseOfShow(b);
  }
}
