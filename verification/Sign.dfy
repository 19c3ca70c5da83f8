/** Signatures as text, `<key name>:<base64>`. */
module Signatures {
  import opened Prelude
  import opened Text
  import Base64

  const WIDTH: nat := 64

  type SigBytes = bytes: seq<byte> | |bytes| == WIDTH witness seq(WIDTH, _ => 0)

  datatype Signature = Signature(name: string, bytes: SigBytes)

  datatype Error = Separator | NameEmpty | Base64 | Width

  function Split(text: string): Result<(string, seq<byte>), Error> {
    match SplitOnce(text, ":")
    case None => Err(Separator)
    case Some(parts) =>
      if parts.0 == "" then Err(NameEmpty)
      else match Base64.Decode(parts.1)
        case None => Err(Error.Base64)
        case Some(bytes) => Ok((parts.0, bytes))
  }

  function Show(signature: Signature): string {
    signature.name + ":" + Base64.Encode(signature.bytes)
  }

  function Parse(text: string): Result<Signature, Error> {
    match Split(text)
    case Err(error) => Err(error)
    case Ok(parts) =>
      if |parts.1| == WIDTH then Ok(Signature(parts.0, parts.1)) else Err(Width)
  }

  ghost predicate ValidName(name: string) {
    name != "" && ':' !in name
  }

  lemma ParseOfShow(signature: Signature)
    ensures ValidName(signature.name) ==> Parse(Show(signature)) == Ok(signature)
  {
    if ValidName(signature.name) {
      SplitOnceAt(signature.name, ":", Base64.Encode(signature.bytes));
      Base64.DecodeOfEncode(signature.bytes);
    }
  }

  /** What is accepted: a name that is not empty up to the first colon, and 64 octets in base64 after it. */
  lemma ParseExactly(text: string, signature: Signature)
    ensures Parse(text) == Ok(signature)
        <==> ValidName(signature.name)
             && signature.name + ":" <= text
             && Base64.Decode(text[|signature.name| + 1..]) == Some(signature.bytes)
  {
    hide Base64.Decode, SplitOnce;
    if signature.name + ":" <= text && ':' !in signature.name {
      var rest := text[|signature.name| + 1..];
      assert text == signature.name + ":" + rest;
      SplitOnceAt(signature.name, ":", rest);
    }
  }

  /** The last character is base64, so a line that ends in a signature never ends in `\r`. */
  lemma ShowShape(signature: Signature)
    ensures LineText(Show(signature)) <==> '\n' !in signature.name
  {
    var text := Base64.Encode(signature.bytes);
    Base64.EncodeCharacters(signature.bytes);
    assert text != "";
    assert Base64.IsCharacter(text[|text| - 1]);
    assert Show(signature)[|Show(signature)| - 1] == text[|text| - 1];
    assert Show(signature)[..|signature.name|] == signature.name;
    forall c | c in text
      ensures c != '\n'
    {
      assert Base64.IsCharacter(c);
    }
  }
}
