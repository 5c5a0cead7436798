/** The symmetric layer: Fernet encryption of a message under the AES key that
    encapsulation produced, with the token wrapped once more in URL-safe base64
    (section 5 of RFC 4648). */
module Aes {
  import opened Wrappers
  import opened Primitives
  import Base64
  import Utf8

  /** `Fernet(key)`: the key text must decode, URL-safe, to exactly 32 bytes. */
  function FernetKey(key: string): (r: Result<seq<byte>, CryptoError>)
    ensures r.Success? <==> Base64.UrlDecode(key).Some? && |Base64.UrlDecode(key).value| == 32
    ensures r.Success? ==> Base64.UrlDecode(key) == Some(r.value)
  {
    match Base64.UrlDecode(key)
    case None => Failure(BadFernetKey)
    case Some(k) => if |k| != 32 then Failure(BadFernetKey) else Success(k)
  }

  /** `encrypt_message(message, aes_key_b64)` with `iv` as Fernet's randomness. */
  function EncryptMessage(p: Provider, message: string, key: string, iv: seq<byte>): (r: Result<string, CryptoError>)
    ensures r.Success? <==> FernetKey(key).Success?
    ensures r.Success? ==> Base64.UrlText(r.value) && Base64.UrlCanonical(r.value)
    ensures r.Success? ==> Base64.UrlDecode(r.value) == Some(p.fernetEncrypt(FernetKey(key).value, Utf8.Encode(message), iv))
  {
    match FernetKey(key)
    case Failure(e) => Failure(e)
    case Success(k) =>
      var token := p.fernetEncrypt(k, Utf8.Encode(message), iv);
      Base64.UrlDecodeUrlEncode(token);
      Base64.UrlEncodeCanonical(token);
      Success(Base64.UrlEncode(token))
  }

  /** `decrypt_message(ciphertext_b64, aes_key_b64)`: the key is checked first,
      then the outer encoding is removed, the token decrypted and the plaintext
      decoded as UTF-8. */
  function DecryptMessage(p: Provider, ciphertext: string, key: string): (r: Result<string, CryptoError>)
    ensures FernetKey(key).Failure? ==> r == Failure(BadFernetKey)
    ensures FernetKey(key).Success? && Base64.UrlDecode(ciphertext).None? ==> r == Failure(BadBase64)
    ensures r.Success? ==> Base64.UrlDecode(ciphertext).Some?
    ensures r.Success? ==> p.fernetDecrypt(FernetKey(key).value, Base64.UrlDecode(ciphertext).value) == Some(Utf8.Encode(r.value))
    ensures FernetKey(key).Success? && Base64.UrlDecode(ciphertext).Some? ==>
      match p.fernetDecrypt(FernetKey(key).value, Base64.UrlDecode(ciphertext).value)
      case None => r == Failure(InvalidToken)
      case Some(plain) => r == (if Utf8.Decode(plain).Some? then Success(Utf8.Decode(plain).value) else Failure(BadUtf8))
  {
    match FernetKey(key)
    case Failure(e) => Failure(e)
    case Success(k) =>
      match Base64.UrlDecode(ciphertext)
      case None => Failure(BadBase64)
      case Some(token) =>
        match p.fernetDecrypt(k, token)
        case None => Failure(InvalidToken)
        case Some(plain) =>
          match Utf8.Decode(plain)
          case None => Failure(BadUtf8)
          case Some(s) =>
            Utf8.EncodeDecode(plain);
            Success(s)
  }

  /** Under a valid key, decryption recovers the encrypted message. */
  lemma DecryptEncrypt(p: Provider, message: string, key: string, iv: seq<byte>)
    requires FernetCorrect(p)
    requires FernetKey(key).Success?
    ensures EncryptMessage(p, message, key, iv).Success?
    ensures DecryptMessage(p, EncryptMessage(p, message, key, iv).value, key) == Success(message)
  {
    var k := FernetKey(key).value;
    var token := p.fernetEncrypt(k, Utf8.Encode(message), iv);
    Base64.UrlDecodeUrlEncode(token);
    assert p.fernetDecrypt(k, token) == Some(Utf8.Encode(message));
    Utf8.DecodeEncode(message);
  }

  /** The base64 text of any 32 bytes, which is what encapsulation hands over,
      is a valid Fernet key. */
  lemma SharedSecretIsFernetKey(secret: seq<byte>)
    requires |secret| == 32
    ensures FernetKey(Base64.Encode(secret)) == Success(secret)
  {
    Base64.UrlDecodeStdEncode(secret);
  }
}
