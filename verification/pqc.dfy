/** The key-encapsulation and signature wrappers: key generation, encapsulation
    of a fresh 32-byte AES key, decapsulation, signing and verification. Every
    key, ciphertext and signature crosses the interface as standard base64
    text (section 4 of RFC 4648); signed data is a string, signed as its UTF-8
    encoding. */
module Pqc {
  import opened Wrappers
  import opened Primitives
  import opened Records
  import Base64
  import Utf8

  /** The `os.urandom(32)` shared secret. */
  type SharedSecret = s: seq<byte> | |s| == 32 witness seq(32, i => 0)

  /** `generate_keys()`, given the randomness of the two key generations: each
      PEM serialisation is stored as its base64 text. */
  function GenerateKeys(p: Provider, kemCoins: seq<byte>, sigCoins: seq<byte>): (k: KeyBundle)
    ensures Base64.Decode(k.kemPublic) == Some(p.kemKeyGen(kemCoins).public)
    ensures Base64.Decode(k.kemSecret) == Some(p.kemKeyGen(kemCoins).secret)
    ensures Base64.Decode(k.sigPublic) == Some(p.sigKeyGen(sigCoins).public)
    ensures Base64.Decode(k.sigSecret) == Some(p.sigKeyGen(sigCoins).secret)
    ensures Base64.Canonical(k.kemPublic) && Base64.Canonical(k.kemSecret)
    ensures Base64.Canonical(k.sigPublic) && Base64.Canonical(k.sigSecret)
  {
    var kem := p.kemKeyGen(kemCoins);
    var sig := p.sigKeyGen(sigCoins);
    Base64.DecodeEncode(kem.public);
    Base64.DecodeEncode(kem.secret);
    Base64.DecodeEncode(sig.public);
    Base64.DecodeEncode(sig.secret);
    Base64.EncodeCanonical(kem.public);
    Base64.EncodeCanonical(kem.secret);
    Base64.EncodeCanonical(sig.public);
    Base64.EncodeCanonical(sig.secret);
    KeyBundle(Base64.Encode(kem.public), Base64.Encode(kem.secret), Base64.Encode(sig.public), Base64.Encode(sig.secret))
  }

  /** `encapsulate_key(kem_public_b64)` with `secret` as the fresh AES key and
      `pad` as the OAEP randomness: the pair (encapsulated key, AES key), both
      as base64 text. */
  function EncapsulateKey(p: Provider, kemPublic: string, secret: SharedSecret, pad: seq<byte>): (r: Result<(string, string), CryptoError>)
    ensures Base64.Decode(kemPublic).None? ==> r == Failure(BadBase64)
    ensures Base64.Decode(kemPublic).Some? && p.kemEncrypt(Base64.Decode(kemPublic).value, secret, pad).None?
      ==> r == Failure(KemFailed)
    ensures r.Success? <==> Base64.Decode(kemPublic).Some? && p.kemEncrypt(Base64.Decode(kemPublic).value, secret, pad).Some?
    ensures r.Success? ==> Base64.Decode(r.value.0) == p.kemEncrypt(Base64.Decode(kemPublic).value, secret, pad)
    ensures r.Success? ==> Base64.Decode(r.value.1) == Some(secret)
    ensures r.Success? ==> Base64.StdText(r.value.0) && Base64.StdText(r.value.1)
    ensures r.Success? ==> Base64.Canonical(r.value.0) && Base64.Canonical(r.value.1)
  {
    match Base64.Decode(kemPublic)
    case None => Failure(BadBase64)
    case Some(pem) =>
      match p.kemEncrypt(pem, secret, pad)
      case None => Failure(KemFailed)
      case Some(ct) =>
        Base64.DecodeEncode(ct);
        Base64.DecodeEncode(secret);
        Base64.EncodeCanonical(ct);
        Base64.EncodeCanonical(secret);
        Success((Base64.Encode(ct), Base64.Encode(secret)))
  }

  /** `decapsulate_key(kem_secret_b64, ciphertext_b64)`: the recovered AES key as
      base64 text. The private key is decoded and loaded before the ciphertext
      is decoded. */
  function DecapsulateKey(p: Provider, kemSecret: string, kemCt: string): (r: Result<string, CryptoError>)
    ensures Base64.Decode(kemSecret).None? ==> r == Failure(BadBase64)
    ensures Base64.Decode(kemSecret).Some? && !p.kemSecretLoads(Base64.Decode(kemSecret).value) ==> r == Failure(KeyLoadFailed)
    ensures Base64.Decode(kemSecret).Some? && p.kemSecretLoads(Base64.Decode(kemSecret).value) && Base64.Decode(kemCt).None?
      ==> r == Failure(BadBase64)
    ensures r.Success? <==>
      && Base64.Decode(kemSecret).Some? && p.kemSecretLoads(Base64.Decode(kemSecret).value) && Base64.Decode(kemCt).Some?
      && p.kemDecrypt(Base64.Decode(kemSecret).value, Base64.Decode(kemCt).value).Some?
    ensures r.Success? ==>
      && Base64.StdText(r.value) && Base64.Canonical(r.value)
      && Base64.Decode(r.value) == p.kemDecrypt(Base64.Decode(kemSecret).value, Base64.Decode(kemCt).value)
  {
    match Base64.Decode(kemSecret)
    case None => Failure(BadBase64)
    case Some(pem) =>
      if !p.kemSecretLoads(pem) then Failure(KeyLoadFailed)
      else
        match Base64.Decode(kemCt)
        case None => Failure(BadBase64)
        case Some(ct) =>
          match p.kemDecrypt(pem, ct)
          case None => Failure(KemFailed)
          case Some(secret) =>
            Base64.DecodeEncode(secret);
            Base64.EncodeCanonical(secret);
            Success(Base64.Encode(secret))
  }

  /** `sign_data(data, sig_secret_b64)` with `nonce` as the ECDSA randomness: the
      signature over `data.encode()`, as base64 text. */
  function SignData(p: Provider, data: string, sigSecret: string, nonce: seq<byte>): (r: Result<string, CryptoError>)
    ensures Base64.Decode(sigSecret).None? ==> r == Failure(BadBase64)
    ensures Base64.Decode(sigSecret).Some? && p.sign(Base64.Decode(sigSecret).value, Utf8.Encode(data), nonce).None?
      ==> r == Failure(SignFailed)
    ensures r.Success? <==> Base64.Decode(sigSecret).Some? && p.sign(Base64.Decode(sigSecret).value, Utf8.Encode(data), nonce).Some?
    ensures r.Success? ==> Base64.StdText(r.value) && Base64.Canonical(r.value)
    ensures r.Success? ==> Base64.Decode(r.value) == p.sign(Base64.Decode(sigSecret).value, Utf8.Encode(data), nonce)
  {
    match Base64.Decode(sigSecret)
    case None => Failure(BadBase64)
    case Some(pem) =>
      match p.sign(pem, Utf8.Encode(data), nonce)
      case None => Failure(SignFailed)
      case Some(sig) =>
        Base64.DecodeEncode(sig);
        Base64.EncodeCanonical(sig);
        Success(Base64.Encode(sig))
  }

  /** `verify_signature(data, signature_b64, sig_public_b64)`. A malformed key
      or signature encoding raises; a signature that does not verify yields
      `False`. */
  function VerifySignature(p: Provider, data: string, signature: string, sigPublic: string): (r: Result<bool, CryptoError>)
    ensures r.Failure? <==>
      || Base64.Decode(sigPublic).None?
      || !p.sigPublicLoads(Base64.Decode(sigPublic).value)
      || Base64.Decode(signature).None?
    ensures r.Success? ==> r.value == p.verify(Base64.Decode(sigPublic).value, Utf8.Encode(data), Base64.Decode(signature).value)
  {
    match Base64.Decode(sigPublic)
    case None => Failure(BadBase64)
    case Some(pem) =>
      if !p.sigPublicLoads(pem) then Failure(KeyLoadFailed)
      else
        match Base64.Decode(signature)
        case None => Failure(BadBase64)
        case Some(sig) => Success(p.verify(pem, Utf8.Encode(data), sig))
  }

  /** With generated keys, encapsulation succeeds and decapsulation recovers the
      AES key it returned. */
  lemma DecapsulateEncapsulate(p: Provider, kemCoins: seq<byte>, sigCoins: seq<byte>, secret: SharedSecret, pad: seq<byte>)
    requires Sound(p)
    ensures var keys := GenerateKeys(p, kemCoins, sigCoins);
      var e := EncapsulateKey(p, keys.kemPublic, secret, pad);
      && e.Success?
      && DecapsulateKey(p, keys.kemSecret, e.value.0) == Success(e.value.1)
  {
    var kem := p.kemKeyGen(kemCoins);
    var keys := GenerateKeys(p, kemCoins, sigCoins);
    assert p.kemEncrypt(kem.public, secret, pad).Some?;
    var ct := p.kemEncrypt(kem.public, secret, pad).value;
    assert p.kemSecretLoads(kem.secret) && p.kemDecrypt(kem.secret, ct) == Some(secret);
    Base64.DecodeEncode(ct);
  }

  /** With generated keys, signing succeeds and the signature verifies. */
  lemma VerifySign(p: Provider, kemCoins: seq<byte>, sigCoins: seq<byte>, data: string, nonce: seq<byte>)
    requires Sound(p)
    ensures var keys := GenerateKeys(p, kemCoins, sigCoins);
      var s := SignData(p, data, keys.sigSecret, nonce);
      && s.Success?
      && VerifySignature(p, data, s.value, keys.sigPublic) == Success(true)
  {
    var sig := p.sigKeyGen(sigCoins);
    var bytes := Utf8.Encode(data);
    assert p.sign(sig.secret, bytes, nonce).Some?;
    assert p.sigPublicLoads(sig.public);
    assert p.verify(sig.public, bytes, p.sign(sig.secret, bytes, nonce).value);
  }

  /** With generated keys, a signature made over `data` never raises when
      checked against other data, and verifies only over `data` itself. */
  lemma SignatureBinding(p: Provider, kemCoins: seq<byte>, sigCoins: seq<byte>, data: string, other: string, nonce: seq<byte>)
    requires Sound(p)
    ensures var keys := GenerateKeys(p, kemCoins, sigCoins);
      var s := SignData(p, data, keys.sigSecret, nonce);
      && s.Success?
      && VerifySignature(p, other, s.value, keys.sigPublic) == Success(other == data)
  {
    var keys := GenerateKeys(p, kemCoins, sigCoins);
    var sig := p.sigKeyGen(sigCoins);
    var bytes := Utf8.Encode(data);
    assert p.sign(sig.secret, bytes, nonce).Some?;
    assert p.sigPublicLoads(sig.public);
    var v := VerifySignature(p, other, SignData(p, data, keys.sigSecret, nonce).value, keys.sigPublic);
    if other == data {
      VerifySign(p, kemCoins, sigCoins, data, nonce);
    } else if v == Success(true) {
      assert p.verify(sig.public, Utf8.Encode(other), p.sign(sig.secret, bytes, nonce).value);
      Utf8.EncodeInjective(other, data);
      assert false;
    }
  }
}
