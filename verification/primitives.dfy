/** The foreign cryptography the program calls through the `cryptography`
    package: RSA-2048 with OAEP/SHA-256 standing in for a KEM, ECDSA on P-256
    with SHA-256 standing in for a signature scheme, and Fernet. Their
    internals are not modelled: a `Provider` holds them as function values,
    and `Sound` states the properties their documentation promises. Every
    randomised operation takes its random input (`coins`) as an argument. */
module Primitives {
  import opened Wrappers

  /** A PEM-serialised public key and private key. */
  datatype KeyPair = KeyPair(public: seq<byte>, secret: seq<byte>)

  /** The exceptions the crypto wrappers can raise. */
  datatype CryptoError =
    | BadBase64       // binascii.Error from a base64 decoder
    | KeyLoadFailed   // load_pem_public_key / load_pem_private_key rejected the PEM bytes
    | KemFailed       // RSA-OAEP encryption or decryption failed
    | SignFailed      // the private key could not produce an ECDSA signature
    | BadFernetKey    // Fernet(key): the key is not 32 url-safe base64-encoded bytes
    | InvalidToken    // Fernet.decrypt rejected the token
    | BadUtf8         // UnicodeDecodeError on the decrypted bytes

  datatype Provider = Provider(
    /** rsa.generate_private_key(65537, 2048) and its PEM serialisation. */
    kemKeyGen: seq<byte> -> KeyPair,
    /** ec.generate_private_key(SECP256R1()) and its PEM serialisation. */
    sigKeyGen: seq<byte> -> KeyPair,
    /** Load a public PEM and OAEP-encrypt `plaintext`; `None` if either step raises. */
    kemEncrypt: (seq<byte>, seq<byte>, seq<byte>) -> Option<seq<byte>>,
    /** Whether a private PEM loads. */
    kemSecretLoads: seq<byte> -> bool,
    /** OAEP-decrypt with a loaded private key; `None` if decryption raises. */
    kemDecrypt: (seq<byte>, seq<byte>) -> Option<seq<byte>>,
    /** Load a private PEM and ECDSA-sign `data`; `None` if either step raises. */
    sign: (seq<byte>, seq<byte>, seq<byte>) -> Option<seq<byte>>,
    /** Whether a public PEM loads. */
    sigPublicLoads: seq<byte> -> bool,
    /** ECDSA verification with a loaded public key: `true` when `verify` does not raise. */
    verify: (seq<byte>, seq<byte>, seq<byte>) -> bool,
    /** Fernet(key).encrypt(plaintext) for a 32-byte key: the token bytes. */
    fernetEncrypt: (seq<byte>, seq<byte>, seq<byte>) -> seq<byte>,
    /** Fernet(key).decrypt(token); `None` for `InvalidToken`. */
    fernetDecrypt: (seq<byte>, seq<byte>) -> Option<seq<byte>>
  )

  /** Decapsulation inverts encapsulation under a generated key pair. */
  ghost predicate KemCorrect(p: Provider)
  {
    forall coins, secret, pad ::
      |secret| == 32 ==>
        && p.kemEncrypt(p.kemKeyGen(coins).public, secret, pad).Some?
        && p.kemSecretLoads(p.kemKeyGen(coins).secret)
        && p.kemDecrypt(p.kemKeyGen(coins).secret, p.kemEncrypt(p.kemKeyGen(coins).public, secret, pad).value) == Some(secret)
  }

  /** A generated key pair signs anything, and verification accepts its signatures. */
  ghost predicate SigCorrect(p: Provider)
  {
    forall coins, data, nonce ::
      && p.sign(p.sigKeyGen(coins).secret, data, nonce).Some?
      && p.sigPublicLoads(p.sigKeyGen(coins).public)
      && p.verify(p.sigKeyGen(coins).public, data, p.sign(p.sigKeyGen(coins).secret, data, nonce).value)
  }

  /** The idealised signature: a signature made over `data` verifies over no other data. */
  ghost predicate SigBinding(p: Provider)
  {
    forall coins, data, nonce, other ::
      p.sign(p.sigKeyGen(coins).secret, data, nonce).Some?
      && p.verify(p.sigKeyGen(coins).public, other, p.sign(p.sigKeyGen(coins).secret, data, nonce).value)
      ==> other == data
  }

  /** Fernet decryption inverts encryption under the same 32-byte key. */
  ghost predicate FernetCorrect(p: Provider)
  {
    forall key, msg, coins ::
      |key| == 32 ==> p.fernetDecrypt(key, p.fernetEncrypt(key, msg, coins)) == Some(msg)
  }

  ghost predicate Sound(p: Provider)
  {
    KemCorrect(p) && SigCorrect(p) && SigBinding(p) && FernetCorrect(p)
  }

  /** A provider in which every operation passes its input through: it keeps
      no secret, but it shows that the properties of `Sound` can hold together. */
  function Transparent(): (p: Provider)
    ensures Sound(p)
  {
    Provider(
      coins => KeyPair(coins, coins),
      coins => KeyPair(coins, coins),
      (pub, plaintext, pad) => Some(plaintext),
      sec => true,
      (sec, ct) => Some(ct),
      (sec, data, nonce) => Some(data),
      pub => true,
      (pub, data, sig) => sig == data,
      (key, plaintext, coins) => plaintext,
      (key, token) => Some(token))
  }
}
