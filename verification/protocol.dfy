/** The capsule protocol that the three front-ends each write out inline:
    creating (sealing) a capsule, the gated decryption (opening) of one, the
    signature check on its own, and the numbered listing they display. */
module Protocol {
  import opened Wrappers
  import opened Primitives
  import opened Records
  import Pqc
  import Aes
  import Utils
  import Storage
  import Base64

  /** The randomness one creation consumes: the fresh AES key, the OAEP
      padding, Fernet's IV and the ECDSA nonce. */
  datatype Coins = Coins(secret: Pqc.SharedSecret, oaep: seq<byte>, iv: seq<byte>, nonce: seq<byte>)

  /** The signed text: timestamp, unlock date, ciphertext and encapsulated key,
      in that order, joined by `|`. */
  function Metadata(timestamp: string, unlockDate: string, ciphertext: string, kemCt: string): string
  {
    timestamp + "|" + unlockDate + "|" + ciphertext + "|" + kemCt
  }

  /** The metadata a capsule's signature should cover, rebuilt from its own fields. */
  function CapsuleMetadata(c: Capsule): string
  {
    Metadata(c.timestamp, c.unlockDate, c.ciphertext, c.kemCt)
  }

  /** "Generate keys", identical in all three front-ends: generate a bundle and
      overwrite the key file. */
  function GenerateAndSave(p: Provider, st: Storage.Store, kemCoins: seq<byte>, sigCoins: seq<byte>): (r: Storage.Store)
    ensures Storage.LoadKeys(r) == Some(Pqc.GenerateKeys(p, kemCoins, sigCoins))
    ensures forall ts :: Storage.LoadCapsule(r, ts) == Storage.LoadCapsule(st, ts)
  {
    Storage.SaveKeys(st, Pqc.GenerateKeys(p, kemCoins, sigCoins))
  }

  /** The `try` block of "create": encapsulate a fresh key, encrypt the message
      under it, stamp, sign the metadata, assemble the five-field record. */
  function Seal(p: Provider, keys: KeyBundle, message: string, unlockDate: string, now: Utils.DateTime, coins: Coins): (r: Result<Capsule, CryptoError>)
    requires Utils.ValidDateTime(now)
    ensures r.Success? ==> r.value.timestamp == Utils.CurrentTimestamp(now) && r.value.unlockDate == unlockDate
    ensures r.Success? ==> Pqc.SignData(p, CapsuleMetadata(r.value), keys.sigSecret, coins.nonce) == Success(r.value.signature)
    ensures r.Success? ==> '|' !in r.value.ciphertext && '|' !in r.value.kemCt && '|' !in r.value.signature
    ensures var e := Pqc.EncapsulateKey(p, keys.kemPublic, coins.secret, coins.oaep);
      e.Failure? ==> r == Failure(e.error)
    ensures var e := Pqc.EncapsulateKey(p, keys.kemPublic, coins.secret, coins.oaep);
      r.Success? <==>
        && e.Success?
        && Aes.EncryptMessage(p, message, e.value.1, coins.iv).Success?
        && Pqc.SignData(p, Metadata(Utils.CurrentTimestamp(now), unlockDate,
                                    Aes.EncryptMessage(p, message, e.value.1, coins.iv).value, e.value.0),
                        keys.sigSecret, coins.nonce).Success?
    ensures var e := Pqc.EncapsulateKey(p, keys.kemPublic, coins.secret, coins.oaep);
      r.Success? ==>
        && r.value.kemCt == e.value.0
        && Aes.EncryptMessage(p, message, e.value.1, coins.iv) == Success(r.value.ciphertext)
  {
    match Pqc.EncapsulateKey(p, keys.kemPublic, coins.secret, coins.oaep)
    case Failure(e) => Failure(e)
    case Success((kemCt, aesKey)) =>
      match Aes.EncryptMessage(p, message, aesKey, coins.iv)
      case Failure(e) => Failure(e)
      case Success(ciphertext) =>
        Base64.NoDelimiter(kemCt);
        Base64.NoDelimiter(ciphertext);
        var timestamp := Utils.CurrentTimestamp(now);
        match Pqc.SignData(p, Metadata(timestamp, unlockDate, ciphertext, kemCt), keys.sigSecret, coins.nonce)
        case Failure(e) => Failure(e)
        case Success(signature) =>
          Base64.NoDelimiter(signature);
          Success(Capsule(timestamp, unlockDate, ciphertext, kemCt, signature))
  }

  /** What "create" reports in the command-line and windowed front-ends. */
  datatype Creation =
    | NoKeys                                      // no key file
    | EmptyMessage
    | InvalidDate
    | DateNotText                                 // the date dialog was cancelled: validate_date raises TypeError
    | Failed(error: CryptoError, warned: bool)    // the sealing step raised inside create's handler
    | Created(capsule: Capsule, warned: bool)

  /** The part of "create" after validation: report whether the unlock date
      has already passed (`warned`), seal, and save. Nothing is written
      unless sealing succeeds. */
  function SealAndSave(p: Provider, st: Storage.Store, keys: KeyBundle, message: string, unlockDate: string,
                       today: Utils.Date, now: Utils.DateTime, coins: Coins): (r: (Storage.Store, Creation))
    requires Utils.ValidDateTime(now)
    ensures r.1.Created? || r.1.Failed?
    ensures r.1.warned <==> Utils.IsUnlocked(unlockDate, today)
    ensures r.1.Failed? ==> r.0 == st && Seal(p, keys, message, unlockDate, now, coins) == Failure(r.1.error)
    ensures r.1.Created? ==> r.0 == Storage.SaveCapsule(st, r.1.capsule) && Seal(p, keys, message, unlockDate, now, coins) == Success(r.1.capsule)
  {
    var warned := Utils.IsUnlocked(unlockDate, today);
    match Seal(p, keys, message, unlockDate, now, coins)
    case Failure(e) => (st, Failed(e, warned))
    case Success(c) => (Storage.SaveCapsule(st, c), Created(c, warned))
  }

  /** "Verify": the signature over the recomputed metadata; the unlock date is
      not consulted. A malformed key or signature encoding raises. */
  function Check(p: Provider, c: Capsule, keys: KeyBundle): Result<bool, CryptoError>
  {
    Pqc.VerifySignature(p, CapsuleMetadata(c), c.signature, keys.sigPublic)
  }

  /** The `try` block of "decrypt": decapsulate the AES key, then decrypt. */
  function Unseal(p: Provider, c: Capsule, keys: KeyBundle): (r: Result<string, CryptoError>)
    ensures Pqc.DecapsulateKey(p, keys.kemSecret, c.kemCt).Failure? ==> r == Failure(Pqc.DecapsulateKey(p, keys.kemSecret, c.kemCt).error)
    ensures r.Success? <==>
      && Pqc.DecapsulateKey(p, keys.kemSecret, c.kemCt).Success?
      && Aes.DecryptMessage(p, c.ciphertext, Pqc.DecapsulateKey(p, keys.kemSecret, c.kemCt).value).Success?
    ensures r.Success? ==> Aes.DecryptMessage(p, c.ciphertext, Pqc.DecapsulateKey(p, keys.kemSecret, c.kemCt).value) == r
  {
    match Pqc.DecapsulateKey(p, keys.kemSecret, c.kemCt)
    case Failure(e) => Failure(e)
    case Success(aesKey) => Aes.DecryptMessage(p, c.ciphertext, aesKey)
  }

  /** What "decrypt" reports for a capsule and key bundle that were found. */
  datatype Opening =
    | Opened(message: string)
    | Locked(unlockDate: string)          // the time lock has not expired
    | Tampered                            // the signature does not verify
    | VerifyRaised(error: CryptoError)    // verify_signature raised, outside any handler of decrypt
    | DecryptRaised(error: CryptoError)   // decapsulation or decryption raised, inside decrypt's handler

  /** "Decrypt": the time lock first, then the signature, then decapsulation and
      decryption. Each gate that fails stops the later ones. */
  function Open(p: Provider, c: Capsule, keys: KeyBundle, today: Utils.Date): (r: Opening)
    ensures !Utils.IsUnlocked(c.unlockDate, today) <==> r == Locked(c.unlockDate)
    ensures r.Tampered? <==> Utils.IsUnlocked(c.unlockDate, today) && Check(p, c, keys) == Success(false)
    ensures r.VerifyRaised? <==> Utils.IsUnlocked(c.unlockDate, today) && Check(p, c, keys).Failure?
    ensures r.Opened? || r.DecryptRaised? <==> Utils.IsUnlocked(c.unlockDate, today) && Check(p, c, keys) == Success(true)
    ensures r.Opened? ==> Unseal(p, c, keys) == Success(r.message)
    ensures r.DecryptRaised? ==> Unseal(p, c, keys) == Failure(r.error)
    ensures r.Opened? <==> Utils.IsUnlocked(c.unlockDate, today) && Check(p, c, keys) == Success(true) && Unseal(p, c, keys).Success?
  {
    if !Utils.IsUnlocked(c.unlockDate, today) then Locked(c.unlockDate)
    else
      match Check(p, c, keys)
      case Failure(e) => VerifyRaised(e)
      case Success(valid) =>
        if !valid then Tampered
        else
          match Unseal(p, c, keys)
          case Failure(e) => DecryptRaised(e)
          case Success(message) => Opened(message)
  }

  /** One line of the capsule listing: the 1-based number shown, the timestamp,
      the unlock date and whether the capsule is unlocked today. */
  datatype Entry = Entry(number: nat, timestamp: string, unlockDate: string, unlocked: bool)

  function Entries(st: Storage.Store, ts: seq<string>, first: nat, today: Utils.Date): (r: seq<Entry>)
    decreases |ts|
  {
    if |ts| == 0 then []
    else
      var rest := Entries(st, ts[1..], first + 1, today);
      match Storage.LoadCapsule(st, ts[0])
      case None => rest
      case Some(c) => [Entry(first, ts[0], c.unlockDate, Utils.IsUnlocked(c.unlockDate, today))] + rest
  }

  lemma {:induction false} EntriesOfLoadable(st: Storage.Store, ts: seq<string>, first: nat, today: Utils.Date)
    requires forall t | t in ts :: Storage.LoadCapsule(st, t).Some?
    ensures |Entries(st, ts, first, today)| == |ts|
    ensures forall k | 0 <= k < |ts| ::
      var c := Storage.LoadCapsule(st, ts[k]).value;
      Entries(st, ts, first, today)[k] == Entry(first + k, ts[k], c.unlockDate, Utils.IsUnlocked(c.unlockDate, today))
    decreases |ts|
  {
    if |ts| > 0 {
      assert ts[0] in ts;
      EntriesOfLoadable(st, ts[1..], first + 1, today);
    }
  }

  /** "View capsules": every listed timestamp is numbered from 1, in listing
      order, with its status. Row k shows the k-th listed capsule, and its
      status is "unlocked" exactly when the time lock has expired. */
  function Listing(st: Storage.Store, today: Utils.Date): (r: seq<Entry>)
    ensures |r| == |Storage.ListCapsules(st)|
    ensures forall k | 0 <= k < |r| ::
      && r[k].number == k + 1
      && r[k].timestamp == Storage.ListCapsules(st)[k]
      && Storage.LoadCapsule(st, r[k].timestamp).Some?
      && r[k].unlockDate == Storage.LoadCapsule(st, r[k].timestamp).value.unlockDate
      && (r[k].unlocked <==> Utils.IsUnlocked(r[k].unlockDate, today))
  {
    EntriesOfLoadable(st, Storage.ListCapsules(st), 1, today);
    Entries(st, Storage.ListCapsules(st), 1, today)
  }

  /** The selected capsule and the key bundle, when both files exist. */
  function Selected(st: Storage.Store, index: int): (r: Option<(Capsule, KeyBundle)>)
    requires 0 <= index < |Storage.ListCapsules(st)|
    ensures r.Some? <==> Storage.LoadKeys(st).Some?
    ensures r.Some? ==> Storage.LoadCapsule(st, Storage.ListCapsules(st)[index]) == Some(r.value.0)
    ensures r.Some? ==> Storage.LoadKeys(st) == Some(r.value.1)
  {
    var ts := Storage.ListCapsules(st)[index];
    match (Storage.LoadCapsule(st, ts), Storage.LoadKeys(st))
    case (Some(c), Some(keys)) => Some((c, keys))
    case _ => None
  }

  // ---------------------------------------------------------------------
  // Metadata injectivity

  /** The number of occurrences of `ch` in `s`. */
  function Occurrences(s: string, ch: char): (n: nat)
    ensures n == 0 <==> ch !in s
    decreases |s|
  {
    if |s| == 0 then 0
    else (if s[0] == ch then 1 else 0) + Occurrences(s[1..], ch)
  }

  lemma {:induction false} OccurrencesAppend(a: string, b: string, ch: char)
    ensures Occurrences(a + b, ch) == Occurrences(a, ch) + Occurrences(b, ch)
    decreases |a|
  {
    if |a| > 0 {
      assert (a + b)[1..] == a[1..] + b;
      OccurrencesAppend(a[1..], b, ch);
    } else {
      assert a + b == b;
    }
  }

  lemma MetadataDelimiters(a: string, b: string, c: string, d: string)
    ensures Occurrences(Metadata(a, b, c, d), '|') == 3 + Occurrences(a, '|') + Occurrences(b, '|') + Occurrences(c, '|') + Occurrences(d, '|')
  {
    OccurrencesAppend(a, "|", '|');
    OccurrencesAppend(a + "|", b, '|');
    OccurrencesAppend(a + "|" + b, "|", '|');
    OccurrencesAppend(a + "|" + b + "|", c, '|');
    OccurrencesAppend(a + "|" + b + "|" + c, "|", '|');
    OccurrencesAppend(a + "|" + b + "|" + c + "|", d, '|');
  }

  lemma NoDelimiterInTail(x: string, y: string)
    requires '|' !in y
    ensures forall i | |x| + 1 <= i < |x + "|" + y| :: (x + "|" + y)[i] != '|'
  {
    forall i | |x| + 1 <= i < |x + "|" + y|
      ensures (x + "|" + y)[i] != '|'
    {
      assert (x + "|" + y)[i] == y[i - |x| - 1];
      assert y[i - |x| - 1] in y;
    }
  }

  /** The last delimiter separates uniquely: a suffix free of `|` is determined
      by the whole text. */
  lemma SplitLast(x: string, y: string, x': string, y': string)
    requires '|' !in y && '|' !in y'
    requires x + "|" + y == x' + "|" + y'
    ensures x == x' && y == y'
  {
    var s := x + "|" + y;
    NoDelimiterInTail(x, y);
    NoDelimiterInTail(x', y');
    assert s[|x|] == '|' && s[|x'|] == '|';
    assert |x| == |x'|;
    assert x == s[..|x|] == x';
    assert y == s[|x| + 1..] == y';
  }

  /** Metadata is injective on fields free of `|`: if the original four fields
      contain no `|`, any four fields that produce the same metadata are the
      same fields. */
  lemma MetadataInjective(a: string, b: string, c: string, d: string, a': string, b': string, c': string, d': string)
    requires '|' !in a && '|' !in b && '|' !in c && '|' !in d
    requires Metadata(a, b, c, d) == Metadata(a', b', c', d')
    ensures a == a' && b == b' && c == c' && d == d'
  {
    MetadataDelimiters(a, b, c, d);
    MetadataDelimiters(a', b', c', d');
    SplitLast(a + "|" + b + "|" + c, d, a' + "|" + b' + "|" + c', d');
    SplitLast(a + "|" + b, c, a' + "|" + b', c');
    SplitLast(a, b, a', b');
  }

  // ---------------------------------------------------------------------
  // Protocol properties under a sound provider and a generated key bundle

  /** With a generated key bundle, sealing succeeds. */
  lemma SealSucceeds(p: Provider, kemCoins: seq<byte>, sigCoins: seq<byte>, message: string, unlockDate: string, now: Utils.DateTime, coins: Coins)
    requires Sound(p) && Utils.ValidDateTime(now)
    ensures Seal(p, Pqc.GenerateKeys(p, kemCoins, sigCoins), message, unlockDate, now, coins).Success?
  {
    var keys := Pqc.GenerateKeys(p, kemCoins, sigCoins);
    Pqc.DecapsulateEncapsulate(p, kemCoins, sigCoins, coins.secret, coins.oaep);
    Aes.SharedSecretIsFernetKey(coins.secret);
    var e := Pqc.EncapsulateKey(p, keys.kemPublic, coins.secret, coins.oaep).value;
    assert Aes.FernetKey(e.1).Success?;
    var ciphertext := Aes.EncryptMessage(p, message, e.1, coins.iv).value;
    Pqc.VerifySign(p, kemCoins, sigCoins, Metadata(Utils.CurrentTimestamp(now), unlockDate, ciphertext, e.0), coins.nonce);
  }

  /** A sealed capsule verifies, whatever its unlock date. */
  lemma CheckSealed(p: Provider, kemCoins: seq<byte>, sigCoins: seq<byte>, message: string, unlockDate: string, now: Utils.DateTime, coins: Coins)
    requires Sound(p) && Utils.ValidDateTime(now)
    ensures var keys := Pqc.GenerateKeys(p, kemCoins, sigCoins);
      Seal(p, keys, message, unlockDate, now, coins).Success?
      && Check(p, Seal(p, keys, message, unlockDate, now, coins).value, keys) == Success(true)
  {
    var keys := Pqc.GenerateKeys(p, kemCoins, sigCoins);
    SealSucceeds(p, kemCoins, sigCoins, message, unlockDate, now, coins);
    var c := Seal(p, keys, message, unlockDate, now, coins).value;
    Pqc.VerifySign(p, kemCoins, sigCoins, CapsuleMetadata(c), coins.nonce);
  }

  /** Round trip: once unlocked, a sealed capsule opens to the original message. */
  lemma OpenSeal(p: Provider, kemCoins: seq<byte>, sigCoins: seq<byte>, message: string, unlockDate: string, now: Utils.DateTime, coins: Coins, today: Utils.Date)
    requires Sound(p) && Utils.ValidDateTime(now)
    requires Utils.IsUnlocked(unlockDate, today)
    ensures var keys := Pqc.GenerateKeys(p, kemCoins, sigCoins);
      Seal(p, keys, message, unlockDate, now, coins).Success?
      && Open(p, Seal(p, keys, message, unlockDate, now, coins).value, keys, today) == Opened(message)
  {
    var keys := Pqc.GenerateKeys(p, kemCoins, sigCoins);
    CheckSealed(p, kemCoins, sigCoins, message, unlockDate, now, coins);
    var c := Seal(p, keys, message, unlockDate, now, coins).value;
    Pqc.DecapsulateEncapsulate(p, kemCoins, sigCoins, coins.secret, coins.oaep);
    var e := Pqc.EncapsulateKey(p, keys.kemPublic, coins.secret, coins.oaep).value;
    Aes.SharedSecretIsFernetKey(coins.secret);
    Aes.DecryptEncrypt(p, message, e.1, coins.iv);
    assert Unseal(p, c, keys) == Success(message);
  }

  /** Tamper detection: a capsule whose timestamp, unlock date, ciphertext or
      encapsulated key differs from a sealed capsule's fails verification
      under that capsule's signature (and does not raise), provided the
      unlock date contains no `|` (every valid date qualifies). */
  lemma TamperDetected(p: Provider, kemCoins: seq<byte>, sigCoins: seq<byte>, message: string, unlockDate: string, now: Utils.DateTime, coins: Coins, forged: Capsule)
    requires Sound(p) && Utils.ValidDateTime(now)
    requires '|' !in unlockDate
    requires Seal(p, Pqc.GenerateKeys(p, kemCoins, sigCoins), message, unlockDate, now, coins).Success?
    requires var c := Seal(p, Pqc.GenerateKeys(p, kemCoins, sigCoins), message, unlockDate, now, coins).value;
      forged.signature == c.signature
      && (forged.timestamp, forged.unlockDate, forged.ciphertext, forged.kemCt) != (c.timestamp, c.unlockDate, c.ciphertext, c.kemCt)
    ensures Check(p, forged, Pqc.GenerateKeys(p, kemCoins, sigCoins)) == Success(false)
  {
    var keys := Pqc.GenerateKeys(p, kemCoins, sigCoins);
    var c := Seal(p, keys, message, unlockDate, now, coins).value;
    Utils.TimestampUndelimited(now);
    if CapsuleMetadata(forged) == CapsuleMetadata(c) {
      MetadataInjective(c.timestamp, c.unlockDate, c.ciphertext, c.kemCt, forged.timestamp, forged.unlockDate, forged.ciphertext, forged.kemCt);
    }
    assert CapsuleMetadata(forged) != CapsuleMetadata(c);
    Pqc.SignatureBinding(p, kemCoins, sigCoins, CapsuleMetadata(c), CapsuleMetadata(forged), coins.nonce);
    assert Pqc.SignData(p, CapsuleMetadata(c), keys.sigSecret, coins.nonce) == Success(c.signature);
  }
}
