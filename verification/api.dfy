/** The HTTP front-end's four handlers, without the web framework: the request
    fields are JSON values (a missing field reads as `null`), and each handler
    yields a reply whose status code is derived from it. */
module Api {
  import opened Wrappers
  import opened Primitives
  import opened Records
  import Utils
  import Storage
  import Protocol
  import Pqc
  import Aes
  import Cli

  /** A JSON value as the handlers inspect it: `Other` is an array, an object
      or a number written with a fraction or an exponent (`1.0`, `1e2`, which
      Python reads as a float), with its Python truth value. */
  datatype Json = Null | Bool(b: bool) | Int(i: int) | Str(s: string) | Other(truthy: bool)

  /** Python truthiness of the decoded value. */
  predicate Truthy(j: Json)
  {
    match j
    case Null => false
    case Bool(b) => b
    case Int(i) => i != 0
    case Str(s) => s != ""
    case Other(t) => t
  }

  /** `isinstance(v, int)` and the integer it denotes: a JSON boolean is a
      Python `bool`, which is an `int`. */
  function AsIndex(j: Json): (r: Option<int>)
    ensures r.Some? <==> j.Int? || j.Bool?
    ensures j.Int? ==> r == Some(j.i)
    ensures j.Bool? ==> r == Some(if j.b then 1 else 0)
  {
    match j
    case Int(i) => Some(i)
    case Bool(b) => Some(if b then 1 else 0)
    case _ => None
  }

  /** The `error` texts of the 400 replies. */
  datatype Reason =
    | EmptyMessage | InvalidDate | NoKeys
    | InvalidIndex | IndexOutOfRange | NotFound
    | LockedUntil(unlockDate: string) | SignatureFailed

  /** An exception raised while handling a request. */
  datatype Fault = Crypto(error: CryptoError) | TypeError | AttributeError

  datatype Reply<+T> =
    | Ok(value: T)
    | Rejected(reason: Reason)     // a JSON error reply with status 400
    | Failed(fault: Fault)         // caught by the handler: a JSON error reply with status 500
    | Uncaught(fault: Fault)       // escapes the handler: the framework answers 500

  function Status<T>(r: Reply<T>): (code: nat)
    ensures code == 200 <==> r.Ok?
    ensures code == 400 <==> r.Rejected?
  {
    match r
    case Ok(_) => 200
    case Rejected(_) => 400
    case Failed(_) => 500
    case Uncaught(_) => 500
  }

  /** `api_create_capsule()`: an empty (falsy) message first, then the date
      (text that is not a date is rejected; a non-text value makes
      `validate_date` raise `TypeError`, which escapes), then the key file.
      Nothing is stripped and no warning is given. The sealing step runs under
      the handler; a message that is not text passes the checks when truthy
      and fails in `message.encode()`. On success the reply carries exactly
      the capsule saved. */
  function CreateCapsule(p: Provider, st: Storage.Store, message: Json, unlockDate: Json,
                         now: Utils.DateTime, coins: Protocol.Coins): (r: (Storage.Store, Reply<Capsule>))
    requires Utils.ValidDateTime(now)
    ensures !r.1.Ok? ==> r.0 == st
    ensures r.1 == Rejected(EmptyMessage) <==> !Truthy(message)
    ensures r.1 == Uncaught(TypeError) <==> Truthy(message) && !unlockDate.Str?
    ensures r.1 == Rejected(InvalidDate) <==> Truthy(message) && unlockDate.Str? && !Utils.ValidateDate(unlockDate.s)
    ensures r.1 == Rejected(NoKeys) <==>
      Truthy(message) && unlockDate.Str? && Utils.ValidateDate(unlockDate.s) && Storage.LoadKeys(st).None?
    ensures r.1.Ok? ==>
      && message.Str? && unlockDate.Str? && Storage.LoadKeys(st).Some?
      && Protocol.Seal(p, Storage.LoadKeys(st).value, message.s, unlockDate.s, now, coins) == Success(r.1.value)
      && r.0 == Storage.SaveCapsule(st, r.1.value)
    ensures message.Str? && message.s != "" && unlockDate.Str? && Utils.ValidateDate(unlockDate.s) && Storage.LoadKeys(st).Some? ==>
      match Protocol.Seal(p, Storage.LoadKeys(st).value, message.s, unlockDate.s, now, coins)
      case Success(c) => r == (Storage.SaveCapsule(st, c), Ok(c))
      case Failure(e) => r == (st, Failed(Crypto(e)))
  {
    if !Truthy(message) then (st, Rejected(EmptyMessage))
    else if !unlockDate.Str? then (st, Uncaught(TypeError))
    else if !Utils.ValidateDate(unlockDate.s) then (st, Rejected(InvalidDate))
    else
      match Storage.LoadKeys(st)
      case None => (st, Rejected(NoKeys))
      case Some(keys) =>
        if message.Str? then
          match Protocol.Seal(p, keys, message.s, unlockDate.s, now, coins)
          case Failure(e) => (st, Failed(Crypto(e)))
          case Success(c) => (Storage.SaveCapsule(st, c), Ok(c))
        else
          match Pqc.EncapsulateKey(p, keys.kemPublic, coins.secret, coins.oaep)
          case Failure(e) => (st, Failed(Crypto(e)))
          case Success((_, aesKey)) =>
            if Aes.FernetKey(aesKey).Failure? then (st, Failed(Crypto(BadFernetKey))) else (st, Failed(AttributeError))
  }

  /** One element of the `capsules` array. */
  datatype Listed = Listed(timestamp: string, unlockDate: string, status: string)

  /** `api_list_capsules()`: one element per listed timestamp, in listing
      order, with status "unlocked" exactly when the time lock has expired. */
  function ListCapsules(st: Storage.Store, today: Utils.Date): (r: seq<Listed>)
    ensures |r| == |Storage.ListCapsules(st)|
    ensures forall k | 0 <= k < |r| ::
      && r[k].timestamp == Storage.ListCapsules(st)[k]
      && Storage.LoadCapsule(st, r[k].timestamp).Some?
      && r[k].unlockDate == Storage.LoadCapsule(st, r[k].timestamp).value.unlockDate
      && (r[k].status == "unlocked" <==> Utils.IsUnlocked(r[k].unlockDate, today))
      && (r[k].status == "locked" <==> !Utils.IsUnlocked(r[k].unlockDate, today))
  {
    var entries := Protocol.Listing(st, today);
    seq(|entries|, k requires 0 <= k < |entries| =>
      Listed(entries[k].timestamp, entries[k].unlockDate, if entries[k].unlocked then "unlocked" else "locked"))
  }

  /** The selection shared by decrypt and verify: an index that is missing or
      not an integer, then one outside `[0, len)`, then a missing capsule or
      key file. The index is 0-based. */
  function Select(st: Storage.Store, index: Json): (r: Reply<(Capsule, KeyBundle)>)
    ensures r.Rejected? || r.Ok?
    ensures r == Rejected(InvalidIndex) <==> AsIndex(index).None?
    ensures r == Rejected(IndexOutOfRange) <==>
      AsIndex(index).Some? && !(0 <= AsIndex(index).value < |Storage.ListCapsules(st)|)
    ensures r.Ok? ==>
      && AsIndex(index).Some? && 0 <= AsIndex(index).value < |Storage.ListCapsules(st)|
      && Storage.LoadCapsule(st, Storage.ListCapsules(st)[AsIndex(index).value]) == Some(r.value.0)
      && Storage.LoadKeys(st) == Some(r.value.1)
  {
    match AsIndex(index)
    case None => Rejected(InvalidIndex)
    case Some(i) =>
      if i < 0 || i >= |Storage.ListCapsules(st)| then Rejected(IndexOutOfRange)
      else
        match Protocol.Selected(st, i)
        case None => Rejected(NotFound)
        case Some(found) => Ok(found)
  }

  /** The body of a successful decryption. */
  datatype Decryption = Decryption(message: string, signatureVerified: bool)

  /** `api_decrypt_capsule()`: selection, then the lock (rejected with the
      unlock date), then the signature (rejected, nothing decrypted; a raise
      here escapes), then decapsulation and decryption under the handler. */
  function DecryptCapsule(p: Provider, st: Storage.Store, index: Json, today: Utils.Date): (r: Reply<Decryption>)
    ensures Select(st, index).Rejected? ==> r == Rejected(Select(st, index).reason)
    ensures Select(st, index).Ok? ==>
      var (c, keys) := Select(st, index).value;
      match Protocol.Open(p, c, keys, today)
      case Locked(d) => r == Rejected(LockedUntil(d))
      case Tampered => r == Rejected(SignatureFailed)
      case VerifyRaised(e) => r == Uncaught(Crypto(e))
      case DecryptRaised(e) => r == Failed(Crypto(e))
      case Opened(m) => r == Ok(Decryption(m, true))
  {
    match Select(st, index)
    case Rejected(reason) => Rejected(reason)
    case Ok((c, keys)) =>
      match Protocol.Open(p, c, keys, today)
      case Locked(d) => Rejected(LockedUntil(d))
      case Tampered => Rejected(SignatureFailed)
      case VerifyRaised(e) => Uncaught(Crypto(e))
      case DecryptRaised(e) => Failed(Crypto(e))
      case Opened(m) => Ok(Decryption(m, true))
  }

  /** `api_verify_capsule()`: selection, then `verified` as the signature check
      returns it, whatever the lock state. */
  function VerifyCapsule(p: Provider, st: Storage.Store, index: Json): (r: Reply<bool>)
    ensures Select(st, index).Rejected? ==> r == Rejected(Select(st, index).reason)
    ensures Select(st, index).Ok? ==>
      var (c, keys) := Select(st, index).value;
      match Protocol.Check(p, c, keys)
      case Success(v) => r == Ok(v)
      case Failure(e) => r == Uncaught(Crypto(e))
  {
    match Select(st, index)
    case Rejected(reason) => Rejected(reason)
    case Ok((c, keys)) =>
      match Protocol.Check(p, c, keys)
      case Success(v) => Ok(v)
      case Failure(e) => Uncaught(Crypto(e))
  }

  /** A successful decryption reports a verified signature, and happens only
      when the lock has expired and the signature verifies. */
  lemma DecryptedOnlyWhenVerified(p: Provider, st: Storage.Store, index: Json, today: Utils.Date)
    requires DecryptCapsule(p, st, index, today).Ok?
    ensures DecryptCapsule(p, st, index, today).value.signatureVerified
    ensures var (c, keys) := Select(st, index).value;
      Utils.IsUnlocked(c.unlockDate, today) && Protocol.Check(p, c, keys) == Success(true)
  {
  }

  /** The 0-based index here selects what number `index + 1` selects on the
      command line. */
  lemma SelectAgreesWithCli(st: Storage.Store, i: int)
    ensures Select(st, Int(i)).Ok? <==> Cli.Select(st, Some(i + 1)).Success?
    ensures Select(st, Int(i)).Ok? ==> Select(st, Int(i)).value == Cli.Select(st, Some(i + 1)).value
  {
  }

  /** On inputs the command line would not change by stripping, a valid
      request creates and saves the capsule the command line creates, and
      fails when it fails. */
  lemma CreateAgreesWithCli(p: Provider, st: Storage.Store, message: string, unlockDate: string,
                            today: Utils.Date, now: Utils.DateTime, coins: Protocol.Coins)
    requires Utils.ValidDateTime(now)
    requires Cli.Strip(message) == message && Cli.Strip(unlockDate) == unlockDate
    requires message != "" && Utils.ValidateDate(unlockDate) && Storage.LoadKeys(st).Some?
    ensures var a := CreateCapsule(p, st, Str(message), Str(unlockDate), now, coins);
      var c := Cli.CreateCapsule(p, st, message, unlockDate, today, now, coins);
      && a.0 == c.0
      && (a.1.Ok? <==> c.1.Created?)
      && (a.1.Ok? ==> a.1.value == c.1.capsule)
  {
  }

  /** A JSON `true` or `false` passes the integer check and selects index 1 or 0. */
  lemma BooleanIndex(st: Storage.Store, b: bool)
    ensures Select(st, Bool(b)) == Select(st, Int(if b then 1 else 0))
  {
  }

  /** Unlike the command line, the API does not strip: a message of spaces is
      accepted, and a date with surrounding spaces is rejected. */
  lemma NoStripping(p: Provider, st: Storage.Store, now: Utils.DateTime, coins: Protocol.Coins)
    requires Utils.ValidDateTime(now)
    ensures CreateCapsule(p, st, Str(" "), Str(" 2024-01-01"), now, coins).1 == Rejected(InvalidDate)
    ensures CreateCapsule(p, st, Str(" "), Null, now, coins).1 == Uncaught(TypeError)
  {
  }
}
