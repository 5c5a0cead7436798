/** The windowed front-end: the create, decrypt and verify buttons. A dialog's
    answer is a parameter, `None` when the user cancels it; the integer dialog
    only ever returns an integer or `None`. */
module Gui {
  import opened Wrappers
  import opened Primitives
  import opened Records
  import Utils
  import Storage
  import Protocol
  import Cli

  /** `create_capsule()`: the message first (no stripping; a cancelled dialog
      counts as empty), then the date (a cancelled dialog makes
      `validate_date(None)` raise `TypeError`, which escapes the handler),
      then the key file; then the warning, sealing and saving. */
  function CreateCapsule(p: Provider, st: Storage.Store, message: Option<string>, unlockDate: Option<string>,
                         today: Utils.Date, now: Utils.DateTime, coins: Protocol.Coins): (r: (Storage.Store, Protocol.Creation))
    requires Utils.ValidDateTime(now)
    ensures !r.1.Created? ==> r.0 == st
    ensures r.1 == Protocol.EmptyMessage <==> message.None? || message.value == ""
    ensures r.1 == Protocol.DateNotText <==> message.Some? && message.value != "" && unlockDate.None?
    ensures r.1 == Protocol.InvalidDate <==>
      message.Some? && message.value != "" && unlockDate.Some? && !Utils.ValidateDate(unlockDate.value)
    ensures r.1 == Protocol.NoKeys <==>
      message.Some? && message.value != "" && unlockDate.Some? && Utils.ValidateDate(unlockDate.value)
      && Storage.LoadKeys(st).None?
    ensures r.1.Created? || r.1.Failed? ==>
      r == Protocol.SealAndSave(p, st, Storage.LoadKeys(st).value, message.value, unlockDate.value, today, now, coins)
  {
    if message.None? || message.value == "" then (st, Protocol.EmptyMessage)
    else if unlockDate.None? then (st, Protocol.DateNotText)
    else if !Utils.ValidateDate(unlockDate.value) then (st, Protocol.InvalidDate)
    else
      match Storage.LoadKeys(st)
      case None => (st, Protocol.NoKeys)
      case Some(keys) => Protocol.SealAndSave(p, st, keys, message.value, unlockDate.value, today, now, coins)
  }

  datatype Refusal = NoCapsules | InvalidChoice | NotFound

  /** The selection shared by decrypt and verify: an empty listing first, then
      a choice that is missing or outside 1 to the listing's length; the
      choice selects position `choice - 1`. */
  function Select(st: Storage.Store, choice: Option<int>): (r: Result<(Capsule, KeyBundle), Refusal>)
    ensures |Storage.ListCapsules(st)| == 0 <==> r == Failure(NoCapsules)
    ensures r == Failure(InvalidChoice) <==>
      |Storage.ListCapsules(st)| > 0 && (choice.None? || !(1 <= choice.value <= |Storage.ListCapsules(st)|))
    ensures r.Success? ==>
      && choice.Some? && 1 <= choice.value <= |Storage.ListCapsules(st)|
      && Storage.LoadCapsule(st, Storage.ListCapsules(st)[choice.value - 1]) == Some(r.value.0)
      && Storage.LoadKeys(st) == Some(r.value.1)
  {
    var capsules := Storage.ListCapsules(st);
    if |capsules| == 0 then Failure(NoCapsules)
    else if choice.None? || choice.value < 1 || choice.value > |capsules| then Failure(InvalidChoice)
    else
      match Protocol.Selected(st, choice.value - 1)
      case None => Failure(NotFound)
      case Some(found) => Success(found)
  }

  datatype Decryption = DecryptRefused(refusal: Refusal) | Decrypted(opening: Protocol.Opening)

  /** `decrypt_capsule()`: selection, then the gated opening. A `VerifyRaised`
      opening is an exception escaping the button handler. */
  function DecryptCapsule(p: Provider, st: Storage.Store, choice: Option<int>, today: Utils.Date): (r: Decryption)
    ensures r.DecryptRefused? <==> Select(st, choice).Failure?
    ensures r.DecryptRefused? ==> r.refusal == Select(st, choice).error
    ensures r.Decrypted? ==> var (c, keys) := Select(st, choice).value; r.opening == Protocol.Open(p, c, keys, today)
  {
    match Select(st, choice)
    case Failure(e) => DecryptRefused(e)
    case Success((c, keys)) => Decrypted(Protocol.Open(p, c, keys, today))
  }

  datatype Verification = VerifyRefused(refusal: Refusal) | Verified(result: Result<bool, CryptoError>)

  /** `verify_capsule()`: selection, then the signature check alone. */
  function VerifyCapsule(p: Provider, st: Storage.Store, choice: Option<int>): (r: Verification)
    ensures r.VerifyRefused? <==> Select(st, choice).Failure?
    ensures r.VerifyRefused? ==> r.refusal == Select(st, choice).error
    ensures r.Verified? ==> var (c, keys) := Select(st, choice).value; r.result == Protocol.Check(p, c, keys)
  {
    match Select(st, choice)
    case Failure(e) => VerifyRefused(e)
    case Success((c, keys)) => Verified(Protocol.Check(p, c, keys))
  }

  /** The 1-based choice here and the typed number of the command line select
      the same capsule, and are refused together. */
  lemma SelectAgreesWithCli(st: Storage.Store, n: int)
    ensures Select(st, Some(n)).Success? <==> Cli.Select(st, Some(n)).Success?
    ensures Select(st, Some(n)).Success? ==> Select(st, Some(n)).value == Cli.Select(st, Some(n)).value
    ensures Select(st, Some(n)) == Failure(NotFound) <==> Cli.Select(st, Some(n)) == Failure(Cli.NotFound)
  {
  }

  /** Hence decrypting the same number gives the same opening in both front-ends. */
  lemma DecryptAgreesWithCli(p: Provider, st: Storage.Store, n: int, today: Utils.Date)
    ensures DecryptCapsule(p, st, Some(n), today).Decrypted? <==> Cli.DecryptCapsule(p, st, Some(n), today).Decrypted?
    ensures DecryptCapsule(p, st, Some(n), today).Decrypted? ==>
      DecryptCapsule(p, st, Some(n), today).opening == Cli.DecryptCapsule(p, st, Some(n), today).opening
  {
    SelectAgreesWithCli(st, n);
  }

  /** A GUI-created capsule differs from a command-line one only in that the
      inputs are taken as typed: given the same already-stripped inputs, the
      two create the same capsule. */
  lemma CreateAgreesWithCli(p: Provider, st: Storage.Store, message: string, unlockDate: string,
                            today: Utils.Date, now: Utils.DateTime, coins: Protocol.Coins)
    requires Utils.ValidDateTime(now)
    requires Cli.Strip(message) == message && Cli.Strip(unlockDate) == unlockDate
    requires message != "" && Utils.ValidateDate(unlockDate) && Storage.LoadKeys(st).Some?
    ensures CreateCapsule(p, st, Some(message), Some(unlockDate), today, now, coins)
      == Cli.CreateCapsule(p, st, message, unlockDate, today, now, coins)
  {
  }
}
