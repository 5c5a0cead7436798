/** The command-line front-end: the create, decrypt and verify menu options.
    Console input is a parameter: the typed message and date as text, and the
    capsule number as the integer `int()` parsed, or `None` when `int()`
    raised `ValueError`. */
module Cli {
  import opened Wrappers
  import opened Primitives
  import opened Records
  import Utils
  import Storage
  import Protocol
  import Pqc

  /** `str.isspace()` for one character: the characters Python strips. */
  predicate IsSpace(c: char)
  {
    || '\t' <= c <= '\r' || '\U{1c}' <= c <= ' ' || c == '\U{85}' || c == '\U{a0}' || c == '\U{1680}'
    || '\U{2000}' <= c <= '\U{200a}' || c == '\U{2028}' || c == '\U{2029}' || c == '\U{202f}'
    || c == '\U{205f}' || c == '\U{3000}'
  }

  /** Leading whitespace removed. */
  function TrimStart(s: string): (r: string)
    ensures |r| <= |s| && r == s[|s| - |r|..]
    ensures |r| == 0 || !IsSpace(r[0])
    ensures forall i | 0 <= i < |s| - |r| :: IsSpace(s[i])
    decreases |s|
  {
    if |s| > 0 && IsSpace(s[0]) then TrimStart(s[1..]) else s
  }

  /** Trailing whitespace removed. */
  function TrimEnd(s: string): (r: string)
    ensures |r| <= |s| && r == s[..|r|]
    ensures |r| == 0 || !IsSpace(r[|r| - 1])
    ensures forall i | |r| <= i < |s| :: IsSpace(s[i])
    decreases |s|
  {
    if |s| > 0 && IsSpace(s[|s| - 1]) then TrimEnd(s[..|s| - 1]) else s
  }

  /** `r` is the slice of `s` starting at `i`, and everything outside it is whitespace. */
  predicate TrimmedAt(s: string, r: string, i: int)
  {
    && 0 <= i <= |s| - |r| && r == s[i..i + |r|]
    && (forall k | 0 <= k < i :: IsSpace(s[k]))
    && (forall k | i + |r| <= k < |s| :: IsSpace(s[k]))
  }

  lemma TrimBoth(s: string, t: string, r: string)
    requires |t| <= |s| && t == s[|s| - |t|..] && forall k | 0 <= k < |s| - |t| :: IsSpace(s[k])
    requires |r| <= |t| && r == t[..|r|] && forall k | |r| <= k < |t| :: IsSpace(t[k])
    ensures TrimmedAt(s, r, |s| - |t|)
  {
    var i := |s| - |t|;
    forall k | i + |r| <= k < |s|
      ensures IsSpace(s[k])
    {
      assert s[k] == t[k - i];
    }
    assert r == s[i..i + |r|];
  }

  lemma TrimmedEmpty(s: string, r: string, i: int)
    requires TrimmedAt(s, r, i) && (|r| == 0 || !IsSpace(r[0]))
    ensures |r| == 0 <==> forall k | 0 <= k < |s| :: IsSpace(s[k])
  {
    if |r| > 0 {
      assert s[i] == r[0];
    }
  }

  /** `s.strip()`: a slice of `s` that neither starts nor ends with whitespace,
      with only whitespace cut off; empty exactly when `s` is all whitespace. */
  function Strip(s: string): (r: string)
    ensures |r| == 0 || (!IsSpace(r[0]) && !IsSpace(r[|r| - 1]))
    ensures exists i :: TrimmedAt(s, r, i)
    ensures |r| == 0 <==> forall k | 0 <= k < |s| :: IsSpace(s[k])
  {
    var t := TrimStart(s);
    var r := TrimEnd(t);
    TrimBoth(s, t, r);
    assert |r| > 0 ==> r[0] == t[0];
    TrimmedEmpty(s, r, |s| - |t|);
    r
  }

  /** `create_capsule_option()`: the key file is checked first, then the
      stripped message, then the stripped date; then a warning when the date
      has passed, sealing, and saving. */
  function CreateCapsule(p: Provider, st: Storage.Store, message: string, unlockDate: string,
                         today: Utils.Date, now: Utils.DateTime, coins: Protocol.Coins): (r: (Storage.Store, Protocol.Creation))
    requires Utils.ValidDateTime(now)
    ensures !r.1.Created? ==> r.0 == st
    ensures Storage.LoadKeys(st).None? <==> r.1 == Protocol.NoKeys
    ensures r.1 == Protocol.EmptyMessage <==> Storage.LoadKeys(st).Some? && Strip(message) == ""
    ensures r.1 == Protocol.InvalidDate <==>
      Storage.LoadKeys(st).Some? && Strip(message) != "" && !Utils.ValidateDate(Strip(unlockDate))
    ensures r.1.Created? || r.1.Failed? ==>
      r == Protocol.SealAndSave(p, st, Storage.LoadKeys(st).value, Strip(message), Strip(unlockDate), today, now, coins)
    ensures !r.1.DateNotText?
  {
    match Storage.LoadKeys(st)
    case None => (st, Protocol.NoKeys)
    case Some(keys) =>
      var m := Strip(message);
      if m == "" then (st, Protocol.EmptyMessage)
      else
        var d := Strip(unlockDate);
        if !Utils.ValidateDate(d) then (st, Protocol.InvalidDate)
        else Protocol.SealAndSave(p, st, keys, m, d, today, now, coins)
  }

  /** Why decrypt or verify stopped before reaching a capsule. */
  datatype Refusal = NoCapsules | InvalidInput | InvalidChoice | NotFound

  /** The selection shared by decrypt and verify: an empty listing is reported
      before any number is read; the number must be 1 to the listing's length
      and selects the listed timestamp at that position; the capsule and the
      key file must then both exist. */
  function Select(st: Storage.Store, entered: Option<int>): (r: Result<(Capsule, KeyBundle), Refusal>)
    ensures |Storage.ListCapsules(st)| == 0 <==> r == Failure(NoCapsules)
    ensures r == Failure(InvalidInput) <==> |Storage.ListCapsules(st)| > 0 && entered.None?
    ensures r == Failure(InvalidChoice) <==>
      |Storage.ListCapsules(st)| > 0 && entered.Some? && !(1 <= entered.value <= |Storage.ListCapsules(st)|)
    ensures r.Success? ==>
      && entered.Some? && 1 <= entered.value <= |Storage.ListCapsules(st)|
      && Storage.LoadCapsule(st, Storage.ListCapsules(st)[entered.value - 1]) == Some(r.value.0)
      && Storage.LoadKeys(st) == Some(r.value.1)
  {
    var capsules := Storage.ListCapsules(st);
    if |capsules| == 0 then Failure(NoCapsules)
    else if entered.None? then Failure(InvalidInput)
    else
      var choice := entered.value - 1;
      if choice < 0 || choice >= |capsules| then Failure(InvalidChoice)
      else
        match Protocol.Selected(st, choice)
        case None => Failure(NotFound)
        case Some(found) => Success(found)
  }

  datatype Decryption = DecryptRefused(refusal: Refusal) | Decrypted(opening: Protocol.Opening)

  /** `decrypt_capsule_option()`: selection, then the gated opening. A
      `VerifyRaised` opening is the exception that reaches the menu loop's
      "Unexpected error" handler. */
  function DecryptCapsule(p: Provider, st: Storage.Store, entered: Option<int>, today: Utils.Date): (r: Decryption)
    ensures r.DecryptRefused? <==> Select(st, entered).Failure?
    ensures r.DecryptRefused? ==> r.refusal == Select(st, entered).error
    ensures r.Decrypted? ==> var (c, keys) := Select(st, entered).value; r.opening == Protocol.Open(p, c, keys, today)
  {
    match Select(st, entered)
    case Failure(e) => DecryptRefused(e)
    case Success((c, keys)) => Decrypted(Protocol.Open(p, c, keys, today))
  }

  datatype Verification = VerifyRefused(refusal: Refusal) | Verified(result: Result<bool, CryptoError>)

  /** `verify_capsule_option()`: selection, then the signature check alone; the
      unlock date is not consulted. A `Failure` result is the exception that
      reaches the menu loop's handler. */
  function VerifyCapsule(p: Provider, st: Storage.Store, entered: Option<int>): (r: Verification)
    ensures r.VerifyRefused? <==> Select(st, entered).Failure?
    ensures r.VerifyRefused? ==> r.refusal == Select(st, entered).error
    ensures r.Verified? ==> var (c, keys) := Select(st, entered).value; r.result == Protocol.Check(p, c, keys)
  {
    match Select(st, entered)
    case Failure(e) => VerifyRefused(e)
    case Success((c, keys)) => Verified(Protocol.Check(p, c, keys))
  }

  /** The number shown in the listing selects the capsule shown beside it. */
  lemma ShownNumberSelects(st: Storage.Store, today: Utils.Date, k: int)
    requires 0 <= k < |Protocol.Listing(st, today)|
    requires Storage.LoadKeys(st).Some?
    ensures var e := Protocol.Listing(st, today)[k];
      Select(st, Some(e.number)) == Success((Storage.LoadCapsule(st, e.timestamp).value, Storage.LoadKeys(st).value))
  {
  }

  /** Once the key file exists and both inputs pass validation, create saves
      exactly the sealed capsule. */
  lemma CreateValid(p: Provider, st: Storage.Store, keys: KeyBundle, message: string, unlockDate: string,
                    today: Utils.Date, now: Utils.DateTime, coins: Protocol.Coins)
    requires Utils.ValidDateTime(now)
    requires Storage.LoadKeys(st) == Some(keys)
    requires Strip(message) != "" && Utils.ValidateDate(Strip(unlockDate))
    requires Protocol.Seal(p, keys, Strip(message), Strip(unlockDate), now, coins).Success?
    ensures var c := Protocol.Seal(p, keys, Strip(message), Strip(unlockDate), now, coins).value;
      CreateCapsule(p, st, message, unlockDate, today, now, coins)
        == (Storage.SaveCapsule(st, c), Protocol.Created(c, Utils.IsUnlocked(Strip(unlockDate), today)))
  {
  }

  /** Choosing the number of a listed timestamp opens the capsule stored under it. */
  lemma DecryptListed(p: Provider, st: Storage.Store, keys: KeyBundle, c: Capsule, k: int, today: Utils.Date)
    requires Storage.LoadKeys(st) == Some(keys)
    requires 0 <= k < |Storage.ListCapsules(st)| && Storage.LoadCapsule(st, Storage.ListCapsules(st)[k]) == Some(c)
    ensures DecryptCapsule(p, st, Some(k + 1), today) == Decrypted(Protocol.Open(p, c, keys, today))
  {
  }

  /** End to end: with freshly generated keys, a message created with a valid
      date is listed, and choosing its number on or after the unlock date
      decrypts to the stripped message. */
  lemma CreateThenDecrypt(p: Provider, st: Storage.Store, kemCoins: seq<byte>, sigCoins: seq<byte>,
                          message: string, unlockDate: string, today: Utils.Date, now: Utils.DateTime,
                          coins: Protocol.Coins, later: Utils.Date)
    requires Sound(p) && Utils.ValidDateTime(now)
    requires Strip(message) != "" && Utils.ValidateDate(Strip(unlockDate))
    requires Utils.IsUnlocked(Strip(unlockDate), later)
    ensures var st1 := Protocol.GenerateAndSave(p, st, kemCoins, sigCoins);
      var r := CreateCapsule(p, st1, message, unlockDate, today, now, coins);
      && r.1.Created?
      && r.1.capsule.timestamp in Storage.ListCapsules(r.0)
      && forall k | 0 <= k < |Storage.ListCapsules(r.0)| && Storage.ListCapsules(r.0)[k] == r.1.capsule.timestamp ::
           DecryptCapsule(p, r.0, Some(k + 1), later) == Decrypted(Protocol.Opened(Strip(message)))
  {
    var st1 := Protocol.GenerateAndSave(p, st, kemCoins, sigCoins);
    var keys := Pqc.GenerateKeys(p, kemCoins, sigCoins);
    var m, d := Strip(message), Strip(unlockDate);
    Protocol.OpenSeal(p, kemCoins, sigCoins, m, d, now, coins, later);
    var c := Protocol.Seal(p, keys, m, d, now, coins).value;
    CreateValid(p, st1, keys, message, unlockDate, today, now, coins);
    var st2 := Storage.SaveCapsule(st1, c);
    assert CreateCapsule(p, st1, message, unlockDate, today, now, coins) == (st2, Protocol.Created(c, Utils.IsUnlocked(d, today)));
    Storage.ListedAfterSave(st1, c);
    forall k | 0 <= k < |Storage.ListCapsules(st2)| && Storage.ListCapsules(st2)[k] == c.timestamp
      ensures DecryptCapsule(p, st2, Some(k + 1), later) == Decrypted(Protocol.Opened(m))
    {
      DecryptListed(p, st2, keys, c, k, later);
    }
  }
}
