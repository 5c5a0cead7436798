# Quantum time capsule: a Dafny model

This project models the quantum-safe digital time capsule. A user:

1. generates a key bundle;
2. seals a message into a capsule that may be opened from an unlock date on;
3. later decrypts it, or checks its signature on its own.

The model covers the protocol's three layers.

**Helpers: `Utils`**
- The time lock (`is_unlocked`).
- Date validation (`validate_date`).
- The creation timestamp (`get_current_timestamp`).

**Crypto wrappers: `Pqc` and `Aes`**
- Key generation, encapsulation of a fresh 32-byte AES key under an RSA-OAEP key, and ECDSA signing and verification.
- Fernet encryption with an outer URL-safe base64 layer.
- The foreign primitives are function values held in `Primitives.Provider`.
- `Primitives.Sound` states what the primitives are assumed to do: decapsulation inverts encapsulation, Fernet decryption inverts encryption, and a generated key's signature verifies over the signed data.
- `Sound` also assumes an idealised signature that verifies over nothing but the signed data (`Primitives.SigBinding`). ECDSA's documentation does not promise this in that form. It is an assumption made for the tamper lemmas `Pqc.SignatureBinding` and `Protocol.TamperDetected`.
- What is concrete is everything the program itself does around them:
  - base64 (sections 4 and 5 of RFC 4648, `Base64`);
  - UTF-8 (RFC 3629, `Utf8`);
  - the order in which keys and texts are decoded, and which failures raise.

**JSON file store: `Storage`**
- One key file, plus a directory of `capsule_<timestamp>.json` files.
- The file system is a value. Listing is `sorted()` over Python's string order (`StrOrder`).

`Protocol` states, once, the sealing, the gated opening (lock, then signature, then decapsulation and decryption), the signature check and the numbered listing.

The three front-ends repeat this logic with their own input handling, and each is modelled separately:

| | Module | Input checks | Selecting a capsule |
|---|---|---|---|
| Console menu | `Cli` | Strips its inputs. Checks the key file, then the message, then the date. | Typed 1-based number. |
| Windowed app | `Gui` | No stripping. Checks the message, then the date, then the key file. | Checked 1-based choice. |
| HTTP API | `Api` | No stripping. Checks the message, then the date, then the key file. Gives no warning. | 0-based index, where a JSON boolean passes as an integer. |

Lemmas relate each front-end to the protocol and to the others.

Inputs the program reads from the environment are parameters instead:
- the clock: `today`, `now`;
- the randomness one creation consumes: `Protocol.Coins`;
- the typed or posted inputs.

Where the docstrings and the code differ, the model follows the code. The docstrings of `verify_signature` and `validate_date` promise a bool, but:
- `verify_signature` decodes the key and the signature outside its `try`. A malformed encoding therefore raises instead of returning `False`.
- Decrypt calls it outside its own handler, so such an error escapes. This is `Protocol.VerifyRaised`, and `Uncaught` in the API.
- Validation is not uniform. The API and the windowed app do not strip their inputs. The windowed app's cancelled date dialog, and the API's non-text date, make `validate_date` raise `TypeError` instead of returning `False`.

## Model

| member | source | states |
|---|---|---|
| Utils.ParseIsoDate | quantum_time_capsule/utils.py:22 | a text parses only to a real calendar date whose `YYYY-MM-DD` rendering is that very text |
| Utils.ParseFormat | quantum_time_capsule/utils.py:63 | every real date is read back from its own ISO text |
| Utils.ValidateDateExactly | quantum_time_capsule/utils.py:52-66 | `validate_date` accepts exactly the ISO texts of real dates (months 1-12, days within the month, years 1-9999) |
| Utils.LeapDay | quantum_time_capsule/utils.py:62-66 | February 29 of a year is accepted exactly when the year is a leap year |
| Utils.FormExamples | quantum_time_capsule/utils.py:62-66 | unpadded fields, other separators, the empty text, surrounding blanks and date-times are rejected |
| Utils.ValidDateHasNoDelimiter | quantum_time_capsule/utils.py:52-66 | a text that passes validation contains no pipe character |
| Utils.UnlockedExactly | quantum_time_capsule/utils.py:21-24 | for a real date, unlocked exactly when today is on or after it |
| Utils.UnlockedOnTheDay | quantum_time_capsule/utils.py:24 | a capsule is already unlocked on its unlock day (the comparison is `>=`) |
| Utils.FailClosed | quantum_time_capsule/utils.py:25-26 | text that does not parse is never unlocked |
| Utils.UnlockedIsValid | quantum_time_capsule/utils.py:22 | whatever is unlocked also passes `validate_date`: both use the same parser |
| Utils.UnlockedMonotone | quantum_time_capsule/utils.py:24 | once unlocked, unlocked on every later day |
| Utils.ReplaceColons | quantum_time_capsule/utils.py:36 | same length, no `:` left, every `:` became `-` and every other character is kept |
| Utils.CurrentTimestampIsRender | quantum_time_capsule/utils.py:29-36 | the timestamp is the ISO date-time with `-` between the time fields, `.ffffff` only when microseconds are non-zero |
| Utils.TimestampOrder | quantum_time_capsule/utils.py:36 | an earlier instant gives a timestamp that sorts strictly first, including against a whole second with no fraction |
| Utils.TimestampInjective | quantum_time_capsule/utils.py:36 | distinct instants give distinct timestamps |
| Utils.TimestampCharacters | quantum_time_capsule/utils.py:36 | a timestamp holds only digits, `-`, `T` and `.` |
| Utils.TimestampUndelimited | quantum_time_capsule/utils.py:36 | a timestamp never contains the metadata delimiter, the pipe character |
| StrOrder.SortedElements | quantum_time_capsule/storage_module.py:93 | `sorted()` of distinct strings: strictly ascending, holding each element exactly once |
| Storage.TimestampOf | quantum_time_capsule/storage_module.py:90 | the `[8:-5]` slice of a capsule file name is the timestamp the name was built from |
| Storage.TimestampOfFileName | quantum_time_capsule/storage_module.py:89-90 | every name `save_capsule` writes passes the listing filter and slices back to its timestamp |
| Storage.FileNameInjective | quantum_time_capsule/storage_module.py:50 | distinct timestamps are stored in distinct files |
| Storage.SaveKeys | quantum_time_capsule/storage_module.py:16-38 | `load_keys` after `save_keys` returns that bundle; the capsule directory is untouched |
| Storage.SaveCapsule | quantum_time_capsule/storage_module.py:41-74 | `load_capsule` of the saved timestamp returns the capsule; every other timestamp and the key file load as before |
| Storage.ListCapsules | quantum_time_capsule/storage_module.py:77-93 | strictly ascending, and a timestamp is listed exactly when `load_capsule` finds it (nothing when the directory is missing) |
| Storage.ListedAfterSave | quantum_time_capsule/storage_module.py:41-93 | a saved capsule is listed afterwards, and so is everything listed before |
| Storage.LastWriteWins | quantum_time_capsule/storage_module.py:16-54 | after any sequence of writes, keys and each capsule file hold the last value written to them, or the initial one |
| Storage.ListingFollowsCreation | quantum_time_capsule/storage_module.py:93 | capsules stamped at an earlier instant are listed before later ones |
| Base64.Encode | quantum_time_capsule/pqc_module.py:93 | the output is standard-alphabet text of length 4 * ceil(n / 3) |
| Base64.DecodeEncode | quantum_time_capsule/pqc_module.py:110-114 | standard decoding recovers the bytes from their encoding |
| Base64.UrlEncode | quantum_time_capsule/aes_module.py:34 | the output is URL-safe text of the standard length |
| Base64.UrlDecodeUrlEncode | quantum_time_capsule/aes_module.py:49 | URL-safe decoding recovers the bytes from their URL-safe encoding |
| Base64.UrlDecodeStdEncode | quantum_time_capsule/aes_module.py:32 | URL-safe decoding also recovers bytes from their standard encoding |
| Base64.EncodeCanonical | quantum_time_capsule/pqc_module.py:93 | everything the encoder writes decodes and has zero pad bits |
| Base64.EncodeDecode | quantum_time_capsule/pqc_module.py:110-114 | re-encoding the decoding of decodable text with zero pad bits gives back the same text |
| Base64.CanonicalUnique | quantum_time_capsule/pqc_module.py:164-167 | two decodable texts with zero pad bits and the same decoding are the same text |
| Base64.UrlEncodeCanonical | quantum_time_capsule/aes_module.py:34 | everything the URL-safe encoder writes is URL-safe text whose translation decodes with zero pad bits |
| Base64.UrlCanonicalUnique | quantum_time_capsule/aes_module.py:49 | two such URL-safe texts with the same decoding are the same text |
| Base64.NoDelimiter | quantum_time_capsule/capsule_main.py:72 | neither base64 alphabet contains a pipe character |
| Utf8.DecodeEncode | quantum_time_capsule/aes_module.py:51 | decoding the UTF-8 encoding of any string gives it back |
| Utf8.EncodeDecode | quantum_time_capsule/aes_module.py:51 | bytes that decode are exactly the encoding of the decoded string |
| Utf8.EncodeInjective | quantum_time_capsule/pqc_module.py:170 | distinct strings have distinct UTF-8 encodings |
| Pqc.GenerateKeys | quantum_time_capsule/pqc_module.py:15-59 | the four fields are the canonical base64 texts of the two generated PEM key pairs (`Base64.CanonicalUnique` makes them the only such texts) |
| Pqc.EncapsulateKey | quantum_time_capsule/pqc_module.py:62-95 | an undecodable public key raises and a failed RSA encryption raises; succeeds exactly when neither happens; the first output is the canonical base64 text of the RSA ciphertext and the second that of the fresh 32 bytes |
| Pqc.DecapsulateKey | quantum_time_capsule/pqc_module.py:98-124 | the private key is decoded, then loaded, before the ciphertext is decoded, each failure raising; succeeds exactly when all three steps and the RSA decryption succeed, and the result is the canonical base64 text of the decrypted bytes |
| Pqc.SignData | quantum_time_capsule/pqc_module.py:127-148 | an undecodable key raises and a failed signing raises; succeeds exactly when neither happens; the result is the canonical base64 text of the signature over the data's UTF-8 bytes |
| Pqc.VerifySignature | quantum_time_capsule/pqc_module.py:151-173 | raises exactly when the key or signature does not decode or the key does not load; otherwise the answer is exactly whether the signature verifies over the data's UTF-8 bytes |
| Pqc.DecapsulateEncapsulate | quantum_time_capsule/pqc_module.py:62-124 | with generated keys, decapsulation returns the AES key text encapsulation returned |
| Pqc.VerifySign | quantum_time_capsule/pqc_module.py:127-173 | with generated keys, a signature verifies over the data it was made over |
| Pqc.SignatureBinding | quantum_time_capsule/pqc_module.py:169-173 | with generated keys, checking a signature against any data returns `False` rather than raising, unless the data is the signed data |
| Aes.FernetKey | quantum_time_capsule/aes_module.py:32 | a key is accepted exactly when it decodes, URL-safe, to 32 bytes |
| Aes.EncryptMessage | quantum_time_capsule/aes_module.py:21-34 | succeeds exactly for a valid key; the result is canonical URL-safe text that decodes to the Fernet token of the message's UTF-8 bytes |
| Aes.DecryptMessage | quantum_time_capsule/aes_module.py:37-51 | the key is checked, then the outer decoding, then the token (`InvalidToken`), then UTF-8; when all pass, the result is the decoded plaintext |
| Aes.DecryptEncrypt | quantum_time_capsule/aes_module.py:21-51 | under a valid key, decryption recovers the encrypted message |
| Aes.SharedSecretIsFernetKey | quantum_time_capsule/pqc_module.py:92-95 | the standard base64 text of the 32 fresh bytes is a valid Fernet key for exactly those bytes |
| Protocol.GenerateAndSave | quantum_time_capsule/capsule_main.py:27-35 | the key file holds the generated bundle; capsules are untouched |
| Protocol.Seal | quantum_time_capsule/capsule_main.py:63-84 | an encapsulation failure is the error raised; sealing succeeds exactly when encapsulation, encryption of the message under the encapsulated AES key, and signing of the metadata all succeed; the capsule carries the current timestamp, the unlock date, the encapsulated key and the encryption of the message, its signature is the signature of its own metadata, and its encoded fields hold no pipe character |
| Protocol.SealAndSave | quantum_time_capsule/capsule_main.py:58-90 | warns exactly when the date has already come; saves exactly the sealed capsule, and writes nothing when sealing raises |
| Protocol.Unseal | quantum_time_capsule/capsule_main.py:145-150 | a decapsulation failure is the error raised; succeeds exactly when decapsulation and decryption under the decapsulated key both succeed, and then gives that decryption |
| Protocol.Open | quantum_time_capsule/capsule_main.py:134-157 | locked exactly when the lock has not expired; tampered, raising or decrypting exactly as the signature check turns out once unlocked; once verified, opened exactly when decapsulation and decryption succeed, with their message, and otherwise their error |
| Protocol.Listing | quantum_time_capsule/capsule_main.py:93-105 | row k shows number k+1, the k-th listed timestamp, its unlock date, and "unlocked" exactly when the lock has expired |
| Protocol.Selected | quantum_time_capsule/capsule_main.py:126-132 | a selection is found exactly when the key file exists, and it is the capsule stored under the chosen timestamp with the stored key bundle |
| Protocol.MetadataInjective | quantum_time_capsule/capsule_main.py:72 | when the original fields hold no pipe character, only the same four fields produce the same metadata |
| Protocol.SealSucceeds | quantum_time_capsule/capsule_main.py:63-86 | with a generated bundle, sealing does not raise |
| Protocol.CheckSealed | quantum_time_capsule/capsule_main.py:160-190 | a sealed capsule verifies, whatever its unlock date |
| Protocol.OpenSeal | quantum_time_capsule/capsule_main.py:65-150 | once unlocked, a sealed capsule opens to the original message |
| Protocol.TamperDetected | quantum_time_capsule/capsule_main.py:140-143 | changing the timestamp, unlock date, ciphertext or encapsulated key of a sealed capsule makes verification return `False` |
| Cli.Strip | quantum_time_capsule/capsule_main.py:48 | only whitespace is cut, from both ends; empty exactly for all-whitespace input |
| Cli.CreateCapsule | quantum_time_capsule/capsule_main.py:38-90 | no keys, then an empty stripped message, then an invalid stripped date, each refused without writing; otherwise seal and save the stripped inputs |
| Cli.Select | quantum_time_capsule/capsule_main.py:108-132 | an empty listing first, then non-numeric input, then a number outside 1..len; a selection is the capsule listed at that number |
| Cli.DecryptCapsule | quantum_time_capsule/capsule_main.py:108-157 | refused exactly when selection fails, with selection's reason; otherwise the gated opening of the selected capsule |
| Cli.VerifyCapsule | quantum_time_capsule/capsule_main.py:160-190 | refused exactly when selection fails, with selection's reason; otherwise the signature check alone |
| Cli.ShownNumberSelects | quantum_time_capsule/capsule_main.py:101-127 | the number shown beside a listed capsule selects that capsule |
| Cli.CreateValid | quantum_time_capsule/capsule_main.py:38-90 | with keys and valid inputs, create saves exactly the sealed capsule and warns exactly when the date has come |
| Cli.DecryptListed | quantum_time_capsule/capsule_main.py:117-150 | choosing number k+1 opens the capsule stored under the k-th listed timestamp |
| Cli.CreateThenDecrypt | quantum_time_capsule/capsule_main.py:38-157 | after generating keys, a created capsule is listed and decrypts to the stripped message once unlocked |
| Gui.CreateCapsule | quantum_time_capsule/gui_main.py:68-108 | empty or cancelled message, then a cancelled date (which raises), then an invalid date, then no keys; otherwise seal and save the inputs as typed |
| Gui.Select | quantum_time_capsule/gui_main.py:124-144 | an empty listing first, then a missing or out-of-range choice; a selection is the capsule at position choice-1 |
| Gui.DecryptCapsule | quantum_time_capsule/gui_main.py:124-162 | refused exactly when selection fails, with selection's reason; otherwise the gated opening |
| Gui.VerifyCapsule | quantum_time_capsule/gui_main.py:164-190 | refused exactly when selection fails, with selection's reason; otherwise the signature check alone |
| Gui.SelectAgreesWithCli | quantum_time_capsule/gui_main.py:133-138 | a choice and the same typed console number select the same capsule, and fail to find one together |
| Gui.DecryptAgreesWithCli | quantum_time_capsule/gui_main.py:124-162 | decrypting the same number gives the same opening in both front-ends |
| Gui.CreateAgreesWithCli | quantum_time_capsule/gui_main.py:68-108 | on already-stripped valid inputs with keys present, both front-ends create the same capsule and store |
| Api.AsIndex | quantum_time_capsule/api.py:90 | an index passes the integer check exactly for JSON integers and booleans |
| Api.CreateCapsule | quantum_time_capsule/api.py:27-65 | falsy message, then non-text date (escapes), then invalid date, then no keys, none writing; for text inputs that pass, the reply is the sealed capsule, saved, or the sealing error as a 500 |
| Api.ListCapsules | quantum_time_capsule/api.py:67-83 | one element per listed timestamp, in order, with status "unlocked" exactly when the lock has expired and "locked" otherwise |
| Api.Select | quantum_time_capsule/api.py:85-102 | a non-integer index, then one outside [0, len), is rejected; a selection is the capsule listed at that index |
| Api.DecryptCapsule | quantum_time_capsule/api.py:85-121 | each gate of the opening maps to its reply: locked and tampered are 400, a raising check escapes, a decryption failure is 500 |
| Api.VerifyCapsule | quantum_time_capsule/api.py:123-149 | `verified` is the signature check's answer, whatever the lock |
| Api.DecryptedOnlyWhenVerified | quantum_time_capsule/api.py:104-119 | a successful decryption reports a verified signature and happens only once unlocked and verified |
| Api.CreateAgreesWithCli | quantum_time_capsule/api.py:27-65 | on valid inputs that stripping would not change, with keys present, the API saves the same store and returns the same capsule as the console |
| Api.SelectAgreesWithCli | quantum_time_capsule/api.py:90-97 | index i selects what console number i+1 selects |
| Api.BooleanIndex | quantum_time_capsule/api.py:90 | a JSON `true`/`false` index selects like 1/0 |
| Api.NoStripping | quantum_time_capsule/api.py:29-37 | a blank message passes the message check; a date with a leading blank is rejected |

## Left out

- I/O: the console, the Tk widgets, Flask routing, CORS, and the output texts are not modelled. Only each handler's outcome is.
- Real file I/O: `os.makedirs`, `open` and `json` are replaced by the `Storage.Store` value. The JSON typing of file contents is not modelled, and neither are a record with a missing field (a `KeyError`) or a key file holding an empty object.
- Path separators: a timestamp holding one would name a file in another directory. Timestamps made by the program never hold `/` (`Utils.TimestampCharacters`).
- `hash_data` and `generate_aes_key`: the core never calls them.
- The main menu loop: not modelled. Only its effect is recorded, namely that an exception raised by verification reaches its "Unexpected error" handler.
- Foreign primitives: the internals of RSA-OAEP, ECDSA/P-256 and Fernet are abstract. Nothing is assumed about keys from outside the program, such as wrong-key rejection or signature malleability.
- Randomness: `os.urandom`, OAEP padding, Fernet IVs and ECDSA nonces are parameters.
- Clock: `datetime.now` and `date.today` are parameters.
- Utils.IsUnlocked: reads `today` once per operation. The program calls `date.today()` afresh on each call, so a run straddling midnight could see two different days.
- Base64.Decode: accepts padded text only. Like `b64decode` it ignores the bits a padded final group leaves over, so `QR==` decodes like `QQ==`; `Base64.Canonical` names the texts whose leftover bits are zero, which are exactly the texts the encoder writes. Python's `b64decode` also discards characters outside the alphabet and ignores text after the padding. This matters for fields read back from the JSON files: a stored key or `signature` with a line break inserted, or junk appended after the `=`, still decodes in the program, so the signature can still verify. In the model the decode fails, so verification raises (`Protocol.VerifyRaised`, `Uncaught` in the API).
- Utils.ParseIsoDate: reads only the `YYYY-MM-DD` form. Python 3.11 and later also accept other ISO 8601 forms, such as `YYYYMMDD`.
- Utf8.Encode: strings are sequences of Unicode scalar values. Python strings may hold lone surrogates (for example a JSON `"\ud800"` posted to the create handler), and `.encode()` then raises `UnicodeEncodeError`. Such strings cannot be represented, so that error path is not modelled.
- Cli.Select: takes the result of `int()` as a parameter, `None` for `ValueError`. The parsing of the typed text is not modelled.
- HTTP request body: a body that is not a JSON object, which makes `data.get` raise, is not modelled.
- Concurrency: two creations in the same microsecond, and non-atomic writes of the key file, are left out of the sequential model.
