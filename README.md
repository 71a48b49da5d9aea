# trutalk shared utilities and request validators, in Dafny

This project models the two pure modules of the trutalk `shared` package
(`packages/shared/src`).

- `packages/shared/src/utils.ts` holds small helpers:
  - cutting a call transcript down to an "echo" summary of its first words;
  - formatting a call length as `m:ss`;
  - deciding whether a user's daily call streak is still alive;
  - deriving a referral code from a user id;
  - masking a phone number for display;
  - turning a language code into a language name;
  - turning a thrown error into the JSON error response of the API.
- `packages/shared/src/validators.ts` holds the zod schemas that request
  bodies must satisfy.

Everything is modelled as Dafny functions, predicates and lemmas, because the
source does no in-place updates.

The modules are:

- `Wrappers`: `Option`, which stands for JavaScript's `undefined`/`null` where
  the source uses them.
- `Strings`: the JavaScript string operations the utilities rely on:
  - `split(' ')` and `join(' ')`, proved to be inverse to each other;
  - `Number.prototype.toString` on naturals, with a reading-back function
    proved to invert it;
  - `padStart`, `slice(0, n)`, and `toUpperCase` on ASCII letters.
- `Base64`: what `Buffer.from(s).toString('base64')` computes. Strings are
  encoded as UTF-8, then with the padded Base 64 encoding of section 4 of
  RFC 4648. A decoder is proved to invert the encoder.
- `Types`: the `LANGUAGES` table of `packages/shared/src/types.ts`.
- `Utils`: the functions of `utils.ts`.
- `Regex`: the small fragment of anchored JavaScript regular expressions that
  the phone-number rule uses, as a backtracking matcher.
- `Zod`: the zod schema constructors the validators use, as a datatype, plus
  an `Accepts` predicate saying when `schema.safeParse(value).success` holds.
  Request bodies are JSON values, and a missing key is `undefined`.
- `Validators`: each schema of `validators.ts` built as a zod schema value.
  Beside it sits a direct statement of its accept/reject boundary, with a
  lemma that the two agree on every value.

Some things are parameters rather than definitions:

- zod's `uuid()` and `url()` recognisers are a `Recognisers` argument, so
  every validator result holds whatever those recognisers accept.
- `isStreakActive` receives the current time and the `new Date(…)` parser as
  arguments, both in milliseconds.

The model shows that `generateReferralCode` does not give "unique" codes.
Base 64 turns every 3 bytes into 4 characters, and the code keeps 8
characters. So two ids that agree on their first six bytes get the same code:
`user-1001` and `user-1002`, for example.

## Model

| member | source | states |
|---|---|---|
| `Utils.EchoSummary` | packages/shared/src/utils.ts:11-15 | The summary is a prefix of the transcript. It is empty for a limit of 0, and it is the whole transcript when the transcript has at most `maxWords` space-separated pieces. |
| `Utils.EchoSummaryDefault` | packages/shared/src/utils.ts:11 | With no limit given (5 words), the summary is a prefix of the transcript, and the whole transcript when it has at most five pieces. |
| `Utils.EchoSummaryWords` | packages/shared/src/utils.ts:13-14 | For a limit k ≥ 1, splitting the summary on spaces gives exactly the first min(k, n) pieces of the transcript. |
| `Utils.EchoSummaryIdempotent` | packages/shared/src/utils.ts:13-14 | Summarising a summary with the same limit returns it unchanged. |
| `Strings.JoinSplit` | packages/shared/src/utils.ts:13-14 | Joining the pieces of `split(' ')` with single spaces gives back the original string. |
| `Strings.SplitJoin` | packages/shared/src/utils.ts:13-14 | Splitting a space-join of space-free words gives back those words. |
| `Strings.DigitsValueOfNatToString` | packages/shared/src/utils.ts:20 | The decimal numeral that `toString` produces for a natural reads back as that natural. |
| `Utils.PadTwo` | packages/shared/src/utils.ts:19-20 | `secs.toString().padStart(2, '0')` for a value below 100 is exactly two digits whose value is that number. |
| `Utils.FormatDuration` | packages/shared/src/utils.ts:17-21 | The result is the minute numeral (no leading zero, value `seconds / 60`), a colon, and two digits whose value is `seconds % 60`. |
| `Utils.ParseFormatDuration` | packages/shared/src/utils.ts:17-21 | Reading a formatted duration back as `m:ss` gives the original number of seconds, so no two durations format alike. |
| `Utils.IsStreakActive` | packages/shared/src/utils.ts:23-29 | The result is false when the date is null, empty or unparseable. Otherwise it is true exactly when less than two full days (2 × 86 400 000 ms) have passed since the last call, i.e. when the elapsed days rounded down are at most 1. |
| `Utils.StreakActiveForFutureDate` | packages/shared/src/utils.ts:27-28 | A last call dated at or after the current time keeps the streak active. |
| `Utils.StreakMonotone` | packages/shared/src/utils.ts:27-28 | A streak active at some time is active at every earlier time. |
| `Base64.Utf8` | packages/shared/src/utils.ts:46 | `Buffer.from(s)` produces at least one byte per character, and exactly the character codes for ASCII text. |
| `Base64.Encode` | packages/shared/src/utils.ts:46 | The padded encoding of n bytes has 4·⌈n/3⌉ characters. |
| `Base64.DecodeEncode` | packages/shared/src/utils.ts:46 | Decoding the encoding of any bytes gives those bytes back, so the encoding loses nothing. |
| `Base64.EncodeChars` | packages/shared/src/utils.ts:46 | Every character of an encoding is a letter, a digit, `+`, `/` or `=`. |
| `Base64.EncodeRfcExamplesShort` | packages/shared/src/utils.ts:46 | The encoder gives the example encodings of section 10 of RFC 4648 for the bytes of "", "f", "fo" and "foo": "", "Zg==", "Zm8=", "Zm9v". |
| `Base64.EncodeRfcExamplesLong` | packages/shared/src/utils.ts:46 | The encoder gives the example encodings of section 10 of RFC 4648 for the bytes of "foob", "fooba" and "foobar": "Zm9vYg==", "Zm9vYmE=", "Zm9vYmFy". |
| `Base64.Utf8Foobar` | packages/shared/src/utils.ts:46 | `Buffer.from("foobar")` is the bytes 102 111 111 98 97 114. |
| `Base64.EncodePrefix` | packages/shared/src/utils.ts:46 | The first 4k characters of an encoding depend only on the first 3k bytes. |
| `Utils.ReferralCode` | packages/shared/src/utils.ts:44-47 | The code has min(8, 4·⌈n/3⌉) characters for an id of n UTF-8 bytes, all of them upper-case letters, digits, `+`, `/` or `=`. |
| `Utils.ReferralCodeFirstSixBytes` | packages/shared/src/utils.ts:44-47 | Ids whose UTF-8 encodings share their first six bytes get the same code. |
| `Utils.ReferralCodeAsciiCollision` | packages/shared/src/utils.ts:44-47 | ASCII ids that share their first six characters get the same code. |
| `Utils.ReferralCodeExample` | packages/shared/src/utils.ts:46 | The id `user-1001` gets the code `DXNLCI0X`. |
| `Utils.ReferralCodeNotUnique` | packages/shared/src/utils.ts:45-46 | The distinct ids `user-1001` and `user-1002` get the same code, although the code is meant to be unique. |
| `Utils.MaskPhoneNumber` | packages/shared/src/utils.ts:49-53 | The length is kept. Inputs shorter than 8 characters are returned unchanged. Otherwise the three characters starting six from the end become `*` and every other character is kept. |
| `Utils.MaskPhoneNumberIdempotent` | packages/shared/src/utils.ts:49-53 | Masking a masked number changes nothing. |
| `Utils.MaskPhoneNumberExample` | packages/shared/src/utils.ts:50-52 | `+1234567890` becomes `+1234***890`. |
| `Utils.DetectLanguage` | packages/shared/src/utils.ts:55-72 | The result differs from the code exactly when the code is one of the twelve listed, and then it is the name listed for that code; an unlisted code is returned unchanged. |
| `Utils.LanguageNamesAreSupported` | packages/shared/src/types.ts:266-288 | Every code that gets a name is a supported language whose `LANGUAGES` entry has that same name. |
| `Utils.DetectLanguageIdempotent` | packages/shared/src/utils.ts:55-72 | Looking up a result again returns it unchanged, because no language name is a listed code. |
| `Utils.CreateErrorResponse` | packages/shared/src/utils.ts:81-95 | The response is never a success. For an `APIError`, its message, code and status are passed through. Anything else becomes status 500 with `Internal server error` and no code. |
| `Utils.CreateErrorResponseKeepsAPIError` | packages/shared/src/utils.ts:82-89 | Two `APIError`s with the same response are the same error: nothing they carry is lost. |
| `Utils.CreateErrorResponseHidesOtherErrors` | packages/shared/src/utils.ts:90-94 | Every error that is not an `APIError` gets the same response, so nothing about it leaks. |
| `Regex.RepeatMatch` | packages/shared/src/validators.ts:4 | A class repeated lo to hi times (`\d{1,14}`) fully matches exactly the strings of lo to hi characters from that class. |
| `Validators.PhonePatternMatches` | packages/shared/src/validators.ts:4 | `^\+[1-9]\d{1,14}$` matches exactly the strings made of `+`, a digit 1-9, and 1 to 14 more digits (3 to 16 characters in all). |
| `Validators.PhoneNumberSchemaAccepts` | packages/shared/src/validators.ts:4 | `phoneNumberSchema` accepts a value exactly when it is a string of that form. |
| `Validators.VerifyPhoneSchemaAccepts` | packages/shared/src/validators.ts:6-9 | Accepted exactly when `phone_number` is a valid phone number and `verification_code`, if present, is a string of exactly 6 characters. |
| `Validators.VerifyPhoneRefusesNullCode` | packages/shared/src/validators.ts:8 | A missing verification code is accepted, but an explicit `null` one is refused. |
| `Validators.TranscribeSchemaAccepts` | packages/shared/src/validators.ts:11-14 | Accepted exactly when `voice_clip_id` is a UUID string and `audio_url` a URL string. |
| `Validators.VectorizeSchemaAccepts` | packages/shared/src/validators.ts:16-19 | Accepted exactly when `voice_clip_id` is a UUID string and `transcription` a string of 1 to 5000 characters. |
| `Validators.FindMatchSchemaAccepts` | packages/shared/src/validators.ts:21-24 | Accepted exactly when `user_id` and `voice_clip_id` are UUID strings. |
| `Validators.StartCallSchemaAccepts` | packages/shared/src/validators.ts:26-29 | Accepted exactly when `match_id` and `user_id` are UUID strings. |
| `Validators.CreateEchoSchemaAccepts` | packages/shared/src/validators.ts:31-36 | Accepted exactly when: `call_id` and `user_id` are UUID strings; `summary` is a string of 1 to 100 characters; `full_transcript`, if present, is any string. |
| `Validators.CreateForumPostSchemaAccepts` | packages/shared/src/validators.ts:38-43 | Accepted exactly when: `user_id` is a UUID string; `title` has 5 to 200 characters; `body` has 10 to 10000; `category` is one of tips, stories, support, feedback. |
| `Validators.UpdateUserProfileSchemaAccepts` | packages/shared/src/validators.ts:45-51 | Accepted exactly when each field that is present obeys its rule: `display_name` 2 to 50 characters; `bio` at most 500; `age` a whole number from 18 to 120; `gender` one of four values; `preferred_languages` a non-empty array of strings. |
| `Validators.UpdateUserProfileAcceptsEmpty` | packages/shared/src/validators.ts:45-51 | The empty object is a valid profile update. |
| `Validators.UpdateUserProfileAgeIsWhole` | packages/shared/src/validators.ts:48 | An age of 30 is accepted and an age of 30.5 is refused. |

## Left out

- `calculateSimilarity` (packages/shared/src/utils.ts:3-9) and `calculateLTV` (packages/shared/src/utils.ts:31-42) compute with IEEE floating point and `Math.sqrt`. They are not modelled.
- `packages/shared/src/types.ts` only declares shapes and constants. Only its `LANGUAGES` table is used, to relate it to the language lookup.
- The Twilio client, the React pages and the Jest configuration are outside this model.
- Utils.IsStreakActive: the clock (`new Date()`) and date parsing (`new Date(s)`) are parameters, not definitions. An unparseable date yields `NaN` in the source, and the model represents it by a missing value; both make the check false.
- Utils.FormatDuration: only natural-number seconds are modelled. Negative or fractional seconds use JavaScript's truncating `%` and the floating-point `toString`. Numbers above 2^53, and `toString`'s exponent notation from 1e21, are not modelled either.
- Utils.MaskPhoneNumber: lengths and positions count Dafny characters (Unicode scalar values), whereas `length` and `slice` in JavaScript count UTF-16 code units. The two differ for strings with characters above U+FFFF, and the source can then cut a surrogate pair, which a Dafny string cannot hold. Phone numbers that pass the phone rule are ASCII, where the two agree.
- Utils.EchoSummary: the limit is a natural. A negative `maxWords` makes `slice(0, -k)` drop words from the end, and that is not modelled.
- Utils.DetectLanguage: keys inherited from `Object.prototype` (such as `"toString"`) are treated as unknown codes. In the source the plain-object lookup would find them.
- Base64.Utf8: Dafny strings hold Unicode scalar values. JavaScript strings are UTF-16, and `Buffer.from` turns a lone surrogate into U+FFFD; that case is not modelled.
- Strings.UpperCase: only ASCII letters are upper-cased. A Base 64 encoding contains no other letters, so referral codes are unaffected.
- Zod.Accepts: string lengths count Dafny characters, whereas zod counts UTF-16 code units, so they differ above U+FFFF. Only success or failure is modelled, not the parsed output (which drops unknown keys) or the error messages.
- Zod.Recognisers: the UUID and URL recognisers of zod are parameters. What they accept is not spelled out.
- Utils.CreateErrorResponse: an `APIError` without a code gives `code: undefined` in the source's response object. The model writes it as an absent `Option` value.
