# NFC access confirmation: credential fetch and tag match

This project is a Dafny model of the logic behind an Android app that confirms site access with NFC tags.
A user logs in with a user id and a phone number. The app downloads a CSV record set over HTTPS. The
request carries a Basic Authorization header built from the two values. Later, when a tag is tapped, the
app turns the tag's hardware id into an upper-case hex serial. It then reports the first record that
lists that serial, ignoring case.

The repository contains two versions of the app, and both are modelled:

- **`com.hitachi.confirmnfc`** (newer). `LoginRepository.fetchCsv` makes up to three attempts. The view
  model takes the phone number from the user and shows a progress message while a login is running.
- **`com.example.nfcconfirm`** (older). The view model reads the phone number from the device. It refuses
  to log in when that number is blank. It has no progress message.

Everything is modelled as immutable datatypes and pure functions:

| module | file | models |
|---|---|---|
| `Optional` | optional.dfy | Kotlin nullable values and `?:` |
| `KText` | ktext.dfy | `Char.isWhitespace`, `isBlank`, `trim`, `split(",")`, `joinToString`, `equals(ignoreCase = true)` |
| `Hex` | hex.dfy | the `"%02X"` serial of a signed byte array, and reading it back |
| `Base64` | base64.dfy | `toByteArray()` (UTF-8) and `Base64.getEncoder()`, following section 4 of RFC 4648 |
| `Model` | model.dfy | `CsvRecord`, `LoginState`, the fetch result, string resources |
| `Csv` | csv.dfy | turning a 2xx body into records |
| `Repository` | repository.dfy | `fetchCsv`: the Authorization header, the retry loop, the empty and exhausted failures |
| `Matching` | matching.dfy | the tag serial and `firstOrNull` over the records |
| `Session` | session.dfy | the newer `AppViewModel`: `login`, `onTagDetected`, `logout`, and an invariant over any run of events |
| `LegacySession` | legacy_session.dfy | the older `AppViewModel` |
| `Scenarios` | scenarios.dfy | worked examples: a one-row login, a tap, three 500s, a blank body, success on the second attempt |

The network is a script: `script[i]` is what attempt `i` observes. That is either `Exn` (an exception
while connecting, reading the status or reading the body) or `Status(code, lines)`. `Repository.Fetch`
is a pure function of the script. It returns the result, the number of requests made, the number of
1500 ms pauses taken, and the Authorization header the requests carried. `Repository.FetchCsv` is the
same loop written the way the source writes it, with early returns, and is proved equal to `Fetch`.

Android string resources are modelled as names (`Res(CsvEmpty)`, `ResArg(MatchSuccess, columns)`),
because their wording plays no part in the logic. The older app writes its texts inline, and the model
uses those same literal strings.

Behaviour that is easy to misread:

- A non-2xx status is retried, exactly like an exception. Both go on to the "pause and try again" step.
- During Loading and after a failed login, `csvRecords` still holds the records of the latest successful
  login since the latest logout. Starting from the initial view model, it holds none when there is no
  such login (`Session.ReplayRecords`). A tag tapped at that point is matched against those records. A
  failed login never clears them.
- A tag event is handled the same way in every login state. The login state itself never changes on a
  tap.
- With the newer repository, a failed login's Error message is always `csv_empty` or `csv_fetch_failed`.
  The view model's `login_failed` fallback is never reached (`Session.ReplayKeepsSettled`).

## Model

| member | source | states |
|---|---|---|
| `KText.WhitespaceIsJavaOrSpace` | app/src/main/java/com/hitachi/confirmnfc/data/LoginRepository.kt:32-33 | the code points `isWhitespace` accepts are exactly Java's whitespace (separators other than the no-break spaces, and the controls U+0009..U+000D, U+001C..U+001F) together with Java's space characters |
| `KText.Trim` | app/src/main/java/com/hitachi/confirmnfc/data/LoginRepository.kt:33 | `trim()` removes only whitespace, and only at the two ends. What remains neither starts nor ends with whitespace |
| `KText.TrimmedFromUnique` | app/src/main/java/com/hitachi/confirmnfc/data/LoginRepository.kt:33 | there is exactly one trimmed form of a string, so `Trim` is fully specified by its contract |
| `KText.TrimOfTrimmed` | app/src/main/java/com/hitachi/confirmnfc/data/LoginRepository.kt:33 | a field with no whitespace at either end is unchanged by `trim()`, so trimming twice is trimming once |
| `KText.BlankIffTrimEmpty` | app/src/main/java/com/hitachi/confirmnfc/data/LoginRepository.kt:32 | `isBlank()` holds exactly when trimming leaves nothing, so `filter { it.isNotBlank() }` keeps exactly the lines with a non-whitespace character |
| `KText.Split` | app/src/main/java/com/hitachi/confirmnfc/data/LoginRepository.kt:33 | `split(",")` gives one piece more than there are commas. No piece contains a comma, and joining the pieces with `,` gives back the line |
| `KText.SplitJoin` | app/src/main/java/com/hitachi/confirmnfc/data/LoginRepository.kt:33 | splitting undoes joining whenever no part contains the separator (the inverse direction of `Split`'s contract) |
| `KText.JoinShape` | app/src/main/java/com/hitachi/confirmnfc/ui/viewmodel/AppViewModel.kt:95 | `joinToString(" / ")` starts with the first column and its length is the columns' total length plus one separator per pair of neighbours |
| `KText.EqualsIgnoreCaseIffUpper` | app/src/main/java/com/hitachi/confirmnfc/ui/viewmodel/AppViewModel.kt:89 | `equals(ignoreCase = true)` holds exactly when the two strings are equal after upper-casing |
| `Hex.Unsigned` | app/src/main/java/com/hitachi/confirmnfc/ui/viewmodel/AppViewModel.kt:80 | `%X` prints a signed byte as the value in 0..255 that is congruent to it modulo 256 |
| `Hex.ByteHex` | app/src/main/java/com/hitachi/confirmnfc/ui/viewmodel/AppViewModel.kt:80 | `"%02X"` always gives two upper-case hex digits, and they read back as the byte's unsigned value |
| `Hex.Serial` | app/src/main/java/com/hitachi/confirmnfc/ui/viewmodel/AppViewModel.kt:80 | the serial is twice as long as the id and uses only 0-9 and A-F. Characters 2k and 2k+1 are byte k's two digits |
| `Hex.ParseSerialOfSerial` | app/src/main/java/com/hitachi/confirmnfc/ui/viewmodel/AppViewModel.kt:80 | reading a serial back as hex recovers the id bytes exactly |
| `Hex.SerialOfParseSerial` | app/src/main/java/com/hitachi/confirmnfc/ui/viewmodel/AppViewModel.kt:80 | every even-length hex string, in either case, is the serial of the bytes it reads as, up to upper-casing |
| `Hex.SerialInjective` | app/src/main/java/com/hitachi/confirmnfc/ui/viewmodel/AppViewModel.kt:80 | two different tag ids never produce the same serial |
| `Hex.SerialBlankIffEmpty` | app/src/main/java/com/hitachi/confirmnfc/ui/viewmodel/AppViewModel.kt:80-81 | the serial is blank exactly when the id has no bytes |
| `Base64.Encode` | app/src/main/java/com/hitachi/confirmnfc/data/LoginRepository.kt:25 | the token has 4 characters per started group of 3 bytes, all from the alphabet or the pad `=` |
| `Base64.DecodeEncode` | app/src/main/java/com/hitachi/confirmnfc/data/LoginRepository.kt:25 | decoding the token gives back the encoded bytes |
| `Base64.EncodeDecode` | app/src/main/java/com/hitachi/confirmnfc/data/LoginRepository.kt:25 | a string the strict decoder accepts is the encoding of what it decodes to, so each byte string has exactly one token |
| `Base64.Utf8` | app/src/main/java/com/hitachi/confirmnfc/data/LoginRepository.kt:25 | `toByteArray()` gives between 1 and 4 bytes per character |
| `Base64.Utf8Append` | app/src/main/java/com/hitachi/confirmnfc/data/LoginRepository.kt:25 | the bytes of a concatenation are the concatenated bytes |
| `Base64.Utf8Ascii` | app/src/main/java/com/hitachi/confirmnfc/data/LoginRepository.kt:25 | ASCII text encodes to its character codes, one byte each |
| `Repository.Authorization` | app/src/main/java/com/hitachi/confirmnfc/data/LoginRepository.kt:25-26 | the header is `Basic ` followed by a token. The token decodes to the user id's bytes, one `:` byte, then the phone number's bytes |
| `Repository.AuthorizationUnique` | app/src/main/java/com/hitachi/confirmnfc/data/LoginRepository.kt:25-26 | any `Basic` header whose token decodes to the credential bytes is the header `fetchCsv` sends, so the contract of `Authorization` fixes the header exactly |
| `Repository.CredentialBytes` | app/src/main/java/com/hitachi/confirmnfc/data/LoginRepository.kt:25 | the bytes of `"$userId:$phoneNumber"` are the user id's bytes, a colon byte, then the phone number's bytes |
| `Csv.TrimAll` | app/src/main/java/com/hitachi/confirmnfc/data/LoginRepository.kt:33 | `.map { it.trim() }` keeps the number and order of pieces, and each field is the trimmed form of its piece |
| `Csv.ParseLine` | app/src/main/java/com/hitachi/confirmnfc/data/LoginRepository.kt:33 | a line gives `count(',') + 1` fields, so always at least one. No field contains a comma, and field k is the trimmed k-th comma-separated piece |
| `Csv.NonBlankLines` | app/src/main/java/com/hitachi/confirmnfc/data/LoginRepository.kt:32 | the filter keeps only non-blank lines, all taken from the body. It keeps none exactly when every line is blank |
| `Csv.NonBlankLinesCounts` | app/src/main/java/com/hitachi/confirmnfc/data/LoginRepository.kt:32 | `filter { it.isNotBlank() }` drops the blank lines and nothing else: every non-blank line survives as many times as it occurs in the body, and no blank line survives |
| `Csv.NonBlankLinesKeepsEvery` | app/src/main/java/com/hitachi/confirmnfc/data/LoginRepository.kt:32 | every non-blank line of the body is among the lines that reach the parser |
| `Csv.NonBlankLinesAppend` | app/src/main/java/com/hitachi/confirmnfc/data/LoginRepository.kt:32 | the filter works line by line and keeps order: filtering a concatenation is concatenating the filtered parts |
| `Csv.ParseBody` | app/src/main/java/com/hitachi/confirmnfc/data/LoginRepository.kt:31-33 | one record per non-blank line, in line order, each with at least one field. There are no records exactly when every line is blank |
| `Csv.ParseBodyAppend` | app/src/main/java/com/hitachi/confirmnfc/data/LoginRepository.kt:31-33 | parsing keeps line order: the records of two consecutive chunks are the first chunk's records followed by the second's |
| `Csv.ParseSingleLine` | app/src/main/java/com/hitachi/confirmnfc/data/LoginRepository.kt:32-33 | a non-blank line yields exactly one record and a blank line yields none |
| `Repository.FetchFrom` | app/src/main/java/com/hitachi/confirmnfc/data/LoginRepository.kt:18-47 | the loop makes at most 3 requests and pauses only between two of them. It stops at the first 2xx. Success carries that body's records, which are non-empty. An empty 2xx body gives `csv_empty`. `csv_fetch_failed` means the last request was not 2xx. A 2xx answer with records makes the call succeed with exactly those records |
| `Repository.Fetch` | app/src/main/java/com/hitachi/confirmnfc/data/LoginRepository.kt:17-48 | one call makes between 1 and 3 requests, all carrying the header built from the two arguments, with one pause fewer than requests. Every request before the last failed, and fewer than 3 requests means the last one was 2xx |
| `Repository.FetchCsv` | app/src/main/java/com/hitachi/confirmnfc/data/LoginRepository.kt:17-48 | the loop written with early returns from inside `repeat` computes the same run as the recursive definition |
| `Repository.StopsAtFirstSuccess` | app/src/main/java/com/hitachi/confirmnfc/data/LoginRepository.kt:30-39 | if attempt i is the first 2xx, exactly i+1 requests and i pauses are made. The result is success with the parsed records when there are any, else the `csv_empty` failure, with no retry |
| `Repository.ExhaustedIffNoSuccess` | app/src/main/java/com/hitachi/confirmnfc/data/LoginRepository.kt:29-47 | the result is `csv_fetch_failed` exactly when none of the three attempts saw a 2xx status (exceptions and other statuses alike). All three requests are then made |
| `Repository.NeverEmptySuccess` | app/src/main/java/com/hitachi/confirmnfc/data/LoginRepository.kt:34-39 | success never carries an empty record list, and every failure is `csv_empty` or `csv_fetch_failed` |
| `Repository.OnlyThreeAttemptsMatter` | app/src/main/java/com/hitachi/confirmnfc/data/LoginRepository.kt:18-19 | what the network would answer to a fourth or later request never matters |
| `Matching.SerialOf` | app/src/main/java/com/hitachi/confirmnfc/ui/viewmodel/AppViewModel.kt:80 | the tag serial is "" for a null id, consists of upper-case hex digits only, and is blank exactly when the id is null or empty. Otherwise it reads back as the id |
| `Matching.FirstMatchFrom` | app/src/main/java/com/hitachi/confirmnfc/ui/viewmodel/AppViewModel.kt:88-90 | the position found holds a record with a column equal to the serial, ignoring case, and no earlier record from the start position has one. None means no record from there has one |
| `Matching.FindMatch` | app/src/main/java/com/hitachi/confirmnfc/ui/viewmodel/AppViewModel.kt:88-90 | `firstOrNull` gives none exactly when no record lists the serial. Otherwise it gives the first record in list order that does |
| `Matching.FindMatchAppend` | app/src/main/java/com/hitachi/confirmnfc/ui/viewmodel/AppViewModel.kt:88-90 | list order decides: a match in the front part wins over any match in the back part |
| `Matching.FindMatchIgnoresCase` | app/src/main/java/com/hitachi/confirmnfc/ui/viewmodel/AppViewModel.kt:89 | two serials that agree after upper-casing (say `AB12` and `ab12`) find the same record |
| `Matching.TagFindsRecordListingItsHex` | app/src/main/java/com/hitachi/confirmnfc/ui/viewmodel/AppViewModel.kt:80-90 | a tag whose id reads as hex string H matches the first record listing H, whatever case the record writes H in |
| `Session.BeginLogin` | app/src/main/java/com/hitachi/confirmnfc/ui/viewmodel/AppViewModel.kt:51-52 | login first sets Loading and a non-null progress message. The NFC message, serial and records are untouched |
| `Session.CompleteLogin` | app/src/main/java/com/hitachi/confirmnfc/ui/viewmodel/AppViewModel.kt:54-65 | success puts the same list in `csvRecords` and `Success`, shows the ready-to-scan prompt and clears progress. Failure sets Error with the exception message, or `login_failed` when it is null, clears progress, and keeps the records and the message |
| `Session.Login` | app/src/main/java/com/hitachi/confirmnfc/ui/viewmodel/AppViewModel.kt:49-66 | a completed login ends in Success or Error, never Loading, with progress cleared. Success holds the fetched non-empty records in both places. Error keeps the old records and carries exactly the message of the repository's failure, `csv_empty` or `csv_fetch_failed` |
| `Session.MatchMessage` | app/src/main/java/com/hitachi/confirmnfc/ui/viewmodel/AppViewModel.kt:88-99 | the message names the first record listing the serial, its columns joined by " / ", and is `not_registered` when no record lists it |
| `Session.OnTagDetected` | app/src/main/java/com/hitachi/confirmnfc/ui/viewmodel/AppViewModel.kt:69-101 | a tap never changes the login state, records or progress. A null tag, or a tag without id bytes, changes only the message. Otherwise the serial (two digits per byte) is shown, and the message names the first record listing it, joined by " / ", or says "not registered" |
| `Session.Logout` | app/src/main/java/com/hitachi/confirmnfc/ui/viewmodel/AppViewModel.kt:154-160 | logout empties the records, sets Idle, restores the default message and serial and clears progress |
| `Session.NoMatchAfterLogout` | app/src/main/java/com/hitachi/confirmnfc/ui/viewmodel/AppViewModel.kt:154-160 | after logout, no tag is reported as registered, even one that matched before |
| `Session.FailedLoginKeepsMatches` | app/src/main/java/com/hitachi/confirmnfc/ui/viewmodel/AppViewModel.kt:59-65 | after a failed login, every tap gets the same answer it would have got before the attempt |
| `Session.StepKeepsSettled` | app/src/main/java/com/hitachi/confirmnfc/ui/viewmodel/AppViewModel.kt:49-160 | login, tap and logout each preserve the invariant: no progress, not Loading, Idle has no records, Success holds the session's non-empty records, Error carries a repository message, every record has a field |
| `Session.LoginKeepsSettled` | app/src/main/java/com/hitachi/confirmnfc/ui/viewmodel/AppViewModel.kt:49-66 | a completed login preserves the invariant; the records it installs come from the parser, so each has a field |
| `Session.ReplayKeepsSettled` | app/src/main/java/com/hitachi/confirmnfc/ui/viewmodel/AppViewModel.kt:35-160 | the invariant holds after any sequence of events from a settled view model; in particular no Error ever carries the `login_failed` fallback |
| `Session.ReplaySnoc` | app/src/main/java/com/hitachi/confirmnfc/ui/viewmodel/AppViewModel.kt:35-160 | handling one more event after a run is stepping the view model the run produced |
| `Session.ReplayRecords` | app/src/main/java/com/hitachi/confirmnfc/ui/viewmodel/AppViewModel.kt:47-155 | after any events, the records a tap is matched against are those of the latest successful login since the latest logout, the starting records if there is neither, and none if a logout came after every successful login |
| `Session.InitialSettled` | app/src/main/java/com/hitachi/confirmnfc/ui/viewmodel/AppViewModel.kt:35-47 | the initial view model (Idle, no progress, no records) satisfies the invariant |
| `LegacySession.ReadPhoneNumber` | app/src/main/java/com/example/nfcconfirm/AppViewModel.kt:57-61 | the number read is the trimmed line-1 number, with null read as "". It is empty, and so blank, exactly when the raw number is blank |
| `LegacySession.TrimmedNotBlank` | app/src/main/java/com/example/nfcconfirm/AppViewModel.kt:38 | a trimmed number is blank only when it is empty |
| `LegacySession.Login` | app/src/main/java/com/example/nfcconfirm/AppViewModel.kt:35-54 | a blank phone number sets Error at once: the coroutine never starts, so there is no Loading and no fetch. Otherwise the view model passes through Loading with everything else unchanged, the fetch uses the trimmed number, and the result is handled from that Loading state. Success replaces the records, sets Success with them and shows the prompt. Failure sets Error with the exception message or the default text and keeps the records |
| `LegacySession.BeginLogin` | app/src/main/java/com/example/nfcconfirm/AppViewModel.kt:43-44 | the launched coroutine first sets Loading and changes nothing else |
| `LegacySession.CompleteLogin` | app/src/main/java/com/example/nfcconfirm/AppViewModel.kt:46-52 | success puts the list in the records and in `Success` and shows the login-success prompt. Failure sets Error with the exception message, or the default text when it is null, and keeps the records and the message. The serial is untouched |
| `LegacySession.MatchMessage` | app/src/main/java/com/example/nfcconfirm/AppViewModel.kt:75-83 | the message is `照合成功: ` followed by the first matching record's columns joined by " / ", or `登録がありません。` when no record lists the serial |
| `LegacySession.OnTagDetected` | app/src/main/java/com/example/nfcconfirm/AppViewModel.kt:63-84 | a null tag and a tag without id bytes each set their own message and leave the serial alone. Otherwise the serial is shown and the message names the first matching record or says it is not registered. The state and records never change |
| `LegacySession.Logout` | app/src/main/java/com/example/nfcconfirm/AppViewModel.kt:86-91 | logout empties the records, sets Idle and restores the default message and serial |
| `LegacySession.NoMatchAfterLogout` | app/src/main/java/com/example/nfcconfirm/AppViewModel.kt:86-91 | after logout, a tap can only report an unreadable tag, an unavailable serial or "not registered" |
| `LegacySession.FailedLoginKeepsMatches` | app/src/main/java/com/example/nfcconfirm/AppViewModel.kt:35-54 | a failed or refused login leaves every tap's answer unchanged |
| `Scenarios.RowParses` | app/src/main/java/com/hitachi/confirmnfc/data/LoginRepository.kt:33 | `u1,0900000001,AABBCCDD`, or any three comma-free fields without surrounding whitespace, parses into exactly those three fields |
| `Scenarios.RowSplits` | app/src/main/java/com/hitachi/confirmnfc/data/LoginRepository.kt:33 | such a line cuts at its two commas |
| `Scenarios.TrimAllPlain` | app/src/main/java/com/hitachi/confirmnfc/data/LoginRepository.kt:33 | fields without surrounding whitespace are not changed by trimming |
| `Scenarios.RowNotBlank` | app/src/main/java/com/hitachi/confirmnfc/data/LoginRepository.kt:32 | a line holding a comma is never dropped as blank |
| `Scenarios.RowLine` | app/src/main/java/com/hitachi/confirmnfc/data/LoginRepository.kt:31-33 | a body of that one line is one record |
| `Scenarios.RowBody` | app/src/main/java/com/hitachi/confirmnfc/data/LoginRepository.kt:31-33 | a trailing blank line adds no record |
| `Scenarios.LoginWithOneRow` | app/src/main/java/com/hitachi/confirmnfc/ui/viewmodel/AppViewModel.kt:49-58 | a 200 answer with that line gives one request and a Success holding that one record, in both state and records, with the ready-to-scan prompt |
| `Scenarios.TapListedTag` | app/src/main/java/com/hitachi/confirmnfc/ui/viewmodel/AppViewModel.kt:86-99 | tapping a tag whose serial is in the session's record reports that record's columns joined by " / " |
| `Scenarios.SerialOfSampleTag` | app/src/main/java/com/hitachi/confirmnfc/ui/viewmodel/AppViewModel.kt:80 | the signed bytes -86, -69, -52, -35 (AA BB CC DD) give the serial `AABBCCDD` |
| `Scenarios.ServerErrorThreeTimes` | app/src/main/java/com/hitachi/confirmnfc/data/LoginRepository.kt:29-47 | three 500 answers give three requests, two pauses and Error `csv_fetch_failed`, with progress cleared and records kept |
| `Scenarios.BlankBody` | app/src/main/java/com/hitachi/confirmnfc/data/LoginRepository.kt:34-39 | a 200 answer with only blank lines gives one request and Error `csv_empty` |
| `Scenarios.SuccessOnSecondAttempt` | app/src/main/java/com/hitachi/confirmnfc/data/LoginRepository.kt:30-35 | an exception and then a 2xx answer give two requests, one pause and success. No third request is made |

## Left out

- HTTP I/O is not modelled: `HttpURLConnection`, the URL, the 5000 ms timeouts and `readLines`. Each attempt is a scripted outcome, and a body arrives already split into lines.
- The 1500 ms `delay` is counted (`Run.delays`) but not timed.
- `Repository.Fetch` requires a script with at least three outcomes, one for each attempt the loop may make. The network always gives an outcome, so this is not a restriction of the source.
- `Base64.Decode` is the decoder of section 4 of RFC 4648 with the strictness of section 3.5: it rejects non-zero pad bits, so each byte string has exactly one encoding. The app never decodes; the decoder only states what the token carries.
- Coroutines are not modelled. Each `login` runs to completion as one atomic step, so overlapping logins and tap events that interleave with a running fetch are not modelled. In both view models, `BeginLogin` and `CompleteLogin` expose the two halves separately.
- `LiveData` observer delivery, vibration (`vibrateOnTagDetected`) and tag logging (`logTagDetails`) have no effect on the modelled state.
- The wording of Android string resources is not modelled. Each resource is a name.
- Reading the device phone number (`TelephonyManager.line1Number`) is an input: the raw number, or none for null.
- The older app's `LoginRepository` is not part of this model. Its `login` takes the fetch result as an input and reports the credentials it would have fetched with.
- Screens, permission prompts, navigation, the progress dialog and NFC intent filtering (`LoginFragment`, `NfcConfirmFragment`, `ProgressDialogFragment`, `MainActivity`) are outside the core.
- The newer `NfcConfirmFragment` uses `notFoundDialogMessage` and `onNotFoundDialogShown`. The view model it refers to has neither, so there is nothing to model.
- KText.EqualsIgnoreCase: case folding covers ASCII letters only, not all of Unicode. A serial contains only 0-9 and A-F, and no other character folds onto those, so matching against a serial is unaffected.
- Base64.Utf8: Kotlin strings are UTF-16 and may hold unpaired surrogates, which `toByteArray()` replaces with `?`. Dafny characters are Unicode scalar values, so such strings cannot be written.
