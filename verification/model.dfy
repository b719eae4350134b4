/**
  The data the core passes around: CSV records, the texts it shows (Android
  string resources or literal strings), the outcome of a fetch and the login
  state.
 */
module Model {
  import opened Optional

  /** One parsed CSV line: its fields, in order. */
  datatype CsvRecord = CsvRecord(columns: seq<string>)

  /** The string resources (`R.string.*`) the core reads. Their wording lives in
      the app's resource files and plays no part in the logic. */
  datatype StringId =
    | NfcInstruction          // nfc_instruction
    | SerialDefault           // serial_default
    | LoginInProgress         // login_in_progress
    | LoginSuccessNfcPrompt   // login_success_nfc_prompt
    | LoginFailed             // login_failed
    | NfcTagNotRecognized     // nfc_tag_not_recognized
    | SerialNotAvailable      // serial_not_available
    | MatchSuccess            // match_success (one argument)
    | NotRegistered           // not_registered
    | CsvEmpty                // csv_empty
    | CsvFetchFailed          // csv_fetch_failed

  /** A text shown to the user: `getString(id)`, `getString(id, arg)` or a literal. */
  datatype Text = Res(id: StringId) | ResArg(id: StringId, arg: string) | Lit(s: string)

  /** Kotlin's `Result<List<CsvRecord>>`: the records, or a failure whose
      exception message may be null. */
  datatype FetchResult = Fetched(records: seq<CsvRecord>) | FetchFailed(message: Option<Text>)

  /** The sealed class `LoginState` (identical in both variants of the app). */
  datatype LoginState = Idle | Loading | Success(records: seq<CsvRecord>) | Error(message: Text)
}
