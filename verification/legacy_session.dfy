/**
  The `AppViewModel` of the older `com.example.nfcconfirm` app. It reads the
  phone number from the device instead of taking it from the user, has no
  progress message, and uses literal texts. Its repository is not part of
  this model: the fetch result is an input, and `Login` reports the
  credentials it would have fetched with.
 */
module LegacySession {
  import opened Optional
  import opened KText
  import opened Model
  import opened Matching

  /** The view model's fields (no progress message in this variant). */
  datatype ViewModel = ViewModel(
    loginState: LoginState,
    nfcMessage: Text,
    serialText: Text,
    csvRecords: seq<CsvRecord>)

  const TapCard: Text := Lit("カードをタップしてください。")
  const SerialPlaceholder: Text := Lit("------")
  const PhoneUnavailable: Text := Lit("電話番号を取得できません。権限とSIM状態を確認してください。")
  const LoginSucceeded: Text := Lit("ログイン成功。カードをタップしてください。")
  const LoginFailedText: Text := Lit("ログインに失敗しました。")
  const TagNotRecognized: Text := Lit("NFCタグを認識できませんでした。")
  const SerialUnavailable: Text := Lit("シリアル番号を取得できませんでした。")
  const NotRegisteredText: Text := Lit("登録がありません。")
  const MatchPrefix: string := "照合成功: "

  /** The view model as constructed. */
  const Initial: ViewModel := ViewModel(Idle, TapCard, SerialPlaceholder, [])

  /** The arguments of `repository.fetchCsv(userId, phoneNumber)`. */
  datatype Credentials = Credentials(userId: string, phoneNumber: string)

  /** What `login` does: the Loading view model the coroutine passes through (None: it
      never starts), the view model it leaves behind, and the fetch it issued (None: no fetch). */
  datatype LoginOutcome = LoginOutcome(loading: Option<ViewModel>, vm: ViewModel, fetchedWith: Option<Credentials>)

  /** `readPhoneNumber`: the device's line-1 number (null read as ""), trimmed. */
  function ReadPhoneNumber(line1Number: Option<string>): (phone: string)
    ensures phone == [] <==> IsBlank(line1Number.GetOr(""))
    ensures !IsBlank(phone) <==> !IsBlank(line1Number.GetOr(""))
    ensures TrimmedFrom(line1Number.GetOr(""), phone)
  {
    var raw := line1Number.GetOr("");
    BlankIffTrimEmpty(raw);
    var phone := Trim(raw);
    TrimmedNotBlank(raw, phone);
    phone
  }

  /** A trimmed string is blank only when it is empty. */
  lemma TrimmedNotBlank(s: string, r: string)
    requires TrimmedFrom(s, r)
    ensures IsBlank(r) <==> r == []
  {
  }

  /** `login(userId)`. A blank phone number sets Error at once: no Loading, no fetch.
      Otherwise the coroutine enters Loading and the fetch runs with the trimmed number;
      success replaces the records and sets Success with them, failure sets Error and
      keeps the records. */
  function Login(vm: ViewModel, userId: string, line1Number: Option<string>, response: FetchResult): (r: LoginOutcome)
    ensures r.loading.Some? <==> r.fetchedWith.Some?
    ensures IsBlank(line1Number.GetOr("")) ==>
      r.fetchedWith == None && r.vm == vm.(loginState := Error(PhoneUnavailable))
    ensures !IsBlank(line1Number.GetOr("")) ==>
      && r.fetchedWith == Some(Credentials(userId, ReadPhoneNumber(line1Number)))
      && r.vm.serialText == vm.serialText
      && r.loading.value.loginState == Loading
      && r.loading.value.nfcMessage == vm.nfcMessage
      && r.loading.value.serialText == vm.serialText
      && r.loading.value.csvRecords == vm.csvRecords
      && r.vm == CompleteLogin(r.loading.value, response)
    ensures !IsBlank(line1Number.GetOr("")) && response.Fetched? ==>
      && r.vm.csvRecords == response.records
      && r.vm.loginState == Success(response.records)
      && r.vm.nfcMessage == LoginSucceeded
    ensures !IsBlank(line1Number.GetOr("")) && response.FetchFailed? ==>
      && r.vm.csvRecords == vm.csvRecords
      && r.vm.nfcMessage == vm.nfcMessage
      && r.vm.loginState == Error(if response.message.Some? then response.message.value else LoginFailedText)
  {
    var phone := ReadPhoneNumber(line1Number);
    if IsBlank(phone) then LoginOutcome(None, vm.(loginState := Error(PhoneUnavailable)), None)
    else
      var loading := BeginLogin(vm);
      LoginOutcome(Some(loading), CompleteLogin(loading, response), Some(Credentials(userId, phone)))
  }

  /** The start of the launched coroutine: Loading, before the fetch; nothing else changes. */
  function BeginLogin(vm: ViewModel): (r: ViewModel)
    ensures r.loginState == Loading
    ensures r.nfcMessage == vm.nfcMessage && r.serialText == vm.serialText && r.csvRecords == vm.csvRecords
  {
    vm.(loginState := Loading)
  }

  /** The body of the launched coroutine once the fetch has returned. */
  function CompleteLogin(vm: ViewModel, result: FetchResult): (r: ViewModel)
    ensures r.serialText == vm.serialText
    ensures result.Fetched? ==>
      && r.csvRecords == result.records
      && r.loginState == Success(r.csvRecords)
      && r.nfcMessage == LoginSucceeded
    ensures result.FetchFailed? ==>
      && r.csvRecords == vm.csvRecords
      && r.nfcMessage == vm.nfcMessage
      && r.loginState == Error(if result.message.Some? then result.message.value else LoginFailedText)
  {
    match result
    case Fetched(records) =>
      vm.(csvRecords := records, loginState := Success(records), nfcMessage := LoginSucceeded)
    case FetchFailed(message) =>
      vm.(loginState := Error(message.GetOr(LoginFailedText)))
  }

  /** The `照合成功: …` / `登録がありません。` message for a serial. */
  function MatchMessage(records: seq<CsvRecord>, serial: string): (m: Text)
    ensures forall k: nat :: IsFirstMatch(records, serial, k) ==>
      m == Lit(MatchPrefix + Join(records[k].columns, " / "))
    ensures (forall k :: 0 <= k < |records| ==> !RecordMatches(records[k], serial)) ==> m == NotRegisteredText
  {
    match FindMatch(records, serial)
    case Some(record) => Lit(MatchPrefix + Join(record.columns, " / "))
    case None => NotRegisteredText
  }

  /** `onTagDetected(tag)`: a null tag and a tag without id bytes each set their own
      message and leave the serial alone; otherwise the serial is shown and the
      message names the first record listing it, or says it is not registered.
      The login state and the records never change. */
  function OnTagDetected(vm: ViewModel, tag: Option<Tag>): (r: ViewModel)
    ensures r.loginState == vm.loginState && r.csvRecords == vm.csvRecords
    ensures tag.None? ==> r == vm.(nfcMessage := TagNotRecognized)
    ensures tag.Some? && (tag.value.id.None? || |tag.value.id.value| == 0) ==>
      r == vm.(nfcMessage := SerialUnavailable)
    ensures tag.Some? && tag.value.id.Some? && |tag.value.id.value| > 0 ==>
      && r.serialText == Lit(SerialOf(tag.value))
      && (forall k: nat :: IsFirstMatch(vm.csvRecords, SerialOf(tag.value), k) ==>
            r.nfcMessage == Lit(MatchPrefix + Join(vm.csvRecords[k].columns, " / ")))
      && ((forall k :: 0 <= k < |vm.csvRecords| ==> !RecordMatches(vm.csvRecords[k], SerialOf(tag.value))) ==>
            r.nfcMessage == NotRegisteredText)
  {
    match tag
    case None => vm.(nfcMessage := TagNotRecognized)
    case Some(t) =>
      var serial := SerialOf(t);
      if IsBlank(serial) then vm.(nfcMessage := SerialUnavailable)
      else vm.(serialText := Lit(serial), nfcMessage := MatchMessage(vm.csvRecords, serial))
  }

  /** `logout()`: records emptied, Idle, default message and serial. */
  function Logout(vm: ViewModel): (r: ViewModel)
    ensures r.csvRecords == [] && r.loginState == Idle
    ensures r.nfcMessage == TapCard && r.serialText == SerialPlaceholder
  {
    vm.(csvRecords := [], loginState := Idle, nfcMessage := TapCard, serialText := SerialPlaceholder)
  }

  /** After logout no tag is reported as registered. */
  lemma NoMatchAfterLogout(vm: ViewModel, tag: Option<Tag>)
    ensures OnTagDetected(Logout(vm), tag).nfcMessage in {TagNotRecognized, SerialUnavailable, NotRegisteredText}
  {
  }

  /** A failed login leaves the records of an earlier successful one matchable. */
  lemma FailedLoginKeepsMatches(vm: ViewModel, userId: string, line1Number: Option<string>,
                                message: Option<Text>, tag: Option<Tag>)
    ensures OnTagDetected(Login(vm, userId, line1Number, FetchFailed(message)).vm, tag).nfcMessage
         == OnTagDetected(vm, tag).nfcMessage
  {
  }
}
