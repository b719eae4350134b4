/**
  The `AppViewModel` of the `com.hitachi.confirmnfc` app: login state, the
  message and serial shown on the NFC screen, the progress message and the
  records of the current session. Each operation is a pure transition from
  one snapshot of these fields to the next.
 */
module Session {
  import opened Optional
  import opened KText
  import opened Model
  import opened Matching
  import Repository
  import Csv

  /** The observable fields of the view model plus the private `csvRecords`. */
  datatype ViewModel = ViewModel(
    loginState: LoginState,
    nfcMessage: Text,
    serialText: Text,
    progressMessage: Option<Text>,
    csvRecords: seq<CsvRecord>)

  /** The view model as constructed. */
  const Initial: ViewModel :=
    ViewModel(Idle, Res(NfcInstruction), Res(SerialDefault), None, [])

  /** The first half of `login`: Loading with the in-progress message, before the fetch. */
  function BeginLogin(vm: ViewModel): (r: ViewModel)
    ensures r.loginState == Loading
    ensures r.progressMessage.Some?
    ensures r.nfcMessage == vm.nfcMessage && r.serialText == vm.serialText && r.csvRecords == vm.csvRecords
  {
    vm.(loginState := Loading, progressMessage := Some(Res(LoginInProgress)))
  }

  /** The second half of `login`: what `onSuccess` / `onFailure` do with the fetch result. */
  function CompleteLogin(vm: ViewModel, result: FetchResult): (r: ViewModel)
    ensures r.progressMessage == None
    ensures r.serialText == vm.serialText
    ensures result.Fetched? ==>
      && r.csvRecords == result.records
      && r.loginState == Success(r.csvRecords)
      && r.nfcMessage == Res(LoginSuccessNfcPrompt)
    ensures result.FetchFailed? ==>
      && r.csvRecords == vm.csvRecords
      && r.nfcMessage == vm.nfcMessage
      && r.loginState == Error(if result.message.Some? then result.message.value else Res(LoginFailed))
  {
    match result
    case Fetched(records) =>
      vm.(csvRecords := records, loginState := Success(records),
          nfcMessage := Res(LoginSuccessNfcPrompt), progressMessage := None)
    case FetchFailed(message) =>
      vm.(loginState := Error(message.GetOr(Res(LoginFailed))), progressMessage := None)
  }

  /** `login(userId, phoneNumber)` run to completion against a scripted network.
      The session ends Success holding the fetched, non-empty records, or Error with
      the repository's message; a failure keeps the previous records. */
  function Login(vm: ViewModel, userId: string, phoneNumber: string, script: seq<Repository.Attempt>): (r: ViewModel)
    requires |script| >= Repository.MaxRetry
    ensures r.progressMessage == None
    ensures r.serialText == vm.serialText
    ensures r.loginState.Success? <==> Repository.Fetch(userId, phoneNumber, script).result.Fetched?
    ensures r.loginState.Success? ==>
      && r.loginState.records == r.csvRecords
      && r.csvRecords == Repository.Fetch(userId, phoneNumber, script).result.records
      && |r.csvRecords| > 0
      && r.nfcMessage == Res(LoginSuccessNfcPrompt)
    ensures r.loginState.Error? ==>
      && r.csvRecords == vm.csvRecords
      && r.nfcMessage == vm.nfcMessage
      && r.loginState.message in {Res(CsvEmpty), Res(CsvFetchFailed)}
    ensures r.loginState.Error? ==>
      Repository.Fetch(userId, phoneNumber, script).result == FetchFailed(Some(r.loginState.message))
    ensures r.loginState.Success? || r.loginState.Error?
  {
    var run := Repository.Fetch(userId, phoneNumber, script);
    CompleteLogin(BeginLogin(vm), run.result)
  }

  /** The `match_success` / `not_registered` message for a serial. */
  function MatchMessage(records: seq<CsvRecord>, serial: string): (m: Text)
    ensures forall k: nat :: IsFirstMatch(records, serial, k) ==>
      m == ResArg(MatchSuccess, Join(records[k].columns, " / "))
    ensures (forall k :: 0 <= k < |records| ==> !RecordMatches(records[k], serial)) ==> m == Res(NotRegistered)
  {
    match FindMatch(records, serial)
    case Some(record) => ResArg(MatchSuccess, Join(record.columns, " / "))
    case None => Res(NotRegistered)
  }

  /** `onTagDetected(tag)`. It only ever changes `nfcMessage` and `serialText`. A null
      tag or a tag without id bytes changes the message alone. Otherwise the serial is
      shown and the message names the first record listing it, or says it is not
      registered. */
  function OnTagDetected(vm: ViewModel, tag: Option<Tag>): (r: ViewModel)
    ensures r.loginState == vm.loginState
    ensures r.csvRecords == vm.csvRecords
    ensures r.progressMessage == vm.progressMessage
    ensures tag.None? ==> r == vm.(nfcMessage := Res(NfcTagNotRecognized))
    ensures tag.Some? && (tag.value.id.None? || |tag.value.id.value| == 0) ==>
      r == vm.(nfcMessage := Res(SerialNotAvailable))
    ensures tag.Some? && tag.value.id.Some? && |tag.value.id.value| > 0 ==>
      && r.serialText == Lit(SerialOf(tag.value))
      && |SerialOf(tag.value)| == 2 * |tag.value.id.value|
      && (forall k: nat :: IsFirstMatch(vm.csvRecords, SerialOf(tag.value), k) ==>
            r.nfcMessage == ResArg(MatchSuccess, Join(vm.csvRecords[k].columns, " / ")))
      && ((forall k :: 0 <= k < |vm.csvRecords| ==> !RecordMatches(vm.csvRecords[k], SerialOf(tag.value))) ==>
            r.nfcMessage == Res(NotRegistered))
  {
    match tag
    case None => vm.(nfcMessage := Res(NfcTagNotRecognized))
    case Some(t) =>
      var serial := SerialOf(t);
      if IsBlank(serial) then vm.(nfcMessage := Res(SerialNotAvailable))
      else vm.(serialText := Lit(serial), nfcMessage := MatchMessage(vm.csvRecords, serial))
  }

  /** `logout()`: every field back to its initial value, whatever came before. */
  function Logout(vm: ViewModel): (r: ViewModel)
    ensures r.csvRecords == [] && r.loginState == Idle && r.progressMessage == None
    ensures r.nfcMessage == Res(NfcInstruction) && r.serialText == Res(SerialDefault)
  {
    vm.(csvRecords := [], loginState := Idle, nfcMessage := Res(NfcInstruction),
        serialText := Res(SerialDefault), progressMessage := None)
  }

  /** After logout no tag is reported as registered, even one that matched before. */
  lemma NoMatchAfterLogout(vm: ViewModel, tag: Option<Tag>)
    ensures !OnTagDetected(Logout(vm), tag).nfcMessage.ResArg?
  {
  }

  /** A failed login keeps the records of an earlier successful one, so a tag
      tapped afterwards gets the same answer as before the attempt. */
  lemma FailedLoginKeepsMatches(vm: ViewModel, userId: string, phoneNumber: string,
                                script: seq<Repository.Attempt>, tag: Option<Tag>)
    requires |script| >= Repository.MaxRetry
    requires Repository.Fetch(userId, phoneNumber, script).result.FetchFailed?
    ensures OnTagDetected(Login(vm, userId, phoneNumber, script), tag).nfcMessage == OnTagDetected(vm, tag).nfcMessage
  {
  }

  /** The events the view model receives; a login runs to completion as one event. */
  datatype Event =
    | LoginEvent(userId: string, phoneNumber: string, script: seq<Repository.Attempt>)
    | TagEvent(tag: Option<Tag>)
    | LogoutEvent

  /** A login event scripts every attempt the fetch may make. */
  predicate Scripted(e: Event) {
    e.LoginEvent? ==> |e.script| >= Repository.MaxRetry
  }

  function Step(vm: ViewModel, e: Event): ViewModel
    requires Scripted(e)
  {
    match e
    case LoginEvent(userId, phoneNumber, script) => Login(vm, userId, phoneNumber, script)
    case TagEvent(tag) => OnTagDetected(vm, tag)
    case LogoutEvent => Logout(vm)
  }

  /** The view model after handling `events` in order. */
  function Replay(vm: ViewModel, events: seq<Event>): ViewModel
    requires forall i :: 0 <= i < |events| ==> Scripted(events[i])
    decreases |events|
  {
    if |events| == 0 then vm else Replay(Step(vm, events[0]), events[1..])
  }

  /** What holds between events: no operation in flight; Idle holds no records;
      Success holds exactly the session's records, which are never empty; Error
      carries one of the repository's two messages; every record has a field. */
  predicate Settled(vm: ViewModel) {
    && vm.progressMessage == None
    && !vm.loginState.Loading?
    && (vm.loginState.Idle? ==> vm.csvRecords == [])
    && (vm.loginState.Success? ==> vm.loginState.records == vm.csvRecords && |vm.csvRecords| > 0)
    && (vm.loginState.Error? ==> vm.loginState.message in {Res(CsvEmpty), Res(CsvFetchFailed)})
    && (forall k :: 0 <= k < |vm.csvRecords| ==> |vm.csvRecords[k].columns| >= 1)
  }

  /** Every event keeps the view model settled. */
  lemma StepKeepsSettled(vm: ViewModel, e: Event)
    requires Scripted(e) && Settled(vm)
    ensures Settled(Step(vm, e))
  {
    match e
    case LoginEvent(userId, phoneNumber, script) => LoginKeepsSettled(vm, userId, phoneNumber, script);
    case TagEvent(tag) =>
    case LogoutEvent =>
  }

  /** A completed login leaves the view model settled: fetched records come from
      the parser, which never yields a record without a field. */
  lemma LoginKeepsSettled(vm: ViewModel, userId: string, phoneNumber: string, script: seq<Repository.Attempt>)
    requires |script| >= Repository.MaxRetry && Settled(vm)
    ensures Settled(Login(vm, userId, phoneNumber, script))
  {
    var r := Login(vm, userId, phoneNumber, script);
    assert r.progressMessage == None && (r.loginState.Success? || r.loginState.Error?);
    assert r.loginState.Success? ==> r.loginState.records == r.csvRecords && |r.csvRecords| > 0;
    assert r.loginState.Error? ==> r.loginState.message in {Res(CsvEmpty), Res(CsvFetchFailed)};
    assert forall k :: 0 <= k < |r.csvRecords| ==> |r.csvRecords[k].columns| >= 1 by {
      var run := Repository.Fetch(userId, phoneNumber, script);
      if run.result.Fetched? {
        assert r.csvRecords == Csv.ParseBody(script[run.attempts - 1].lines);
      }
    }
  }

  /** From the initial view model, any sequence of events leaves it settled; in
      particular the `login_failed` fallback text never reaches the Error state. */
  lemma {:induction false} ReplayKeepsSettled(vm: ViewModel, events: seq<Event>)
    requires forall i :: 0 <= i < |events| ==> Scripted(events[i])
    requires Settled(vm)
    ensures Settled(Replay(vm, events))
    decreases |events|
  {
    if |events| > 0 {
      StepKeepsSettled(vm, events[0]);
      ReplayKeepsSettled(Step(vm, events[0]), events[1..]);
    }
  }

  /** Replaying one more event steps the replayed view model. */
  lemma {:induction false} ReplaySnoc(vm: ViewModel, events: seq<Event>, e: Event)
    requires forall i :: 0 <= i < |events| ==> Scripted(events[i])
    requires Scripted(e)
    ensures forall i :: 0 <= i < |events + [e]| ==> Scripted((events + [e])[i])
    ensures Replay(vm, events + [e]) == Step(Replay(vm, events), e)
    decreases |events|
  {
    if |events| == 0 {
      assert events + [e] == [e];
    } else {
      var vm' := Step(vm, events[0]);
      AppendTail(events, e);
      calc {
        Replay(vm, events + [e]);
      ==
        Replay(vm', events[1..] + [e]);
      ==  { ReplaySnoc(vm', events[1..], e); }
        Step(Replay(vm', events[1..]), e);
      ==
        Step(Replay(vm, events), e);
      }
    }
  }

  /** The records a tap is matched against, read backwards from the latest
      event: none after a logout, the records of the latest successful login
      after it, and otherwise what the session started with. */
  function SessionRecords(start: seq<CsvRecord>, events: seq<Event>): seq<CsvRecord>
    requires forall i :: 0 <= i < |events| ==> Scripted(events[i])
    decreases |events|
  {
    if |events| == 0 then start
    else
      var earlier, last := events[..|events| - 1], events[|events| - 1];
      assert Scripted(last);
      match last
      case LogoutEvent => []
      case TagEvent(_) => SessionRecords(start, earlier)
      case LoginEvent(userId, phoneNumber, script) =>
        var result := Repository.Fetch(userId, phoneNumber, script).result;
        if result.Fetched? then result.records else SessionRecords(start, earlier)
  }

  /** The view model's records after any events are those of the latest successful
      login since the latest logout, or none when there is no such login. */
  lemma {:induction false} ReplayRecords(vm: ViewModel, events: seq<Event>)
    requires forall i :: 0 <= i < |events| ==> Scripted(events[i])
    ensures Replay(vm, events).csvRecords == SessionRecords(vm.csvRecords, events)
    decreases |events|
  {
    if |events| > 0 {
      var earlier, e := events[..|events| - 1], events[|events| - 1];
      var prev := Replay(vm, earlier);
      assert Replay(vm, events) == Step(prev, e) by {
        LastSplit(events);
        ReplaySnoc(vm, earlier, e);
      }
      ReplayRecords(vm, earlier);
      StepRecords(prev, e);
    }
  }

  /** Appending at the back keeps the head and appends to the tail. */
  lemma AppendTail<T>(s: seq<T>, x: T)
    requires |s| > 0
    ensures (s + [x])[0] == s[0] && (s + [x])[1..] == s[1..] + [x]
  {
  }

  /** A non-empty sequence is its front followed by its last element. */
  lemma LastSplit<T>(s: seq<T>)
    requires |s| > 0
    ensures s == s[..|s| - 1] + [s[|s| - 1]]
  {
  }

  /** What one event does to the records: a logout empties them, a successful login
      replaces them with the fetched ones, anything else keeps them. */
  lemma StepRecords(vm: ViewModel, e: Event)
    requires Scripted(e)
    ensures e.LogoutEvent? ==> Step(vm, e).csvRecords == []
    ensures e.TagEvent? ==> Step(vm, e).csvRecords == vm.csvRecords
    ensures e.LoginEvent? ==>
      var result := Repository.Fetch(e.userId, e.phoneNumber, e.script).result;
      Step(vm, e).csvRecords == if result.Fetched? then result.records else vm.csvRecords
  {
  }

  /** The initial view model is settled, so every reachable one is. */
  lemma InitialSettled()
    ensures Settled(Initial)
  {
  }
}
