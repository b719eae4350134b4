/**
  `LoginRepository.fetchCsv`: up to three GET attempts carrying a Basic
  Authorization header, a pause between attempts, the first 2xx response ends
  the loop. The network is a script holding the outcome of each attempt.
 */
module Repository {
  import opened Optional
  import opened KText
  import opened Model
  import Csv
  import Base64

  /** `maxRetry`: the number of attempts. */
  const MaxRetry: nat := 3

  /** What one attempt observed: an exception (while connecting, reading the
      status or reading the body), or a status code with the body split into lines. */
  datatype Attempt = Exn | Status(code: int, lines: seq<string>)

  /** `code in 200..299`. */
  predicate IsSuccessful(a: Attempt) {
    a.Status? && 200 <= a.code <= 299
  }

  /** One call of `fetchCsv`: its result, how many requests it made, how many
      1500 ms pauses it took, and the Authorization header each request carried. */
  datatype Run = Run(result: FetchResult, attempts: nat, delays: nat, authorization: string)

  /** `"Basic " + Base64(UTF-8("$userId:$phoneNumber"))`. */
  function Authorization(userId: string, phoneNumber: string): (h: string)
    ensures |h| >= 6 && h[..6] == "Basic "
    ensures Base64.Decode(h[6..]) == Some(Base64.Utf8(userId) + [':' as int] + Base64.Utf8(phoneNumber))
  {
    var token := Base64.Encode(Base64.Utf8(userId + ":" + phoneNumber));
    CredentialBytes(userId, phoneNumber);
    Base64.DecodeEncode(Base64.Utf8(userId + ":" + phoneNumber));
    var h := "Basic " + token;
    assert h[6..] == token;
    h
  }

  /** The header is the only `Basic` header whose token decodes to the
      credential bytes: the strict decoder admits exactly one token per byte string. */
  lemma AuthorizationUnique(userId: string, phoneNumber: string, h: string)
    requires |h| >= 6 && h[..6] == "Basic "
    requires Base64.Decode(h[6..]) == Some(Base64.Utf8(userId) + [':' as int] + Base64.Utf8(phoneNumber))
    ensures h == Authorization(userId, phoneNumber)
  {
    Base64.EncodeDecode(h[6..]);
    CredentialBytes(userId, phoneNumber);
    assert h == h[..6] + h[6..];
  }

  /** The bytes of `"$userId:$phoneNumber"`: the user id, one colon byte, the phone number. */
  lemma CredentialBytes(userId: string, phoneNumber: string)
    ensures Base64.Utf8(userId + ":" + phoneNumber) == Base64.Utf8(userId) + [':' as int] + Base64.Utf8(phoneNumber)
  {
    var colon := Base64.Utf8(":");
    Base64.Utf8Ascii(":");
    assert colon == [':' as int];
    Base64.Utf8Append(":", phoneNumber);
    Base64.Utf8Append(userId, ":" + phoneNumber);
    assert userId + ":" + phoneNumber == userId + (":" + phoneNumber);
  }

  /** The failure with the `csv_empty` message. */
  const EmptyFailure: FetchResult := FetchFailed(Some(Res(CsvEmpty)))

  /** The failure with the `csv_fetch_failed` message. */
  const ExhaustedFailure: FetchResult := FetchFailed(Some(Res(CsvFetchFailed)))

  /** The loop from attempt `index` on, after `delays` pauses. */
  function FetchFrom(script: seq<Attempt>, index: nat, delays: nat, auth: string): (r: Run)
    requires index < MaxRetry <= |script|
    requires delays == index
    ensures index < r.attempts <= MaxRetry
    ensures r.delays == r.attempts - 1
    ensures r.authorization == auth
    ensures forall j :: index <= j < r.attempts - 1 ==> !IsSuccessful(script[j])
    ensures r.result == ExhaustedFailure <==> !IsSuccessful(script[r.attempts - 1])
    ensures !IsSuccessful(script[r.attempts - 1]) ==> r.attempts == MaxRetry
    ensures r.result.Fetched? ==> r.result.records == Csv.ParseBody(script[r.attempts - 1].lines) && |r.result.records| > 0
    ensures IsSuccessful(script[r.attempts - 1]) && |Csv.ParseBody(script[r.attempts - 1].lines)| > 0
        ==> r.result == Fetched(Csv.ParseBody(script[r.attempts - 1].lines))
    ensures r.result == EmptyFailure <==> IsSuccessful(script[r.attempts - 1]) && |Csv.ParseBody(script[r.attempts - 1].lines)| == 0
    decreases MaxRetry - index
  {
    var a := script[index];
    if IsSuccessful(a) then
      var records := Csv.ParseBody(a.lines);
      if |records| > 0 then Run(Fetched(records), index + 1, delays, auth)
      else Run(EmptyFailure, index + 1, delays, auth)
    else
      var delays' := if index < MaxRetry - 1 then delays + 1 else delays;
      if index + 1 < MaxRetry then FetchFrom(script, index + 1, delays', auth)
      else Run(ExhaustedFailure, index + 1, delays', auth)
  }

  /** `fetchCsv(userId, phoneNumber)` against a network that answers attempt `i` with `script[i]`. */
  function Fetch(userId: string, phoneNumber: string, script: seq<Attempt>): (r: Run)
    requires |script| >= MaxRetry
    ensures 1 <= r.attempts <= MaxRetry && r.delays == r.attempts - 1
    ensures r.authorization == Authorization(userId, phoneNumber)
    ensures forall j :: 0 <= j < r.attempts - 1 ==> !IsSuccessful(script[j])
    ensures r.attempts < MaxRetry ==> IsSuccessful(script[r.attempts - 1])
  {
    FetchFrom(script, 0, 0, Authorization(userId, phoneNumber))
  }

  /** The loop of `fetchCsv` written as the source writes it, with early returns. */
  method FetchCsv(userId: string, phoneNumber: string, script: seq<Attempt>) returns (r: Run)
    requires |script| >= MaxRetry
    ensures r == Fetch(userId, phoneNumber, script)
  {
    var auth := Authorization(userId, phoneNumber);
    var delays := 0;
    var index := 0;
    while index < MaxRetry
      invariant index <= MaxRetry
      invariant delays == if index < MaxRetry then index else MaxRetry - 1
      invariant index < MaxRetry ==> FetchFrom(script, index, delays, auth) == Fetch(userId, phoneNumber, script)
      invariant index == MaxRetry ==> Run(ExhaustedFailure, MaxRetry, MaxRetry - 1, auth) == Fetch(userId, phoneNumber, script)
    {
      var a := script[index];
      if IsSuccessful(a) {
        var records := Csv.ParseBody(a.lines);
        if |records| > 0 {
          return Run(Fetched(records), index + 1, delays, auth);
        }
        return Run(EmptyFailure, index + 1, delays, auth);
      }
      if index < MaxRetry - 1 {
        delays := delays + 1;
      }
      index := index + 1;
    }
    r := Run(ExhaustedFailure, MaxRetry, delays, auth);
  }

  /** The first 2xx response ends the loop: the call makes exactly as many requests
      as it takes to reach it, and its records decide success or `csv_empty`. */
  lemma {:induction false} StopsAtFirstSuccess(userId: string, phoneNumber: string, script: seq<Attempt>, i: nat)
    requires |script| >= MaxRetry && i < MaxRetry
    requires IsSuccessful(script[i])
    requires forall j :: 0 <= j < i ==> !IsSuccessful(script[j])
    ensures Fetch(userId, phoneNumber, script).attempts == i + 1
    ensures Fetch(userId, phoneNumber, script).delays == i
    ensures Fetch(userId, phoneNumber, script).result ==
      (var records := Csv.ParseBody(script[i].lines);
       if |records| > 0 then Fetched(records) else EmptyFailure)
  {
  }

  /** When no attempt sees a 2xx status, all three requests are made and the result
      is the generic `csv_fetch_failed` failure; and that failure means exactly this. */
  lemma ExhaustedIffNoSuccess(userId: string, phoneNumber: string, script: seq<Attempt>)
    requires |script| >= MaxRetry
    ensures Fetch(userId, phoneNumber, script).result == ExhaustedFailure
        <==> forall j :: 0 <= j < MaxRetry ==> !IsSuccessful(script[j])
    ensures Fetch(userId, phoneNumber, script).result == ExhaustedFailure
        ==> Fetch(userId, phoneNumber, script).attempts == MaxRetry
  {
  }

  /** A fetch never succeeds with an empty record list. */
  lemma NeverEmptySuccess(userId: string, phoneNumber: string, script: seq<Attempt>)
    requires |script| >= MaxRetry
    ensures Fetch(userId, phoneNumber, script).result.Fetched? ==> |Fetch(userId, phoneNumber, script).result.records| > 0
    ensures Fetch(userId, phoneNumber, script).result.FetchFailed? ==>
      Fetch(userId, phoneNumber, script).result in {EmptyFailure, ExhaustedFailure}
  {
  }

  /** Only the first three network answers matter. */
  lemma OnlyThreeAttemptsMatter(userId: string, phoneNumber: string, s1: seq<Attempt>, s2: seq<Attempt>)
    requires |s1| >= MaxRetry && |s2| >= MaxRetry
    requires s1[..MaxRetry] == s2[..MaxRetry]
    ensures Fetch(userId, phoneNumber, s1) == Fetch(userId, phoneNumber, s2)
  {
    assert s1[0] == s2[0] && s1[1] == s2[1] && s1[2] == s2[2] by {
      assert s1[..MaxRetry][0] == s2[..MaxRetry][0];
      assert s1[..MaxRetry][1] == s2[..MaxRetry][1];
      assert s1[..MaxRetry][2] == s2[..MaxRetry][2];
    }
  }
}
