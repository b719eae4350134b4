/**
  Worked examples of the whole engine: a login against a scripted server
  followed by a tag tap.
 */
module Scenarios {
  import opened Optional
  import opened KText
  import opened Model
  import opened Matching
  import Hex
  import Csv
  import Repository
  import Session

  /** A field the server can send as is: no comma, no surrounding whitespace. */
  predicate PlainField(f: string) {
    ',' !in f && (|f| > 0 ==> !IsWhitespace(f[0]) && !IsWhitespace(f[|f| - 1]))
  }

  /** The body line `userId,phone,serial`. */
  function Row(userId: string, phone: string, serial: string): string {
    userId + [','] + (phone + [','] + serial)
  }

  /** Such a line splits into its three fields, which need no trimming. */
  lemma RowParses(userId: string, phone: string, serial: string)
    requires PlainField(userId) && PlainField(phone) && PlainField(serial)
    ensures Csv.ParseLine(Row(userId, phone, serial)) == CsvRecord([userId, phone, serial])
  {
    var fields := [userId, phone, serial];
    assert Split(Row(userId, phone, serial), ',') == fields by {
      RowSplits(userId, phone, serial);
    }
    assert Csv.TrimAll(fields) == fields by {
      TrimAllPlain(fields);
    }
  }

  /** The line cuts at its two commas. */
  lemma RowSplits(userId: string, phone: string, serial: string)
    requires PlainField(userId) && PlainField(phone) && PlainField(serial)
    ensures Split(Row(userId, phone, serial), ',') == [userId, phone, serial]
  {
    SplitNoSep(serial, ',');
    SplitPrefix(phone, serial, ',');
    SplitPrefix(userId, phone + [','] + serial, ',');
  }

  /** Fields without surrounding whitespace come through trimming unchanged. */
  lemma TrimAllPlain(pieces: seq<string>)
    requires forall k :: 0 <= k < |pieces| ==> PlainField(pieces[k])
    ensures Csv.TrimAll(pieces) == pieces
  {
    var r := Csv.TrimAll(pieces);
    forall k | 0 <= k < |pieces| ensures r[k] == pieces[k] {
      TrimOfTrimmed(pieces[k]);
      TrimmedFromUnique(pieces[k], r[k], Trim(pieces[k]));
    }
  }

  /** A body of that line alone is one record. */
  lemma RowLine(userId: string, phone: string, serial: string)
    requires PlainField(userId) && PlainField(phone) && PlainField(serial)
    ensures Csv.ParseBody([Row(userId, phone, serial)]) == [CsvRecord([userId, phone, serial])]
  {
    RowParses(userId, phone, serial);
    RowNotBlank(userId, phone, serial);
    Csv.ParseSingleLine(Row(userId, phone, serial));
  }

  /** The line holds a comma, so it is not blank. */
  lemma RowNotBlank(userId: string, phone: string, serial: string)
    ensures !IsBlank(Row(userId, phone, serial))
  {
    assert Row(userId, phone, serial)[|userId|] == ',';
  }

  /** A trailing blank line adds nothing. */
  lemma RowBody(userId: string, phone: string, serial: string)
    requires PlainField(userId) && PlainField(phone) && PlainField(serial)
    ensures Csv.ParseBody([Row(userId, phone, serial), ""]) == [CsvRecord([userId, phone, serial])]
  {
    var row := Row(userId, phone, serial);
    RowLine(userId, phone, serial);
    Csv.ParseSingleLine("");
    Csv.ParseBodyAppend([row], [""]);
    assert [row] + [""] == [row, ""];
  }

  /** The server answers the first request with that line and a trailing blank line:
      one request, no pause, Success with the one record, ready-to-scan prompt. */
  lemma LoginWithOneRow(userId: string, phone: string, serial: string, rest: seq<Repository.Attempt>)
    requires PlainField(userId) && PlainField(phone) && PlainField(serial)
    requires |rest| >= 2
    ensures Repository.Fetch(userId, phone, [Repository.Status(200, [Row(userId, phone, serial)])] + rest).attempts == 1
    ensures Session.Login(Session.Initial, userId, phone, [Repository.Status(200, [Row(userId, phone, serial)])] + rest)
         == Session.ViewModel(Success([CsvRecord([userId, phone, serial])]), Res(LoginSuccessNfcPrompt),
                              Res(SerialDefault), None, [CsvRecord([userId, phone, serial])])
  {
    var script := [Repository.Status(200, [Row(userId, phone, serial)])] + rest;
    RowLine(userId, phone, serial);
    Repository.StopsAtFirstSuccess(userId, phone, script, 0);
  }

  /** Tapping a tag whose id is listed in the session's one record reports that record. */
  lemma TapListedTag(userId: string, phone: string, id: seq<Hex.Int8>)
    requires |id| > 0
    ensures
      var vm := Session.ViewModel(Success([CsvRecord([userId, phone, Hex.Serial(id)])]), Res(LoginSuccessNfcPrompt),
                                  Res(SerialDefault), None, [CsvRecord([userId, phone, Hex.Serial(id)])]);
      Session.OnTagDetected(vm, Some(Tag(Some(id)))).nfcMessage
        == ResArg(MatchSuccess, Join([userId, phone, Hex.Serial(id)], " / "))
  {
    var serial := Hex.Serial(id);
    var records := [CsvRecord([userId, phone, serial])];
    assert EqualsIgnoreCase(records[0].columns[2], serial);
    assert IsFirstMatch(records, SerialOf(Tag(Some(id))), 0);
  }

  /** The bytes AA BB CC DD (as Kotlin's signed bytes) give the serial "AABBCCDD". */
  lemma SerialOfSampleTag()
    ensures Hex.Serial([-86, -69, -52, -35]) == "AABBCCDD"
  {
    var id: seq<Hex.Int8> := [-86, -69, -52, -35];
    assert Hex.ByteHex(-86) == "AA";
    assert Hex.ByteHex(-69) == "BB";
    assert Hex.ByteHex(-52) == "CC";
    assert Hex.ByteHex(-35) == "DD";
    assert Hex.Serial(id[3..]) == "DD";
    assert Hex.Serial(id[2..]) == "CC" + "DD";
    assert Hex.Serial(id[1..]) == "BB" + "CCDD";
  }

  /** Status 500 three times: three requests, two pauses, Error with the generic
      message, progress cleared, earlier records kept. */
  lemma ServerErrorThreeTimes(vm: Session.ViewModel, userId: string, phone: string)
    ensures var script := [Repository.Status(500, []), Repository.Status(500, []), Repository.Status(500, [])];
      && Repository.Fetch(userId, phone, script).attempts == 3
      && Repository.Fetch(userId, phone, script).delays == 2
      && Session.Login(vm, userId, phone, script).loginState == Error(Res(CsvFetchFailed))
      && Session.Login(vm, userId, phone, script).progressMessage == None
      && Session.Login(vm, userId, phone, script).csvRecords == vm.csvRecords
  {
    var script := [Repository.Status(500, []), Repository.Status(500, []), Repository.Status(500, [])];
    Repository.ExhaustedIffNoSuccess(userId, phone, script);
  }

  /** Status 200 with only blank lines: one request, Error with the `csv_empty` message. */
  lemma BlankBody(vm: Session.ViewModel, userId: string, phone: string, rest: seq<Repository.Attempt>)
    requires |rest| >= 2
    ensures var script := [Repository.Status(200, ["", " ", "\t"])] + rest;
      && Repository.Fetch(userId, phone, script).attempts == 1
      && Session.Login(vm, userId, phone, script).loginState == Error(Res(CsvEmpty))
  {
    var script := [Repository.Status(200, ["", " ", "\t"])] + rest;
    assert IsWhitespace(' ') && IsWhitespace('\t');
    assert |Csv.ParseBody(script[0].lines)| == 0;
    Repository.StopsAtFirstSuccess(userId, phone, script, 0);
  }

  /** A failure then a good answer: the second request succeeds and no third is made. */
  lemma SuccessOnSecondAttempt(userId: string, phone: string, serial: string, third: Repository.Attempt)
    requires PlainField(userId) && PlainField(phone) && PlainField(serial)
    ensures var script := [Repository.Exn, Repository.Status(204, [Row(userId, phone, serial)]), third];
      && Repository.Fetch(userId, phone, script).attempts == 2
      && Repository.Fetch(userId, phone, script).delays == 1
      && Repository.Fetch(userId, phone, script).result == Fetched([CsvRecord([userId, phone, serial])])
  {
    var script := [Repository.Exn, Repository.Status(204, [Row(userId, phone, serial)]), third];
    RowLine(userId, phone, serial);
    Repository.StopsAtFirstSuccess(userId, phone, script, 1);
  }
}
