/**
  The part of `onTagDetected` both variants share: the serial of a tag and the
  first record that lists it.
 */
module Matching {
  import opened Optional
  import opened KText
  import opened Model
  import opened Hex

  /** An NFC `Tag` as the core sees it: its id, which may be null. */
  datatype Tag = Tag(id: Option<seq<Int8>>)

  /** `tag.id?.joinToString(separator = "") { "%02X".format(it) } ?: ""`: blank exactly
      when the id is null or empty, empty for a null id, upper-case hex digits only, and
      otherwise it reads back as the id. */
  function SerialOf(tag: Tag): (s: string)
    ensures IsBlank(s) <==> tag.id.None? || |tag.id.value| == 0
    ensures tag.id.None? ==> s == ""
    ensures forall i :: 0 <= i < |s| ==> IsUpperHexDigit(s[i])
    ensures tag.id.Some? ==> ParseSerial(s) == Some(tag.id.value)
  {
    match tag.id
    case None => ""
    case Some(id) =>
      SerialBlankIffEmpty(id);
      ParseSerialOfSerial(id);
      Serial(id)
  }

  /** `record.columns.any { column -> column.equals(serial, ignoreCase = true) }`. */
  predicate RecordMatches(record: CsvRecord, serial: string) {
    exists i :: 0 <= i < |record.columns| && EqualsIgnoreCase(record.columns[i], serial)
  }

  /** `records[k]` lists the serial and no record before it does. */
  predicate IsFirstMatch(records: seq<CsvRecord>, serial: string, k: nat) {
    && k < |records|
    && RecordMatches(records[k], serial)
    && forall j :: 0 <= j < k ==> !RecordMatches(records[j], serial)
  }

  /** The position of the first record from `from` on that lists the serial. */
  function FirstMatchFrom(records: seq<CsvRecord>, serial: string, from: nat): (r: Option<nat>)
    requires from <= |records|
    ensures r.Some? ==> from <= r.value < |records| && RecordMatches(records[r.value], serial)
    ensures r.Some? ==> forall j :: from <= j < r.value ==> !RecordMatches(records[j], serial)
    ensures r.None? <==> forall j :: from <= j < |records| ==> !RecordMatches(records[j], serial)
    decreases |records| - from
  {
    if from == |records| then None
    else if RecordMatches(records[from], serial) then Some(from)
    else FirstMatchFrom(records, serial, from + 1)
  }

  /** `csvRecords.firstOrNull { ... }`: the first record in list order that lists the
      serial, ignoring case, or none when no record does. */
  function FindMatch(records: seq<CsvRecord>, serial: string): (m: Option<CsvRecord>)
    ensures m.None? <==> forall j :: 0 <= j < |records| ==> !RecordMatches(records[j], serial)
    ensures forall k: nat :: IsFirstMatch(records, serial, k) ==> m == Some(records[k])
  {
    match FirstMatchFrom(records, serial, 0)
    case None => None
    case Some(k) =>
      assert IsFirstMatch(records, serial, k);
      Some(records[k])
  }

  /** The first match of a concatenation is the first match of the front part, or,
      when the front part has none, the first match of the back part. */
  lemma FindMatchAppend(a: seq<CsvRecord>, b: seq<CsvRecord>, serial: string)
    ensures FindMatch(a + b, serial) == if FindMatch(a, serial).Some? then FindMatch(a, serial) else FindMatch(b, serial)
  {
    var ab := a + b;
    match FirstMatchFrom(a, serial, 0)
    case Some(k) =>
      assert IsFirstMatch(a, serial, k);
      assert IsFirstMatch(ab, serial, k) by {
        assert forall j :: 0 <= j <= k ==> ab[j] == a[j];
      }
    case None =>
      match FirstMatchFrom(b, serial, 0)
      case Some(k) =>
        assert IsFirstMatch(b, serial, k);
        assert IsFirstMatch(ab, serial, |a| + k) by {
          assert forall j :: 0 <= j < |a| ==> ab[j] == a[j];
          assert forall j :: |a| <= j <= |a| + k ==> ab[j] == b[j - |a|];
        }
      case None =>
        assert forall j :: 0 <= j < |ab| ==> ab[j] == if j < |a| then a[j] else b[j - |a|];
  }

  /** Matching looks at the serial only up to case: two serials that agree when
      upper-cased find the same record. */
  lemma FindMatchIgnoresCase(records: seq<CsvRecord>, s: string, t: string)
    requires Upper(s) == Upper(t)
    ensures FindMatch(records, s) == FindMatch(records, t)
  {
    forall c: string ensures EqualsIgnoreCase(c, s) <==> EqualsIgnoreCase(c, t) {
      EqualsIgnoreCaseIffUpper(c, s);
      EqualsIgnoreCaseIffUpper(c, t);
    }
    forall k: nat ensures IsFirstMatch(records, s, k) <==> IsFirstMatch(records, t, k) {
      forall j | 0 <= j < |records| ensures RecordMatches(records[j], s) <==> RecordMatches(records[j], t) {
      }
    }
    match FirstMatchFrom(records, s, 0)
    case Some(k) =>
      assert IsFirstMatch(records, s, k);
    case None =>
  }

  /** A tag is found in the first record that lists its id as hex, whatever case
      the record writes the hex in. */
  lemma TagFindsRecordListingItsHex(records: seq<CsvRecord>, hex: string, k: nat)
    requires |hex| % 2 == 0
    requires forall i :: 0 <= i < |hex| ==> IsHexDigit(hex[i])
    requires IsFirstMatch(records, hex, k)
    ensures ParseSerial(hex).Some?
    ensures FindMatch(records, SerialOf(Tag(ParseSerial(hex)))) == Some(records[k])
  {
    SerialOfParseSerial(hex);
    var serial := SerialOf(Tag(ParseSerial(hex)));
    UpperIdempotent(hex);
    FindMatchIgnoresCase(records, serial, hex);
  }

  /** Upper-casing twice is upper-casing once. */
  lemma UpperIdempotent(s: string)
    ensures Upper(Upper(s)) == Upper(s)
  {
  }
}
