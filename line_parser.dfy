/**
 * The record parser: one pipe-delimited line
 * `event_id|event_name|start|end|parent_or_NULL|description`
 * becomes an event, a diagnostic, or nothing at all for a blank line.
 *
 * JavaScript's `Date` engine is not modelled: `dates` is the partial map
 * from text to milliseconds that `new Date(text)` computes (None for NaN).
 */
module LineParser {
  import opened Wrappers
  import opened Text
  import opened Timing
  import opened Events

  const FieldCount: nat := 6
  const ExcerptLength: nat := 120

  predicate IsHexDigit(c: char) {
    '0' <= c <= '9' || 'a' <= c <= 'f' || 'A' <= c <= 'F'
  }

  predicate AllHex(s: string) {
    forall i | 0 <= i < |s| :: IsHexDigit(s[i])
  }

  predicate IsHyphenPosition(i: int) {
    i == 8 || i == 13 || i == 18 || i == 23
  }

  /** `UUID_REGEX.test(s)`: 36 characters, hyphens at 8, 13, 18 and 23, hex elsewhere, any case. */
  predicate IsValidUUID(s: string) {
    |s| == 36 && forall i | 0 <= i < 36 :: if IsHyphenPosition(i) then s[i] == '-' else IsHexDigit(s[i])
  }

  /** The string form of section 3 of RFC 4122: hex groups of 8, 4, 4, 4 and 12 digits joined by hyphens. */
  predicate HexGroups(s: string) {
    && |s| == 36
    && AllHex(s[0..8]) && s[8] == '-'
    && AllHex(s[9..13]) && s[13] == '-'
    && AllHex(s[14..18]) && s[18] == '-'
    && AllHex(s[19..23]) && s[23] == '-'
    && AllHex(s[24..36])
  }

  lemma UuidIsHexGroups(s: string)
    ensures IsValidUUID(s) <==> HexGroups(s)
  {
    if HexGroups(s) {
      forall i | 0 <= i < 36
        ensures if IsHyphenPosition(i) then s[i] == '-' else IsHexDigit(s[i])
      {
        if i < 8 { assert s[0..8][i] == s[i]; }
        else if 9 <= i < 13 { assert s[9..13][i - 9] == s[i]; }
        else if 14 <= i < 18 { assert s[14..18][i - 14] == s[i]; }
        else if 19 <= i < 23 { assert s[19..23][i - 19] == s[i]; }
        else if 24 <= i { assert s[24..36][i - 24] == s[i]; }
      }
    }
  }

  /** The id check ignores case: a string passes exactly when its upper-cased form does. */
  lemma UuidIgnoresCase(s: string)
    ensures IsValidUUID(s) <==> IsValidUUID(ToUpperAscii(s))
  {
    var u := ToUpperAscii(s);
    if IsValidUUID(u) && |s| == 36 {
      forall i | 0 <= i < 36
        ensures if IsHyphenPosition(i) then s[i] == '-' else IsHexDigit(s[i])
      {
        assert u[i] == if 'a' <= s[i] <= 'z' then (s[i] as int - 32) as char else s[i];
      }
    }
  }

  /** `isValidISODate`: the Date engine accepts the text and it has a time part ('T'). */
  predicate IsValidISODate(text: string, dates: string -> Option<int>) {
    dates(text).Some? && 'T' in text
  }

  /** The parent field names no parent: empty, or `NULL` in any letter case. */
  predicate IsNullParent(text: string) {
    text == "" || ToUpperAscii(text) == "NULL"
  }

  datatype ParseError =
    | Malformed(lineNumber: nat, fieldCount: nat, excerpt: string)
    | InvalidEventId(lineNumber: nat, text: string)
    | MissingName(lineNumber: nat, eventId: string)
    | InvalidStart(lineNumber: nat, eventId: string, text: string)
    | InvalidEnd(lineNumber: nat, eventId: string, text: string)
    | EndBeforeStart(lineNumber: nat, eventId: string)
    | InvalidParent(lineNumber: nat, text: string)

  /** The diagnostic text the parser returns for each kind of rejection. */
  function Message(e: ParseError): string {
    "Line " + NatToString(e.lineNumber) + ": " +
    match e
    case Malformed(_, n, x) =>
      "Malformed entry (expected 6 fields, got " + NatToString(n) + "): '" + x + "'"
    case InvalidEventId(_, t) => "Invalid UUID for event_id: '" + t + "'"
    case MissingName(_, id) => "Missing event_name for event '" + id + "'"
    case InvalidStart(_, id, t) => "Invalid date format for start_date of event '" + id + "': '" + t + "'"
    case InvalidEnd(_, id, t) => "Invalid date format for end_date of event '" + id + "': '" + t + "'"
    case EndBeforeStart(_, id) => "end_date is before start_date for event '" + id + "'"
    case InvalidParent(_, t) => "Invalid UUID for parent_event_id: '" + t + "'"
  }

  /** What `parseLine` returns: `{null, null}`, `{event, null}` or `{null, error}`. */
  datatype ParseOutcome = Blank | Parsed(event: Event) | Rejected(error: ParseError)

  /** The `i`-th pipe-separated field, trimmed (empty past the last field). */
  function Field(line: string, i: nat): string {
    var parts := Split(line, '|');
    if i < |parts| then Trim(parts[i]) else ""
  }

  /** The event invariants every parsed record satisfies. */
  predicate WellFormed(e: Event) {
    && IsValidUUID(e.id)
    && e.name != "" && IsTrimmed(e.name)
    && e.start <= e.end
    && e.duration == RoundMin(e.end - e.start) && e.duration >= 0
    && (e.parent.Some? ==> IsValidUUID(e.parent.value))
    && (e.description.Some? ==> e.description.value != "" && IsTrimmed(e.description.value))
  }

  /** The six trimmed fields of a line with the right field count. */
  function Fields(line: string): (fs: seq<string>)
    ensures |fs| == |Split(line, '|')|
    ensures forall i | 0 <= i < |fs| :: fs[i] == Field(line, i)
  {
    var parts := Split(line, '|');
    seq(|parts|, i requires 0 <= i < |parts| => Trim(parts[i]))
  }

  /** The checks after the field count, on the six trimmed fields. */
  function ParseFields(fs: seq<string>, lineNumber: nat, dates: string -> Option<int>): (r: ParseOutcome)
    requires |fs| == FieldCount
    requires forall i | 0 <= i < |fs| :: IsTrimmed(fs[i])
    ensures !r.Blank?
    ensures r.Rejected? ==> r.error.lineNumber == lineNumber
    ensures r.Parsed? ==> WellFormed(r.event) && r.event.metadata == NoMetadata
    ensures r.Parsed? ==> r.event.id == fs[0] && r.event.name == fs[1]
    ensures r.Parsed? ==> dates(fs[2]) == Some(r.event.start) && dates(fs[3]) == Some(r.event.end)
    ensures r.Parsed? ==> r.event.parent == if IsNullParent(fs[4]) then None else Some(fs[4])
    ensures r.Parsed? ==> r.event.description == if fs[5] == "" then None else Some(fs[5])
  {
    var id, name, startText, endText, parentText, description := fs[0], fs[1], fs[2], fs[3], fs[4], fs[5];
    if !IsValidUUID(id) then Rejected(InvalidEventId(lineNumber, id))
    else if name == "" then Rejected(MissingName(lineNumber, id))
    else if !IsValidISODate(startText, dates) then Rejected(InvalidStart(lineNumber, id, startText))
    else if !IsValidISODate(endText, dates) then Rejected(InvalidEnd(lineNumber, id, endText))
    else
      var start, end := dates(startText).value, dates(endText).value;
      if end < start then Rejected(EndBeforeStart(lineNumber, id))
      else if !IsNullParent(parentText) && !IsValidUUID(parentText) then
        Rejected(InvalidParent(lineNumber, parentText))
      else
        RoundMinNonNegative(end - start);
        var parent := if IsNullParent(parentText) then None else Some(parentText);
        var desc := if description == "" then None else Some(description);
        Parsed(Event(id, name, desc, start, end, RoundMin(end - start), parent, NoMetadata))
  }

  /** `parseLine(line, lineNumber)`. */
  function ParseLine(line: string, lineNumber: nat, dates: string -> Option<int>): (r: ParseOutcome)
    ensures r.Blank? <==> AllWhitespace(line)
    ensures r.Rejected? ==> r.error.lineNumber == lineNumber
    ensures r.Parsed? ==> WellFormed(r.event) && r.event.metadata == NoMetadata
  {
    TrimEmptyIff(line);
    if Trim(line) == "" then Blank
    else
      var parts := Split(line, '|');
      if |parts| != FieldCount then
        Rejected(Malformed(lineNumber, |parts|, Prefix(line, ExcerptLength)))
      else
        var fs := Fields(line);
        assert forall i | 0 <= i < |fs| :: IsTrimmed(fs[i]) by {
          forall i | 0 <= i < |fs| ensures IsTrimmed(fs[i]) { TrimmedIff(parts[i]); }
        }
        ParseFields(fs, lineNumber, dates)
  }

  // ---------------------------------------------------------------------------
  // The order of the checks

  /**
   * Check `k` of the parser on the trimmed fields, stated on its own:
   * 1 id, 2 name, 3 start, 4 end, 5 ordering, 6 parent (check 0, the field
   * count, is on the whole line).
   */
  predicate FieldCheck(fs: seq<string>, dates: string -> Option<int>, k: nat)
    requires |fs| == FieldCount
  {
    match k
    case 1 => IsValidUUID(fs[0])
    case 2 => fs[1] != ""
    case 3 => IsValidISODate(fs[2], dates)
    case 4 => IsValidISODate(fs[3], dates)
    case 5 =>
      var s, e := dates(fs[2]), dates(fs[3]);
      s.Some? && e.Some? && s.value <= e.value
    case _ => IsNullParent(fs[4]) || IsValidUUID(fs[4])
  }

  /** Check `k` of the parser on a whole line. */
  predicate CheckPasses(line: string, dates: string -> Option<int>, k: nat) {
    if k == 0 then |Split(line, '|')| == FieldCount
    else |Split(line, '|')| == FieldCount && FieldCheck(Fields(line), dates, k)
  }

  /** The check a diagnostic reports. */
  function CheckOf(e: ParseError): nat {
    match e
    case Malformed(_, _, _) => 0
    case InvalidEventId(_, _) => 1
    case MissingName(_, _) => 2
    case InvalidStart(_, _, _) => 3
    case InvalidEnd(_, _, _) => 4
    case EndBeforeStart(_, _) => 5
    case InvalidParent(_, _) => 6
  }

  lemma FieldCheckOrder(fs: seq<string>, lineNumber: nat, dates: string -> Option<int>)
    requires |fs| == FieldCount
    requires forall i | 0 <= i < |fs| :: IsTrimmed(fs[i])
    ensures var r := ParseFields(fs, lineNumber, dates);
      && (r.Parsed? <==> forall k | 1 <= k <= 6 :: FieldCheck(fs, dates, k))
      && (r.Rejected? ==>
            && 1 <= CheckOf(r.error)
            && !FieldCheck(fs, dates, CheckOf(r.error))
            && forall k | 1 <= k < CheckOf(r.error) :: FieldCheck(fs, dates, k))
  {
    var r := ParseFields(fs, lineNumber, dates);
    if !IsValidUUID(fs[0]) {
      assert r == Rejected(InvalidEventId(lineNumber, fs[0]));
      assert !FieldCheck(fs, dates, 1);
    } else if fs[1] == "" {
      assert r == Rejected(MissingName(lineNumber, fs[0]));
      assert FieldCheck(fs, dates, 1) && !FieldCheck(fs, dates, 2);
    } else if !IsValidISODate(fs[2], dates) {
      assert r == Rejected(InvalidStart(lineNumber, fs[0], fs[2]));
      assert FieldCheck(fs, dates, 1) && FieldCheck(fs, dates, 2) && !FieldCheck(fs, dates, 3);
    } else if !IsValidISODate(fs[3], dates) {
      assert r == Rejected(InvalidEnd(lineNumber, fs[0], fs[3]));
      assert FieldCheck(fs, dates, 1) && FieldCheck(fs, dates, 2) && FieldCheck(fs, dates, 3);
      assert !FieldCheck(fs, dates, 4);
    } else if dates(fs[3]).value < dates(fs[2]).value {
      assert r == Rejected(EndBeforeStart(lineNumber, fs[0]));
      assert FieldCheck(fs, dates, 1) && FieldCheck(fs, dates, 2) && FieldCheck(fs, dates, 3);
      assert FieldCheck(fs, dates, 4) && !FieldCheck(fs, dates, 5);
    } else if !IsNullParent(fs[4]) && !IsValidUUID(fs[4]) {
      assert r == Rejected(InvalidParent(lineNumber, fs[4]));
      assert FieldCheck(fs, dates, 1) && FieldCheck(fs, dates, 2) && FieldCheck(fs, dates, 3);
      assert FieldCheck(fs, dates, 4) && FieldCheck(fs, dates, 5) && !FieldCheck(fs, dates, 6);
    } else {
      assert r.Parsed?;
      assert FieldCheck(fs, dates, 1) && FieldCheck(fs, dates, 2) && FieldCheck(fs, dates, 3);
      assert FieldCheck(fs, dates, 4) && FieldCheck(fs, dates, 5) && FieldCheck(fs, dates, 6);
    }
  }

  /**
   * A non-blank line is accepted exactly when all seven checks pass; otherwise
   * the diagnostic names the first check that fails.
   */
  lemma ParseCheckOrder(line: string, lineNumber: nat, dates: string -> Option<int>)
    requires !AllWhitespace(line)
    ensures var r := ParseLine(line, lineNumber, dates);
      && (r.Parsed? <==> forall k | 0 <= k <= 6 :: CheckPasses(line, dates, k))
      && (r.Rejected? ==>
            && !CheckPasses(line, dates, CheckOf(r.error))
            && forall k | 0 <= k < CheckOf(r.error) :: CheckPasses(line, dates, k))
  {
    TrimEmptyIff(line);
    var r := ParseLine(line, lineNumber, dates);
    if |Split(line, '|')| == FieldCount {
      var fs := Fields(line);
      forall i | 0 <= i < |fs| ensures IsTrimmed(fs[i]) { TrimmedIff(Split(line, '|')[i]); }
      assert r == ParseFields(fs, lineNumber, dates);
      FieldCheckOrder(fs, lineNumber, dates);
      assert CheckPasses(line, dates, 0);
      assert forall k | 1 <= k <= 6 :: CheckPasses(line, dates, k) == FieldCheck(fs, dates, k);
    } else {
      assert r == Rejected(Malformed(lineNumber, |Split(line, '|')|, Prefix(line, ExcerptLength)));
      assert !CheckPasses(line, dates, 0);
    }
  }

  /** The malformed-entry diagnostic states the field count it found. */
  lemma MalformedMessageText(lineNumber: nat, n: nat, excerpt: string)
    ensures IsInfix("Malformed entry (expected 6 fields, got " + NatToString(n) + ")",
                    Message(Malformed(lineNumber, n, excerpt)))
  {
    var head := "Line " + NatToString(lineNumber) + ": ";
    var t := "Malformed entry (expected 6 fields, got " + NatToString(n) + ")";
    var tail := ": '" + excerpt + "'";
    assert Message(Malformed(lineNumber, n, excerpt)) == head + (t + tail);
    assert (head + (t + tail))[|head|..] == t + tail;
  }

  /** A line that does not split into six fields is rejected as malformed, with its field count. */
  lemma MalformedLine(line: string, lineNumber: nat, dates: string -> Option<int>)
    requires !AllWhitespace(line) && Count(line, '|') != 5
    ensures ParseLine(line, lineNumber, dates)
         == Rejected(Malformed(lineNumber, Count(line, '|') + 1, Prefix(line, ExcerptLength)))
  {
    TrimEmptyIff(line);
  }

  /**
   * The parent field: empty or `NULL` in any case gives no parent; any other
   * value is the parent when it is a UUID and a rejection otherwise.
   */
  lemma ParentField(fs: seq<string>, lineNumber: nat, dates: string -> Option<int>)
    requires |fs| == FieldCount
    requires forall i | 0 <= i < |fs| :: IsTrimmed(fs[i])
    requires IsValidUUID(fs[0]) && fs[1] != ""
    requires IsValidISODate(fs[2], dates) && IsValidISODate(fs[3], dates)
    requires dates(fs[2]).value <= dates(fs[3]).value
    ensures var r, p := ParseFields(fs, lineNumber, dates), fs[4];
      && (IsNullParent(p) ==> r.Parsed? && r.event.parent == None)
      && (!IsNullParent(p) && IsValidUUID(p) ==> r.Parsed? && r.event.parent == Some(p))
      && (!IsNullParent(p) && !IsValidUUID(p) ==> r == Rejected(InvalidParent(lineNumber, p)))
  {
    var r, p := ParseFields(fs, lineNumber, dates), fs[4];
    if IsNullParent(p) {
      assert r.Parsed? && r.event.parent == None;
    } else if IsValidUUID(p) {
      assert r.Parsed? && r.event.parent == Some(p);
    } else {
      assert r == Rejected(InvalidParent(lineNumber, p));
    }
  }

  /** Every character of a UUID is visible, so a line starting with one is not blank. */
  lemma UuidNotWhitespace(s: string, i: nat)
    requires IsValidUUID(s) && i < |s|
    ensures !IsWhitespace(s[i])
  {
    if IsHyphenPosition(i) { assert s[i] == '-'; } else { assert IsHexDigit(s[i]); }
  }

  // ---------------------------------------------------------------------------
  // Writing a record back out

  /** A field value that survives the format: no separator and nothing for `trim` to remove. */
  predicate IsPlainField(s: string) {
    '|' !in s && IsTrimmed(s)
  }

  /** The text of the parent field for an optional parent id. */
  function ParentText(p: Option<string>): string {
    if p.Some? then p.value else "NULL"
  }

  /** The six fields of the line a parsed event came from, with `iso` rendering timestamps (`toISOString`). */
  function FormatFields(e: Event, iso: int -> string): seq<string> {
    [e.id, e.name, iso(e.start), iso(e.end), ParentText(e.parent), e.description.GetOr("")]
  }

  function FormatLine(e: Event, iso: int -> string): string {
    Join(FormatFields(e, iso), '|')
  }

  /** The conditions under which `FormatLine` can be read back. */
  predicate Printable(e: Event) {
    WellFormed(e) && '|' !in e.name && e.metadata == NoMetadata
    && (e.description.Some? ==> '|' !in e.description.value)
  }

  lemma UuidIsPlain(s: string)
    requires IsValidUUID(s)
    ensures IsPlainField(s) && !IsNullParent(s)
  {
    UuidNotWhitespace(s, 0);
    UuidNotWhitespace(s, 35);
  }

  lemma FormatFieldsPlain(e: Event, iso: int -> string)
    requires Printable(e)
    requires forall t :: IsPlainField(iso(t))
    ensures var fields := FormatFields(e, iso);
      |fields| == FieldCount && forall i | 0 <= i < FieldCount :: IsPlainField(fields[i])
  {
    var fields := FormatFields(e, iso);
    UuidIsPlain(e.id);
    if e.parent.Some? { UuidIsPlain(e.parent.value); }
    assert IsPlainField(fields[2]) && IsPlainField(fields[3]);
    assert IsPlainField(fields[4]);
    assert IsPlainField(fields[5]);
  }

  /** The text `NULL` is read as "no parent". */
  lemma NullTextIsNull()
    ensures IsNullParent("NULL")
  {
    var u := ToUpperAscii("NULL");
    assert u == "NULL";
  }

  /** When every check passes, the parser builds the event from the fields. */
  lemma ParseFieldsAccept(fs: seq<string>, lineNumber: nat, dates: string -> Option<int>)
    requires |fs| == FieldCount
    requires forall i | 0 <= i < |fs| :: IsTrimmed(fs[i])
    requires IsValidUUID(fs[0]) && fs[1] != ""
    requires IsValidISODate(fs[2], dates) && IsValidISODate(fs[3], dates)
    requires dates(fs[2]).value <= dates(fs[3]).value
    requires IsNullParent(fs[4]) || IsValidUUID(fs[4])
    ensures var start, end := dates(fs[2]).value, dates(fs[3]).value;
      ParseFields(fs, lineNumber, dates) == Parsed(Event(
        fs[0], fs[1], if fs[5] == "" then None else Some(fs[5]),
        start, end, RoundMin(end - start),
        if IsNullParent(fs[4]) then None else Some(fs[4]), NoMetadata))
  {
  }

  /** The parent field reads back as the parent it was written from. */
  lemma ParentTextRead(p: Option<string>)
    requires p.Some? ==> IsValidUUID(p.value)
    ensures (if IsNullParent(ParentText(p)) then None else Some(ParentText(p))) == p
  {
    if p.Some? {
      UuidIsPlain(p.value);
    } else {
      NullTextIsNull();
    }
  }

  /** What each of the six written fields says about the event it came from. */
  lemma FormatFieldsRead(e: Event, iso: int -> string, dates: string -> Option<int>)
    requires Printable(e)
    requires forall t :: dates(iso(t)) == Some(t) && 'T' in iso(t)
    ensures var fs := FormatFields(e, iso);
      && IsValidUUID(fs[0]) && fs[0] == e.id
      && fs[1] != "" && fs[1] == e.name
      && IsValidISODate(fs[2], dates) && dates(fs[2]).value == e.start
      && IsValidISODate(fs[3], dates) && dates(fs[3]).value == e.end
      && (if IsNullParent(fs[4]) then None else Some(fs[4])) == e.parent
      && (e.parent.Some? ==> IsValidUUID(fs[4]))
      && (if fs[5] == "" then None else Some(fs[5])) == e.description
  {
    assert dates(iso(e.start)) == Some(e.start) && 'T' in iso(e.start);
    assert dates(iso(e.end)) == Some(e.end) && 'T' in iso(e.end);
    ParentTextRead(e.parent);
  }

  lemma ParseFieldsOfFormat(e: Event, iso: int -> string, lineNumber: nat, dates: string -> Option<int>)
    requires Printable(e)
    requires forall t :: dates(iso(t)) == Some(t) && 'T' in iso(t) && IsPlainField(iso(t))
    ensures var fs := FormatFields(e, iso);
      && (forall i | 0 <= i < |fs| :: IsTrimmed(fs[i]))
      && ParseFields(fs, lineNumber, dates) == Parsed(e)
  {
    var fs := FormatFields(e, iso);
    FormatFieldsPlain(e, iso);
    FormatFieldsRead(e, iso, dates);
    ParseFieldsAccept(fs, lineNumber, dates);
  }

  /** Trimming fields that are already trimmed changes none of them. */
  lemma TrimAllTrimmed(parts: seq<string>)
    requires forall i | 0 <= i < |parts| :: IsTrimmed(parts[i])
    ensures seq(|parts|, i requires 0 <= i < |parts| => Trim(parts[i])) == parts
  {
    forall i | 0 <= i < |parts| ensures Trim(parts[i]) == parts[i] {
      TrimmedIff(parts[i]);
    }
  }

  /** A written line starts with the event id, so it is not blank. */
  lemma FormatLineNotBlank(e: Event, iso: int -> string)
    requires IsValidUUID(e.id)
    ensures !AllWhitespace(FormatLine(e, iso))
  {
    var fields := FormatFields(e, iso);
    assert FormatLine(e, iso) == e.id + [('|')] + Join(fields[1..], '|');
    UuidNotWhitespace(e.id, 0);
    assert FormatLine(e, iso)[0] == e.id[0];
  }

  /** The line `FormatLine` writes splits back into the six fields, untouched by `trim`. */
  lemma FieldsOfFormat(e: Event, iso: int -> string)
    requires Printable(e)
    requires forall t :: IsPlainField(iso(t))
    ensures var line := FormatLine(e, iso);
      && !AllWhitespace(line)
      && |Split(line, '|')| == FieldCount
      && Fields(line) == FormatFields(e, iso)
  {
    var fields := FormatFields(e, iso);
    FormatFieldsPlain(e, iso);
    SplitJoin(fields, '|');
    TrimAllTrimmed(fields);
    FormatLineNotBlank(e, iso);
  }

  /**
   * Round trip: formatting a well-formed event and parsing the line gives the
   * event back, when the date engine reads back what `iso` writes.
   */
  lemma ParseFormat(e: Event, iso: int -> string, lineNumber: nat, dates: string -> Option<int>)
    requires Printable(e)
    requires forall t :: dates(iso(t)) == Some(t) && 'T' in iso(t) && IsPlainField(iso(t))
    ensures ParseLine(FormatLine(e, iso), lineNumber, dates) == Parsed(e)
  {
    FieldsOfFormat(e, iso);
    ParseFieldsOfFormat(e, iso, lineNumber, dates);
    TrimEmptyIff(FormatLine(e, iso));
  }
}
