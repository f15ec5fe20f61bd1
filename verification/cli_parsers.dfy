/** The argument parsers and validators of the command line: dates, tag
    paths, positive integers, priorities and tag names. A parser either
    returns the normalised value or fails with the message the command
    line prints. */
module CliParsers {
  import opened Wrappers
  import opened Text
  import opened Numbers
  import opened Tags

  // ---------------------------------------------------------------------------
  // Dates

  /** `\d{4}-\d{2}-\d{2}` matched against the whole string. */
  predicate YmdShape(s: string) {
    |s| == 10 && s[4] == '-' && s[7] == '-' &&
    forall i :: 0 <= i < 10 && i != 4 && i != 7 ==> IsDigit(s[i])
  }

  /** `\d{4}-\d{2}-\d{2} \d{2}:\d{2}:\d{2}` matched against the whole string. */
  predicate DateTimeShape(s: string) {
    |s| == 19 && YmdShape(s[..10]) && s[10] == ' ' && s[13] == ':' && s[16] == ':' &&
    forall i :: 11 <= i < 19 && i != 13 && i != 16 ==> IsDigit(s[i])
  }

  function Quoted(s: string): string {
    "\"" + s + "\""
  }

  /** `dateYmdType`: the trimmed value when it has the `YYYY-MM-DD` shape.
      Only the shape is checked, not the calendar. */
  function DateYmd(kind: string, name: string, value: string): (r: Result<string>)
    ensures r.Ok? <==> YmdShape(Trim(value))
    ensures r.Ok? ==> r.value == Trim(value)
    ensures r.Err? ==> r.message == kind + " " + Quoted(name) + " must use YYYY-MM-DD, but got " + Quoted(value) + "."
  {
    var normalized := Trim(value);
    if YmdShape(normalized) then Ok(normalized)
    else Err(kind + " " + Quoted(name) + " must use YYYY-MM-DD, but got " + Quoted(value) + ".")
  }

  /** `dateTimeSecondType`: the trimmed value when it has the
      `YYYY-MM-DD HH:MM:SS` shape. */
  function DateTimeSecond(kind: string, name: string, value: string): (r: Result<string>)
    ensures r.Ok? <==> DateTimeShape(Trim(value))
    ensures r.Ok? ==> r.value == Trim(value)
    ensures r.Err? ==> r.message == kind + " " + Quoted(name) + " must use YYYY-MM-DD HH:MM:SS, but got " + Quoted(value) + "."
  {
    var normalized := Trim(value);
    if DateTimeShape(normalized) then Ok(normalized)
    else Err(kind + " " + Quoted(name) + " must use YYYY-MM-DD HH:MM:SS, but got " + Quoted(value) + ".")
  }

  /** A shaped value has no surrounding space, so it is its own trim. */
  lemma ShapedIsTrimmed(s: string)
    requires YmdShape(s) || DateTimeShape(s)
    ensures Trim(s) == s
  {
    assert !IsSpace(s[0]) && !IsSpace(s[|s| - 1]);
    TrimOfTrimmed(s);
  }

  /** Re-parsing an accepted date gives it back. */
  lemma DateYmdIdempotent(kind: string, name: string, value: string)
    requires DateYmd(kind, name, value).Ok?
    ensures DateYmd(kind, name, DateYmd(kind, name, value).value) == DateYmd(kind, name, value)
  {
    ShapedIsTrimmed(Trim(value));
  }

  lemma DateTimeSecondIdempotent(kind: string, name: string, value: string)
    requires DateTimeSecond(kind, name, value).Ok?
    ensures DateTimeSecond(kind, name, DateTimeSecond(kind, name, value).value) == DateTimeSecond(kind, name, value)
  {
    ShapedIsTrimmed(Trim(value));
  }

  /** No calendar check: the 31st of February is accepted. */
  lemma NoCalendarCheck()
    ensures DateYmd("Option", "due-date", "2024-02-31") == Ok("2024-02-31")
  {
    var s := "2024-02-31";
    assert |s| == 10 && s[4] == '-' && s[7] == '-';
    assert IsDigit(s[0]) && IsDigit(s[1]) && IsDigit(s[2]) && IsDigit(s[3]);
    assert IsDigit(s[5]) && IsDigit(s[6]) && IsDigit(s[8]) && IsDigit(s[9]);
    assert YmdShape(s);
    ShapedIsTrimmed(s);
  }

  // ---------------------------------------------------------------------------
  // Tag paths

  /** `tagPathType`: split on `/`, trim each segment, reject an empty one,
      lower-case, reject one outside `[a-z0-9]+`, and join back with `/`. */
  function TagPathArg(kind: string, name: string, value: string): (r: Result<string>)
    ensures r.Ok? <==> NormalizeTagPath(value).Ok?
    ensures r.Ok? ==> r.value == Join(NormalizeTagPath(value).value, "/")
    ensures r.Err? && !NoEmpty(TrimAll(Split(value, '/'))) ==>
      r.message == kind + " " + Quoted(name) + " must be a slash-separated path with non-empty segments, but got " + Quoted(value) + "."
    ensures r.Err? && NoEmpty(TrimAll(Split(value, '/'))) ==>
      r.message == kind + " " + Quoted(name) + " must contain only alphanumeric segments, but got " + Quoted(value) + "."
  {
    var segments := TrimAll(Split(value, '/'));
    if !NoEmpty(segments) then
      Err(kind + " " + Quoted(name) + " must be a slash-separated path with non-empty segments, but got " + Quoted(value) + ".")
    else
      var normalized := LowerAll(segments);
      if !AllWords(normalized) then
        Err(kind + " " + Quoted(name) + " must contain only alphanumeric segments, but got " + Quoted(value) + ".")
      else Ok(Join(normalized, "/"))
  }

  /** The argument parser's output is a normal path: parsing it again gives
      it back, and the database's path normaliser reads the same segments. */
  lemma TagPathArgIdempotent(kind: string, name: string, value: string)
    requires TagPathArg(kind, name, value).Ok?
    ensures TagPathArg(kind, name, TagPathArg(kind, name, value).value) == TagPathArg(kind, name, value)
    ensures NormalizeTagPath(TagPathArg(kind, name, value).value) == NormalizeTagPath(value)
  {
    NormalizeJoined(NormalizeTagPath(value).value);
  }

  // ---------------------------------------------------------------------------
  // Numbers

  /** `parsePositiveInteger` on a number: the number when it is an integer
      above 0. */
  function ParsePositiveInteger(raw: real, optionName: string): (r: Result<int>)
    ensures r.Ok? <==> IsInteger(raw) && raw > 0.0
    ensures r.Ok? ==> r.value > 0 && r.value as real == raw
    ensures r.Err? ==> r.message == "Invalid " + optionName + ". Use a positive integer"
  {
    if !IsInteger(raw) || raw <= 0.0 then Err("Invalid " + optionName + ". Use a positive integer")
    else Ok(raw.Floor)
  }

  /** `parsePriority`: a positive integer from 1 to 5; a value that is not
      a positive integer fails with the positive-integer message first. */
  function ParsePriority(raw: real, optionName: string): (r: Result<int>)
    ensures r.Ok? <==> IsInteger(raw) && 1.0 <= raw <= 5.0
    ensures r.Ok? ==> 1 <= r.value <= 5 && r.value as real == raw
    ensures r.Err? && (!IsInteger(raw) || raw <= 0.0) ==> r.message == "Invalid " + optionName + ". Use a positive integer"
    ensures r.Err? && IsInteger(raw) && raw > 0.0 ==> r.message == "Invalid " + optionName + ". Use an integer from 1 to 5"
  {
    var parsed :- ParsePositiveInteger(raw, optionName);
    if parsed < 1 || parsed > 5 then Err("Invalid " + optionName + ". Use an integer from 1 to 5")
    else Ok(parsed)
  }

  /** Every integer reads back as itself when positive, and as a priority
      exactly when the database would store it. */
  lemma ParseIntegers(n: int, optionName: string)
    ensures ParsePositiveInteger(n as real, optionName) == (if n > 0 then Ok(n) else Err("Invalid " + optionName + ". Use a positive integer"))
    ensures ParsePriority(n as real, optionName).Ok? <==> Schema.ValidPriority(Some(n))
  {
    IntegerOfInt(n);
  }

  // ---------------------------------------------------------------------------
  // Tag names

  /** `name.trim().toLowerCase()` accepted when it matches `[a-z0-9]+`,
      failing with `message` otherwise. */
  function NormalizeName(name: string, message: string): (r: Result<string>)
    ensures r.Ok? <==> IsAlnumWord(Lower(Trim(name)))
    ensures r.Ok? ==> r.value == Lower(Trim(name)) && IsAlnumWord(r.value)
    ensures r.Err? ==> r.message == message
  {
    var normalized := Lower(Trim(name));
    if IsAlnumWord(normalized) then Ok(normalized) else Err(message)
  }

  const TagNameError := "Invalid --name. Use lowercase alphanumeric text"

  /** `normalizeTagName` of the tag commands. */
  function NormalizeTagName(name: string): (r: Result<string>)
    ensures r.Ok? ==> r.value == Lower(Trim(name)) && Schema.ValidTagName(r.value)
    ensures r.Err? <==> Lower(Trim(name)) == [] || exists i :: 0 <= i < |Lower(Trim(name))| && !IsLowerAlnum(Lower(Trim(name))[i])
    ensures r.Err? ==> r.message == TagNameError
  {
    NormalizeName(name, TagNameError)
  }

  /** A normalised name normalises to itself, and a valid tag name is
      accepted as it is: the accepted names are exactly the valid names up
      to surrounding space and case. */
  lemma NormalizeNameIdempotent(name: string, message: string)
    ensures NormalizeName(name, message).Ok? ==>
      NormalizeName(NormalizeName(name, message).value, message) == NormalizeName(name, message)
    ensures Schema.ValidTagName(name) ==> NormalizeName(name, message) == Ok(name)
  {
    if NormalizeName(name, message).Ok? {
      var w := NormalizeName(name, message).value;
      TrimOfWord(w);
      LowerOfWord(w);
    }
    if Schema.ValidTagName(name) {
      TrimOfWord(name);
      LowerOfWord(name);
    }
  }
}
