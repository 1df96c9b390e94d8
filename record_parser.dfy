/**
 * The record parser: one line `<id>,<name>[,<email>]` becomes a `Record`
 * or a `ParseError`.
 */
module RecordParser {
  import opened Wrappers
  import opened Decimal
  import opened Text

  datatype Record = Record(id: Int32, name: string, email: Option<string>)

  /**
   * `InvalidId` wraps the integer parser's error, as `#[from] ParseIntError`
   * does; `MissingField` names the absent field.
   */
  datatype ParseError = InvalidId(kind: IntErrorKind) | EmptyRecord | MissingField(field: string)

  /** `parse_record`: fields are the comma-separated pieces; fields past the third are ignored. */
  function ParseRecord(line: string): (r: Result<Record, ParseError>)
    ensures r != Err(EmptyRecord)
    ensures r.Ok? ==> r.value.name != [] && ',' !in r.value.name
    ensures r.Ok? && r.value.email.Some? ==> r.value.email.value != [] && ',' !in r.value.email.value
  {
    var fields := Split(line, ',');
    match ParseInt32(fields[0])
    case Err(kind) => Err(InvalidId(kind))
    case Ok(id) =>
      if |fields| < 2 || fields[1] == [] then Err(MissingField("name"))
      else
        var email := if |fields| < 3 || fields[2] == [] then None else Some(fields[2]);
        Ok(Record(id, fields[1], email))
  }

  /** The id field is valid when it is a decimal numeral that fits `i32`. */
  ghost predicate ValidId(field: string)
  {
    IsDecimal(field) && I32_MIN <= DecimalValue(field) <= I32_MAX
  }

  /**
   * The first field decides `InvalidId`: the line fails with it exactly when
   * the text before the first comma (possibly empty) is not a valid id, and
   * on success the record's id is that field's value.
   */
  lemma ParseRecordId(line: string)
    ensures var r, f := ParseRecord(line), Split(line, ',')[0];
      (r.Err? && r.error.InvalidId? <==> !ValidId(f))
      && (r.Ok? ==> ValidId(f) && r.value.id == DecimalValue(f))
  {
    ParseInt32Correct(Split(line, ',')[0]);
  }

  /** An empty line, or one that starts with a comma, has an empty id field. */
  lemma ParseRecordEmptyId(line: string)
    requires line == [] || line[0] == ','
    ensures ParseRecord(line) == Err(InvalidId(Empty))
  {
    if line != [] {
      assert line == [] + [','] + line[1..];
      SplitAround([], ',', line[1..]);
    }
  }

  /**
   * Once the id is valid, the line fails with `MissingField("name")` exactly
   * when there is no second field or it is empty; otherwise the name is the
   * second field and the email the third, unless that is absent or empty.
   */
  lemma ParseRecordFields(line: string)
    requires ValidId(Split(line, ',')[0])
    ensures var r, fields := ParseRecord(line), Split(line, ',');
      (r == Err(MissingField("name")) <==> |fields| < 2 || fields[1] == [])
      && (r.Ok? <==> |fields| >= 2 && fields[1] != [])
      && (r.Ok? ==> r.value.name == fields[1])
      && (r.Ok? ==> r.value.email == if |fields| < 3 || fields[2] == [] then None else Some(fields[2]))
  {
    ParseInt32Correct(Split(line, ',')[0]);
  }

  /** Anything after the third field is ignored. */
  lemma ParseRecordIgnoresExtraFields(line: string, extra: string)
    requires |Split(line, ',')| >= 3
    ensures ParseRecord(line + [','] + extra) == ParseRecord(line)
  {
    SplitAround(line, ',', extra);
  }

  /** A line `<id>,<name>` gives that id, that name and no email. */
  lemma ParseIdName(id: Int32, name: string)
    requires name != [] && ',' !in name
    ensures ParseRecord(FormatInt(id) + [','] + name) == Ok(Record(id, name, None))
  {
    var fields := [FormatInt(id), name];
    FormatIntHasNoSeparator(id, ',');
    assert Join(fields[1..], ',') == name;
    SplitJoin(fields, ',');
    ParseFormatInt(id);
  }

  /**
   * A line `<id>,<name>,<email>` gives that id and name; the email is absent
   * when its field is empty and is that field otherwise.
   */
  lemma ParseIdNameEmail(id: Int32, name: string, email: string)
    requires name != [] && ',' !in name && ',' !in email
    ensures ParseRecord(FormatInt(id) + [','] + name + [','] + email)
      == Ok(Record(id, name, if email == [] then None else Some(email)))
  {
    var fields := [FormatInt(id), name, email];
    FormatIntHasNoSeparator(id, ',');
    assert Join(fields[2..], ',') == email;
    assert Join(fields[1..], ',') == name + [','] + email;
    assert FormatInt(id) + [','] + name + [','] + email == Join(fields, ',');
    SplitJoin(fields, ',');
    ParseFormatInt(id);
  }
}
