/**
 * The self-contained validation engine of `validator.new.py`: a CSV-like
 * table is split into records (dicts from header to cell), every record is
 * checked field by field against the field definitions of the schema, and
 * exact duplicate records are reported after all per-record violations.
 */
module RecordValidator {
  import opened Wrappers
  import opened PyStr
  import opened PyDict
  import opened Lexical

  /** Digits allowed on either side of the point when a decimal field does not say. */
  const DEFAULT_DECIMAL_DIGITS: int := 10

  /**
   * One entry of the schema's `fields` object. `required`, `size` and
   * `type` are read unconditionally by the engine; the other keys are
   * optional (`None` when the key is absent).
   */
  datatype FieldSpec = FieldSpec(
    required: bool,
    size: int,
    fieldType: string,
    sizeBeforeDecimal: Option<int>,
    sizeAfterDecimal: Option<int>,
    range: Option<seq<real>>,
    zeroCheck: bool,
    allowedValues: Option<seq<string>>)

  /** The schema document: field definitions, declared columns and the duplicate switch. */
  datatype Schema = Schema(
    fields: map<string, FieldSpec>,
    columns: seq<string>,
    duplicateFieldCheck: bool)

  /** One table row as a dict from header to raw cell, items in insertion order. */
  type Record = seq<(string, string)>

  datatype Table = Table(headers: seq<string>, records: seq<Record>)

  /** The table's header names a different set of columns than the schema declares. */
  datatype ParseError = ColumnMismatch(headers: seq<string>, columns: seq<string>)

  /** One reported violation; `row` is 1-based, counted from the first data row. */
  datatype Violation =
    | UnexpectedField(row: nat, field: string)
    | RequiredMissing(row: nat, field: string)
    | SizeExceeded(row: nat, field: string, size: int)
    | NotAlphanumeric(row: nat, field: string)
    | NotNumeric(row: nat, field: string)
    | NotDecimal(row: nat, field: string, before: int, after: int)
    | OutOfRange(row: nat, field: string, number: real, min: real, max: real)
    | NotANumber(row: nat, field: string)
    | ZeroValue(row: nat, field: string)
    | NotAllowed(row: nat, field: string, value: string, allowed: seq<string>)
    | Duplicate(row: nat)

  /** The position of the check that raises a violation, in the order the engine runs the checks. */
  function CheckRank(v: Violation): nat
  {
    match v
    case UnexpectedField(_, _) => 0
    case RequiredMissing(_, _) => 1
    case SizeExceeded(_, _, _) => 2
    case NotAlphanumeric(_, _) => 3
    case NotNumeric(_, _) => 3
    case NotDecimal(_, _, _, _) => 3
    case OutOfRange(_, _, _, _, _) => 4
    case NotANumber(_, _) => 4
    case ZeroValue(_, _) => 5
    case NotAllowed(_, _, _, _) => 6
    case Duplicate(_) => 7
  }

  // ---------------------------------------------------------------------
  // Table parsing and the column gate

  function ToSet(s: seq<string>): set<string>
  {
    set x | x in s
  }

  /** `dict(zip(headers, line.split(",")))`. */
  function ParseRecord(headers: seq<string>, line: string): Record
  {
    FromPairs(Zip(headers, Split(line, ',')))
  }

  /** The comprehension over the data lines: one record per line, in order. */
  function ParseRecords(headers: seq<string>, lines: seq<string>): (records: seq<Record>)
    ensures |records| == |lines|
    ensures forall j :: 0 <= j < |lines| ==> records[j] == ParseRecord(headers, lines[j])
  {
    seq(|lines|, j requires 0 <= j < |lines| => ParseRecord(headers, lines[j]))
  }

  /**
   * The text is stripped and split into lines; the first line, split on
   * commas, is the header; every later line, split on commas, is zipped
   * with the header into a record. A header whose set of names differs
   * from the declared columns stops everything.
   */
  function ParseTable(text: string, columns: seq<string>): (r: Result<Table, ParseError>)
    ensures r.Failure? <==> ToSet(Split(Split(Strip(text), '\n')[0], ',')) != ToSet(columns)
    ensures r.Success? ==> r.value.headers == Split(Split(Strip(text), '\n')[0], ',')
    ensures r.Success? ==> |r.value.records| == Occurrences(Strip(text), '\n')
    ensures r.Success? ==> |Split(Strip(text), '\n')| == |r.value.records| + 1
    ensures r.Success? ==> forall j :: 0 <= j < |r.value.records| ==>
              r.value.records[j] == ParseRecord(r.value.headers, Split(Strip(text), '\n')[j + 1])
  {
    var lines := Split(Strip(text), '\n');
    SplitCount(Strip(text), '\n');
    var headers := Split(lines[0], ',');
    if ToSet(headers) != ToSet(columns) then
      Failure(ColumnMismatch(headers, columns))
    else
      Success(Table(headers, ParseRecords(headers, lines[1..])))
  }

  /**
   * A record holds only header names as keys, each once; with distinct
   * header names, item `k` pairs header `k` with the `k`-th comma-separated
   * cell of the line, and a short line gives a short record.
   */
  lemma ParsedRecord(headers: seq<string>, line: string)
    ensures var record := ParseRecord(headers, line);
            var cells := Split(line, ',');
            && Distinct(Keys(record))
            && (forall k :: k in Keys(record) ==> k in headers)
            && (Distinct(headers) ==>
                 && |record| == (if |headers| <= |cells| then |headers| else |cells|)
                 && forall k :: 0 <= k < |record| ==> record[k] == (headers[k], cells[k]))
  {
    var pairs := Zip(headers, Split(line, ','));
    FromPairsKeys(pairs);
    assert Keys(pairs) == headers[..|pairs|];
    if Distinct(headers) {
      FromDistinctPairs(pairs);
    }
  }

  // ---------------------------------------------------------------------
  // Type predicates

  /** `re.match(r'^[a-zA-Z0-9]*$', s)`; the empty string matches. */
  function IsAlphaNumeric(s: string): bool
  {
    AllAlnum(DollarBody(s))
  }

  /**
   * A string without a final newline is alphanumeric exactly when all of
   * its characters are ASCII letters or digits; with one, the newline is
   * ignored.
   */
  lemma IsAlphaNumericIff(s: string)
    ensures (s == [] || s[|s| - 1] != '\n') ==> (IsAlphaNumeric(s) <==> AllAlnum(s))
    ensures s != [] && s[|s| - 1] == '\n' ==> (IsAlphaNumeric(s) <==> AllAlnum(s[..|s| - 1]))
  {
  }

  /** `re.match(r'^\d+$', s)`: one or more digits, no sign and no point. */
  function IsNumeric(s: string): bool
  {
    var t := DollarBody(s);
    |t| > 0 && AllDigits(t)
  }

  /**
   * A string without a final newline is numeric exactly when it is a
   * non-empty run of ASCII digits; with one, the newline is ignored; a
   * numeric string has no point and no sign.
   */
  lemma IsNumericIff(s: string)
    ensures (s == [] || s[|s| - 1] != '\n') ==> (IsNumeric(s) <==> |s| > 0 && AllDigits(s))
    ensures s != [] && s[|s| - 1] == '\n' ==> (IsNumeric(s) <==> |s| > 1 && AllDigits(s[..|s| - 1]))
    ensures IsNumeric(s) ==> s != [] && '.' !in s && '-' !in s && '+' !in s
  {
    var t := DollarBody(s);
    assert '.' in t ==> !AllDigits(t);
  }

  /**
   * `is_decimal`: `s` matches `^(\d+)(\.\d+)?$`, the integer group has at
   * most `before` digits and the fraction group (if any) at most `after`.
   */
  function IsDecimal(s: string, before: int, after: int): bool
  {
    match DecimalParts(DollarBody(s))
    case None => false
    case Some((intPart, fracPart)) => |intPart| <= before && |fracPart| <= after
  }

  /** A decimal value is a literal of the grammar within the digit limits. */
  lemma IsDecimalSound(s: string, before: int, after: int)
    requires IsDecimal(s, before, after)
    ensures DecimalParts(DollarBody(s)).Some?
    ensures var (ip, fp) := DecimalParts(DollarBody(s)).value;
            IsDecimalLiteral(DollarBody(s), ip, fp) && |ip| <= before && |fp| <= after
  {
    DecimalPartsSound(DollarBody(s));
  }

  /** Given how the body of `s` decomposes by the decimal grammar, `is_decimal` only compares digit counts. */
  lemma IsDecimalIff(s: string, before: int, after: int, ip: string, fp: string)
    requires IsDecimalLiteral(DollarBody(s), ip, fp)
    ensures IsDecimal(s, before, after) <==> |ip| <= before && |fp| <= after
  {
    DecimalPartsComplete(DollarBody(s), ip, fp);
  }

  // ---------------------------------------------------------------------
  // The checks of validate_record, one function per check, on the trimmed value

  function RequiredCheck(row: nat, field: string, spec: FieldSpec, v: string): seq<Violation>
  {
    if spec.required && v == [] then [RequiredMissing(row, field)] else []
  }

  function SizeCheck(row: nat, field: string, spec: FieldSpec, v: string): seq<Violation>
  {
    if |v| > spec.size then [SizeExceeded(row, field, spec.size)] else []
  }

  function BeforeDecimal(spec: FieldSpec): int { spec.sizeBeforeDecimal.GetOr(DEFAULT_DECIMAL_DIGITS) }

  function AfterDecimal(spec: FieldSpec): int { spec.sizeAfterDecimal.GetOr(DEFAULT_DECIMAL_DIGITS) }

  function TypeCheck(row: nat, field: string, spec: FieldSpec, v: string): seq<Violation>
  {
    if spec.fieldType == "alpha_numeric" && v != [] && !IsAlphaNumeric(v) then [NotAlphanumeric(row, field)]
    else if spec.fieldType == "numeric" && v != [] && !IsNumeric(v) then [NotNumeric(row, field)]
    else if spec.fieldType == "decimal" && v != [] then
      (if !IsDecimal(v, BeforeDecimal(spec), AfterDecimal(spec))
       then [NotDecimal(row, field, BeforeDecimal(spec), AfterDecimal(spec))] else [])
    else []
  }

  /** `float(value)` first; then the range list is unpacked into two bounds; either failing is one "should be a number" error. */
  function RangeCheck(row: nat, field: string, spec: FieldSpec, v: string): seq<Violation>
  {
    if spec.range.None? || v == [] then []
    else match ParseFloat(v)
      case None => [NotANumber(row, field)]
      case Some(x) =>
        var bounds := spec.range.value;
        if |bounds| != 2 then [NotANumber(row, field)]
        else if bounds[0] <= x <= bounds[1] then []
        else [OutOfRange(row, field, x, bounds[0], bounds[1])]
  }

  function ZeroCheck(row: nat, field: string, spec: FieldSpec, v: string): seq<Violation>
  {
    if spec.zeroCheck && v == "0" then [ZeroValue(row, field)] else []
  }

  function AllowedCheck(row: nat, field: string, spec: FieldSpec, v: string): seq<Violation>
  {
    if spec.allowedValues.Some? && v != [] && v !in spec.allowedValues.value
    then [NotAllowed(row, field, v, spec.allowedValues.value)] else []
  }

  /** Every check of a defined field on its trimmed value `v`, in the engine's order. */
  function FieldErrors(row: nat, field: string, spec: FieldSpec, v: string): seq<Violation>
  {
    RequiredCheck(row, field, spec, v) + SizeCheck(row, field, spec, v) + TypeCheck(row, field, spec, v)
    + RangeCheck(row, field, spec, v) + ZeroCheck(row, field, spec, v) + AllowedCheck(row, field, spec, v)
  }

  /** One item of a record: a key without a definition is unexpected and nothing else is checked. */
  function ItemErrors(row: nat, fields: map<string, FieldSpec>, item: (string, string)): seq<Violation>
  {
    if item.0 !in fields then [UnexpectedField(row, item.0)]
    else FieldErrors(row, item.0, fields[item.0], Strip(item.1))
  }

  /** The violations of one record, item after item. */
  function RecordErrors(row: nat, fields: map<string, FieldSpec>, record: Record): seq<Violation>
  {
    if record == [] then []
    else RecordErrors(row, fields, record[..|record| - 1]) + ItemErrors(row, fields, record[|record| - 1])
  }

  /** The type check of `validate_record`: the `if`/`elif` chain on the declared type. */
  method CheckType(rowIdx: nat, field: string, spec: FieldSpec, value: string) returns (checks: seq<Violation>)
    ensures checks == TypeCheck(rowIdx, field, spec, value)
  {
    checks := [];
    if spec.fieldType == "alpha_numeric" && value != [] && !IsAlphaNumeric(value) {
      checks := [NotAlphanumeric(rowIdx, field)];
    } else if spec.fieldType == "numeric" && value != [] && !IsNumeric(value) {
      checks := [NotNumeric(rowIdx, field)];
    } else if spec.fieldType == "decimal" && value != [] {
      var beforeDecimal := spec.sizeBeforeDecimal.GetOr(DEFAULT_DECIMAL_DIGITS);
      var afterDecimal := spec.sizeAfterDecimal.GetOr(DEFAULT_DECIMAL_DIGITS);
      if !IsDecimal(value, beforeDecimal, afterDecimal) {
        checks := [NotDecimal(rowIdx, field, beforeDecimal, afterDecimal)];
      }
    }
  }

  /** The range check of `validate_record`: the `try` block around `float(value)` and the unpacking of the range. */
  method CheckRange(rowIdx: nat, field: string, spec: FieldSpec, value: string) returns (checks: seq<Violation>)
    ensures checks == RangeCheck(rowIdx, field, spec, value)
  {
    checks := [];
    if spec.range.Some? && value != [] {
      var parsed := ParseFloat(value);
      if parsed.None? {
        checks := [NotANumber(rowIdx, field)];
      } else if |spec.range.value| != 2 {
        checks := [NotANumber(rowIdx, field)];
      } else {
        var numValue := parsed.value;
        var minVal, maxVal := spec.range.value[0], spec.range.value[1];
        if !(minVal <= numValue <= maxVal) {
          checks := [OutOfRange(rowIdx, field, numValue, minVal, maxVal)];
        }
      }
    }
  }

  /** The body of `validate_record`'s loop for a key that has a definition: the checks on the trimmed value. */
  method CheckField(rowIdx: nat, field: string, spec: FieldSpec, raw: string) returns (checks: seq<Violation>)
    ensures checks == FieldErrors(rowIdx, field, spec, Strip(raw))
  {
    var value := Strip(raw);
    checks := [];
    if spec.required && value == [] {
      checks := checks + [RequiredMissing(rowIdx, field)];
    }
    assert checks == RequiredCheck(rowIdx, field, spec, value);
    if |value| > spec.size {
      checks := checks + [SizeExceeded(rowIdx, field, spec.size)];
    }
    ghost var sized := checks;
    assert sized == RequiredCheck(rowIdx, field, spec, value) + SizeCheck(rowIdx, field, spec, value);
    var typeChecks := CheckType(rowIdx, field, spec, value);
    checks := checks + typeChecks;
    var rangeChecks := CheckRange(rowIdx, field, spec, value);
    checks := checks + rangeChecks;
    ghost var ranged := checks;
    if spec.zeroCheck && value == "0" {
      checks := checks + [ZeroValue(rowIdx, field)];
    }
    ghost var zeroed := checks;
    assert zeroed == ranged + ZeroCheck(rowIdx, field, spec, value);
    if spec.allowedValues.Some? && value != [] && value !in spec.allowedValues.value {
      checks := checks + [NotAllowed(rowIdx, field, value, spec.allowedValues.value)];
    }
    assert checks == zeroed + AllowedCheck(rowIdx, field, spec, value);
  }

  /** `validate_record`: loops over the record's items, appending the violations of each. */
  method ValidateRecord(record: Record, fields: map<string, FieldSpec>, rowIdx: nat) returns (errors: seq<Violation>)
    ensures errors == RecordErrors(rowIdx, fields, record)
  {
    errors := [];
    for i := 0 to |record|
      invariant errors == RecordErrors(rowIdx, fields, record[..i])
    {
      var (field, raw) := record[i];
      if field !in fields {
        errors := errors + [UnexpectedField(rowIdx, field)];
      } else {
        var checks := CheckField(rowIdx, field, fields[field], raw);
        errors := errors + checks;
      }
      assert record[..i + 1][..i] == record[..i];
    }
    assert record[..|record|] == record;
  }

  // ---------------------------------------------------------------------
  // Duplicate records

  /** `check_duplicates` as a specification: row `n` is reported when its record already occurred earlier. */
  function DuplicateReports(records: seq<Record>): seq<Violation>
  {
    if records == [] then []
    else
      var n := |records|;
      DuplicateReports(records[..n - 1]) + (if records[n - 1] in records[..n - 1] then [Duplicate(n)] else [])
  }

  /** `check_duplicates`: one pass with a set of the records seen so far. */
  method CheckDuplicates(records: seq<Record>) returns (duplicates: seq<Violation>)
    ensures duplicates == DuplicateReports(records)
  {
    var seen: set<Record> := {};
    duplicates := [];
    for i := 0 to |records|
      invariant seen == set j | 0 <= j < i :: records[j]
      invariant duplicates == DuplicateReports(records[..i])
    {
      assert records[..i + 1][..i] == records[..i];
      assert records[i] in seen <==> records[i] in records[..i] by {
        if records[i] in records[..i] {
          var j :| 0 <= j < i && records[..i][j] == records[i];
          assert records[j] == records[i];
        }
      }
      if records[i] in seen {
        duplicates := duplicates + [Duplicate(i + 1)];
      }
      seen := seen + {records[i]};
    }
    assert records[..|records|] == records;
  }

  // ---------------------------------------------------------------------
  // Aggregation

  /** The per-record violations of all records, rows numbered from 1. */
  function AllRecordErrors(fields: map<string, FieldSpec>, records: seq<Record>): seq<Violation>
  {
    if records == [] then []
    else
      var n := |records|;
      AllRecordErrors(fields, records[..n - 1]) + RecordErrors(n, fields, records[n - 1])
  }

  /** `main`'s list: all per-record violations in row order, then the duplicates when the schema asks for them. */
  function TableErrors(schema: Schema, records: seq<Record>): seq<Violation>
  {
    AllRecordErrors(schema.fields, records)
    + (if schema.duplicateFieldCheck then DuplicateReports(records) else [])
  }

  /** `main`: validates the records one after the other, then checks for duplicates if enabled. */
  method ValidateTable(schema: Schema, records: seq<Record>) returns (errors: seq<Violation>)
    ensures errors == TableErrors(schema, records)
  {
    errors := [];
    for i := 0 to |records|
      invariant errors == AllRecordErrors(schema.fields, records[..i])
    {
      var rowErrors := ValidateRecord(records[i], schema.fields, i + 1);
      assert records[..i + 1][..i] == records[..i];
      errors := errors + rowErrors;
    }
    assert records[..|records|] == records;
    if schema.duplicateFieldCheck {
      var duplicates := CheckDuplicates(records);
      errors := errors + duplicates;
    }
  }

  /** The whole script: parse the table, enforce the column gate, then run `main`. */
  method Run(text: string, schema: Schema) returns (r: Result<seq<Violation>, ParseError>)
    ensures r.Failure? <==> ParseTable(text, schema.columns).Failure?
    ensures r.Success? ==> r.value == TableErrors(schema, ParseTable(text, schema.columns).value.records)
  {
    match ParseTable(text, schema.columns)
    case Failure(e) =>
      r := Failure(e);
    case Success(table) =>
      var errors := ValidateTable(schema, table.records);
      r := Success(errors);
  }
}
