/**
 * The per-row rule checker of `file_validation.py`: every collected row,
 * taken as a map from column name to cell text, is checked against the
 * rules of the template's `fields` object, in the rules' order, and the
 * messages of all rows are gathered into one list.
 */
module FileValidation {
  import opened Wrappers
  import opened PyStr
  import opened Lexical

  /** The most digits `check_pattern`'s decimal pattern admits on either side of the point. */
  const MAX_DECIMAL_DIGITS: nat := 10

  /**
   * One entry of the template's `fields` object: `required` and `type` are
   * read with `[]`, `size` with `.get('size', 0)`.
   */
  datatype Rule = Rule(required: bool, fieldType: string, size: Option<int>)

  /** One appended message; each names only the field (rows are not numbered). */
  datatype FieldError =
    | RequiredEmpty(field: string)
    | TooLong(field: string)
    | PatternMismatch(field: string, fieldType: string)

  /** A collected row, `row.asDict()` with every cell read as text. */
  type Row = map<string, string>

  /**
   * `check_pattern(value, field_type)`: `re.match` of the type's pattern,
   * where `$` also accepts one final newline; an unknown type looks up the
   * empty pattern, which matches every string.
   */
  function CheckPattern(value: string, fieldType: string): bool
  {
    var body := DollarBody(value);
    if fieldType == "alpha_numeric" then |body| > 0 && AllAlnum(body)
    else if fieldType == "numeric" then |body| > 0 && AllDigits(body)
    else if fieldType == "decimal" then
      match DecimalParts(body)
      case None => false
      case Some((intPart, fracPart)) => |intPart| <= MAX_DECIMAL_DIGITS && |fracPart| <= MAX_DECIMAL_DIGITS
    else true
  }

  /**
   * What the three patterns accept, of the text before one optional final
   * newline (`body`, the whole value when there is none): one or more
   * ASCII letters or digits; one or more digits; 1 to 10 digits,
   * optionally a point and 1 to 10 digits. Any other type accepts
   * everything.
   */
  ghost predicate PatternAccepts(body: string, fieldType: string)
  {
    if fieldType == "alpha_numeric" then |body| > 0 && AllAlnum(body)
    else if fieldType == "numeric" then |body| > 0 && AllDigits(body)
    else if fieldType == "decimal" then
      exists ip, fp :: IsDecimalLiteral(body, ip, fp) && |ip| <= MAX_DECIMAL_DIGITS && |fp| <= MAX_DECIMAL_DIGITS
    else true
  }

  /**
   * `check_pattern` accepts a value without a final newline exactly when
   * the pattern accepts the whole value, and a value with one final
   * newline (the raw cell is not stripped) exactly when the pattern accepts
   * the text before it.
   */
  lemma CheckPatternIff(value: string, fieldType: string)
    ensures (value == [] || value[|value| - 1] != '\n') ==> (CheckPattern(value, fieldType) <==> PatternAccepts(value, fieldType))
    ensures value != [] && value[|value| - 1] == '\n' ==>
              (CheckPattern(value, fieldType) <==> PatternAccepts(value[..|value| - 1], fieldType))
    ensures fieldType !in {"alpha_numeric", "numeric", "decimal"} ==> CheckPattern(value, fieldType)
  {
    var body := DollarBody(value);
    assert body == if value != [] && value[|value| - 1] == '\n' then value[..|value| - 1] else value;
    if fieldType == "decimal" {
      if CheckPattern(value, fieldType) {
        DecimalPartsSound(body);
        var (ip, fp) := DecimalParts(body).value;
        assert IsDecimalLiteral(body, ip, fp);
      }
      if PatternAccepts(body, fieldType) {
        var ip, fp :| IsDecimalLiteral(body, ip, fp) && |ip| <= MAX_DECIMAL_DIGITS && |fp| <= MAX_DECIMAL_DIGITS;
        DecimalPartsComplete(body, ip, fp);
      }
    }
  }

  /** The messages for one field present in the row, in the order the checks run. */
  function FieldErrors(field: string, rule: Rule, value: string): seq<FieldError>
  {
    (if rule.required && value == [] then [RequiredEmpty(field)] else [])
    + (if rule.fieldType == "alpha_numeric" && |value| > rule.size.GetOr(0) then [TooLong(field)] else [])
    + (if !CheckPattern(value, rule.fieldType) then [PatternMismatch(field, rule.fieldType)] else [])
  }

  /** One rule applied to one row: a field the row does not have is skipped. */
  function RuleErrors(row: Row, field: string, rule: Rule): seq<FieldError>
  {
    if field in row then FieldErrors(field, rule, row[field]) else []
  }

  /** The messages of one row, rule after rule. */
  function RowErrors(row: Row, rules: seq<(string, Rule)>): seq<FieldError>
  {
    if rules == [] then []
    else
      var (field, rule) := rules[|rules| - 1];
      RowErrors(row, rules[..|rules| - 1]) + RuleErrors(row, field, rule)
  }

  /** The messages of all rows, row after row. */
  function DataErrors(rows: seq<Row>, rules: seq<(string, Rule)>): seq<FieldError>
  {
    if rows == [] then []
    else DataErrors(rows[..|rows| - 1], rules) + RowErrors(rows[|rows| - 1], rules)
  }

  /** The checks of one field inside `validate_data`'s inner loop. */
  method CheckValue(field: string, rule: Rule, value: string) returns (errors: seq<FieldError>)
    ensures errors == FieldErrors(field, rule, value)
  {
    errors := [];
    if rule.required && value == [] {
      errors := errors + [RequiredEmpty(field)];
    }
    if rule.fieldType == "alpha_numeric" && |value| > rule.size.GetOr(0) {
      errors := errors + [TooLong(field)];
    }
    if !CheckPattern(value, rule.fieldType) {
      errors := errors + [PatternMismatch(field, rule.fieldType)];
    }
  }

  /** The inner loop of `validate_data`: the rules of `fields`, in order, against one row. */
  method ValidateRow(row: Row, rules: seq<(string, Rule)>) returns (errors: seq<FieldError>)
    ensures errors == RowErrors(row, rules)
  {
    errors := [];
    for j := 0 to |rules|
      invariant errors == RowErrors(row, rules[..j])
    {
      var (field, rule) := rules[j];
      if field in row {
        var checks := CheckValue(field, rule, row[field]);
        errors := errors + checks;
      }
      assert rules[..j + 1][..j] == rules[..j];
    }
    assert rules[..|rules|] == rules;
  }

  /** `validate_data`'s outer loop: the rows in order, their messages appended to one list. */
  method ValidateData(rows: seq<Row>, rules: seq<(string, Rule)>) returns (errors: seq<FieldError>)
    ensures errors == DataErrors(rows, rules)
  {
    errors := [];
    for i := 0 to |rows|
      invariant errors == DataErrors(rows[..i], rules)
    {
      var rowErrors := ValidateRow(rows[i], rules);
      errors := errors + rowErrors;
      assert rows[..i + 1][..i] == rows[..i];
    }
    assert rows[..|rows|] == rows;
  }
}
