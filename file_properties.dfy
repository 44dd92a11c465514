/**
 * What `file_validation.py` promises about its messages, proved of the
 * specification functions that `ValidateRow` and `ValidateData` are
 * verified against, and how its patterns relate to those of
 * `validator.new.py`.
 */
module FileProperties {
  import opened Wrappers
  import opened PyStr
  import opened PyDict
  import opened Lexical
  import opened FileValidation
  import RV = RecordValidator

  // ---------------------------------------------------------------------
  // check_pattern

  /**
   * The numeric pattern of both programs is the same; the decimal pattern
   * of `check_pattern` is `is_decimal` with ten digits on either side; the
   * alpha-numeric pattern of `check_pattern` is the one of
   * `is_alpha_numeric` without the empty match.
   */
  lemma PatternsAgree(value: string)
    ensures CheckPattern(value, "numeric") == RV.IsNumeric(value)
    ensures CheckPattern(value, "decimal") == RV.IsDecimal(value, MAX_DECIMAL_DIGITS, MAX_DECIMAL_DIGITS)
    ensures CheckPattern(value, "alpha_numeric") == (RV.IsAlphaNumeric(value) && DollarBody(value) != [])
  {
  }

  /** The empty value fails exactly the three known patterns. */
  lemma EmptyValuePattern(fieldType: string)
    ensures CheckPattern([], fieldType) <==> fieldType !in {"alpha_numeric", "numeric", "decimal"}
  {
  }

  // ---------------------------------------------------------------------
  // One field

  function Rank(e: FieldError): nat
  {
    match e
    case RequiredEmpty(_) => 0
    case TooLong(_) => 1
    case PatternMismatch(_, _) => 2
  }

  /** The messages of one field name it, at most one per check, in the order required, size, pattern. */
  lemma FieldErrorsInOrder(field: string, rule: Rule, value: string)
    ensures forall i :: 0 <= i < |FieldErrors(field, rule, value)| ==> FieldErrors(field, rule, value)[i].field == field
    ensures forall i, j :: 0 <= i < j < |FieldErrors(field, rule, value)| ==>
              Rank(FieldErrors(field, rule, value)[i]) < Rank(FieldErrors(field, rule, value)[j])
  {
  }

  /**
   * An empty value of a required alpha-numeric field gets two messages,
   * whatever its size: the required one and the pattern one, since the
   * pattern check runs on the same empty value.
   */
  lemma EmptyRequiredAlphaNumeric(field: string, rule: Rule)
    requires rule.required && rule.fieldType == "alpha_numeric"
    ensures RequiredEmpty(field) in FieldErrors(field, rule, [])
    ensures PatternMismatch(field, "alpha_numeric") in FieldErrors(field, rule, [])
    ensures rule.size.GetOr(0) >= 0 ==> FieldErrors(field, rule, []) == [RequiredEmpty(field), PatternMismatch(field, "alpha_numeric")]
  {
  }

  /** The pattern message appears exactly when `check_pattern` rejects the value for the rule's type. */
  lemma PatternIff(field: string, rule: Rule, value: string)
    ensures PatternMismatch(field, rule.fieldType) in FieldErrors(field, rule, value) <==> !CheckPattern(value, rule.fieldType)
  {
    var req: seq<FieldError> := if rule.required && value == [] then [RequiredEmpty(field)] else [];
    var size: seq<FieldError> := if rule.fieldType == "alpha_numeric" && |value| > rule.size.GetOr(0) then [TooLong(field)] else [];
    assert PatternMismatch(field, rule.fieldType) !in req && PatternMismatch(field, rule.fieldType) !in size;
  }

  /**
   * The size check applies to alpha-numeric fields only, compares the
   * length of the value with `size` (0 when absent), and reports when the
   * length is larger.
   */
  lemma SizeIff(field: string, rule: Rule, value: string)
    ensures TooLong(field) in FieldErrors(field, rule, value)
        <==> rule.fieldType == "alpha_numeric" && |value| > rule.size.GetOr(0)
    ensures rule.fieldType == "alpha_numeric" && rule.size.None? && value != [] ==> TooLong(field) in FieldErrors(field, rule, value)
  {
    var req: seq<FieldError> := if rule.required && value == [] then [RequiredEmpty(field)] else [];
    var pat: seq<FieldError> := if !CheckPattern(value, rule.fieldType) then [PatternMismatch(field, rule.fieldType)] else [];
    assert TooLong(field) !in req && TooLong(field) !in pat;
  }

  /** A required field reports exactly when its value is the empty string; whitespace is not trimmed here. */
  lemma RequiredIff(field: string, rule: Rule, value: string)
    ensures RequiredEmpty(field) in FieldErrors(field, rule, value) <==> rule.required && value == []
  {
    var size: seq<FieldError> := if rule.fieldType == "alpha_numeric" && |value| > rule.size.GetOr(0) then [TooLong(field)] else [];
    var pat: seq<FieldError> := if !CheckPattern(value, rule.fieldType) then [PatternMismatch(field, rule.fieldType)] else [];
    assert RequiredEmpty(field) !in size && RequiredEmpty(field) !in pat;
  }

  // ---------------------------------------------------------------------
  // One row

  /**
   * Every message of a row names a field that has a rule and that the row
   * has: a field named in the rules but absent from the row is skipped.
   */
  lemma {:induction false} RowErrorsFields(row: Row, rules: seq<(string, Rule)>)
    ensures forall i :: 0 <= i < |RowErrors(row, rules)| ==>
              RowErrors(row, rules)[i].field in row && RowErrors(row, rules)[i].field in Keys(rules)
  {
    if rules != [] {
      var n := |rules| - 1;
      var (field, rule) := rules[n];
      var prefix: seq<FieldError>, last: seq<FieldError> := RowErrors(row, rules[..n]), RuleErrors(row, field, rule);
      RowErrorsFields(row, rules[..n]);
      FieldErrorsInOrder(field, rule, if field in row then row[field] else []);
      assert Keys(rules[..n]) == Keys(rules)[..n];
      assert Keys(rules)[n] == field;
      forall i | 0 <= i < |prefix + last|
        ensures (prefix + last)[i].field in row && (prefix + last)[i].field in Keys(rules)
      {
        if i < |prefix| {
          assert (prefix + last)[i] == prefix[i];
          assert prefix[i].field in Keys(rules[..n]);
        } else {
          assert (prefix + last)[i] == last[i - |prefix|];
        }
      }
    }
  }

  /** One rule applied to a row, as a function value. */
  function RuleErrorsOf(row: Row): ((string, Rule)) -> seq<FieldError>
  {
    (entry: (string, Rule)) => RuleErrors(row, entry.0, entry.1)
  }

  lemma {:induction false} RowErrorsCollect(row: Row, rules: seq<(string, Rule)>)
    ensures RowErrors(row, rules) == Collect(RuleErrorsOf(row), rules)
  {
    if rules != [] {
      RowErrorsCollect(row, rules[..|rules| - 1]);
    }
  }

  /** A row passes exactly when every rule whose field the row has passes. */
  lemma RowValidIff(row: Row, rules: seq<(string, Rule)>)
    ensures RowErrors(row, rules) == []
        <==> forall j :: 0 <= j < |rules| ==> RuleErrors(row, rules[j].0, rules[j].1) == []
  {
    RowErrorsCollect(row, rules);
    CollectEmptyIff(RuleErrorsOf(row), rules);
    assert forall j :: 0 <= j < |rules| ==> RuleErrorsOf(row)(rules[j]) == RuleErrors(row, rules[j].0, rules[j].1);
  }

  // ---------------------------------------------------------------------
  // All rows

  /** The per-row check as a function value. */
  function RowErrorsOf(rules: seq<(string, Rule)>): Row -> seq<FieldError>
  {
    row => RowErrors(row, rules)
  }

  /** The left fold that `RowErrors` and `DataErrors` are, for any check `f` of one element. */
  function Collect<T>(f: T -> seq<FieldError>, xs: seq<T>): seq<FieldError>
  {
    if xs == [] then [] else Collect(f, xs[..|xs| - 1]) + f(xs[|xs| - 1])
  }

  lemma {:induction false} DataErrorsCollect(rows: seq<Row>, rules: seq<(string, Rule)>)
    ensures DataErrors(rows, rules) == Collect(RowErrorsOf(rules), rows)
  {
    if rows != [] {
      DataErrorsCollect(rows[..|rows| - 1], rules);
    }
  }

  lemma {:induction false} CollectEmptyIff<T>(f: T -> seq<FieldError>, rows: seq<T>)
    ensures Collect(f, rows) == [] <==> forall i :: 0 <= i < |rows| ==> f(rows[i]) == []
  {
    if rows != [] {
      var n := |rows| - 1;
      var init := rows[..n];
      CollectEmptyIff(f, init);
      if Collect(f, rows) == [] {
        forall i | 0 <= i < |rows| ensures f(rows[i]) == [] {
          if i < n { assert init[i] == rows[i]; }
        }
      }
      if forall i :: 0 <= i < |rows| ==> f(rows[i]) == [] {
        forall i | 0 <= i < n ensures f(init[i]) == [] {
          assert init[i] == rows[i];
        }
      }
    }
  }

  lemma {:induction false} CollectAppend<T>(f: T -> seq<FieldError>, a: seq<T>, b: seq<T>)
    ensures Collect(f, a + b) == Collect(f, a) + Collect(f, b)
  {
    if b == [] {
      assert a + b == a;
    } else {
      var n := |b| - 1;
      assert (a + b)[..|a + b| - 1] == a + b[..n];
      assert (a + b)[|a + b| - 1] == b[n];
      CollectAppend(f, a, b[..n]);
    }
  }

  /** Validating two batches of rows gives the messages of the first batch followed by those of the second. */
  lemma DataErrorsAppend(a: seq<Row>, b: seq<Row>, rules: seq<(string, Rule)>)
    ensures DataErrors(a + b, rules) == DataErrors(a, rules) + DataErrors(b, rules)
  {
    DataErrorsCollect(a + b, rules);
    DataErrorsCollect(a, rules);
    DataErrorsCollect(b, rules);
    CollectAppend(RowErrorsOf(rules), a, b);
  }

  /** The data passes exactly when every row passes. */
  lemma DataValidIff(rows: seq<Row>, rules: seq<(string, Rule)>)
    ensures DataErrors(rows, rules) == [] <==> forall i :: 0 <= i < |rows| ==> RowErrors(rows[i], rules) == []
  {
    DataErrorsCollect(rows, rules);
    CollectEmptyIff(RowErrorsOf(rules), rows);
    assert forall i :: 0 <= i < |rows| ==> RowErrorsOf(rules)(rows[i]) == RowErrors(rows[i], rules);
  }
}
