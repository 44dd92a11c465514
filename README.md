# Table data validator — a Dafny model

The repository checks tabular data against a declarative JSON schema. Two
scripts hold the logic modelled here.

- `validator.new.py` is a self-contained engine. It reads a CSV-like text
  block into records: the first line gives the headers, and every later
  line becomes a dict from header to cell. It refuses a table whose header
  names a different set of columns than the schema's `columns`. Each record
  is then checked, item by item, against the schema's `fields`:
  - a key the schema does not define is "unexpected";
  - otherwise the trimmed value runs the required, size, type, range,
    zero and allowed-value checks, in that order.
  Finally, when `duplicate_field_check` is set, every record equal to an
  earlier one is reported.
- `file_validation.py` runs a simpler rule checker over rows collected
  from a data frame. For every row and every rule of `fields` whose field
  the row has, it applies a required check, a size check (alpha-numeric
  fields only) and a pattern check (`check_pattern`).

Module layout:

- `wrappers.dfy` (`Wrappers`): `Option` and `Result`.
- `pystr.dfy` (`PyStr`): the parts of Python's `str` the scripts use:
  - the `isspace` set;
  - `strip`;
  - `split` on one character, with `join` as its inverse;
  - the ASCII character classes behind `[a-zA-Z0-9]` and `\d`.
- `pydict.dfy` (`PyDict`): an insertion-ordered dict as a sequence of
  pairs, and `dict(zip(...))` with its last-write-wins rule for repeated keys.
- `lexical.dfy` (`Lexical`):
  - the text a `^...$` pattern must match (Python's `$` also matches
    before one final newline);
  - the `\d+(\.\d+)?` literal grammar;
  - an exact-real reading of `float()`.
- `record_validator.dfy` (`RecordValidator`), the `validator.new.py` engine:
  - every check as a function of the trimmed value;
  - `validate_record`, `check_duplicates` and `main` as loops, proved
    against those functions.
- `record_properties.dfy` (`RecordProperties`): what the engine promises,
  proved of those functions. This covers:
  - which violation each check raises, and exactly when;
  - the order of the violations;
  - their rows and fields;
  - duplicate detection and its count;
  - when a table passes.
- `file_validation.dfy` (`FileValidation`): `check_pattern` and the rule
  loops of `validate_data`.
- `file_properties.dfy` (`FileProperties`): the properties of those
  rule loops, and how `check_pattern` relates to the engine's predicates.

`RecordValidator` and `FileValidation` each declare a `FieldErrors`, one
per script, so a module that opens both qualifies it. The left folds
`RecordProperties.Gather` (over a record's items),
`RecordProperties.Numbered` (over records with their row numbers) and
`FileProperties.Collect` (over rules or rows) have the same shape. They
are kept apart because each fixes the element type its proofs work on.

Points where the code's behaviour is easy to misread:

- The decimal pattern `^(\d+)(\.\d+)?$` accepts an integer such as
  `1500`; the fraction is optional (validator.new.py:73).
- `zip` stops at the shorter of header and row, so a short row's missing
  columns are never checked, not even for `required`
  (validator.new.py:63, 81). This is `RecordProperties.RecordErrorsAbsent`.
- The zero check compares the trimmed text with `"0"`, so `00` and `0.0`
  pass (validator.new.py:119). This is `RecordProperties.ZeroIff`.
- A non-empty value that does not parse as a number gets one "should be a
  number for range check" violation, and only when the field has a range;
  a blank cell never gets it (validator.new.py:109). The same
  violation is raised when the range is not a pair of bounds
  (validator.new.py:109-116). This is `RecordProperties.NotANumberIff`.
- In the sample batch, `FIELD1`'s size is 500, so the long
  `LONG_TEXT_EXCEEDING_LIMIT` value gets no size violation; its
  underscores give "should be alphanumeric" (validator.new.py:9, 44,
  98-99).

## Model

| member | source | states |
|---|---|---|
| RecordValidator.ParseTable | validator.new.py:55-63 | fails exactly when the header's column set differs from the schema's `columns`; otherwise the headers are the first line's comma-separated cells, and there is one record per later line of the trimmed text (as many as its newlines), record `j` parsed from line `j+1` |
| RecordValidator.ParsedRecord | validator.new.py:63 | a record's keys are header names, each at most once; with distinct headers, item `k` pairs header `k` with cell `k`, and the record is as long as the shorter of headers and cells |
| PyDict.FromPairsKeys | validator.new.py:63 | `dict(zip(...))` holds each key once, and exactly the keys of the pairs |
| PyDict.FromPairsGet | validator.new.py:63 | the value `dict(...)` holds for a key is the last value paired with it |
| PyDict.FromDistinctPairs | validator.new.py:63 | pairs with distinct keys become a dict with the same items in the same order |
| PyStr.JoinSplit | validator.new.py:55-56 | joining the parts of `split(sep)` with `sep` gives back the string |
| PyStr.SplitJoin | validator.new.py:55-56 | splitting the join of parts that do not contain `sep` gives back the parts |
| PyStr.SplitCount | validator.new.py:55-56 | `split(sep)` yields one part more than the string has separators |
| PyStr.StripEmptyIff | validator.new.py:87-90 | `strip()` yields the empty string exactly when every character is whitespace |
| PyStr.StripSlice | validator.new.py:87 | the stripped value is a contiguous slice of the cell |
| PyStr.StripBorders | validator.new.py:87 | what `strip()` removes on either side is whitespace only |
| PyStr.StripEnds | validator.new.py:87 | a non-empty stripped value starts and ends with a non-whitespace character |
| PyStr.StripIdempotent | validator.new.py:87 | stripping twice is stripping once |
| PyStr.StripNoFinalNewline | validator.new.py:87 | a stripped value never ends in a newline, so `$` matches only at its end |
| RecordValidator.IsAlphaNumericIff | validator.new.py:66-67 | `is_alpha_numeric` holds exactly when every character (before one optional final newline) is an ASCII letter or digit; the empty string passes |
| RecordValidator.IsNumericIff | validator.new.py:69-70 | on a value without a final newline, `is_numeric` holds exactly for a non-empty string of digits; with one final newline, exactly when the text before it is; a passing value never holds a sign or a point |
| RecordValidator.IsDecimalSound | validator.new.py:72-77 | a value accepted by `is_decimal` is digits, optionally a point and digits, with at most `before` integer digits and at most `after` fraction digits |
| RecordValidator.IsDecimalIff | validator.new.py:72-77 | for a value of that shape, `is_decimal` holds exactly when both parts are within their limits (an absent fraction counts 0) |
| Lexical.DecimalPartsSound | validator.new.py:73-75 | the integer and fraction digits read off a value make it the decimal literal `ip` or `ip.fp` |
| Lexical.DecimalPartsComplete | validator.new.py:73-75 | every decimal literal is read back into its own integer and fraction digits |
| Lexical.DecimalParsesAsFloat | validator.new.py:111 | a decimal literal parses with `float()` to its exact non-negative value |
| Lexical.SignedFloat | validator.new.py:111 | a leading `-` negates the parsed value and a leading `+` keeps it |
| RecordValidator.CheckType | validator.new.py:97-106 | the type branch raises exactly the type check's violation |
| RecordValidator.CheckRange | validator.new.py:108-116 | the range branch, with its `try`, raises exactly the range check's violation |
| RecordValidator.CheckField | validator.new.py:87-124 | the checks of one defined field produce exactly the six checks' violations on the stripped value, in order |
| RecordValidator.ValidateRecord | validator.new.py:79-126 | the item loop returns exactly the record's violations, item after item |
| RecordValidator.CheckDuplicates | validator.new.py:128-136 | the pass with a `seen` set returns exactly the reports of records equal to an earlier one |
| RecordValidator.ValidateTable | validator.new.py:138-147 | `main` returns all per-record violations in row order, then the duplicate reports when the schema enables them |
| RecordValidator.Run | validator.new.py:55-63 | the script stops with the column mismatch exactly when parsing does; otherwise it reports `main`'s list for the parsed records |
| RecordProperties.FieldErrorsInOrder | validator.new.py:87-124 | a defined field's violations all name that row and field, come at most one per check, and follow the order required, size, type, range, zero, allowed |
| RecordProperties.InFieldErrors | validator.new.py:87-124 | a violation is among a field's violations exactly when the one check that raises that kind raises it |
| RecordProperties.RequiredIff | validator.new.py:87-91 | the required violation appears exactly when the field is required and its cell is all whitespace |
| RecordProperties.SizeIff | validator.new.py:93-95 | the size violation appears exactly when the trimmed length exceeds `size`; length `size` passes and `size+1` fails |
| RecordProperties.BlankValueErrors | validator.new.py:87-124 | a blank cell gets only the required violation (if required) and the size violation (only for a negative size); never a type, range, zero or allowed-value violation |
| RecordProperties.TypeIff | validator.new.py:97-106 | each type violation appears exactly when the trimmed value is non-empty, the field has that type, and the value is not alphanumeric / all digits / a decimal within the digit limits (10 by default) |
| RecordProperties.AlnumViolationIff | validator.new.py:98-99 | "should be alphanumeric" appears exactly for a non-empty value of an alpha-numeric field that holds some other character |
| RecordProperties.NumericViolationIff | validator.new.py:100-101 | "should be numeric" appears exactly for a non-empty value of a numeric field that holds a non-digit |
| RecordProperties.DecimalViolationIff | validator.new.py:102-106 | the decimal violation, carrying the digit limits (10 each by default), appears exactly for a non-empty value of a decimal field that `is_decimal` rejects under those limits |
| RecordProperties.UnknownTypeUnchecked | validator.new.py:97-106 | a field of any other type never gets a type violation |
| RecordProperties.NotANumberIff | validator.new.py:109-116 | "should be a number" appears exactly when the field has a range, the value is non-empty, and either the value does not parse or the range is not two bounds |
| RecordProperties.OutOfRangeIff | validator.new.py:109-114 | the out-of-range violation, carrying the parsed value and the bounds, appears exactly when the value parses to a number outside the inclusive `[min, max]` |
| RecordProperties.TypedValueParses | validator.new.py:100-116 | a non-empty value that passed the numeric or decimal type check always parses, to a non-negative number, so such a field with a two-bound range never gets "should be a number" |
| RecordProperties.ZeroIff | validator.new.py:118-120 | the zero violation appears exactly when the field asks for it and the trimmed value is the text `0` |
| RecordProperties.NotAllowedIff | validator.new.py:122-124 | the allowed-value violation, carrying the value and the list, appears exactly for a non-empty value outside the field's allowed values |
| RecordProperties.UnexpectedFieldIff | validator.new.py:81-85 | a key without a definition gets exactly one violation, the unexpected field; a defined key never gets it |
| RecordProperties.ItemErrorsAbout | validator.new.py:81-124 | every violation of one item names that row and that item's key |
| RecordProperties.RecordErrorsRow | validator.new.py:79-126 | every violation of a record carries its row number and names one of its keys |
| RecordProperties.RecordErrorsAbout | validator.new.py:79-126 | in a record with distinct keys, the violations naming one key are exactly that item's violations |
| RecordProperties.RecordErrorsAbsent | validator.new.py:81-87 | a defined field that a short row lacks gets no violation at all, even when required |
| RecordProperties.DuplicateRows | validator.new.py:128-136 | duplicate reports name rows from 2 to the row count, in strictly increasing order |
| RecordProperties.DuplicateIff | validator.new.py:128-136 | row `n` is reported exactly when an earlier row holds an identical record, so a first occurrence never is |
| RecordProperties.DuplicateCount | validator.new.py:128-136 | the number of reports is the number of rows minus the number of distinct records |
| RecordProperties.AllRecordErrorsRows | validator.new.py:139-143 | the per-record violations name rows 1 to the row count, in non-decreasing row order |
| RecordProperties.AllRecordErrorsOfRow | validator.new.py:139-143 | the violations of row `n` in `main`'s list are exactly the violations of record `n` |
| RecordProperties.TableValidIff | validator.new.py:139-150 | the list is empty exactly when every record passes and, with duplicate checking on, all records are distinct |
| FileValidation.CheckPatternIff | file_validation.py:7-14 | `alpha_numeric` accepts one or more letters or digits; `numeric` accepts one or more digits; `decimal` accepts 1 to 10 digits, optionally a point and 1 to 10 digits; any other type accepts everything. A value with one final newline (the cell is not stripped) is judged by the text before it |
| FileProperties.PatternsAgree | file_validation.py:7-14 | `check_pattern`'s numeric pattern is `is_numeric`, its decimal pattern is `is_decimal` with 10 digits on either side, and its alpha-numeric pattern is `is_alpha_numeric` without the empty match |
| FileProperties.EmptyValuePattern | file_validation.py:7-14 | the empty value fails exactly the three known patterns |
| FileValidation.CheckValue | file_validation.py:42-54 | the checks of one present field give exactly its required, size and pattern messages |
| FileValidation.ValidateRow | file_validation.py:40-54 | the inner loop gives exactly the messages of the rules, in the rules' order, skipping fields the row lacks |
| FileValidation.ValidateData | file_validation.py:39-54 | the outer loop gives exactly the messages of the rows, in row order |
| FileProperties.FieldErrorsInOrder | file_validation.py:44-54 | one field's messages name it, at most one per check, in the order required, size, pattern |
| FileProperties.RequiredIff | file_validation.py:45-46 | the required message appears exactly when the rule is required and the value is the empty string (whitespace is not trimmed) |
| FileProperties.SizeIff | file_validation.py:48-50 | the size message appears exactly for an alpha-numeric field whose value is longer than `size` (0 when absent), so without a size any non-empty value gets it |
| FileProperties.EmptyRequiredAlphaNumeric | file_validation.py:45-54 | an empty value of any required alpha-numeric field gets both the required and the pattern message, and with a non-negative size nothing else |
| FileProperties.PatternIff | file_validation.py:52-54 | the pattern message appears exactly when `check_pattern` rejects the value for the rule's type |
| FileProperties.RowErrorsFields | file_validation.py:40-41 | every message of a row names a field that has a rule and that the row has |
| FileProperties.RowValidIff | file_validation.py:40-54 | a row passes exactly when every rule passes on it |
| FileProperties.DataErrorsAppend | file_validation.py:39-54 | validating two batches gives the first batch's messages followed by the second's |
| FileProperties.DataValidIff | file_validation.py:39-54 | the data passes exactly when every row passes |

## Left out

- Reading the JSON schema and the embedded table text, and printing the
  result (validator.new.py:50-52, 149-155). The schema and the text are
  parameters of `Run`. The violations are a datatype, not formatted
  message strings, so the wording and Python's `repr` of floats are not
  modelled.
- Malformed schemas. A definition that lacks `required`, `size` or `type`
  makes the script raise `KeyError`; the model's `FieldSpec` always has
  them. An empty definition `{}`, which `not field_spec` treats as
  undefined, is not modelled. Non-numeric range bounds are not modelled.
- Lexical.ParseFloat: reads `float()` exactly, as a real, over an optional
  sign followed by digits, optionally a point and optional digits, or by a
  point and digits. Exponents, underscores, surrounding whitespace,
  `inf`/`nan`, non-ASCII decimal digits and binary rounding are not
  modelled. Such values count as parse failures.
- `\d` on the whole Unicode range: the model's `\d` is ASCII digits only.
  (The whitespace set of `str.isspace` is complete, listed character by
  character.)
- validator.py is not part of this model.
- In file_validation.py:
  - cells that are `None` or not text (the model's row maps every column
    to a string);
  - the zero and digit-width branches (57-76), which never fire on text
    cells: a string is never `0` or a `float`;
  - the data-frame duplicate block (31-36), which only adds columns and
    reports nothing;
  - the session, table and file code (17-19, 25-28, 81-128).
- FileValidation.FieldError carries no row number, because the script's
  messages name only the field.
