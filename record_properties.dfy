/**
 * What `validator.new.py` promises about its reports, proved of the
 * specification functions that `ValidateRecord`, `CheckDuplicates` and
 * `ValidateTable` are verified against.
 */
module RecordProperties {
  import opened Wrappers
  import opened PyStr
  import opened PyDict
  import opened Lexical
  import opened RecordValidator

  // ---------------------------------------------------------------------
  // One field

  /** Each check reports at most once, and the reports come in the order the checks run. */
  predicate InCheckOrder(errs: seq<Violation>)
  {
    forall i, j :: 0 <= i < j < |errs| ==> CheckRank(errs[i]) < CheckRank(errs[j])
  }

  predicate RanksWithin(errs: seq<Violation>, lo: nat, hi: nat)
  {
    forall i :: 0 <= i < |errs| ==> lo <= CheckRank(errs[i]) <= hi
  }

  /** Every violation in `errs` concerns field `field` of row `row`. */
  predicate AllAbout(errs: seq<Violation>, row: nat, field: string)
  {
    forall i :: 0 <= i < |errs| ==> !errs[i].Duplicate? && errs[i].row == row && errs[i].field == field
  }

  lemma OrderedConcat(a: seq<Violation>, b: seq<Violation>, lo: nat, mid: nat, hi: nat)
    requires InCheckOrder(a) && RanksWithin(a, lo, mid)
    requires InCheckOrder(b) && RanksWithin(b, mid + 1, hi)
    requires lo <= mid < hi
    ensures InCheckOrder(a + b) && RanksWithin(a + b, lo, hi)
  {
    var c := a + b;
    forall i | 0 <= i < |c| ensures lo <= CheckRank(c[i]) <= hi {
      if i < |a| { assert c[i] == a[i]; } else { assert c[i] == b[i - |a|]; }
    }
    forall i, j | 0 <= i < j < |c| ensures CheckRank(c[i]) < CheckRank(c[j]) {
      if j < |a| {
        assert c[i] == a[i] && c[j] == a[j];
      } else if i >= |a| {
        assert c[i] == b[i - |a|] && c[j] == b[j - |a|];
      } else {
        assert c[i] == a[i] && c[j] == b[j - |a|];
      }
    }
  }

  /** A list of at most one violation, of check `rank`, about `field` of `row`. */
  predicate Single(errs: seq<Violation>, rank: nat, row: nat, field: string)
  {
    |errs| <= 1 && InCheckOrder(errs) && RanksWithin(errs, rank, rank) && AllAbout(errs, row, field)
  }

  lemma AllAboutConcat(a: seq<Violation>, b: seq<Violation>, row: nat, field: string)
    requires AllAbout(a, row, field) && AllAbout(b, row, field)
    ensures AllAbout(a + b, row, field)
  {
    forall i | 0 <= i < |a + b| ensures !(a + b)[i].Duplicate? && (a + b)[i].row == row && (a + b)[i].field == field {
      if i < |a| { assert (a + b)[i] == a[i]; } else { assert (a + b)[i] == b[i - |a|]; }
    }
  }

  /** Each check contributes at most one violation, of its own rank, about the field it checks. */
  lemma RequiredSingle(row: nat, field: string, spec: FieldSpec, v: string)
    ensures Single(RequiredCheck(row, field, spec, v), 1, row, field)
  {
  }

  lemma SizeSingle(row: nat, field: string, spec: FieldSpec, v: string)
    ensures Single(SizeCheck(row, field, spec, v), 2, row, field)
  {
  }

  lemma TypeSingle(row: nat, field: string, spec: FieldSpec, v: string)
    ensures Single(TypeCheck(row, field, spec, v), 3, row, field)
  {
  }

  lemma RangeSingle(row: nat, field: string, spec: FieldSpec, v: string)
    ensures Single(RangeCheck(row, field, spec, v), 4, row, field)
  {
  }

  lemma ZeroSingle(row: nat, field: string, spec: FieldSpec, v: string)
    ensures Single(ZeroCheck(row, field, spec, v), 5, row, field)
  {
  }

  lemma AllowedSingle(row: nat, field: string, spec: FieldSpec, v: string)
    ensures Single(AllowedCheck(row, field, spec, v), 6, row, field)
  {
  }

  /**
   * The violations of one defined field all name that field and row, and
   * follow the order required, size, type, range, zero, allowed values,
   * each check contributing at most one.
   */
  lemma FieldErrorsInOrder(row: nat, field: string, spec: FieldSpec, v: string)
    ensures InCheckOrder(FieldErrors(row, field, spec, v))
    ensures RanksWithin(FieldErrors(row, field, spec, v), 1, 6)
    ensures AllAbout(FieldErrors(row, field, spec, v), row, field)
  {
    var r, s, t := RequiredCheck(row, field, spec, v), SizeCheck(row, field, spec, v), TypeCheck(row, field, spec, v);
    var g, z, a := RangeCheck(row, field, spec, v), ZeroCheck(row, field, spec, v), AllowedCheck(row, field, spec, v);
    RequiredSingle(row, field, spec, v);
    SizeSingle(row, field, spec, v);
    TypeSingle(row, field, spec, v);
    RangeSingle(row, field, spec, v);
    ZeroSingle(row, field, spec, v);
    AllowedSingle(row, field, spec, v);
    OrderedConcat(r, s, 1, 1, 2);
    AllAboutConcat(r, s, row, field);
    OrderedConcat(r + s, t, 1, 2, 3);
    AllAboutConcat(r + s, t, row, field);
    OrderedConcat(r + s + t, g, 1, 3, 4);
    AllAboutConcat(r + s + t, g, row, field);
    OrderedConcat(r + s + t + g, z, 1, 4, 5);
    AllAboutConcat(r + s + t + g, z, row, field);
    OrderedConcat(r + s + t + g + z, a, 1, 5, 6);
    AllAboutConcat(r + s + t + g + z, a, row, field);
  }

  /** The check of a defined field that raises violations of rank `rank`. */
  function CheckOfRank(rank: nat, row: nat, field: string, spec: FieldSpec, v: string): seq<Violation>
  {
    if rank == 1 then RequiredCheck(row, field, spec, v)
    else if rank == 2 then SizeCheck(row, field, spec, v)
    else if rank == 3 then TypeCheck(row, field, spec, v)
    else if rank == 4 then RangeCheck(row, field, spec, v)
    else if rank == 5 then ZeroCheck(row, field, spec, v)
    else if rank == 6 then AllowedCheck(row, field, spec, v)
    else []
  }

  /** In a concatenation of one list per rank, a violation can only sit in the list of its own rank. */
  lemma MemberOfRank(a1: seq<Violation>, a2: seq<Violation>, a3: seq<Violation>,
                     a4: seq<Violation>, a5: seq<Violation>, a6: seq<Violation>, e: Violation)
    requires RanksWithin(a1, 1, 1) && RanksWithin(a2, 2, 2) && RanksWithin(a3, 3, 3)
    requires RanksWithin(a4, 4, 4) && RanksWithin(a5, 5, 5) && RanksWithin(a6, 6, 6)
    ensures e in a1 + a2 + a3 + a4 + a5 + a6
        <==> match CheckRank(e)
             case 1 => e in a1
             case 2 => e in a2
             case 3 => e in a3
             case 4 => e in a4
             case 5 => e in a5
             case 6 => e in a6
             case _ => false
  {
  }

  /** A violation is among a field's violations exactly when the one check of its rank raised it. */
  lemma InFieldErrors(row: nat, field: string, spec: FieldSpec, v: string, e: Violation)
    ensures e in FieldErrors(row, field, spec, v) <==> e in CheckOfRank(CheckRank(e), row, field, spec, v)
  {
    RequiredSingle(row, field, spec, v);
    SizeSingle(row, field, spec, v);
    TypeSingle(row, field, spec, v);
    RangeSingle(row, field, spec, v);
    ZeroSingle(row, field, spec, v);
    AllowedSingle(row, field, spec, v);
    MemberOfRank(RequiredCheck(row, field, spec, v), SizeCheck(row, field, spec, v), TypeCheck(row, field, spec, v),
                 RangeCheck(row, field, spec, v), ZeroCheck(row, field, spec, v), AllowedCheck(row, field, spec, v), e);
  }

  /** A required field reports a missing value exactly when its cell holds only whitespace. */
  lemma RequiredIff(row: nat, field: string, spec: FieldSpec, raw: string)
    ensures RequiredMissing(row, field) in FieldErrors(row, field, spec, Strip(raw)) <==> spec.required && AllSpace(raw)
  {
    InFieldErrors(row, field, spec, Strip(raw), RequiredMissing(row, field));
    assert CheckOfRank(1, row, field, spec, Strip(raw)) == RequiredCheck(row, field, spec, Strip(raw));
    StripEmptyIff(raw);
  }

  /**
   * The size limit is inclusive and applies to the trimmed value, empty or
   * not: a value of exactly `size` characters passes, one more fails.
   */
  lemma SizeIff(row: nat, field: string, spec: FieldSpec, v: string)
    ensures SizeExceeded(row, field, spec.size) in FieldErrors(row, field, spec, v) <==> |v| > spec.size
    ensures |v| == spec.size ==> SizeExceeded(row, field, spec.size) !in FieldErrors(row, field, spec, v)
    ensures |v| == spec.size + 1 ==> SizeExceeded(row, field, spec.size) in FieldErrors(row, field, spec, v)
  {
    InFieldErrors(row, field, spec, v, SizeExceeded(row, field, spec.size));
    assert CheckOfRank(2, row, field, spec, v) == SizeCheck(row, field, spec, v);
  }

  /**
   * A cell holding only whitespace can fail only the required check and the
   * size check (the latter only for a negative size): no type, range, zero
   * or allowed-value violation.
   */
  lemma BlankValueErrors(row: nat, field: string, spec: FieldSpec, raw: string)
    requires AllSpace(raw)
    ensures FieldErrors(row, field, spec, Strip(raw))
         == (if spec.required then [RequiredMissing(row, field)] else [])
          + (if spec.size < 0 then [SizeExceeded(row, field, spec.size)] else [])
  {
    StripEmptyIff(raw);
  }

  /**
   * On a trimmed value, the type check fires only when the value is
   * non-empty and the field has one of the three known types, and then
   * exactly when the value is not of that type.
   */
  lemma TypeIff(row: nat, field: string, spec: FieldSpec, raw: string)
    ensures var v := Strip(raw);
            var errs := FieldErrors(row, field, spec, v);
            && (NotAlphanumeric(row, field) in errs <==> spec.fieldType == "alpha_numeric" && v != [] && !AllAlnum(v))
            && (NotNumeric(row, field) in errs <==> spec.fieldType == "numeric" && v != [] && !AllDigits(v))
            && (NotDecimal(row, field, BeforeDecimal(spec), AfterDecimal(spec)) in errs
                <==> spec.fieldType == "decimal" && v != [] && !IsDecimal(v, BeforeDecimal(spec), AfterDecimal(spec)))
  {
    StripNoFinalNewline(raw);
    AlnumViolationIff(row, field, spec, Strip(raw));
    NumericViolationIff(row, field, spec, Strip(raw));
    DecimalViolationIff(row, field, spec, Strip(raw));
  }

  lemma AlnumViolationIff(row: nat, field: string, spec: FieldSpec, v: string)
    requires v == [] || v[|v| - 1] != '\n'
    ensures NotAlphanumeric(row, field) in FieldErrors(row, field, spec, v)
        <==> spec.fieldType == "alpha_numeric" && v != [] && !AllAlnum(v)
  {
    InFieldErrors(row, field, spec, v, NotAlphanumeric(row, field));
    assert CheckOfRank(3, row, field, spec, v) == TypeCheck(row, field, spec, v);
    AlnumInCheck(row, field, spec, v);
  }

  lemma AlnumInCheck(row: nat, field: string, spec: FieldSpec, v: string)
    requires v == [] || v[|v| - 1] != '\n'
    ensures NotAlphanumeric(row, field) in TypeCheck(row, field, spec, v)
        <==> spec.fieldType == "alpha_numeric" && v != [] && !AllAlnum(v)
  {
    IsAlphaNumericIff(v);
  }

  lemma NumericViolationIff(row: nat, field: string, spec: FieldSpec, v: string)
    requires v == [] || v[|v| - 1] != '\n'
    ensures NotNumeric(row, field) in FieldErrors(row, field, spec, v)
        <==> spec.fieldType == "numeric" && v != [] && !AllDigits(v)
  {
    InFieldErrors(row, field, spec, v, NotNumeric(row, field));
    assert CheckOfRank(3, row, field, spec, v) == TypeCheck(row, field, spec, v);
    NumericInCheck(row, field, spec, v);
  }

  lemma NumericInCheck(row: nat, field: string, spec: FieldSpec, v: string)
    requires v == [] || v[|v| - 1] != '\n'
    ensures NotNumeric(row, field) in TypeCheck(row, field, spec, v)
        <==> spec.fieldType == "numeric" && v != [] && !AllDigits(v)
  {
    IsNumericIff(v);
  }

  lemma DecimalViolationIff(row: nat, field: string, spec: FieldSpec, v: string)
    ensures NotDecimal(row, field, BeforeDecimal(spec), AfterDecimal(spec)) in FieldErrors(row, field, spec, v)
        <==> spec.fieldType == "decimal" && v != [] && !IsDecimal(v, BeforeDecimal(spec), AfterDecimal(spec))
  {
    InFieldErrors(row, field, spec, v, NotDecimal(row, field, BeforeDecimal(spec), AfterDecimal(spec)));
    assert CheckOfRank(3, row, field, spec, v) == TypeCheck(row, field, spec, v);
    DecimalInCheck(row, field, spec, v);
  }

  lemma DecimalInCheck(row: nat, field: string, spec: FieldSpec, v: string)
    ensures NotDecimal(row, field, BeforeDecimal(spec), AfterDecimal(spec)) in TypeCheck(row, field, spec, v)
        <==> spec.fieldType == "decimal" && v != [] && !IsDecimal(v, BeforeDecimal(spec), AfterDecimal(spec))
  {
  }

  /** A field whose type string is none of the three known ones never gets a type violation. */
  lemma UnknownTypeUnchecked(row: nat, field: string, spec: FieldSpec, v: string)
    requires spec.fieldType != "alpha_numeric" && spec.fieldType != "numeric" && spec.fieldType != "decimal"
    ensures forall e :: e in FieldErrors(row, field, spec, v) ==> CheckRank(e) != 3
  {
    forall e | e in FieldErrors(row, field, spec, v) ensures CheckRank(e) != 3 {
      InFieldErrors(row, field, spec, v, e);
    }
  }

  /**
   * The range check reports "should be a number" when the non-empty value
   * does not parse or the range is not a pair of bounds.
   */
  lemma NotANumberIff(row: nat, field: string, spec: FieldSpec, v: string)
    ensures NotANumber(row, field) in FieldErrors(row, field, spec, v)
        <==> spec.range.Some? && v != [] && (ParseFloat(v).None? || |spec.range.value| != 2)
  {
    InFieldErrors(row, field, spec, v, NotANumber(row, field));
    assert CheckOfRank(4, row, field, spec, v) == RangeCheck(row, field, spec, v);
    NotANumberInCheck(row, field, spec, v);
  }

  lemma NotANumberInCheck(row: nat, field: string, spec: FieldSpec, v: string)
    ensures NotANumber(row, field) in RangeCheck(row, field, spec, v)
        <==> spec.range.Some? && v != [] && (ParseFloat(v).None? || |spec.range.value| != 2)
  {
  }

  /**
   * The range check reports the parsed value with the bounds exactly when
   * the value parses and lies outside the range, both bounds inclusive.
   */
  lemma OutOfRangeIff(row: nat, field: string, spec: FieldSpec, v: string, x: real, lo: real, hi: real)
    ensures OutOfRange(row, field, x, lo, hi) in FieldErrors(row, field, spec, v)
        <==> spec.range == Some([lo, hi]) && v != [] && ParseFloat(v) == Some(x) && !(lo <= x <= hi)
  {
    InFieldErrors(row, field, spec, v, OutOfRange(row, field, x, lo, hi));
    assert CheckOfRank(4, row, field, spec, v) == RangeCheck(row, field, spec, v);
    OutOfRangeInCheck(row, field, spec, v, x, lo, hi);
  }

  lemma OutOfRangeInCheck(row: nat, field: string, spec: FieldSpec, v: string, x: real, lo: real, hi: real)
    ensures OutOfRange(row, field, x, lo, hi) in RangeCheck(row, field, spec, v)
        <==> spec.range == Some([lo, hi]) && v != [] && ParseFloat(v) == Some(x) && !(lo <= x <= hi)
  {
    if spec.range.Some? && |spec.range.value| == 2 {
      assert spec.range.value == [spec.range.value[0], spec.range.value[1]];
    }
  }

  /**
   * A value that passed the type check of a numeric or decimal field always
   * parses for the range check, so with a range of two bounds it never gets
   * "should be a number" (a range of another length still does).
   */
  lemma TypedValueParses(row: nat, field: string, spec: FieldSpec, raw: string)
    requires Strip(raw) != []
    requires || (spec.fieldType == "numeric" && IsNumeric(Strip(raw)))
             || (spec.fieldType == "decimal" && IsDecimal(Strip(raw), BeforeDecimal(spec), AfterDecimal(spec)))
    ensures ParseFloat(Strip(raw)).Some? && ParseFloat(Strip(raw)).value >= 0.0
    ensures spec.range.Some? && |spec.range.value| == 2 ==> NotANumber(row, field) !in FieldErrors(row, field, spec, Strip(raw))
  {
    TypedValueParsesFloat(spec, raw);
    NotANumberIff(row, field, spec, Strip(raw));
  }

  lemma TypedValueParsesFloat(spec: FieldSpec, raw: string)
    requires Strip(raw) != []
    requires || (spec.fieldType == "numeric" && IsNumeric(Strip(raw)))
             || (spec.fieldType == "decimal" && IsDecimal(Strip(raw), BeforeDecimal(spec), AfterDecimal(spec)))
    ensures ParseFloat(Strip(raw)).Some? && ParseFloat(Strip(raw)).value >= 0.0
  {
    var v := Strip(raw);
    StripNoFinalNewline(raw);
    if spec.fieldType == "numeric" && IsNumeric(v) {
      IsNumericIff(v);
      DecimalParsesAsFloat(v, v, []);
    } else {
      IsDecimalSound(v, BeforeDecimal(spec), AfterDecimal(spec));
      var parts := DecimalParts(v).value;
      DecimalParsesAsFloat(v, parts.0, parts.1);
    }
  }

  /** The zero check compares the trimmed text with "0", nothing else ("00" and "0.0" pass). */
  lemma ZeroIff(row: nat, field: string, spec: FieldSpec, v: string)
    ensures ZeroValue(row, field) in FieldErrors(row, field, spec, v) <==> spec.zeroCheck && v == "0"
  {
    InFieldErrors(row, field, spec, v, ZeroValue(row, field));
    assert CheckOfRank(5, row, field, spec, v) == ZeroCheck(row, field, spec, v);
  }

  /**
   * A non-empty trimmed value outside the allowed values is reported, with
   * the value and the list, exactly when the field has a list of allowed
   * values; the empty value never is.
   */
  lemma NotAllowedIff(row: nat, field: string, spec: FieldSpec, v: string, w: string, values: seq<string>)
    ensures NotAllowed(row, field, w, values) in FieldErrors(row, field, spec, v)
        <==> spec.allowedValues == Some(values) && v != [] && v !in values && w == v
  {
    InFieldErrors(row, field, spec, v, NotAllowed(row, field, w, values));
    assert CheckOfRank(6, row, field, spec, v) == AllowedCheck(row, field, spec, v);
  }

  // ---------------------------------------------------------------------
  // One record

  /** The violations in `errs` that concern field `field`. */
  function About(errs: seq<Violation>, field: string): (r: seq<Violation>)
    ensures forall i :: 0 <= i < |r| ==> !r[i].Duplicate? && r[i].field == field
    ensures |r| <= |errs|
  {
    if errs == [] then []
    else
      var last := errs[|errs| - 1];
      About(errs[..|errs| - 1], field) + (if !last.Duplicate? && last.field == field then [last] else [])
  }

  lemma {:induction false} AboutAppend(a: seq<Violation>, b: seq<Violation>, field: string)
    ensures About(a + b, field) == About(a, field) + About(b, field)
  {
    if b != [] {
      var n := |b| - 1;
      assert (a + b)[..|a + b| - 1] == a + b[..n];
      AboutAppend(a, b[..n], field);
    } else {
      assert a + b == a;
    }
  }

  lemma {:induction false} AboutAll(errs: seq<Violation>, row: nat, field: string, other: string)
    requires AllAbout(errs, row, field)
    ensures About(errs, field) == errs
    ensures other != field ==> About(errs, other) == []
  {
    if errs != [] {
      AboutAll(errs[..|errs| - 1], row, field, other);
    }
  }

  lemma ItemErrorsAbout(row: nat, fields: map<string, FieldSpec>, item: (string, string))
    ensures AllAbout(ItemErrors(row, fields, item), row, item.0)
  {
    if item.0 in fields {
      FieldErrorsInOrder(row, item.0, fields[item.0], Strip(item.1));
    }
  }

  /**
   * A key without a definition gets exactly one violation, the unexpected
   * field, and no other check runs for it; a defined key never gets it.
   */
  lemma UnexpectedFieldIff(row: nat, fields: map<string, FieldSpec>, item: (string, string))
    ensures UnexpectedField(row, item.0) in ItemErrors(row, fields, item) <==> item.0 !in fields
    ensures item.0 !in fields ==> ItemErrors(row, fields, item) == [UnexpectedField(row, item.0)]
  {
    if item.0 in fields {
      var spec, v := fields[item.0], Strip(item.1);
      assert ItemErrors(row, fields, item) == FieldErrors(row, item.0, spec, v);
      NeverUnexpected(row, item.0, spec, v);
    }
  }

  /** The checks of a defined field never raise the unexpected-field violation. */
  lemma NeverUnexpected(row: nat, field: string, spec: FieldSpec, v: string)
    ensures UnexpectedField(row, field) !in FieldErrors(row, field, spec, v)
  {
    InFieldErrors(row, field, spec, v, UnexpectedField(row, field));
    assert CheckOfRank(0, row, field, spec, v) == [];
  }

  /** The per-item check of a record as a function value. */
  function ItemErrorsOf(row: nat, fields: map<string, FieldSpec>): ((string, string)) -> seq<Violation>
  {
    item => ItemErrors(row, fields, item)
  }

  /** The left fold that `RecordErrors` is, for any per-item check `g`. */
  function Gather(g: ((string, string)) -> seq<Violation>, record: Record): seq<Violation>
  {
    if record == [] then []
    else Gather(g, record[..|record| - 1]) + g(record[|record| - 1])
  }

  /** Each item's check reports only about that item's key, in row `row`. */
  ghost predicate ItemLocal(g: ((string, string)) -> seq<Violation>, row: nat)
  {
    forall item :: AllAbout(g(item), row, item.0)
  }

  lemma ItemErrorsLocal(row: nat, fields: map<string, FieldSpec>)
    ensures ItemLocal(ItemErrorsOf(row, fields), row)
  {
    forall item ensures AllAbout(ItemErrorsOf(row, fields)(item), row, item.0) {
      ItemErrorsAbout(row, fields, item);
    }
  }

  lemma {:induction false} RecordErrorsGather(row: nat, fields: map<string, FieldSpec>, record: Record)
    ensures RecordErrors(row, fields, record) == Gather(ItemErrorsOf(row, fields), record)
  {
    if record != [] {
      RecordErrorsGather(row, fields, record[..|record| - 1]);
    }
  }

  lemma {:induction false} GatherRow(g: ((string, string)) -> seq<Violation>, row: nat, record: Record)
    requires ItemLocal(g, row)
    ensures forall i :: 0 <= i < |Gather(g, record)| ==>
              !Gather(g, record)[i].Duplicate? && Gather(g, record)[i].row == row && Gather(g, record)[i].field in Keys(record)
  {
    if record != [] {
      var n := |record| - 1;
      var prefix, last := Gather(g, record[..n]), g(record[n]);
      GatherRow(g, row, record[..n]);
      assert AllAbout(last, row, record[n].0);
      assert Keys(record[..n]) == Keys(record)[..n];
      forall i | 0 <= i < |prefix + last|
        ensures !(prefix + last)[i].Duplicate? && (prefix + last)[i].row == row && (prefix + last)[i].field in Keys(record)
      {
        if i < |prefix| {
          assert (prefix + last)[i] == prefix[i];
          assert prefix[i].field in Keys(record[..n]);
        } else {
          assert (prefix + last)[i] == last[i - |prefix|];
          assert Keys(record)[n] == record[n].0;
        }
      }
    }
  }

  lemma {:induction false} GatherAbsent(g: ((string, string)) -> seq<Violation>, row: nat, record: Record, field: string)
    requires ItemLocal(g, row)
    requires field !in Keys(record)
    ensures About(Gather(g, record), field) == []
  {
    GatherRow(g, row, record);
    AboutNone(Gather(g, record), field);
  }

  lemma {:induction false} GatherAbout(g: ((string, string)) -> seq<Violation>, row: nat, record: Record, i: nat)
    requires ItemLocal(g, row)
    requires Distinct(Keys(record))
    requires i < |record|
    ensures About(Gather(g, record), record[i].0) == g(record[i])
  {
    var n := |record| - 1;
    var f := record[i].0;
    var init := record[..n];
    AboutAppend(Gather(g, init), g(record[n]), f);
    assert AllAbout(g(record[n]), row, record[n].0);
    assert Keys(init) == Keys(record)[..n];
    if i == n {
      AboutAll(g(record[n]), row, f, f);
      assert f !in Keys(init) by {
        forall k | 0 <= k < n ensures Keys(init)[k] != f {
          assert Keys(record)[k] != Keys(record)[n];
        }
      }
      GatherAbsent(g, row, init, f);
    } else {
      assert record[n].0 != f by { assert Keys(record)[i] != Keys(record)[n]; }
      AboutAll(g(record[n]), row, record[n].0, f);
      GatherAbout(g, row, init, i);
    }
  }

  /** Every violation of a record carries the record's row and names one of its keys. */
  lemma RecordErrorsRow(row: nat, fields: map<string, FieldSpec>, record: Record)
    ensures forall i :: 0 <= i < |RecordErrors(row, fields, record)| ==>
              var e := RecordErrors(row, fields, record)[i];
              !e.Duplicate? && e.row == row && e.field in Keys(record)
  {
    RecordErrorsGather(row, fields, record);
    ItemErrorsLocal(row, fields);
    GatherRow(ItemErrorsOf(row, fields), row, record);
  }

  /**
   * For a key of the record, the violations naming it are exactly that
   * item's: a key without a definition gets one "unexpected field" and no
   * other check; a defined key gets its field checks on the trimmed value.
   */
  lemma RecordErrorsAbout(row: nat, fields: map<string, FieldSpec>, record: Record, i: nat)
    requires Distinct(Keys(record))
    requires i < |record|
    ensures About(RecordErrors(row, fields, record), record[i].0) == ItemErrors(row, fields, record[i])
  {
    RecordErrorsGather(row, fields, record);
    ItemErrorsLocal(row, fields);
    GatherAbout(ItemErrorsOf(row, fields), row, record, i);
  }

  /** A field that is not a key of the record (a short row, say) is never reported, required or not. */
  lemma RecordErrorsAbsent(row: nat, fields: map<string, FieldSpec>, record: Record, field: string)
    requires field !in Keys(record)
    ensures About(RecordErrors(row, fields, record), field) == []
  {
    RecordErrorsGather(row, fields, record);
    ItemErrorsLocal(row, fields);
    GatherAbsent(ItemErrorsOf(row, fields), row, record, field);
  }

  lemma {:induction false} AboutNone(errs: seq<Violation>, field: string)
    requires forall i :: 0 <= i < |errs| ==> errs[i].Duplicate? || errs[i].field != field
    ensures About(errs, field) == []
  {
    if errs != [] {
      AboutNone(errs[..|errs| - 1], field);
    }
  }

  // ---------------------------------------------------------------------
  // Duplicates

  /** Reports name increasing rows, each a row of the table. */
  lemma {:induction false} DuplicateRows(records: seq<Record>)
    ensures forall i :: 0 <= i < |DuplicateReports(records)| ==>
              DuplicateReports(records)[i].Duplicate? && 2 <= DuplicateReports(records)[i].row <= |records|
    ensures forall i, j :: 0 <= i < j < |DuplicateReports(records)| ==>
              DuplicateReports(records)[i].row < DuplicateReports(records)[j].row
  {
    if records != [] {
      var n := |records|;
      var prefix := DuplicateReports(records[..n - 1]);
      var tail: seq<Violation> := if records[n - 1] in records[..n - 1] then [Duplicate(n)] else [];
      DuplicateRows(records[..n - 1]);
      assert tail != [] ==> n >= 2;
      var d := prefix + tail;
      forall i | 0 <= i < |d| ensures d[i].Duplicate? && 2 <= d[i].row <= n {
        if i < |prefix| { assert d[i] == prefix[i]; } else { assert d[i] == tail[i - |prefix|]; }
      }
      forall i, j | 0 <= i < j < |d| ensures d[i].row < d[j].row {
        if j < |prefix| {
          assert d[i] == prefix[i] && d[j] == prefix[j];
        } else {
          assert d[i] == prefix[i] && d[j] == tail[0];
        }
      }
    }
  }

  /** Row `n` is reported exactly when an earlier row holds an identical record; the first occurrence never is. */
  lemma {:induction false} DuplicateIff(records: seq<Record>, n: nat)
    requires 1 <= n <= |records|
    ensures Duplicate(n) in DuplicateReports(records) <==> exists j :: 0 <= j < n - 1 && records[j] == records[n - 1]
  {
    var m := |records|;
    var init := records[..m - 1];
    DuplicateRows(init);
    if n < m {
      DuplicateIff(init, n);
      assert forall j :: 0 <= j < n ==> init[j] == records[j];
    } else {
      assert Duplicate(n) !in DuplicateReports(init);
      if records[n - 1] in init {
        var j :| 0 <= j < m - 1 && init[j] == records[n - 1];
        assert records[j] == records[n - 1];
      }
    }
  }

  function Distincts(records: seq<Record>): set<Record>
  {
    set r | r in records
  }

  /** There are as many reports as rows beyond the first occurrence of each distinct record. */
  lemma {:induction false} DuplicateCount(records: seq<Record>)
    ensures |DuplicateReports(records)| == |records| - |Distincts(records)|
  {
    if records != [] {
      var n := |records| - 1;
      var init := records[..n];
      DuplicateCount(init);
      assert records == init + [records[n]];
      assert Distincts(records) == Distincts(init) + {records[n]};
      if records[n] in init {
        assert Distincts(records) == Distincts(init);
      } else {
        assert records[n] !in Distincts(init);
      }
    }
  }

  // ---------------------------------------------------------------------
  // The whole table

  /** The violations in `errs` that carry row number `row`. */
  function OfRow(errs: seq<Violation>, row: nat): seq<Violation>
  {
    if errs == [] then []
    else
      var last := errs[|errs| - 1];
      OfRow(errs[..|errs| - 1], row) + (if last.row == row then [last] else [])
  }

  lemma {:induction false} OfRowAppend(a: seq<Violation>, b: seq<Violation>, row: nat)
    ensures OfRow(a + b, row) == OfRow(a, row) + OfRow(b, row)
  {
    if b != [] {
      var n := |b| - 1;
      assert (a + b)[..|a + b| - 1] == a + b[..n];
      OfRowAppend(a, b[..n], row);
    } else {
      assert a + b == a;
    }
  }

  lemma {:induction false} OfRowUniform(errs: seq<Violation>, row: nat, other: nat)
    requires forall i :: 0 <= i < |errs| ==> errs[i].row == row
    ensures OfRow(errs, other) == if other == row then errs else []
  {
    if errs != [] {
      OfRowUniform(errs[..|errs| - 1], row, other);
    }
  }

  /** The per-record check of a table as a function value, taking the 1-based row number. */
  function RecordErrorsOf(fields: map<string, FieldSpec>): (nat, Record) -> seq<Violation>
  {
    (n: nat, record: Record) => RecordErrors(n, fields, record)
  }

  /** The left fold that `AllRecordErrors` is, for any per-record check `h` numbering rows from 1. */
  function Numbered(h: (nat, Record) -> seq<Violation>, records: seq<Record>): seq<Violation>
  {
    if records == [] then []
    else Numbered(h, records[..|records| - 1]) + h(|records|, records[|records| - 1])
  }

  /** Each record's check reports only about the row number it is given. */
  ghost predicate RowLocal(h: (nat, Record) -> seq<Violation>)
  {
    forall n: nat, record: Record, i :: 0 <= i < |h(n, record)| ==> !h(n, record)[i].Duplicate? && h(n, record)[i].row == n
  }

  lemma RecordErrorsLocal(fields: map<string, FieldSpec>)
    ensures RowLocal(RecordErrorsOf(fields))
  {
    forall n: nat, record: Record, i | 0 <= i < |RecordErrorsOf(fields)(n, record)|
      ensures !RecordErrorsOf(fields)(n, record)[i].Duplicate? && RecordErrorsOf(fields)(n, record)[i].row == n
    {
      RecordErrorsRow(n, fields, record);
    }
  }

  lemma {:induction false} AllRecordErrorsNumbered(fields: map<string, FieldSpec>, records: seq<Record>)
    ensures AllRecordErrors(fields, records) == Numbered(RecordErrorsOf(fields), records)
  {
    if records != [] {
      AllRecordErrorsNumbered(fields, records[..|records| - 1]);
    }
  }

  lemma {:induction false} NumberedRows(h: (nat, Record) -> seq<Violation>, records: seq<Record>)
    requires RowLocal(h)
    ensures forall i :: 0 <= i < |Numbered(h, records)| ==>
              !Numbered(h, records)[i].Duplicate? && 1 <= Numbered(h, records)[i].row <= |records|
    ensures forall i, j :: 0 <= i < j < |Numbered(h, records)| ==> Numbered(h, records)[i].row <= Numbered(h, records)[j].row
  {
    if records != [] {
      var n := |records|;
      var prefix, last := Numbered(h, records[..n - 1]), h(n, records[n - 1]);
      NumberedRows(h, records[..n - 1]);
      var errs := prefix + last;
      forall i | 0 <= i < |errs| ensures !errs[i].Duplicate? && 1 <= errs[i].row <= n {
        if i < |prefix| { assert errs[i] == prefix[i]; } else { assert errs[i] == last[i - |prefix|]; }
      }
      forall i, j | 0 <= i < j < |errs| ensures errs[i].row <= errs[j].row {
        if j >= |prefix| {
          assert errs[j] == last[j - |prefix|];
          if i < |prefix| { assert errs[i] == prefix[i]; } else { assert errs[i] == last[i - |prefix|]; }
        } else {
          assert errs[i] == prefix[i] && errs[j] == prefix[j];
        }
      }
    }
  }

  lemma {:induction false} NumberedOfRow(h: (nat, Record) -> seq<Violation>, records: seq<Record>, n: nat)
    requires RowLocal(h)
    requires 1 <= n <= |records|
    ensures OfRow(Numbered(h, records), n) == h(n, records[n - 1])
  {
    var m := |records|;
    var init, last := records[..m - 1], h(m, records[m - 1]);
    assert Numbered(h, records) == Numbered(h, init) + last;
    OfRowAppend(Numbered(h, init), last, n);
    assert forall i :: 0 <= i < |last| ==> last[i].row == m;
    OfRowUniform(last, m, n);
    if n < m {
      NumberedOfRow(h, init, n);
      assert init[n - 1] == records[n - 1];
    } else {
      NumberedRows(h, init);
      OfRowOutside(Numbered(h, init), n);
    }
  }

  /**
   * The per-record part of `main`'s list: rows in non-decreasing order,
   * all between 1 and the number of records.
   */
  lemma AllRecordErrorsRows(fields: map<string, FieldSpec>, records: seq<Record>)
    ensures forall i :: 0 <= i < |AllRecordErrors(fields, records)| ==>
              !AllRecordErrors(fields, records)[i].Duplicate? && 1 <= AllRecordErrors(fields, records)[i].row <= |records|
    ensures forall i, j :: 0 <= i < j < |AllRecordErrors(fields, records)| ==>
              AllRecordErrors(fields, records)[i].row <= AllRecordErrors(fields, records)[j].row
  {
    AllRecordErrorsNumbered(fields, records);
    RecordErrorsLocal(fields);
    NumberedRows(RecordErrorsOf(fields), records);
  }

  /** The violations of row `n` in the per-record part are those of validating the `n`-th record with row index `n`. */
  lemma AllRecordErrorsOfRow(fields: map<string, FieldSpec>, records: seq<Record>, n: nat)
    requires 1 <= n <= |records|
    ensures OfRow(AllRecordErrors(fields, records), n) == RecordErrors(n, fields, records[n - 1])
  {
    AllRecordErrorsNumbered(fields, records);
    RecordErrorsLocal(fields);
    NumberedOfRow(RecordErrorsOf(fields), records, n);
  }

  lemma {:induction false} OfRowOutside(errs: seq<Violation>, row: nat)
    requires forall i :: 0 <= i < |errs| ==> errs[i].row != row
    ensures OfRow(errs, row) == []
  {
    if errs != [] {
      OfRowOutside(errs[..|errs| - 1], row);
    }
  }

  /**
   * `main` reports nothing exactly when no record has a violation and,
   * with the duplicate check on, no record repeats an earlier one.
   */
  lemma TableValidIff(schema: Schema, records: seq<Record>)
    ensures TableErrors(schema, records) == []
        <==> && (forall i :: 0 <= i < |records| ==> RecordErrors(i + 1, schema.fields, records[i]) == [])
             && (schema.duplicateFieldCheck ==> |Distincts(records)| == |records|)
  {
    DuplicateCount(records);
    AllRecordErrorsNumbered(schema.fields, records);
    NumberedEmptyIff(RecordErrorsOf(schema.fields), records);
    assert forall i :: 0 <= i < |records| ==>
             RecordErrorsOf(schema.fields)(i + 1, records[i]) == RecordErrors(i + 1, schema.fields, records[i]);
  }

  lemma {:induction false} NumberedEmptyIff(h: (nat, Record) -> seq<Violation>, records: seq<Record>)
    ensures Numbered(h, records) == [] <==> forall i :: 0 <= i < |records| ==> h(i + 1, records[i]) == []
  {
    if records != [] {
      var n := |records| - 1;
      var init := records[..n];
      NumberedEmptyIff(h, init);
      assert forall i :: 0 <= i < n ==> init[i] == records[i];
    }
  }
}
