/**
  The `Order` entity and the DataAnnotations rules declared on it, with the validation
  that `Validator.TryValidateObject(order, context, results, validateAllProperties: true)`
  performs over those rules.

  Per property the framework runs `[Required]` first and, when it fails, reports only that
  failure; otherwise every remaining attribute of the property is checked and each failure
  is reported. Properties are independent: a failure on one never hides another.
 */
module Domain {
  import opened DotNet

  datatype Order = Order(
    id: int,
    name: string,
    weight: real,
    district: string,
    deliveryDateTime: Ticks)

  /** The properties of `Order` that carry validation attributes. */
  datatype Field = Name | Weight | District | DeliveryDateTime

  const MaxNameLength: nat := 100
  const MaxDistrictLength: nat := 100

  const NameMessage: string := "Имя может содержать только буквы и пробелы."
  const DistrictMessage: string := "Район может содержать только буквы и пробелы."
  const WeightMessage: string := "Вес должен быть до 100 кг"

  /** One entry of the validation result list. `[Required]` and `[MaxLength]` carry the
      framework's default messages; the other two carry the messages declared in Order.cs. */
  datatype ValidationError =
    | RequiredMissing(field: Field)
    | TooLong(field: Field, maxLength: nat)
    | PatternMismatch(field: Field, message: string)
    | OutOfRange(field: Field, message: string)

  /** What validating an order yields: the list of failures (empty when the order is
      valid), or the `OverflowException` that escapes `[Range]` when the weight does not
      convert to a 32-bit integer. */
  datatype ValidationOutcome = Completed(errors: seq<ValidationError>) | OverflowThrown

  /** The character class `[a-zA-Z\s]`. */
  predicate IsAsciiLetterOrWhiteSpace(c: char)
  {
    ('a' <= c <= 'z') || ('A' <= c <= 'Z') || IsWhiteSpace(c)
  }

  /** `^[a-zA-Z\s]+$` as `[RegularExpression]` applies it: the match must cover the whole
      value. An empty value is not given to the pattern at all (`[Required]` fails first). */
  predicate MatchesLettersPattern(s: string)
  {
    |s| > 0 && forall i :: 0 <= i < |s| ==> IsAsciiLetterOrWhiteSpace(s[i])
  }

  /** The rules `[Required]`, `[MaxLength(max)]` and `[RegularExpression(@"^[a-zA-Z\s]+$")]`
      on one string property, with the pattern's custom message. */
  function LettersFieldErrors(field: Field, s: string, max: nat, message: string): (errs: seq<ValidationError>)
    ensures errs == [] <==> !IsBlank(s) && Utf16Length(s) <= max && MatchesLettersPattern(s)
    ensures IsBlank(s) ==> errs == [RequiredMissing(field)]
    ensures forall e :: e in errs ==>
      e == RequiredMissing(field) || e == TooLong(field, max) || e == PatternMismatch(field, message)
    ensures RequiredMissing(field) in errs <==> IsBlank(s)
    ensures TooLong(field, max) in errs <==> !IsBlank(s) && Utf16Length(s) > max
    ensures PatternMismatch(field, message) in errs <==> !IsBlank(s) && !MatchesLettersPattern(s)
  {
    if IsBlank(s) then [RequiredMissing(field)]
    else
      (if Utf16Length(s) <= max then [] else [TooLong(field, max)])
      + (if MatchesLettersPattern(s) then [] else [PatternMismatch(field, message)])
  }

  /** `[Range(0, 100)]` on the double `Weight`. The attribute was built from two `int`
      bounds, so the value is first converted with `Convert.ToInt32`, which rounds to the
      nearest integer; the conversion's `OverflowException` is not caught by the attribute.
      `[Required]` on a value type always passes. */
  function WeightErrors(w: real): (r: Option<seq<ValidationError>>)
    ensures r.None? <==> w < Int32LowerBound || w >= Int32UpperBound
    ensures r.Some? ==> (r.value == [] <==> -0.5 <= w <= 100.5)
    ensures r.Some? && r.value != [] ==> r.value == [OutOfRange(Weight, WeightMessage)]
  {
    match ToInt32(w)
    case None => None
    case Some(n) => Some(if 0 <= n <= 100 then [] else [OutOfRange(Weight, WeightMessage)])
  }

  /** Validation of a whole order: the property failures in declaration order. `Id` has no
      rule, and `DeliveryDateTime` carries only `[Required]`, which a value type always
      passes, so there is no rule about the date's value. */
  function Validate(o: Order): (r: ValidationOutcome)
    ensures r.OverflowThrown? <==> ToInt32(o.weight).None?
    ensures r.Completed? ==> (r.errors == [] <==>
      && !IsBlank(o.name) && Utf16Length(o.name) <= MaxNameLength && MatchesLettersPattern(o.name)
      && -0.5 <= o.weight <= 100.5
      && !IsBlank(o.district) && Utf16Length(o.district) <= MaxDistrictLength && MatchesLettersPattern(o.district))
    ensures r.Completed? ==> forall e :: e in r.errors ==> e.field != DeliveryDateTime
  {
    match WeightErrors(o.weight)
    case None => OverflowThrown
    case Some(weightErrors) =>
      Completed(LettersFieldErrors(Name, o.name, MaxNameLength, NameMessage)
                + weightErrors
                + LettersFieldErrors(District, o.district, MaxDistrictLength, DistrictMessage))
  }

  /** The failures a completed validation reports for one property. */
  function ErrorsOf(errs: seq<ValidationError>, field: Field): (r: seq<ValidationError>)
    ensures forall e :: e in r <==> e in errs && e.field == field
  {
    if errs == [] then []
    else (if errs[0].field == field then [errs[0]] else []) + ErrorsOf(errs[1..], field)
  }

  lemma {:induction false} ErrorsOfConcat(a: seq<ValidationError>, b: seq<ValidationError>, field: Field)
    ensures ErrorsOf(a + b, field) == ErrorsOf(a, field) + ErrorsOf(b, field)
    decreases |a|
  {
    if a != [] {
      var head := if a[0].field == field then [a[0]] else [];
      calc {
        ErrorsOf(a + b, field);
      == { assert (a + b)[0] == a[0]; }
        head + ErrorsOf((a + b)[1..], field);
      == { assert (a + b)[1..] == a[1..] + b; }
        head + ErrorsOf(a[1..] + b, field);
      == { ErrorsOfConcat(a[1..], b, field); }
        head + (ErrorsOf(a[1..], field) + ErrorsOf(b, field));
      ==
        ErrorsOf(a, field) + ErrorsOf(b, field);
      }
    } else {
      assert a + b == b;
    }
  }

  lemma {:induction false} ErrorsOfOnly(errs: seq<ValidationError>, field: Field)
    requires forall e :: e in errs ==> e.field == field
    ensures ErrorsOf(errs, field) == errs
    decreases |errs|
  {
    if errs != [] {
      assert errs[0] in errs;
      assert forall e :: e in errs[1..] ==> e in errs;
      ErrorsOfOnly(errs[1..], field);
    }
  }

  lemma ErrorsOfNone(errs: seq<ValidationError>, field: Field)
    requires forall e :: e in errs ==> e.field != field
    ensures ErrorsOf(errs, field) == []
  {
  }

  /** Picking one property's failures out of a three-part list whose parts each belong
      to a single property. */
  lemma PickFromThree(n: seq<ValidationError>, w: seq<ValidationError>, d: seq<ValidationError>, field: Field)
    requires forall e :: e in n ==> e.field == Name
    requires forall e :: e in w ==> e.field == Weight
    requires forall e :: e in d ==> e.field == District
    ensures ErrorsOf(n + w + d, field) ==
      (if field == Name then n else if field == Weight then w else if field == District then d else [])
  {
    ErrorsOfConcat(n + w, d, field);
    ErrorsOfConcat(n, w, field);
    match field
    case Name =>
      ErrorsOfOnly(n, Name);
      ErrorsOfNone(w, Name);
      ErrorsOfNone(d, Name);
      assert n + [] + [] == n;
    case Weight =>
      ErrorsOfNone(n, Weight);
      ErrorsOfOnly(w, Weight);
      ErrorsOfNone(d, Weight);
      assert [] + w + [] == w;
    case District =>
      ErrorsOfNone(n, District);
      ErrorsOfNone(w, District);
      ErrorsOfOnly(d, District);
      assert [] + [] + d == d;
    case DeliveryDateTime =>
      ErrorsOfNone(n, DeliveryDateTime);
      ErrorsOfNone(w, DeliveryDateTime);
      ErrorsOfNone(d, DeliveryDateTime);
  }

  /** When validation completes, each property's failures are exactly that property's own
      rules applied to that property's own value: no property masks or causes another's. */
  lemma FieldsAreIndependent(o: Order)
    requires Validate(o).Completed?
    ensures ErrorsOf(Validate(o).errors, Name) == LettersFieldErrors(Name, o.name, MaxNameLength, NameMessage)
    ensures ErrorsOf(Validate(o).errors, Weight) == WeightErrors(o.weight).value
    ensures ErrorsOf(Validate(o).errors, District) == LettersFieldErrors(District, o.district, MaxDistrictLength, DistrictMessage)
    ensures ErrorsOf(Validate(o).errors, DeliveryDateTime) == []
  {
    var n := LettersFieldErrors(Name, o.name, MaxNameLength, NameMessage);
    var w := WeightErrors(o.weight).value;
    var d := LettersFieldErrors(District, o.district, MaxDistrictLength, DistrictMessage);
    PickFromThree(n, w, d, Name);
    PickFromThree(n, w, d, Weight);
    PickFromThree(n, w, d, District);
    PickFromThree(n, w, d, DeliveryDateTime);
  }

  /** The Name rule: valid exactly when the name is not blank, has at most 100 UTF-16
      code units, and consists of ASCII letters and white space only. */
  lemma NameRule(o: Order)
    requires Validate(o).Completed?
    ensures ErrorsOf(Validate(o).errors, Name) == [] <==>
      !IsBlank(o.name) && Utf16Length(o.name) <= MaxNameLength && MatchesLettersPattern(o.name)
  {
    FieldsAreIndependent(o);
  }

  /** A name holding a digit, or any letter outside A-Z and a-z, is reported with exactly
      the declared pattern message. */
  lemma NameWithDigitOrForeignLetter(o: Order, i: nat)
    requires Validate(o).Completed?
    requires i < |o.name|
    requires !IsAsciiLetterOrWhiteSpace(o.name[i])
    ensures PatternMismatch(Name, NameMessage) in Validate(o).errors
  {
    FieldsAreIndependent(o);
    assert !IsWhiteSpace(o.name[i]);
  }

  /** The District rule has the same shape and its own message; it depends on the district
      alone, so a valid name never masks an invalid district. */
  lemma DistrictRule(o: Order)
    requires Validate(o).Completed?
    ensures ErrorsOf(Validate(o).errors, District) == [] <==>
      !IsBlank(o.district) && Utf16Length(o.district) <= MaxDistrictLength && MatchesLettersPattern(o.district)
    ensures !IsBlank(o.district) && !MatchesLettersPattern(o.district) ==>
      PatternMismatch(District, DistrictMessage) in Validate(o).errors
  {
    FieldsAreIndependent(o);
  }

  /** Every weight in the declared range [0, 100] passes, and an integral weight passes
      exactly when it lies in that range. */
  lemma WeightRangeContainsDeclared(w: real)
    ensures 0.0 <= w <= 100.0 ==> WeightErrors(w) == Some([])
    ensures w == w.Floor as real ==> (WeightErrors(w) == Some([]) <==> 0.0 <= w <= 100.0)
  {
  }

  /** Weights that the conversion rejects make the whole validation throw. */
  lemma WeightOverflowThrows(o: Order)
    ensures Validate(o).OverflowThrown? <==> o.weight < Int32LowerBound || o.weight >= Int32UpperBound
  {
  }

  /** Neither the date nor the id takes part in validation: any delivery date at all, past
      or future, and any id, leave the outcome unchanged. */
  lemma DateAndIdAreUnchecked(o: Order, id: int, t: Ticks)
    ensures Validate(o.(id := id, deliveryDateTime := t)) == Validate(o)
  {
  }

  /** Cyrillic letters fall outside `[a-zA-Z]`: a Cyrillic name such as "Иван Иванов"
      is reported with the Name pattern message, whatever the other fields hold. */
  lemma CyrillicNameRejected(o: Order)
    requires o.name == "Иван Иванов"
    requires Validate(o).Completed?
    ensures PatternMismatch(Name, NameMessage) in Validate(o).errors
  {
    NameWithDigitOrForeignLetter(o, 0);
  }

  // ---------------------------------------------------------------------------
  // The weight range as evidently intended
  // ---------------------------------------------------------------------------

  /** `[Range(0.0, 100.0)]`: the double bounds compare the weight itself, with no rounding. */
  function IntendedWeightErrors(w: real): (errs: seq<ValidationError>)
    ensures errs == [] <==> 0.0 <= w <= 100.0
    ensures errs != [] ==> errs == [OutOfRange(Weight, WeightMessage)]
  {
    if 0.0 <= w <= 100.0 then [] else [OutOfRange(Weight, WeightMessage)]
  }

  /** Validation with the double-bounded weight rule; it never throws. */
  function ValidateAsIntended(o: Order): (errs: seq<ValidationError>)
    ensures (forall e :: e in errs ==> !e.OutOfRange?) <==> 0.0 <= o.weight <= 100.0
  {
    var errs := LettersFieldErrors(Name, o.name, MaxNameLength, NameMessage)
                + IntendedWeightErrors(o.weight)
                + LettersFieldErrors(District, o.district, MaxDistrictLength, DistrictMessage);
    assert IntendedWeightErrors(o.weight) != [] ==> IntendedWeightErrors(o.weight)[0] in errs;
    errs
  }

  /** Validation with the double-bounded rule reports what validation as written reports
      whenever the two weight rules agree: on integral weights and on weights in [0, 100]. */
  lemma ValidateAsIntendedAgrees(o: Order)
    requires Validate(o).Completed?
    requires o.weight == o.weight.Floor as real || 0.0 <= o.weight <= 100.0
    ensures ValidateAsIntended(o) == Validate(o).errors
  {
    IntendedAgreesOnIntegralWeights(o.weight);
  }

  /** The attribute as written lets weights just above 100 kg (and just below 0) through,
      where the double-bounded rule rejects them. */
  lemma WeightAboveHundredAccepted()
    ensures WeightErrors(100.5) == Some([]) && IntendedWeightErrors(100.5) != []
    ensures WeightErrors(-0.5) == Some([]) && IntendedWeightErrors(-0.5) != []
    ensures WeightErrors(100.6) != Some([])
  {
  }

  /** The two rules agree on every integral weight and on every weight in [0, 100]. */
  lemma IntendedAgreesOnIntegralWeights(w: real)
    requires w == w.Floor as real || 0.0 <= w <= 100.0
    requires ToInt32(w).Some?
    ensures WeightErrors(w) == Some(IntendedWeightErrors(w))
  {
    WeightRangeContainsDeclared(w);
  }
}
