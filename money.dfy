/**
 * Money: a PreciseNumber that also carries a display precision and a currency code. The
 * constructor merges the caller's options over the defaults and passes the amount and the
 * merged precision on to PreciseNumber; `convert` is a guard that always fails.
 */
module Monies {
  import opened Wrappers
  import opened Consts
  import opened Engine
  import opened PreciseNumbers

  /** The options a caller may pass; None is a key that is absent from the object. */
  datatype Options = Options(precision: Option<real>, display: Option<real>, currency: Option<string>)

  /** The options after merging: every field has a value. */
  datatype Settings = Settings(precision: real, display: real, currency: string)

  /** defaultOptions. */
  const Defaults: Settings := Settings(DEF_PREC as real, DEF_DISP, "")

  /** An option the caller gave wins over the default. */
  function Pick<T>(given: Option<T>, default: T): T
  {
    match given
    case Some(v) => v
    case None => default
  }

  /** Object.assign({}, defaultOptions, options): each field taken from the options when present. */
  function Merge(given: Options): Settings
  {
    Settings(Pick(given.precision, Defaults.precision),
             Pick(given.display, Defaults.display),
             Pick(given.currency, Defaults.currency))
  }

  /** With no options a Money gets the default precision and display and an empty currency. */
  lemma MergeNoOptions()
    ensures Merge(Options(None, None, None)) == Settings(DEF_PREC as real, DEF_DISP, "")
  {
  }

  /**
   * Merging is field by field: a field the caller gives is kept as given whatever the other
   * fields are, and an absent field takes its default whatever the other fields are.
   */
  lemma MergeFieldByField(given: Options)
    ensures given.precision.Some? ==> Merge(given).precision == given.precision.value
    ensures given.precision.None? ==> Merge(given).precision == DEF_PREC as real
    ensures given.display.Some? ==> Merge(given).display == given.display.value
    ensures given.display.None? ==> Merge(given).display == DEF_DISP
    ensures given.currency.Some? ==> Merge(given).currency == given.currency.value
    ensures given.currency.None? ==> Merge(given).currency == ""
  {
  }

  class Money {
    /** The PreciseNumber part of the object. */
    const number: PreciseNumber
    var display: real
    var currency: string

    ghost predicate Valid()
      reads this, number
    {
      number.Valid()
    }

    constructor Assemble(n: PreciseNumber, s: Settings)
      ensures number == n && display == s.display && currency == s.currency
    {
      number := n;
      display := s.display;
      currency := s.currency;
    }

    /**
     * new Money(amount, options): merge the options over the defaults, build the PreciseNumber
     * part with the merged precision (failing as the PreciseNumber constructor fails, a
     * precision out of range included), then store the merged display and currency.
     */
    static method New(amount: Input, given: Options) returns (r: Result<Money>)
      ensures r.Success? <==> Construct(amount, Merge(given).precision).Success?
      ensures r.Failure? ==> r.error == Construct(amount, Merge(given).precision).error
      ensures r.Success? ==> fresh(r.value) && fresh(r.value.number) && r.value.Valid() &&
                             r.value.number.Snapshot() == Construct(amount, Merge(given).precision).value &&
                             r.value.display == Merge(given).display &&
                             r.value.currency == Merge(given).currency
    {
      var settings := Merge(given);
      var made := PreciseNumber.New(amount, settings.precision);
      if made.Failure? {
        return Failure(made.error);
      }
      var m := new Money.Assemble(made.value, settings);
      return Success(m);
    }

    /**
     * convert(to, from): never returns a Money. With an empty currency and no (or an empty)
     * `from` it fails because the currency is not set; otherwise because conversion is not
     * implemented.
     */
    function Convert(to: string, from: Option<string>): (r: Result<Money>)
      reads this
      ensures r.Failure?
      ensures r.error == CurrencyNotSet <==> currency == "" && (from.None? || from.value == "")
      ensures r.error == NotImplemented <==> currency != "" || (from.Some? && from.value != "")
    {
      if currency == "" && (from.None? || from.value == "") then Failure(CurrencyNotSet)
      else Failure(NotImplemented)
    }

    /**
     * The arithmetic Money inherits: the result is a plain PreciseNumber at the Money's
     * precision, built by #executeOperation, with no display or currency; the Money itself
     * is not modified.
     */
    method Operation(op: Operator, values: seq<Input>) returns (r: Result<PreciseNumber>)
      requires Valid()
      ensures r.Success? <==> Operate(op, number.precision, [Instance(number.Snapshot())] + values).Success?
      ensures r.Failure? ==> r.error == Operate(op, number.precision, [Instance(number.Snapshot())] + values).error
      ensures r.Success? ==> fresh(r.value) && r.value.Valid() &&
                             r.value.precision == number.precision &&
                             r.value.Snapshot() == Operate(op, number.precision, [Instance(number.Snapshot())] + values).value
    {
      OperateKeepsPrecision(op, number.precision, [Instance(number.Snapshot())] + values);
      r := number.ExecuteOperation(op, [Instance(number.Snapshot())] + values);
    }
  }
}
