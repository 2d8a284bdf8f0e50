/** The decision shell of black_scholes_price and implied_volatility. The
    closed-form price (logarithm, square root, exponential, normal CDF) and the
    interior iterations of Brent's method are parameters; the guards, the bracket
    [0, 10] and the exception flow are modelled. */
module Pricing {
  import opened Wrappers

  /** The option_type argument, "call" or "put". */
  datatype OptionType = CallOption | PutOption

  /** The closed-form premium for S, K, T, r, sigma and the option type, as
      computed once the guard has passed and S / K is defined. */
  type ClosedForm = (real, real, real, real, real, OptionType) -> real

  /** A price, or the ZeroDivisionError that the float division S / K raises. */
  datatype Priced = Price(value: real) | ZeroDivision

  /** The interior search of Brent's method on an objective over a bracket whose
      end values have opposite signs: a point of the bracket, or None when it
      does not converge (a RuntimeError). */
  type Search = search: (real -> Priced, real, real) -> Option<real>
    | forall f, a, b :: search(f, a, b).Some? ==> a <= search(f, a, b).value <= b
    witness (f, a, b) => None

  /** What brentq does: return a root, raise ValueError because the ends of the
      bracket do not straddle a root, or raise anything else. */
  datatype RootOutcome = Root(x: real) | SignError | OtherError

  /** Implied volatility, with Undefined in place of NaN. */
  datatype IV = Defined(sigma: real) | Undefined

  /** implied_volatility either returns a value or lets an exception other than
      ValueError escape to its caller. */
  datatype IvOutcome = Returned(iv: IV) | Escaped

  const BracketLow: real := 0.0
  const BracketHigh: real := 10.0

  /** black_scholes_price: exactly 0.0 when T <= 0 or sigma <= 0, decided before
      anything is divided; otherwise the closed form, except that a zero strike
      makes S / K raise. */
  function BlackScholesPrice(s: real, k: real, t: real, rate: real, sigma: real,
                             optionType: OptionType, closedForm: ClosedForm): (p: Priced)
    ensures t <= 0.0 || sigma <= 0.0 ==> p == Price(0.0)
    ensures p.ZeroDivision? <==> t > 0.0 && sigma > 0.0 && k == 0.0
    ensures t > 0.0 && sigma > 0.0 && k != 0.0 ==> p == Price(closedForm(s, k, t, rate, sigma, optionType))
  {
    if t <= 0.0 || sigma <= 0.0 then Price(0.0)
    else if k == 0.0 then ZeroDivision
    else Price(closedForm(s, k, t, rate, sigma, optionType))
  }

  /** The function brentq searches: model price at sigma minus the market price.
      It raises where the pricer raises, and at sigma <= 0 it is minus the
      market price. */
  function Objective(s: real, k: real, t: real, rate: real, marketPrice: real,
                     optionType: OptionType, closedForm: ClosedForm): (f: real -> Priced)
    ensures forall sigma :: f(sigma).ZeroDivision? <==>
              BlackScholesPrice(s, k, t, rate, sigma, optionType, closedForm).ZeroDivision?
    ensures forall sigma :: f(sigma).Price? ==>
              f(sigma).value + marketPrice == BlackScholesPrice(s, k, t, rate, sigma, optionType, closedForm).value
    ensures forall sigma :: sigma <= 0.0 ==> f(sigma) == Price(-marketPrice)
  {
    sigma =>
      match BlackScholesPrice(s, k, t, rate, sigma, optionType, closedForm)
      case Price(v) => Price(v - marketPrice)
      case ZeroDivision => ZeroDivision
  }

  /** brentq(f, a, b): evaluates f at both ends (an exception there propagates),
      raises ValueError when both values are non-zero with the same sign,
      returns an end where f is zero, and otherwise runs the interior search. */
  function Brentq(f: real -> Priced, a: real, b: real, search: Search): (o: RootOutcome)
    ensures f(a).ZeroDivision? || f(b).ZeroDivision? ==> o == OtherError
    ensures o == SignError <==> f(a).Price? && f(b).Price? && f(a).value * f(b).value > 0.0
    ensures o.Root? ==> o.x == a || o.x == b || search(f, a, b) == Some(o.x)
    ensures a <= b && o.Root? ==> a <= o.x <= b
    ensures f(a) == Price(0.0) && f(b).Price? ==> o == Root(a)
    ensures f(a).Price? && f(a).value != 0.0 && f(b) == Price(0.0) ==> o == Root(b)
    ensures f(a).Price? && f(b).Price? && f(a).value * f(b).value < 0.0 && search(f, a, b).Some? ==>
              o == Root(search(f, a, b).value)
    ensures o == OtherError <==>
              f(a).ZeroDivision? || f(b).ZeroDivision?
              || (f(a).Price? && f(b).Price? && f(a).value * f(b).value < 0.0 && search(f, a, b).None?)
  {
    match (f(a), f(b))
    case (ZeroDivision, _) => OtherError
    case (_, ZeroDivision) => OtherError
    case (Price(fa), Price(fb)) =>
      if fa * fb > 0.0 then SignError
      else if fa == 0.0 then Root(a)
      else if fb == 0.0 then Root(b)
      else
        match search(f, a, b)
        case Some(x) => Root(x)
        case None => OtherError
  }

  /** implied_volatility: Undefined without a solve when T or the market price is
      zero; otherwise brentq over [0, 10], with its ValueError turned into
      Undefined and any other exception escaping. */
  function ImpliedVolatility(s: real, k: real, t: real, rate: real, marketPrice: real,
                             optionType: OptionType, closedForm: ClosedForm, search: Search): (o: IvOutcome)
    ensures t == 0.0 || marketPrice == 0.0 ==> o == Returned(Undefined)
    ensures o == Returned(Undefined) <==>
              t == 0.0 || marketPrice == 0.0
              || Brentq(Objective(s, k, t, rate, marketPrice, optionType, closedForm), BracketLow, BracketHigh, search) == SignError
    ensures o.Escaped? <==>
              t != 0.0 && marketPrice != 0.0
              && Brentq(Objective(s, k, t, rate, marketPrice, optionType, closedForm), BracketLow, BracketHigh, search) == OtherError
    ensures o.Returned? && o.iv.Defined? ==> BracketLow <= o.iv.sigma <= BracketHigh
    ensures o.Returned? && o.iv.Defined? ==>
              Brentq(Objective(s, k, t, rate, marketPrice, optionType, closedForm), BracketLow, BracketHigh, search) == Root(o.iv.sigma)
  {
    if t == 0.0 || marketPrice == 0.0 then
      Returned(Undefined)
    else
      match Brentq(Objective(s, k, t, rate, marketPrice, optionType, closedForm), BracketLow, BracketHigh, search)
      case Root(x) => Returned(Defined(x))
      case SignError => Returned(Undefined)
      case OtherError => Escaped
  }

  /** An expired quote (T < 0) with a non-zero price has no implied volatility:
      every model price is 0.0, so the objective has the same sign at both ends. */
  lemma ExpiredQuoteUndefined(s: real, k: real, t: real, rate: real, marketPrice: real,
                              optionType: OptionType, closedForm: ClosedForm, search: Search)
    requires t < 0.0 && marketPrice != 0.0
    ensures ImpliedVolatility(s, k, t, rate, marketPrice, optionType, closedForm, search) == Returned(Undefined)
  {
    var f := Objective(s, k, t, rate, marketPrice, optionType, closedForm);
    assert f(BracketLow) == Price(-marketPrice);
    assert f(BracketHigh) == Price(-marketPrice);
    assert (-marketPrice) * (-marketPrice) > 0.0;
  }

  /** A positive market price above the model price at sigma = 10 is out of the
      bracket: Undefined, not an exception. */
  lemma PriceAboveBracketUndefined(s: real, k: real, t: real, rate: real, marketPrice: real,
                                   optionType: OptionType, closedForm: ClosedForm, search: Search)
    requires t > 0.0 && k != 0.0 && marketPrice > 0.0
    requires closedForm(s, k, t, rate, BracketHigh, optionType) < marketPrice
    ensures ImpliedVolatility(s, k, t, rate, marketPrice, optionType, closedForm, search) == Returned(Undefined)
  {
    var f := Objective(s, k, t, rate, marketPrice, optionType, closedForm);
    var high := closedForm(s, k, t, rate, BracketHigh, optionType) - marketPrice;
    assert f(BracketLow) == Price(-marketPrice);
    assert f(BracketHigh) == Price(high);
    assert (-marketPrice) * high > 0.0;
  }

  /** A zero strike with T > 0 and a non-zero price makes the objective raise
      ZeroDivisionError at sigma = 10; it is not a ValueError, so it escapes. */
  lemma ZeroStrikeEscapes(s: real, t: real, rate: real, marketPrice: real,
                          optionType: OptionType, closedForm: ClosedForm, search: Search)
    requires t > 0.0 && marketPrice != 0.0
    ensures ImpliedVolatility(s, 0.0, t, rate, marketPrice, optionType, closedForm, search) == Escaped
  {
    var f := Objective(s, 0.0, t, rate, marketPrice, optionType, closedForm);
    assert f(BracketHigh) == ZeroDivision;
  }

  /** A solved volatility is never the lower end of the bracket unless the
      interior search produced it: at sigma = 0 the objective is minus the
      market price, which the guard has made non-zero. */
  lemma DefinedNotLowerEndpoint(s: real, k: real, t: real, rate: real, marketPrice: real,
                                optionType: OptionType, closedForm: ClosedForm, search: Search)
    requires ImpliedVolatility(s, k, t, rate, marketPrice, optionType, closedForm, search) == Returned(Defined(BracketLow))
    ensures search(Objective(s, k, t, rate, marketPrice, optionType, closedForm), BracketLow, BracketHigh) == Some(BracketLow)
  {
    var f := Objective(s, k, t, rate, marketPrice, optionType, closedForm);
    assert f(BracketLow) == Price(-marketPrice);
  }
}
