/**
  The milk endpoints' logic (src/handlers/milk.rs): the unit conversion of a
  posted amount, and the empty check and withdrawal that gate the factory
  endpoint. Responses are reduced to status, content type and body.
 */
module MilkHandler {
  import BucketUnit
  import Milk

  /** A posted amount in one of the four units. */
  datatype Unit = Liters(value: real) | Gallons(value: real) | Litres(value: real) | Pints(value: real)

  /** US units (liters, gallons) versus UK units (litres, pints). */
  predicate IsUs(u: Unit) {
    u.Liters? || u.Gallons?
  }

  /** `From<Liters> for Unit`. */
  function FromLiters(l: BucketUnit.Liters): (u: Unit)
    ensures u.Liters? && u.value == l.value
  {
    Liters(l.value)
  }

  /** `From<Gallons> for Unit`. */
  function FromGallons(g: BucketUnit.Gallons): (u: Unit)
    ensures u.Gallons? && u.value == g.value
  {
    Gallons(g.value)
  }

  /** `From<Litres> for Unit`. */
  function FromLitres(l: BucketUnit.Litres): (u: Unit)
    ensures u.Litres? && u.value == l.value
  {
    Litres(l.value)
  }

  /** `From<Pints> for Unit`. */
  function FromPints(p: BucketUnit.Pints): (u: Unit)
    ensures u.Pints? && u.value == p.value
  {
    Pints(p.value)
  }

  /** `Unit::convert`: liters and gallons swap, litres and pints swap, each by its factor. */
  function Convert(u: Unit): (r: Unit)
    ensures IsUs(r) == IsUs(u)
    ensures u.Liters? <==> r.Gallons?
    ensures u.Gallons? <==> r.Liters?
    ensures u.Litres? <==> r.Pints?
    ensures u.Pints? <==> r.Litres?
    ensures u.Liters? ==> r.value * BucketUnit.LITER_PER_GALLON == u.value
    ensures u.Gallons? ==> u.value * BucketUnit.LITER_PER_GALLON == r.value
    ensures u.Litres? ==> r.value * BucketUnit.LITRE_PER_UK_PINT == u.value
    ensures u.Pints? ==> u.value * BucketUnit.LITRE_PER_UK_PINT == r.value
  {
    match u
    case Liters(l) => FromGallons(BucketUnit.LitersToGallons(BucketUnit.Liters(l)))
    case Gallons(g) => FromLiters(BucketUnit.GallonsToLiters(BucketUnit.Gallons(g)))
    case Litres(l) => FromPints(BucketUnit.LitresToPints(BucketUnit.Litres(l)))
    case Pints(p) => FromLitres(BucketUnit.PintsToLitres(BucketUnit.Pints(p)))
  }

  /** Converting twice gives back the posted amount (exactly, in real arithmetic). */
  lemma ConvertTwice(u: Unit)
    ensures Convert(Convert(u)) == u
  {
  }

  /** An HTTP response, reduced to what the handlers set. */
  datatype Response = Response(status: nat, contentType: string, body: string)

  /** Rust's `ControlFlow<Response>`: go on, or answer with a response now. */
  datatype ControlFlow = Continue | Break(response: Response)

  const TOO_MANY_REQUESTS: nat := 429

  const NO_MILK: Response := Response(TOO_MANY_REQUESTS, "plain/text", "No milk available\n")

  /** The milk handlers' state: one shared bucket. */
  class State {
    const bucket: Milk.MilkBucket

    /** `Builder::build`: a bucket with exactly the given capacity and initial level. */
    constructor Build(full: real, initial: real)
      ensures fresh(bucket)
      ensures bucket.full.value == full && bucket.filled.value == initial
    {
      bucket := new Milk.MilkBucket.Build(full, initial);
    }
  }

  /** `check_bucket`: go on unless the bucket is empty; an empty bucket answers 429. */
  method CheckBucket(state: State) returns (flow: ControlFlow)
    ensures flow == Continue <==> state.bucket.filled.value > 0.0
    ensures flow != Continue ==> flow == Break(NO_MILK)
  {
    if !state.bucket.IsEmpty() {
      return Continue;
    }
    flow := Break(NO_MILK);
  }

  /** `withdraw`: ask for one liter and drop the receipt. */
  method Withdraw(state: State)
    modifies state.bucket
    ensures state.bucket.filled.value == Milk.Withdrawal(old(state.bucket.filled.value), 1.0).0
  {
    var _ := state.bucket.WithdrawBy(BucketUnit.Liters(1.0));
  }

  /** The endpoint's two steps on a half-liter bucket: it goes on, and the withdrawal takes nothing. */
  method HalfLiterScenario()
  {
    var s := new State.Build(5.0, 0.5);
    var flow := CheckBucket(s);
    assert flow == Continue;
    Withdraw(s);
    assert s.bucket.filled.value == 0.5;
  }
}
