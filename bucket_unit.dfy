/**
  Volume units of the milk bucket (src/bucket/unit.rs): US liters and gallons,
  UK litres and pints, each a wrapped quantity. The source stores `f32`; here
  every quantity is an exact `real`, so the conversions below are exact
  inverses, which `f32` arithmetic only approximates.
 */
module BucketUnit {

  /** Liters in one US gallon. */
  const LITER_PER_GALLON: real := 3.785411784

  /** Litres in one UK pint. */
  const LITRE_PER_UK_PINT: real := 0.56826125

  datatype Liters = Liters(value: real)

  datatype Gallons = Gallons(value: real)

  datatype Litres = Litres(value: real)

  datatype Pints = Pints(value: real)

  /** `Liters::gallons`, also `From<Liters> for Gallons`: the gallons that hold `l`. */
  function LitersToGallons(l: Liters): (g: Gallons)
    ensures g.value * LITER_PER_GALLON == l.value
  {
    Gallons(l.value / LITER_PER_GALLON)
  }

  /** `Gallons::liters`, also `From<Gallons> for Liters`: the liters in `g`. */
  function GallonsToLiters(g: Gallons): (l: Liters)
    ensures l.value / LITER_PER_GALLON == g.value
  {
    Liters(g.value * LITER_PER_GALLON)
  }

  /** `Litres::pints`, also `From<Litres> for Pints`: the pints that hold `l`. */
  function LitresToPints(l: Litres): (p: Pints)
    ensures p.value * LITRE_PER_UK_PINT == l.value
  {
    Pints(l.value / LITRE_PER_UK_PINT)
  }

  /** `Pints::litres`, also `From<Pints> for Litres`: the litres in `p`. */
  function PintsToLitres(p: Pints): (l: Litres)
    ensures l.value / LITRE_PER_UK_PINT == p.value
  {
    Litres(p.value * LITRE_PER_UK_PINT)
  }

  lemma GallonsRoundTrip(l: Liters, g: Gallons)
    ensures GallonsToLiters(LitersToGallons(l)) == l
    ensures LitersToGallons(GallonsToLiters(g)) == g
  {
  }

  lemma PintsRoundTrip(l: Litres, p: Pints)
    ensures PintsToLitres(LitresToPints(l)) == l
    ensures LitresToPints(PintsToLitres(p)) == p
  {
  }

  /** One gallon's worth of liters is one gallon. */
  lemma OneGallon()
    ensures LitersToGallons(Liters(3.785411784)) == Gallons(1.0)
  {
  }
}
