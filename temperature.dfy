/** Temperature units and the conversions between them (include/Graph.h). */
module Temperature {

  /** The active display unit. The source keeps it as the flag `is_fahrenheit`
      and uses it as an index into the two parallel history arrays. */
  datatype Unit = Celsius | Fahrenheit

  function UnitOf(isFahrenheit: bool): (u: Unit)
    ensures u == Fahrenheit <==> isFahrenheit
  {
    if isFahrenheit then Fahrenheit else Celsius
  }

  /** °C to °F, as `add` fills `temp[1]` and the constructor converts thresholds. */
  function CToF(c: real): real
  {
    c * 1.8 + 32.0
  }

  /** °F to °C, as the constructor converts thresholds given in °F. */
  function FToC(f: real): real
  {
    5.0 * (f - 32.0) / 9.0
  }

  /** The two conversions are inverse to each other (exactly, on reals). */
  lemma ConversionRoundTrip(x: real)
    ensures FToC(CToF(x)) == x
    ensures CToF(FToC(x)) == x
  {
  }

  /** The conversion preserves order in both directions. */
  lemma CToFMonotone(a: real, b: real)
    ensures a < b <==> CToF(a) < CToF(b)
    ensures a == b <==> CToF(a) == CToF(b)
  {
  }
}
