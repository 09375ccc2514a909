/**
 * `calcular_derivada`: the element-wise derivative coefficients of the second
 * calculator, over two parallel lists of (floating-point) multipliers and
 * powers, walked together the way `zip` walks them.
 */
module DerivativeTable {

  function Min(a: nat, b: nat): nat
  {
    if a <= b then a else b
  }

  /**
   * One entry per pair `zip` produces (so the shorter list decides the
   * length): 0 where the power is 0, the product of multiplier and power
   * otherwise, which is the product in both cases.
   */
  method CalcularDerivada(multiplicadores: seq<real>, potencias: seq<real>) returns (derivadas: seq<real>)
    ensures |derivadas| == Min(|multiplicadores|, |potencias|)
    ensures forall i :: 0 <= i < |derivadas| ==>
      derivadas[i] == (if potencias[i] == 0.0 then 0.0 else multiplicadores[i] * potencias[i])
    ensures forall i :: 0 <= i < |derivadas| ==> derivadas[i] == multiplicadores[i] * potencias[i]
  {
    derivadas := [];
    var n := Min(|multiplicadores|, |potencias|);
    for i := 0 to n
      invariant |derivadas| == i
      invariant forall j :: 0 <= j < i ==>
        derivadas[j] == (if potencias[j] == 0.0 then 0.0 else multiplicadores[j] * potencias[j])
    {
      var multiplicador, potencia := multiplicadores[i], potencias[i];
      if potencia == 0.0 {
        derivadas := derivadas + [0.0];
      } else {
        derivadas := derivadas + [multiplicador * potencia];
      }
    }
  }
}
