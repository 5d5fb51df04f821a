/** Human-scale equivalents of a CO2e mass (`compare_to_vehicle`,
    `calculate_num_trees`). */
module Equivalence {

  /** kg CO2e per km of vehicle travel. */
  const VehicleBase: real := 650.0 / 1000.0

  /** kg CO2e one mature tree absorbs in a day. */
  const TreeCutoff: real := 68.5 / 1000.0

  /** Kilometres of vehicle travel emitting `kg`. */
  function CompareToVehicle(kg: real): (km: real)
    ensures km * VehicleBase == kg
    ensures kg >= 0.0 ==> km >= 0.0
  {
    kg / VehicleBase
  }

  /** Tree-days needed to absorb `kg`, before rounding up. */
  function NumTrees(kg: real): (trees: real)
    ensures trees * TreeCutoff == kg
    ensures kg >= 0.0 ==> trees >= 0.0
  {
    kg / TreeCutoff
  }

  /** Python's `math.ceil`: the least integer not below `x`. */
  function Ceil(x: real): (n: int)
    ensures n as real - 1.0 < x <= n as real
  {
    if x.Floor as real == x then x.Floor else x.Floor + 1
  }

  /** Both equivalents are linear, send 0 to 0 and preserve order. */
  lemma EquivalencesLinearMonotone(a: real, b: real, c: real)
    ensures CompareToVehicle(a + b) == CompareToVehicle(a) + CompareToVehicle(b)
    ensures NumTrees(a + b) == NumTrees(a) + NumTrees(b)
    ensures CompareToVehicle(c * a) == c * CompareToVehicle(a)
    ensures NumTrees(c * a) == c * NumTrees(a)
    ensures CompareToVehicle(0.0) == 0.0 && NumTrees(0.0) == 0.0
    ensures a <= b ==> CompareToVehicle(a) <= CompareToVehicle(b) && NumTrees(a) <= NumTrees(b)
  {
  }

  /** Saving 4 kg is about 6.154 km of driving and 59 tree-days. */
  lemma FourKilograms()
    ensures 6.153 < CompareToVehicle(4.0) < 6.154
    ensures Ceil(NumTrees(4.0)) == 59
  {
    var t := NumTrees(4.0);
    assert 58.0 < t <= 59.0;
  }
}
