/**
 * The material endpoints of the backend: the fixed material catalog, the lookup by name,
 * and the temperature-dependent properties. The exponential of the semiconductor and
 * insulator branches is a parameter `exp`, taken to be positive as the real exponential
 * is; everything else is exact real arithmetic, and a Python float division by zero is
 * an error outcome.
 */
module Materials {
  import opened Wrappers
  import opened Text
  import Catalog

  datatype Material = Material(
    name: string,
    kind: string,
    bandGap: real,
    electronMobility: real,
    holeMobility: real,
    dielectricConstant: real,
    density: real,
    meltingPoint: real,
    latticeConstant: real)

  /** `list_materials`: the catalog, always these four records in this order. */
  const MaterialList: seq<Material> := [
    Material("硅(Si)", "semiconductor", 1.12, 1400.0, 450.0, 11.7, 2.33, 1687.0, 5.43),
    Material("锗(Ge)", "semiconductor", 0.66, 3900.0, 1900.0, 16.0, 5.32, 1211.0, 5.66),
    Material("砷化镓(GaAs)", "semiconductor", 1.42, 8500.0, 400.0, 13.1, 5.32, 1511.0, 5.65),
    Material("氮化镓(GaN)", "semiconductor", 3.4, 2000.0, 300.0, 9.5, 6.15, 2791.0, 4.52)
  ]

  function MaterialName(m: Material): string { m.name }

  const NotFoundMessage := "Material not found"

  /** `get_material`: the first material whose name contains the query, ignoring case. */
  function GetMaterial(query: string): (r: Catalog.Lookup<Material>)
    ensures r.Found? ==> r.record in MaterialList && Catalog.NameMatches(r.record.name, query)
    ensures r.NotFound? <==> forall i :: 0 <= i < |MaterialList| ==> !Catalog.NameMatches(MaterialList[i].name, query)
    ensures r.NotFound? ==> r.error == NotFoundMessage
  {
    Catalog.FindMeaning(MaterialList, MaterialName, query, NotFoundMessage);
    Catalog.Find(MaterialList, MaterialName, query, NotFoundMessage)
  }

  /** The query "si" finds silicon, the first record. */
  lemma GetMaterialSilicon()
    ensures GetMaterial("si") == Catalog.Found(MaterialList[0])
  {
    var name := MaterialList[0].name;
    assert name == "硅(Si)";
    LowerAppend("硅(", "Si)");
    LowerOfFixed("硅(");
    assert Lower("Si)") == "si)";
    LowerOfFixed("si");
    assert OccursAt(Lower(name), "si", 2);
    ContainsWitness(Lower(name), "si", 2);
    Catalog.FindFirst(MaterialList, MaterialName, "si", NotFoundMessage, 0);
  }

  /** The empty query returns the first material. */
  lemma GetMaterialEmptyQuery()
    ensures GetMaterial("") == Catalog.Found(MaterialList[0])
  {
    Catalog.FindEmptyQuery(MaterialList, MaterialName, NotFoundMessage);
  }

  // ----- calculate_material_properties -----

  /** The request body; a missing field takes the handler's default. */
  datatype PropertiesRequest = PropertiesRequest(
    materialType: Option<string>,
    temperature: Option<real>,
    bandGap: Option<real>,
    resistivity300K: Option<real>,
    temperatureCoefficient: Option<real>,
    activationEnergy: Option<real>)

  function GetOr<T>(o: Option<T>, default: T): T {
    if o.Some? then o.value else default
  }

  /** Boltzmann's constant in eV/K and the elementary charge in coulombs. */
  const Boltzmann: real := 8.617e-5
  const Charge: real := 1.6e-19

  /** The fixed mobility sum `1400 + 450` in cm^2/(V s). */
  const MobilitySum: real := 1400.0 + 450.0

  datatype Branch = Semiconductor | Metal | Insulator

  /** The branch taken: "semiconductor" when the type is missing, and insulator for anything unknown. */
  function BranchOf(materialType: Option<string>): Branch {
    var t := GetOr(materialType, "semiconductor");
    if t == "semiconductor" then Semiconductor
    else if t == "metal" then Metal
    else Insulator
  }

  /**
   * The response: the echoed type and temperature, the intrinsic carrier concentration of
   * the semiconductor branch, resistivity and conductivity; or the error a Python float
   * division by zero raises.
   */
  datatype Outcome =
    | Computed(materialType: string, temperature: real, concentration: Option<real>,
               resistivity: real, conductivity: real)
    | ZeroDivision

  /** Semiconductor conductivity for an intrinsic carrier concentration `ni`. */
  function IntrinsicConductivity(ni: real): real {
    ni * Charge * MobilitySum * 1e-4
  }

  /** Metal resistivity, linear in the temperature around its 300 K value. */
  function MetalResistivity(r300: real, alpha: real, t: real): real {
    r300 * (1.0 + alpha * (t - 300.0))
  }

  /**
   * `calculate_material_properties`, with `exp` standing for an exponential that is positive
   * and finite everywhere (float64 underflow and overflow are not modelled).
   */
  function CalculateProperties(req: PropertiesRequest, exp: real -> real): (r: Outcome)
    requires forall x :: exp(x) > 0.0
    ensures r.Computed? ==> r.temperature == GetOr(req.temperature, 300.0)
    ensures r.Computed? ==> r.materialType == GetOr(req.materialType, "semiconductor")
    ensures r.Computed? ==> r.resistivity != 0.0 && r.conductivity * r.resistivity == 1.0
  {
    var materialType := GetOr(req.materialType, "semiconductor");
    var t := GetOr(req.temperature, 300.0);
    match BranchOf(req.materialType)
    case Semiconductor =>
      if t == 0.0 then ZeroDivision
      else
        var ni := 1e19 * exp(-GetOr(req.bandGap, 1.12) / (2.0 * Boltzmann * t));
        var sigma := IntrinsicConductivity(ni);
        assert sigma > 0.0;
        Computed(materialType, t, Some(ni), 1.0 / sigma, sigma)
    case Metal =>
      var rho := MetalResistivity(GetOr(req.resistivity300K, 1.7e-6), GetOr(req.temperatureCoefficient, 0.004), t);
      if rho == 0.0 then ZeroDivision
      else Computed(materialType, t, None, rho, 1.0 / rho)
    case Insulator =>
      if t == 0.0 then ZeroDivision
      else
        var rho := 1e14 * exp(GetOr(req.activationEnergy, 2.0) / (Boltzmann * t));
        Computed(materialType, t, None, rho, 1.0 / rho)
  }

  /** Any type other than "semiconductor" or "metal" is computed as an insulator. */
  lemma UnknownTypeIsInsulator(req: PropertiesRequest, exp: real -> real)
    requires forall x :: exp(x) > 0.0
    requires req.materialType.Some? && req.materialType.value != "semiconductor" && req.materialType.value != "metal"
    requires GetOr(req.temperature, 300.0) != 0.0
    ensures var t := GetOr(req.temperature, 300.0);
      CalculateProperties(req, exp).Computed?
      && CalculateProperties(req, exp).concentration.None?
      && CalculateProperties(req, exp).resistivity == 1e14 * exp(GetOr(req.activationEnergy, 2.0) / (Boltzmann * t))
  {
  }

  /**
   * The metal branch: resistivity is linear in temperature, equal to the 300 K value at
   * 300 K, and conductivity is its reciprocal; where the line reaches zero the division fails.
   */
  lemma MetalBranch(req: PropertiesRequest, exp: real -> real)
    requires forall x :: exp(x) > 0.0
    requires req.materialType == Some("metal")
    ensures var r300, alpha, t := GetOr(req.resistivity300K, 1.7e-6), GetOr(req.temperatureCoefficient, 0.004), GetOr(req.temperature, 300.0);
      var r := CalculateProperties(req, exp);
      && (r.ZeroDivision? <==> r300 * (1.0 + alpha * (t - 300.0)) == 0.0)
      && (r.Computed? ==> r.resistivity == r300 * (1.0 + alpha * (t - 300.0)) && r.conductivity == 1.0 / r.resistivity)
      && (r.Computed? && t == 300.0 ==> r.resistivity == r300)
  {
  }

  /** Two metal temperatures differ in resistivity by r300 alpha (t2 - t1). */
  lemma MetalLinear(r300: real, alpha: real, t1: real, t2: real)
    ensures MetalResistivity(r300, alpha, t2) - MetalResistivity(r300, alpha, t1) == r300 * alpha * (t2 - t1)
  {
  }

  /** With the default coefficients, a metal at 50 K hits the division by zero. */
  lemma MetalDefaultsFailAt50K(exp: real -> real)
    requires forall x :: exp(x) > 0.0
    ensures CalculateProperties(PropertiesRequest(Some("metal"), Some(50.0), None, None, None, None), exp) == ZeroDivision
  {
  }

  /**
   * The semiconductor branch: conductivity uses the fixed mobility sum, which is silicon's
   * electron plus hole mobility whatever the band gap, and resistivity is its reciprocal.
   */
  lemma SemiconductorBranch(req: PropertiesRequest, exp: real -> real)
    requires forall x :: exp(x) > 0.0
    requires req.materialType.None? || req.materialType == Some("semiconductor")
    requires GetOr(req.temperature, 300.0) != 0.0
    ensures var r := CalculateProperties(req, exp);
      && r.Computed? && r.concentration.Some?
      && r.conductivity == r.concentration.value * Charge * MobilitySum * 1e-4
      && r.conductivity > 0.0 && r.conductivity * r.resistivity == 1.0
    ensures MobilitySum == MaterialList[0].electronMobility + MaterialList[0].holeMobility
  {
  }

  /** The semiconductor and insulator branches raise the division error only at zero kelvin. */
  lemma ZeroDivisionOnlyAtZero(req: PropertiesRequest, exp: real -> real)
    requires forall x :: exp(x) > 0.0
    requires BranchOf(req.materialType) != Metal
    ensures CalculateProperties(req, exp).ZeroDivision? <==> GetOr(req.temperature, 300.0) == 0.0
  {
  }
}
