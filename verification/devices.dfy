/**
 * The device endpoints of the backend: the fixed device catalog, the lookup by name, and
 * the transistor output characteristics (a BJT family with a simplified Early effect, or a
 * square-law MOSFET family). Numbers are exact reals.
 */
module Devices {
  import opened Wrappers
  import opened Numbers
  import opened Text
  import Catalog

  datatype Device = Device(
    name: string,
    kind: string,
    description: string,
    operatingVoltage: real,
    maxCurrent: real,
    switchingSpeed: real,
    powerConsumption: real,
    applications: seq<string>)

  /** `list_devices`: the catalog, always these four records in this order. */
  const DeviceList: seq<Device> := [
    Device("PN结二极管", "diode", "最基本的半导体器件，由P型和N型半导体接触形成",
      0.7, 1.0, 1e6, 0.5, ["整流", "开关", "电压调节"]),
    Device("双极结型晶体管(BJT)", "transistor", "电流控制型器件，可用于放大和开关",
      5.0, 0.1, 1e8, 0.2, ["放大器", "开关", "逻辑电路"]),
    Device("金属氧化物半导体场效应管(MOSFET)", "transistor", "电压控制型器件，现代集成电路的基础",
      3.3, 0.05, 1e9, 0.1, ["数字电路", "功率开关", "射频放大"]),
    Device("CMOS反相器", "integrated_circuit", "由一个NMOS和一个PMOS晶体管组成的基本逻辑门",
      3.3, 0.001, 1e9, 0.001, ["数字逻辑", "微处理器", "存储器"])
  ]

  function DeviceName(d: Device): string { d.name }

  const NotFoundMessage := "Device not found"

  /** `get_device`: the first device whose name contains the query, ignoring case. */
  function GetDevice(query: string): (r: Catalog.Lookup<Device>)
    ensures r.Found? ==> r.record in DeviceList && Catalog.NameMatches(DeviceName(r.record), query)
    ensures r.NotFound? <==> forall i :: 0 <= i < |DeviceList| ==> !Catalog.NameMatches(DeviceName(DeviceList[i]), query)
    ensures r.NotFound? ==> r.error == NotFoundMessage
  {
    Catalog.FindMeaning(DeviceList, DeviceName, query, NotFoundMessage);
    Catalog.FindFound(DeviceList, DeviceName, query, NotFoundMessage);
    Catalog.Find(DeviceList, DeviceName, query, NotFoundMessage)
  }

  /** The empty query returns the first device. */
  lemma GetDeviceEmptyQuery()
    ensures GetDevice("") == Catalog.Found(DeviceList[0])
  {
    Catalog.FindEmptyQuery(DeviceList, DeviceName, NotFoundMessage);
  }

  /** A query finds device `i` exactly when `i` is the first device whose name contains it. */
  lemma GetDeviceFirst(query: string, i: nat)
    requires i < |DeviceList| && Catalog.NameMatches(DeviceList[i].name, query)
    requires forall j :: 0 <= j < i ==> !Catalog.NameMatches(DeviceList[j].name, query)
    ensures GetDevice(query) == Catalog.Found(DeviceList[i])
  {
    Catalog.FindFirst(DeviceList, DeviceName, query, NotFoundMessage, i);
  }

  // ----- calculate_transistor_characteristics -----

  /**
   * The request body: every field may be missing, in which case the handler's default
   * applies. Electrical quantities are in volts and amperes, except `ibMin`/`ibMax` in
   * microamperes.
   */
  datatype TransistorRequest = TransistorRequest(
    deviceType: Option<string>,
    ibMin: Option<real>, ibMax: Option<real>,
    vceMin: Option<real>, vceMax: Option<real>,
    beta: Option<real>,
    vgsMin: Option<real>, vgsMax: Option<real>,
    vdsMin: Option<real>, vdsMax: Option<real>,
    vth: Option<real>, k: Option<real>)

  function GetOr<T>(o: Option<T>, default: T): T {
    if o.Some? then o.value else default
  }

  /** `numpy.linspace(a, b, n)` on exact reals: n evenly spaced points from a to b. */
  function Linspace(a: real, b: real, n: nat): (r: seq<real>)
    requires n >= 2
    ensures |r| == n
  {
    seq(n, i requires 0 <= i < n => a + (i as real) * (b - a) / ((n - 1) as real))
  }

  lemma LinspaceEnds(a: real, b: real, n: nat)
    requires n >= 2
    ensures Linspace(a, b, n)[0] == a && Linspace(a, b, n)[n - 1] == b
  {
  }

  /** Grid sizes: five curves of a hundred points each. */
  const CurveCount := 5
  const PointCount := 100

  datatype BjtCurve = BjtCurve(ib: real, vce: seq<real>, ic: seq<real>)
  datatype MosfetCurve = MosfetCurve(vgs: real, vds: seq<real>, id: seq<real>)

  datatype Characteristics =
    | Bjt(deviceType: string, beta: real, bjtCurves: seq<BjtCurve>)
    | Mosfet(deviceType: string, threshold: real, transconductance: real, mosfetCurves: seq<MosfetCurve>)

  /** Collector current of the simplified Early-effect model, with `ib` in amperes. */
  function CollectorCurrent(beta: real, ib: real, vce: real): real {
    beta * ib * (1.0 + vce / 100.0)
  }

  /** One BJT curve: the base current goes to amperes and is reported back in microamperes. */
  function BjtCurveAt(beta: real, ibMicro: real, vce: seq<real>): (c: BjtCurve)
    ensures |c.ic| == |c.vce|
  {
    var ib := ibMicro * 1e-6;
    BjtCurve(ib * 1e6, vce, seq(|vce|, j requires 0 <= j < |vce| => CollectorCurrent(beta, ib, vce[j])))
  }

  /** The square-law drain current before the saturation cap. */
  function TriodeCurrent(k: real, vov: real, vds: real): real {
    k * (vov * vds - vds * vds / 2.0)
  }

  /** The saturation current `k (Vgs - Vth)^2 / 2`. */
  function SaturationCurrent(k: real, vov: real): real {
    k * vov * vov / 2.0
  }


  /** One MOSFET curve: off below threshold, otherwise the triode current capped at saturation. */
  function MosfetCurveAt(vgs: real, vth: real, k: real, vds: seq<real>): (c: MosfetCurve)
    ensures |c.id| == |c.vds|
  {
    var id :=
      if vgs > vth then
        seq(|vds|, j requires 0 <= j < |vds| =>
          MinReal(TriodeCurrent(k, vgs - vth, vds[j]), SaturationCurrent(k, vgs - vth)))
      else seq(|vds|, j => 0.0);
    MosfetCurve(vgs, vds, id)
  }

  /** `calculate_transistor_characteristics`: the BJT family for "BJT", the MOSFET family otherwise. */
  function TransistorCharacteristics(req: TransistorRequest): (r: Characteristics)
    ensures r.deviceType == GetOr(req.deviceType, "MOSFET")
  {
    var deviceType := GetOr(req.deviceType, "MOSFET");
    if deviceType == "BJT" then
      var beta := GetOr(req.beta, 100.0);
      var ibs := Linspace(GetOr(req.ibMin, 0.0), GetOr(req.ibMax, 50.0), CurveCount);
      var vce := Linspace(GetOr(req.vceMin, 0.0), GetOr(req.vceMax, 5.0), PointCount);
      Bjt(deviceType, beta, seq(CurveCount, i requires 0 <= i < CurveCount => BjtCurveAt(beta, ibs[i], vce)))
    else
      var vth := GetOr(req.vth, 0.7);
      var k := GetOr(req.k, 1e-3);
      var vgss := Linspace(GetOr(req.vgsMin, 0.0), GetOr(req.vgsMax, 5.0), CurveCount);
      var vds := Linspace(GetOr(req.vdsMin, 0.0), GetOr(req.vdsMax, 5.0), PointCount);
      Mosfet(deviceType, vth, k, seq(CurveCount, i requires 0 <= i < CurveCount => MosfetCurveAt(vgss[i], vth, k, vds)))
  }

  /** Only the exact type "BJT" gives the BJT family; a missing or any other type gives the MOSFET one. */
  lemma TransistorBranch(req: TransistorRequest)
    ensures TransistorCharacteristics(req).Bjt? <==> req.deviceType == Some("BJT")
  {
  }

  /**
   * The BJT family: five curves over the same hundred collector-emitter voltages, at the
   * evenly spaced base currents, each following the Early-effect line; at Vce = 0 the
   * collector current is beta times the base current.
   */
  lemma BjtFamily(req: TransistorRequest)
    requires req.deviceType == Some("BJT")
    ensures var r := TransistorCharacteristics(req);
      var beta := GetOr(req.beta, 100.0);
      var ibs := Linspace(GetOr(req.ibMin, 0.0), GetOr(req.ibMax, 50.0), CurveCount);
      && r.Bjt? && r.beta == beta && |r.bjtCurves| == CurveCount
      && (forall i :: 0 <= i < CurveCount ==>
        && r.bjtCurves[i].ib == ibs[i]
        && r.bjtCurves[i].vce == Linspace(GetOr(req.vceMin, 0.0), GetOr(req.vceMax, 5.0), PointCount)
        && |r.bjtCurves[i].ic| == PointCount)
      && (forall i, j :: 0 <= i < CurveCount && 0 <= j < PointCount && r.bjtCurves[i].vce[j] == 0.0 ==>
        r.bjtCurves[i].ic[j] == beta * (ibs[i] * 1e-6))
  {
  }

  /**
   * Along a BJT curve the collector current is a straight line in Vce: between any two
   * points it changes by beta Ib (Vce2 - Vce1) / 100.
   */
  lemma BjtEarlyLine(beta: real, ibMicro: real, vce: seq<real>, j1: nat, j2: nat)
    requires j1 < |vce| && j2 < |vce|
    ensures var c := BjtCurveAt(beta, ibMicro, vce);
      c.ic[j2] - c.ic[j1] == beta * (ibMicro * 1e-6) * (vce[j2] - vce[j1]) / 100.0
  {
  }

  /**
   * The MOSFET family: five curves at evenly spaced gate voltages over the same hundred
   * drain-source voltages, reporting the threshold and transconductance used.
   */
  lemma MosfetFamily(req: TransistorRequest)
    requires req.deviceType != Some("BJT")
    ensures var r := TransistorCharacteristics(req);
      var vth, k := GetOr(req.vth, 0.7), GetOr(req.k, 1e-3);
      var vgss := Linspace(GetOr(req.vgsMin, 0.0), GetOr(req.vgsMax, 5.0), CurveCount);
      var vds := Linspace(GetOr(req.vdsMin, 0.0), GetOr(req.vdsMax, 5.0), PointCount);
      && r.Mosfet? && r.threshold == vth && r.transconductance == k && |r.mosfetCurves| == CurveCount
      && (forall i :: 0 <= i < CurveCount ==> r.mosfetCurves[i] == MosfetCurveAt(vgss[i], vth, k, vds))
  {
  }

  /** Below or at the threshold a MOSFET curve is all zeros. */
  lemma MosfetOff(vgs: real, vth: real, k: real, vds: seq<real>)
    requires vgs <= vth
    ensures forall j :: 0 <= j < |vds| ==> MosfetCurveAt(vgs, vth, k, vds).id[j] == 0.0
  {
  }

  /** Above threshold no point exceeds the saturation current. */
  lemma MosfetCapped(vgs: real, vth: real, k: real, vds: seq<real>)
    requires vgs > vth
    ensures forall j :: 0 <= j < |vds| ==> MosfetCurveAt(vgs, vth, k, vds).id[j] <= SaturationCurrent(k, vgs - vth)
  {
  }

  /**
   * For k >= 0 the triode parabola never rises above its own peak, which is the saturation
   * current, so the cap never changes a point: each point is the triode current.
   */
  lemma MosfetCapInactive(vgs: real, vth: real, k: real, vds: seq<real>)
    requires vgs > vth && k >= 0.0
    ensures forall j :: 0 <= j < |vds| ==> MosfetCurveAt(vgs, vth, k, vds).id[j] == TriodeCurrent(k, vgs - vth, vds[j])
  {
    forall j | 0 <= j < |vds|
      ensures TriodeCurrent(k, vgs - vth, vds[j]) <= SaturationCurrent(k, vgs - vth)
    {
      var vov, x := vgs - vth, vds[j];
      assert SaturationCurrent(k, vov) - TriodeCurrent(k, vov, x) == k * (vov - x) * (vov - x) / 2.0;
      assert (vov - x) * (vov - x) >= 0.0;
      assert k * ((vov - x) * (vov - x)) >= 0.0;
    }
  }

  /** There is no lower clamp: past Vds = 2 (Vgs - Vth) the reported current is negative. */
  lemma MosfetNegativeBeyond(vgs: real, vth: real, k: real, vds: seq<real>, j: nat)
    requires vgs > vth && k > 0.0
    requires j < |vds| && vds[j] > 2.0 * (vgs - vth)
    ensures MosfetCurveAt(vgs, vth, k, vds).id[j] < 0.0
  {
    MosfetCapInactive(vgs, vth, k, vds);
    var vov, x := vgs - vth, vds[j];
    var t := vov * x - x * x / 2.0;
    assert t == x * (2.0 * vov - x) / 2.0;
    assert x > 0.0 && 2.0 * vov - x < 0.0;
    assert t < 0.0;
    assert TriodeCurrent(k, vov, x) == k * t;
  }
}
