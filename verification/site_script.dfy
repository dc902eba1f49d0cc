/**
 * Three pieces of the static site's script: the MOSFET demonstration (operating region
 * and drain current from the gate and drain voltages), the 3D viewer's rotation and
 * zoom, and the sidebar's three display states kept in CSS classes.
 */
module SiteScript {
  import Devices
  import opened Numbers

  // ----- updateMOSFETState -----

  datatype Region = Off | Linear | Saturation

  /** The status text shown for a region. */
  function RegionLabel(r: Region): string {
    match r
    case Off => "关闭"
    case Linear => "线性区"
    case Saturation => "饱和区"
  }

  /** Threshold voltage and transconductance parameter of the demonstration. */
  const Vth: real := 1.0
  const K: real := 0.5

  datatype MosfetReading = MosfetReading(region: Region, current: real)

  /** The linear-region formula, k ((vg - Vth) vd - vd^2 / 2). */
  function LinearCurrent(vg: real, vd: real): real {
    K * ((vg - Vth) * vd - 0.5 * vd * vd)
  }

  /** The saturation-region formula, k (vg - Vth)^2 / 2. */
  function SaturationCurrent(vg: real): real {
    0.5 * K * (vg - Vth) * (vg - Vth)
  }

  /** `updateMOSFETState` on the two slider values. */
  function MosfetState(vg: real, vd: real): (m: MosfetReading)
    ensures m.region == Off <==> vg < Vth
    ensures m.region == Linear <==> vg >= Vth && vd < vg - Vth
    ensures m.region == Off ==> m.current == 0.0
  {
    if vg < Vth then MosfetReading(Off, 0.0)
    else if vd < vg - Vth then MosfetReading(Linear, LinearCurrent(vg, vd))
    else MosfetReading(Saturation, SaturationCurrent(vg))
  }

  /**
   * The reading is continuous where the regions meet: at vd = vg - Vth the page shows the
   * saturation value, which is what the linear formula gives there, and just below it the
   * linear reading falls short of that value by k (vg - Vth - vd)^2 / 2.
   */
  lemma RegionsMeet(vg: real, vd: real)
    requires vg >= Vth
    ensures MosfetState(vg, vg - Vth).current == LinearCurrent(vg, vg - Vth)
    ensures MosfetState(vg, vg - Vth).region == Saturation
    ensures vd < vg - Vth ==>
      MosfetState(vg, vg - Vth).current - MosfetState(vg, vd).current == 0.5 * K * (vg - Vth - vd) * (vg - Vth - vd)
  {
    var vov := vg - Vth;
    assert LinearCurrent(vg, vov) == K * (vov * vov - 0.5 * vov * vov);
    assert K * (vov * vov - 0.5 * vov * vov) == 0.5 * K * vov * vov;
    if vd < vov {
      assert 0.5 * K * vov * vov - K * (vov * vd - 0.5 * vd * vd) == 0.5 * K * (vov - vd) * (vov - vd);
    }
  }

  /**
   * In the linear region the current stays at or below the saturation value, and it grows
   * with vd, so a sweep of vd never shows the current falling.
   */
  lemma LinearBelowSaturation(vg: real, vd: real, vd2: real)
    requires vg >= Vth && vd < vg - Vth
    ensures MosfetState(vg, vd).current <= SaturationCurrent(vg)
    ensures vd <= vd2 ==> MosfetState(vg, vd).current <= MosfetState(vg, vd2).current
  {
    if vd <= vd2 < vg - Vth {
      var vov := vg - Vth;
      assert LinearCurrent(vg, vd2) - LinearCurrent(vg, vd) == K * (vd2 - vd) * (vov - 0.5 * (vd + vd2));
    }
    var vov := vg - Vth;
    assert 0.5 * K * vov * vov - K * (vov * vd - 0.5 * vd * vd) == 0.5 * K * (vov - vd) * (vov - vd);
  }

  /**
   * Against the backend's square-law curve with the same parameters: both agree up to
   * vd = vg - Vth; beyond it the page holds the saturation value, which the backend's
   * capped parabola never exceeds.
   */
  lemma AgreesWithBackend(vg: real, vd: real)
    requires vg > Vth
    ensures vd <= vg - Vth ==>
      MosfetState(vg, vd).current == MinReal(Devices.TriodeCurrent(K, vg - Vth, vd), Devices.SaturationCurrent(K, vg - Vth))
    ensures vd >= vg - Vth ==> MosfetState(vg, vd).current == Devices.SaturationCurrent(K, vg - Vth)
    ensures vd > vg - Vth ==>
      MinReal(Devices.TriodeCurrent(K, vg - Vth, vd), Devices.SaturationCurrent(K, vg - Vth)) <= MosfetState(vg, vd).current
  {
    Devices.MosfetCapInactive(vg, Vth, K, [vd]);
  }

  // ----- the 3D viewer -----

  datatype View = View(rotationX: int, rotationY: int, zoom: real)

  const InitialView := View(0, 0, 1.0)
  const MinZoom: real := 0.5
  const MaxZoom: real := 3.0
  const ZoomStep: real := 0.2
  const RotationStep: int := 15

  datatype ViewButton = RotateLeft | RotateRight | RotateUp | RotateDown | ZoomIn | ZoomOut | Reset


  /** One click on a viewer button. */
  function Click(v: View, b: ViewButton): (r: View)
    ensures b != ZoomIn && b != ZoomOut && b != Reset ==> r.zoom == v.zoom
  {
    match b
    case RotateLeft => v.(rotationY := v.rotationY - RotationStep)
    case RotateRight => v.(rotationY := v.rotationY + RotationStep)
    case RotateUp => v.(rotationX := v.rotationX - RotationStep)
    case RotateDown => v.(rotationX := v.rotationX + RotationStep)
    case ZoomIn => v.(zoom := MinReal(v.zoom + ZoomStep, MaxZoom))
    case ZoomOut => v.(zoom := MaxReal(v.zoom - ZoomStep, MinZoom))
    case Reset => InitialView
  }

  predicate ZoomInRange(v: View) { MinZoom <= v.zoom <= MaxZoom }

  /** Every click keeps the zoom within [0.5, 3]; reset restores the initial view. */
  lemma ClickKeepsZoom(v: View, b: ViewButton)
    requires ZoomInRange(v)
    ensures ZoomInRange(Click(v, b))
    ensures Click(v, Reset) == View(0, 0, 1.0)
  {
  }

  function Clicks(v: View, bs: seq<ViewButton>): View
    decreases |bs|
  {
    if bs == [] then v else Clicks(Click(v, bs[0]), bs[1..])
  }

  /** From the initial view, any sequence of clicks keeps the zoom within [0.5, 3]. */
  lemma {:induction false} ClicksKeepZoom(v: View, bs: seq<ViewButton>)
    requires ZoomInRange(v)
    ensures ZoomInRange(Clicks(v, bs))
    decreases |bs|
  {
    if bs != [] {
      ClickKeepsZoom(v, bs[0]);
      ClicksKeepZoom(Click(v, bs[0]), bs[1..]);
    }
  }

  /** Zooming in and back out returns to the same zoom unless the upper bound was reached. */
  lemma ZoomInOut(v: View)
    requires ZoomInRange(v) && v.zoom + ZoomStep <= MaxZoom
    ensures Click(Click(v, ZoomIn), ZoomOut).zoom == v.zoom
  {
  }

  // ----- the sidebar -----

  datatype SidebarState = Normal | Collapsed | AutoHidden

  /** The state names stored and compared as strings. */
  function StateName(s: SidebarState): string {
    match s
    case Normal => "normal"
    case Collapsed => "collapsed"
    case AutoHidden => "auto-hidden"
  }

  /** The CSS classes the state lives in: two on the sidebar, two on the main content. */
  datatype SidebarDom = SidebarDom(collapsed: bool, autoHidden: bool, expanded: bool, fullExpanded: bool)

  /** `getSidebarState`: auto-hidden wins over collapsed. */
  function GetSidebarState(d: SidebarDom): SidebarState {
    if d.autoHidden then AutoHidden
    else if d.collapsed then Collapsed
    else Normal
  }

  /**
   * `setSidebarState` on the name it is given: all four classes are cleared and the pair
   * for the named state is added; an unknown name leaves the normal layout.
   */
  function SetSidebarState(name: string): (d: SidebarDom)
    ensures !(d.collapsed && d.autoHidden)
    ensures d.collapsed <==> d.expanded
    ensures d.autoHidden <==> d.fullExpanded
  {
    if name == StateName(Collapsed) then SidebarDom(true, false, true, false)
    else if name == StateName(AutoHidden) then SidebarDom(false, true, false, true)
    else SidebarDom(false, false, false, false)
  }

  /** Reading back a state that was set gives that state; any other name reads back as normal. */
  lemma SetThenGet(s: SidebarState, name: string)
    ensures GetSidebarState(SetSidebarState(StateName(s))) == s
    ensures name !in {"collapsed", "auto-hidden"} ==> GetSidebarState(SetSidebarState(name)) == Normal
  {
  }

  function NextSidebarState(s: SidebarState): SidebarState {
    match s
    case Normal => Collapsed
    case Collapsed => AutoHidden
    case AutoHidden => Normal
  }

  /** `cycleSidebarState`: read the current state and set the next one in the cycle. */
  function CycleSidebar(d: SidebarDom): SidebarDom {
    SetSidebarState(StateName(NextSidebarState(GetSidebarState(d))))
  }

  /** The cycle visits normal, collapsed and auto-hidden in turn, so three steps return to the start. */
  lemma CycleOrder(d: SidebarDom)
    ensures GetSidebarState(CycleSidebar(d)) == NextSidebarState(GetSidebarState(d))
    ensures GetSidebarState(d) == Normal ==> GetSidebarState(CycleSidebar(d)) == Collapsed
    ensures GetSidebarState(d) == Collapsed ==> GetSidebarState(CycleSidebar(d)) == AutoHidden
    ensures GetSidebarState(d) == AutoHidden ==> GetSidebarState(CycleSidebar(d)) == Normal
    ensures CycleSidebar(CycleSidebar(CycleSidebar(d))) == SetSidebarState(StateName(GetSidebarState(d)))
  {
    SetThenGet(NextSidebarState(GetSidebarState(d)), "");
    SetThenGet(NextSidebarState(NextSidebarState(GetSidebarState(d))), "");
  }

  /** On a layout the script itself set, three cycles change nothing at all. */
  lemma ThreeCyclesIdentity(s: SidebarState)
    ensures var d := SetSidebarState(StateName(s));
      CycleSidebar(CycleSidebar(CycleSidebar(d))) == d
  {
    CycleOrder(SetSidebarState(StateName(s)));
    SetThenGet(s, "");
  }
}
