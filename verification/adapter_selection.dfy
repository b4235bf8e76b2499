/**
 * `dx12_get_hardware_adapter` in win32_application.cpp: pick the first
 * hardware adapter that can run Direct3D 12 at feature level 11_0, looking
 * first in the order of the caller's GPU preference (when the factory offers
 * `IDXGIFactory6`) and then in the factory's plain enumeration order.
 *
 * An adapter is the part of its `DXGI_ADAPTER_DESC1` the search reads,
 * together with the answer the `D3D12CreateDevice` probe gives for it. An
 * enumeration is the sequence of adapters it yields: asking for an index past
 * its end fails, and the failed call leaves the `ComPtr` it was given null.
 */
module AdapterSelection {
  import opened Wrappers

  datatype Adapter = Adapter(
    id: nat,                       // which physical adapter this is
    isSoftware: bool,              // DXGI_ADAPTER_FLAG_SOFTWARE is set in its flags
    supportsFeatureLevel11_0: bool // D3D12CreateDevice(adapter, D3D_FEATURE_LEVEL_11_0, ...) succeeds
  )

  /** The factory the search is given. `preferenceOrders` is present when the
      factory answers the query for `IDXGIFactory6`, and then holds the order
      `EnumAdapterByGpuPreference` yields for each of the two preferences. */
  datatype Factory = Factory(preferenceOrders: Option<PreferenceOrders>, adapters: seq<Adapter>)

  datatype PreferenceOrders = PreferenceOrders(highPerformance: seq<Adapter>, unspecified: seq<Adapter>)

  /** An adapter the search accepts. */
  predicate Eligible(a: Adapter)
  {
    !a.isSoftware && a.supportsFeatureLevel11_0
  }

  /** The first eligible adapter of an enumeration, if there is one. */
  function FirstEligible(s: seq<Adapter>): (r: Option<Adapter>)
    ensures r.None? <==> forall k :: 0 <= k < |s| ==> !Eligible(s[k])
    ensures r.Some? ==> Eligible(r.value) && r.value in s
  {
    if s == [] then None
    else if Eligible(s[0]) then Some(s[0])
    else FirstEligible(s[1..])
  }

  /** An eligible adapter with none before it is the one FirstEligible picks. */
  lemma {:induction false} FirstEligibleIsFirst(s: seq<Adapter>, i: nat)
    requires i < |s| && Eligible(s[i])
    requires forall k :: 0 <= k < i ==> !Eligible(s[k])
    ensures FirstEligible(s) == Some(s[i])
  {
    if i > 0 {
      assert !Eligible(s[0]);
      assert s[1..][i - 1] == s[i];
      FirstEligibleIsFirst(s[1..], i - 1);
    }
  }

  /** The enumeration order the first pass walks. */
  function PreferredOrder(orders: PreferenceOrders, requestHighPerformance: bool): seq<Adapter>
  {
    if requestHighPerformance then orders.highPerformance else orders.unspecified
  }

  /** The adapter the search hands back: the first pass's find when the
      preference-ordered pass runs and finds one, the plain pass's otherwise. */
  function SelectAdapter(factory: Factory, requestHighPerformance: bool): (r: Option<Adapter>)
    ensures r.Some? ==> Eligible(r.value)
    ensures r.None? <==>
      (forall k :: 0 <= k < |factory.adapters| ==> !Eligible(factory.adapters[k])) &&
      (factory.preferenceOrders.Some? ==>
        var order := PreferredOrder(factory.preferenceOrders.value, requestHighPerformance);
        forall k :: 0 <= k < |order| ==> !Eligible(order[k]))
    ensures factory.preferenceOrders.Some? ==>
      var first := FirstEligible(PreferredOrder(factory.preferenceOrders.value, requestHighPerformance));
      first.Some? ==> r == first
    ensures (factory.preferenceOrders.None? ||
             FirstEligible(PreferredOrder(factory.preferenceOrders.value, requestHighPerformance)).None?) ==>
      r == FirstEligible(factory.adapters)
  {
    var first :=
      if factory.preferenceOrders.Some?
      then FirstEligible(PreferredOrder(factory.preferenceOrders.value, requestHighPerformance))
      else None;
    if first.Some? then first else FirstEligible(factory.adapters)
  }

  /** The adapter an enumeration call returns for `index`; None when the call
      fails, which leaves the handle null. */
  function EnumAt(s: seq<Adapter>, index: nat): (r: Option<Adapter>)
    ensures r.Some? <==> index < |s|
    ensures index < |s| ==> r == Some(s[index])
  {
    if index < |s| then Some(s[index]) else None
  }

  /** One pass of the search: walk the enumeration in order, skip software
      adapters, stop at the first adapter the probe accepts. An exhausted
      enumeration leaves the handle null. */
  method FirstHardwareAdapter(enumeration: seq<Adapter>) returns (adapter: Option<Adapter>)
    ensures adapter == FirstEligible(enumeration)
  {
    var index := 0;
    adapter := EnumAt(enumeration, index);
    while adapter.Some?
      invariant index <= |enumeration|
      invariant adapter == EnumAt(enumeration, index)
      invariant forall k :: 0 <= k < index ==> !Eligible(enumeration[k])
      decreases |enumeration| - index
    {
      var desc := adapter.value;
      if desc.isSoftware {
        index := index + 1;
        adapter := EnumAt(enumeration, index);
        continue;
      }
      if desc.supportsFeatureLevel11_0 {
        FirstEligibleIsFirst(enumeration, index);
        break;
      }
      index := index + 1;
      adapter := EnumAt(enumeration, index);
    }
  }

  /** `dx12_get_hardware_adapter`: the preference-ordered pass when the factory
      supports it, then the plain pass only if the first found nothing.
      `plainPassRan` records whether the second loop was entered. */
  method GetHardwareAdapter(factory: Factory, requestHighPerformance: bool)
    returns (adapter: Option<Adapter>, ghost plainPassRan: bool)
    ensures adapter == SelectAdapter(factory, requestHighPerformance)
    ensures adapter.Some? ==> !adapter.value.isSoftware && adapter.value.supportsFeatureLevel11_0
    ensures plainPassRan <==>
      factory.preferenceOrders.None? ||
      FirstEligible(PreferredOrder(factory.preferenceOrders.value, requestHighPerformance)).None?
    ensures plainPassRan ==> adapter == FirstEligible(factory.adapters)
  {
    adapter := None;
    if factory.preferenceOrders.Some? {
      adapter := FirstHardwareAdapter(PreferredOrder(factory.preferenceOrders.value, requestHighPerformance));
    }
    plainPassRan := adapter.None?;
    if adapter.None? {
      adapter := FirstHardwareAdapter(factory.adapters);
    }
  }
}
