/**
 * Choosing the address to register: the first external IPv4 address of the
 * network device with the given name, as os.networkInterfaces() lists it.
 */
module Interfaces {
  import opened Wrappers

  /** One entry of a device's address list. */
  datatype AddressInfo = AddressInfo(address: string, family: string, internal: bool)

  /** A device name with its address list, in the order the keys are enumerated. */
  datatype Device = Device(name: string, infos: seq<AddressInfo>)

  /** An entry that may be registered: not a loopback-style internal address, and IPv4. */
  predicate Qualifies(info: AddressInfo)
  {
    !info.internal && info.family == "IPv4"
  }

  /** Reference definition: the first qualifying entry of a list. */
  function FirstQualifying(infos: seq<AddressInfo>): (r: Option<string>)
    ensures r.None? <==> forall k :: 0 <= k < |infos| ==> !Qualifies(infos[k])
    ensures r.Some? ==> exists k :: (0 <= k < |infos| && Qualifies(infos[k]) && infos[k].address == r.value
                                     && forall j :: 0 <= j < k ==> !Qualifies(infos[j]))
  {
    if infos == [] then None
    else if Qualifies(infos[0]) then Some(infos[0].address)
    else
      var rest := FirstQualifying(infos[1..]);
      assert forall k :: 1 <= k < |infos| ==> infos[k] == infos[1..][k - 1];
      assert rest.Some? ==> exists k :: (0 <= k < |infos| && Qualifies(infos[k]) && infos[k].address == rest.value
                                         && forall j :: 0 <= j < k ==> !Qualifies(infos[j])) by {
        if rest.Some? {
          var k :| 0 <= k < |infos[1..]| && Qualifies(infos[1..][k]) && infos[1..][k].address == rest.value
                   && forall j :: 0 <= j < k ==> !Qualifies(infos[1..][j]);
          assert Qualifies(infos[k + 1]);
        }
      }
      rest
  }

  /** Reference definition: the first qualifying entry among the devices named name, in order. */
  function Lookup(devices: seq<Device>, name: string): (r: Option<string>)
    ensures r.None? <==> (forall d, k :: 0 <= d < |devices| && devices[d].name == name && 0 <= k < |devices[d].infos|
                                         ==> !Qualifies(devices[d].infos[k]))
  {
    if devices == [] then None
    else
      var here := if devices[0].name == name then FirstQualifying(devices[0].infos) else None;
      if here.Some? then here
      else
        var rest := Lookup(devices[1..], name);
        assert forall d :: 1 <= d < |devices| ==> devices[d] == devices[1..][d - 1];
        rest
  }

  /** getIpAddress: skip other devices, skip internal and non-IPv4 entries, return the first address left. */
  method GetIpAddress(devices: seq<Device>, name: string) returns (r: Option<string>)
    ensures r == Lookup(devices, name)
  {
    var d := 0;
    while d < |devices|
      invariant 0 <= d <= |devices|
      invariant Lookup(devices, name) == Lookup(devices[d..], name)
    {
      assert devices[d..][1..] == devices[d + 1..];
      if devices[d].name != name {
        d := d + 1;
        continue;
      }
      var infos := devices[d].infos;
      var k := 0;
      while k < |infos|
        invariant 0 <= k <= |infos|
        invariant FirstQualifying(infos) == FirstQualifying(infos[k..])
      {
        assert infos[k..][1..] == infos[k + 1..];
        if !infos[k].internal {
          if infos[k].family == "IPv4" {
            return Some(infos[k].address);
          }
        }
        k := k + 1;
      }
      d := d + 1;
    }
    return None;
  }

  /** The address returned belongs to a qualifying entry of a device with that name. */
  lemma {:induction false} LookupSound(devices: seq<Device>, name: string)
    requires Lookup(devices, name).Some?
    ensures exists d, k :: (0 <= d < |devices| && devices[d].name == name && 0 <= k < |devices[d].infos|
                            && Qualifies(devices[d].infos[k]) && devices[d].infos[k].address == Lookup(devices, name).value)
  {
    var here := if devices[0].name == name then FirstQualifying(devices[0].infos) else None;
    if here.Some? {
      var k :| 0 <= k < |devices[0].infos| && Qualifies(devices[0].infos[k]) && devices[0].infos[k].address == here.value;
      assert devices[0].name == name;
    } else {
      LookupSound(devices[1..], name);
      var d, k :| 0 <= d < |devices[1..]| && devices[1..][d].name == name && 0 <= k < |devices[1..][d].infos|
        && Qualifies(devices[1..][d].infos[k]) && devices[1..][d].infos[k].address == Lookup(devices[1..], name).value;
      assert devices[d + 1] == devices[1..][d];
    }
  }

  /** No device by that name: no address. */
  lemma {:induction false} AbsentDevice(devices: seq<Device>, name: string)
    requires forall d :: 0 <= d < |devices| ==> devices[d].name != name
    ensures Lookup(devices, name).None?
  {
  }

  /**
   * Device names are object keys, so at most one device has the name; then
   * the result is the first qualifying entry of that device, and only its
   * entries matter.
   */
  lemma {:induction false} LookupNamedDevice(devices: seq<Device>, name: string, d: nat)
    requires d < |devices| && devices[d].name == name
    requires forall e :: 0 <= e < |devices| && e != d ==> devices[e].name != name
    ensures Lookup(devices, name) == FirstQualifying(devices[d].infos)
  {
    if d == 0 {
      AbsentDevice(devices[1..], name);
    } else {
      assert devices[0].name != name;
      LookupNamedDevice(devices[1..], name, d - 1);
    }
  }
}
