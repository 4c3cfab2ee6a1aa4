/** The allocated-address list: one `ipaddress.ip_address` value per row of
    the query `SELECT ip FROM ip_groups WHERE is_deleted=0`. */
module Allocation {
  import opened Results
  import opened Ipv4

  /** Number of IPv6 addresses, 2^128. */
  const Ipv6Space: nat := 0x1_0000_0000_0000_0000_0000_0000_0000_0000

  /** What `ip_address` returns for an integer: an IPv4 address when the
      value fits in 32 bits, otherwise an IPv6 address. */
  datatype IpAddress = V4(v4: Addr) | V6(v6: nat)
  {
    function IntValue(): nat
    {
      match this
      case V4(a) => a
      case V6(n) => n
    }
  }

  /** `ipaddress.ip_address(value)` for an integer row value: negative values
      and values beyond 128 bits raise, values below 2^32 are IPv4, the rest
      are IPv6. The value is taken as is; no signed-to-unsigned correction. */
  function AddressOf(value: int): (r: Result<IpAddress>)
    ensures r.Ok? <==> 0 <= value < Ipv6Space
    ensures r.Ok? ==> r.value.IntValue() == value
    ensures r.Ok? ==> (r.value.V4? <==> value < AddressSpace)
    ensures value < 0 ==> r == Err(NegativeAddress)
  {
    if value < 0 then Err(NegativeAddress)
    else if value < AddressSpace then Ok(V4(value))
    else if value < Ipv6Space then Ok(V6(value))
    else Err(AddressTooLarge)
  }

  /** The row loop of `get_ips_from_db`: every row is converted in order,
      and the first row that `ip_address` rejects raises, so no list is
      produced. */
  function FetchAllocated(rows: seq<int>): (r: Result<seq<IpAddress>>)
    ensures r.Ok? <==> forall i :: 0 <= i < |rows| ==> 0 <= rows[i] < Ipv6Space
    ensures r.Ok? ==> |r.value| == |rows|
    ensures r.Ok? ==> forall i :: 0 <= i < |rows| ==>
                        r.value[i].IntValue() == rows[i] && (r.value[i].V4? <==> rows[i] < AddressSpace)
    ensures r.Err? ==> exists i :: 0 <= i < |rows| && AddressOf(rows[i]) == Err(r.error) &&
                        forall j :: 0 <= j < i ==> AddressOf(rows[j]).Ok?
  {
    if |rows| == 0 then Ok([])
    else
      match AddressOf(rows[0])
      case Err(e) => Err(e)
      case Ok(a) =>
        match FetchAllocated(rows[1..])
        case Err(e) =>
          var i :| 0 <= i < |rows[1..]| && AddressOf(rows[1..][i]) == Err(e) &&
                   forall j :: 0 <= j < i ==> AddressOf(rows[1..][j]).Ok?;
          assert AddressOf(rows[i + 1]) == Err(e);
          Err(e)
        case Ok(tail) => Ok([a] + tail)
  }

  /** The membership test of the host loop against the fetched list. IPv4
      and IPv6 addresses never compare equal, so only IPv4 entries can match
      a host. */
  predicate IsAllocated(a: Addr, inUse: seq<IpAddress>)
    ensures IsAllocated(a, inUse) <==>
              exists i :: 0 <= i < |inUse| && inUse[i].V4? && inUse[i].IntValue() == a
  {
    V4(a) in inUse
  }

  /** Every row that holds a 32-bit value marks exactly that address as
      allocated, and nothing else is allocated. */
  lemma AllocatedAreRowValues(rows: seq<int>, a: Addr)
    requires FetchAllocated(rows).Ok?
    ensures IsAllocated(a, FetchAllocated(rows).value) <==> a in rows
  {
    var inUse := FetchAllocated(rows).value;
    if a in rows {
      var i :| 0 <= i < |rows| && rows[i] == a;
      assert inUse[i] == V4(a);
    }
    if IsAllocated(a, inUse) {
      var i :| 0 <= i < |inUse| && inUse[i] == V4(a);
      assert rows[i] == a;
    }
  }
}
