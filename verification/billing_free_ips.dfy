/** `src/billing-free-ips.py`: one subnet from the command line; the lowest
    free host is printed, or every free host when the second argument is
    `all` in any letter case. */
module BillingFreeIps {
  import opened Results
  import opened Ipv4
  import opened Allocation
  import opened FreeIps

  /** One line of console output. */
  datatype Line = Address(addr: Addr) | Text(text: string)

  /** The two lines printed when no subnet is given. */
  const Usage: seq<Line> :=
    [Text("Пример использования: "), Text("python spareips.py 192.168.0.0/24 [all]")]

  /** `str.upper` on one character, for the ASCII letters. */
  function UpperChar(c: char): char
  {
    if 'a' <= c <= 'z' then (c as int - 'a' as int + 'A' as int) as char else c
  }

  /** `str.upper` on ASCII: each lower-case letter becomes its capital,
      every other character is kept, so no lower-case letter is left. */
  function Upper(s: string): (r: string)
    ensures |r| == |s|
    ensures forall i :: 0 <= i < |s| ==> r[i] == UpperChar(s[i])
    ensures forall i :: 0 <= i < |s| && 'a' <= s[i] <= 'z' ==> r[i] as int == s[i] as int - 32 && 'A' <= r[i] <= 'Z'
    ensures forall i :: 0 <= i < |s| && !('a' <= s[i] <= 'z') ==> r[i] == s[i]
    ensures forall i :: 0 <= i < |r| ==> !('a' <= r[i] <= 'z')
  {
    seq(|s|, i requires 0 <= i < |s| => UpperChar(s[i]))
  }

  /** The walk goes on after the first free host when there is a third
      command-line word and its upper-case form is ALL. */
  predicate ListAll(argv: seq<string>)
    ensures ListAll(argv) <==>
              |argv| >= 3 && |argv[2]| == 3 &&
              argv[2][0] in "aA" && argv[2][1] in "lL" && argv[2][2] in "lL"
  {
    if |argv| >= 3 then
      UpperIsAll(argv[2]);
      Upper(argv[2]) == "ALL"
    else
      false
  }

  /** A word reads ALL in upper case exactly when it spells `all` with each
      letter in either case. */
  lemma UpperIsAll(w: string)
    ensures Upper(w) == "ALL" <==> |w| == 3 && w[0] in "aA" && w[1] in "lL" && w[2] in "lL"
  {
    if |w| == 3 {
      var u := Upper(w);
      assert u == "ALL" <==> u[0] == 'A' && u[1] == 'L' && u[2] == 'L';
    }
  }

  function AddressLines(addrs: seq<Addr>): (r: seq<Line>)
    ensures |r| == |addrs|
    ensures forall i :: 0 <= i < |addrs| ==> r[i] == Address(addrs[i])
  {
    seq(|addrs|, i requires 0 <= i < |addrs| => Address(addrs[i]))
  }

  /** What the script prints for the command line `argv` (program name
      first) and the rows of the query, or the exception that ends it. */
  function Output(argv: seq<string>, rows: seq<int>, lex: string -> Option<Cidr>): (r: Result<seq<Line>>)
    ensures |argv| <= 1 ==> r == Ok(Usage)
    ensures r.Err? <==> |argv| > 1 && (IpNetwork(argv[1], lex).Err? || FetchAllocated(rows).Err?)
    ensures |argv| > 1 && IpNetwork(argv[1], lex).Err? ==> r == Err(IpNetwork(argv[1], lex).error)
    ensures |argv| > 1 && r.Ok? ==> forall i :: 0 <= i < |r.value| ==> r.value[i].Address?
  {
    if |argv| > 1 then
      var net :- IpNetwork(argv[1], lex);
      var inUse :- FetchAllocated(rows);
      Ok(if |inUse| > 0 then AddressLines(Free(net, inUse, ListAll(argv))) else [])
    else
      Ok(Usage)
  }

  /** `main`: the walk over the subnet's hosts, leaving with `sys.exit(0)`
      right after the first free host unless all were asked for. */
  method Execute(argv: seq<string>, rows: seq<int>, lex: string -> Option<Cidr>)
    returns (result: Result<seq<Line>>)
    ensures result == Output(argv, rows, lex)
  {
    if |argv| <= 1 {
      return Ok(Usage);
    }
    var parsed := IpNetwork(argv[1], lex);
    if parsed.Err? {
      return Err(parsed.error);
    }
    var net := parsed.value;
    var fetched := FetchAllocated(rows);
    if fetched.Err? {
      return Err(fetched.error);
    }
    var inUse := fetched.value;
    if |inUse| == 0 {
      return Ok([]);
    }
    var printed := WalkSubnet(net, inUse, ListAll(argv));
    return Ok(AddressLines(printed));
  }

  /** The host loop: print every free host, ascending, and leave after the
      first one when `all` is false. */
  method WalkSubnet(net: Network, inUse: seq<IpAddress>, all: bool) returns (printed: seq<Addr>)
    requires Valid(net)
    ensures printed == Free(net, inUse, all)
  {
    printed := [];
    var ip := FirstHost(net);
    while ip < EndHost(net)
      invariant FirstHost(net) <= ip <= EndHost(net)
      invariant printed == Unallocated(Range(FirstHost(net), ip), inUse)
      invariant !all ==> printed == []
    {
      RangeExtend(FirstHost(net), ip);
      var candidates := Range(FirstHost(net), ip + 1);
      assert candidates[..|candidates| - 1] == Range(FirstHost(net), ip);
      if V4(ip) !in inUse {
        printed := printed + [ip];
        if !all {
          FirstFoundIsFirstFree(net, inUse, ip + 1);
          return;
        }
      }
      ip := ip + 1;
    }
  }

  /** Once the walk up to `stop` has found exactly one free host, that host
      is what first-only mode prints. */
  lemma FirstFoundIsFirstFree(net: Network, inUse: seq<IpAddress>, stop: nat)
    requires Valid(net)
    requires FirstHost(net) < stop <= EndHost(net)
    requires |Unallocated(Range(FirstHost(net), stop), inUse)| == 1
    ensures Free(net, inUse, false) == Unallocated(Range(FirstHost(net), stop), inUse)
  {
    RangeSplit(FirstHost(net), stop, EndHost(net));
    UnallocatedAppend(Range(FirstHost(net), stop), Range(stop, EndHost(net)), inUse);
  }

  /** Every printed address is a host of the subnet in `argv[1]` that no
      row of the query holds. */
  lemma PrintedAreFreeHosts(argv: seq<string>, rows: seq<int>, lex: string -> Option<Cidr>)
    requires |argv| > 1 && Output(argv, rows, lex).Ok?
    ensures forall l :: l in Output(argv, rows, lex).value && l.Address? ==>
              IsHost(IpNetwork(argv[1], lex).value, l.addr) && l.addr !in rows
  {
    var inUse := FetchAllocated(rows).value;
    forall l | l in Output(argv, rows, lex).value && l.Address?
      ensures IsHost(IpNetwork(argv[1], lex).value, l.addr) && l.addr !in rows
    {
      AllocatedAreRowValues(rows, l.addr);
    }
  }

  /** Without `all`: at most one address is printed, none exactly when
      every host is taken (or the query returned no rows), and otherwise the
      lowest free host. */
  lemma FirstOnlyPrintsLowestFree(argv: seq<string>, rows: seq<int>, lex: string -> Option<Cidr>)
    requires |argv| > 1 && !ListAll(argv) && Output(argv, rows, lex).Ok?
    ensures |Output(argv, rows, lex).value| <= 1
    ensures Output(argv, rows, lex).value == [] <==>
              rows == [] || forall a: Addr :: IsHost(IpNetwork(argv[1], lex).value, a) ==> a in rows
    ensures forall a: Addr :: Output(argv, rows, lex).value == [Address(a)] ==>
              IsHost(IpNetwork(argv[1], lex).value, a) && a !in rows &&
              forall b: Addr :: IsHost(IpNetwork(argv[1], lex).value, b) && b < a ==> b in rows
  {
    var net := IpNetwork(argv[1], lex).value;
    var inUse := FetchAllocated(rows).value;
    FirstFreeIsLowest(net, inUse);
    forall a: Addr
      ensures IsAllocated(a, inUse) <==> a in rows
    {
      AllocatedAreRowValues(rows, a);
    }
  }

  /** With `all`: every free host of the subnet is printed, ascending, and
      nothing else. */
  lemma AllPrintsEveryFreeHost(argv: seq<string>, rows: seq<int>, lex: string -> Option<Cidr>)
    requires |argv| > 1 && ListAll(argv) && Output(argv, rows, lex).Ok? && rows != []
    ensures exists addrs: seq<Addr> ::
              Output(argv, rows, lex).value == AddressLines(addrs) && StrictlyIncreasing(addrs) &&
              forall a: Addr :: a in addrs <==> IsHost(IpNetwork(argv[1], lex).value, a) && a !in rows
  {
    var net := IpNetwork(argv[1], lex).value;
    var inUse := FetchAllocated(rows).value;
    var addrs := Free(net, inUse, true);
    forall a: Addr
      ensures a in addrs <==> IsHost(net, a) && a !in rows
    {
      AllocatedAreRowValues(rows, a);
    }
  }

  /** An empty query result prints nothing. */
  lemma EmptyTablePrintsNothing(argv: seq<string>, lex: string -> Option<Cidr>)
    requires |argv| > 1 && IpNetwork(argv[1], lex).Ok?
    ensures Output(argv, [], lex) == Ok([])
  {
  }

  /** Without a subnet argument only the usage text is printed. */
  lemma NoSubnetPrintsUsage(argv: seq<string>, rows: seq<int>, lex: string -> Option<Cidr>)
    requires |argv| <= 1
    ensures Output(argv, rows, lex) == Ok(Usage)
    ensures forall l :: l in Output(argv, rows, lex).value ==> l.Text?
  {
  }

  /** Only `argv[1]` is read as a subnet: arguments after it matter only
      through the all/first-only decision. */
  lemma OnlySecondArgumentIsSubnet(argv: seq<string>, argv': seq<string>, rows: seq<int>, lex: string -> Option<Cidr>)
    requires |argv| > 1 && |argv'| > 1 && argv[1] == argv'[1]
    requires ListAll(argv) == ListAll(argv')
    ensures Output(argv, rows, lex) == Output(argv', rows, lex)
  {
  }
}
