/** `src/utm5-free-ips.py`: every subnet named on the command line is
    checked, in command-line order, and every free host of each is printed. */
module Utm5FreeIps {
  import opened Results
  import opened Ipv4
  import opened Allocation
  import opened FreeIps

  /** The `-m` choice; it selects nothing in the code that runs. */
  datatype Mode = Gui | Con

  /** The loop that turns every subnet argument into a network, in order;
      the first argument that is not a valid network raises. */
  function ParseNetworks(args: seq<string>, lex: string -> Option<Cidr>): (r: Result<seq<Network>>)
    ensures r.Ok? <==> forall i :: 0 <= i < |args| ==> IpNetwork(args[i], lex).Ok?
    ensures r.Ok? ==> |r.value| == |args|
    ensures r.Ok? ==> forall i :: 0 <= i < |args| ==> IpNetwork(args[i], lex) == Ok(r.value[i])
    decreases |args|
  {
    if |args| == 0 then Ok([])
    else
      var front := args[..|args| - 1];
      var nets :- ParseNetworks(front, lex);
      var net :- IpNetwork(args[|args| - 1], lex);
      assert forall i :: 0 <= i < |front| ==> args[i] == front[i];
      Ok(nets + [net])
  }

  /** Parsed subnets are valid networks. */
  lemma ParsedAreValid(args: seq<string>, lex: string -> Option<Cidr>)
    requires ParseNetworks(args, lex).Ok?
    ensures AllValid(ParseNetworks(args, lex).value)
  {
    var nets := ParseNetworks(args, lex).value;
    forall i | 0 <= i < |nets|
      ensures Valid(nets[i])
    {
      assert IpNetwork(args[i], lex) == Ok(nets[i]);
    }
  }

  /** A failed parse reports the error of the first argument that is not a
      valid network. */
  lemma {:induction false} ParseErrorIsFirst(args: seq<string>, lex: string -> Option<Cidr>)
    requires ParseNetworks(args, lex).Err?
    ensures exists i :: 0 <= i < |args| && IpNetwork(args[i], lex) == Err(ParseNetworks(args, lex).error) &&
              forall j :: 0 <= j < i ==> IpNetwork(args[j], lex).Ok?
    decreases |args|
  {
    var front := args[..|args| - 1];
    var e := ParseNetworks(args, lex).error;
    if ParseNetworks(front, lex).Err? {
      assert e == ParseNetworks(front, lex).error;
      ParseErrorIsFirst(front, lex);
      var i :| 0 <= i < |front| && IpNetwork(front[i], lex) == Err(e) &&
               forall j :: 0 <= j < i ==> IpNetwork(front[j], lex).Ok?;
      assert args[i] == front[i];
      forall j | 0 <= j < i
        ensures IpNetwork(args[j], lex).Ok?
      {
        assert args[j] == front[j];
      }
    } else {
      var i := |args| - 1;
      assert IpNetwork(args[i], lex).Err? && e == IpNetwork(args[i], lex).error;
      forall j | 0 <= j < i
        ensures IpNetwork(args[j], lex).Ok?
      {
        assert args[j] == front[j];
      }
    }
  }

  /** What the script prints: nothing unless the query returned rows, and
      then the free hosts of every subnet, subnets in command-line order.
      The `-a` and `-m` options take no part. */
  function Report(args: seq<string>, rows: seq<int>, lex: string -> Option<Cidr>): (r: Result<seq<Addr>>)
    ensures r.Err? <==> ParseNetworks(args, lex).Err? || FetchAllocated(rows).Err?
    ensures ParseNetworks(args, lex).Err? ==> r == Err(ParseNetworks(args, lex).error)
    ensures ParseNetworks(args, lex).Ok? && FetchAllocated(rows).Err? ==> r == Err(FetchAllocated(rows).error)
  {
    var nets :- ParseNetworks(args, lex);
    var inUse :- FetchAllocated(rows);
    ParsedAreValid(args, lex);
    Ok(if |inUse| > 0 then FreeAll(nets, inUse) else [])
  }

  /** A parse failure in a prefix of the arguments is the failure of the
      whole list. */
  lemma {:induction false} ParseFailurePersists(args: seq<string>, k: nat, lex: string -> Option<Cidr>)
    requires k <= |args|
    requires ParseNetworks(args[..k], lex).Err?
    ensures ParseNetworks(args, lex) == ParseNetworks(args[..k], lex)
    decreases |args| - k
  {
    if k < |args| {
      ParseFailurePersists(args, k + 1, lex);
      assert args[..k + 1][..k] == args[..k];
    } else {
      assert args[..k] == args;
    }
  }

  /** The host loop for one subnet: print every host the allocated list
      lacks. */
  method WalkNetwork(net: Network, inUse: seq<IpAddress>) returns (printed: seq<Addr>)
    requires Valid(net)
    ensures printed == Free(net, inUse, true)
  {
    printed := [];
    var ip := FirstHost(net);
    while ip < EndHost(net)
      invariant FirstHost(net) <= ip <= EndHost(net)
      invariant printed == Unallocated(Range(FirstHost(net), ip), inUse)
    {
      RangeExtend(FirstHost(net), ip);
      var candidates := Range(FirstHost(net), ip + 1);
      assert candidates[..|candidates| - 1] == Range(FirstHost(net), ip);
      if V4(ip) !in inUse {
        printed := printed + [ip];
      }
      ip := ip + 1;
    }
  }

  /** The outer loop over the subnets, in command-line order. */
  method WalkNetworks(nets: seq<Network>, inUse: seq<IpAddress>) returns (printed: seq<Addr>)
    requires AllValid(nets)
    ensures printed == FreeAll(nets, inUse)
  {
    printed := [];
    var k := 0;
    while k < |nets|
      invariant 0 <= k <= |nets|
      invariant printed == FreeAll(nets[..k], inUse)
    {
      var walked := WalkNetwork(nets[k], inUse);
      printed := printed + walked;
      FreeAllExtend(nets, inUse, k);
      k := k + 1;
    }
    assert nets[..k] == nets;
  }

  /** `main`: parse the subnets, fetch the allocated list, then walk every
      subnet's hosts and print those not in the list. The result is the
      printed addresses, or the exception that ended the run first. */
  method Execute(args: seq<string>, listAll: bool, mode: Mode, rows: seq<int>, lex: string -> Option<Cidr>)
    returns (result: Result<seq<Addr>>)
    requires |args| >= 1  // argparse demands at least one subnet
    ensures result == Report(args, rows, lex)
  {
    var nets: seq<Network> := [];
    var i := 0;
    while i < |args|
      invariant 0 <= i <= |args|
      invariant ParseNetworks(args[..i], lex) == Ok(nets)
    {
      var parsed := IpNetwork(args[i], lex);
      assert args[..i + 1][..i] == args[..i];
      if parsed.Err? {
        ParseFailurePersists(args, i + 1, lex);
        return Err(parsed.error);
      }
      nets := nets + [parsed.value];
      i := i + 1;
    }
    assert args[..i] == args;
    var fetched := FetchAllocated(rows);
    if fetched.Err? {
      return Err(fetched.error);
    }
    var inUse := fetched.value;
    var printed: seq<Addr> := [];
    if |inUse| > 0 {
      printed := WalkNetworks(nets, inUse);
    }
    return Ok(printed);
  }

  /** An address is printed exactly when the query returned rows, no row
      holds it, and it is a host of one of the requested subnets. */
  lemma ReportPrintsExactlyFreeHosts(args: seq<string>, rows: seq<int>, lex: string -> Option<Cidr>, a: Addr)
    requires Report(args, rows, lex).Ok?
    ensures a in Report(args, rows, lex).value <==>
              rows != [] && a !in rows && HostOfSome(ParseNetworks(args, lex).value, a)
  {
    var nets := ParseNetworks(args, lex).value;
    var inUse := FetchAllocated(rows).value;
    var out := Report(args, rows, lex).value;
    if rows == [] {
      assert out == [];
    } else {
      assert out == FreeAll(nets, inUse);
      AllocatedAreRowValues(rows, a);
    }
  }

  /** Subnets are handled in command-line order: the output for the whole
      argument list is the output for its first k arguments followed by the
      output for the rest. */
  lemma ReportFollowsCommandLine(args: seq<string>, rows: seq<int>, lex: string -> Option<Cidr>, k: nat)
    requires Report(args, rows, lex).Ok? && k <= |args|
    ensures Report(args[..k], rows, lex).Ok? && Report(args[k..], rows, lex).Ok?
    ensures Report(args, rows, lex).value ==
              Report(args[..k], rows, lex).value + Report(args[k..], rows, lex).value
  {
    var nets := ParseNetworks(args, lex).value;
    var front := ParseNetworks(args[..k], lex);
    var back := ParseNetworks(args[k..], lex);
    assert front.Ok? && front.value == nets[..k];
    assert back.Ok? && back.value == nets[k..];
    FreeAllSplit(nets, FetchAllocated(rows).value, k);
  }

  /** Within one subnet the addresses come out ascending, and for prefixes
      up to 30 never include the network or the broadcast address. */
  lemma ReportWithinSubnet(arg: string, rows: seq<int>, lex: string -> Option<Cidr>)
    requires Report([arg], rows, lex).Ok?
    ensures StrictlyIncreasing(Report([arg], rows, lex).value)
    ensures IpNetwork(arg, lex).value.prefix <= 30 ==>
              IpNetwork(arg, lex).value.base !in Report([arg], rows, lex).value &&
              Broadcast(IpNetwork(arg, lex).value) !in Report([arg], rows, lex).value
  {
    var net := IpNetwork(arg, lex).value;
    var inUse := FetchAllocated(rows).value;
    var nets := ParseNetworks([arg], lex).value;
    assert nets == [net];
    var lists := FreeLists(nets, inUse);
    assert lists == [Free(net, inUse, true)];
    assert Flatten(lists) == Flatten(lists[..0]) + lists[0];
  }

  /** An empty query result prints nothing. */
  lemma EmptyTablePrintsNothing(args: seq<string>, lex: string -> Option<Cidr>)
    requires ParseNetworks(args, lex).Ok?
    ensures Report(args, [], lex) == Ok([])
  {
  }
}
