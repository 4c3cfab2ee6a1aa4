/** The free-address computation shared by both scripts: walk a network's
    hosts in ascending order and keep those absent from the allocated list. */
module FreeIps {
  import opened Ipv4
  import opened Allocation

  /** The host loop's test applied to a sequence of candidate addresses, in
      order: a candidate is printed when the allocated list lacks it. */
  function Unallocated(candidates: seq<Addr>, inUse: seq<IpAddress>): (r: seq<Addr>)
    ensures forall a: Addr :: a in r <==> a in candidates && !IsAllocated(a, inUse)
    ensures |r| <= |candidates|
    ensures StrictlyIncreasing(candidates) ==> StrictlyIncreasing(r)
    decreases |candidates|
  {
    if |candidates| == 0 then []
    else
      var last := candidates[|candidates| - 1];
      var front := candidates[..|candidates| - 1];
      var walked := Unallocated(front, inUse);
      assert StrictlyIncreasing(candidates) ==> forall x :: x in walked ==> x < last by {
        if StrictlyIncreasing(candidates) {
          forall x | x in walked
            ensures x < last
          {
            var i :| 0 <= i < |front| && front[i] == x;
            assert candidates[i] == x;
          }
        }
      }
      if IsAllocated(last, inUse) then walked
      else
        assert StrictlyIncreasing(candidates) ==> StrictlyIncreasing(walked + [last]) by {
          if StrictlyIncreasing(candidates) {
            assert StrictlyIncreasing(front) by {
              forall i, j | 0 <= i < j < |front| ensures front[i] < front[j] {
                assert front[i] == candidates[i] && front[j] == candidates[j];
              }
            }
            AppendAscending(walked, last);
          }
        }
        walked + [last]
  }

  lemma AppendAscending(s: seq<Addr>, x: Addr)
    requires StrictlyIncreasing(s)
    requires forall y :: y in s ==> y < x
    ensures StrictlyIncreasing(s + [x])
  {
    forall i, j | 0 <= i < j < |s| + 1
      ensures (s + [x])[i] < (s + [x])[j]
    {
      assert (s + [x])[i] == s[i];
      if j == |s| {
        assert s[i] in s;
      }
    }
  }

  /** Filtering distributes over concatenation: the walk over s + t prints
      what the walk over s prints, then what the walk over t prints. */
  lemma {:induction false} UnallocatedAppend(s: seq<Addr>, t: seq<Addr>, inUse: seq<IpAddress>)
    ensures Unallocated(s + t, inUse) == Unallocated(s, inUse) + Unallocated(t, inUse)
    decreases |t|
  {
    if |t| > 0 {
      var last := t[|t| - 1];
      var front := t[..|t| - 1];
      assert s + t == (s + front) + [last];
      assert (s + t)[..|s + t| - 1] == s + front;
      UnallocatedAppend(s, front, inUse);
    } else {
      assert s + t == s;
    }
  }

  /** With none of the candidates allocated, every candidate is printed. */
  lemma {:induction false} NothingAllocatedPrintsAll(candidates: seq<Addr>, inUse: seq<IpAddress>)
    requires forall a :: a in candidates ==> !IsAllocated(a, inUse)
    ensures Unallocated(candidates, inUse) == candidates
    decreases |candidates|
  {
    if |candidates| > 0 {
      var front := candidates[..|candidates| - 1];
      assert candidates == front + [candidates[|candidates| - 1]];
      NothingAllocatedPrintsAll(front, inUse);
    }
  }

  lemma NoneOutsideEmpty(s: seq<Addr>, t: seq<Addr>)
    requires |s| == 0
    requires forall a: Addr :: a in t ==> a in s
    ensures |t| == 0
  {
    if t != [] {
      HeadIsMember(t);
    }
  }

  /** The head of a non-empty sequence is one of its elements. */
  lemma HeadIsMember(t: seq<Addr>)
    requires |t| > 0
    ensures t[0] in t
  {
  }

  /** Two ascending sequences with the same elements are equal. */
  lemma {:induction false} AscendingUnique(s: seq<Addr>, t: seq<Addr>)
    requires StrictlyIncreasing(s) && StrictlyIncreasing(t)
    requires forall a: Addr :: a in s <==> a in t
    ensures s == t
    decreases |s|
  {
    if |s| == 0 {
      NoneOutsideEmpty(s, t);
    } else if |t| == 0 {
      NoneOutsideEmpty(t, s);
    } else {
      assert s[0] in t;
      assert t[0] in s;
      assert |t| > 0 && s[0] == t[0];
      forall a: Addr
        ensures a in s[1..] <==> a in t[1..]
      {
        if a in s[1..] {
          var i :| 0 <= i < |s[1..]| && s[1..][i] == a;
          assert s[0] < s[i + 1];
          assert s[i + 1] in s;
          var j :| 0 <= j < |t| && t[j] == a;
          assert t[1..][j - 1] == a;
        }
        if a in t[1..] {
          var i :| 0 <= i < |t[1..]| && t[1..][i] == a;
          assert t[0] < t[i + 1];
          assert t[i + 1] in t;
          var j :| 0 <= j < |s| && s[j] == a;
          assert s[1..][j - 1] == a;
        }
      }
      AscendingUnique(s[1..], t[1..]);
      assert s == [s[0]] + s[1..];
      assert t == [t[0]] + t[1..];
    }
  }

  /** The free hosts of one network. With `all` every free host comes out,
      ascending; otherwise only the lowest one, if any (the walk stops at
      the first free host). */
  function Free(net: Network, inUse: seq<IpAddress>, all: bool): (r: seq<Addr>)
    requires Valid(net)
    ensures forall a :: a in r ==> IsHost(net, a) && !IsAllocated(a, inUse)
    ensures all ==> forall a: Addr :: IsHost(net, a) && !IsAllocated(a, inUse) ==> a in r
    ensures StrictlyIncreasing(r)
    ensures !all ==> |r| <= 1
  {
    var walked := Unallocated(Hosts(net), inUse);
    if all || |walked| == 0 then walked else [walked[0]]
  }

  /** The full walk is the one ascending enumeration of the free hosts. */
  lemma FreeIsAscendingEnumeration(net: Network, inUse: seq<IpAddress>, s: seq<Addr>)
    requires Valid(net)
    requires StrictlyIncreasing(s)
    requires forall a: Addr :: a in s <==> IsHost(net, a) && !IsAllocated(a, inUse)
    ensures Free(net, inUse, true) == s
  {
    AscendingUnique(Free(net, inUse, true), s);
  }

  /** First-only mode prints nothing exactly when every host is allocated,
      and otherwise prints the lowest free host. */
  lemma FirstFreeIsLowest(net: Network, inUse: seq<IpAddress>)
    requires Valid(net)
    ensures Free(net, inUse, false) == [] <==> forall a: Addr :: IsHost(net, a) ==> IsAllocated(a, inUse)
    ensures forall a :: Free(net, inUse, false) == [a] ==>
              IsHost(net, a) && !IsAllocated(a, inUse) &&
              forall b: Addr :: IsHost(net, b) && b < a ==> IsAllocated(b, inUse)
  {
    var walked := Free(net, inUse, true);
    if |walked| > 0 {
      assert walked[0] in walked;
      forall b: Addr | IsHost(net, b) && b < walked[0]
        ensures IsAllocated(b, inUse)
      {
        if !IsAllocated(b, inUse) {
          assert false;
        }
      }
    }
  }

  /** With no host of the network allocated, all-mode prints every host,
      ascending, and first-only mode prints the lowest host. */
  lemma NothingAllocatedInNetwork(net: Network, inUse: seq<IpAddress>)
    requires Valid(net)
    requires forall a: Addr :: IsHost(net, a) ==> !IsAllocated(a, inUse)
    ensures Free(net, inUse, true) == Hosts(net)
    ensures Free(net, inUse, false) == if |Hosts(net)| == 0 then [] else [Hosts(net)[0]]
  {
    NothingAllocatedPrintsAll(Hosts(net), inUse);
  }

  predicate AllValid(nets: seq<Network>)
  {
    forall i :: 0 <= i < |nets| ==> Valid(nets[i])
  }

  /** The free hosts of each network, one list per network. */
  function FreeLists(nets: seq<Network>, inUse: seq<IpAddress>): (r: seq<seq<Addr>>)
    requires AllValid(nets)
    ensures |r| == |nets|
  {
    seq(|nets|, i requires 0 <= i < |nets| => Free(nets[i], inUse, true))
  }

  function Flatten(lists: seq<seq<Addr>>): seq<Addr>
    decreases |lists|
  {
    if |lists| == 0 then [] else Flatten(lists[..|lists| - 1]) + lists[|lists| - 1]
  }

  lemma {:induction false} FlattenSplit(lists: seq<seq<Addr>>, k: nat)
    requires k <= |lists|
    ensures Flatten(lists) == Flatten(lists[..k]) + Flatten(lists[k..])
    decreases |lists|
  {
    if k == |lists| {
      assert lists[..k] == lists;
      assert lists[k..] == [];
    } else {
      var front := lists[..|lists| - 1];
      var rest := lists[k..];
      assert front[..k] == lists[..k];
      FlattenSplit(front, k);
      assert rest[..|rest| - 1] == front[k..];
    }
  }

  lemma FreeListsSlice(nets: seq<Network>, inUse: seq<IpAddress>, lo: nat, hi: nat)
    requires AllValid(nets)
    requires lo <= hi <= |nets|
    ensures AllValid(nets[lo..hi])
    ensures FreeLists(nets[lo..hi], inUse) == FreeLists(nets, inUse)[lo..hi]
  {
    var sliced := nets[lo..hi];
    var lists := FreeLists(nets, inUse);
    var left := FreeLists(sliced, inUse);
    var right := lists[lo..hi];
    assert |left| == |right|;
    forall i | 0 <= i < hi - lo
      ensures left[i] == right[i]
    {
      assert sliced[i] == nets[lo + i];
    }
    assert left == right;
  }

  /** The outer loop: the free hosts of every network, networks in the given
      order. An address is printed exactly when it is a free host of one of
      the networks. */
  function FreeAll(nets: seq<Network>, inUse: seq<IpAddress>): (r: seq<Addr>)
    requires AllValid(nets)
    ensures forall a: Addr :: a in r <==> !IsAllocated(a, inUse) && HostOfSome(nets, a)
  {
    FreeListsMembers(nets, inUse);
    Flatten(FreeLists(nets, inUse))
  }

  lemma {:induction false} FlattenMembers(lists: seq<seq<Addr>>, a: Addr)
    ensures a in Flatten(lists) <==> exists i :: 0 <= i < |lists| && a in lists[i]
    decreases |lists|
  {
    if |lists| > 0 {
      var front := lists[..|lists| - 1];
      FlattenMembers(front, a);
      if exists i :: 0 <= i < |front| && a in front[i] {
        var i :| 0 <= i < |front| && a in front[i];
        assert a in lists[i];
      }
      if exists i :: 0 <= i < |lists| && a in lists[i] {
        var i :| 0 <= i < |lists| && a in lists[i];
        if i < |front| {
          assert a in front[i];
        }
      }
    }
  }

  /** The address is a host of at least one of the networks. */
  predicate HostOfSome(nets: seq<Network>, a: Addr)
    requires AllValid(nets)
  {
    exists i :: 0 <= i < |nets| && IsHost(nets[i], a)
  }

  /** The joined per-network outputs hold exactly the free hosts of the
      networks. */
  lemma FreeListsMembers(nets: seq<Network>, inUse: seq<IpAddress>)
    requires AllValid(nets)
    ensures forall a: Addr :: a in Flatten(FreeLists(nets, inUse)) <==> !IsAllocated(a, inUse) && HostOfSome(nets, a)
  {
    var lists := FreeLists(nets, inUse);
    forall a: Addr
      ensures a in Flatten(lists) <==> !IsAllocated(a, inUse) && HostOfSome(nets, a)
    {
      FlattenMembers(lists, a);
      if a in Flatten(lists) {
        var i :| 0 <= i < |lists| && a in lists[i];
        assert IsHost(nets[i], a);
      }
      if !IsAllocated(a, inUse) && exists i :: 0 <= i < |nets| && IsHost(nets[i], a) {
        var i :| 0 <= i < |nets| && IsHost(nets[i], a);
        assert a in lists[i];
      }
    }
  }

  /** Networks are walked in the given order: the output for a list of
      networks is the output for any prefix of it followed by the output
      for the rest. */
  lemma FreeAllSplit(nets: seq<Network>, inUse: seq<IpAddress>, k: nat)
    requires AllValid(nets)
    requires k <= |nets|
    ensures FreeAll(nets, inUse) == FreeAll(nets[..k], inUse) + FreeAll(nets[k..], inUse)
  {
    var lists := FreeLists(nets, inUse);
    FlattenSplit(lists, k);
    FreeListsSlice(nets, inUse, 0, k);
    FreeListsSlice(nets, inUse, k, |nets|);
    assert nets[0..k] == nets[..k] && lists[0..k] == lists[..k];
    assert nets[k..|nets|] == nets[k..] && lists[k..|nets|] == lists[k..];
  }

  /** One more network: its free hosts are appended to what came before. */
  lemma FreeAllExtend(nets: seq<Network>, inUse: seq<IpAddress>, k: nat)
    requires AllValid(nets)
    requires k < |nets|
    ensures FreeAll(nets[..k + 1], inUse) == FreeAll(nets[..k], inUse) + Free(nets[k], inUse, true)
  {
    var lists := FreeLists(nets[..k + 1], inUse);
    assert lists[..k] == FreeLists(nets[..k], inUse);
    assert lists[k] == Free(nets[k], inUse, true);
  }

  /** 192.168.0.0/24 with 192.168.0.1 allocated: first-only mode prints
      192.168.0.2. */
  lemma SecondHostIsFirstFree()
    ensures Free(Network(0xC0A8_0000, 24), [V4(0xC0A8_0001)], false) == [0xC0A8_0002]
  {
    var net := Network(0xC0A8_0000, 24);
    var inUse := [V4(0xC0A8_0001)];
    assert BlockSize(24) == 256;
    assert IsHost(net, 0xC0A8_0002) && !IsAllocated(0xC0A8_0002, inUse);
    FirstFreeIsLowest(net, inUse);
    var r := Free(net, inUse, false);
    assert |r| == 1;
    assert r[0] <= 0xC0A8_0002;
  }

  /** 192.168.0.0/24 with 192.168.0.1 allocated: all-mode prints
      192.168.0.2 through 192.168.0.254. */
  lemma AllButFirstHostFree()
    ensures Free(Network(0xC0A8_0000, 24), [V4(0xC0A8_0001)], true) == Range(0xC0A8_0002, 0xC0A8_00FF)
  {
    var net := Network(0xC0A8_0000, 24);
    var inUse := [V4(0xC0A8_0001)];
    assert BlockSize(24) == 256;
    var expected := Range(0xC0A8_0002, 0xC0A8_00FF);
    forall a: Addr
      ensures a in expected <==> IsHost(net, a) && !IsAllocated(a, inUse)
    {
      if 0xC0A8_0002 <= a < 0xC0A8_00FF {
        assert expected[a - 0xC0A8_0002] == a;
      }
    }
    FreeIsAscendingEnumeration(net, inUse, expected);
  }
}
