/**
  `group_ips_into_subnets`: /32 hosts are grouped by their first three
  octets; a group with at least `threshold` members becomes one `a.b.c.0/24`
  entry unless an explicit subnet has the same first three octets.
 */
module Grouping {
  import opened Wrappers
  import opened Seqs
  import opened PyStr
  import opened Ipv4

  /** The text handed to `ip_network`: a plain address gets `/32`. */
  function AsCidr(entry: string): string
  {
    if '/' in entry then entry else entry + "/32"
  }

  /** `ip_network(AsCidr(entry), strict=False)` does not raise. */
  predicate WellFormed(entry: string)
  {
    ParseNetwork(AsCidr(entry)).Some?
  }

  function NetworkOf(entry: string): (n: Network)
    requires WellFormed(entry)
    ensures Valid(n)
  {
    ParseNetwork(AsCidr(entry)).value
  }

  /** The networks of a list of entries, position by position. */
  function Networks(entries: seq<string>): (nets: seq<Network>)
    requires forall e :: e in entries ==> WellFormed(e)
  {
    seq(|entries|, i requires 0 <= i < |entries| => NetworkOf(entries[i]))
  }

  predicate IsHost(n: Network)
  {
    n.prefix == 32
  }

  /**
    The grouping key `str(n.network_address).rsplit(".", 1)[0]`, identified
    with the number `addr / 256` it spells (Ipv4.KeyTextInjective).
   */
  function Key(n: Network): nat
  {
    n.addr / 256
  }

  /** The /24 entry `f"{key}.0/24"`. */
  function Aggregate(k: nat): Network
  {
    Network(256 * k, 24)
  }

  /** `ip_dict[k]`: the hosts with key `k`, in input order and with repetitions. */
  function HostsWithKey(nets: seq<Network>, k: nat): seq<Network>
  {
    if nets == [] then []
    else
      var init, last := nets[..|nets| - 1], nets[|nets| - 1];
      HostsWithKey(init, k) + (if IsHost(last) && Key(last) == k then [last] else [])
  }

  lemma {:induction false} HostsWithKeyMembers(nets: seq<Network>, k: nat)
    ensures forall h :: h in HostsWithKey(nets, k) <==> h in nets && IsHost(h) && Key(h) == k
  {
    if nets != [] {
      var init := nets[..|nets| - 1];
      HostsWithKeyMembers(init, k);
      assert nets == init + [nets[|nets| - 1]];
    }
  }

  /** How many /32 entries with key `k` the input holds, counted with multiplicity. */
  function HostCount(nets: seq<Network>, k: nat): nat
  {
    |HostsWithKey(nets, k)|
  }

  /** Some explicit subnet has key `k`, which cancels the aggregation of group `k`. */
  predicate Suppressed(nets: seq<Network>, k: nat)
  {
    exists s :: s in nets && !IsHost(s) && Key(s) == k
  }

  /** Group `k` is replaced by its /24. */
  predicate Aggregates(nets: seq<Network>, k: nat, threshold: int)
  {
    0 < HostCount(nets, k) && threshold <= HostCount(nets, k) && !Suppressed(nets, k)
  }

  /**
    Reference definition of the grouping result: the explicit subnets, the
    /24 of every aggregated group, and every host whose group is not aggregated.
   */
  function GroupedNetworks(nets: seq<Network>, threshold: int): set<Network>
  {
    (set s | s in nets && !IsHost(s))
    + (set h | h in nets && IsHost(h) && Aggregates(nets, Key(h), threshold) :: Aggregate(Key(h)))
    + (set h | h in nets && IsHost(h) && !Aggregates(nets, Key(h), threshold))
  }

  /** The grouping result as the strings the script collects. */
  function GroupedEntries(nets: seq<Network>, threshold: int): set<string>
  {
    set n | n in GroupedNetworks(nets, threshold) :: ShowNetwork(n)
  }

  /** `list(result)`: the elements of a set in some order, each once. */
  method ListOf(s: set<string>) returns (r: seq<string>)
    ensures Distinct(r) && (set x | x in r) == s && |r| == |s|
  {
    r := [];
    var rest := s;
    while rest != {}
      invariant rest <= s
      invariant Distinct(r) && (set x | x in r) == s - rest
      invariant |r| + |rest| == |s|
      decreases |rest|
    {
      var x :| x in rest;
      assert forall y :: y in r ==> y !in rest;
      assert (set y | y in r + [x]) == (set y | y in r) + {x};
      r := r + [x];
      rest := rest - {x};
    }
  }

  /** `if "/" not in entry: entry += "/32"` followed by `ip_network(entry, strict=False)`. */
  method ToNetwork(entry: string) returns (network: Network)
    requires WellFormed(entry)
    ensures network == NetworkOf(entry) && Valid(network)
  {
    var text := entry;
    if '/' !in text {
      text := text + "/32";
    }
    network := ParseNetwork(text).value;
  }

  /**
    First loop of `group_ips_into_subnets`: `ip_dict[key].append(host)` and
    `individual_ips.add(host)` for every /32, `existing_subnets.add` for the rest.
   */
  method CollectEntries(addresses: seq<string>)
    returns (ipDict: map<nat, seq<Network>>, existingSubnets: set<Network>, individualIps: set<Network>)
    requires forall e :: e in addresses ==> WellFormed(e)
    ensures Collected(Networks(addresses), ipDict, existingSubnets, individualIps)
  {
    ipDict, existingSubnets, individualIps := map[], {}, {};
    ghost var seen: seq<Network> := [];
    var i := 0;
    while i < |addresses|
      invariant 0 <= i <= |addresses|
      invariant seen == Networks(addresses[..i])
      invariant Collected(seen, ipDict, existingSubnets, individualIps)
    {
      assert addresses[i] in addresses;
      var network := ToNetwork(addresses[i]);
      if network.prefix == 32 {
        var firstThreeOctets := network.addr / 256;
        var members := if firstThreeOctets in ipDict then ipDict[firstThreeOctets] else [];
        CollectHost(seen, network, ipDict, existingSubnets, individualIps);
        ipDict := ipDict[firstThreeOctets := members + [network]];
        individualIps := individualIps + {network};
      } else {
        CollectSubnet(seen, network, ipDict, existingSubnets, individualIps);
        existingSubnets := existingSubnets + {network};
      }
      NetworksSnoc(addresses, i);
      seen := seen + [network];
      i := i + 1;
    }
    assert addresses[..i] == addresses;
  }

  /**
    The state of the first loop after the entries `nets`: `ip_dict` maps each
    key to its hosts, and the two sets hold the subnets and the hosts.
   */
  ghost predicate Collected(nets: seq<Network>, ipDict: map<nat, seq<Network>>, subnets: set<Network>, ips: set<Network>)
  {
    (forall k :: k in ipDict <==> HostsWithKey(nets, k) != [])
    && (forall k :: k in ipDict ==> ipDict[k] == HostsWithKey(nets, k))
    && subnets == (set s | s in nets && !IsHost(s))
    && ips == (set h | h in nets && IsHost(h))
  }

  /** Appending a /32 to its key's list keeps the first loop's state. */
  lemma CollectHost(nets: seq<Network>, x: Network, dict: map<nat, seq<Network>>, subnets: set<Network>, ips: set<Network>)
    requires Collected(nets, dict, subnets, ips) && IsHost(x)
    ensures Collected(nets + [x], dict[Key(x) := (if Key(x) in dict then dict[Key(x)] else []) + [x]], subnets, ips + {x})
  {
    DictStep(dict, nets, x, dict[Key(x) := (if Key(x) in dict then dict[Key(x)] else []) + [x]]);
    SetsStep(nets, x);
  }

  /** Adding a wider network to the explicit subnets keeps the first loop's state. */
  lemma CollectSubnet(nets: seq<Network>, x: Network, dict: map<nat, seq<Network>>, subnets: set<Network>, ips: set<Network>)
    requires Collected(nets, dict, subnets, ips) && !IsHost(x)
    ensures Collected(nets + [x], dict, subnets + {x}, ips)
  {
    DictStep(dict, nets, x, dict);
    SetsStep(nets, x);
  }

  lemma NetworksSnoc(entries: seq<string>, i: nat)
    requires forall e :: e in entries ==> WellFormed(e)
    requires i < |entries|
    ensures Networks(entries[..i + 1]) == Networks(entries[..i]) + [NetworkOf(entries[i])]
  {
    var a, b := Networks(entries[..i + 1]), Networks(entries[..i]) + [NetworkOf(entries[i])];
    assert |a| == |b|;
    forall j | 0 <= j < |a|
      ensures a[j] == b[j]
    {
      assert entries[..i + 1][j] == entries[j];
      assert a[j] == NetworkOf(entries[j]);
      if j < i {
        assert entries[..i][j] == entries[j];
        assert b[j] == Networks(entries[..i])[j];
      }
    }
  }

  lemma HostsStep(nets: seq<Network>, x: Network, k: nat)
    ensures HostsWithKey(nets + [x], k) == HostsWithKey(nets, k) + (if IsHost(x) && Key(x) == k then [x] else [])
  {
    assert (nets + [x])[..|nets|] == nets;
  }

  /** One append to `ip_dict` keeps it equal to the grouping of the entries seen so far. */
  lemma DictStep(before: map<nat, seq<Network>>, nets: seq<Network>, x: Network, after: map<nat, seq<Network>>)
    requires forall k :: k in before <==> HostsWithKey(nets, k) != []
    requires forall k :: k in before ==> before[k] == HostsWithKey(nets, k)
    requires after == if IsHost(x) then before[Key(x) := (if Key(x) in before then before[Key(x)] else []) + [x]] else before
    ensures forall k :: k in after <==> HostsWithKey(nets + [x], k) != []
    ensures forall k :: k in after ==> after[k] == HostsWithKey(nets + [x], k)
  {
    forall k
      ensures (k in after <==> HostsWithKey(nets + [x], k) != [])
      ensures k in after ==> after[k] == HostsWithKey(nets + [x], k)
    {
      HostsStep(nets, x, k);
    }
  }

  lemma SetsStep(nets: seq<Network>, x: Network)
    ensures (set s | s in nets + [x] && !IsHost(s)) == (set s | s in nets && !IsHost(s)) + (if IsHost(x) then {} else {x})
    ensures (set h | h in nets + [x] && IsHost(h)) == (set h | h in nets && IsHost(h)) + (if IsHost(x) then {x} else {})
  {
  }

  /** Second loop: `del ip_dict[key]` for the key of every explicit subnet. */
  method DropSuppressedKeys(ipDict: map<nat, seq<Network>>, existingSubnets: set<Network>)
    returns (kept: map<nat, seq<Network>>)
    ensures forall k :: k in kept <==> k in ipDict && !(exists s :: s in existingSubnets && Key(s) == k)
    ensures forall k :: k in kept ==> kept[k] == ipDict[k]
  {
    kept := ipDict;
    var pendingSubnets := existingSubnets;
    while pendingSubnets != {}
      invariant pendingSubnets <= existingSubnets
      invariant forall k :: k in kept <==>
        k in ipDict && !(exists s :: s in existingSubnets - pendingSubnets && Key(s) == k)
      invariant forall k :: k in kept ==> kept[k] == ipDict[k]
      decreases |pendingSubnets|
    {
      var subnet :| subnet in pendingSubnets;
      ghost var keptBefore, pendingBefore := kept, pendingSubnets;
      var firstThreeOctets := subnet.addr / 256;
      if firstThreeOctets in kept {
        kept := kept - {firstThreeOctets};
      }
      pendingSubnets := pendingSubnets - {subnet};
      forall k
        ensures k in kept <==> k in ipDict && !(exists s :: s in existingSubnets - pendingSubnets && Key(s) == k)
      {
        if Key(subnet) == k {
          assert subnet in existingSubnets - pendingSubnets;
        } else if exists s :: s in existingSubnets - pendingSubnets && Key(s) == k {
          var s :| s in existingSubnets - pendingSubnets && Key(s) == k;
          assert s in existingSubnets - pendingBefore;
        }
      }
    }
    assert existingSubnets - pendingSubnets == existingSubnets;
  }

  /**
    Third loop: every group of at least `threshold` hosts adds its /24 to the
    result and is removed from the individual hosts (`difference_update`).
   */
  method AggregateGroups(ipDict: map<nat, seq<Network>>, individualIps: set<Network>, threshold: int)
    returns (result: set<string>, remaining: set<Network>)
    requires forall k, h :: k in ipDict && h in ipDict[k] ==> Key(h) == k
    requires forall k, h :: k in ipDict && h in individualIps && Key(h) == k ==> h in ipDict[k]
    ensures result == set k | k in ipDict && threshold <= |ipDict[k]| :: ShowNetwork(Aggregate(k))
    ensures remaining == set h | h in individualIps && !(Key(h) in ipDict && threshold <= |ipDict[Key(h)]|)
  {
    result, remaining := {}, individualIps;
    var pendingKeys := ipDict.Keys;
    while pendingKeys != {}
      invariant Aggregating(ipDict, individualIps, threshold, pendingKeys, result, remaining)
      decreases |pendingKeys|
    {
      var octets :| octets in pendingKeys;
      var ips := ipDict[octets];
      AggregateStep(ipDict, individualIps, threshold, pendingKeys, octets, result, remaining);
      if |ips| >= threshold {
        result := result + {KeyText(octets) + ".0/24"};
        remaining := remaining - (set h | h in ips);
      }
      pendingKeys := pendingKeys - {octets};
    }
    AggregatedAll(ipDict, threshold, ShowNetwork);
  }

  /** Proof step: with no key left to visit, the loop has collected every aggregate. */
  lemma AggregatedAll(ipDict: map<nat, seq<Network>>, threshold: int, show: Network -> string)
    ensures (set k | k in ipDict && k !in {} && threshold <= |ipDict[k]| :: show(Aggregate(k))) ==
      set k | k in ipDict && threshold <= |ipDict[k]| :: show(Aggregate(k))
  {
  }

  /**
    The state of the third loop with the keys `pending` still to visit: the
    /24 entries of the large groups already visited, and the hosts not yet
    removed by one of them.
   */
  predicate Aggregating(ipDict: map<nat, seq<Network>>, individualIps: set<Network>, threshold: int,
                        pending: set<nat>, result: set<string>, remaining: set<Network>)
  {
    pending <= ipDict.Keys
    && result == (set k | k in ipDict && k !in pending && threshold <= |ipDict[k]| :: ShowNetwork(Aggregate(k)))
    && remaining == set h | h in individualIps && !(Key(h) in ipDict && Key(h) !in pending && threshold <= |ipDict[Key(h)]|)
  }

  /** Visiting the group `octets` adds its /24 and removes its hosts when it is large enough. */
  lemma AggregateStep(ipDict: map<nat, seq<Network>>, individualIps: set<Network>, threshold: int,
                      pending: set<nat>, octets: nat, result: set<string>, remaining: set<Network>)
    requires Aggregating(ipDict, individualIps, threshold, pending, result, remaining) && octets in pending
    requires forall k, h :: k in ipDict && h in ipDict[k] ==> Key(h) == k
    requires forall k, h :: k in ipDict && h in individualIps && Key(h) == k ==> h in ipDict[k]
    ensures threshold <= |ipDict[octets]| ==> Aggregating(ipDict, individualIps, threshold, pending - {octets},
      result + {KeyText(octets) + ".0/24"}, remaining - (set h | h in ipDict[octets]))
    ensures threshold > |ipDict[octets]| ==> Aggregating(ipDict, individualIps, threshold, pending - {octets}, result, remaining)
  {
    AggregateStepVia(ipDict, pending, octets, threshold, ShowNetwork);
    AggregateText(octets);
  }

  /** Proof step of `AggregateStep` on the /24 texts, for any printing `show`. */
  lemma AggregateStepVia(ipDict: map<nat, seq<Network>>, pending: set<nat>, octets: nat, threshold: int, show: Network -> string)
    requires octets in pending && pending <= ipDict.Keys
    ensures (set k | k in ipDict && k !in pending - {octets} && threshold <= |ipDict[k]| :: show(Aggregate(k))) ==
      (set k | k in ipDict && k !in pending && threshold <= |ipDict[k]| :: show(Aggregate(k)))
      + (if threshold <= |ipDict[octets]| then {show(Aggregate(octets))} else {})
  {
  }

  /** `group_ips_into_subnets(addresses, threshold)`. */
  method GroupIpsIntoSubnets(addresses: seq<string>, threshold: int) returns (grouped: seq<string>)
    requires forall e :: e in addresses ==> WellFormed(e)
    ensures Distinct(grouped)
    ensures (set x | x in grouped) == GroupedEntries(Networks(addresses), threshold)
  {
    ghost var nets := Networks(addresses);
    var ipDict, existingSubnets, individualIps := CollectEntries(addresses);
    var kept := DropSuppressedKeys(ipDict, existingSubnets);
    KeptGroups(nets, kept, existingSubnets, threshold);
    HostsWithKeyAll(nets);
    var result, remaining := AggregateGroups(kept, individualIps, threshold);
    result := result + (set s | s in existingSubnets :: ShowNetwork(s));
    result := result + (set h | h in remaining :: ShowNetwork(h));
    ResultIsGrouped(nets, threshold, kept, existingSubnets, remaining, result);
    grouped := ListOf(result);
  }

  lemma HostsWithKeyAll(nets: seq<Network>)
    ensures forall k, h :: h in HostsWithKey(nets, k) <==> h in nets && IsHost(h) && Key(h) == k
  {
    forall k
      ensures forall h :: h in HostsWithKey(nets, k) <==> h in nets && IsHost(h) && Key(h) == k
    {
      HostsWithKeyMembers(nets, k);
    }
  }

  /** After the second loop: a key survives exactly when its group is non-empty and not suppressed. */
  lemma KeptGroups(nets: seq<Network>, kept: map<nat, seq<Network>>, subnets: set<Network>, threshold: int)
    requires subnets == set s | s in nets && !IsHost(s)
    requires forall k :: k in kept <==> HostsWithKey(nets, k) != [] && !(exists s :: s in subnets && Key(s) == k)
    requires forall k :: k in kept ==> kept[k] == HostsWithKey(nets, k)
    ensures forall k :: (k in kept && threshold <= |kept[k]|) <==> Aggregates(nets, k, threshold)
  {
    forall k
      ensures (k in kept && threshold <= |kept[k]|) <==> Aggregates(nets, k, threshold)
    {
      if Suppressed(nets, k) {
        var s :| s in nets && !IsHost(s) && Key(s) == k;
        assert s in subnets;
      }
    }
  }

  lemma ResultIsGrouped(nets: seq<Network>, threshold: int, kept: map<nat, seq<Network>>,
                        subnets: set<Network>, remaining: set<Network>, result: set<string>)
    requires forall k :: (k in kept && threshold <= |kept[k]|) <==> Aggregates(nets, k, threshold)
    requires subnets == set s | s in nets && !IsHost(s)
    requires remaining == set h | h in (set h | h in nets && IsHost(h)) && !(Key(h) in kept && threshold <= |kept[Key(h)]|)
    requires result ==
      (set k | k in kept && threshold <= |kept[k]| :: ShowNetwork(Aggregate(k)))
      + (set s | s in subnets :: ShowNetwork(s))
      + (set h | h in remaining :: ShowNetwork(h))
    ensures result == GroupedEntries(nets, threshold)
  {
    ResultIsGroupedVia(nets, threshold, kept, subnets, remaining, result, ShowNetwork);
  }

  /** `ResultIsGrouped` for any way `show` of printing a network. */
  lemma ResultIsGroupedVia(nets: seq<Network>, threshold: int, kept: map<nat, seq<Network>>,
                           subnets: set<Network>, remaining: set<Network>, result: set<string>, show: Network -> string)
    requires forall k :: (k in kept && threshold <= |kept[k]|) <==> Aggregates(nets, k, threshold)
    requires subnets == set s | s in nets && !IsHost(s)
    requires remaining == set h | h in (set h | h in nets && IsHost(h)) && !(Key(h) in kept && threshold <= |kept[Key(h)]|)
    requires result ==
      (set k | k in kept && threshold <= |kept[k]| :: show(Aggregate(k)))
      + (set s | s in subnets :: show(s))
      + (set h | h in remaining :: show(h))
    ensures result == set n | n in GroupedNetworks(nets, threshold) :: show(n)
  {
    var g := GroupedNetworks(nets, threshold);
    forall x | x in result
      ensures x in set n | n in g :: show(n)
    {
      if k :| k in kept && threshold <= |kept[k]| && x == show(Aggregate(k)) {
        HostsWithKeyMembers(nets, k);
        var h := HostsWithKey(nets, k)[0];
        assert h in HostsWithKey(nets, k);
        assert Aggregate(Key(h)) in g;
      } else if s :| s in subnets && x == show(s) {
        assert s in g;
      } else {
        var h :| h in remaining && x == show(h);
        assert h in g;
      }
    }
    forall x | x in set n | n in g :: show(n)
      ensures x in result
    {
      var n :| n in g && x == show(n);
      if n in nets && !IsHost(n) {
        assert n in subnets;
      } else if h :| h in nets && IsHost(h) && Aggregates(nets, Key(h), threshold) && n == Aggregate(Key(h)) {
        assert Key(h) in kept;
      } else {
        assert n in remaining;
      }
    }
  }

  // Properties of the grouping result

  /** The /24 of a valid address's key is itself a valid network that contains the address. */
  lemma AggregateValid(h: Network)
    requires Valid(h)
    ensures Valid(Aggregate(Key(h)))
    ensures Aggregate(Key(h)).addr <= h.addr < Aggregate(Key(h)).addr + 256
  {
    Pow2Constants();
    MultipleMod(Key(h), 256);
    DivMod(h.addr, 256);
  }

  /** Every entry of the result is a valid network with its host bits zeroed. */
  lemma {:induction false} GroupedValid(nets: seq<Network>, threshold: int)
    requires forall n :: n in nets ==> Valid(n)
    ensures forall n :: n in GroupedNetworks(nets, threshold) ==> Valid(n)
  {
    forall h | h in nets
      ensures Valid(Aggregate(Key(h)))
    {
      AggregateValid(h);
    }
  }

  /**
    A group of at least `threshold` hosts, with no explicit subnet sharing its
    key, becomes exactly its /24: the /24 is in the result and none of the
    group's hosts (nor any other /32 with that key) is.
   */
  lemma DenseGroupAggregates(nets: seq<Network>, threshold: int, h: Network)
    requires h in nets && IsHost(h)
    requires threshold <= HostCount(nets, Key(h)) && !Suppressed(nets, Key(h))
    ensures Aggregate(Key(h)) in GroupedNetworks(nets, threshold)
    ensures forall n :: n in GroupedNetworks(nets, threshold) && Key(n) == Key(h) ==> n == Aggregate(Key(h))
  {
    HostsWithKeyMembers(nets, Key(h));
    assert h in HostsWithKey(nets, Key(h));
    assert Aggregates(nets, Key(h), threshold);
    forall g | g in nets && IsHost(g) && Aggregates(nets, Key(g), threshold)
      ensures Key(Aggregate(Key(g))) == Key(g)
    {
      KeyOfAggregate(Key(g));
    }
  }

  /**
    A group of fewer than `threshold` hosts keeps every host as a /32, and no
    /24 is made for it: a /24 with its key is in the result only when the
    input lists it.
   */
  lemma SparseGroupKeepsHosts(nets: seq<Network>, threshold: int, h: Network)
    requires h in nets && IsHost(h)
    requires HostCount(nets, Key(h)) < threshold
    ensures h in GroupedNetworks(nets, threshold)
    ensures Aggregate(Key(h)) in GroupedNetworks(nets, threshold) ==> Aggregate(Key(h)) in nets
  {
    NoAggregateUnlessListed(nets, threshold, Key(h));
  }

  /**
    An explicit subnet whose network address has the group's first three
    octets cancels the aggregation, whatever the count: the subnet is in the
    result and so is every host of the group.
   */
  lemma SuppressedGroupKeepsHosts(nets: seq<Network>, threshold: int, h: Network, s: Network)
    requires h in nets && IsHost(h)
    requires s in nets && !IsHost(s) && Key(s) == Key(h)
    ensures h in GroupedNetworks(nets, threshold) && s in GroupedNetworks(nets, threshold)
    ensures Aggregate(Key(h)) in GroupedNetworks(nets, threshold) ==> Aggregate(Key(h)) in nets
  {
    NoAggregateUnlessListed(nets, threshold, Key(h));
  }

  lemma NoAggregateUnlessListed(nets: seq<Network>, threshold: int, k: nat)
    requires !Aggregates(nets, k, threshold)
    ensures Aggregate(k) in GroupedNetworks(nets, threshold) ==> Aggregate(k) in nets
  {
    forall g | g in nets && IsHost(g) && Aggregates(nets, Key(g), threshold)
      ensures Aggregate(Key(g)) != Aggregate(k)
    {
      KeyOfAggregate(Key(g));
      KeyOfAggregate(k);
    }
  }

  lemma KeyOfAggregate(k: nat)
    ensures Key(Aggregate(k)) == k
  {
  }

  /**
    Every explicit subnet is kept (normalised, since it is a parsed network),
    and every result entry is an input subnet, an input host, or the /24 of
    an aggregated group.
   */
  lemma GroupedMembers(nets: seq<Network>, threshold: int)
    ensures forall s :: s in nets && !IsHost(s) ==> s in GroupedNetworks(nets, threshold)
    ensures forall n :: n in GroupedNetworks(nets, threshold) ==>
      n in nets || exists k :: Aggregates(nets, k, threshold) && n == Aggregate(k)
  {
    forall n | n in GroupedNetworks(nets, threshold) && n !in nets
      ensures exists k :: Aggregates(nets, k, threshold) && n == Aggregate(k)
    {
      var g :| g in nets && IsHost(g) && Aggregates(nets, Key(g), threshold) && n == Aggregate(Key(g));
    }
  }

  /** Hosts are counted with multiplicity: one more copy of a host adds one to its group. */
  lemma {:induction false} RepeatedHostCounts(nets: seq<Network>, h: Network)
    requires IsHost(h)
    ensures HostCount(nets + [h], Key(h)) == HostCount(nets, Key(h)) + 1
    ensures forall k :: k != Key(h) ==> HostCount(nets + [h], k) == HostCount(nets, k)
  {
    forall k
      ensures HostCount(nets + [h], k) == HostCount(nets, k) + (if k == Key(h) then 1 else 0)
    {
      HostsStep(nets, h, k);
    }
  }

  /**
    A bare address and the same address written with `/32` are the same
    network, so both spellings of a host count towards its group.
   */
  lemma BareAndHostSpellings(addr: nat)
    requires addr < AddressSpace
    ensures WellFormed(ShowAddress(addr)) && WellFormed(ShowAddress(addr) + "/32")
    ensures NetworkOf(ShowAddress(addr)) == NetworkOf(ShowAddress(addr) + "/32") == Network(addr, 32)
  {
    NoSlashInShowAddress(addr);
    assert ShowNat(32) == "32" by {
      assert ShowNat(3) == "3";
    }
    assert ShowAddress(addr) + "/32" == ShowNetwork(Network(addr, 32));
    assert AsCidr(ShowAddress(addr) + "/32") == ShowAddress(addr) + "/32";
    Pow2Constants();
    ParseShowNetwork(Network(addr, 32));
  }

  /** Three hosts of one /24, at offsets 1, 2 and 3, aggregate at threshold 3 but not at 4. */
  lemma ThreeHostsGroup(k: nat)
    ensures var nets := [Network(256 * k + 1, 32), Network(256 * k + 2, 32), Network(256 * k + 3, 32)];
      GroupedNetworks(nets, 3) == {Aggregate(k)} && GroupedNetworks(nets, 4) == {nets[0], nets[1], nets[2]}
  {
    var nets := [Network(256 * k + 1, 32), Network(256 * k + 2, 32), Network(256 * k + 3, 32)];
    ThreeHostsKey(k);
    assert HostsWithKey(nets[..1], k) == nets[..1];
    assert HostsWithKey(nets[..2], k) == nets[..2];
    assert HostsWithKey(nets, k) == nets;
    assert Aggregates(nets, k, 3) && !Aggregates(nets, k, 4);
    OneGroup(nets, k, 3);
    OneGroup(nets, k, 4);
    assert (set h | h in nets) == {nets[0], nets[1], nets[2]};
  }

  lemma ThreeHostsKey(k: nat)
    ensures Key(Network(256 * k + 1, 32)) == k && Key(Network(256 * k + 2, 32)) == k && Key(Network(256 * k + 3, 32)) == k
  {
    HostKey(k, 1);
    HostKey(k, 2);
    HostKey(k, 3);
  }

  lemma HostKey(k: nat, d: nat)
    requires d < 256
    ensures Key(Network(256 * k + d, 32)) == k
  {
  }

  /** Input made only of hosts of one group gives either that group's /24 or the hosts themselves. */
  lemma OneGroup(nets: seq<Network>, k: nat, threshold: int)
    requires forall h :: h in nets ==> IsHost(h) && Key(h) == k
    requires nets != []
    ensures Aggregates(nets, k, threshold) ==> GroupedNetworks(nets, threshold) == {Aggregate(k)}
    ensures !Aggregates(nets, k, threshold) ==> GroupedNetworks(nets, threshold) == set h | h in nets
  {
    assert nets[0] in nets;
  }

  /**
    Only a subnet whose own network address has the group's first three
    octets cancels the group: a /16 that contains three hosts of one /24
    (not its first /24) leaves them aggregated, and both the /16 and the /24
    are in the result.
   */
  lemma WiderSubnetDoesNotSuppress(k: nat)
    requires k % 256 != 0
    ensures var wide := Network(65536 * (k / 256), 16);
      var nets := [Network(256 * k + 1, 32), Network(256 * k + 2, 32), Network(256 * k + 3, 32), wide];
      wide.addr <= 256 * k && 256 * k + 255 < wide.addr + 65536
      && wide in GroupedNetworks(nets, 3) && Aggregate(k) in GroupedNetworks(nets, 3)
  {
    var wide := Network(65536 * (k / 256), 16);
    var hosts := [Network(256 * k + 1, 32), Network(256 * k + 2, 32), Network(256 * k + 3, 32)];
    var nets := [hosts[0], hosts[1], hosts[2], wide];
    assert nets == hosts + [wide];
    DivMod(k, 256);
    assert Key(wide) == 256 * (k / 256);
    ThreeHostsKey(k);
    assert HostsWithKey(hosts[..1], k) == hosts[..1];
    assert HostsWithKey(hosts[..2], k) == hosts[..2];
    assert HostsWithKey(hosts, k) == hosts;
    assert nets[..|nets| - 1] == hosts;
    assert HostsWithKey(nets, k) == hosts;
    assert !Suppressed(nets, k);
    assert nets[0] in nets && IsHost(nets[0]) && Aggregates(nets, Key(nets[0]), 3);
    assert wide in nets && !IsHost(wide);
    assert 256 * k == 65536 * (k / 256) + 256 * (k % 256);
  }

  lemma ExampleKeyText()
    ensures KeyText(0x01_0203) == "1.2.3"
  {
    assert ShowNat(1) == "1" && ShowNat(2) == "2" && ShowNat(3) == "3";
  }

  lemma ExampleAddressText(d: nat)
    requires d < 256
    ensures ShowAddress(256 * 0x01_0203 + d) == "1.2.3." + ShowNat(d)
  {
    var a := 256 * 0x01_0203 + d;
    ExampleKeyText();
    assert a / 256 == 0x01_0203 && a % 256 == d;
  }

  lemma HostNetworkText(a: nat)
    ensures ShowNetwork(Network(a, 32)) == ShowAddress(a) + "/32"
  {
    assert ShowNat(32) == "32" by {
      assert ShowNat(3) == "3";
    }
  }

  lemma ExampleHostText(d: nat)
    requires d < 256
    ensures ShowAddress(256 * 0x01_0203 + d) == "1.2.3." + ShowNat(d)
    ensures ShowNetwork(Network(256 * 0x01_0203 + d, 32)) == "1.2.3." + ShowNat(d) + "/32"
    ensures WellFormed("1.2.3." + ShowNat(d))
    ensures NetworkOf("1.2.3." + ShowNat(d)) == Network(256 * 0x01_0203 + d, 32)
  {
    var a := 256 * 0x01_0203 + d;
    ExampleAddressText(d);
    HostNetworkText(a);
    BareAndHostSpellings(a);
  }

  lemma ExampleLine(d: nat, line: string)
    requires 1 <= d <= 3 && line == "1.2.3." + [DigitChar(d)]
    ensures WellFormed(line) && NetworkOf(line) == Network(256 * 0x01_0203 + d, 32)
    ensures ShowNetwork(NetworkOf(line)) == line + "/32"
  {
    assert ShowNat(d) == [DigitChar(d)];
    ExampleHostText(d);
  }

  /** The lines `1.2.3.1`, `1.2.3.2` and `1.2.3.3`, in that order. */
  predicate ExampleLines(lines: seq<string>)
  {
    |lines| == 3 && forall i :: 0 <= i < 3 ==> lines[i] == "1.2.3." + [DigitChar(i + 1)]
  }

  /** The example's input lines are the three hosts of 1.2.3.0/24. */
  lemma ThreeHostsLines(lines: seq<string>)
    requires ExampleLines(lines)
    ensures forall e :: e in lines ==> WellFormed(e)
    ensures Networks(lines) ==
      [Network(256 * 0x01_0203 + 1, 32), Network(256 * 0x01_0203 + 2, 32), Network(256 * 0x01_0203 + 3, 32)]
  {
    ExampleLine(1, lines[0]);
    ExampleLine(2, lines[1]);
    ExampleLine(3, lines[2]);
    ThreeWellFormed(lines);
    NetworksOfThree(lines, Network(256 * 0x01_0203 + 1, 32), Network(256 * 0x01_0203 + 2, 32), Network(256 * 0x01_0203 + 3, 32));
  }

  lemma NetworksOfThree(lines: seq<string>, a: Network, b: Network, c: Network)
    requires |lines| == 3 && forall e :: e in lines ==> WellFormed(e)
    requires NetworkOf(lines[0]) == a && NetworkOf(lines[1]) == b && NetworkOf(lines[2]) == c
    ensures Networks(lines) == [a, b, c]
  {
    var nets := Networks(lines);
    assert nets[0] == a && nets[1] == b && nets[2] == c;
    SeqOfThree(nets, a, b, c);
  }

  lemma ThreeWellFormed(lines: seq<string>)
    requires |lines| == 3 && WellFormed(lines[0]) && WellFormed(lines[1]) && WellFormed(lines[2])
    ensures forall e :: e in lines ==> WellFormed(e)
  {
    AllOfThree(lines, WellFormed);
  }

  lemma ExampleAggregateText()
    ensures ShowNetwork(Aggregate(0x01_0203)) == "1.2.3.0/24"
  {
    ExampleKeyText();
    AggregateText(0x01_0203);
    assert ShowNat(0) == "0";
  }

  /** Input lines 1.2.3.1, 1.2.3.2 and 1.2.3.3 give the single entry 1.2.3.0/24 at threshold 3. */
  lemma ThreeHostsAggregated(lines: seq<string>)
    requires ExampleLines(lines)
    ensures forall e :: e in lines ==> WellFormed(e)
    ensures GroupedEntries(Networks(lines), 3) == {"1.2.3.0/24"}
  {
    var k := 0x01_0203;
    ThreeHostsLines(lines);
    ThreeHostsGroup(k);
    var nets := Networks(lines);
    assert nets == [Network(256 * k + 1, 32), Network(256 * k + 2, 32), Network(256 * k + 3, 32)];
    assert GroupedNetworks(nets, 3) == {Aggregate(k)};
    ExampleAggregateText();
    ShownOne(nets, 3, Aggregate(k), "1.2.3.0/24");
  }

  /** Proof step: printing a grouping result of one network. */
  lemma ShownOne(nets: seq<Network>, threshold: int, a: Network, x: string)
    requires GroupedNetworks(nets, threshold) == {a} && ShowNetwork(a) == x
    ensures GroupedEntries(nets, threshold) == {x}
  {
  }

  /** The same lines stay three /32 entries at threshold 4. */
  lemma ThreeHostsKept(lines: seq<string>)
    requires ExampleLines(lines)
    ensures forall e :: e in lines ==> WellFormed(e)
    ensures GroupedEntries(Networks(lines), 4) == {lines[0] + "/32", lines[1] + "/32", lines[2] + "/32"}
  {
    var k := 0x01_0203;
    var h1, h2, h3 := Network(256 * k + 1, 32), Network(256 * k + 2, 32), Network(256 * k + 3, 32);
    ThreeHostsLines(lines);
    ThreeHostsGroup(k);
    ExampleLine(1, lines[0]);
    ExampleLine(2, lines[1]);
    ExampleLine(3, lines[2]);
    var nets := Networks(lines);
    assert nets == [h1, h2, h3];
    assert GroupedNetworks(nets, 4) == {h1, h2, h3};
    ShownThree(nets, 4, h1, h2, h3, lines[0] + "/32", lines[1] + "/32", lines[2] + "/32");
  }

  /** Proof step: printing a grouping result of three networks. */
  lemma ShownThree(nets: seq<Network>, threshold: int, a: Network, b: Network, c: Network, x: string, y: string, z: string)
    requires GroupedNetworks(nets, threshold) == {a, b, c}
    requires ShowNetwork(a) == x && ShowNetwork(b) == y && ShowNetwork(c) == z
    ensures GroupedEntries(nets, threshold) == {x, y, z}
  {
  }

}
