/** `validate_ip_addresses`: keep the lines whose text before the first `/` is an IP address. */
module Validation {
  import opened Wrappers
  import opened PyStr
  import opened Ipv4

  /** `ipaddress.ip_address(s)` succeeds (IPv4 dotted quads only in this model). */
  predicate IsIpAddress(s: string)
  {
    ParseAddress(s).Some?
  }

  /** The test the loop applies: `ip_address(entry.split("/")[0])` does not raise. */
  predicate Accepted(entry: string)
  {
    IsIpAddress(BeforeFirst(entry, '/'))
  }

  /** The entries `keep` holds for, in their original order. */
  function Filter(entries: seq<string>, keep: string -> bool): seq<string>
  {
    if entries == [] then []
    else
      var init, last := entries[..|entries| - 1], entries[|entries| - 1];
      Filter(init, keep) + (if keep(last) then [last] else [])
  }

  /** Reference definition: the accepted entries, in their original order. */
  function AcceptedOnly(entries: seq<string>): seq<string>
  {
    Filter(entries, Accepted)
  }

  /** The loop of `validate_ip_addresses`, appending each accepted entry to `valid`. */
  method ValidateIpAddresses(addresses: seq<string>) returns (valid: seq<string>)
    ensures valid == AcceptedOnly(addresses)
    ensures forall x :: x in valid <==> x in addresses && Accepted(x)
  {
    valid := [];
    var i := 0;
    while i < |addresses|
      invariant 0 <= i <= |addresses|
      invariant valid == AcceptedOnly(addresses[..i])
    {
      var ip := addresses[i];
      if IsIpAddress(BeforeFirst(ip, '/')) {
        valid := valid + [ip];
      }
      assert addresses[..i + 1][..i] == addresses[..i];
      i := i + 1;
    }
    assert addresses[..i] == addresses;
    AcceptedOnlyMembers(addresses);
  }

  /** An entry survives validation exactly when it was in the input and is accepted. */
  lemma AcceptedOnlyMembers(entries: seq<string>)
    ensures forall x :: x in AcceptedOnly(entries) <==> x in entries && Accepted(x)
  {
    FilterMembers(entries, Accepted);
  }

  lemma {:induction false} FilterMembers(entries: seq<string>, keep: string -> bool)
    ensures forall x :: x in Filter(entries, keep) <==> x in entries && keep(x)
  {
    if entries != [] {
      var init := entries[..|entries| - 1];
      FilterMembers(init, keep);
      assert entries == init + [entries[|entries| - 1]];
    }
  }

  /** Validation keeps each accepted string as often as the input holds it, and drops the rest. */
  lemma AcceptedOnlyCounts(entries: seq<string>, x: string)
    ensures multiset(AcceptedOnly(entries))[x] == if Accepted(x) then multiset(entries)[x] else 0
  {
    FilterCounts(entries, Accepted, x);
  }

  lemma {:induction false} FilterCounts(entries: seq<string>, keep: string -> bool, x: string)
    ensures multiset(Filter(entries, keep))[x] == if keep(x) then multiset(entries)[x] else 0
  {
    if entries != [] {
      var init := entries[..|entries| - 1];
      FilterCounts(init, keep, x);
      assert entries == init + [entries[|entries| - 1]];
    }
  }

  /**
    Only the part before the `/` is checked: an address followed by `/99`
    passes validation although `ip_network` rejects its prefix.
   */
  lemma SuffixNotChecked(addr: nat)
    requires addr < AddressSpace
    ensures Accepted(ShowAddress(addr) + "/99")
    ensures ParseNetwork(ShowAddress(addr) + "/99") == None
  {
    var text := ShowAddress(addr);
    ParseShowAddress(addr);
    NoSlashInShowAddress(addr);
    assert text + "/99" == text + ['/'] + "99";
    SplitJoin(text, '/', "99");
    SplitNoSep("99", '/');
    assert DigitsValue("99") == 99;
  }
}
