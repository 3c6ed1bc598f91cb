/** Filtering, deduplicating and capping the answer of the resolver. */
module DnsFilter {
  import opened Sequences
  import opened Evidence

  const MAX_ADDRESSES: nat := 32

  datatype DnsResult = DnsResult(status: Status, addresses: seq<Address>, truncated: bool)

  predicate Selected(a: Address, ipv4Only: bool, ipv6Only: bool) {
    !(ipv4Only && !a.ip.V4?) && !(ipv6Only && !a.ip.V6?)
  }

  /** The resolved addresses of the requested family, in order. */
  function Matching(resolved: seq<Address>, ipv4Only: bool, ipv6Only: bool): seq<Address> {
    if resolved == [] then []
    else
      var last := resolved[|resolved| - 1];
      Matching(resolved[..|resolved| - 1], ipv4Only, ipv6Only)
      + if Selected(last, ipv4Only, ipv6Only) then [last] else []
  }

  /** The distinct ones among them, in the order of first occurrence. */
  function Usable(resolved: seq<Address>, ipv4Only: bool, ipv6Only: bool): seq<Address> {
    FirstOccurrences([], Matching(resolved, ipv4Only, ipv6Only))
  }

  lemma UsableNext(resolved: seq<Address>, i: nat, ipv4Only: bool, ipv6Only: bool)
    requires i < |resolved|
    ensures var before, a := Usable(resolved[..i], ipv4Only, ipv6Only), resolved[i];
            Usable(resolved[..i + 1], ipv4Only, ipv6Only) ==
            if Selected(a, ipv4Only, ipv6Only) && a !in before then before + [a] else before
  {
    hide FirstOccurrences;
    assert resolved[..i + 1][..i] == resolved[..i];
    var m := Matching(resolved[..i], ipv4Only, ipv6Only);
    FirstOccurrencesNext([], m, resolved[i]);
    assert m + [] == m;
  }

  lemma {:induction false} UsableGrows(resolved: seq<Address>, i: nat, ipv4Only: bool, ipv6Only: bool)
    requires i <= |resolved|
    ensures Usable(resolved[..i], ipv4Only, ipv6Only) <= Usable(resolved, ipv4Only, ipv6Only)
    decreases |resolved| - i
  {
    hide Usable;
    if i < |resolved| {
      UsableNext(resolved, i, ipv4Only, ipv6Only);
      UsableGrows(resolved, i + 1, ipv4Only, ipv6Only);
    } else {
      assert resolved[..i] == resolved;
    }
  }

  /** Usable addresses are distinct, and exactly the resolved ones of the requested family. */
  lemma {:induction false} UsableExact(resolved: seq<Address>, ipv4Only: bool, ipv6Only: bool)
    ensures Distinct(Usable(resolved, ipv4Only, ipv6Only))
    ensures forall a :: a in Usable(resolved, ipv4Only, ipv6Only) <==> a in resolved && Selected(a, ipv4Only, ipv6Only)
    decreases |resolved|
  {
    FirstOccurrencesDistinct([], Matching(resolved, ipv4Only, ipv6Only));
    if resolved != [] {
      var before := resolved[..|resolved| - 1];
      UsableExact(before, ipv4Only, ipv6Only);
      assert resolved == before + [resolved[|resolved| - 1]];
    }
  }

  /** The loop stops at the thirty-third distinct address. */
  method Resolved(resolved: seq<Address>, ipv4Only: bool, ipv6Only: bool) returns (result: DnsResult)
    ensures result.addresses == Take(Usable(resolved, ipv4Only, ipv6Only), MAX_ADDRESSES)
    ensures result.truncated <==> |Usable(resolved, ipv4Only, ipv6Only)| > 32
    ensures result.status == Pass || result.status == Fail
    ensures result.status == Fail <==> forall a :: a in resolved ==> !Selected(a, ipv4Only, ipv6Only)
    ensures Distinct(result.addresses)
  {
    hide Usable;
    var seen: set<Address> := {};
    var addresses: seq<Address> := [];
    var truncated := false;
    NothingUsable(ipv4Only, ipv6Only);
    for i := 0 to |resolved|
      invariant !truncated && addresses == Usable(resolved[..i], ipv4Only, ipv6Only) && |addresses| <= MAX_ADDRESSES
      invariant forall a :: a in seen <==> a in addresses
    {
      UsableNext(resolved, i, ipv4Only, ipv6Only);
      var a := resolved[i];
      if (ipv4Only && !a.ip.V4?) || (ipv6Only && !a.ip.V6?) || a in seen {
        continue;
      }
      seen := seen + {a};
      if |addresses| == MAX_ADDRESSES {
        truncated := true;
        UsableGrows(resolved, i + 1, ipv4Only, ipv6Only);
        break;
      }
      addresses := addresses + [a];
    }
    assert !truncated ==> resolved[..|resolved|] == resolved;
    UsableExact(resolved, ipv4Only, ipv6Only);
    result := DnsResult(if addresses == [] then Fail else Pass, addresses, truncated);
    assert addresses == [] ==> Usable(resolved, ipv4Only, ipv6Only) == [];
    if addresses != [] {
      assert addresses[0] == Usable(resolved, ipv4Only, ipv6Only)[0];
      assert addresses[0] in Usable(resolved, ipv4Only, ipv6Only);
    }
  }

  lemma NothingUsable(ipv4Only: bool, ipv6Only: bool)
    ensures Usable([], ipv4Only, ipv6Only) == []
  {
  }
}
