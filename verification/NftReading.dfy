/** What the JSON of an nftables listing says, place by place. */
module NftReading {
  import opened Wrappers
  import opened Text
  import opened Json
  import opened Evidence
  import opened Nftables
  import opened NftSoundness

  /** A key that is not an array index. */
  predicate IsName(key: string) {
    key != "" && !IsDigit(key[0])
  }

  lemma {:induction false} NothingBelow(at: Path)
    ensures Find(None, at) == None
  {
    if at != [] { NothingBelow(at[1..]); }
  }

  lemma {:induction false} FindMember(v: Json, key: string)
    requires IsName(key)
    ensures Find(Some(v), [key]) == Member(v, key)
  {
    assert [key][1..] == [];
  }

  lemma {:induction false} FindBelow(v: Json, key: string, rest: Path)
    requires IsName(key)
    ensures Find(Some(v), [key] + rest) == Find(Member(v, key), rest)
  {
    assert ([key] + rest)[1..] == rest;
  }

  predicate TextAt(v: Json, at: Path, text: string) {
    Find(Some(v), at) == Some(Str(text))
  }

  /** The match compares a payload field for equality. */
  predicate ComparesPayload(m: Json, protocol: string, field: string) {
    && TextAt(m, ["op"], "==")
    && TextAt(m, ["left", "payload", "protocol"], protocol) && TextAt(m, ["left", "payload", "field"], field)
  }

  /** The match compares the name of the outgoing interface for equality. */
  predicate ComparesInterface(m: Json) {
    && TextAt(m, ["op"], "==")
    && Find(Some(m), ["left", "payload"]) == None && TextAt(m, ["left", "meta", "key"], "oifname")
  }

  lemma {:induction false} PlacesOf(m: Json)
    ensures Find(Some(m), ["op"]) == Member(m, "op") && Find(Some(m), ["right"]) == Member(m, "right")
    ensures forall rest :: Find(Some(m), ["left", "payload"] + rest) == Find(PayloadIn(m), rest)
    ensures Find(Some(m), ["left", "meta", "key"]) == MetaKeyIn(m)
  {
    FindMember(m, "op");
    FindMember(m, "right");
    forall rest ensures Find(Some(m), ["left", "payload"] + rest) == Find(PayloadIn(m), rest) {
      assert ["left"] + (["payload"] + rest) == ["left", "payload"] + rest;
      FindBelow(m, "left", ["payload"] + rest);
      NothingBelow(["payload"] + rest);
      NothingBelow(rest);
      if Member(m, "left").Some? { FindBelow(Member(m, "left").value, "payload", rest); }
    }
    MetaKeyPlace(m);
  }

  function PayloadIn(m: Json): Option<Json> {
    var left := Member(m, "left");
    if left.Some? then Member(left.value, "payload") else None
  }

  function MetaKeyIn(m: Json): Option<Json> {
    var left := Member(m, "left");
    var meta := if left.Some? then Member(left.value, "meta") else None;
    if meta.Some? then Member(meta.value, "key") else None
  }

  lemma {:induction false} MetaKeyPlace(m: Json)
    ensures Find(Some(m), ["left", "meta", "key"]) == MetaKeyIn(m)
  {
    FindBelow(m, "left", ["meta", "key"]);
    NothingBelow(["meta", "key"]);
    NothingBelow(["key"]);
    assert ["left"] + ["meta", "key"] == ["left", "meta", "key"] && ["meta"] + ["key"] == ["meta", "key"];
    if Member(m, "left").Some? {
      var left := Member(m, "left").value;
      FindBelow(left, "meta", ["key"]);
      if Member(left, "meta").Some? { FindMember(Member(left, "meta").value, "key"); }
    }
  }

  lemma {:induction false} PayloadPlaces(m: Json)
    ensures Find(Some(m), ["left", "payload"]) == PayloadIn(m)
    ensures Find(Some(m), ["left", "payload", "protocol"]) ==
            (if PayloadIn(m).Some? then Member(PayloadIn(m).value, "protocol") else None)
    ensures Find(Some(m), ["left", "payload", "field"]) ==
            (if PayloadIn(m).Some? then Member(PayloadIn(m).value, "field") else None)
  {
    hide PayloadIn;
    PlacesOf(m);
    var here: Path := [];
    assert ["left", "payload"] + here == ["left", "payload"] && Find(PayloadIn(m), here) == PayloadIn(m);
    assert ["left", "payload"] + ["protocol"] == ["left", "payload", "protocol"];
    assert ["left", "payload"] + ["field"] == ["left", "payload", "field"];
    NothingBelow(["protocol"]);
    NothingBelow(["field"]);
    if PayloadIn(m).Some? {
      FindMember(PayloadIn(m).value, "protocol");
      FindMember(PayloadIn(m).value, "field");
    }
  }

  /** A TCP port: the payload field `tcp dport` and a number below 65536. */
  lemma {:induction false} ReadsTcpPort(m: Json, port: nat, parseIp: string -> Option<Ip>)
    ensures Read(m, parseIp) == ToTcpPort(port) <==>
            ComparesPayload(m, "tcp", "dport") && Find(Some(m), ["right"]) == Some(Num(PosInt(port))) && port < 65536
  {
    hide Find, Member;
    PlacesOf(m);
    PayloadPlaces(m);
  }

  /** An address: the payload field `ip daddr` or `ip6 daddr`, by the family of the address, and its text. */
  lemma ReadsAddress(m: Json, ip: Ip, parseIp: string -> Option<Ip>)
    ensures Read(m, parseIp) == ToAddress(ip) <==>
            && ComparesPayload(m, if ip.V4? then "ip" else "ip6", "daddr")
            && exists text :: TextAt(m, ["right"], text) && parseIp(text) == Some(ip)
  {
    hide Find, Member;
    PlacesOf(m);
    PayloadPlaces(m);
  }

  /** An interface: the meta key `oifname`, with no payload beside it, and a text. */
  lemma ReadsInterface(m: Json, name: string, parseIp: string -> Option<Ip>)
    ensures Read(m, parseIp) == ViaInterface(name) <==> ComparesInterface(m) && TextAt(m, ["right"], name)
  {
    hide Find, Member;
    PlacesOf(m);
    PayloadPlaces(m);
  }

  predicate AsksUdpPort(m: Json) {
    && ComparesPayload(m, "udp", "dport")
    && exists port :: 0 <= port < 65536 && Find(Some(m), ["right"]) == Some(Num(PosInt(port)))
  }

  predicate AsksOtherFamily(m: Json, ip: Ip) {
    ComparesPayload(m, if ip.V4? then "ip6" else "ip", "daddr")
  }

  lemma UdpPortIsNever(m: Json, parseIp: string -> Option<Ip>)
    requires AsksUdpPort(m)
    ensures Read(m, parseIp) == Never
  {
    hide Find, Member;
    PlacesOf(m);
    PayloadPlaces(m);
  }

  lemma OtherFamilyIsNever(m: Json, text: string, ip: Ip, parseIp: string -> Option<Ip>)
    requires TextAt(m, ["right"], text) && parseIp(text) == Some(ip) && AsksOtherFamily(m, ip)
    ensures Read(m, parseIp) == Never
  {
    hide Find, Member;
    PlacesOf(m);
    PayloadPlaces(m);
  }

  lemma NeverIsAsked(m: Json, parseIp: string -> Option<Ip>)
    requires Read(m, parseIp) == Never
    ensures AsksUdpPort(m) || exists text, ip :: TextAt(m, ["right"], text) && parseIp(text) == Some(ip)
                                                 && AsksOtherFamily(m, ip)
  {
    hide Find, Member;
    PlacesOf(m);
    PayloadPlaces(m);
    var right := Member(m, "right").value;
    if right.Str? {
      var ip := parseIp(right.s).value;
      assert TextAt(m, ["right"], right.s) && AsksOtherFamily(m, ip);
    }
  }

  /** What no probe can meet: a UDP port, or an address of the other family. */
  lemma ReadsNever(m: Json, parseIp: string -> Option<Ip>)
    ensures Read(m, parseIp) == Never <==>
            || AsksUdpPort(m)
            || exists text, ip ::
                 TextAt(m, ["right"], text) && parseIp(text) == Some(ip) && AsksOtherFamily(m, ip)
  {
    hide AsksUdpPort, AsksOtherFamily, Read, TextAt;
    if Read(m, parseIp) == Never { NeverIsAsked(m, parseIp); }
    if AsksUdpPort(m) { UdpPortIsNever(m, parseIp); }
    forall text, ip | TextAt(m, ["right"], text) && parseIp(text) == Some(ip) && AsksOtherFamily(m, ip)
      ensures Read(m, parseIp) == Never
    {
      OtherFamilyIsNever(m, text, ip, parseIp);
    }
  }

  // ----- Families and chains -------------------------------------------------------------

  /** The family applies for certain to some address, whatever is not understood. */
  ghost predicate CertainFor(family: string, a: Address) {
    forall name: string, v: Valuation :: FamilyHolds(family, Flow(a, name), v)
  }

  ghost predicate ImpossibleFor(family: string, a: Address) {
    forall name: string, v: Valuation :: !FamilyHolds(family, Flow(a, name), v)
  }

  lemma FamilyCertain(family: string, a: Address)
    ensures CertainFor(family, a) <==> family == "inet" || (family == "ip" && a.ip.V4?) || (family == "ip6" && a.ip.V6?)
    ensures ImpossibleFor(family, a) <==> (family == "ip" && a.ip.V6?) || (family == "ip6" && a.ip.V4?)
  {
    var all: Valuation, none: Valuation := (_, _) => true, (_, _) => false;
    var f := Flow(a, "");
    assert FamilyHolds(family, f, none) ==> CertainFor(family, a);
    assert !FamilyHolds(family, f, all) ==> ImpossibleFor(family, a);
    assert CertainFor(family, a) ==> FamilyHolds(family, f, none);
    assert ImpossibleFor(family, a) ==> !FamilyHolds(family, f, all);
  }

  /** A family applies exactly if it does for certain to some address, and not at all if it can to none. */
  lemma FamilyMeans(family: string, addresses: seq<Address>)
    ensures FamilyApplicability(family, addresses) == Exact <==> exists a :: a in addresses && CertainFor(family, a)
    ensures FamilyApplicability(family, addresses) == No <==> forall a :: a in addresses ==> ImpossibleFor(family, a)
  {
    hide CertainFor, ImpossibleFor;
    forall a ensures CertainFor(family, a) <==>
                       family == "inet" || (family == "ip" && a.ip.V4?) || (family == "ip6" && a.ip.V6?)
             ensures ImpossibleFor(family, a) <==> (family == "ip" && a.ip.V6?) || (family == "ip6" && a.ip.V4?)
    {
      FamilyCertain(family, a);
    }
    assert addresses != [] ==> addresses[0] in addresses;
  }

  /** A named string, made safe for the report, or the word for its absence. */
  predicate Named(v: Json, key: string, name: string) {
    if Find(Some(v), [key]).Some? && Find(Some(v), [key]).value.Str? then name == Sanitize(Find(Some(v), [key]).value.s)
    else name == "unknown"
  }

  /** A relevant base chain is declared by an entry whose chain hooks into output or postrouting. */
  lemma {:induction false} DeclaresIff(entry: Json, key: string)
    ensures Declares(entry) == Some(key) <==>
            && (TextAt(entry, ["chain", "hook"], "output") || TextAt(entry, ["chain", "hook"], "postrouting"))
            && exists chain, family, table, name ::
                 && Find(Some(entry), ["chain"]) == Some(chain)
                 && Named(chain, "family", family) && Named(chain, "table", table) && Named(chain, "name", name)
                 && key == family + "/" + table + "/" + name
  {
    hide Find, Named;
    FindMember(entry, "chain");
    FindBelow(entry, "chain", ["hook"]);
    assert ["chain"] + ["hook"] == ["chain", "hook"];
    NothingBelow(["hook"]);
    if Member(entry, "chain").Some? {
      var chain := Member(entry, "chain").value;
      FindMember(chain, "hook");
      NameIs(chain, "family");
      NameIs(chain, "table");
      NameIs(chain, "name");
      hide NameIn, Member;
    }
  }

  lemma NameIs(v: Json, key: string)
    requires IsName(key)
    ensures forall name :: Named(v, key, name) <==> name == NameIn(v, key)
  {
    FindMember(v, key);
  }

  /** A rule is what is not a chain. */
  lemma {:induction false} RuleIff(entry: Json)
    ensures IsRule(entry) <==> Find(Some(entry), ["chain"]) == None && Find(Some(entry), ["rule"]).Some?
  {
    FindMember(entry, "chain");
    FindMember(entry, "rule");
  }
}
