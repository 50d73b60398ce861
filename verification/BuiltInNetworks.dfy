/** The networks that the libraries for Bitcoin Cash and Reddcoin register when they are
    loaded.  The former meet what parsing of addresses without a prefix relies on, and removing
    the testnet of either shows that removal does not keep the index in step with the list. */
module BuiltInNetworks {
  import opened Wrappers
  import opened Text
  import opened NetworkRegistry
  import CashAddress

  /** The same function in every network, filed under its text. */
  const IS := Fun("function is(str) {\n  return this.name == str || this.alias == str;\n}")

  const LIVENET: Fields := map[
    "name" := Str("livenet"), "alias" := Str("mainnet"), "is" := IS, "prefix" := Str("bitcoincash"),
    "pubkeyhash" := Num(28), "privatekey" := Num(0x80), "scripthash" := Num(40),
    "xpubkey" := Num(0x0488b21e), "xprivkey" := Num(0x0488ade4), "port" := Num(8333)]

  const TESTNET: Fields := map[
    "name" := Str("testnet"), "alias" := Str("testnet"), "is" := IS, "prefix" := Str("bchtest"),
    "pubkeyhash" := Num(0x6f), "privatekey" := Num(0xef), "scripthash" := Num(0xc4),
    "xpubkey" := Num(0x043587cf), "xprivkey" := Num(0x04358394)]

  const TESTNET_VARIANTS: seq<NetworkData> := [
    Variant("testnet3", 18333), Variant("testnet4", 28333), Variant("scalenet", 38333), Variant("chipnet", 48333)]

  const REGTEST: Fields := map[
    "name" := Str("regtest"), "is" := IS, "prefix" := Str("bchreg"),
    "pubkeyhash" := Num(0x6f), "privatekey" := Num(0xef), "scripthash" := Num(0xc4),
    "xpubkey" := Num(0x043587cf), "xprivkey" := Num(0x04358394), "port" := Num(18444)]

  function Variant(name: string, port: nat): NetworkData {
    NetworkData(map["name" := Str(name), "port" := Num(port)], [])
  }

  const REDD_LIVENET: Fields := map[
    "name" := Str("livenet"), "alias" := Str("mainnet"), "is" := IS, "bech32prefix" := Str("rdd"),
    "pubkeyhash" := Num(0x3d), "privatekey" := Num(0xbd), "scripthash" := Num(0x05),
    "xpubkey" := Num(0x0488b21e), "xprivkey" := Num(0x0488ade4), "port" := Num(45444)]

  const REDD_TESTNET: Fields := map[
    "name" := Str("testnet"), "alias" := Str("testnet"), "is" := IS, "bech32prefix" := Str("trdd"),
    "pubkeyhash" := Num(0x6f), "privatekey" := Num(0xef), "scripthash" := Num(0xc4),
    "xpubkey" := Num(0x043587cf), "xprivkey" := Num(0x04358394)]

  const REDD_TESTNET_VARIANTS: seq<NetworkData> := [
    Variant("testnet3", 55444), Variant("signet", 38333), Variant("testnet4", 48333)]

  const REDD_REGTEST: Fields := map[
    "name" := Str("regtest"), "alias" := Str("dev"), "is" := IS, "bech32prefix" := Str("bcrt"),
    "pubkeyhash" := Num(0x6f), "privatekey" := Num(0xef), "scripthash" := Num(0xc4),
    "xpubkey" := Num(0x043587cf), "xprivkey" := Num(0x04358394), "port" := Num(18444)]

  function Fresh(names: seq<string>): Registry {
    Registry(names, [], map[], 0)
  }

  /** Three networks registered one after the other. */
  function Loaded(names: seq<string>, live: NetworkData, test: NetworkData, reg: NetworkData): Registry {
    Add(Add(Add(Fresh(names), live), test), reg)
  }

  // ----- what adding does to look-ups

  lemma {:induction false} FirstHolderConcat(ns: seq<Network>, ms: seq<Network>, key: string)
    ensures FirstHolder(ns + ms, key) == if FirstHolder(ns, key).Some? then FirstHolder(ns, key) else FirstHolder(ms, key)
  {
    if ns == [] {
      assert ns + ms == ms;
    } else {
      assert (ns + ms)[1..] == ns[1..] + ms;
      FirstHolderConcat(ns[1..], ms, key);
    }
  }

  function Newest(r: Registry, fields: Fields): Network {
    Network(r.next, Copied(r.names, fields))
  }

  lemma AddOneAnswers(r: Registry, fields: Fields, key: string)
    ensures FirstHolder(AddOne(r, fields).networks, key)
         == if FirstHolder(r.networks, key).Some? then FirstHolder(r.networks, key)
            else if key in Keys(Newest(r, fields)) then Some(Newest(r, fields)) else None
  {
    FirstHolderConcat(r.networks, [Newest(r, fields)], key);
  }

  /** Adding a network, with or without variants, takes no key away from an earlier one. */
  lemma {:induction false} AddKeepsAnswers(r: Registry, data: NetworkData, key: string)
    requires FirstHolder(r.networks, key).Some?
    ensures FirstHolder(Add(r, data).networks, key) == FirstHolder(r.networks, key)
    decreases data.variants, 1
  {
    AddOneAnswers(r, data.fields, key);
    AddVariantsKeepsAnswers(AddOne(r, data.fields), data.fields, data.variants, key);
  }

  lemma {:induction false} AddVariantsKeepsAnswers(r: Registry, fields: Fields, variants: seq<NetworkData>, key: string)
    requires FirstHolder(r.networks, key).Some?
    ensures FirstHolder(AddVariants(r, fields, variants).networks, key) == FirstHolder(r.networks, key)
    decreases variants, 0
  {
    if variants != [] {
      var v := variants[0];
      AddKeepsAnswers(r, NetworkData(fields + v.fields, v.variants), key);
      AddVariantsKeepsAnswers(Add(r, NetworkData(fields + v.fields, v.variants)), fields, variants[1..], key);
    }
  }

  /** The network of the data itself comes before its variants. */
  lemma AddAnswersItself(r: Registry, data: NetworkData, key: string)
    requires FirstHolder(r.networks, key) == None
    requires key in Keys(Newest(r, data.fields))
    ensures FirstHolder(Add(r, data).networks, key) == Some(Newest(r, data.fields))
  {
    AddOneAnswers(r, data.fields, key);
    AddVariantsKeepsAnswers(AddOne(r, data.fields), data.fields, data.variants, key);
  }

  predicate NoValue(fields: Fields, key: string) {
    forall name :: name in fields ==> Key(fields[name]) != key
  }

  predicate NoValueIn(data: NetworkData, key: string)
    decreases data
  {
    NoValue(data.fields, key) && forall v :: v in data.variants ==> NoValueIn(v, key)
  }

  lemma {:induction false} CopiedLacks(id: nat, names: seq<string>, fields: Fields, key: string)
    requires NoValue(fields, key)
    ensures key !in Keys(Network(id, Copied(names, fields)))
  {
    var n := Network(id, Copied(names, fields));
    if names != [] {
      CopiedLacks(id, names[1..], fields, key);
      var rest := Network(id, Copied(names[1..], fields));
      if TakenOver(names[0], fields) {
        assert Keys(n) == [Key(fields[names[0]])] + Keys(rest);
      }
    }
  }

  /** Data without a value, variants included, leave the look-up of the value alone. */
  lemma {:induction false} AddLacks(r: Registry, data: NetworkData, key: string)
    requires NoValueIn(data, key)
    ensures FirstHolder(Add(r, data).networks, key) == FirstHolder(r.networks, key)
    decreases data.variants, 1
  {
    AddOneAnswers(r, data.fields, key);
    CopiedLacks(r.next, r.names, data.fields, key);
    AddVariantsLacks(AddOne(r, data.fields), data.fields, data.variants, key);
  }

  lemma {:induction false} AddVariantsLacks(r: Registry, fields: Fields, variants: seq<NetworkData>, key: string)
    requires NoValue(fields, key) && forall v :: v in variants ==> NoValueIn(v, key)
    ensures FirstHolder(AddVariants(r, fields, variants).networks, key) == FirstHolder(r.networks, key)
    decreases variants, 0
  {
    if variants != [] {
      var v := variants[0];
      assert v in variants;
      AddLacks(r, NetworkData(fields + v.fields, v.variants), key);
      AddVariantsLacks(Add(r, NetworkData(fields + v.fields, v.variants)), fields, variants[1..], key);
    }
  }

  // ----- from data to look-ups

  lemma {:induction false} TextOfCopied(names: seq<string>, fields: Fields, name: string, text: string)
    requires name in names && TakenOver(name, fields) && fields[name] == Str(text)
    ensures CashAddress.FieldText(Copied(names, fields), name) == Some(text)
  {
    if names[0] != name {
      TextOfCopied(names[1..], fields, name, text);
    }
  }

  /** Numbers are filed under their digits, so only the texts of the data have to be compared. */
  lemma LacksText(fields: Fields, key: string)
    requires key != "" && !IsDigit(key[0])
    requires forall name :: name in fields ==> fields[name].Num? || Key(fields[name]) != key
    ensures NoValue(fields, key)
  {
    forall name | name in fields ensures Key(fields[name]) != key {
      assert key[0] in key;
    }
  }

  /** A network is filed under every field it has taken over. */
  lemma {:induction false} CopiedHas(id: nat, names: seq<string>, fields: Fields, name: string)
    requires name in names && TakenOver(name, fields)
    ensures Key(fields[name]) in Keys(Network(id, Copied(names, fields)))
  {
    var n := Network(id, Copied(names, fields));
    var rest := Network(id, Copied(names[1..], fields));
    if TakenOver(names[0], fields) {
      assert Keys(n) == [Key(fields[names[0]])] + Keys(rest);
    }
    if names[0] != name {
      CopiedHas(id, names[1..], fields, name);
    }
  }

  lemma {:induction false} AddKeepsNames(r: Registry, data: NetworkData)
    ensures Add(r, data).names == r.names
    decreases data.variants, 1
  {
    AddVariantsKeepsNames(AddOne(r, data.fields), data.fields, data.variants);
  }

  lemma {:induction false} AddVariantsKeepsNames(r: Registry, fields: Fields, variants: seq<NetworkData>)
    ensures AddVariants(r, fields, variants).names == r.names
    decreases variants, 0
  {
    if variants != [] {
      var v := variants[0];
      AddKeepsNames(r, NetworkData(fields + v.fields, v.variants));
      AddVariantsKeepsNames(Add(r, NetworkData(fields + v.fields, v.variants)), fields, variants[1..]);
    }
  }

  // ----- the built-in networks

  /** A registered name finds its network, whose prefix can be read. */
  lemma FoundByName(r: Registry, data: NetworkData, name: string, prefix: string)
    requires r.names == CASH_FIELDS && FirstHolder(r.networks, name) == None && Named(data, name, prefix)
    ensures FirstHolder(Add(r, data).networks, name) == Some(Newest(r, data.fields))
    ensures CashAddress.NetworkPrefix(Newest(r, data.fields)) == Some(prefix)
  {
    assert CASH_FIELDS[0] == "name" && CASH_FIELDS[8] == "prefix";
    CopiedHas(r.next, CASH_FIELDS, data.fields, "name");
    AddAnswersItself(r, data, name);
    TextOfCopied(CASH_FIELDS, data.fields, "prefix", prefix);
  }

  predicate Named(data: NetworkData, name: string, prefix: string) {
    && "name" in data.fields && data.fields["name"] == Str(name)
    && "prefix" in data.fields && data.fields["prefix"] == Str(prefix) && prefix != ""
  }

  /** What the three networks need for one another not to be found under the wrong name. */
  predicate ThreeNetworks(live: NetworkData, test: NetworkData, reg: NetworkData) {
    && Named(live, "livenet", "bitcoincash") && NoValueIn(live, "testnet") && NoValueIn(live, "regtest")
    && Named(test, "testnet", "bchtest") && NoValueIn(test, "regtest")
    && Named(reg, "regtest", "bchreg")
  }

  lemma LoadedValid(names: seq<string>, live: NetworkData, test: NetworkData, reg: NetworkData)
    ensures Valid(Loaded(names, live, test, reg))
  {
    var r := Fresh(names);
    AddValid(r, live);
    AddValid(Add(r, live), test);
    AddValid(Add(Add(r, live), test), reg);
  }

  lemma LoadedFinds(live: NetworkData, test: NetworkData, reg: NetworkData)
    requires ThreeNetworks(live, test, reg)
    ensures CashAddress.KnowsBuiltIn(Loaded(CASH_FIELDS, live, test, reg))
  {
    var r0 := Fresh(CASH_FIELDS);
    var r1 := Add(r0, live);
    var r2 := Add(r1, test);
    var r3 := Add(r2, reg);
    AddKeepsNames(r0, live);
    AddKeepsNames(r1, test);
    LoadedValid(CASH_FIELDS, live, test, reg);
    FoundByName(r0, live, "livenet", "bitcoincash");
    AddKeepsAnswers(r1, test, "livenet");
    AddKeepsAnswers(r2, reg, "livenet");
    GetIsScan(r3, "livenet");
    AddLacks(r0, live, "testnet");
    FoundByName(r1, test, "testnet", "bchtest");
    AddKeepsAnswers(r2, reg, "testnet");
    GetIsScan(r3, "testnet");
    AddLacks(r0, live, "regtest");
    AddLacks(r1, test, "regtest");
    FoundByName(r2, reg, "regtest", "bchreg");
    GetIsScan(r3, "regtest");
  }

  /** The network registered first is found under all its values. */
  lemma FirstFound(names: seq<string>, live: NetworkData, test: NetworkData, reg: NetworkData, name: string)
    requires name in names && TakenOver(name, live.fields)
    ensures Get(Loaded(names, live, test, reg), Key(live.fields[name])) == Some(Newest(Fresh(names), live.fields))
  {
    var key := Key(live.fields[name]);
    CopiedHas(0, names, live.fields, name);
    AddAnswersItself(Fresh(names), live, key);
    AddKeepsAnswers(Add(Fresh(names), live), test, key);
    AddKeepsAnswers(Add(Add(Fresh(names), live), test), reg, key);
    LoadedValid(names, live, test, reg);
    GetIsScan(Loaded(names, live, test, reg), key);
  }

  lemma VariantLacks(name: string, port: nat, key: string)
    requires key != "" && !IsDigit(key[0]) && key != name
    ensures NoValueIn(Variant(name, port), key)
  {
    LacksText(Variant(name, port).fields, key);
  }

  lemma TestnetLacksRegtest()
    ensures NoValueIn(NetworkData(TESTNET, TESTNET_VARIANTS), "regtest")
  {
    LacksText(TESTNET, "regtest");
    VariantLacks("testnet3", 18333, "regtest");
    VariantLacks("testnet4", 28333, "regtest");
    VariantLacks("scalenet", 38333, "regtest");
    VariantLacks("chipnet", 48333, "regtest");
  }

  lemma LivenetNamed()
    ensures Named(NetworkData(LIVENET, []), "livenet", "bitcoincash")
  {
  }

  lemma TestnetNamed()
    ensures Named(NetworkData(TESTNET, TESTNET_VARIANTS), "testnet", "bchtest")
  {
  }

  lemma RegtestNamed()
    ensures Named(NetworkData(REGTEST, []), "regtest", "bchreg")
  {
  }

  lemma LivenetLacksTestnet()
    ensures NoValueIn(NetworkData(LIVENET, []), "testnet")
  {
    LacksText(LIVENET, "testnet");
  }

  lemma LivenetLacksRegtest()
    ensures NoValueIn(NetworkData(LIVENET, []), "regtest")
  {
    LacksText(LIVENET, "regtest");
  }

  predicate CashNetworks(live: NetworkData, test: NetworkData, reg: NetworkData) {
    live == NetworkData(LIVENET, []) && test == NetworkData(TESTNET, TESTNET_VARIANTS) && reg == NetworkData(REGTEST, [])
  }

  /** The registry as loaded knows the three prefixes under the names that parsing tries. */
  lemma KnowsItsPrefixes(live: NetworkData, test: NetworkData, reg: NetworkData)
    requires CashNetworks(live, test, reg)
    ensures Valid(Loaded(CASH_FIELDS, live, test, reg)) && CashAddress.KnowsBuiltIn(Loaded(CASH_FIELDS, live, test, reg))
  {
    LivenetNamed();
    TestnetNamed();
    RegtestNamed();
    LivenetLacksTestnet();
    LivenetLacksRegtest();
    TestnetLacksRegtest();
    LoadedValid(CASH_FIELDS, live, test, reg);
    LoadedFinds(live, test, reg);
  }

  lemma LivenetValues()
    ensures TakenOver("alias", LIVENET) && LIVENET["alias"] == Str("mainnet")
    ensures TakenOver("prefix", LIVENET) && LIVENET["prefix"] == Str("bitcoincash")
  {
  }

  /** The alias of the main network finds it as its prefix does. */
  lemma MainnetFound(live: NetworkData, test: NetworkData, reg: NetworkData)
    requires CashNetworks(live, test, reg)
    ensures var r := Loaded(CASH_FIELDS, live, test, reg);
            && Get(r, "mainnet").Some? && Get(r, "mainnet") == Get(r, "bitcoincash")
            && CashAddress.NetworkPrefix(Get(r, "mainnet").value) == Some("bitcoincash")
  {
    assert CASH_FIELDS[1] == "alias" && CASH_FIELDS[8] == "prefix";
    LivenetValues();
    FirstFound(CASH_FIELDS, live, test, reg, "alias");
    FirstFound(CASH_FIELDS, live, test, reg, "prefix");
    TextOfCopied(CASH_FIELDS, live.fields, "prefix", "bitcoincash");
  }

  // ----- removing the built-in testnets

  /** A network that holds a string in two fields, and is the first to hold it, is still found
      under it after its removal, although the list does not hold it any more. */
  lemma RemovedStillFound(r: Registry, n: Network, key: string)
    requires Valid(r) && HoldsTwiceFirst(r, n, key)
    ensures Get(Remove(r, n), key) == Some(n) && n !in Remove(r, n).networks
    ensures FirstHolder(Remove(r, n).networks, key) != Some(n)
  {
    FirstHolderIs(r.networks, key, n);
    GetAfterRemove(r, n, key);
    NotHolder(r, n, key);
    WithoutDistinct(r.networks, n);
  }

  predicate SameNameAndAlias(data: NetworkData, key: string) {
    "name" in data.fields && "alias" in data.fields && data.fields["name"] == data.fields["alias"] == Str(key)
  }

  lemma SameNameTwice(id: nat, names: seq<string>, data: NetworkData, key: string)
    requires |names| >= 2 && names[0] == "name" && names[1] == "alias" && SameNameAndAlias(data, key)
    ensures Count(Keys(Network(id, Copied(names, data.fields))), key) >= 2
    ensures key in Keys(Network(id, Copied(names, data.fields)))
  {
    var keys := Keys(Network(id, Copied(names, data.fields)));
    assert Copied(names, data.fields) ==
      [Field("name", Str(key))] + ([Field("alias", Str(key))] + Copied(names[1..][1..], data.fields));
    assert keys[0] == keys[1] == key;
    CountRepeated(keys, 0, 1);
  }

  /** The network found under a string is found under it after its removal, too. */
  predicate StaysFound(r: Registry, key: string) {
    match Get(r, key)
    case None => false
    case Some(n) => Get(Remove(r, n), key) == Some(n) && n !in Remove(r, n).networks
  }

  /** In any registry whose second network has the same new name and alias. */
  lemma RemovedSecondFound(names: seq<string>, live: NetworkData, test: NetworkData, reg: NetworkData, key: string)
    requires |names| >= 2 && names[0] == "name" && names[1] == "alias"
    requires NoValueIn(live, key) && SameNameAndAlias(test, key)
    ensures StaysFound(Loaded(names, live, test, reg), key)
  {
    var r0 := Fresh(names);
    var r1 := Add(r0, live);
    var r2 := Add(r1, test);
    var r := Add(r2, reg);
    AddKeepsNames(r0, live);
    AddLacks(r0, live, key);
    SameNameTwice(r1.next, names, test, key);
    AddAnswersItself(r1, test, key);
    AddKeepsAnswers(r2, reg, key);
    LoadedValid(names, live, test, reg);
    GetIsScan(r, key);
    RemovedStillFound(r, Newest(r1, test.fields), key);
  }

  predicate ReddNetworks(live: NetworkData, test: NetworkData, reg: NetworkData) {
    && live == NetworkData(REDD_LIVENET, []) && test == NetworkData(REDD_TESTNET, REDD_TESTNET_VARIANTS)
    && reg == NetworkData(REDD_REGTEST, [])
  }

  lemma ReddLivenetLacksTestnet()
    ensures NoValueIn(NetworkData(REDD_LIVENET, []), "testnet")
  {
    LacksText(REDD_LIVENET, "testnet");
  }

  lemma CashTestnetSame()
    ensures SameNameAndAlias(NetworkData(TESTNET, TESTNET_VARIANTS), "testnet")
  {
  }

  lemma ReddTestnetSame()
    ensures SameNameAndAlias(NetworkData(REDD_TESTNET, REDD_TESTNET_VARIANTS), "testnet")
  {
  }

  /** The testnets of both libraries, in the registries as loaded. */
  lemma RemovedTestnetFound(live: NetworkData, test: NetworkData, reg: NetworkData)
    requires CashNetworks(live, test, reg)
    ensures StaysFound(Loaded(CASH_FIELDS, live, test, reg), "testnet")
  {
    LivenetLacksTestnet();
    CashTestnetSame();
    RemovedSecondFound(CASH_FIELDS, live, test, reg, "testnet");
  }

  lemma RemovedReddTestnetFound(live: NetworkData, test: NetworkData, reg: NetworkData)
    requires ReddNetworks(live, test, reg)
    ensures StaysFound(Loaded(REDD_FIELDS, live, test, reg), "testnet")
  {
    ReddLivenetLacksTestnet();
    ReddTestnetSame();
    RemovedSecondFound(REDD_FIELDS, live, test, reg, "testnet");
  }
}
