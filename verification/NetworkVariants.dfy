/** What adding a network with variants puts into the list, field by field, and what the
    look-ups find there; in particular the variants of the built-in testnets. */
module NetworkVariants {
  import opened Wrappers
  import opened Text
  import opened NetworkRegistry
  import opened BuiltInNetworks

  // ----- the fields of a network

  /** The fields a network takes over: those of its library that its data have, except for an
      empty prefix or port. */
  lemma {:induction false} CopiedExactly(names: seq<string>, fields: Fields, field: Field)
    ensures field in Copied(names, fields)
       <==> && field.name in names && field.name in fields && field.value == fields[field.name]
            && (field.name == "prefix" || field.name == "port" ==> field.value != Str("") && field.value != Num(0))
  {
    if names != [] {
      CopiedExactly(names[1..], fields, field);
      assert names == [names[0]] + names[1..];
    }
  }

  lemma {:induction false} CopiedOnce(names: seq<string>, fields: Fields)
    requires forall i, j :: 0 <= i < j < |names| ==> names[i] != names[j]
    ensures var copied := Copied(names, fields);
            forall i, j :: 0 <= i < j < |copied| ==> copied[i].name != copied[j].name
  {
    if names != [] {
      CopiedOnce(names[1..], fields);
      var rest := Copied(names[1..], fields);
      forall i | 0 <= i < |rest| ensures rest[i].name != names[0] {
        CopiedExactly(names[1..], fields, rest[i]);
        var j :| 0 <= j < |names[1..]| && names[1..][j] == rest[i].name;
        assert names[j + 1] == rest[i].name;
      }
    }
  }

  // ----- variants

  /** Every field is the variant's where the variant has it, and the network's elsewhere. */
  function Overridden(fields: Fields, variant: Fields): Fields {
    map name | name in fields.Keys + variant.Keys :: if name in variant then variant[name] else fields[name]
  }

  lemma Merged(fields: Fields, variant: Fields)
    ensures fields + variant == Overridden(fields, variant)
  {
  }

  /** The data of a network and of its variants, in the order of registration. */
  function Listed(data: NetworkData): seq<Fields>
    decreases data.variants, 1
  {
    [data.fields] + ListedVariants(data.fields, data.variants)
  }

  function ListedVariants(fields: Fields, variants: seq<NetworkData>): seq<Fields>
    decreases variants, 0
  {
    if variants == [] then []
    else
      var v := variants[0];
      Listed(NetworkData(Overridden(fields, v.fields), v.variants)) + ListedVariants(fields, variants[1..])
  }

  /** The list grows by one network for each of them. */
  ghost predicate GrowsBy(r: Registry, r': Registry, listed: seq<Fields>) {
    && r'.names == r.names && r'.next == r.next + |listed|
    && r'.networks == r.networks + seq(|listed|, i requires 0 <= i < |listed| => Network(r.next + i, Copied(r.names, listed[i])))
  }

  lemma GrowsOn(r: Registry, r': Registry, r'': Registry, one: seq<Fields>, other: seq<Fields>)
    requires GrowsBy(r, r', one) && GrowsBy(r', r'', other)
    ensures GrowsBy(r, r'', one + other)
  {
  }

  lemma {:induction false} AddLists(r: Registry, data: NetworkData)
    ensures GrowsBy(r, Add(r, data), Listed(data))
    decreases data.variants, 1
  {
    var r' := AddOne(r, data.fields);
    assert GrowsBy(r, r', [data.fields]);
    AddVariantsLists(r', data.fields, data.variants);
    GrowsOn(r, r', Add(r, data), [data.fields], ListedVariants(data.fields, data.variants));
  }

  lemma {:induction false} AddVariantsLists(r: Registry, fields: Fields, variants: seq<NetworkData>)
    ensures GrowsBy(r, AddVariants(r, fields, variants), ListedVariants(fields, variants))
    decreases variants, 0
  {
    if variants != [] {
      var v := variants[0];
      Merged(fields, v.fields);
      var data := NetworkData(Overridden(fields, v.fields), v.variants);
      var r' := Add(r, data);
      AddLists(r, data);
      AddVariantsLists(r', fields, variants[1..]);
      GrowsOn(r, r', AddVariants(r, fields, variants), Listed(data), ListedVariants(fields, variants[1..]));
    }
  }

  /** A variant without variants of its own adds one network, with its own fields and those it
      does not have from the network it varies; it is filed under its own name. */
  lemma VariantAdded(r: Registry, fields: Fields, variant: NetworkData)
    requires variant.variants == []
    ensures var merged := map name | name in fields.Keys + variant.fields.Keys ::
                            if name in variant.fields then variant.fields[name] else fields[name];
            var n := Network(r.next, Copied(r.names, merged));
            && AddVariants(r, fields, [variant]).networks == r.networks + [n]
            && ("name" in variant.fields && "name" in r.names ==> Key(variant.fields["name"]) in Keys(n))
  {
    Merged(fields, variant.fields);
    var merged := Overridden(fields, variant.fields);
    var r' := Add(r, NetworkData(merged, []));
    assert AddVariants(r, fields, [variant]) == AddVariants(r', fields, [variant][1..]) == r';
    assert AddVariants(AddOne(r, merged), merged, []) == AddOne(r, merged);
    if "name" in variant.fields && "name" in r.names {
      CopiedHas(r.next, r.names, merged, "name");
    }
  }

  // ----- look-ups

  ghost predicate Holds(n: Network, v: Value, names: seq<string>) {
    exists field :: field in n.fields && field.name in names && field.value == v
  }

  lemma HoldsField(n: Network, v: Value, names: seq<string>)
    ensures HoldsIn(n, v, names) <==> Holds(n, v, names)
  {
    if field :| field in n.fields && field.name in names && field.value == v {
      var i :| 0 <= i < |n.fields| && n.fields[i] == field;
    }
  }

  /** Looking a value up in some fields finds the first network in the list that has it there. */
  lemma {:induction false} FirstWithExactly(ns: seq<Network>, v: Value, names: seq<string>)
    ensures FirstWith(ns, v, names) == None <==> forall i :: 0 <= i < |ns| ==> !Holds(ns[i], v, names)
    ensures FirstWith(ns, v, names).Some? ==>
      exists i :: 0 <= i < |ns| && FirstWith(ns, v, names) == Some(ns[i]) && Holds(ns[i], v, names)
               && forall j :: 0 <= j < i ==> !Holds(ns[j], v, names)
  {
    if ns != [] {
      HoldsField(ns[0], v, names);
      FirstWithExactly(ns[1..], v, names);
      if !Holds(ns[0], v, names) && FirstWith(ns[1..], v, names).Some? {
        var i :| 0 <= i < |ns[1..]| && FirstWith(ns[1..], v, names) == Some(ns[1..][i]) && Holds(ns[1..][i], v, names)
              && forall j :: 0 <= j < i ==> !Holds(ns[1..][j], v, names);
        forall j | 0 <= j < i + 1 ensures !Holds(ns[j], v, names) {
          if j > 0 {
            assert ns[j] == ns[1..][j - 1];
          }
        }
        assert ns[i + 1] == ns[1..][i];
      }
    }
  }

  ghost predicate HoldsText(n: Network, key: string) {
    exists field :: field in n.fields && Key(field.value) == key
  }

  lemma HoldsKey(n: Network, key: string)
    ensures key in Keys(n) <==> HoldsText(n, key)
  {
    if key in Keys(n) {
      var i :| 0 <= i < |Keys(n)| && Keys(n)[i] == key;
      assert n.fields[i] in n.fields;
    } else if field :| field in n.fields && Key(field.value) == key {
      var i :| 0 <= i < |n.fields| && n.fields[i] == field;
      assert Keys(n)[i] == key;
    }
  }

  /** The scan that the index stands for finds the first network in the list with a field of
      that text. */
  lemma {:induction false} FirstHolderExactly(ns: seq<Network>, key: string)
    ensures FirstHolder(ns, key) == None <==> forall i :: 0 <= i < |ns| ==> !HoldsText(ns[i], key)
    ensures FirstHolder(ns, key).Some? ==>
      exists i :: 0 <= i < |ns| && FirstHolder(ns, key) == Some(ns[i]) && HoldsText(ns[i], key)
               && forall j :: 0 <= j < i ==> !HoldsText(ns[j], key)
  {
    if ns != [] {
      HoldsKey(ns[0], key);
      FirstHolderExactly(ns[1..], key);
      if !HoldsText(ns[0], key) && FirstHolder(ns[1..], key).Some? {
        var i :| 0 <= i < |ns[1..]| && FirstHolder(ns[1..], key) == Some(ns[1..][i]) && HoldsText(ns[1..][i], key)
              && forall j :: 0 <= j < i ==> !HoldsText(ns[1..][j], key);
        forall j | 0 <= j < i + 1 ensures !HoldsText(ns[j], key) {
          if j > 0 {
            assert ns[j] == ns[1..][j - 1];
          }
        }
        assert ns[i + 1] == ns[1..][i];
      }
    }
  }

  // ----- the variants of the built-in testnets

  function Field(n: Network, name: string): Option<Value> {
    ValueIn(n.fields, name)
  }

  function ValueIn(fields: seq<NetworkRegistry.Field>, name: string): Option<Value> {
    if fields == [] then None else if fields[0].name == name then Some(fields[0].value) else ValueIn(fields[1..], name)
  }

  lemma {:induction false} CopiedValue(names: seq<string>, fields: Fields, name: string)
    requires name in names && TakenOver(name, fields)
    ensures ValueIn(Copied(names, fields), name) == Some(fields[name])
  {
    if names[0] != name {
      CopiedValue(names[1..], fields, name);
    }
  }

  lemma VariantsSplit(r: Registry, fields: Fields, before: seq<NetworkData>, after: seq<NetworkData>)
    ensures AddVariants(r, fields, before + after) == AddVariants(AddVariants(r, fields, before), fields, after)
    decreases before
  {
    if before == [] {
      assert before + after == after;
    } else {
      var v := before[0];
      assert (before + after)[1..] == before[1..] + after;
      VariantsSplit(Add(r, NetworkData(fields + v.fields, v.variants)), fields, before[1..], after);
    }
  }

  /** A variant is found under a name that nothing before it has, and holds its own port. */
  lemma VariantFound(r: Registry, fields: Fields, before: seq<NetworkData>, name: string, port: nat, after: seq<NetworkData>)
    returns (n: Network)
    requires FirstHolder(r.networks, name) == None && NoValue(fields, name) && port != 0
    requires (forall v :: v in before ==> NoValueIn(v, name)) && "name" in r.names && "port" in r.names
    ensures FirstHolder(Add(r, NetworkData(fields, before + [Variant(name, port)] + after)).networks, name) == Some(n)
    ensures n.fields == Copied(r.names, Overridden(fields, map["name" := Str(name), "port" := Num(port)]))
  {
    var own := AddOne(r, fields);
    AddOneAnswers(r, fields, name);
    CopiedLacks(r.next, r.names, fields, name);
    AddVariantsLacks(own, fields, before, name);
    AddVariantsKeepsNames(own, fields, before);
    var r' := AddVariants(own, fields, before);
    var v := Variant(name, port);
    var merged := Overridden(fields, v.fields);
    n := Network(r'.next, Copied(r'.names, merged));
    VariantAdded(r', fields, v);
    FirstHolderConcat(r'.networks, [n], name);
    AddVariantsKeepsAnswers(AddVariants(r', fields, [v]), fields, after, name);
    VariantsSplit(own, fields, before, [v] + after);
    VariantsSplit(r', fields, [v], after);
    assert before + [v] + after == before + ([v] + after);
  }

  lemma VariantFields(id: nat, names: seq<string>, fields: Fields, name: string, port: nat, field: string)
    requires "name" in names && "port" in names && field in names && field != "name" && field != "port"
    requires TakenOver(field, fields) && port != 0
    ensures var n := Network(id, Copied(names, Overridden(fields, map["name" := Str(name), "port" := Num(port)])));
            Field(n, "name") == Some(Str(name)) && Field(n, "port") == Some(Num(port)) && Field(n, field) == Some(fields[field])
  {
    var merged := Overridden(fields, map["name" := Str(name), "port" := Num(port)]);
    CopiedValue(names, merged, "name");
    CopiedValue(names, merged, "port");
    CopiedValue(names, merged, field);
  }

  /** The network found under a name has this name, this port, and this value in a third field. */
  predicate FoundAs(r: Registry, name: string, port: nat, field: string, text: string) {
    match Get(r, name)
    case None => false
    case Some(n) =>
      Field(n, "name") == Some(Str(name)) && Field(n, "port") == Some(Num(port)) && Field(n, field) == Some(Str(text))
  }

  lemma LoadedVariant(names: seq<string>, live: NetworkData, test: NetworkData, reg: NetworkData,
                      before: seq<NetworkData>, name: string, port: nat, after: seq<NetworkData>, field: string, text: string)
    requires "name" in names && "port" in names && field in names && field != "name" && field != "port"
    requires test.variants == before + [Variant(name, port)] + after && port != 0
    requires NoValueIn(live, name) && NoValue(test.fields, name) && forall v :: v in before ==> NoValueIn(v, name)
    requires TakenOver(field, test.fields) && test.fields[field] == Str(text)
    ensures FoundAs(Loaded(names, live, test, reg), name, port, field, text)
  {
    var r0 := Fresh(names);
    var r1 := Add(r0, live);
    AddKeepsNames(r0, live);
    AddLacks(r0, live, name);
    assert test == NetworkData(test.fields, before + [Variant(name, port)] + after);
    var n := VariantFound(r1, test.fields, before, name, port, after);
    AddKeepsAnswers(Add(r1, test), reg, name);
    LoadedValid(names, live, test, reg);
    GetIsScan(Loaded(names, live, test, reg), name);
    VariantFields(n.id, names, test.fields, name, port, field);
    assert n == Network(n.id, Copied(names, Overridden(test.fields, map["name" := Str(name), "port" := Num(port)])));
  }

  /** Names of variants are none of the texts of the networks that come before them. */
  predicate VariantName(name: string) {
    name == "testnet3" || name == "testnet4" || name == "scalenet" || name == "chipnet" || name == "signet"
  }

  lemma NotTheFunction(name: string)
    requires VariantName(name)
    ensures Key(IS) != name && !IsDigit(name[0])
  {
    assert |Key(IS)| > 8;
  }

  lemma LivenetsLack(name: string)
    requires VariantName(name)
    ensures NoValueIn(NetworkData(LIVENET, []), name) && NoValueIn(NetworkData(REDD_LIVENET, []), name)
  {
    NotTheFunction(name);
    LacksText(LIVENET, name);
    LacksText(REDD_LIVENET, name);
  }

  lemma TestnetsLack(name: string)
    requires VariantName(name)
    ensures NoValue(TESTNET, name) && NoValue(REDD_TESTNET, name)
  {
    NotTheFunction(name);
    LacksText(TESTNET, name);
    LacksText(REDD_TESTNET, name);
  }

  /** The data of variants with these names and ports. */
  predicate AreVariants(variants: seq<NetworkData>, names: seq<string>, ports: seq<nat>) {
    && |variants| == |names| == |ports|
    && (forall i :: 0 <= i < |names| ==> variants[i] == Variant(names[i], ports[i]) && VariantName(names[i]) && ports[i] != 0)
    && (forall i, j :: 0 <= i < j < |names| ==> names[i] != names[j])
  }

  lemma OthersLack(variants: seq<NetworkData>, names: seq<string>, ports: seq<nat>, i: nat)
    requires AreVariants(variants, names, ports) && i < |names|
    ensures forall v :: v in variants[..i] ==> NoValueIn(v, names[i])
    ensures variants == variants[..i] + [Variant(names[i], ports[i])] + variants[i + 1..]
  {
    NotTheFunction(names[i]);
    forall k | 0 <= k < i ensures NoValueIn(variants[k], names[i]) {
      VariantLacks(names[k], ports[k], names[i]);
    }
  }

  lemma CashVariant(live: NetworkData, test: NetworkData, reg: NetworkData, names: seq<string>, ports: seq<nat>, i: nat)
    requires CashNetworks(live, test, reg) && AreVariants(test.variants, names, ports) && i < |names|
    ensures FoundAs(Loaded(CASH_FIELDS, live, test, reg), names[i], ports[i], "prefix", "bchtest")
  {
    LivenetsLack(names[i]);
    TestnetsLack(names[i]);
    OthersLack(test.variants, names, ports, i);
    assert CASH_FIELDS[0] == "name" && CASH_FIELDS[8] == "prefix" && CASH_FIELDS[9] == "port";
    LoadedVariant(CASH_FIELDS, live, test, reg, test.variants[..i], names[i], ports[i], test.variants[i + 1..], "prefix", "bchtest");
  }

  lemma CashVariants()
    ensures AreVariants(TESTNET_VARIANTS, ["testnet3", "testnet4", "scalenet", "chipnet"], [18333, 28333, 38333, 48333])
  {
  }

  /** In the registry of the Bitcoin Cash library as loaded, each variant of the testnet is found
      under its own name, with its own port and the prefix of the testnet. */
  lemma CashVariantsFound(live: NetworkData, test: NetworkData, reg: NetworkData)
    requires CashNetworks(live, test, reg)
    ensures var r := Loaded(CASH_FIELDS, live, test, reg);
            && FoundAs(r, "testnet3", 18333, "prefix", "bchtest")
            && FoundAs(r, "testnet4", 28333, "prefix", "bchtest")
            && FoundAs(r, "scalenet", 38333, "prefix", "bchtest")
            && FoundAs(r, "chipnet", 48333, "prefix", "bchtest")
  {
    CashVariants();
    var names, ports := ["testnet3", "testnet4", "scalenet", "chipnet"], [18333, 28333, 38333, 48333];
    CashVariant(live, test, reg, names, ports, 0);
    CashVariant(live, test, reg, names, ports, 1);
    CashVariant(live, test, reg, names, ports, 2);
    CashVariant(live, test, reg, names, ports, 3);
  }

  lemma ReddVariant(live: NetworkData, test: NetworkData, reg: NetworkData, names: seq<string>, ports: seq<nat>, i: nat)
    requires ReddNetworks(live, test, reg) && AreVariants(test.variants, names, ports) && i < |names|
    ensures FoundAs(Loaded(REDD_FIELDS, live, test, reg), names[i], ports[i], "bech32prefix", "trdd")
  {
    LivenetsLack(names[i]);
    TestnetsLack(names[i]);
    OthersLack(test.variants, names, ports, i);
    assert REDD_FIELDS[0] == "name" && REDD_FIELDS[6] == "bech32prefix" && REDD_FIELDS[9] == "port";
    LoadedVariant(REDD_FIELDS, live, test, reg, test.variants[..i], names[i], ports[i], test.variants[i + 1..], "bech32prefix", "trdd");
  }

  lemma ReddVariants()
    ensures AreVariants(REDD_TESTNET_VARIANTS, ["testnet3", "signet", "testnet4"], [55444, 38333, 48333])
  {
  }

  /** The same for the Reddcoin library. */
  lemma ReddVariantsFound(live: NetworkData, test: NetworkData, reg: NetworkData)
    requires ReddNetworks(live, test, reg)
    ensures var r := Loaded(REDD_FIELDS, live, test, reg);
            && FoundAs(r, "testnet3", 55444, "bech32prefix", "trdd")
            && FoundAs(r, "signet", 38333, "bech32prefix", "trdd")
            && FoundAs(r, "testnet4", 48333, "bech32prefix", "trdd")
  {
    ReddVariants();
    var names, ports := ["testnet3", "signet", "testnet4"], [55444, 38333, 48333];
    ReddVariant(live, test, reg, names, ports, 0);
    ReddVariant(live, test, reg, names, ports, 1);
    ReddVariant(live, test, reg, names, ports, 2);
  }

  lemma LivenetTaken(name: string)
    requires name in LIVENET
    ensures name in CASH_FIELDS && TakenOver(name, LIVENET) && "name" in LIVENET && LIVENET["name"] == Str("livenet")
  {
    var i :=
      if name == "name" then 0 else if name == "alias" then 1 else if name == "is" then 2
      else if name == "pubkeyhash" then 3 else if name == "privatekey" then 4 else if name == "scripthash" then 5
      else if name == "xpubkey" then 6 else if name == "xprivkey" then 7 else if name == "prefix" then 8 else 9;
    assert CASH_FIELDS[i] == name;
  }

  lemma ReddLivenetTaken(name: string)
    requires name in REDD_LIVENET
    ensures name in REDD_FIELDS && TakenOver(name, REDD_LIVENET)
    ensures "name" in REDD_LIVENET && REDD_LIVENET["name"] == Str("livenet")
  {
    var i :=
      if name == "name" then 0 else if name == "alias" then 1 else if name == "is" then 2
      else if name == "pubkeyhash" then 3 else if name == "privatekey" then 4 else if name == "scripthash" then 5
      else if name == "bech32prefix" then 6 else if name == "xpubkey" then 7 else if name == "xprivkey" then 8 else 9;
    assert REDD_FIELDS[i] == name;
  }

  lemma FirstFoundAlike(names: seq<string>, live: NetworkData, test: NetworkData, reg: NetworkData, one: string, other: string)
    requires one in names && TakenOver(one, live.fields) && other in names && TakenOver(other, live.fields)
    ensures var r := Loaded(names, live, test, reg);
            Get(r, Key(live.fields[one])).Some? && Get(r, Key(live.fields[one])) == Get(r, Key(live.fields[other]))
  {
    FirstFound(names, live, test, reg, one);
    FirstFound(names, live, test, reg, other);
  }

  predicate AllFound(r: Registry, fields: Fields, name: string) {
    forall field :: field in fields ==> Get(r, Key(fields[field])).Some? && Get(r, Key(fields[field])) == Get(r, name)
  }

  /** The main networks are found under every value of their data. */
  lemma LivenetFound(live: NetworkData, test: NetworkData, reg: NetworkData)
    requires CashNetworks(live, test, reg)
    ensures AllFound(Loaded(CASH_FIELDS, live, test, reg), live.fields, "livenet")
  {
    forall field | field in live.fields
      ensures field in CASH_FIELDS && TakenOver(field, live.fields) && "name" in live.fields && live.fields["name"] == Str("livenet")
    {
      LivenetTaken(field);
    }
    FirstAllFound(CASH_FIELDS, live, test, reg);
  }

  lemma FirstAllFound(names: seq<string>, live: NetworkData, test: NetworkData, reg: NetworkData)
    requires forall field :: field in live.fields ==>
      field in names && TakenOver(field, live.fields) && "name" in live.fields && live.fields["name"] == Str("livenet")
    ensures AllFound(Loaded(names, live, test, reg), live.fields, "livenet")
  {
    forall field | field in live.fields
      ensures var r := Loaded(names, live, test, reg);
              Get(r, Key(live.fields[field])).Some? && Get(r, Key(live.fields[field])) == Get(r, "livenet")
    {
      FirstFoundAlike(names, live, test, reg, field, "name");
    }
  }

  lemma ReddLivenetFound(live: NetworkData, test: NetworkData, reg: NetworkData)
    requires ReddNetworks(live, test, reg)
    ensures AllFound(Loaded(REDD_FIELDS, live, test, reg), live.fields, "livenet")
  {
    forall field | field in live.fields
      ensures field in REDD_FIELDS && TakenOver(field, live.fields) && "name" in live.fields && live.fields["name"] == Str("livenet")
    {
      ReddLivenetTaken(field);
    }
    FirstAllFound(REDD_FIELDS, live, test, reg);
  }

  // ----- values as property names

  lemma KeyOfNumber(number: nat)
    ensures ParseDecimal(Key(Num(number))) == Some(number)
  {
    ParseOfDecimal(number);
  }

  lemma NumberTexts()
    ensures Key(Num(28)) == "28" && Key(Num(0x80)) == "128" && Key(Num(40)) == "40"
  {
  }

  lemma PortText()
    ensures Key(Num(8333)) == "8333"
  {
  }

  lemma NextDigit(n: nat, d: nat)
    requires n > 0 && d < 10
    ensures Decimal(10 * n + d) == Decimal(n) + [DigitChar(d)]
  {
  }

  lemma FourMore(n: nat, text: string, a: nat, b: nat, c: nat, d: nat)
    requires n > 0 && a < 10 && b < 10 && c < 10 && d < 10 && Decimal(n) == text
    ensures Decimal(10000 * n + 1000 * a + 100 * b + 10 * c + d) == text + [DigitChar(a), DigitChar(b), DigitChar(c), DigitChar(d)]
  {
    NextDigit(n, a);
    NextDigit(10 * n + a, b);
    NextDigit(100 * n + 10 * a + b, c);
    NextDigit(1000 * n + 100 * a + 10 * b + c, d);
  }

  lemma VersionTexts()
    ensures Key(Num(0x0488b21e)) == "76067358" && Key(Num(0x0488ade4)) == "76066276"
  {
    FourMore(7606, "7606", 7, 3, 5, 8);
    FourMore(7606, "7606", 6, 2, 7, 6);
    assert "7606" + [DigitChar(7), DigitChar(3), DigitChar(5), DigitChar(8)] == "76067358";
    assert "7606" + [DigitChar(6), DigitChar(2), DigitChar(7), DigitChar(6)] == "76066276";
  }

  /** The main networks are found under their numbers. */
  lemma LivenetNumbers(live: NetworkData, test: NetworkData, reg: NetworkData)
    requires CashNetworks(live, test, reg)
    ensures var r := Loaded(CASH_FIELDS, live, test, reg);
            forall key :: key in {"28", "128", "40", "76067358", "76066276", "8333", "mainnet", "bitcoincash"} ==>
              Get(r, key).Some? && Get(r, key) == Get(r, "livenet")
  {
    LivenetFound(live, test, reg);
    NumberTexts();
    PortText();
    VersionTexts();
    LivenetData(live.fields);
  }

  lemma LivenetData(fields: Fields)
    requires fields == LIVENET
    ensures "pubkeyhash" in fields && fields["pubkeyhash"] == Num(28)
    ensures "privatekey" in fields && fields["privatekey"] == Num(128)
    ensures "scripthash" in fields && fields["scripthash"] == Num(40)
    ensures "xpubkey" in fields && fields["xpubkey"] == Num(76067358)
    ensures "xprivkey" in fields && fields["xprivkey"] == Num(76066276)
    ensures "port" in fields && fields["port"] == Num(8333)
    ensures "alias" in fields && fields["alias"] == Str("mainnet")
    ensures "prefix" in fields && fields["prefix"] == Str("bitcoincash")
  {
  }

  /** A network that is not registered is sought by its name. */
  lemma LookupOfNetwork(r: Registry, n: Network, names: seq<string>)
    ensures n in r.networks ==> Lookup(r, ByNetwork(n), None) == Lookup(r, ByNetwork(n), Some(names)) == Some(n)
    ensures n !in r.networks ==> Lookup(r, ByNetwork(n), Some(names)) == None
    ensures n !in r.networks ==>
      Lookup(r, ByNetwork(n), None) == Get(r, if Field(n, "name").Some? then Key(Field(n, "name").value) else "undefined")
  {
    NameIsField(n.fields);
  }

  lemma {:induction false} NameIsField(fields: seq<NetworkRegistry.Field>)
    ensures NameOf(fields) == if ValueIn(fields, "name").Some? then Key(ValueIn(fields, "name").value) else "undefined"
  {
    if fields != [] {
      NameIsField(fields[1..]);
    }
  }
}
