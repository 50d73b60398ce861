/** The registry of networks: a list in order of registration and an index from every field
    value, turned into a string, to the networks that hold it.  Looking a value up in the index
    must agree with scanning the list. */
module NetworkRegistry {
  import opened Wrappers
  import opened Text

  /** A field value that can be looked up: a string, a number, or a function, which has a text
      but is not equal to it. */
  datatype Value = Str(text: string) | Num(number: nat) | Fun(code: string)

  type Fields = map<string, Value>

  /** What the caller passes to addNetwork. */
  datatype NetworkData = NetworkData(fields: Fields, variants: seq<NetworkData>)

  datatype Field = Field(name: string, value: Value)

  /** Networks are compared by identity, which the id stands for. */
  datatype Network = Network(id: nat, fields: seq<Field>)

  type Index = map<string, seq<Network>>

  /** The fields that a network takes over from its data, in the order of their definition.
      The two libraries differ in the address prefix. */
  const REDD_FIELDS: seq<string> :=
    ["name", "alias", "is", "pubkeyhash", "privatekey", "scripthash", "bech32prefix", "xpubkey", "xprivkey", "port"]
  const CASH_FIELDS: seq<string> :=
    ["name", "alias", "is", "pubkeyhash", "privatekey", "scripthash", "xpubkey", "xprivkey", "prefix", "port"]

  /** Prefix and port are taken over only if they are truthy. */
  predicate TakenOver(name: string, fields: Fields) {
    && name in fields
    && (name == "prefix" ==> fields[name] != Str("") && fields[name] != Num(0))
    && (name == "port" ==> fields[name] != Str("") && fields[name] != Num(0))
  }

  function Copied(names: seq<string>, fields: Fields): seq<Field> {
    if names == [] then []
    else
      var rest := Copied(names[1..], fields);
      if TakenOver(names[0], fields) then [Field(names[0], fields[names[0]])] + rest else rest
  }

  /** A value used as a property name. */
  function Key(v: Value): string {
    match v
    case Str(text) => text
    case Num(number) => Decimal(number)
    case Fun(code) => code
  }

  /** The strings under which a network is filed, with repetitions. */
  function Keys(n: Network): (keys: seq<string>)
    ensures |keys| == |n.fields|
  {
    seq(|n.fields|, i requires 0 <= i < |n.fields| => Key(n.fields[i].value))
  }

  // ----- the list and the index as values

  datatype Registry = Registry(names: seq<string>, networks: seq<Network>, index: Index, next: nat)

  function Bucket(index: Index, key: string): seq<Network> {
    if key in index then index[key] else []
  }

  function File(index: Index, n: Network, keys: seq<string>): Index
    decreases keys
  {
    if keys == [] then index
    else File(index[keys[0] := Bucket(index, keys[0]) + [n]], n, keys[1..])
  }

  function AddOne(r: Registry, fields: Fields): Registry {
    var n := Network(r.next, Copied(r.names, fields));
    Registry(r.names, r.networks + [n], File(r.index, n, Keys(n)), r.next + 1)
  }

  /** A network, then its variants, each of which overrides some fields and may bring its own. */
  function Add(r: Registry, data: NetworkData): Registry
    decreases data.variants, 1
  {
    AddVariants(AddOne(r, data.fields), data.fields, data.variants)
  }

  function AddVariants(r: Registry, fields: Fields, variants: seq<NetworkData>): Registry
    decreases variants, 0
  {
    if variants == [] then r
    else
      var v := variants[0];
      AddVariants(Add(r, NetworkData(fields + v.fields, v.variants)), fields, variants[1..])
  }

  function Without(ns: seq<Network>, n: Network): seq<Network> {
    if ns == [] then [] else if ns[0] == n then ns[1..] else [ns[0]] + Without(ns[1..], n)
  }

  function Unfile(index: Index, n: Network): Index {
    map key | key in index && Without(index[key], n) != [] :: Without(index[key], n)
  }

  function Remove(r: Registry, n: Network): Registry {
    Registry(r.names, Without(r.networks, n), Unfile(r.index, n), r.next)
  }

  function Get(r: Registry, key: string): Option<Network> {
    if key in r.index && |r.index[key]| >= 1 then Some(r.index[key][0]) else None
  }

  /** A network holds a value in one of some fields, compared without conversion. */
  predicate HoldsIn(n: Network, v: Value, names: seq<string>) {
    exists i :: 0 <= i < |n.fields| && n.fields[i].name in names && n.fields[i].value == v
  }

  function FirstWith(ns: seq<Network>, v: Value, names: seq<string>): Option<Network> {
    if ns == [] then None else if HoldsIn(ns[0], v, names) then Some(ns[0]) else FirstWith(ns[1..], v, names)
  }

  datatype Argument = ByValue(value: Value) | ByNetwork(network: Network)

  /** A network turned into a property name: its name, or the text of a missing one. */
  function NameOf(fields: seq<Field>): string {
    if fields == [] then "undefined" else if fields[0].name == "name" then Key(fields[0].value) else NameOf(fields[1..])
  }

  /** The whole look-up: a registered network finds itself; with a list of field names the list
      of networks is scanned, and without one the index is asked. */
  function Lookup(r: Registry, arg: Argument, names: Option<seq<string>>): Option<Network> {
    if arg.ByNetwork? && arg.network in r.networks then Some(arg.network)
    else
      match names
      case Some(ns) => if arg.ByValue? then FirstWith(r.networks, arg.value, ns) else None
      case None => Get(r, match arg case ByValue(v) => Key(v) case ByNetwork(n) => NameOf(n.fields))
  }

  // ----- the scan the index stands for

  function FirstHolder(ns: seq<Network>, key: string): Option<Network> {
    if ns == [] then None else if key in Keys(ns[0]) then Some(ns[0]) else FirstHolder(ns[1..], key)
  }

  function Count(keys: seq<string>, key: string): nat {
    if keys == [] then 0 else (if keys[0] == key then 1 else 0) + Count(keys[1..], key)
  }

  function Copies(n: Network, k: nat): seq<Network> {
    seq(k, i => n)
  }

  /** The bucket a key should have: every network once per field that holds the key. */
  function Holders(ns: seq<Network>, key: string): seq<Network> {
    if ns == [] then [] else Copies(ns[0], Count(Keys(ns[0]), key)) + Holders(ns[1..], key)
  }

  ghost predicate Consistent(networks: seq<Network>, index: Index) {
    forall key :: Bucket(index, key) == Holders(networks, key) && (key in index ==> index[key] != [])
  }

  predicate Distinct(ns: seq<Network>) {
    forall i, j :: 0 <= i < j < |ns| ==> ns[i] != ns[j]
  }

  ghost predicate Valid(r: Registry) {
    && Consistent(r.networks, r.index)
    && Distinct(r.networks)
    && (forall i :: 0 <= i < |r.networks| ==> r.networks[i].id < r.next)
  }

  predicate NoEmptyBucket(index: Index) {
    forall key :: key in index ==> index[key] != []
  }

  predicate NoRepeatedKey(n: Network) {
    forall i, j :: 0 <= i < j < |Keys(n)| ==> Keys(n)[i] != Keys(n)[j]
  }

  // ----- counting

  lemma {:induction false} CountIn(keys: seq<string>, key: string)
    ensures Count(keys, key) > 0 <==> key in keys
  {
    if keys != [] {
      CountIn(keys[1..], key);
      assert keys == [keys[0]] + keys[1..];
    }
  }

  lemma {:induction false} CountDistinct(keys: seq<string>)
    requires forall i, j :: 0 <= i < j < |keys| ==> keys[i] != keys[j]
    ensures forall key :: Count(keys, key) <= 1
  {
    if keys != [] {
      CountDistinct(keys[1..]);
      CountIn(keys[1..], keys[0]);
    }
  }

  lemma {:induction false} CountRepeated(keys: seq<string>, i: nat, j: nat)
    requires i < j < |keys| && keys[i] == keys[j]
    ensures Count(keys, keys[i]) >= 2
  {
    if i == 0 {
      CountIn(keys[1..], keys[0]);
      assert keys[1..][j - 1] == keys[0];
    } else {
      CountRepeated(keys[1..], i - 1, j - 1);
    }
  }

  lemma {:induction false} HoldersConcat(ns: seq<Network>, ms: seq<Network>, key: string)
    ensures Holders(ns + ms, key) == Holders(ns, key) + Holders(ms, key)
  {
    if ns == [] {
      assert ns + ms == ms;
    } else {
      assert (ns + ms)[1..] == ns[1..] + ms;
      HoldersConcat(ns[1..], ms, key);
    }
  }

  lemma {:induction false} HoldersFrom(ns: seq<Network>, key: string, n: Network)
    requires n in Holders(ns, key)
    ensures n in ns && key in Keys(n)
  {
    CountIn(Keys(ns[0]), key);
    if n !in Copies(ns[0], Count(Keys(ns[0]), key)) {
      HoldersFrom(ns[1..], key, n);
    }
  }

  // ----- adding

  lemma {:induction false} FileBucket(index: Index, n: Network, keys: seq<string>, key: string)
    requires key in index ==> index[key] != []
    ensures Bucket(File(index, n, keys), key) == Bucket(index, key) + Copies(n, Count(keys, key))
    ensures key in File(index, n, keys) ==> File(index, n, keys)[key] != []
    decreases keys
  {
    if keys != [] {
      var index' := index[keys[0] := Bucket(index, keys[0]) + [n]];
      FileBucket(index', n, keys[1..], key);
      if keys[0] == key {
        assert [n] + Copies(n, Count(keys[1..], key)) == Copies(n, Count(keys, key));
      }
    }
  }

  lemma AddOneValid(r: Registry, fields: Fields)
    requires Valid(r)
    ensures Valid(AddOne(r, fields))
  {
    var n := Network(r.next, Copied(r.names, fields));
    var r' := AddOne(r, fields);
    forall key
      ensures Bucket(r'.index, key) == Holders(r'.networks, key) && (key in r'.index ==> r'.index[key] != [])
    {
      assert Bucket(r.index, key) == Holders(r.networks, key) && (key in r.index ==> r.index[key] != []);
      FileBucket(r.index, n, Keys(n), key);
      HoldersConcat(r.networks, [n], key);
      assert Holders([n], key) == Copies(n, Count(Keys(n), key)) + [];
    }
  }

  lemma {:induction false} AddValid(r: Registry, data: NetworkData)
    requires Valid(r)
    ensures Valid(Add(r, data))
    decreases data.variants, 1
  {
    AddOneValid(r, data.fields);
    AddVariantsValid(AddOne(r, data.fields), data.fields, data.variants);
  }

  lemma {:induction false} AddVariantsValid(r: Registry, fields: Fields, variants: seq<NetworkData>)
    requires Valid(r)
    ensures Valid(AddVariants(r, fields, variants))
    decreases variants, 0
  {
    if variants != [] {
      var v := variants[0];
      var r' := Add(r, NetworkData(fields + v.fields, v.variants));
      AddValid(r, NetworkData(fields + v.fields, v.variants));
      AddVariantsValid(r', fields, variants[1..]);
    }
  }

  // ----- looking up

  lemma {:induction false} HoldersHead(ns: seq<Network>, key: string)
    ensures FirstHolder(ns, key) == if Holders(ns, key) == [] then None else Some(Holders(ns, key)[0])
  {
    if ns != [] {
      CountIn(Keys(ns[0]), key);
      HoldersHead(ns[1..], key);
    }
  }

  /** The index answers every look-up like a scan of the list. */
  lemma GetIsScan(r: Registry, key: string)
    requires Consistent(r.networks, r.index)
    ensures Get(r, key) == FirstHolder(r.networks, key)
  {
    HoldersHead(r.networks, key);
    assert Bucket(r.index, key) == Holders(r.networks, key);
  }

  lemma HoldsInKeys(n: Network, v: Value, names: seq<string>)
    requires HoldsIn(n, v, names)
    ensures Key(v) in Keys(n)
  {
    var i :| 0 <= i < |n.fields| && n.fields[i].name in names && n.fields[i].value == v;
    assert Keys(n)[i] == Key(v);
  }

  lemma {:induction false} FirstWithAgrees(ns: seq<Network>, v: Value, names: seq<string>)
    ensures FirstWith(ns, v, names) == FirstHolder(ns, Key(v))
       <==> FirstHolder(ns, Key(v)) == None || HoldsIn(FirstHolder(ns, Key(v)).value, v, names)
    ensures FirstWith(ns, v, names).Some? ==> HoldsIn(FirstWith(ns, v, names).value, v, names)
  {
    if ns != [] {
      FirstWithAgrees(ns[1..], v, names);
      if HoldsIn(ns[0], v, names) {
        HoldsInKeys(ns[0], v, names);
      }
    }
  }

  /** Looking a value up in some fields agrees with looking it up in the index exactly if the
      first network filed under it, if any, holds it as such in one of these fields. */
  lemma LookupsAgree(r: Registry, v: Value, names: seq<string>)
    requires Consistent(r.networks, r.index)
    ensures Lookup(r, ByValue(v), Some(names)) == Lookup(r, ByValue(v), None)
       <==> Get(r, Key(v)) == None || HoldsIn(Get(r, Key(v)).value, v, names)
  {
    FirstWithAgrees(r.networks, v, names);
    GetIsScan(r, Key(v));
  }

  lemma {:induction false} FirstHolderIs(ns: seq<Network>, key: string, n: Network)
    requires FirstHolder(ns, key) == Some(n)
    ensures n in ns && key in Keys(n)
  {
    if key !in Keys(ns[0]) {
      FirstHolderIs(ns[1..], key, n);
    }
  }

  // ----- removing

  lemma {:induction false} WithoutLast(ns: seq<Network>, ms: seq<Network>, n: Network)
    requires n !in ns
    ensures Without(ns + ms, n) == ns + Without(ms, n)
  {
    if ns == [] {
      assert ns + ms == ms && ns + Without(ms, n) == Without(ms, n);
    } else {
      assert (ns + ms)[1..] == ns[1..] + ms;
      WithoutLast(ns[1..], ms, n);
    }
  }

  lemma {:induction false} WithoutAbsent(ns: seq<Network>, n: Network)
    requires n !in ns
    ensures Without(ns, n) == ns
  {
    if ns != [] {
      WithoutAbsent(ns[1..], n);
    }
  }

  /** The bucket left by removing one occurrence of n, compared with the bucket it should have. */
  lemma {:induction false} WithoutHolders(ns: seq<Network>, key: string, n: Network)
    requires Distinct(ns) && n in ns
    ensures Count(Keys(n), key) <= 1 ==> Without(Holders(ns, key), n) == Holders(Without(ns, n), key)
    ensures Count(Keys(n), key) >= 2 ==> |Without(Holders(ns, key), n)| > |Holders(Without(ns, n), key)|
  {
    var k := Count(Keys(ns[0]), key);
    var rest := Holders(ns[1..], key);
    if ns[0] == n {
      if n in rest {
        HoldersFrom(ns[1..], key, n);
      }
      if k == 0 {
        WithoutAbsent(rest, n);
        assert Copies(n, 0) + rest == rest;
      } else {
        assert Copies(n, k) + rest == [n] + (Copies(n, k - 1) + rest);
        assert Without(Holders(ns, key), n) == Copies(n, k - 1) + rest;
      }
    } else {
      WithoutHolders(ns[1..], key, n);
      WithoutLast(Copies(ns[0], k), rest, n);
    }
  }

  lemma {:induction false} WithoutDistinct(ns: seq<Network>, n: Network)
    requires Distinct(ns)
    ensures forall m :: m in Without(ns, n) <==> m in ns && m != n
    ensures Distinct(Without(ns, n))
  {
    if ns != [] && ns[0] != n {
      WithoutDistinct(ns[1..], n);
      assert ns[0] !in ns[1..];
      assert ns[0] !in Without(ns[1..], n);
    }
  }

  /** The first occurrence is taken out, and the order of the others kept. */
  lemma WithoutMiddle(before: seq<Network>, n: Network, after: seq<Network>)
    requires n !in before
    ensures Without(before + [n] + after, n) == before + after
  {
    assert before + [n] + after == before + ([n] + after);
    WithoutLast(before, [n] + after, n);
  }

  lemma UnfileBucket(index: Index, n: Network, key: string)
    ensures Bucket(Unfile(index, n), key) == Without(Bucket(index, key), n)
  {
  }

  /** Removing a registered network keeps list and index in step exactly when no two of its
      fields hold the same string. */
  lemma RemoveValid(r: Registry, n: Network)
    requires Valid(r) && n in r.networks
    ensures Valid(Remove(r, n)) <==> NoRepeatedKey(n)
  {
    var r' := Remove(r, n);
    WithoutDistinct(r.networks, n);
    forall i | 0 <= i < |r'.networks| ensures r'.networks[i].id < r.next {
      assert r'.networks[i] in r.networks;
    }
    if NoRepeatedKey(n) {
      CountDistinct(Keys(n));
      forall key
        ensures Bucket(r'.index, key) == Holders(r'.networks, key) && (key in r'.index ==> r'.index[key] != [])
      {
        assert Bucket(r.index, key) == Holders(r.networks, key);
        UnfileBucket(r.index, n, key);
        WithoutHolders(r.networks, key, n);
      }
    } else {
      var i, j :| 0 <= i < j < |Keys(n)| && Keys(n)[i] == Keys(n)[j];
      var key := Keys(n)[i];
      CountRepeated(Keys(n), i, j);
      assert Bucket(r.index, key) == Holders(r.networks, key);
      UnfileBucket(r.index, n, key);
      WithoutHolders(r.networks, key, n);
      assert Bucket(r'.index, key) != Holders(r'.networks, key);
    }
  }

  lemma RemoveUnregistered(r: Registry, n: Network)
    requires Valid(r) && n !in r.networks
    ensures Remove(r, n) == r
  {
    WithoutAbsent(r.networks, n);
    forall key | key in r.index ensures Without(r.index[key], n) == r.index[key] && r.index[key] != [] {
      assert Bucket(r.index, key) == Holders(r.networks, key);
      if n in r.index[key] {
        HoldersFrom(r.networks, key, n);
      }
      WithoutAbsent(r.index[key], n);
    }
    assert Unfile(r.index, n) == r.index;
  }

  function Head(ns: seq<Network>): Option<Network> {
    if ns == [] then None else Some(ns[0])
  }

  lemma {:induction false} WithoutHead(ns: seq<Network>, key: string, n: Network)
    requires Distinct(ns) && n in ns
    ensures Head(Without(Holders(ns, key), n))
         == if Count(Keys(n), key) >= 2 && FirstHolder(ns, key) == Some(n) then Some(n)
            else FirstHolder(Without(ns, n), key)
  {
    var k := Count(Keys(ns[0]), key);
    var rest := Holders(ns[1..], key);
    CountIn(Keys(ns[0]), key);
    if ns[0] == n {
      HoldersHead(ns[1..], key);
      if k == 0 {
        assert Copies(n, 0) + rest == rest;
        if n in rest {
          HoldersFrom(ns[1..], key, n);
        }
        WithoutAbsent(rest, n);
        if FirstHolder(ns[1..], key) == Some(n) {
          FirstHolderIs(ns[1..], key, n);
        }
      } else {
        assert Without(Holders(ns, key), n) == Copies(n, k - 1) + rest by {
          assert Holders(ns, key)[1..] == Copies(n, k - 1) + rest;
        }
      }
    } else if k == 0 {
      assert Copies(ns[0], 0) + rest == rest;
      WithoutHead(ns[1..], key, n);
    } else {
      WithoutLast(Copies(ns[0], k), rest, n);
    }
  }

  /** Every look-up after a removal, including the stale answers: the removed network itself
      is still found under a string that two of its fields hold, if it held it first. */
  lemma GetAfterRemove(r: Registry, n: Network, key: string)
    requires Valid(r) && n in r.networks
    ensures Get(Remove(r, n), key)
         == if Count(Keys(n), key) >= 2 && FirstHolder(r.networks, key) == Some(n) then Some(n)
            else FirstHolder(Remove(r, n).networks, key)
  {
    assert Bucket(r.index, key) == Holders(r.networks, key);
    UnfileBucket(r.index, n, key);
    WithoutHead(r.networks, key, n);
    assert Get(Remove(r, n), key) == Head(Bucket(Remove(r, n).index, key));
  }

  predicate Agrees(r: Registry, key: string) {
    Get(r, key) == FirstHolder(r.networks, key)
  }

  /** The network is the first holder of a string, and holds it in two fields. */
  predicate HoldsTwiceFirst(r: Registry, n: Network, key: string) {
    Count(Keys(n), key) >= 2 && FirstHolder(r.networks, key) == Some(n)
  }

  /** After a removal the index still agrees with the scan on all strings exactly when the
      removed network was not the first holder of any string that it held twice. */
  lemma ScanAfterRemove(r: Registry, n: Network)
    requires Valid(r) && n in r.networks
    ensures (forall key :: Agrees(Remove(r, n), key)) <==> (forall key :: !HoldsTwiceFirst(r, n, key))
  {
    forall key ensures Agrees(Remove(r, n), key) <==> !HoldsTwiceFirst(r, n, key) {
      GetAfterRemove(r, n, key);
      NotHolder(r, n, key);
    }
  }

  lemma NotHolder(r: Registry, n: Network, key: string)
    requires Valid(r)
    ensures FirstHolder(Remove(r, n).networks, key) != Some(n)
  {
    WithoutDistinct(r.networks, n);
    if FirstHolder(Remove(r, n).networks, key) == Some(n) {
      FirstHolderIs(Remove(r, n).networks, key, n);
    }
  }

  lemma SameBuckets(one: Index, other: Index)
    requires forall key :: Bucket(one, key) == Bucket(other, key)
    requires forall key :: key in one ==> one[key] != []
    requires forall key :: key in other ==> other[key] != []
    ensures one == other
  {
    forall key
      ensures key in one <==> key in other
      ensures key in one ==> one[key] == other[key]
    {
      assert Bucket(one, key) == Bucket(other, key);
    }
  }

  /** Removing the network just added restores the registry exactly when its strings differ. */
  lemma RemoveUndoesAdd(r: Registry, fields: Fields)
    requires Valid(r)
    ensures var n := Network(r.next, Copied(r.names, fields));
            var r' := Remove(AddOne(r, fields), n);
            r'.networks == r.networks && (r'.index == r.index <==> NoRepeatedKey(n))
  {
    var n := Network(r.next, Copied(r.names, fields));
    var r' := Remove(AddOne(r, fields), n);
    AddOneValid(r, fields);
    RemoveValid(AddOne(r, fields), n);
    assert n !in r.networks;
    WithoutLast(r.networks, [n], n);
    assert r'.networks == r.networks + [] == r.networks;
    if NoRepeatedKey(n) {
      assert Consistent(r'.networks, r'.index) && Consistent(r.networks, r.index);
      SameBuckets(r'.index, r.index);
    }
  }

  // ----- runs

  datatype Operation = Adding(data: NetworkData) | Removing(network: Network) | RemovingByKey(key: string)

  function Target(r: Registry, op: Operation): Option<Network> {
    match op
    case Adding(_) => None
    case Removing(network) => Some(network)
    case RemovingByKey(key) => Get(r, key)
  }

  function Apply(r: Registry, op: Operation): Registry {
    if op.Adding? then Add(r, op.data)
    else
      match Target(r, op)
      case None => r
      case Some(n) => Remove(r, n)
  }

  function Run(r: Registry, ops: seq<Operation>): Registry
    decreases ops
  {
    if ops == [] then r else Run(Apply(r, ops[0]), ops[1..])
  }

  /** No removal in the run hits a registered network that holds a string twice. */
  predicate RemovesCleanly(r: Registry, ops: seq<Operation>)
    decreases ops
  {
    ops != [] ==>
      && (Target(r, ops[0]).Some? && Target(r, ops[0]).value in r.networks ==> NoRepeatedKey(Target(r, ops[0]).value))
      && RemovesCleanly(Apply(r, ops[0]), ops[1..])
  }

  lemma ApplyValid(r: Registry, op: Operation)
    requires Valid(r)
    ensures Valid(Apply(r, op)) <==> (Target(r, op).Some? && Target(r, op).value in r.networks ==> NoRepeatedKey(Target(r, op).value))
  {
    match Target(r, op)
    case None =>
      if op.Adding? {
        AddValid(r, op.data);
      }
    case Some(n) =>
      if n in r.networks {
        RemoveValid(r, n);
      } else {
        RemoveUnregistered(r, n);
      }
  }

  /** After any such run the index answers like a scan. */
  lemma {:induction false} RunIsScan(r: Registry, ops: seq<Operation>, key: string)
    requires Valid(r) && RemovesCleanly(r, ops)
    ensures Valid(Run(r, ops))
    ensures Get(Run(r, ops), key) == FirstHolder(Run(r, ops).networks, key)
    decreases ops
  {
    if ops == [] {
      GetIsScan(r, key);
    } else {
      ApplyValid(r, ops[0]);
      RunIsScan(Apply(r, ops[0]), ops[1..], key);
    }
  }

  ghost predicate ValidThroughout(r: Registry, ops: seq<Operation>) {
    forall n :: 0 <= n <= |ops| ==> Valid(Run(r, ops[..n]))
  }

  lemma RunPrefix(r: Registry, ops: seq<Operation>, n: nat)
    requires n < |ops|
    ensures Run(r, ops[..n + 1]) == Run(Apply(r, ops[0]), ops[1..][..n])
  {
    assert ops[..n + 1][1..] == ops[1..][..n];
  }

  /** List and index are in step all through a run exactly if it is such a run. */
  lemma {:induction false} ValidExactly(r: Registry, ops: seq<Operation>)
    requires Valid(r)
    ensures ValidThroughout(r, ops) <==> RemovesCleanly(r, ops)
    decreases ops
  {
    if ops != [] {
      var r' := Apply(r, ops[0]);
      ApplyValid(r, ops[0]);
      forall n: nat | n < |ops| ensures Run(r, ops[..n + 1]) == Run(r', ops[1..][..n]) {
        RunPrefix(r, ops, n);
      }
      if Valid(r') {
        ValidExactly(r', ops[1..]);
        ThroughoutStep(r, ops);
      } else {
        assert Run(r, ops[..1]) == Run(r', ops[1..][..0]) == r';
      }
    }
  }

  lemma ThroughoutStep(r: Registry, ops: seq<Operation>)
    requires Valid(r) && ops != []
    ensures ValidThroughout(r, ops) <==> ValidThroughout(Apply(r, ops[0]), ops[1..])
  {
    var r' := Apply(r, ops[0]);
    if ValidThroughout(r, ops) {
      forall n | 0 <= n <= |ops[1..]| ensures Valid(Run(r', ops[1..][..n])) {
        RunPrefix(r, ops, n);
      }
    }
    if ValidThroughout(r', ops[1..]) {
      forall n | 0 <= n <= |ops| ensures Valid(Run(r, ops[..n])) {
        if n > 0 {
          RunPrefix(r, ops, n - 1);
        }
      }
    }
  }

  /** What holds after every run, unclean removals included; removal relies on it. */
  predicate Orderly(r: Registry) {
    && Distinct(r.networks)
    && NoEmptyBucket(r.index)
    && (forall i :: 0 <= i < |r.networks| ==> r.networks[i].id < r.next)
  }

  lemma AddOneOrderly(r: Registry, fields: Fields)
    requires Orderly(r)
    ensures Orderly(AddOne(r, fields))
  {
    var n := Network(r.next, Copied(r.names, fields));
    var index := File(r.index, n, Keys(n));
    forall key | key in index ensures index[key] != [] {
      FileBucket(r.index, n, Keys(n), key);
    }
  }

  lemma {:induction false} AddOrderly(r: Registry, data: NetworkData)
    requires Orderly(r)
    ensures Orderly(Add(r, data))
    decreases data.variants, 1
  {
    AddOneOrderly(r, data.fields);
    AddVariantsOrderly(AddOne(r, data.fields), data.fields, data.variants);
  }

  lemma {:induction false} AddVariantsOrderly(r: Registry, fields: Fields, variants: seq<NetworkData>)
    requires Orderly(r)
    ensures Orderly(AddVariants(r, fields, variants))
    decreases variants, 0
  {
    if variants != [] {
      var v := variants[0];
      AddOrderly(r, NetworkData(fields + v.fields, v.variants));
      AddVariantsOrderly(Add(r, NetworkData(fields + v.fields, v.variants)), fields, variants[1..]);
    }
  }

  lemma RemoveOrderly(r: Registry, n: Network)
    requires Orderly(r)
    ensures Orderly(Remove(r, n))
  {
    WithoutDistinct(r.networks, n);
    var networks := Without(r.networks, n);
    forall i | 0 <= i < |networks| ensures networks[i].id < r.next {
      assert networks[i] in r.networks;
    }
  }

  lemma {:induction false} RunOrderly(r: Registry, ops: seq<Operation>)
    requires Orderly(r)
    ensures Orderly(Run(r, ops))
    decreases ops
  {
    if ops != [] {
      match Target(r, ops[0]) {
        case None =>
          if ops[0].Adding? {
            AddOrderly(r, ops[0].data);
          }
        case Some(n) => RemoveOrderly(r, n);
      }
      RunOrderly(Apply(r, ops[0]), ops[1..]);
    }
  }

  // ----- the registry as the libraries keep it

  /** Part way through a removal: the buckets of the pending keys are still as before. */
  ghost predicate PartlyUnfiled(before: Index, index: Index, n: Network, pending: set<string>) {
    && NoEmptyBucket(index)
    && (forall key :: Bucket(index, key) == if key in pending then Bucket(before, key) else Without(Bucket(before, key), n))
  }

  lemma AllUnfiled(before: Index, index: Index, n: Network)
    requires PartlyUnfiled(before, index, n, {})
    ensures index == Unfile(before, n)
  {
    forall key ensures Bucket(index, key) == Bucket(Unfile(before, n), key) {
      UnfileBucket(before, n, key);
    }
    SameBuckets(index, Unfile(before, n));
  }

  class Networks {
    const names: seq<string>
    var networks: seq<Network>
    var networkMaps: Index
    var next: nat

    function State(): Registry
      reads this
    {
      Registry(names, networks, networkMaps, next)
    }

    constructor (names: seq<string>)
      ensures State() == Registry(names, [], map[], 0) && Valid(State())
    {
      this.names, networks, networkMaps, next := names, [], map[], 0;
    }

    method AddNetwork(data: NetworkData) returns (network: Network)
      modifies this
      ensures State() == Add(old(State()), data)
      ensures network == Network(old(next), Copied(names, data.fields))
      decreases data.variants
    {
      network := Network(next, Copied(names, data.fields));
      var keys := Keys(network);
      for i := 0 to |keys|
        invariant networks == old(networks) && next == old(next)
        invariant File(networkMaps, network, keys[i..]) == File(old(networkMaps), network, keys)
      {
        assert keys[i..][0] == keys[i] && keys[i..][1..] == keys[i + 1..];
        ghost var filed := networkMaps[keys[i] := Bucket(networkMaps, keys[i]) + [network]];
        if keys[i] !in networkMaps {
          networkMaps := networkMaps[keys[i] := []];
        }
        networkMaps := networkMaps[keys[i] := networkMaps[keys[i]] + [network]];
        assert networkMaps == filed;
      }
      networks := networks + [network];
      next := next + 1;
      for i := 0 to |data.variants|
        invariant AddVariants(State(), data.fields, data.variants[i..]) == Add(old(State()), data)
      {
        assert data.variants[i..][0] == data.variants[i] && data.variants[i..][1..] == data.variants[i + 1..];
        var variant := data.variants[i];
        var _ := AddNetwork(NetworkData(data.fields + variant.fields, variant.variants));
      }
    }

    method GetNetwork(arg: Argument, names: Option<seq<string>>) returns (network: Option<Network>)
      ensures network == Lookup(State(), arg, names)
      ensures Consistent(networks, networkMaps) && arg.ByValue? && names == None ==> network == FirstHolder(networks, Key(arg.value))
    {
      if arg.ByNetwork? && arg.network in networks {
        return Some(arg.network);
      }
      if names.Some? {
        network := ScanNetworks(arg, names.value);
        return;
      }
      var key := match arg case ByValue(v) => Key(v) case ByNetwork(n) => NameOf(n.fields);
      if Consistent(networks, networkMaps) {
        GetIsScan(State(), key);
      }
      if key in networkMaps && |networkMaps[key]| >= 1 {
        network := Some(networkMaps[key][0]);
      } else {
        network := None;
      }
    }

    /** The loop over the list; no field holds a network. */
    method ScanNetworks(arg: Argument, names: seq<string>) returns (network: Option<Network>)
      ensures network == if arg.ByValue? then FirstWith(networks, arg.value, names) else None
    {
      for i := 0 to |networks|
        invariant arg.ByValue? ==> FirstWith(networks[i..], arg.value, names) == FirstWith(networks, arg.value, names)
      {
        if arg.ByValue? && HoldsIn(networks[i], arg.value, names) {
          return Some(networks[i]);
        }
        assert networks[i..][0] == networks[i] && networks[i..][1..] == networks[i + 1..];
      }
      network := None;
    }

    method RemoveNetwork(network: Network)
      requires Distinct(networks) && NoEmptyBucket(networkMaps)
      modifies this
      ensures State() == Remove(old(State()), network)
      ensures Distinct(networks) && NoEmptyBucket(networkMaps)
    {
      WithoutDistinct(networks, network);
      Unlist(network);
      ghost var before := networkMaps;
      var pending := networkMaps.Keys;
      while pending != {}
        invariant pending <= networkMaps.Keys && PartlyUnfiled(before, networkMaps, network, pending)
        invariant networks == Without(old(networks), network) && next == old(next)
        decreases pending
      {
        var key :| key in pending;
        pending := pending - {key};
        UnfileKey(key, network);
      }
      AllUnfiled(before, networkMaps, network);
    }

    /** The body of the second loop: one bucket loses its first occurrence of the network. */
    method UnfileKey(key: string, network: Network)
      requires key in networkMaps && NoEmptyBucket(networkMaps)
      modifies `networkMaps
      ensures NoEmptyBucket(networkMaps)
      ensures forall k :: k != key ==> Bucket(networkMaps, k) == Bucket(old(networkMaps), k)
      ensures Bucket(networkMaps, key) == Without(old(networkMaps)[key], network)
    {
      var index := Position(networkMaps[key], network);
      if index >= 0 {
        networkMaps := networkMaps[key := networkMaps[key][..index] + networkMaps[key][index + 1..]];
      }
      if |networkMaps[key]| == 0 {
        networkMaps := networkMaps - {key};
      }
    }

    /** The first loop of removeNetwork: splices the network out of the list. */
    method Unlist(network: Network)
      requires Distinct(networks)
      modifies `networks
      ensures networks == Without(old(networks), network)
    {
      WithoutDistinct(networks, network);
      var i := 0;
      while i < |networks|
        invariant || (networks == old(networks) && i <= |networks| && network !in networks[..i])
                  || networks == Without(old(networks), network)
        decreases |networks| - i
      {
        assert networks[i] in networks;
        if networks[i] == network {
          WithoutLast(networks[..i], networks[i..], network);
          assert networks == networks[..i] + networks[i..];
          networks := networks[..i] + networks[i + 1..];
        }
        i := i + 1;
      }
      if networks == old(networks) && network !in networks {
        WithoutAbsent(networks, network);
      }
    }

    static method Position(bucket: seq<Network>, network: Network) returns (index: int)
      ensures -1 <= index < |bucket|
      ensures index >= 0 ==> bucket[..index] + bucket[index + 1..] == Without(bucket, network)
      ensures index == -1 ==> Without(bucket, network) == bucket
    {
      for i := 0 to |bucket|
        invariant network !in bucket[..i]
      {
        if bucket[i] == network {
          WithoutLast(bucket[..i], bucket[i..], network);
          assert bucket == bucket[..i] + bucket[i..];
          return i;
        }
      }
      WithoutAbsent(bucket, network);
      index := -1;
    }
  }
}
