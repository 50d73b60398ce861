/** Derivation with the shared key cache around it.  Private and public derivations, in any
    order, use one cache whose keys are built from the text of the extended key; what they
    return must not depend on the cache. */
module CachedDerivation {
  import opened Wrappers
  import opened Text
  import opened Bytes
  import opened Curve
  import opened Bip32
  import opened ExtendedKey
  import opened HDKeyCache

  /** The primitives together with the base-58 check encoding of serialised keys. */
  datatype Library = Library(primitives: Primitives, base58check: Buffer -> string)

  ghost predicate LawfulLibrary(lib: Library) {
    && Lawful(lib.primitives.curve)
    && (forall a, b :: lib.base58check(a) == lib.base58check(b) ==> a == b)
  }

  /** What derivation returns and the cache holds. */
  datatype Derived = PrivateChild(private: PrivateKey) | PublicChild(public: PublicKey)

  type State = Cache<Derived>

  predicate ProperPrivate(lib: Library, k: PrivateKey) {
    ValidPrivate(lib.primitives, k) && PrivateSizes(k)
  }

  predicate ProperPublic(lib: Library, k: PublicKey) {
    OnCurve(lib.primitives.curve, k.point) && PublicSizes(k)
  }

  function XPrivKey(lib: Library, k: PrivateKey): string {
    lib.base58check(SerialisePrivate(k))
  }

  function XPubKey(lib: Library, k: PublicKey): string {
    lib.base58check(SerialisePublic(lib.primitives, k))
  }

  function PrivateCacheKey(lib: Library, k: PrivateKey, i: nat, hardened: bool): string {
    CacheKey(XPrivKey(lib, k), i, hardened)
  }

  function PublicCacheKey(lib: Library, k: PublicKey, i: nat): string {
    CacheKey(XPubKey(lib, k), i, false)
  }

  // ----- derivation around the cache

  function DerivePrivateCached(lib: Library, s: State, k: PrivateKey, index: int, hardened: bool)
    : (Result<Derived, Bip32.Problem>, State)
    requires lib.primitives.curve.order > 0
    decreases MAX_INDEX - index
  {
    var p := lib.primitives;
    if !ValidIndex(index, hardened) then (Failure(InvalidPath), s)
    else
      var hard := if index >= HARDENED then true else hardened;
      var i: nat := if index < HARDENED && hard then index + HARDENED else index;
      var key := PrivateCacheKey(lib, k, i, hard);
      var (cached, t) := Get(s, key);
      if cached.Some? then (Success(cached.value), t)
      else
        var digest := DigestFor(p, k, i, hard, false);
        if !ValidScalar(p.curve, ChildScalar(p, k, digest)) then DerivePrivateCached(lib, t, k, i + 1, false)
        else
          var derived := PrivateChild(ChildOf(p, k, i, digest));
          (Success(derived), Set(t, key, derived))
  }

  function DerivePublicCached(lib: Library, s: State, k: PublicKey, index: int, hardened: bool)
    : (Result<Derived, Bip32.Problem>, State)
    requires lib.primitives.curve.order > 0
    decreases HARDENED - index
  {
    var p := lib.primitives;
    if index >= HARDENED || hardened then (Failure(InvalidIndexCantDeriveHardened), s)
    else if index < 0 then (Failure(InvalidPath), s)
    else
      var key := PublicCacheKey(lib, k, index);
      var (cached, t) := Get(s, key);
      if cached.Some? then (Success(cached.value), t)
      else
        var digest := PublicDigestAt(p, k, index);
        var point := PublicPoint(p, k, digest);
        if point == INFINITY then DerivePublicCached(lib, t, k, index + 1, false)
        else
          var derived := PublicChild(PublicChildOf(p, k, index, digest));
          (Success(derived), Set(t, key, derived))
  }

  // ----- without the cache

  function AsPrivate(r: Result<PrivateKey, Bip32.Problem>): Result<Derived, Bip32.Problem> {
    match r
    case Success(k) => Success(PrivateChild(k))
    case Failure(problem) => Failure(problem)
  }

  function AsPublic(r: Result<PublicKey, Bip32.Problem>): Result<Derived, Bip32.Problem> {
    match r
    case Success(k) => Success(PublicChild(k))
    case Failure(problem) => Failure(problem)
  }

  // ----- cache keys

  lemma CacheKeyInjective(x: string, i: nat, h: bool, x': string, i': nat, h': bool)
    requires CacheKey(x, i, h) == CacheKey(x', i', h')
    ensures x == x' && i == i' && h == h'
  {
    var flag, flag' := if h then "true" else "false", if h' then "true" else "false";
    LastPieceUnique(x + ['/'] + Decimal(i), flag, x' + ['/'] + Decimal(i'), flag', '/');
    assert h ==> flag[0] == 't';
    assert !h ==> flag[0] == 'f';
    LastPieceUnique(x, Decimal(i), x', Decimal(i'), '/');
    DecimalInjective(i, i');
  }

  lemma PrivateKeysDiffer(lib: Library, k: PrivateKey, i: nat, h: bool, k': PrivateKey, i': nat, h': bool)
    requires LawfulLibrary(lib) && ProperPrivate(lib, k) && ProperPrivate(lib, k')
    requires PrivateCacheKey(lib, k, i, h) == PrivateCacheKey(lib, k', i', h')
    ensures k == k' && i == i' && h == h'
  {
    CacheKeyInjective(XPrivKey(lib, k), i, h, XPrivKey(lib, k'), i', h');
    PrivateInjective(lib.primitives, k, k');
  }

  lemma PublicKeysDiffer(lib: Library, k: PublicKey, i: nat, k': PublicKey, i': nat)
    requires LawfulLibrary(lib) && ProperPublic(lib, k) && ProperPublic(lib, k')
    requires PublicCacheKey(lib, k, i) == PublicCacheKey(lib, k', i')
    ensures k == k' && i == i'
  {
    CacheKeyInjective(XPubKey(lib, k), i, false, XPubKey(lib, k'), i', false);
    PublicInjective(lib.primitives, k, k');
  }

  lemma KindsOfKeysDiffer(lib: Library, k: PrivateKey, i: nat, h: bool, k': PublicKey, i': nat)
    requires LawfulLibrary(lib) && ProperPrivate(lib, k) && ProperPublic(lib, k')
    ensures PrivateCacheKey(lib, k, i, h) != PublicCacheKey(lib, k', i')
  {
    if PrivateCacheKey(lib, k, i, h) == PublicCacheKey(lib, k', i') {
      CacheKeyInjective(XPrivKey(lib, k), i, h, XPubKey(lib, k'), i', false);
      KindsDiffer(lib.primitives, k, k');
    }
  }

  // ----- what the cache may hold

  function ScalarFor(lib: Library, k: PrivateKey, i: nat, hardened: bool): nat
    requires lib.primitives.curve.order > 0
  {
    ChildScalar(lib.primitives, k, DigestFor(lib.primitives, k, i, hardened, false))
  }

  function ChildFor(lib: Library, k: PrivateKey, i: nat, hardened: bool): Derived
    requires lib.primitives.curve.order > 0
  {
    PrivateChild(ChildOf(lib.primitives, k, i, DigestFor(lib.primitives, k, i, hardened, false)))
  }

  /** Entries of private keys are their children, never filed under a skipped index. */
  ghost predicate PrivateCoherent(lib: Library, entries: map<string, Derived>)
    requires lib.primitives.curve.order > 0
  {
    forall k, i: nat, h :: ProperPrivate(lib, k) && PrivateCacheKey(lib, k, i, h) in entries ==>
      ScalarFor(lib, k, i, h) != 0 && entries[PrivateCacheKey(lib, k, i, h)] == ChildFor(lib, k, i, h)
  }

  ghost predicate PublicCoherent(lib: Library, entries: map<string, Derived>)
    requires lib.primitives.curve.order > 0
  {
    forall k, i: nat :: ProperPublic(lib, k) && PublicCacheKey(lib, k, i) in entries ==>
      && PublicPointAt(lib.primitives, k, i) != INFINITY
      && entries[PublicCacheKey(lib, k, i)] == PublicChild(PublicChildAt(lib.primitives, k, i))
  }

  ghost predicate Coherent(lib: Library, s: State)
    requires lib.primitives.curve.order > 0
  {
    PrivateCoherent(lib, s.entries) && PublicCoherent(lib, s.entries)
  }

  lemma CoherentSubset(lib: Library, entries: map<string, Derived>, fewer: map<string, Derived>)
    requires lib.primitives.curve.order > 0 && fewer.Items <= entries.Items
    requires PrivateCoherent(lib, entries) && PublicCoherent(lib, entries)
    ensures PrivateCoherent(lib, fewer) && PublicCoherent(lib, fewer)
  {
    forall key | key in fewer ensures key in entries && entries[key] == fewer[key] {
      assert (key, fewer[key]) in fewer.Items;
    }
  }

  lemma CoherentGet(lib: Library, s: State, key: string)
    requires lib.primitives.curve.order > 0 && Coherent(lib, s)
    ensures Coherent(lib, Get(s, key).1)
  {
    GetSubset(s, key);
    CoherentSubset(lib, s.entries, Get(s, key).1.entries);
  }

  lemma CoherentSetPrivate(lib: Library, s: State, k: PrivateKey, i: nat, h: bool)
    requires LawfulLibrary(lib) && Coherent(lib, s) && ProperPrivate(lib, k) && ScalarFor(lib, k, i, h) != 0
    ensures Coherent(lib, Set(s, PrivateCacheKey(lib, k, i, h), ChildFor(lib, k, i, h)))
  {
    var key, child := PrivateCacheKey(lib, k, i, h), ChildFor(lib, k, i, h);
    var entries := s.entries[key := child];
    forall k', i': nat, h' | ProperPrivate(lib, k') && PrivateCacheKey(lib, k', i', h') == key
      ensures k' == k && i' == i && h' == h
    {
      PrivateKeysDiffer(lib, k, i, h, k', i', h');
    }
    forall k', i': nat | ProperPublic(lib, k') ensures PublicCacheKey(lib, k', i') != key {
      KindsOfKeysDiffer(lib, k, i, h, k', i');
    }
    SetSubset(s, key, child);
    CoherentSubset(lib, entries, Set(s, key, child).entries);
  }

  lemma CoherentSetPublic(lib: Library, s: State, k: PublicKey, i: nat)
    requires LawfulLibrary(lib) && Coherent(lib, s) && ProperPublic(lib, k)
    requires PublicPointAt(lib.primitives, k, i) != INFINITY
    ensures Coherent(lib, Set(s, PublicCacheKey(lib, k, i), PublicChild(PublicChildAt(lib.primitives, k, i))))
  {
    var key, child := PublicCacheKey(lib, k, i), PublicChild(PublicChildAt(lib.primitives, k, i));
    var entries := s.entries[key := child];
    forall k', i': nat | ProperPublic(lib, k') && PublicCacheKey(lib, k', i') == key ensures k' == k && i' == i {
      PublicKeysDiffer(lib, k, i, k', i');
    }
    forall k', i': nat, h' | ProperPrivate(lib, k') ensures PrivateCacheKey(lib, k', i', h') != key {
      KindsOfKeysDiffer(lib, k', i', h', k, i);
    }
    SetSubset(s, key, child);
    CoherentSubset(lib, entries, Set(s, key, child).entries);
  }

  // ----- the cache is invisible

  /** The index that a call works on, once the hardened flag has been added to it. */
  function Hardens(index: int, hardened: bool): bool {
    if index >= HARDENED then true else hardened
  }

  function Effective(index: int, hardened: bool): int {
    if index < HARDENED && Hardens(index, hardened) then index + HARDENED else index
  }

  /** One round of private derivation with the cache. */
  lemma CachedRound(lib: Library, s: State, k: PrivateKey, index: int, hardened: bool, i: nat, hard: bool)
    requires lib.primitives.curve.order > 0 && ValidIndex(index, hardened)
    requires hard == Hardens(index, hardened) && i == Effective(index, hardened)
    ensures var (cached, t) := Get(s, PrivateCacheKey(lib, k, i, hard));
            DerivePrivateCached(lib, s, k, index, hardened)
            == if cached.Some? then (Success(cached.value), t)
               else if ScalarFor(lib, k, i, hard) == 0 then DerivePrivateCached(lib, t, k, i + 1, false)
               else (Success(ChildFor(lib, k, i, hard)), Set(t, PrivateCacheKey(lib, k, i, hard), ChildFor(lib, k, i, hard)))
  {
  }

  /** And without it. */
  lemma UncachedRound(lib: Library, k: PrivateKey, index: int, hardened: bool, i: nat, hard: bool)
    requires lib.primitives.curve.order > 0 && ValidIndex(index, hardened)
    requires hard == Hardens(index, hardened) && i == Effective(index, hardened)
    ensures AsPrivate(DerivePrivate(lib.primitives, k, index, hardened, false))
         == if ScalarFor(lib, k, i, hard) == 0 then AsPrivate(DerivePrivate(lib.primitives, k, i + 1, false, false))
            else Success(ChildFor(lib, k, i, hard))
  {
  }

  /** Cached derivation returns what derivation without the cache returns, and files nothing
      wrong, from any state that holds nothing wrong. */
  lemma {:induction false} PrivateTransparent(lib: Library, s: State, k: PrivateKey, index: int, hardened: bool)
    requires LawfulLibrary(lib) && Coherent(lib, s) && ProperPrivate(lib, k)
    ensures var (r, t) := DerivePrivateCached(lib, s, k, index, hardened);
            r == AsPrivate(DerivePrivate(lib.primitives, k, index, hardened, false)) && Coherent(lib, t)
    decreases MAX_INDEX - index
  {
    if ValidIndex(index, hardened) {
      var hard := Hardens(index, hardened);
      var i: nat := Effective(index, hardened);
      var key := PrivateCacheKey(lib, k, i, hard);
      CachedRound(lib, s, k, index, hardened, i, hard);
      UncachedRound(lib, k, index, hardened, i, hard);
      GetSubset(s, key);
      CoherentGet(lib, s, key);
      if Get(s, key).0.None? {
        if ScalarFor(lib, k, i, hard) == 0 {
          PrivateTransparent(lib, Get(s, key).1, k, i + 1, false);
        } else {
          CoherentSetPrivate(lib, Get(s, key).1, k, i, hard);
        }
      }
    }
  }

  lemma {:induction false} PublicTransparent(lib: Library, s: State, k: PublicKey, index: int, hardened: bool)
    requires LawfulLibrary(lib) && Coherent(lib, s) && ProperPublic(lib, k)
    ensures var (r, t) := DerivePublicCached(lib, s, k, index, hardened);
            r == AsPublic(DerivePublic(lib.primitives, k, index, hardened)) && Coherent(lib, t)
    decreases HARDENED - index
  {
    if 0 <= index < HARDENED && !hardened {
      var key := PublicCacheKey(lib, k, index);
      GetSubset(s, key);
      CoherentGet(lib, s, key);
      if Get(s, key).0.None? {
        if PublicPointAt(lib.primitives, k, index) == INFINITY {
          PublicTransparent(lib, Get(s, key).1, k, index + 1, false);
        } else {
          CoherentSetPublic(lib, Get(s, key).1, k, index);
        }
      }
    }
  }

  // ----- what is stored

  lemma AfterStored<V>(size: nat, h: seq<Touch<V>>, key: string, value: V)
    requires ProperKeys(h) && key != "" && size > 0
    ensures var t := Set(After(size, h), key, value);
            && t == After(size, h + [Touch(key, value)])
            && (Cached(t, key) <==> !PurgeDue(size, h, key))
            && (Cached(t, key) ==> t.entries[key] == value)
  {
    var s := After(size, h);
    AfterSnoc(size, h, Touch(key, value));
    StoreLost(size, h, key, value);
    SetSubset(s, key, value);
    if Cached(Set(s, key, value), key) {
      InSubset(Set(s, key, value).entries, s.entries[key := value], key);
    }
  }

  /** A child that had to be computed is stored, so that the same request finds it from now on
      until it leaves the cache; a purge that is due takes it at once. */
  lemma PrivateStored(lib: Library, size: nat, h: seq<Touch<Derived>>, k: PrivateKey, index: int, hardened: bool,
                      i: nat, hard: bool)
    requires lib.primitives.curve.order > 0 && size > 0 && ProperKeys(h) && ValidIndex(index, hardened)
    requires hard == Hardens(index, hardened) && i == Effective(index, hardened)
    requires !Cached(After(size, h), PrivateCacheKey(lib, k, i, hard)) && ScalarFor(lib, k, i, hard) != 0
    ensures var key := PrivateCacheKey(lib, k, i, hard);
            var t := DerivePrivateCached(lib, After(size, h), k, index, hardened).1;
            && t == After(size, h + [Touch(key, ChildFor(lib, k, i, hard))])
            && (Cached(t, key) <==> !PurgeDue(size, h, key))
            && (Cached(t, key) ==> t.entries[key] == ChildFor(lib, k, i, hard))
  {
    CachedRound(lib, After(size, h), k, index, hardened, i, hard);
    AfterStored(size, h, PrivateCacheKey(lib, k, i, hard), ChildFor(lib, k, i, hard));
  }

  lemma PublicCachedRound(lib: Library, s: State, k: PublicKey, i: nat)
    requires lib.primitives.curve.order > 0 && i < HARDENED
    ensures var child := PublicChild(PublicChildAt(lib.primitives, k, i));
            var (cached, t) := Get(s, PublicCacheKey(lib, k, i));
            DerivePublicCached(lib, s, k, i, false)
            == if cached.Some? then (Success(cached.value), t)
               else if PublicPointAt(lib.primitives, k, i) == INFINITY then DerivePublicCached(lib, t, k, i + 1, false)
               else (Success(child), Set(t, PublicCacheKey(lib, k, i), child))
  {
  }

  lemma PublicStored(lib: Library, size: nat, h: seq<Touch<Derived>>, k: PublicKey, i: nat)
    requires lib.primitives.curve.order > 0 && size > 0 && ProperKeys(h) && i < HARDENED
    requires !Cached(After(size, h), PublicCacheKey(lib, k, i)) && PublicPointAt(lib.primitives, k, i) != INFINITY
    ensures var key := PublicCacheKey(lib, k, i);
            var child := PublicChild(PublicChildAt(lib.primitives, k, i));
            var t := DerivePublicCached(lib, After(size, h), k, i, false).1;
            && t == After(size, h + [Touch(key, child)])
            && (Cached(t, key) <==> !PurgeDue(size, h, key))
            && (Cached(t, key) ==> t.entries[key] == child)
  {
    PublicCachedRound(lib, After(size, h), k, i);
    AfterStored(size, h, PublicCacheKey(lib, k, i), PublicChild(PublicChildAt(lib.primitives, k, i)));
  }

  /** A request for a cached child takes it from there and counts as a use of it. */
  lemma PrivateFound(lib: Library, size: nat, h: seq<Touch<Derived>>, k: PrivateKey, index: int, hardened: bool,
                     i: nat, hard: bool)
    requires lib.primitives.curve.order > 0 && size > 0 && ProperKeys(h) && ValidIndex(index, hardened)
    requires hard == Hardens(index, hardened) && i == Effective(index, hardened)
    requires var key := PrivateCacheKey(lib, k, i, hard); Cached(After(size, h), key) && !PurgeDue(size, h, key)
    ensures var key := PrivateCacheKey(lib, k, i, hard);
            var s := After(size, h);
            DerivePrivateCached(lib, s, k, index, hardened)
            == (Success(s.entries[key]), After(size, h + [Touch(key, s.entries[key])]))
  {
    var key := PrivateCacheKey(lib, k, i, hard);
    var s := After(size, h);
    CachedRound(lib, s, k, index, hardened, i, hard);
    LookupLost(size, h, key);
    GetSubset(s, key);
    GetIsSet(s, key);
    AfterSnoc(size, h, Touch(key, s.entries[key]));
  }

  // ----- runs

  /** A call that some client of the library makes. */
  datatype Request =
    | DerivingPrivate(private: PrivateKey, index: int, hardened: bool)
    | DerivingPublic(public: PublicKey, index: int, hardened: bool)

  predicate ProperRequest(lib: Library, q: Request) {
    match q
    case DerivingPrivate(k, _, _) => ProperPrivate(lib, k)
    case DerivingPublic(k, _, _) => ProperPublic(lib, k)
  }

  function Serve(lib: Library, s: State, q: Request): (Result<Derived, Bip32.Problem>, State)
    requires lib.primitives.curve.order > 0
  {
    match q
    case DerivingPrivate(k, index, hardened) => DerivePrivateCached(lib, s, k, index, hardened)
    case DerivingPublic(k, index, hardened) => DerivePublicCached(lib, s, k, index, hardened)
  }

  function Uncached(lib: Library, q: Request): Result<Derived, Bip32.Problem>
    requires lib.primitives.curve.order > 0
  {
    match q
    case DerivingPrivate(k, index, hardened) => AsPrivate(DerivePrivate(lib.primitives, k, index, hardened, false))
    case DerivingPublic(k, index, hardened) => AsPublic(DerivePublic(lib.primitives, k, index, hardened))
  }

  predicate ProperDerived(lib: Library, d: Derived) {
    match d
    case PrivateChild(k) => ProperPrivate(lib, k)
    case PublicChild(k) => ProperPublic(lib, k)
  }

  /** What proper requests return may be used in further requests. */
  lemma {:induction false} PrivateResultProper(lib: Library, k: PrivateKey, index: int, hardened: bool)
    requires LawfulLibrary(lib) && ProperPrivate(lib, k)
    requires DerivePrivate(lib.primitives, k, index, hardened, false).Success?
    ensures ProperPrivate(lib, DerivePrivate(lib.primitives, k, index, hardened, false).value)
    decreases MAX_INDEX - index
  {
    var hard := Hardens(index, hardened);
    var i: nat := Effective(index, hardened);
    UncachedRound(lib, k, index, hardened, i, hard);
    if ScalarFor(lib, k, i, hard) == 0 {
      PrivateResultProper(lib, k, i + 1, false);
    }
  }

  lemma {:induction false} PublicResultProper(lib: Library, k: PublicKey, index: int, hardened: bool)
    requires LawfulLibrary(lib) && ProperPublic(lib, k)
    requires DerivePublic(lib.primitives, k, index, hardened).Success?
    ensures ProperPublic(lib, DerivePublic(lib.primitives, k, index, hardened).value)
    decreases HARDENED - index
  {
    if PublicPointAt(lib.primitives, k, index) == INFINITY {
      PublicResultProper(lib, k, index + 1, false);
    }
  }

  lemma ResultProper(lib: Library, q: Request)
    requires LawfulLibrary(lib) && ProperRequest(lib, q) && Uncached(lib, q).Success?
    ensures ProperDerived(lib, Uncached(lib, q).value)
  {
    match q
    case DerivingPrivate(k, index, hardened) => PrivateResultProper(lib, k, index, hardened);
    case DerivingPublic(k, index, hardened) => PublicResultProper(lib, k, index, hardened);
  }

  /** The results of a run of requests that share the cache. */
  function ServeAll(lib: Library, s: State, requests: seq<Request>): (results: seq<Result<Derived, Bip32.Problem>>)
    requires lib.primitives.curve.order > 0
    ensures |results| == |requests|
    decreases requests
  {
    if requests == [] then []
    else
      var (r, t) := Serve(lib, s, requests[0]);
      [r] + ServeAll(lib, t, requests[1..])
  }

  /** However private and public derivations interleave, and whatever the size of the cache,
      every result is the one without the cache. */
  lemma {:induction false} CacheIsInvisible(lib: Library, s: State, requests: seq<Request>, i: nat)
    requires LawfulLibrary(lib) && Coherent(lib, s) && i < |requests|
    requires forall j :: 0 <= j < |requests| ==> ProperRequest(lib, requests[j])
    ensures ServeAll(lib, s, requests)[i] == Uncached(lib, requests[i])
    decreases requests
  {
    var q := requests[0];
    match q {
      case DerivingPrivate(k, index, hardened) => PrivateTransparent(lib, s, k, index, hardened);
      case DerivingPublic(k, index, hardened) => PublicTransparent(lib, s, k, index, hardened);
    }
    if i > 0 {
      CacheIsInvisible(lib, Serve(lib, s, q).1, requests[1..], i - 1);
    }
  }

  lemma EmptyCoherent(lib: Library, size: nat)
    requires lib.primitives.curve.order > 0
    ensures Coherent(lib, Empty(size))
  {
  }

  /** In particular from the empty cache that the library starts with. */
  lemma CacheNeverNoticed(lib: Library, size: nat, requests: seq<Request>)
    requires LawfulLibrary(lib) && forall j :: 0 <= j < |requests| ==> ProperRequest(lib, requests[j])
    ensures ServeAll(lib, Empty(size), requests) == UncachedAll(lib, requests)
  {
    EmptyCoherent(lib, size);
    forall i | 0 <= i < |requests| ensures ServeAll(lib, Empty(size), requests)[i] == Uncached(lib, requests[i]) {
      CacheIsInvisible(lib, Empty(size), requests, i);
    }
  }

  function UncachedAll(lib: Library, requests: seq<Request>): (results: seq<Result<Derived, Bip32.Problem>>)
    requires lib.primitives.curve.order > 0
    ensures |results| == |requests|
  {
    seq(|requests|, i requires 0 <= i < |requests| => Uncached(lib, requests[i]))
  }

  // ----- the code itself: together with the lemmas on transparency, what it returns is what
  // derivation without the cache returns

  method DerivePrivateWith(lib: Library, cache: HDKeyCache<Derived>, k: PrivateKey, index: int, hardened: bool)
    returns (r: Result<Derived, Bip32.Problem>)
    requires lib.primitives.curve.order > 0
    modifies cache
    ensures (r, cache.State()) == DerivePrivateCached(lib, old(cache.State()), k, index, hardened)
    decreases MAX_INDEX - index, 1
  {
    if !ValidIndex(index, hardened) {
      return Failure(InvalidPath);
    }
    var hard := if index >= HARDENED then true else hardened;
    var i: nat := if index < HARDENED && hard then index + HARDENED else index;
    CachedRound(lib, cache.State(), k, index, hardened, i, hard);
    var cached := cache.GetEntry(XPrivKey(lib, k), i, hard);
    if cached.Some? {
      return Success(cached.value);
    }
    r := DerivePrivateMissed(lib, cache, k, i, hard);
  }

  /** What follows a failed look-up. */
  method DerivePrivateMissed(lib: Library, cache: HDKeyCache<Derived>, k: PrivateKey, i: nat, hard: bool)
    returns (r: Result<Derived, Bip32.Problem>)
    requires lib.primitives.curve.order > 0 && i < MAX_INDEX
    modifies cache
    ensures ScalarFor(lib, k, i, hard) == 0 ==>
      (r, cache.State()) == DerivePrivateCached(lib, old(cache.State()), k, i + 1, false)
    ensures ScalarFor(lib, k, i, hard) != 0 ==>
      && r == Success(ChildFor(lib, k, i, hard))
      && cache.State() == Set(old(cache.State()), PrivateCacheKey(lib, k, i, hard), ChildFor(lib, k, i, hard))
    decreases MAX_INDEX - i, 0
  {
    var digest := DigestFor(lib.primitives, k, i, hard, false);
    if !ValidScalar(lib.primitives.curve, ChildScalar(lib.primitives, k, digest)) {
      r := DerivePrivateWith(lib, cache, k, i + 1, false);
      return;
    }
    var derived := PrivateChild(ChildOf(lib.primitives, k, i, digest));
    cache.SetEntry(XPrivKey(lib, k), i, hard, derived);
    r := Success(derived);
  }

  method DerivePublicWith(lib: Library, cache: HDKeyCache<Derived>, k: PublicKey, index: int, hardened: bool)
    returns (r: Result<Derived, Bip32.Problem>)
    requires lib.primitives.curve.order > 0
    modifies cache
    ensures (r, cache.State()) == DerivePublicCached(lib, old(cache.State()), k, index, hardened)
    decreases HARDENED - index
  {
    if index >= HARDENED || hardened {
      return Failure(InvalidIndexCantDeriveHardened);
    }
    if index < 0 {
      return Failure(InvalidPath);
    }
    var cached := cache.GetEntry(XPubKey(lib, k), index, false);
    if cached.Some? {
      return Success(cached.value);
    }
    var digest := PublicDigestAt(lib.primitives, k, index);
    if PublicPoint(lib.primitives, k, digest) == INFINITY {
      r := DerivePublicWith(lib, cache, k, index + 1, false);
      return;
    }
    var derived := PublicChild(PublicChildOf(lib.primitives, k, index, digest));
    cache.SetEntry(XPubKey(lib, k), index, false, derived);
    r := Success(derived);
  }
}
