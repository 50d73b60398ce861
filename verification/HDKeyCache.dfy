/** The bounded cache of derived keys: a map of entries, a logical clock, and two maps that
    remember which slot of the clock belongs to which key.  Slot 0 reads as "not used" in one
    test of the code, so a second touch of the first key does not free it, and when it is
    erased it takes the key's entry with it; that leaves the key's next slot behind, which does
    the same in its turn.  CachedExactly says of every key at every time whether it is cached. */
module HDKeyCache {
  import opened Wrappers
  import opened Text

  datatype Cache<V> = Cache(
    size: nat, entries: map<string, V>, usedList: map<nat, string>, usedIndex: map<string, nat>, count: nat, eraseIndex: nat)

  function Empty<V>(size: nat): Cache<V> {
    Cache(size, map[], map[], map[], 0, 0)
  }

  /** The key under which a derivation is filed. */
  function CacheKey(xkey: string, number: nat, hardened: bool): (key: string)
    ensures key != ""
  {
    xkey + ['/'] + Decimal(number) + ['/'] + if hardened then "true" else "false"
  }

  // ----- the operations as functions

  /** One round of the loop in _cacheRemove. */
  function EraseSlot<V>(s: Cache<V>): Cache<V> {
    var e := s.eraseIndex;
    var t := if e in s.usedList && s.usedList[e] != "" then
               s.(usedIndex := s.usedIndex - {s.usedList[e]}, entries := s.entries - {s.usedList[e]})
             else s;
    t.(usedList := t.usedList - {e}, eraseIndex := e + 1)
  }

  function EraseAll<V>(s: Cache<V>): Cache<V>
    decreases s.count - s.size - s.eraseIndex
  {
    if s.eraseIndex < s.count - s.size then EraseAll(EraseSlot(s)) else s
  }

  /** The slot that a hit frees: none if the key's slot is 0, which is falsy. */
  function FreeOldSlot<V>(s: Cache<V>, key: string): map<nat, string> {
    if key in s.usedIndex && s.usedIndex[key] != 0 then s.usedList - {s.usedIndex[key]} else s.usedList
  }

  function Mark<V>(s: Cache<V>, key: string): Cache<V> {
    s.(usedList := FreeOldSlot(s, key)[s.count := key], usedIndex := s.usedIndex[key := s.count], count := s.count + 1)
  }

  function Hit<V>(s: Cache<V>, key: string): Cache<V> {
    EraseAll(Mark(s, key))
  }

  function Lookup<V>(s: Cache<V>, key: string): Option<V> {
    if key in s.entries then Some(s.entries[key]) else None
  }

  /** A successful look-up is a hit, after which the entry is read again. */
  function Get<V>(s: Cache<V>, key: string): (Option<V>, Cache<V>) {
    if key in s.entries then (Lookup(Hit(s, key), key), Hit(s, key)) else (None, s)
  }

  function Set<V>(s: Cache<V>, key: string, value: V): Cache<V> {
    Hit(s.(entries := s.entries[key := value]), key)
  }

  // ----- what every operation keeps

  ghost predicate SlotsInWindow<V>(s: Cache<V>) {
    forall i :: i in s.usedList ==> s.eraseIndex <= i < s.count && s.usedList[i] != ""
  }

  /** Every remembered key points to a live slot of the window that points back to it. */
  ghost predicate KeysHaveSlots<V>(s: Cache<V>) {
    forall key :: key in s.usedIndex ==>
      && s.eraseIndex <= s.usedIndex[key] < s.count
      && s.usedIndex[key] in s.usedList && s.usedList[s.usedIndex[key]] == key
  }

  ghost predicate Valid<V>(s: Cache<V>) {
    && s.entries.Keys == s.usedIndex.Keys
    && s.eraseIndex == (if s.count < s.size then 0 else s.count - s.size)
    && SlotsInWindow(s)
    && KeysHaveSlots(s)
  }

  /** From a valid state one hit erases at most one slot. */
  lemma HitErasesOne<V>(s: Cache<V>, key: string)
    requires s.eraseIndex == if s.count < s.size then 0 else s.count - s.size
    ensures Hit(s, key) == if s.count < s.size then Mark(s, key) else EraseSlot(Mark(s, key))
  {
    var m := Mark(s, key);
    if s.count >= s.size {
      assert EraseAll(EraseSlot(m)) == EraseSlot(m);
    }
  }

  lemma MarkSlots<V>(s: Cache<V>, key: string)
    requires SlotsInWindow(s) && KeysHaveSlots(s) && key != "" && s.eraseIndex <= s.count
    ensures SlotsInWindow(Mark(s, key)) && KeysHaveSlots(Mark(s, key))
  {
  }

  lemma EraseSlotSlots<V>(s: Cache<V>)
    requires SlotsInWindow(s) && KeysHaveSlots(s)
    ensures SlotsInWindow(EraseSlot(s)) && KeysHaveSlots(EraseSlot(s))
    ensures s.entries.Keys == s.usedIndex.Keys ==> EraseSlot(s).entries.Keys == EraseSlot(s).usedIndex.Keys
  {
  }

  lemma MarkKeys<V>(s: Cache<V>, key: string, value: V)
    requires s.entries.Keys == s.usedIndex.Keys
    ensures var m := Mark(s.(entries := s.entries[key := value]), key); m.entries.Keys == m.usedIndex.Keys
  {
  }

  lemma SetValid<V>(s: Cache<V>, key: string, value: V)
    requires Valid(s) && key != ""
    ensures Valid(Set(s, key, value))
    ensures Set(s, key, value).count == s.count + 1 && Set(s, key, value).size == s.size
  {
    var t := s.(entries := s.entries[key := value]);
    HitErasesOne(t, key);
    MarkKeys(s, key, value);
    MarkSlots(t, key);
    if s.count >= s.size {
      EraseSlotSlots(Mark(t, key));
    }
  }

  /** A hit may drop entries and changes none. */
  lemma {:induction false} ErasedSubset<V>(s: Cache<V>)
    ensures EraseAll(s).entries.Items <= s.entries.Items
    decreases s.count - s.size - s.eraseIndex
  {
    if s.eraseIndex < s.count - s.size {
      ErasedSubset(EraseSlot(s));
    }
  }

  lemma GetSubset<V>(s: Cache<V>, key: string)
    ensures Get(s, key).1.entries.Items <= s.entries.Items
    ensures Get(s, key).0.Some? ==> key in s.entries && Get(s, key).0.value == s.entries[key]
  {
    ErasedSubset(Mark(s, key));
    assert Hit(s, key).entries.Items <= s.entries.Items;
    if key in Hit(s, key).entries {
      assert (key, Hit(s, key).entries[key]) in Hit(s, key).entries.Items;
    }
  }

  lemma SetSubset<V>(s: Cache<V>, key: string, value: V)
    ensures Set(s, key, value).entries.Items <= s.entries[key := value].Items
  {
    ErasedSubset(Mark(s.(entries := s.entries[key := value]), key));
  }

  lemma GetIsSet<V>(s: Cache<V>, key: string)
    requires key in s.entries
    ensures Get(s, key).1 == Set(s, key, s.entries[key])
  {
    assert s.entries[key := s.entries[key]] == s.entries;
  }

  lemma GetValid<V>(s: Cache<V>, key: string)
    requires Valid(s) && key != ""
    ensures Valid(Get(s, key).1)
  {
    if key in s.entries {
      GetIsSet(s, key);
      SetValid(s, key, s.entries[key]);
    }
  }

  /** The slot next to be erased belongs to the key, and a hit does not free it first: it is the
      falsy slot, or a stale one. */
  predicate LosesOnHit<V>(s: Cache<V>, key: string) {
    && s.count >= s.size
    && s.eraseIndex in s.usedList && s.usedList[s.eraseIndex] == key
    && key in s.usedIndex && (s.eraseIndex == 0 || s.usedIndex[key] != s.eraseIndex)
  }

  /** A look-up of a cached key returns its entry, except that the hit itself erases it in
      exactly these states. */
  lemma HitLost<V>(s: Cache<V>, key: string)
    requires Valid(s) && key in s.entries
    ensures Get(s, key).0 == if LosesOnHit(s, key) then None else Some(s.entries[key])
  {
    HitErasesOne(s, key);
    assert key in s.usedIndex;
  }

  /** An injection into an interval bounds the size of a map. */
  lemma {:induction false} InjectionBound(m: map<string, nat>, low: nat, high: nat)
    requires low <= high
    requires forall key :: key in m ==> low <= m[key] < high
    requires forall k, l :: k in m && l in m && m[k] == m[l] ==> k == l
    ensures |m| <= high - low
    decreases high - low
  {
    if low == high {
      assert m.Keys == {};
    } else if k :| k in m && m[k] == high - 1 {
      InjectionBound(m - {k}, low, high - 1);
      assert m.Keys == (m - {k}).Keys + {k};
    } else {
      InjectionBound(m, low, high - 1);
    }
  }

  lemma {:induction false} SlotBound(m: map<nat, string>, low: nat, high: nat)
    requires low <= high && forall i :: i in m ==> low <= i < high
    ensures |m| <= high - low
    decreases high - low
  {
    if low == high {
      assert m.Keys == {};
    } else {
      SlotBound(m - {high - 1}, low, high - 1);
      assert m.Keys <= (m - {high - 1}).Keys + {high - 1};
    }
  }

  /** No map ever holds more than the configured number of keys. */
  lemma SizeBound<V>(s: Cache<V>)
    requires Valid(s)
    ensures |s.entries| <= s.size && |s.usedIndex| <= s.size && |s.usedList| <= s.size
  {
    var window := if s.count < s.size then s.count else s.size;
    forall k, l | k in s.usedIndex && l in s.usedIndex && s.usedIndex[k] == s.usedIndex[l] ensures k == l {
      assert s.usedList[s.usedIndex[k]] == k;
    }
    InjectionBound(s.usedIndex, s.eraseIndex, s.count);
    SlotBound(s.usedList, s.eraseIndex, s.count);
    assert |s.entries| == |s.entries.Keys| == |s.usedIndex.Keys|;
  }

  // ----- histories of touches

  datatype Touch<V> = Touch(key: string, value: V)

  /** The state after a history of touches, each of them a set or a successful get. */
  function After<V>(size: nat, h: seq<Touch<V>>): Cache<V> {
    if h == [] then Empty(size) else Set(After(size, h[..|h| - 1]), h[|h| - 1].key, h[|h| - 1].value)
  }

  predicate ProperKeys<V>(h: seq<Touch<V>>) {
    forall i :: 0 <= i < |h| ==> h[i].key != ""
  }

  lemma {:induction false} AfterValid<V>(size: nat, h: seq<Touch<V>>)
    requires ProperKeys(h)
    ensures Valid(After(size, h)) && After(size, h).count == |h| && After(size, h).size == size
  {
    if h != [] {
      var n := |h| - 1;
      AfterValid(size, h[..n]);
      SetValid(After(size, h[..n]), h[n].key, h[n].value);
    }
  }

  function LastTouch<V>(h: seq<Touch<V>>, key: string): (at: Option<nat>)
    ensures at.Some? ==> at.value < |h| && h[at.value].key == key
  {
    if h == [] then None
    else if h[|h| - 1].key == key then Some(|h| - 1)
    else LastTouch(h[..|h| - 1], key)
  }

  /** The key's last touch is among the `size` most recent touches. */
  predicate Recent<V>(size: nat, h: seq<Touch<V>>, key: string) {
    LastTouch(h, key).Some? && LastTouch(h, key).value >= |h| - size
  }

  predicate Cached<V>(s: Cache<V>, key: string) {
    key in s.entries
  }

  /** What the state remembers of a key is its last touch. */
  predicate RemembersLast<V>(s: Cache<V>, h: seq<Touch<V>>, key: string) {
    key in s.usedIndex ==> LastTouch(h, key) == Some(s.usedIndex[key])
  }

  /** The key owns no slot but the one it points to. */
  predicate NoStaleSlot<V>(s: Cache<V>, key: string) {
    forall i :: i in s.usedList && s.usedList[i] == key ==> key in s.usedIndex && s.usedIndex[key] == i
  }

  lemma RememberStep<V>(s: Cache<V>, h: seq<Touch<V>>, touch: Touch<V>, key: string)
    requires Valid(s) && touch.key != "" && s.count == |h| && RemembersLast(s, h, key)
    ensures RemembersLast(Set(s, touch.key, touch.value), h + [touch], key)
  {
    var t := s.(entries := s.entries[touch.key := touch.value]);
    HitErasesOne(t, touch.key);
    assert (h + [touch])[..|h|] == h;
  }

  /** Every cached key, the first one included, was touched recently. */
  lemma {:induction false} CachedIsRecent<V>(size: nat, h: seq<Touch<V>>, key: string)
    requires ProperKeys(h)
    ensures RemembersLast(After(size, h), h, key)
    ensures Cached(After(size, h), key) ==> Recent(size, h, key)
  {
    AfterValid(size, h);
    if h != [] {
      var n := |h| - 1;
      AfterValid(size, h[..n]);
      CachedIsRecent(size, h[..n], key);
      RememberStep(After(size, h[..n]), h[..n], h[n], key);
      assert h == h[..n] + [h[n]];
    }
  }

  /** What holds of keys that never own a stale slot. */
  predicate Exact<V>(s: Cache<V>, h: seq<Touch<V>>, key: string) {
    RemembersLast(s, h, key) && NoStaleSlot(s, key) && (Cached(s, key) <==> Recent(s.size, h, key))
  }

  lemma ExactStepOther<V>(s: Cache<V>, h: seq<Touch<V>>, touch: Touch<V>, key: string)
    requires Valid(s) && touch.key != "" && s.count == |h| && Exact(s, h, key) && touch.key != key
    ensures Exact(Set(s, touch.key, touch.value), h + [touch], key)
  {
    HitErasesOne(s.(entries := s.entries[touch.key := touch.value]), touch.key);
    assert (h + [touch])[..|h|] == h;
  }

  lemma ExactStepSame<V>(s: Cache<V>, h: seq<Touch<V>>, touch: Touch<V>)
    requires Valid(s) && touch.key != "" && s.count == |h| && Exact(s, h, touch.key)
    requires !(touch.key in s.usedIndex && s.usedIndex[touch.key] == 0)
    ensures Exact(Set(s, touch.key, touch.value), h + [touch], touch.key)
  {
    HitErasesOne(s.(entries := s.entries[touch.key := touch.value]), touch.key);
    assert (h + [touch])[..|h|] == h;
  }

  /** The key was touched first of all, and again within the next `size` touches. */
  predicate RetouchedEarly<V>(size: nat, h: seq<Touch<V>>, key: string) {
    h != [] && h[0].key == key && exists j :: 1 <= j < |h| && j <= size && h[j].key == key
  }

  /** All other keys are cached exactly while they are recent, and own at most one slot. */
  lemma {:induction false} ExactUnlessRetouched<V>(size: nat, h: seq<Touch<V>>, key: string)
    requires ProperKeys(h) && !RetouchedEarly(size, h, key)
    ensures Exact(After(size, h), h, key)
  {
    if h != [] {
      var n := |h| - 1;
      var s := After(size, h[..n]);
      AfterValid(size, h[..n]);
      if RetouchedEarly(size, h[..n], key) {
        RetouchedLater(size, h, n, key);
      }
      ExactUnlessRetouched(size, h[..n], key);
      assert h == h[..n] + [h[n]];
      if h[n].key == key {
        if key in s.usedIndex && s.usedIndex[key] == 0 {
          FalsySlotRetouched(s, h);
        }
        ExactStepSame(s, h[..n], h[n]);
      } else {
        ExactStepOther(s, h[..n], h[n], key);
      }
    }
  }

  /** The falsy slot is met only by the early second touch of the first key. */
  lemma FalsySlotRetouched<V>(s: Cache<V>, h: seq<Touch<V>>)
    requires h != [] && Valid(s) && s.count == |h| - 1
    requires h[|h| - 1].key in s.usedIndex && s.usedIndex[h[|h| - 1].key] == 0
    requires RemembersLast(s, h[..|h| - 1], h[|h| - 1].key)
    ensures RetouchedEarly(s.size, h, h[|h| - 1].key)
  {
    assert h[..|h| - 1][0] == h[0];
  }

  lemma RetouchedLater<V>(size: nat, h: seq<Touch<V>>, n: nat, key: string)
    requires n <= |h| && RetouchedEarly(size, h[..n], key)
    ensures RetouchedEarly(size, h, key)
  {
    var j :| 1 <= j < |h[..n]| && j <= size && h[..n][j].key == key;
    assert h[j].key == key;
  }

  /** Until the window is full nothing is erased, and slot 0 stays with the first key. */
  lemma {:induction false} SlotZeroStays<V>(size: nat, h: seq<Touch<V>>)
    requires ProperKeys(h) && 0 < |h| <= size
    ensures 0 in After(size, h).usedList && After(size, h).usedList[0] == h[0].key
  {
    var n := |h| - 1;
    AfterValid(size, h[..n]);
    HitErasesOne(After(size, h[..n]).(entries := After(size, h[..n]).entries[h[n].key := h[n].value]), h[n].key);
    if n > 0 {
      SlotZeroStays(size, h[..n]);
    }
  }

  /** Until the window is full everything touched is cached. */
  lemma {:induction false} AllCachedAtFirst<V>(size: nat, h: seq<Touch<V>>, key: string)
    requires ProperKeys(h) && |h| <= size
    ensures Cached(After(size, h), key) <==> LastTouch(h, key).Some?
  {
    if h != [] {
      var n := |h| - 1;
      AfterValid(size, h[..n]);
      HitErasesOne(After(size, h[..n]).(entries := After(size, h[..n]).entries[h[n].key := h[n].value]), h[n].key);
      AllCachedAtFirst(size, h[..n], key);
    }
  }

  lemma {:induction false} LastTouchAtLeast<V>(h: seq<Touch<V>>, j: nat)
    requires j < |h|
    ensures LastTouch(h, h[j].key).Some? && LastTouch(h, h[j].key).value >= j
  {
    if h[|h| - 1].key != h[j].key {
      LastTouchAtLeast(h[..|h| - 1], j);
    }
  }

  lemma RetouchedRecently<V>(size: nat, h: seq<Touch<V>>)
    requires |h| == size + 1 && RetouchedEarly(size, h, h[0].key)
    ensures Recent(size, h, h[0].key)
  {
    var j :| 1 <= j < |h| && j <= size && h[j].key == h[0].key;
    LastTouchAtLeast(h, j);
  }

  /** The first key, touched again early, is evicted the moment the window overflows, although
      its last touch is recent. */
  lemma EvictedEarly<V>(size: nat, h: seq<Touch<V>>)
    requires ProperKeys(h) && |h| == size + 1 && RetouchedEarly(size, h, h[0].key)
    ensures !Cached(After(size, h), h[0].key) && Recent(size, h, h[0].key)
  {
    RetouchedRecently(size, h);
    var s := After(size, h[..size]);
    AfterValid(size, h[..size]);
    SlotZeroStays(size, h[..size]);
    HitErasesOne(s.(entries := s.entries[h[size].key := h[size].value]), h[size].key);
  }

  /** A key is cached exactly while it is recent, at all times of a history. */
  predicate ExactLru<V>(size: nat, h: seq<Touch<V>>, key: string) {
    forall n :: 0 <= n <= |h| ==> (Cached(After(size, h[..n]), key) <==> Recent(size, h[..n], key))
  }

  /** The cache is an exact recency cache for a key throughout a history, unless the key was
      touched first of all and again within the next `size` touches, and the window overflowed. */
  lemma LruExactly<V>(size: nat, h: seq<Touch<V>>, key: string)
    requires ProperKeys(h)
    ensures ExactLru(size, h, key) <==> !(RetouchedEarly(size, h, key) && |h| > size)
  {
    if RetouchedEarly(size, h, key) && |h| > size {
      var g := h[..size + 1];
      var j :| 1 <= j < |h| && j <= size && h[j].key == key;
      assert g[j].key == key && g[0].key == key;
      EvictedEarly(size, g);
    } else {
      forall n | 0 <= n <= |h| ensures Cached(After(size, h[..n]), key) <==> Recent(size, h[..n], key) {
        AfterValid(size, h[..n]);
        if |h| <= size {
          AllCachedAtFirst(size, h[..n], key);
        } else {
          if RetouchedEarly(size, h[..n], key) {
            RetouchedLater(size, h, n, key);
          }
          ExactUnlessRetouched(size, h[..n], key);
        }
      }
    }
  }

  // ----- the chain of stale slots

  /** The last touch of a key in (s, end]. */
  function LastWithin<V>(h: seq<Touch<V>>, key: string, s: nat, end: nat): (at: Option<nat>)
    ensures at.Some? ==> s < at.value <= end && at.value < |h| && h[at.value].key == key
  {
    var at := LastTouch(h[..if end < |h| then end + 1 else |h|], key);
    if at.Some? && at.value > s then at else None
  }

  /** Slots that are not freed: slot 0, and after each such slot s the last one that the key is
      given in (s, s + size].  Slot s is erased at touch s + size, and purges the key.  This is
      the slot of the chain from s that is still to be erased after a history. */
  function Pending<V>(size: nat, h: seq<Touch<V>>, key: string, s: nat): (at: Option<nat>)
    ensures at.Some? ==> at.value + size >= |h| && s <= at.value
    decreases |h| - s
  {
    if s + size >= |h| then Some(s)
    else
      match LastWithin(h, key, s, s + size)
      case None => None
      case Some(next) => Pending(size, h, key, next)
  }

  /** The touch at which the key was last purged by a slot of the chain from s, if it was, and
      otherwise what is known from before. */
  function LastPurge<V>(size: nat, h: seq<Touch<V>>, key: string, s: nat, before: Option<nat>): (at: Option<nat>)
    ensures (before.Some? ==> before.value < |h|) && at.Some? ==> at.value < |h|
    decreases |h| - s
  {
    if s + size >= |h| then before
    else
      match LastWithin(h, key, s, s + size)
      case None => Some(s + size)
      case Some(next) => LastPurge(size, h, key, next, Some(s + size))
  }

  /** The next touch purges the key. */
  predicate PurgeDue<V>(size: nat, h: seq<Touch<V>>, key: string) {
    h != [] && h[0].key == key && Pending(size, h, key, 0) != None && Pending(size, h, key, 0).value + size == |h|
  }

  /** The last touch of the key came after it was last purged, if it ever was. */
  predicate TouchedSincePurge<V>(size: nat, h: seq<Touch<V>>, key: string) {
    h != [] && h[0].key == key && LastPurge(size, h, key, 0, None).Some? ==>
      LastTouch(h, key).Some? && LastTouch(h, key).value > LastPurge(size, h, key, 0, None).value
  }

  /** One history is another with one more touch. */
  ghost predicate OneMore<V>(h: seq<Touch<V>>, longer: seq<Touch<V>>) {
    |longer| == |h| + 1 && longer[..|h|] == h
  }

  lemma LastWithinStable<V>(h: seq<Touch<V>>, longer: seq<Touch<V>>, key: string, s: nat, end: nat)
    requires OneMore(h, longer) && end < |h|
    ensures LastWithin(longer, key, s, end) == LastWithin(h, key, s, end)
  {
    assert longer[..end + 1] == longer[..|h|][..end + 1];
  }

  /** With one more touch the pending slot stays, or is erased and hands over to the last touch. */
  lemma {:induction false} PendingGrows<V>(size: nat, h: seq<Touch<V>>, longer: seq<Touch<V>>, key: string, s: nat)
    requires OneMore(h, longer)
    ensures Pending(size, longer, key, s)
         == match Pending(size, h, key, s)
            case None => None
            case Some(p) => if p + size > |h| then Some(p) else LastWithin(longer, key, p, |h|)
    decreases |h| - s
  {
    if s + size < |h| {
      LastWithinStable(h, longer, key, s, s + size);
      match LastWithin(h, key, s, s + size)
      case None =>
      case Some(next) => PendingGrows(size, h, longer, key, next);
    } else if s + size == |h| {
      PendingNow(size, h, longer, key, s);
    }
  }

  lemma PendingNow<V>(size: nat, h: seq<Touch<V>>, longer: seq<Touch<V>>, key: string, s: nat)
    requires OneMore(h, longer) && s + size == |h|
    ensures Pending(size, longer, key, s) == LastWithin(longer, key, s, |h|)
  {
    var next := LastWithin(longer, key, s, s + size);
    if next.Some? {
      assert next.value + size >= |longer|;
    }
  }

  lemma {:induction false} LastPurgeGrows<V>(
    size: nat, h: seq<Touch<V>>, longer: seq<Touch<V>>, key: string, s: nat, before: Option<nat>)
    requires OneMore(h, longer)
    ensures LastPurge(size, longer, key, s, before)
         == match Pending(size, h, key, s)
            case None => LastPurge(size, h, key, s, before)
            case Some(p) => if p + size == |h| then Some(|h|) else LastPurge(size, h, key, s, before)
    decreases |h| - s
  {
    if s + size < |h| {
      LastWithinStable(h, longer, key, s, s + size);
      match LastWithin(h, key, s, s + size)
      case None =>
      case Some(next) => LastPurgeGrows(size, h, longer, key, next, Some(s + size));
    } else if s + size == |h| {
      PurgedNow(size, h, longer, key, s, before);
    }
  }

  lemma PurgedNow<V>(size: nat, h: seq<Touch<V>>, longer: seq<Touch<V>>, key: string, s: nat, before: Option<nat>)
    requires OneMore(h, longer) && s + size == |h|
    ensures LastPurge(size, longer, key, s, before) == Some(|h|)
  {
    var next := LastWithin(longer, key, s, s + size);
    if next.Some? {
      assert next.value + size >= |longer|;
    }
  }

  function Behind(s: nat, at: Option<nat>): Option<nat> {
    if at.Some? && at.value > s then at else None
  }

  lemma LastTouchSnoc<V>(h: seq<Touch<V>>, touch: Touch<V>, key: string)
    ensures LastTouch(h + [touch], key) == if touch.key == key then Some(|h|) else LastTouch(h, key)
    ensures forall s: nat :: LastWithin(h + [touch], key, s, |h|) == Behind(s, LastTouch(h + [touch], key))
  {
    assert (h + [touch])[..|h|] == h;
    assert (h + [touch])[..|h| + 1] == h + [touch];
  }

  /** The key owns the pending slot besides the one it points to, and no other; the latter is
      that of its last touch. */
  predicate Owns<V>(s: Cache<V>, key: string, last: Option<nat>, pending: Option<nat>) {
    && (key in s.usedIndex ==> last == Some(s.usedIndex[key]))
    && (forall i :: i in s.usedList && s.usedList[i] == key ==> pending == Some(i) || (key in s.usedIndex && s.usedIndex[key] == i))
    && (pending.Some? ==>
          && pending.value in s.usedList && s.usedList[pending.value] == key
          && (if key in s.usedIndex then pending.value == 0 || pending.value < s.usedIndex[key] else last == pending))
  }

  lemma MarkOwn<V>(s: Cache<V>, key: string, last: Option<nat>, pending: Option<nat>)
    requires SlotsInWindow(s) && s.count > 0 && Owns(s, key, last, pending)
    requires key in s.usedIndex && s.usedIndex[key] == 0 ==> pending == Some(0)
    ensures Owns(Mark(s, key), key, Some(s.count), pending)
  {
  }

  lemma MarkOther<V>(s: Cache<V>, other: string, key: string, last: Option<nat>, pending: Option<nat>)
    requires SlotsInWindow(s) && KeysHaveSlots(s) && Owns(s, key, last, pending) && other != key
    ensures Owns(Mark(s, other), key, last, pending)
  {
  }

  lemma OwnsErased<V>(s: Cache<V>, key: string, last: Option<nat>, pending: Option<nat>)
    requires SlotsInWindow(s) && KeysHaveSlots(s) && Owns(s, key, last, pending)
    requires s.eraseIndex in s.usedList && s.usedList[s.eraseIndex] == key && pending != Some(s.eraseIndex)
    ensures pending == None && last == Some(s.eraseIndex)
  {
  }

  /** Erasing the pending slot makes the key's last one pending, if there is another. */
  lemma EraseOwned<V>(s: Cache<V>, key: string, last: Option<nat>, pending: Option<nat>)
    requires SlotsInWindow(s) && KeysHaveSlots(s) && Owns(s, key, last, pending) && key != ""
    ensures Owns(EraseSlot(s), key, last, if pending == Some(s.eraseIndex) then Behind(s.eraseIndex, last) else pending)
    ensures key in EraseSlot(s).entries <==>
      key in s.entries && pending != Some(s.eraseIndex) && !(key in s.usedIndex && s.usedIndex[key] == s.eraseIndex)
  {
    if s.eraseIndex in s.usedList && s.usedList[s.eraseIndex] == key && pending != Some(s.eraseIndex) {
      OwnsErased(s, key, last, pending);
    }
  }

  /** What a touch makes of the pending slot. */
  function NextPending(size: nat, now: nat, last: Option<nat>, pending: Option<nat>): Option<nat> {
    if pending.Some? && pending.value + size == now then Behind(pending.value, last) else pending
  }

  lemma SetOwn<V>(s: Cache<V>, key: string, value: V, last: Option<nat>, pending: Option<nat>)
    requires Valid(s) && key != "" && s.count > 0 && s.size > 0 && Owns(s, key, last, pending)
    requires key in s.usedIndex && s.usedIndex[key] == 0 ==> pending == Some(0)
    ensures Owns(Set(s, key, value), key, Some(s.count), NextPending(s.size, s.count, Some(s.count), pending))
    ensures Cached(Set(s, key, value), key) <==> !(pending.Some? && pending.value + s.size == s.count)
  {
    var t := s.(entries := s.entries[key := value]);
    HitErasesOne(t, key);
    MarkSlots(t, key);
    MarkOwn(t, key, last, pending);
    if s.count >= s.size {
      EraseOwned(Mark(t, key), key, Some(s.count), pending);
    }
  }

  lemma MarkedOther<V>(s: Cache<V>, other: string, value: V, key: string, last: Option<nat>, pending: Option<nat>)
    requires Valid(s) && other != "" && other != key && Owns(s, key, last, pending)
    ensures var m := Mark(s.(entries := s.entries[other := value]), other);
            SlotsInWindow(m) && KeysHaveSlots(m) && Owns(m, key, last, pending)
  {
    var t := s.(entries := s.entries[other := value]);
    MarkSlots(t, other);
    MarkOther(t, other, key, last, pending);
  }

  lemma SetOther<V>(s: Cache<V>, other: string, value: V, key: string, last: Option<nat>, pending: Option<nat>)
    requires Valid(s) && key != "" && other != "" && other != key && s.size > 0 && Owns(s, key, last, pending)
    ensures Owns(Set(s, other, value), key, last, NextPending(s.size, s.count, last, pending))
    ensures Cached(Set(s, other, value), key)
       <==> Cached(s, key) && !(pending.Some? && pending.value + s.size == s.count) && s.usedIndex[key] + s.size != s.count
  {
    HitErasesOne(s.(entries := s.entries[other := value]), other);
    MarkedOther(s, other, value, key, last, pending);
    if s.count >= s.size {
      EraseOwned(Mark(s.(entries := s.entries[other := value]), other), key, last, pending);
    }
  }

  /** What holds of the first key after every history. */
  predicate FirstKeyState<V>(size: nat, h: seq<Touch<V>>, key: string) {
    && Owns(After(size, h), key, LastTouch(h, key), Pending(size, h, key, 0))
    && (Cached(After(size, h), key) <==> Recent(size, h, key) && TouchedSincePurge(size, h, key))
  }

  lemma FirstTouchState<V>(size: nat, h: seq<Touch<V>>)
    requires size > 0 && |h| == 1
    ensures FirstKeyState(size, h, h[0].key)
  {
    assert h[..0] == [];
    HitErasesOne(Empty(size).(entries := map[h[0].key := h[0].value]), h[0].key);
  }

  lemma ZeroSlotPending<V>(size: nat, h: seq<Touch<V>>, key: string)
    requires ProperKeys(h) && h != [] && FirstKeyState(size, h, key)
    requires key in After(size, h).usedIndex && After(size, h).usedIndex[key] == 0
    ensures Pending(size, h, key, 0) == Some(0)
  {
    AfterValid(size, h);
  }

  lemma SameKeyStep<V>(size: nat, h: seq<Touch<V>>, touch: Touch<V>)
    requires size > 0 && ProperKeys(h + [touch]) && h != [] && h[0].key == touch.key && FirstKeyState(size, h, touch.key)
    ensures FirstKeyState(size, h + [touch], touch.key)
  {
    assert forall i :: 0 <= i < |h| ==> h[i] == (h + [touch])[i];
    assert (h + [touch])[|h|] == touch;
    var s := After(size, h);
    AfterValid(size, h);
    if touch.key in s.usedIndex && s.usedIndex[touch.key] == 0 {
      ZeroSlotPending(size, h, touch.key);
    }
    SetOwn(s, touch.key, touch.value, LastTouch(h, touch.key), Pending(size, h, touch.key, 0));
    AfterSnoc(size, h, touch);
    LastTouchSnoc(h, touch, touch.key);
    PendingGrows(size, h, h + [touch], touch.key, 0);
    LastPurgeGrows(size, h, h + [touch], touch.key, 0, None);
  }

  lemma OtherKeyStep<V>(size: nat, h: seq<Touch<V>>, touch: Touch<V>, key: string)
    requires size > 0 && ProperKeys(h + [touch]) && h != [] && h[0].key == key != touch.key && FirstKeyState(size, h, key)
    ensures FirstKeyState(size, h + [touch], key)
  {
    assert forall i :: 0 <= i < |h| ==> h[i] == (h + [touch])[i];
    assert (h + [touch])[|h|] == touch;
    var s := After(size, h);
    AfterValid(size, h);
    SetOther(s, touch.key, touch.value, key, LastTouch(h, key), Pending(size, h, key, 0));
    AfterSnoc(size, h, touch);
    LastTouchSnoc(h, touch, key);
    PendingGrows(size, h, h + [touch], key, 0);
    LastPurgeGrows(size, h, h + [touch], key, 0, None);
  }

  lemma {:induction false} FirstKeyHolds<V>(size: nat, h: seq<Touch<V>>)
    requires size > 0 && ProperKeys(h) && h != []
    ensures FirstKeyState(size, h, h[0].key)
  {
    var n := |h| - 1;
    if n == 0 {
      FirstTouchState(size, h);
    } else {
      FirstKeyHolds(size, h[..n]);
      assert h == h[..n] + [h[n]];
      if h[n].key == h[0].key {
        SameKeyStep(size, h[..n], h[n]);
      } else {
        OtherKeyStep(size, h[..n], h[n], h[0].key);
      }
    }
  }

  /** At every time, every key is cached exactly if its last touch is among the `size` most
      recent ones and, for the first key ever touched, came after its last purge. */
  lemma CachedExactly<V>(size: nat, h: seq<Touch<V>>, key: string)
    requires ProperKeys(h)
    ensures Cached(After(size, h), key) <==> Recent(size, h, key) && TouchedSincePurge(size, h, key)
  {
    AfterValid(size, h);
    if size == 0 {
      SizeBound(After(size, h));
    } else if h != [] && h[0].key == key {
      FirstKeyHolds(size, h);
    } else {
      ExactUnlessRetouched(size, h, key);
    }
  }

  /** Storing under a key keeps the entry exactly if no purge of the key is due. */
  lemma StoreLost<V>(size: nat, h: seq<Touch<V>>, key: string, value: V)
    requires ProperKeys(h) && key != "" && size > 0
    ensures Cached(Set(After(size, h), key, value), key) <==> !PurgeDue(size, h, key)
  {
    var touch := Touch(key, value);
    AfterSnoc(size, h, touch);
    CachedExactly(size, h + [touch], key);
    LastTouchSnoc(h, touch, key);
    if h != [] && h[0].key == key {
      LastPurgeGrows(size, h, h + [touch], key, 0, None);
    }
  }

  /** And a look-up of a cached key returns nothing exactly if one is. */
  lemma LookupLost<V>(size: nat, h: seq<Touch<V>>, key: string)
    requires ProperKeys(h) && Cached(After(size, h), key)
    ensures Get(After(size, h), key).0 == None <==> PurgeDue(size, h, key)
  {
    var s := After(size, h);
    AfterValid(size, h);
    SizeBound(s);
    CachedExactly(size, h, key);
    GetIsSet(s, key);
    StoreLost(size, h, key, s.entries[key]);
  }

  /** Instances: with room for one, the entry just stored is lost to its own look-up; with room
      for two, a key touched twice is lost to the next one, is stored again, and is not there. */
  lemma LostAtOnce(a: string, v: nat)
    requires a != ""
    ensures Get(Set(Empty(1), a, v), a).0 == None
  {
    HitErasesOne(Empty(1).(entries := map[a := v]), a);
    SetValid(Empty(1), a, v);
    HitLost(Set(Empty(1), a, v), a);
  }

  lemma ThreeTouches<V>(size: nat, x: Touch<V>, y: Touch<V>, z: Touch<V>)
    ensures After(size, [x, y, z]) == Set(Set(Set(Empty(size), x.key, x.value), y.key, y.value), z.key, z.value)
  {
    AfterSnoc(size, [], x);
    AfterSnoc(size, [x], y);
    AfterSnoc(size, [x, y], z);
    assert [] + [x] == [x] && [x] + [y] == [x, y] && [x, y] + [z] == [x, y, z];
  }

  lemma DueAfterThree<V>(x: Touch<V>, y: Touch<V>, z: Touch<V>)
    requires x.key == y.key != z.key
    ensures PurgeDue(2, [x, y, z], x.key)
  {
    var h := [x, y, z];
    assert h[..3] == h && h[..2] == [x, y];
    LastTouchSnoc([x, y], z, x.key);
    assert LastWithin(h, x.key, 0, 2) == Some(1);
    assert Pending(2, h, x.key, 1) == Some(1);
  }

  lemma FirstKeyLost(a: string, b: string, v: nat)
    requires a != "" && b != "" && a != b
    ensures var s := Set(Set(Set(Empty(2), a, v), a, v), b, v); !Cached(s, a) && Cached(s, b)
  {
    var h := [Touch(a, v), Touch(a, v), Touch(b, v)];
    ThreeTouches(2, h[0], h[1], h[2]);
    EvictedEarly(2, h);
    AfterValid(2, h);
    ExactUnlessRetouched(2, h, b);
    LastTouchAtLeast(h, 2);
  }

  lemma StoredInVain(a: string, b: string, v: nat)
    requires a != "" && b != "" && a != b
    ensures var s := Set(Set(Set(Empty(2), a, v), a, v), b, v); !Cached(Set(s, a, v), a)
  {
    var h := [Touch(a, v), Touch(a, v), Touch(b, v)];
    ThreeTouches(2, h[0], h[1], h[2]);
    DueAfterThree(h[0], h[1], h[2]);
    StoreLost(2, h, a, v);
  }

  // ----- runs of the operations

  datatype Operation<V> = Getting(key: string) | Setting(key: string, value: V)

  function Apply<V>(s: Cache<V>, op: Operation<V>): Cache<V> {
    match op
    case Getting(key) => Get(s, key).1
    case Setting(key, value) => Set(s, key, value)
  }

  function Run<V>(s: Cache<V>, ops: seq<Operation<V>>): Cache<V> {
    if ops == [] then s else Apply(Run(s, ops[..|ops| - 1]), ops[|ops| - 1])
  }

  /** The touches of a run: failed look-ups leave no trace. */
  function Touches<V>(size: nat, ops: seq<Operation<V>>): seq<Touch<V>> {
    if ops == [] then []
    else
      var n := |ops| - 1;
      var s := Run(Empty(size), ops[..n]);
      match ops[n]
      case Getting(key) => Touches(size, ops[..n]) + if key in s.entries then [Touch(key, s.entries[key])] else []
      case Setting(key, value) => Touches(size, ops[..n]) + [Touch(key, value)]
  }

  /** Every run of the operations is the history of its touches, so all of the above is about
      every reachable state. */
  lemma {:induction false} RunIsHistory<V>(size: nat, ops: seq<Operation<V>>)
    ensures Run(Empty(size), ops) == After(size, Touches(size, ops))
  {
    if ops != [] {
      var n := |ops| - 1;
      var s := Run(Empty(size), ops[..n]);
      var h := Touches(size, ops[..n]);
      RunIsHistory(size, ops[..n]);
      match ops[n] {
        case Getting(key) =>
          if key in s.entries {
            GetIsSet(s, key);
            AfterSnoc(size, h, Touch(key, s.entries[key]));
          } else {
            assert h + [] == h;
          }
        case Setting(key, value) => AfterSnoc(size, h, Touch(key, value));
      }
    }
  }

  lemma AfterSnoc<V>(size: nat, h: seq<Touch<V>>, touch: Touch<V>)
    ensures After(size, h + [touch]) == Set(After(size, h), touch.key, touch.value)
  {
    assert (h + [touch])[..|h|] == h;
  }

  /** What was last stored under a key in a run. */
  function LastStored<V>(ops: seq<Operation<V>>, key: string): Option<V> {
    if ops == [] then None
    else
      match ops[|ops| - 1]
      case Setting(k, value) => if k == key then Some(value) else LastStored(ops[..|ops| - 1], key)
      case Getting(_) => LastStored(ops[..|ops| - 1], key)
  }

  lemma InSubset<V>(fewer: map<string, V>, entries: map<string, V>, key: string)
    requires fewer.Items <= entries.Items && key in fewer
    ensures key in entries && fewer[key] == entries[key]
  {
    assert (key, fewer[key]) in fewer.Items;
  }

  /** A run never finds anything under a key but what it last stored there. */
  lemma {:induction false} CachedIsLastStored<V>(size: nat, ops: seq<Operation<V>>, key: string)
    ensures Cached(Run(Empty(size), ops), key) ==> Some(Run(Empty(size), ops).entries[key]) == LastStored(ops, key)
    ensures Get(Run(Empty(size), ops), key).0.Some? ==> Get(Run(Empty(size), ops), key).0 == LastStored(ops, key)
  {
    var s := Run(Empty(size), ops);
    if ops != [] {
      var n := |ops| - 1;
      var before := Run(Empty(size), ops[..n]);
      CachedIsLastStored(size, ops[..n], key);
      match ops[n] {
        case Getting(k) =>
          GetSubset(before, k);
          if key in s.entries {
            InSubset(s.entries, before.entries, key);
          }
        case Setting(k, value) =>
          SetSubset(before, k, value);
          if key in s.entries {
            InSubset(s.entries, before.entries[k := value], key);
          }
      }
    }
    GetSubset(s, key);
  }

  // ----- the cache as the library keeps it

  class HDKeyCache<V> {
    const CACHE_SIZE: nat
    var cache: map<string, V>
    var count: nat
    var eraseIndex: nat
    var usedList: map<nat, string>
    var usedIndex: map<string, nat>

    function State(): Cache<V>
      reads this
    {
      Cache(CACHE_SIZE, cache, usedList, usedIndex, count, eraseIndex)
    }

    constructor (size: nat)
      ensures State() == Empty(size) && Valid(State())
    {
      CACHE_SIZE := size;
      cache, count, eraseIndex, usedList, usedIndex := map[], 0, 0, map[], map[];
    }

    method GetEntry(xkey: string, number: nat, hardened: bool) returns (entry: Option<V>)
      modifies this
      ensures (entry, State()) == Get(old(State()), CacheKey(xkey, number, hardened))
      ensures old(Valid(State())) ==> Valid(State())
    {
      var key := CacheKey(xkey, number, hardened);
      if Valid(State()) {
        GetValid(State(), key);
      }
      if key in cache {
        CacheHit(key);
        return if key in cache then Some(cache[key]) else None;
      }
      entry := None;
    }

    method SetEntry(xkey: string, number: nat, hardened: bool, derived: V)
      modifies this
      ensures State() == Set(old(State()), CacheKey(xkey, number, hardened), derived)
      ensures old(Valid(State())) ==> Valid(State())
    {
      var key := CacheKey(xkey, number, hardened);
      if Valid(State()) {
        SetValid(State(), key, derived);
      }
      cache := cache[key := derived];
      CacheHit(key);
    }

    method CacheHit(key: string)
      modifies this
      ensures State() == Hit(old(State()), key)
    {
      if key in usedIndex && usedIndex[key] != 0 {
        usedList := usedList - {usedIndex[key]};
      }
      usedList := usedList[count := key];
      usedIndex := usedIndex[key := count];
      count := count + 1;
      CacheRemove();
    }

    method CacheRemove()
      modifies this
      ensures State() == EraseAll(old(State()))
    {
      while eraseIndex < count - CACHE_SIZE
        invariant EraseAll(State()) == EraseAll(old(State()))
        decreases count - CACHE_SIZE - eraseIndex
      {
        if eraseIndex in usedList && usedList[eraseIndex] != "" {
          var removeKey := usedList[eraseIndex];
          usedIndex := usedIndex - {removeKey};
          cache := cache - {removeKey};
        }
        usedList := usedList - {eraseIndex};
        eraseIndex := eraseIndex + 1;
      }
    }
  }
}
