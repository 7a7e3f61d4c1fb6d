/**
 * The two in-memory representations of an hstore value and the logical value they share.
 *
 *  - `Hstore` is `map[string]pgtype.Text`; a `Text` carries a string and a `Valid` flag.
 *  - `HstoreCompat` is `map[string]*string`. A pointer is modelled as the index of the
 *    string it points at in a backing list (`PtrMap.strings`), or `None` for nil; the
 *    decoders fill that list the way the Go code fills its shared `valueStrings` slice.
 *  - Both, and the wire formats, are read through the logical value `Logical`: a map from
 *    key bytes to an optional value.
 *
 * In all three, an outer `None` is Go's nil map (SQL NULL), distinct from the empty map.
 */
module HstoreValues {
  import opened Wrappers
  import opened Bytes

  /** `pgtype.Text`: a string and whether it is present (`Valid`). */
  datatype Text = Text(s: Bytes, valid: bool)

  /** `Hstore`: nil is `None`. */
  type HstoreMap = map<Bytes, Text>
  type Hstore = Option<HstoreMap>

  /** `map[string]*string`: each key maps to nil or to a pointer into `strings`. */
  datatype PtrMap = PtrMap(strings: seq<Bytes>, ptrs: map<Bytes, Option<nat>>)

  /** `HstoreCompat`: nil is `None`. */
  type HstoreCompat = Option<PtrMap>

  /** One key/value pair as it appears on the wire: a missing value is NULL. */
  type Entry = (Bytes, Option<Bytes>)

  /** The logical hstore value both representations stand for. */
  type Logical = map<Bytes, Option<Bytes>>

  /** The value a `Text` stands for: its string when `Valid`, NULL otherwise. */
  function View(t: Text): Option<Bytes> {
    if t.valid then Some(t.s) else None
  }

  /** `NewText`: a present (non-NULL) text. */
  function NewText(s: Bytes): (t: Text)
    ensures View(t) == Some(s)
  {
    Text(s, true)
  }

  /** The `Text` the parsers and decoders store for a value: NULL is `Text{"", false}`. */
  function ToText(v: Option<Bytes>): (t: Text)
    ensures View(t) == v
    ensures !t.valid ==> t.s == []
  {
    match v
    case None => Text([], false)
    case Some(s) => NewText(s)
  }

  /** The logical value of an `Hstore` map. */
  function ViewMap(h: HstoreMap): (m: Logical)
    ensures m.Keys == h.Keys
    ensures forall k :: k in h ==> m[k] == View(h[k])
  {
    map k | k in h :: View(h[k])
  }

  /** The `Hstore` map the codec builds for a logical value. */
  function AsHstore(m: Logical): (h: HstoreMap)
    ensures h.Keys == m.Keys
    ensures forall k :: k in m ==> h[k] == ToText(m[k])
  {
    map k | k in m :: ToText(m[k])
  }

  /** Every NULL text has an empty string, as every text the codec produces does. */
  predicate IsCanonical(h: HstoreMap) {
    forall k :: k in h && !h[k].valid ==> h[k].s == []
  }

  /** No pointer dangles: every non-nil pointer indexes the backing list. */
  predicate WellFormed(p: PtrMap) {
    forall k :: k in p.ptrs && p.ptrs[k].Some? ==> p.ptrs[k].value < |p.strings|
  }

  /** No two keys share one string: each decoded value has its own slot. */
  predicate Unaliased(p: PtrMap) {
    forall k1, k2 :: k1 in p.ptrs && k2 in p.ptrs && k1 != k2 && p.ptrs[k1].Some? && p.ptrs[k2].Some?
      ==> p.ptrs[k1].value != p.ptrs[k2].value
  }

  /** The logical value of a pointer map: each pointer is dereferenced. */
  function Deref(p: PtrMap): (m: Logical)
    requires WellFormed(p)
    ensures m.Keys == p.ptrs.Keys
  {
    map k | k in p.ptrs :: if p.ptrs[k].None? then None else Some(p.strings[p.ptrs[k].value])
  }

  /**
   * `pairs` lists the entries of `m` once each, in some order: the order in which a Go
   * `for k, v := range m` loop happens to visit them.
   */
  ghost predicate IsEnumeration<V>(pairs: seq<(Bytes, V)>, m: map<Bytes, V>) {
    && |pairs| == |m|
    && (forall i :: 0 <= i < |pairs| ==> pairs[i].0 in m && m[pairs[i].0] == pairs[i].1)
    && (forall i, j :: 0 <= i < j < |pairs| ==> pairs[i].0 != pairs[j].0)
  }

  /** The keys listed in `pairs`. */
  function KeysOf<V>(pairs: seq<(Bytes, V)>): set<Bytes> {
    set i | 0 <= i < |pairs| :: pairs[i].0
  }

  /** Distinct keys: as many keys as pairs. */
  lemma {:induction false} DistinctKeysCount<V>(pairs: seq<(Bytes, V)>)
    requires forall i, j :: 0 <= i < j < |pairs| ==> pairs[i].0 != pairs[j].0
    ensures |KeysOf(pairs)| == |pairs|
  {
    if |pairs| > 0 {
      var tail := pairs[1..];
      assert forall i, j :: 0 <= i < j < |tail| ==> tail[i].0 == pairs[i + 1].0 && tail[j].0 == pairs[j + 1].0;
      DistinctKeysCount(tail);
      KeysOfCons(pairs);
    }
  }

  /** The keys of a nonempty list: its first key, which is not repeated, and the others. */
  lemma KeysOfCons<V>(pairs: seq<(Bytes, V)>)
    requires |pairs| > 0
    requires forall i, j :: 0 <= i < j < |pairs| ==> pairs[i].0 != pairs[j].0
    ensures KeysOf(pairs) == {pairs[0].0} + KeysOf(pairs[1..])
    ensures pairs[0].0 !in KeysOf(pairs[1..])
  {
    var tail := pairs[1..];
    forall k | k in KeysOf(pairs) ensures k in {pairs[0].0} + KeysOf(tail) {
      var i :| 0 <= i < |pairs| && pairs[i].0 == k;
      if i > 0 { assert tail[i - 1].0 == k; }
    }
    forall k | k in KeysOf(tail) ensures k in KeysOf(pairs) && k != pairs[0].0 {
      var i :| 0 <= i < |tail| && tail[i].0 == k;
      assert pairs[i + 1].0 == k;
    }
  }

  /** An enumeration visits every key of the map. */
  lemma EnumerationCovers<V>(pairs: seq<(Bytes, V)>, m: map<Bytes, V>)
    requires IsEnumeration(pairs, m)
    ensures KeysOf(pairs) == m.Keys
  {
    DistinctKeysCount(pairs);
    assert KeysOf(pairs) <= m.Keys;
    var missing := m.Keys - KeysOf(pairs);
    assert m.Keys == KeysOf(pairs) + missing;
    assert |m.Keys| == |KeysOf(pairs)| + |missing|;
    assert |m.Keys| == |m|;
    assert missing == {};
  }

  /** After the first pair, the rest of an enumeration enumerates the rest of the map. */
  lemma EnumerationTail<V>(pairs: seq<(Bytes, V)>, m: map<Bytes, V>)
    requires IsEnumeration(pairs, m) && |pairs| > 0
    ensures IsEnumeration(pairs[1..], m - {pairs[0].0})
  {
    var k := pairs[0].0;
    assert (m - {k}).Keys == m.Keys - {k};
    forall i | 0 <= i < |pairs| - 1
      ensures pairs[1..][i].0 in m - {k} && (m - {k})[pairs[1..][i].0] == pairs[1..][i].1
    {
      assert pairs[1..][i] == pairs[i + 1];
    }
  }

  /** Every map has an enumeration. */
  lemma {:induction false} EnumerationExists<V>(m: map<Bytes, V>) returns (pairs: seq<(Bytes, V)>)
    ensures IsEnumeration(pairs, m)
    decreases |m|
  {
    if |m| == 0 {
      pairs := [];
    } else {
      var k :| k in m;
      var rest := m - {k};
      assert rest.Keys == m.Keys - {k};
      var tail := EnumerationExists(rest);
      pairs := [(k, m[k])] + tail;
      forall i | 0 <= i < |pairs| ensures pairs[i].0 in m && m[pairs[i].0] == pairs[i].1 {
        if i > 0 { assert pairs[i] == tail[i - 1]; }
      }
      forall i, j | 0 <= i < j < |pairs| ensures pairs[i].0 != pairs[j].0 {
        assert pairs[j] == tail[j - 1];
        if i > 0 { assert pairs[i] == tail[i - 1]; }
      }
    }
  }

  /** Applies the pairs, in order, as map updates starting from `acc`: a later key wins. */
  function CollectFrom(acc: Logical, es: seq<Entry>): Logical
    decreases |es|
  {
    if |es| == 0 then acc else CollectFrom(acc[es[0].0 := es[0].1], es[1..])
  }

  /** The map that results from storing the pairs one after the other. */
  function Collect(es: seq<Entry>): Logical {
    CollectFrom(map[], es)
  }

  /** Storing a list that starts with `e` stores `e` first. */
  lemma CollectCons(acc: Logical, e: Entry, es: seq<Entry>)
    ensures CollectFrom(acc, [e] + es) == CollectFrom(acc[e.0 := e.1], es)
  {
    assert ([e] + es)[0] == e && ([e] + es)[1..] == es;
  }

  /** Storing one more pair updates that key and nothing else: the later pair wins. */
  lemma {:induction false} CollectSnoc(acc: Logical, es: seq<Entry>, e: Entry)
    ensures CollectFrom(acc, es + [e]) == CollectFrom(acc, es)[e.0 := e.1]
    decreases |es|
  {
    if |es| == 0 {
      assert es + [e] == [e];
    } else {
      assert (es + [e])[1..] == es[1..] + [e];
      CollectSnoc(acc[es[0].0 := es[0].1], es[1..], e);
    }
  }

  /** Storing an enumeration of `m` on top of `acc` gives `acc` overridden by `m`. */
  lemma {:induction false} CollectEnumeration(acc: Logical, es: seq<Entry>, m: Logical)
    requires IsEnumeration(es, m)
    ensures CollectFrom(acc, es) == acc + m
    decreases |es|
  {
    if |es| == 0 {
      assert m == map[];
    } else {
      var k := es[0].0;
      assert k in m && es[0].1 == m[k];
      EnumerationTail(es, m);
      CollectEnumeration(acc[k := m[k]], es[1..], m - {k});
      OverrideStep(acc, m, k);
    }
  }

  /** Storing one pair of `m` and then the rest of `m` is storing all of `m`. */
  lemma OverrideStep(acc: Logical, m: Logical, k: Bytes)
    requires k in m
    ensures acc[k := m[k]] + (m - {k}) == acc + m
  {
  }

  /** Storing `n` pairs adds at most `n` keys. */
  lemma {:induction false} CollectSize(acc: Logical, es: seq<Entry>)
    ensures |CollectFrom(acc, es)| <= |acc| + |es|
    decreases |es|
  {
    if |es| > 0 {
      var acc' := acc[es[0].0 := es[0].1];
      assert acc'.Keys == acc.Keys + {es[0].0};
      CollectSize(acc', es[1..]);
    }
  }

  /** The wire view of a `range` over an `Hstore`. */
  function Views(pairs: seq<(Bytes, Text)>): (es: seq<Entry>)
    ensures |es| == |pairs|
    ensures forall i :: 0 <= i < |pairs| ==> es[i] == (pairs[i].0, View(pairs[i].1))
  {
    seq(|pairs|, i requires 0 <= i < |pairs| => (pairs[i].0, View(pairs[i].1)))
  }

  lemma ViewsEnumerate(pairs: seq<(Bytes, Text)>, h: HstoreMap)
    requires IsEnumeration(pairs, h)
    ensures IsEnumeration(Views(pairs), ViewMap(h))
  {
  }

  /** The wire view of a `range` over an `HstoreCompat`: each pointer is dereferenced. */
  function DerefPairs(strings: seq<Bytes>, pairs: seq<(Bytes, Option<nat>)>): (es: seq<Entry>)
    requires forall i :: 0 <= i < |pairs| && pairs[i].1.Some? ==> pairs[i].1.value < |strings|
    ensures |es| == |pairs|
    ensures forall i :: 0 <= i < |pairs| ==> es[i].0 == pairs[i].0
    ensures forall i :: 0 <= i < |pairs| ==> es[i].1 == if pairs[i].1.None? then None else Some(strings[pairs[i].1.value])
  {
    seq(|pairs|, i requires 0 <= i < |pairs| =>
      (pairs[i].0, if pairs[i].1.None? then None else Some(strings[pairs[i].1.value])))
  }

  lemma DerefEnumerate(p: PtrMap, pairs: seq<(Bytes, Option<nat>)>)
    requires WellFormed(p) && IsEnumeration(pairs, p.ptrs)
    ensures forall i :: 0 <= i < |pairs| && pairs[i].1.Some? ==> pairs[i].1.value < |p.strings|
    ensures IsEnumeration(DerefPairs(p.strings, pairs), Deref(p))
  {
  }

  /**
   * `PGXToFasterHstore`: copies a `map[string]*string` into an `Hstore`, a nil pointer
   * becoming `Text{Valid: false}`. A nil map gives an empty, non-nil `Hstore`.
   */
  method PGXToFasterHstore(m: HstoreCompat) returns (h: HstoreMap)
    requires m.Some? ==> WellFormed(m.value)
    ensures m.None? ==> h == map[]
    ensures m.Some? ==> h == AsHstore(Deref(m.value))
  {
    h := map[];
    if m.Some? {
      var p := m.value;
      var todo := p.ptrs.Keys;
      while todo != {}
        invariant todo <= p.ptrs.Keys
        invariant h.Keys == p.ptrs.Keys - todo
        invariant forall k :: k in h ==> h[k] == ToText(Deref(p)[k])
        decreases todo
      {
        var k :| k in todo;
        var v := p.ptrs[k];
        if v.None? {
          h := h[k := Text([], false)];
        } else {
          h := h[k := NewText(p.strings[v.value])];
        }
        todo := todo - {k};
      }
      assert h == AsHstore(Deref(p));
    }
  }

  /** A logical value stored as an `Hstore` and read back is unchanged. */
  lemma ViewAsHstore(m: Logical)
    ensures ViewMap(AsHstore(m)) == m
  {
    assert forall k :: k in m ==> View(ToText(m[k])) == m[k];
  }

  /** `Hstore` to pointer map and back is the identity exactly on canonical values. */
  lemma AsHstoreViewMap(h: HstoreMap)
    ensures AsHstore(ViewMap(h)) == h <==> IsCanonical(h)
  {
    if IsCanonical(h) {
      forall k | k in h ensures ToText(View(h[k])) == h[k] {
      }
    } else {
      var k :| k in h && !h[k].valid && h[k].s != [];
      assert AsHstore(ViewMap(h))[k] != h[k];
    }
  }

  /** Storing one more key in the `Hstore` map stores it in the logical value. */
  lemma AsHstoreStore(m: Logical, k: Bytes, v: Option<Bytes>)
    ensures AsHstore(m)[k := ToText(v)] == AsHstore(m[k := v])
  {
  }

  /** Storing nil for a key keeps the `HstoreCompat` map well formed and unaliased. */
  lemma StoreNil(p: PtrMap, k: Bytes, q: PtrMap)
    requires WellFormed(p) && Unaliased(p)
    requires q.strings == p.strings && q.ptrs == p.ptrs[k := None]
    ensures WellFormed(q) && Unaliased(q) && Deref(q) == Deref(p)[k := None]
  {
  }

  /**
   * Storing a pointer to a string appended to the backing list keeps the `HstoreCompat` map well
   * formed and unaliased: no other key points at the new slot.
   */
  lemma StoreString(p: PtrMap, k: Bytes, v: Bytes, q: PtrMap)
    requires WellFormed(p) && Unaliased(p)
    requires q.strings == p.strings + [v] && q.ptrs == p.ptrs[k := Some(|q.strings| - 1)]
    ensures WellFormed(q) && Unaliased(q) && Deref(q) == Deref(p)[k := Some(v)]
  {
    assert WellFormed(q);
    forall j | j in q.ptrs
      ensures Deref(q)[j] == Deref(p)[k := Some(v)][j]
    {
      if j != k && q.ptrs[j].Some? {
        assert q.strings[q.ptrs[j].value] == p.strings[p.ptrs[j].value];
      }
    }
  }

  /** Every non-nil pointer indexes one of the first `n` strings. */
  predicate PointsBelow(p: PtrMap, n: nat) {
    forall k :: k in p.ptrs && p.ptrs[k].Some? ==> p.ptrs[k].value < n
  }

  /**
   * The state of the binary decoder after `n` pairs: its pointers reach only the first `n`
   * slots, no two share a slot, and they dereference to `m`.
   */
  predicate FilledBelow(p: PtrMap, n: nat, m: Logical) {
    n <= |p.strings| && PointsBelow(p, n) && WellFormed(p) && Unaliased(p) && DerefsTo(p, m)
  }

  /** `m` is the logical value of `p`, stated key by key. */
  predicate DerefsTo(p: PtrMap, m: Logical)
    requires WellFormed(p)
  {
    && p.ptrs.Keys == m.Keys
    && forall k :: k in p.ptrs ==> m[k] == (if p.ptrs[k].None? then None else Some(p.strings[p.ptrs[k].value]))
  }

  /** The key-by-key statement and the map equation say the same. */
  lemma DerefsToDeref(p: PtrMap, m: Logical)
    requires WellFormed(p)
    ensures DerefsTo(p, m) <==> Deref(p) == m
  {
    if DerefsTo(p, m) {
      assert forall k | k in m :: Deref(p)[k] == m[k];
    }
  }

  /**
   * Filling slot `i` of the backing list and pointing a key at it, as the binary decoder does
   * for pair `i`, keeps the `HstoreCompat` map well formed and unaliased, since no pointer reaches
   * slot `i` or beyond yet.
   */
  lemma StoreSlot(p: PtrMap, k: Bytes, i: nat, v: Bytes, q: PtrMap)
    requires PointsBelow(p, i) && i < |p.strings| && Unaliased(p)
    requires q.strings == p.strings[i := v] && q.ptrs == p.ptrs[k := Some(i)]
    ensures PointsBelow(q, i + 1) && WellFormed(q) && Unaliased(q)
    ensures Deref(q) == Deref(p)[k := Some(v)]
  {
    forall j | j in q.ptrs
      ensures Deref(q)[j] == Deref(p)[k := Some(v)][j]
    {
      if j != k && q.ptrs[j].Some? {
        assert q.strings[q.ptrs[j].value] == p.strings[p.ptrs[j].value];
      }
    }
  }

  /** Storing nil for pair `i` keeps every pointer below slot `i`. */
  lemma StoreSlotNil(p: PtrMap, k: Bytes, i: nat, q: PtrMap)
    requires PointsBelow(p, i) && i < |p.strings| && Unaliased(p)
    requires q.strings == p.strings && q.ptrs == p.ptrs[k := None]
    ensures PointsBelow(q, i + 1) && WellFormed(q) && Unaliased(q)
    ensures Deref(q) == Deref(p)[k := None]
  {
  }

  /** Everything the codec builds is canonical. */
  lemma AsHstoreCanonical(m: Logical)
    ensures IsCanonical(AsHstore(m))
  {
  }
}
