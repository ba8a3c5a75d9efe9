/** The paste store (src/lib/kv.ts) over an abstract key-value map standing
    in for Redis. Keys hold either a serialized paste record or an integer
    counter; a store built without credentials is `configured == false`.
    Operations are state-to-state functions, applied one at a time. */
module Kv {
  import opened Wrappers
  import opened Paste

  datatype Value = RecordValue(record: PasteRecord) | CountValue(count: int)

  datatype Store = Store(configured: bool, data: map<string, Value>)

  datatype StoreError =
    | NotConfigured   // "Redis not configured"
    | NotAnInteger    // INCR on a key that holds a record

  const VIEWS_SUFFIX := ":views"

  /** `m` and `m'` agree on key `k`: both lack it or both map it to the same value. */
  predicate SameAt(m: map<string, Value>, m': map<string, Value>, k: string) {
    (k in m <==> k in m') && (k in m ==> m[k] == m'[k])
  }

  /** Every key outside `keys` is left as it was. */
  ghost predicate OnlyChanged(m: map<string, Value>, m': map<string, Value>, keys: set<string>) {
    forall k :: k !in keys ==> SameAt(m, m', k)
  }

  /** The key of a paste's view counter. */
  function CounterKey(id: string): (k: string)
    ensures |k| == |PasteKey(id)| + |VIEWS_SUFFIX|
    ensures k[..|k| - |VIEWS_SUFFIX|] == PasteKey(id)
    ensures k[|k| - |VIEWS_SUFFIX|..] == VIEWS_SUFFIX
  {
    PasteKey(id) + VIEWS_SUFFIX
  }

  /** Whatever the record key holds, or `None` (null) when the store is
      not configured or the key is absent. */
  function GetPaste(s: Store, id: string): (v: Option<Value>)
    ensures !s.configured ==> v.None?
    ensures s.configured ==> (v.Some? <==> PasteKey(id) in s.data)
    ensures v.Some? ==> v.value == s.data[PasteKey(id)]
  {
    if !s.configured then None
    else if PasteKey(id) in s.data then Some(s.data[PasteKey(id)])
    else None
  }

  /** Write the record and, for a view-limited paste, a zero counter. */
  function SetPaste(s: Store, id: string, r: PasteRecord): (res: Result<Store, StoreError>)
    ensures res.Success? <==> s.configured
    ensures res.Failure? ==> res.error == NotConfigured
    ensures res.Success? ==> res.value.configured
    ensures res.Success? ==> SameAt(res.value.data, map[PasteKey(id) := RecordValue(r)], PasteKey(id))
    ensures res.Success? && r.maxViews.Some? ==>
      SameAt(res.value.data, map[CounterKey(id) := CountValue(0)], CounterKey(id))
    ensures res.Success? && r.maxViews.None? ==> SameAt(res.value.data, s.data, CounterKey(id))
    ensures res.Success? ==> OnlyChanged(s.data, res.value.data, {PasteKey(id), CounterKey(id)})
  {
    if !s.configured then Failure(NotConfigured)
    else
      var withRecord := s.data[PasteKey(id) := RecordValue(r)];
      if r.maxViews.Some? then Success(Store(true, withRecord[CounterKey(id) := CountValue(0)]))
      else Success(Store(true, withRecord))
  }

  /** Redis INCR on the counter key: an absent counter counts as 0; the new
      value is returned. */
  function IncrementViewCount(s: Store, id: string): (res: Result<(int, Store), StoreError>)
    ensures !s.configured ==> res == Failure(NotConfigured)
    ensures res.Success? ==>
      var (n, s') := res.value;
      && (CounterKey(id) !in s.data ==> n == 1)
      && (CounterKey(id) in s.data ==> s.data[CounterKey(id)] == CountValue(n - 1))
      && s'.configured
      && SameAt(s'.data, map[CounterKey(id) := CountValue(n)], CounterKey(id))
      && OnlyChanged(s.data, s'.data, {CounterKey(id)})
    ensures s.configured && CounterKey(id) in s.data && s.data[CounterKey(id)].RecordValue?
            ==> res == Failure(NotAnInteger)
    ensures s.configured && (CounterKey(id) !in s.data || s.data[CounterKey(id)].CountValue?)
            ==> res.Success?
  {
    if !s.configured then Failure(NotConfigured)
    else
      var key := CounterKey(id);
      var current := if key in s.data then s.data[key] else CountValue(0);
      match current
      case RecordValue(_) => Failure(NotAnInteger)
      case CountValue(c) => Success((c + 1, s.(data := s.data[key := CountValue(c + 1)])))
  }

  /** The counter's value, 0 when the key is absent or the store is not
      configured. The store is read, never written. */
  function GetViewCount(s: Store, id: string): (v: Value)
    ensures !s.configured ==> v == CountValue(0)
    ensures s.configured && CounterKey(id) !in s.data ==> v == CountValue(0)
    ensures s.configured && CounterKey(id) in s.data ==> v == s.data[CounterKey(id)]
  {
    if !s.configured then CountValue(0)
    else
      Lookup(s.data, CounterKey(id)).GetOr(CountValue(0))
  }

  /** Health probe: `reachable` stands for the outcome of the round trip to
      Redis, whose failures are caught and reported as `false`. */
  function Ping(s: Store, reachable: bool): (ok: bool)
    ensures ok <==> s.configured && reachable
  {
    if !s.configured then false else reachable
  }

  /** `k` successive INCRs on the same counter, with the values they return. */
  function Increments(s: Store, id: string, k: nat): Result<(seq<int>, Store), StoreError>
    decreases k
  {
    if k == 0 then Success(([], s))
    else
      match IncrementViewCount(s, id)
      case Failure(e) => Failure(e)
      case Success((n, s1)) =>
        match Increments(s1, id, k - 1)
        case Failure(e) => Failure(e)
        case Success((ns, s2)) => Success(([n] + ns, s2))
  }

  /** Without credentials every operation takes its fallback: reads give
      null / 0, the probe gives false, writes and increments fail. */
  lemma UnconfiguredStore(s: Store, id: string, r: PasteRecord, reachable: bool)
    requires !s.configured
    ensures GetPaste(s, id) == None
    ensures GetViewCount(s, id) == CountValue(0)
    ensures !Ping(s, reachable)
    ensures SetPaste(s, id, r) == Failure(NotConfigured)
    ensures IncrementViewCount(s, id) == Failure(NotConfigured)
  {
  }

  /** The probe on a reachable store answers true exactly when writes to
      the store can succeed; an unreachable store always probes false. */
  lemma PingIffWritable(s: Store, id: string, r: PasteRecord)
    ensures Ping(s, true) <==> SetPaste(s, id, r).Success?
    ensures Ping(s, true) <==> IncrementViewCount(s, id) != Failure(NotConfigured)
    ensures !Ping(s, false)
  {
  }

  /** A record key equals a counter key exactly when the record's id is the
      counter's id followed by ":views". */
  lemma {:induction false} RecordKeyMeetsCounterKey(a: string, b: string)
    ensures PasteKey(a) == CounterKey(b) <==> a == b + VIEWS_SUFFIX
  {
  }

  /** So a record key and a counter key never meet when the record's id has
      no ':'; UUIDs never do. */
  lemma {:induction false} RecordKeyNotCounterKey(a: string, b: string)
    requires ':' !in a
    ensures PasteKey(a) != CounterKey(b)
  {
    RecordKeyMeetsCounterKey(a, b);
    assert (b + VIEWS_SUFFIX)[|b|] == ':';
  }

  /** Distinct ids never share a counter key. */
  lemma {:induction false} CounterKeyInjective(a: string, b: string)
    ensures CounterKey(a) == CounterKey(b) <==> a == b
  {
    if CounterKey(a) == CounterKey(b) {
      assert PasteKey(a) == CounterKey(a)[..|CounterKey(a)| - |VIEWS_SUFFIX|];
      assert PasteKey(b) == CounterKey(b)[..|CounterKey(b)| - |VIEWS_SUFFIX|];
      PasteKeyInjective(a, b);
    }
  }

  /** Storing a paste and reading it back gives the record; a view-limited
      paste starts with a zero counter, whose first increment returns 1. */
  lemma {:induction false} SetThenGet(s: Store, id: string, r: PasteRecord)
    requires s.configured
    ensures SetPaste(s, id, r).Success?
    ensures GetPaste(SetPaste(s, id, r).value, id) == Some(RecordValue(r))
    ensures r.maxViews.Some? ==> GetViewCount(SetPaste(s, id, r).value, id) == CountValue(0)
    ensures r.maxViews.Some? ==>
      IncrementViewCount(SetPaste(s, id, r).value, id).Success?
      && IncrementViewCount(SetPaste(s, id, r).value, id).value.0 == 1
  {
  }

  /** Operations on one colon-free id leave every other colon-free id's
      record and counter as they were. */
  lemma {:induction false} OtherPastesUntouched(s: Store, id: string, other: string, r: PasteRecord)
    requires ':' !in id && ':' !in other && id != other
    ensures SetPaste(s, id, r).Success? ==>
      && GetPaste(SetPaste(s, id, r).value, other) == GetPaste(s, other)
      && GetViewCount(SetPaste(s, id, r).value, other) == GetViewCount(s, other)
    ensures IncrementViewCount(s, id).Success? ==>
      && GetPaste(IncrementViewCount(s, id).value.1, other) == GetPaste(s, other)
      && GetViewCount(IncrementViewCount(s, id).value.1, other) == GetViewCount(s, other)
  {
    PasteKeyInjective(id, other);
    CounterKeyInjective(id, other);
    RecordKeyNotCounterKey(id, other);
    RecordKeyNotCounterKey(other, id);
    if SetPaste(s, id, r).Success? {
      var s' := SetPaste(s, id, r).value;
      assert SameAt(s.data, s'.data, PasteKey(other));
      assert SameAt(s.data, s'.data, CounterKey(other));
    }
    if IncrementViewCount(s, id).Success? {
      var s' := IncrementViewCount(s, id).value.1;
      assert SameAt(s.data, s'.data, PasteKey(other));
      assert SameAt(s.data, s'.data, CounterKey(other));
    }
  }

  /** Successive increments from a counter at `c` return `c+1, c+2, ...`:
      each caller sees a distinct, strictly larger value, and the counter
      ends at `c + k`. */
  lemma {:induction false} IncrementsCount(s: Store, id: string, k: nat, c: int)
    requires s.configured && GetViewCount(s, id) == CountValue(c)
    ensures Increments(s, id, k).Success?
    ensures |Increments(s, id, k).value.0| == k
    ensures forall i :: 0 <= i < k ==> Increments(s, id, k).value.0[i] == c + 1 + i
    ensures GetViewCount(Increments(s, id, k).value.1, id) == CountValue(c + k)
    decreases k
  {
    if k > 0 {
      var (n, s1) := IncrementViewCount(s, id).value;
      assert n == c + 1;
      assert SameAt(s1.data, map[CounterKey(id) := CountValue(n)], CounterKey(id));
      IncrementsCount(s1, id, k - 1, c + 1);
    }
  }

  /** After creating a paste limited to `n` views, the first `n` increments
      return 1..n and the next one returns n + 1, past the limit. */
  lemma {:induction false} CountsAfterCreate(s: Store, id: string, r: PasteRecord)
    requires s.configured && r.maxViews.Some? && r.maxViews.value >= 0
    ensures SetPaste(s, id, r).Success?
    ensures Increments(SetPaste(s, id, r).value, id, r.maxViews.value + 1).Success?
    ensures var ns := Increments(SetPaste(s, id, r).value, id, r.maxViews.value + 1).value.0;
      && |ns| == r.maxViews.value + 1
      && (forall i :: 0 <= i < r.maxViews.value ==> 1 <= ns[i] <= r.maxViews.value)
      && ns[r.maxViews.value] > r.maxViews.value
  {
    SetThenGet(s, id, r);
    IncrementsCount(SetPaste(s, id, r).value, id, r.maxViews.value + 1, 0);
  }
}
