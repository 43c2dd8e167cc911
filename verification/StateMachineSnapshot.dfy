/** Snapshots of the reference state machine: the listing of a map in key order, encoding and decoding. */
module StateMachineSnapshot {
  import opened Base
  import opened Sorting
  import opened ByteOrder
  import opened BigEndian
  import opened StateMachineCodec

  datatype Store = Store(data: map<Bytes, Bytes>, applied: U64)

  const EMPTY := Store(map[], 0)

  // ---- Maps and lists of pairs ----------------------------------------------------

  /** `data` after inserting `pairs` in order, later ones overwriting. */
  function Insert(data: map<Bytes, Bytes>, pairs: seq<Pair>): map<Bytes, Bytes> {
    if pairs == [] then data
    else
      var n := |pairs| - 1;
      Insert(data, pairs[..n])[pairs[n].key := pairs[n].value]
  }

  function MapOf(pairs: seq<Pair>): map<Bytes, Bytes> {
    Insert(map[], pairs)
  }

  /** The last pair for a key gives its value; keys without a pair keep theirs. */
  lemma {:induction false} LastInsertWins(data: map<Bytes, Bytes>, pairs: seq<Pair>, key: Bytes, i: int)
    requires -1 <= i < |pairs|
    requires forall j :: i < j < |pairs| ==> pairs[j].key != key
    requires i >= 0 ==> pairs[i].key == key
    ensures i >= 0 ==> key in Insert(data, pairs) && Insert(data, pairs)[key] == pairs[i].value
    ensures i < 0 ==> (key in Insert(data, pairs) <==> key in data)
    ensures i < 0 && key in data ==> Insert(data, pairs)[key] == data[key]
  {
    var n := |pairs| - 1;
    if i < n {
      LastInsertWins(data, pairs[..n], key, i);
    }
  }

  predicate KeyLess(p: Pair, q: Pair) {
    Less(p.key, q.key)
  }

  ghost predicate KeysAscend(pairs: seq<Pair>) {
    StrictlySorted(KeyLess, pairs)
  }

  lemma {:induction false} MapOfSize(pairs: seq<Pair>)
    ensures |MapOf(pairs)| <= |pairs|
  {
    if pairs != [] {
      MapOfSize(pairs[..|pairs| - 1]);
    }
  }

  lemma {:induction false} MapOfFits(data: map<Bytes, Bytes>, pairs: seq<Pair>)
    requires Fits(pairs) && DataFits(data)
    ensures DataFits(Insert(data, pairs))
  {
    if pairs != [] {
      MapOfFits(data, pairs[..|pairs| - 1]);
      assert PairFits(pairs[|pairs| - 1]);
    }
  }

  ghost predicate DataFits(data: map<Bytes, Bytes>) {
    forall k :: k in data ==> |k| <= U32_MAX && |data[k]| <= U32_MAX
  }

  /** A list in key order has exactly the entries of its map. */
  lemma {:induction false} AscendingEntries(pairs: seq<Pair>, p: Pair)
    requires KeysAscend(pairs)
    ensures p in pairs <==> p.key in MapOf(pairs) && MapOf(pairs)[p.key] == p.value
    ensures |MapOf(pairs)| == |pairs|
  {
    if pairs != [] {
      var n := |pairs| - 1;
      var front, last := pairs[..n], pairs[n];
      AscendingEntries(front, p);
      if last.key in MapOf(front) {
        var twin := Pair(last.key, MapOf(front)[last.key]);
        AscendingEntries(front, twin);
        var i :| 0 <= i < n && front[i] == twin;
        assert KeyLess(pairs[i], last);
        LessOrder();
        assert false;
      }
      assert pairs == front + [last];
      assert p.key == last.key ==> p !in front;
    }
  }

  lemma ListingIsUnique(p: seq<Pair>, q: seq<Pair>)
    requires KeysAscend(p) && KeysAscend(q) && MapOf(p) == MapOf(q)
    ensures p == q
  {
    forall x
      ensures x in p <==> x in q
    {
      AscendingEntries(p, x);
      AscendingEntries(q, x);
    }
    LessOrder();
    assert Asymmetric(KeyLess);
    StrictlySortedIsUnique(KeyLess, p, q);
  }

  predicate IsLast(keys: set<Bytes>, m: Bytes) {
    m in keys && forall k :: k in keys && k != m ==> Less(k, m)
  }

  lemma LastKeyExists(keys: set<Bytes>)
    requires keys != {}
    ensures exists m :: IsLast(keys, m)
    decreases |keys|
  {
    LessOrder();
    var k :| k in keys;
    var others := keys - {k};
    if others == {} {
      assert keys == {k};
      assert IsLast(keys, k);
    } else {
      LastKeyExists(others);
      var last :| IsLast(others, last);
      assert IsLast(keys, if Less(k, last) then last else k);
    }
  }

  function LastKey(keys: set<Bytes>): (m: Bytes)
    requires keys != {}
    ensures IsLast(keys, m)
  {
    LastKeyExists(keys);
    LessOrder();
    var m :| IsLast(keys, m);
    m
  }

  /** The entries of a map in key order, as iterating an ordered map gives them. */
  function Listing(data: map<Bytes, Bytes>): (pairs: seq<Pair>)
    ensures KeysAscend(pairs) && MapOf(pairs) == data
    decreases |data|
  {
    if data == map[] then
      []
    else
      var m := LastKey(data.Keys);
      assert |data - {m}| < |data| by { SmallerMap(data, m); }
      var front := Listing(data - {m});
      ListingStep(data, m, front);
      front + [Pair(m, data[m])]
  }

  lemma SmallerMap(data: map<Bytes, Bytes>, m: Bytes)
    requires m in data
    ensures |data - {m}| < |data|
  {
    assert (data - {m}).Keys == data.Keys - {m};
  }

  lemma ListingStep(data: map<Bytes, Bytes>, m: Bytes, front: seq<Pair>)
    requires IsLast(data.Keys, m)
    requires KeysAscend(front) && MapOf(front) == data - {m}
    ensures KeysAscend(front + [Pair(m, data[m])]) && MapOf(front + [Pair(m, data[m])]) == data
  {
    var pairs := front + [Pair(m, data[m])];
    assert MapOf(pairs) == data by {
      hide Less, KeysAscend;
      assert pairs[..|front|] == front;
      assert MapOf(pairs) == MapOf(front)[m := data[m]];
    }
    hide Insert, MapOf;
    forall i, j | 0 <= i < j < |pairs|
      ensures KeyLess(pairs[i], pairs[j])
    {
      if j == |front| {
        assert pairs[i] == front[i];
        AscendingEntries(front, front[i]);
        assert front[i].key in data - {m};
      } else {
        assert KeyLess(front[i], front[j]);
      }
    }
  }

  // ---- Encoding -------------------------------------------------------------------

  function Header(applied: U64, count: U32): Bytes {
    Put(applied, 8) + Put(count, 4)
  }

  function Encoded(s: Store): Bytes {
    Header(s.applied, Truncated(|s.data|)) + Printed(Listing(s.data))
  }

  method EncodeSnapshot(s: Store) returns (out: Bytes)
    ensures out == Encoded(s)
  {
    hide Put, Printed, Truncated, PairBytes, Less, KeyLess, KeysAscend, MapOf;
    out := Put(s.applied, 8);
    out := out + Put(Truncated(|s.data|), 4);
    hide Header, Listing;
    var entries := Listing(s.data);
    NothingPrinted();
    for i := 0 to |entries|
      invariant out == Header(s.applied, Truncated(|s.data|)) + Printed(entries[..i])
    {
      OneMorePrinted(entries, i);
      out := out + PairBytes(entries[i]);
    }
    assert entries[..|entries|] == entries;
  }

  lemma OneMorePrinted(pairs: seq<Pair>, i: nat)
    requires i < |pairs|
    ensures Printed(pairs[..i + 1]) == Printed(pairs[..i]) + PairBytes(pairs[i])
  {
    PrintedOfConcat(pairs[..i], [pairs[i]]);
    assert pairs[..i + 1] == pairs[..i] + [pairs[i]];
    assert Printed([pairs[i]]) == PairBytes(pairs[i]);
  }

  // ---- Decoding -------------------------------------------------------------------

  /** `bytes` is a header followed by the `pairs` it announces, and nothing else. */
  ghost predicate Holds(bytes: Bytes, applied: U64, pairs: seq<Pair>) {
    && Fits(pairs) && |pairs| <= U32_MAX
    && bytes == Header(applied, |pairs|) + Printed(pairs)
  }

  ghost predicate IsSnapshot(bytes: Bytes) {
    exists applied: U64, pairs :: Holds(bytes, applied, pairs)
  }

  ghost function Decoded(bytes: Bytes): Result<Store, Error> {
    if IsSnapshot(bytes) then
      var applied: U64, pairs :| Holds(bytes, applied, pairs);
      Ok(Store(MapOf(pairs), applied))
    else
      Err(MalformedSnapshot)
  }

  lemma HeaderSplits(a: U64, m: U32, x: Bytes, b: U64, n: U32, y: Bytes)
    requires Header(a, m) + x == Header(b, n) + y
    ensures a == b && m == n && x == y
  {
    WordCapacities();
    hide Put, Capacity;
    var s := Header(a, m) + x;
    assert s[..8] == Put(a, 8) && s[..8] == Put(b, 8);
    PutIsInjective(a, b, 8);
    assert s[8..] == Put(m, 4) + x && s[8..] == Put(n, 4) + y;
    PrefixSplits(m, n, x, y);
  }

  lemma HoldsIsUnique(bytes: Bytes, a: U64, p: seq<Pair>, b: U64, q: seq<Pair>)
    requires Holds(bytes, a, p) && Holds(bytes, b, q)
    ensures a == b && p == q
  {
    hide Header, Printed;
    HeaderSplits(a, |p|, Printed(p), b, |q|, Printed(q));
    PrintedIsInjective(p, q);
  }

  lemma DecodedIs(bytes: Bytes, applied: U64, pairs: seq<Pair>)
    requires Holds(bytes, applied, pairs)
    ensures Decoded(bytes) == Ok(Store(MapOf(pairs), applied))
  {
    hide Holds;
    assert IsSnapshot(bytes);
    forall a: U64, p | Holds(bytes, a, p)
      ensures a == applied && p == pairs
    {
      HoldsIsUnique(bytes, a, p, applied, pairs);
    }
  }

  /** A string that announces more pairs than it has, or has more than it announces, is no snapshot. */
  lemma {:induction false} NotASnapshot(bytes: Bytes, applied: U64, count: U32, done: seq<Pair>, rest: Bytes)
    requires Fits(done) && bytes == Header(applied, count) + (Printed(done) + rest)
    requires (|done| < count && !StartsWithPair(rest)) || (|done| == count && rest != [])
    ensures Decoded(bytes) == Err(MalformedSnapshot)
  {
    hide Header, Printed;
    forall a: U64, p | Holds(bytes, a, p)
      ensures false
    {
      HeaderSplits(a, |p|, Printed(p), applied, count, Printed(done) + rest);
      PrintedExtends(done, rest, p);
      if |done| < count {
        NoMorePairs(Printed(p), done, rest, p);
      } else {
        NothingLeft(p, done);
      }
    }
  }

  lemma NothingLeft(p: seq<Pair>, done: seq<Pair>)
    requires done <= p && |p| == |done|
    ensures Printed(p[|done|..]) == []
  {
  }

  lemma TooShort(bytes: Bytes)
    requires |bytes| < 12
    ensures Decoded(bytes) == Err(MalformedSnapshot)
  {
  }

  lemma InsertOneMore(pairs: seq<Pair>, p: Pair)
    ensures MapOf(pairs + [p]) == MapOf(pairs)[p.key := p.value]
  {
    assert (pairs + [p])[..|pairs|] == pairs;
  }

  /** Read `count` pairs into a map; fail where one is missing. */
  method ReadPairs(cursor: Cursor, count: nat)
    returns (r: Option<map<Bytes, Bytes>>, ghost pairs: seq<Pair>, ghost rest: Bytes)
    requires cursor.Valid()
    modifies cursor
    ensures cursor.Valid() && Fits(pairs)
    ensures old(cursor.Rest()) == Printed(pairs) + rest
    ensures r.Some? ==> |pairs| == count && r.value == MapOf(pairs) && rest == cursor.Rest()
    ensures r.None? ==> |pairs| < count && !StartsWithPair(rest)
  {
    hide Put, Printed, PairBytes, MapOf, StartsWithPair;
    var data: map<Bytes, Bytes> := map[];
    pairs := [];
    NothingPrinted();
    NothingInserted();
    ghost var body := cursor.Rest();
    for i := 0 to count
      invariant cursor.Valid() && |pairs| == i
      invariant Fits(pairs) && body == Printed(pairs) + cursor.Rest()
      invariant data == MapOf(pairs)
    {
      ghost var before := cursor.Rest();
      var next := ReadPair(cursor);
      if next.Err? {
        return None, pairs, before;
      }
      OnePairMore(pairs, next.value, body, before, cursor.Rest());
      InsertOneMore(pairs, next.value);
      pairs := pairs + [next.value];
      data := data[next.value.key := next.value.value];
    }
    return Some(data), pairs, cursor.Rest();
  }

  lemma NothingInserted()
    ensures MapOf([]) == map[]
  {
  }

  /** Read the applied index and the count; fail only on strings too short for them. */
  method ReadHeader(cursor: Cursor) returns (r: Option<(U64, U32)>)
    requires cursor.Valid()
    modifies cursor
    ensures cursor.Valid()
    ensures r.None? ==> |old(cursor.Rest())| < 12
    ensures r.Some? ==> old(cursor.Rest()) == Header(r.value.0, r.value.1) + cursor.Rest()
  {
    hide Put;
    var applied := cursor.ReadU64();
    if applied.Err? {
      return None;
    }
    var count := cursor.ReadLength();
    if count.Err? {
      return None;
    }
    return Some((applied.value, count.value));
  }

  method DecodeSnapshot(bytes: Bytes) returns (r: Result<Store, Error>)
    ensures r == Decoded(bytes)
  {
    hide Header, Printed, Decoded, MapOf, Fits, StartsWithPair;
    var cursor := new Cursor(bytes);
    var header := ReadHeader(cursor);
    if header.None? {
      TooShort(bytes);
      return Err(MalformedSnapshot);
    }
    var (applied, count) := header.value;
    var data, pairs, rest := ReadPairs(cursor, count);
    DecodedFrom(bytes, applied, count, pairs, rest);
    if data.None? {
      return Err(MalformedSnapshot);
    }
    if cursor.pos != |bytes| {
      return Err(MalformedSnapshot);
    }
    return Ok(Store(data.value, applied));
  }

  lemma {:induction false} DecodedFrom(bytes: Bytes, applied: U64, count: U32, pairs: seq<Pair>, rest: Bytes)
    requires Fits(pairs) && bytes == Header(applied, count) + (Printed(pairs) + rest)
    requires |pairs| == count || (|pairs| < count && !StartsWithPair(rest))
    ensures Decoded(bytes) ==
            if |pairs| == count && rest == [] then Ok(Store(MapOf(pairs), applied)) else Err(MalformedSnapshot)
  {
    hide Header, Printed, Decoded, MapOf, Fits, StartsWithPair;
    if |pairs| == count && rest == [] {
      DecodedIs(bytes, applied, pairs);
    } else {
      NotASnapshot(bytes, applied, count, pairs, rest);
    }
  }

  // ---- Round trips ------------------------------------------------------------------

  lemma {:induction false} ListingFits(pairs: seq<Pair>)
    requires KeysAscend(pairs) && DataFits(MapOf(pairs))
    ensures Fits(pairs)
  {
    forall i | 0 <= i < |pairs|
      ensures PairFits(pairs[i])
    {
      AscendingEntries(pairs, pairs[i]);
    }
  }

  /** Decoding inverts encoding exactly for stores of at most `U32_MAX` keys; larger ones are refused. */
  lemma DecodeInvertsEncode(s: Store)
    requires DataFits(s.data)
    ensures Decoded(Encoded(s)) == if |s.data| <= U32_MAX then Ok(s) else Err(MalformedSnapshot)
  {
    hide Header, Printed, Truncated, Decoded;
    var pairs := Listing(s.data);
    ListingFits(pairs);
    AscendingEntries(pairs, Pair([], []));
    if |s.data| <= U32_MAX {
      DecodedIs(Encoded(s), s.applied, pairs);
    } else {
      var count := Truncated(|s.data|);
      PrintedOfConcat(pairs[..count], pairs[count..]);
      assert pairs == pairs[..count] + pairs[count..];
      PrintedHead(pairs[count..], []);
      NotASnapshot(Encoded(s), s.applied, count, pairs[..count], Printed(pairs[count..]));
    }
  }

  /**
   Any accepted snapshot, re-encoded, is the canonical snapshot of the same store: it
   decodes to that store, and it is the original exactly when that had its keys in order.
   */
  lemma ReencodingIsCanonical(bytes: Bytes, applied: U64, pairs: seq<Pair>)
    requires Holds(bytes, applied, pairs)
    ensures Decoded(bytes) == Ok(Store(MapOf(pairs), applied))
    ensures Decoded(Encoded(Store(MapOf(pairs), applied))) == Decoded(bytes)
    ensures Encoded(Store(MapOf(pairs), applied)) == bytes <==> KeysAscend(pairs)
  {
    var s := Store(MapOf(pairs), applied);
    DecodedIs(bytes, applied, pairs);
    MapOfSize(pairs);
    MapOfFits(map[], pairs);
    DecodeInvertsEncode(s);
    var listing := Listing(s.data);
    ListingFits(listing);
    AscendingEntries(listing, Pair([], []));
    assert Holds(Encoded(s), applied, listing);
    if Encoded(s) == bytes {
      HoldsIsUnique(bytes, applied, pairs, applied, listing);
    }
    if KeysAscend(pairs) {
      ListingIsUnique(pairs, listing);
    }
  }
}
