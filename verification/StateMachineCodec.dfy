/**
 The byte formats of the reference state machine: a command is a run of
 length-prefixed key/value pairs, a snapshot is an applied index, a count and that
 many pairs. Reading is specified by writing: a reader accepts exactly the strings
 some value is written as, and returns that value.
 */
module StateMachineCodec {
  import opened Base
  import opened BigEndian

  datatype Pair = Pair(key: Bytes, value: Bytes)

  datatype Error = MalformedCommand | MalformedSnapshot | OutOfOrderIndex(expected: U64, got: U64)

  // ---- Written forms -----------------------------------------------------------

  /** The low 32 bits of a length. */
  function Truncated(n: nat): (m: U32)
    ensures n <= U32_MAX ==> m == n
  {
    n % 0x1_0000_0000
  }

  /** A byte string after its length, which is written truncated. */
  function Field(b: Bytes): Bytes {
    Put(Truncated(|b|), 4) + b
  }

  function PairBytes(p: Pair): Bytes {
    Field(p.key) + Field(p.value)
  }

  function Printed(pairs: seq<Pair>): Bytes {
    if pairs == [] then [] else PairBytes(pairs[0]) + Printed(pairs[1..])
  }

  predicate PairFits(p: Pair) {
    |p.key| <= U32_MAX && |p.value| <= U32_MAX
  }

  predicate Fits(pairs: seq<Pair>) {
    forall i :: 0 <= i < |pairs| ==> PairFits(pairs[i])
  }

  /** `command` is the written form of `pairs`. */
  ghost predicate Encodes(command: Bytes, pairs: seq<Pair>) {
    Fits(pairs) && Printed(pairs) == command
  }

  // ---- Written forms can be told apart -----------------------------------------

  lemma {:induction false} FieldOf(b: Bytes)
    requires |b| <= U32_MAX
    ensures Field(b) == Put(|b|, 4) + b
  {
    hide Put, Truncated;
  }

  /** Equal length prefixes are equal lengths. */
  lemma {:induction false} PrefixSplits(m: U32, n: U32, x: Bytes, y: Bytes)
    requires Put(m, 4) + x == Put(n, 4) + y
    ensures m == n && x == y
  {
    WordCapacities();
    hide Put, Capacity;
    var a, b := Put(m, 4), Put(n, 4);
    assert a == (a + x)[..4] && b == (b + y)[..4];
    assert x == (a + x)[4..] && y == (b + y)[4..];
    PutIsInjective(m, n, 4);
  }

  lemma FieldSplits(x: Bytes, y: Bytes, r: Bytes, s: Bytes)
    requires |x| <= U32_MAX && |y| <= U32_MAX
    requires Field(x) + r == Field(y) + s
    ensures x == y && r == s
  {
    FieldOf(x);
    FieldOf(y);
    hide Put, Field;
    assert Field(x) + r == Put(|x|, 4) + (x + r);
    assert Field(y) + s == Put(|y|, 4) + (y + s);
    PrefixSplits(|x|, |y|, x + r, y + s);
    assert (x + r)[..|x|] == x && (y + s)[..|y|] == y;
    assert (x + r)[|x|..] == r && (y + s)[|y|..] == s;
  }

  lemma PairSplits(p: Pair, q: Pair, r: Bytes, s: Bytes)
    requires PairFits(p) && PairFits(q)
    requires PairBytes(p) + r == PairBytes(q) + s
    ensures p == q && r == s
  {
    assert PairBytes(p) + r == Field(p.key) + (Field(p.value) + r);
    assert PairBytes(q) + s == Field(q.key) + (Field(q.value) + s);
    FieldSplits(p.key, q.key, Field(p.value) + r, Field(q.value) + s);
    FieldSplits(p.value, q.value, r, s);
  }

  lemma {:induction false} PrintedOfConcat(a: seq<Pair>, b: seq<Pair>)
    ensures Printed(a + b) == Printed(a) + Printed(b)
  {
    if a == [] {
      assert a + b == b;
    } else {
      assert (a + b)[1..] == a[1..] + b;
      PrintedOfConcat(a[1..], b);
    }
  }

  /** A written form that starts with the pairs `p` is a written form of more pairs. */
  lemma {:induction false} PrintedExtends(p: seq<Pair>, rest: Bytes, q: seq<Pair>)
    requires Fits(p) && Fits(q)
    requires Printed(q) == Printed(p) + rest
    ensures p <= q && Printed(q[|p|..]) == rest
  {
    if p != [] {
      PrintedHead(p, rest);
      assert q != [];
      PrintedHead(q, []);
      hide Printed, PairBytes;
      PairSplits(p[0], q[0], Printed(p[1..]) + rest, Printed(q[1..]));
      PrintedExtends(p[1..], rest, q[1..]);
      assert p == [p[0]] + p[1..] && q == [q[0]] + q[1..];
      assert q[|p|..] == q[1..][|p| - 1..];
    }
  }

  lemma {:induction false} PrintedHead(p: seq<Pair>, rest: Bytes)
    requires p != []
    ensures |Printed(p)| > 0
    ensures Printed(p) + rest == PairBytes(p[0]) + (Printed(p[1..]) + rest)
  {
  }

  /** Two lists of pairs with one written form are one list. */
  lemma {:induction false} PrintedIsInjective(p: seq<Pair>, q: seq<Pair>)
    requires Fits(p) && Fits(q) && Printed(p) == Printed(q)
    ensures p == q
  {
    PrintedExtends(p, [], q);
    PrintedExtends(q, [], p);
  }

  // ---- Reading ------------------------------------------------------------------

  /** Why a length could not be read: the input had ended, or ended inside it. */
  datatype Stop = End | Bad

  class Cursor {
    const data: Bytes
    var pos: nat

    ghost predicate Valid()
      reads this
    {
      pos <= |data|
    }

    ghost function Rest(): Bytes
      reads this
      requires Valid()
    {
      data[pos..]
    }

    constructor (data: Bytes)
      ensures Valid() && this.data == data && Rest() == data
    {
      this.data := data;
      pos := 0;
    }

    method ReadLength() returns (r: Result<U32, Stop>)
      requires Valid()
      modifies this
      ensures Valid()
      ensures r.Ok? ==> old(Rest()) == Put(r.value, 4) + Rest()
      ensures r == Err(End) <==> old(Rest()) == []
      ensures r.Err? <==> |old(Rest())| < 4
      ensures r.Err? ==> pos == old(pos)
    {
      var remaining := |data| - pos;
      if remaining == 0 {
        return Err(End);
      }
      if remaining < 4 {
        return Err(Bad);
      }
      var buf := data[pos..pos + 4];
      PutOfGet(buf);
      WordCapacities();
      assert data[pos..] == buf + data[pos + 4..];
      pos := pos + 4;
      return Ok(Get(buf));
    }

    method ReadBytes(len: nat) returns (r: Result<Bytes, Stop>)
      requires Valid()
      modifies this
      ensures Valid()
      ensures r.Ok? ==> |r.value| == len && old(Rest()) == r.value + Rest()
      ensures r.Err? <==> |old(Rest())| < len
      ensures r.Err? ==> pos == old(pos)
    {
      var remaining := |data| - pos;
      if remaining < len {
        return Err(Bad);
      }
      var bytes := data[pos..pos + len];
      assert data[pos..] == bytes + data[pos + len..];
      pos := pos + len;
      return Ok(bytes);
    }

    method ReadU64() returns (r: Result<U64, Stop>)
      requires Valid()
      modifies this
      ensures Valid()
      ensures r.Ok? ==> old(Rest()) == Put(r.value, 8) + Rest()
      ensures r.Err? <==> |old(Rest())| < 8
    {
      if |data| - pos < 8 {
        pos := |data|;
        return Err(Bad);
      }
      var buf := data[pos..pos + 8];
      PutOfGet(buf);
      WordCapacities();
      assert data[pos..] == buf + data[pos + 8..];
      pos := pos + 8;
      return Ok(Get(buf));
    }

    /** Read one field: exactly when one is there. */
    method ReadField() returns (r: Result<Bytes, Stop>)
      requires Valid()
      modifies this
      ensures Valid()
      ensures r.Ok? ==> |r.value| <= U32_MAX && old(Rest()) == Field(r.value) + Rest()
      ensures r.Err? ==> !StartsWithField(old(Rest()))
      ensures r == Err(End) <==> old(Rest()) == []
    {
      hide Put, Field;
      ghost var start := Rest();
      var len := ReadLength();
      if len.Err? {
        FieldIsLong(start);
        return Err(len.error);
      }
      ghost var after := Rest();
      r := ReadBytes(len.value);
      if r.Err? {
        if StartsWithField(start) {
          var b, rest :| HasField(start, b, rest);
          LengthIsRead(start, b, rest, len.value, after);
        }
        return Err(Bad);
      }
      FieldOf(r.value);
      assert start == Put(len.value, 4) + r.value + Rest();
    }
  }

  ghost predicate HasField(s: Bytes, b: Bytes, rest: Bytes) {
    |b| <= U32_MAX && s == Field(b) + rest
  }

  ghost predicate StartsWithField(s: Bytes) {
    exists b, rest :: HasField(s, b, rest)
  }

  lemma {:induction false} LengthIsRead(s: Bytes, b: Bytes, rest: Bytes, len: U32, after: Bytes)
    requires HasField(s, b, rest) && s == Put(len, 4) + after
    ensures |b| == len && after == b + rest
  {
    FieldOf(b);
    hide Put, Field;
    assert s == Put(|b|, 4) + (b + rest);
    PrefixSplits(|b|, len, b + rest, after);
  }

  lemma FieldIsLong(s: Bytes)
    ensures StartsWithField(s) ==> |s| >= 4
  {
  }

  /** Read one key/value pair: exactly when one is there. */
  method ReadPair(cursor: Cursor) returns (r: Result<Pair, Stop>)
    requires cursor.Valid()
    modifies cursor
    ensures cursor.Valid()
    ensures r.Ok? ==> PairFits(r.value) && old(cursor.Rest()) == PairBytes(r.value) + cursor.Rest()
    ensures r.Err? ==> !StartsWithPair(old(cursor.Rest()))
    ensures r == Err(End) <==> old(cursor.Rest()) == []
  {
    ghost var start := cursor.Rest();
    NoPairWithoutKey(start);
    var key := cursor.ReadField();
    if key.Err? {
      return Err(key.error);
    }
    ghost var after := cursor.Rest();
    NoPairWithoutValue(start, key.value, after);
    var value := cursor.ReadField();
    if value.Err? {
      return Err(Bad);
    }
    r := Ok(Pair(key.value, value.value));
    assert start == Field(key.value) + (Field(value.value) + cursor.Rest());
  }

  ghost predicate HasPair(s: Bytes, p: Pair, rest: Bytes) {
    PairFits(p) && s == PairBytes(p) + rest
  }

  ghost predicate StartsWithPair(s: Bytes) {
    exists p, rest :: HasPair(s, p, rest)
  }

  lemma NoPairWithoutKey(s: Bytes)
    ensures StartsWithPair(s) ==> StartsWithField(s)
  {
    if StartsWithPair(s) {
      var p, rest :| HasPair(s, p, rest);
      assert s == Field(p.key) + (Field(p.value) + rest);
      assert HasField(s, p.key, Field(p.value) + rest);
    }
  }

  lemma NoPairWithoutValue(s: Bytes, key: Bytes, after: Bytes)
    requires |key| <= U32_MAX && s == Field(key) + after
    ensures StartsWithPair(s) ==> StartsWithField(after)
  {
    if StartsWithPair(s) {
      var p, rest :| HasPair(s, p, rest);
      assert s == Field(p.key) + (Field(p.value) + rest);
      FieldSplits(key, p.key, after, Field(p.value) + rest);
      assert HasField(after, p.value, rest);
    }
  }

  /** Where no pair starts, no further pairs were written. */
  lemma {:induction false} NoMorePairs(command: Bytes, done: seq<Pair>, rest: Bytes, pairs: seq<Pair>)
    requires Fits(done) && command == Printed(done) + rest
    requires !StartsWithPair(rest)
    requires Encodes(command, pairs)
    ensures pairs == done && rest == []
  {
    PrintedExtends(done, rest, pairs);
    var more := pairs[|done|..];
    if more != [] {
      assert HasPair(rest, more[0], Printed(more[1..]));
    }
  }

  // ---- Commands -------------------------------------------------------------------

  ghost predicate IsCommand(command: Bytes) {
    exists pairs :: Encodes(command, pairs)
  }

  /** The pairs of a command, or the error of a string that is not one. */
  ghost function Parsed(command: Bytes): Result<seq<Pair>, Error> {
    if IsCommand(command) then
      var pairs :| Encodes(command, pairs);
      Ok(pairs)
    else
      Err(MalformedCommand)
  }

  lemma ParsedIs(command: Bytes, pairs: seq<Pair>)
    requires Encodes(command, pairs)
    ensures Parsed(command) == Ok(pairs)
  {
    PrintedIsInjective(Parsed(command).value, pairs);
  }

  /** Every accepted string is the written form of its pairs, and every written form is accepted. */
  lemma {:induction false} ParserInvertsPrinter(command: Bytes, pairs: seq<Pair>)
    ensures Fits(pairs) ==> Parsed(Printed(pairs)) == Ok(pairs)
    ensures Parsed(command).Ok? ==> Fits(Parsed(command).value) && Printed(Parsed(command).value) == command
    ensures Parsed(command).Err? ==> Parsed(command) == Err(MalformedCommand)
  {
    if Fits(pairs) {
      ParsedIs(Printed(pairs), pairs);
    }
  }

  lemma {:induction false} OnePairMore(pairs: seq<Pair>, p: Pair, command: Bytes, before: Bytes, rest: Bytes)
    requires Fits(pairs) && command == Printed(pairs) + before
    requires HasPair(before, p, rest)
    ensures Fits(pairs + [p]) && command == Printed(pairs + [p]) + rest
    ensures |rest| < |before|
  {
    assert |PairBytes(p)| > 0;
    PrintedOfConcat(pairs, [p]);
    assert Printed([p]) == PairBytes(p);
    hide Printed, PairBytes;
    assert Printed(pairs) + (PairBytes(p) + rest) == Printed(pairs) + PairBytes(p) + rest;
  }

  lemma {:induction false} NotACommand(command: Bytes, done: seq<Pair>, rest: Bytes)
    requires Fits(done) && command == Printed(done) + rest
    requires !StartsWithPair(rest) && rest != []
    ensures !IsCommand(command)
  {
    forall pairs | Encodes(command, pairs)
      ensures false
    {
      NoMorePairs(command, done, rest, pairs);
    }
  }

  method ParseCommand(command: Bytes) returns (r: Result<seq<Pair>, Error>)
    ensures r.Ok? ==> Encodes(command, r.value)
    ensures r.Err? ==> r.error == MalformedCommand && !IsCommand(command)
    ensures r == Parsed(command)
  {
    hide PairBytes, Printed, IsCommand;
    var cursor := new Cursor(command);
    var pairs: seq<Pair> := [];
    NothingPrinted();
    while true
      invariant cursor.Valid() && cursor.data == command
      invariant Fits(pairs) && command == Printed(pairs) + cursor.Rest()
      decreases |cursor.Rest()|
    {
      ghost var before := cursor.Rest();
      var next := ReadPair(cursor);
      if next.Err? {
        if next.error == End {
          ParsedIs(command, pairs);
          return Ok(pairs);
        }
        NotACommand(command, pairs, before);
        return Err(MalformedCommand);
      }
      OnePairMore(pairs, next.value, command, before, cursor.Rest());
      pairs := pairs + [next.value];
    }
  }

  lemma NothingPrinted()
    ensures Printed([]) == []
  {
  }
}
