/**
 Prefix reads as range reads: the byte successor of a prefix, and the argument
 checks a range read makes.
 */
module KeyRange {
  import opened Base
  import opened ByteOrder

  /** The smallest key above every key that starts with `p`, if there is one. */
  function SuccessorOf(p: Bytes): Option<Bytes> {
    if p == [] then None
    else
      var tail := SuccessorOf(p[1..]);
      if tail.Some? then Some([p[0]] + tail.value)
      else if p[0] != 0xFF then Some([p[0] + 1])
      else None
  }

  lemma {:induction false} NoSuccessor(p: Bytes)
    requires forall i :: 0 <= i < |p| ==> p[i] == 0xFF
    ensures SuccessorOf(p) == None
  {
    if p != [] {
      NoSuccessor(p[1..]);
    }
  }

  lemma {:induction false} SuccessorAt(p: Bytes, i: nat)
    requires i < |p| && p[i] != 0xFF && forall j :: i < j < |p| ==> p[j] == 0xFF
    ensures SuccessorOf(p) == Some(p[..i] + [p[i] + 1])
  {
    if i == 0 {
      NoSuccessor(p[1..]);
      assert p[..0] + [p[0] + 1] == [p[0] + 1];
    } else {
      SuccessorAt(p[1..], i - 1);
      assert p[..i] + [p[i] + 1] == [p[0]] + (p[1..][..i - 1] + [p[i] + 1]);
    }
  }

  /** Scan backwards for a byte that can be bumped, and cut the prefix off after it. */
  method Successor(prefix: Bytes) returns (end: Option<Bytes>)
    ensures end == SuccessorOf(prefix)
  {
    for i := |prefix| downto 0
      invariant forall j :: i <= j < |prefix| ==> prefix[j] == 0xFF
    {
      if prefix[i] != 0xFF {
        SuccessorAt(prefix, i);
        return Some(prefix[..i] + [prefix[i] + 1]);
      }
    }
    NoSuccessor(prefix);
    end := None;
  }

  /** A key has the prefix exactly when it is not below the prefix and below its successor. */
  lemma {:induction false} PrefixIsRange(p: Bytes, k: Bytes)
    ensures p <= k <==> !Less(k, p) && (SuccessorOf(p).None? || Less(k, SuccessorOf(p).value))
    decreases |p|
  {
    if p != [] && k != [] {
      PrefixIsRange(p[1..], k[1..]);
      assert p == [p[0]] + p[1..] && k == [k[0]] + k[1..];
      assert p <= k <==> p[0] == k[0] && p[1..] <= k[1..];
      if SuccessorOf(p[1..]).Some? {
        assert ([p[0]] + SuccessorOf(p[1..]).value)[1..] == SuccessorOf(p[1..]).value;
      }
    }
  }

  /** The successor is a key of at most the same length, above the prefix. */
  lemma {:induction false} SuccessorIsAbove(p: Bytes)
    requires SuccessorOf(p).Some?
    ensures 1 <= |SuccessorOf(p).value| <= |p| && Less(p, SuccessorOf(p).value)
  {
    var tail := SuccessorOf(p[1..]);
    if tail.Some? {
      SuccessorIsAbove(p[1..]);
      assert ([p[0]] + tail.value)[1..] == tail.value;
    }
  }

  // ---- The read's argument checks ---------------------------------------------

  datatype ArgError = KeyTooLong | ReversedRange

  function ValidateKey(key: Bytes, maxKeyBytes: nat): Result<(), ArgError> {
    if |key| > maxKeyBytes then Err(KeyTooLong) else Ok(())
  }

  /** The checks of a range read; an empty bound means unbounded. */
  function ValidateRange(start: Bytes, end: Bytes, maxKeyBytes: nat): Result<(), ArgError> {
    if ValidateKey(start, maxKeyBytes).Err? then ValidateKey(start, maxKeyBytes)
    else if ValidateKey(end, maxKeyBytes).Err? then ValidateKey(end, maxKeyBytes)
    else if start != [] && end != [] && Less(end, start) then Err(ReversedRange)
    else Ok(())
  }

  /** Exactly which ranges are refused, and for what. */
  lemma {:induction false} RangeRefusedIff(start: Bytes, end: Bytes, maxKeyBytes: nat)
    ensures ValidateRange(start, end, maxKeyBytes) == Err(KeyTooLong) <==> |start| > maxKeyBytes || |end| > maxKeyBytes
    ensures ValidateRange(start, end, maxKeyBytes) == Err(ReversedRange) <==>
            && |start| <= maxKeyBytes && |end| <= maxKeyBytes
            && start != [] && end != [] && Less(end, start)
  {
  }

  /** A range refused as reversed has no keys to read; of the others only the one from a key to itself has none. */
  lemma ReversedRangeIsEmpty(start: Bytes, end: Bytes, maxKeyBytes: nat)
    requires |start| <= maxKeyBytes && |end| <= maxKeyBytes
    ensures (forall key :: !InRange(start, end, key)) <==>
            ValidateRange(start, end, maxKeyBytes) == Err(ReversedRange) || (start == end != [])
  {
    LessIsTotal(start, end);
    if start != [] && end != [] && !Less(start, end) {
      forall key
        ensures !InRange(start, end, key)
      {
        if Less(key, end) && end != start {
          LessIsTransitive(key, end, start);
        }
      }
    } else {
      NothingIsBelowItself(start);
      assert InRange(start, end, start);
      if Less(start, end) {
        LessIsAsymmetric(start, end);
      }
    }
  }

  lemma {:induction false} NothingIsBelowItself(key: Bytes)
    ensures !Less(key, key)
  {
    if Less(key, key) {
      LessIsAsymmetric(key, key);
    }
  }

  predicate InRange(start: Bytes, end: Bytes, key: Bytes) {
    (start == [] || !Less(key, start)) && (end == [] || Less(key, end))
  }

  function RangeEnd(prefix: Bytes): Bytes {
    if SuccessorOf(prefix).Some? then SuccessorOf(prefix).value else []
  }

  /** A prefix read that passes its own check passes the range read's checks and asks for exactly its keys. */
  lemma PrefixReadIsRangeRead(prefix: Bytes, maxKeyBytes: nat, key: Bytes)
    requires ValidateKey(prefix, maxKeyBytes).Ok?
    ensures ValidateRange(prefix, RangeEnd(prefix), maxKeyBytes).Ok?
    ensures InRange(prefix, RangeEnd(prefix), key) <==> prefix <= key
  {
    PrefixIsRange(prefix, key);
    if SuccessorOf(prefix).Some? {
      SuccessorIsAbove(prefix);
      LessIsAsymmetric(prefix, SuccessorOf(prefix).value);
    }
  }
}
