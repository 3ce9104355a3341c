/** The counter map of a credential: an ordered map from 32-byte context digests
    to nonzero 32-bit counters, encoded in strictly ascending key order. */
module Counters {
  import opened Bits
  import opened Messages
  import opened Wire

  type CounterMap = map<Digest, U32>

  // ----- The order of byte strings

  predicate Less(a: seq<bv8>, b: seq<bv8>)
    requires |a| == |b|
  {
    a != [] && (a[0] < b[0] || (a[0] == b[0] && Less(a[1..], b[1..])))
  }

  lemma {:induction false} LessIrreflexive(a: seq<bv8>)
    ensures !Less(a, a)
  {
    if a != [] {
      LessIrreflexive(a[1..]);
    }
  }

  lemma {:induction false} LessTransitive(a: seq<bv8>, b: seq<bv8>, c: seq<bv8>)
    requires |a| == |b| == |c| && Less(a, b) && Less(b, c)
    ensures Less(a, c)
  {
    if a[0] == b[0] && b[0] == c[0] {
      LessTransitive(a[1..], b[1..], c[1..]);
    }
  }

  lemma {:induction false} LessTotal(a: seq<bv8>, b: seq<bv8>)
    requires |a| == |b|
    ensures a == b || Less(a, b) || Less(b, a)
  {
    if a != [] && a[0] == b[0] {
      LessTotal(a[1..], b[1..]);
      assert a == [a[0]] + a[1..] && b == [b[0]] + b[1..];
    }
  }

  /** The order is lexicographic on bytes: at the first position where two keys
      differ, the smaller byte decides. */
  ghost predicate FirstDifferenceAt(a: seq<bv8>, b: seq<bv8>, i: nat)
    requires |a| == |b|
  {
    i < |a| && a[..i] == b[..i] && a[i] < b[i]
  }

  lemma {:induction false} LessIsLexicographic(a: seq<bv8>, b: seq<bv8>)
    requires |a| == |b|
    ensures Less(a, b) <==> exists i: nat :: FirstDifferenceAt(a, b, i)
  {
    if a != [] {
      LessIsLexicographic(a[1..], b[1..]);
      if Less(a, b) {
        if a[0] < b[0] {
          assert FirstDifferenceAt(a, b, 0);
        } else {
          var i: nat :| FirstDifferenceAt(a[1..], b[1..], i);
          assert a[..i + 1] == [a[0]] + a[1..][..i] && b[..i + 1] == [b[0]] + b[1..][..i];
          assert FirstDifferenceAt(a, b, i + 1);
        }
      }
      if i: nat :| FirstDifferenceAt(a, b, i) {
        if i > 0 {
          assert a[..i][0] == b[..i][0];
          assert a[1..][..i - 1] == a[..i][1..] && b[1..][..i - 1] == b[..i][1..];
          assert FirstDifferenceAt(a[1..], b[1..], i - 1);
        }
      }
    }
  }

  // ----- Ascending key sequences

  ghost predicate Ascending(keys: seq<Digest>) {
    forall i, j :: 0 <= i < j < |keys| ==> Less(keys[i], keys[j])
  }

  predicate IsLeast(k: Digest, keys: set<Digest>) {
    k in keys && forall j :: j in keys ==> j == k || Less(k, j)
  }

  lemma HasLeast(keys: set<Digest>)
    requires keys != {}
    ensures exists k: Digest :: IsLeast(k, keys)
  {
    hide Less;
    var k: Digest :| k in keys;
    if keys == {k} {
      assert IsLeast(k, keys);
    } else {
      var others := keys - {k};
      HasLeast(others);
      var l: Digest :| IsLeast(l, others);
      LessTotal(k, l);
      if Less(k, l) {
        forall j | j in keys && j != k
          ensures Less(k, j)
        {
          if j != l {
            LessTransitive(k, l, j);
          }
        }
        assert IsLeast(k, keys);
      } else {
        assert IsLeast(l, keys);
      }
    }
  }

  /** The keys of a map in ascending order, as an ordered map iterates them. */
  ghost function SortedKeys(keys: set<Digest>): (sorted: seq<Digest>)
    ensures |sorted| == |keys|
    ensures forall k :: k in sorted <==> k in keys
    decreases |keys|
  {
    if keys == {} then []
    else
      HasLeast(keys);
      var k: Digest :| IsLeast(k, keys);
      [k] + SortedKeys(keys - {k})
  }

  lemma {:induction false} SortedKeysAscend(keys: set<Digest>)
    ensures Ascending(SortedKeys(keys))
    decreases |keys|
  {
    hide Less;
    if keys != {} {
      var sorted := SortedKeys(keys);
      var rest := sorted[1..];
      assert IsLeast(sorted[0], keys);
      SortedKeysAscend(keys - {sorted[0]});
      forall i, j | 0 <= i < j < |sorted|
        ensures Less(sorted[i], sorted[j])
      {
        if i == 0 {
          assert sorted[j] == rest[j - 1] && rest[j - 1] in rest;
          assert sorted[j] in keys - {sorted[0]};
        } else {
          assert sorted[i] == rest[i - 1] && sorted[j] == rest[j - 1];
        }
      }
    }
  }

  ghost function KeySet(keys: seq<Digest>): (all: set<Digest>) {
    set k | k in keys
  }

  lemma FirstIsLeast(keys: seq<Digest>)
    requires Ascending(keys) && keys != []
    ensures IsLeast(keys[0], KeySet(keys))
    ensures KeySet(keys) - {keys[0]} == KeySet(keys[1..])
  {
    hide Less;
    var first: Digest := keys[0];
    forall k | k in KeySet(keys) && k != first
      ensures Less(first, k) && k in keys[1..]
    {
      var i :| 0 <= i < |keys| && keys[i] == k;
      assert keys[1..][i - 1] == k;
    }
    LessIrreflexive(first);
    assert first in KeySet(keys);
  }

  /** An ascending sequence is determined by its elements. */
  lemma {:induction false} AscendingUnique(keys: seq<Digest>)
    requires Ascending(keys)
    ensures SortedKeys(KeySet(keys)) == keys
    decreases |keys|
  {
    hide Less, IsLeast;
    if keys == [] {
      assert KeySet(keys) == {};
    } else {
      FirstIsLeast(keys);
      LeastIsFirst(KeySet(keys), keys[0]);
      AscendingUnique(keys[1..]);
    }
  }

  // ----- Encoding and parsing the records

  function EncodeRecords(keys: seq<Digest>, m: CounterMap): (bytes: seq<bv8>)
    requires forall k :: k in keys ==> k in m
  {
    if keys == [] then [] else keys[0] + LeBytes(m[keys[0]], 4) + EncodeRecords(keys[1..], m)
  }

  ghost function EncodeCounters(m: CounterMap): (bytes: seq<bv8>) {
    EncodeRecords(SortedKeys(m.Keys), m)
  }

  datatype Previous = Start | After(key: Digest)

  predicate Follows(previous: Previous, key: Digest) {
    previous.Start? || Less(previous.key, key)
  }

  /** The record loop: strictly ascending keys and nonzero counters. */
  function ParseRecords(input: seq<bv8>, count: nat, previous: Previous, m: CounterMap): (r: Parse<CounterMap>)
    decreases count
  {
    if count == 0 then Success((m, input))
    else
      var (key, rest) :- ParseDigest(input);
      if !Follows(previous, key) then Failure(InvalidEncoding)
      else
        var (counter, rest) :- ParseU32(rest);
        if counter == 0 then Failure(InvalidEncoding)
        else ParseRecords(rest, count - 1, After(key), m[key := counter])
  }

  ghost predicate Nonzero(m: CounterMap) {
    forall k :: k in m ==> m[k] != 0
  }

  ghost function Restrict(m: CounterMap, keys: seq<Digest>): (r: CounterMap)
    requires forall k :: k in keys ==> k in m
  {
    map k | k in keys :: m[k]
  }

  lemma ParseDigestFormat(key: Digest, rest: seq<bv8>)
    ensures ParseDigest(key + rest) == Success((key, rest))
  {
    ParseTakeFormat(key, rest);
  }

  lemma FormatParseDigest(input: seq<bv8>)
    requires ParseDigest(input).Success?
    ensures var (key, rest) := ParseDigest(input).value; input == key + rest
  {
  }

  lemma RestrictStep(m: CounterMap, keys: seq<Digest>, before: CounterMap)
    requires keys != [] && forall k :: k in keys ==> k in m
    ensures before[keys[0] := m[keys[0]]] + Restrict(m, keys[1..]) == before + Restrict(m, keys)
  {
    var key: Digest := keys[0];
    assert forall k :: k in keys <==> k == key || k in keys[1..];
  }

  lemma EncodeRecordsStep(keys: seq<Digest>, m: CounterMap, rest: seq<bv8>)
    requires keys != [] && forall k :: k in keys ==> k in m
    ensures EncodeRecords(keys, m) + rest == keys[0] + (LeBytes(m[keys[0]], 4) + (EncodeRecords(keys[1..], m) + rest))
  {
    hide LeBytes;
  }

  /** One round of the record loop on well-formed input. */
  lemma ParseOneRecord(key: Digest, counter: U32, later: seq<bv8>, count: nat, previous: Previous, m: CounterMap)
    requires Follows(previous, key) && counter != 0
    ensures ParseRecords(key + (LeBytes(counter, 4) + later), count + 1, previous, m)
         == ParseRecords(later, count, After(key), m[key := counter])
  {
    hide Less, LeBytes, ParseDigest, ParseU32;
    ParseDigestFormat(key, LeBytes(counter, 4) + later);
    ParseU32Format(counter, later);
  }

  /** Parsing an encoding adds exactly the encoded records. */
  lemma {:induction false} ParseRecordsFormat(keys: seq<Digest>, m: CounterMap, previous: Previous, before: CounterMap,
                                              rest: seq<bv8>)
    requires Ascending(keys) && (forall k :: k in keys ==> k in m && m[k] != 0)
    requires keys != [] ==> Follows(previous, keys[0])
    ensures ParseRecords(EncodeRecords(keys, m) + rest, |keys|, previous, before)
        == Success((before + Restrict(m, keys), rest))
    decreases |keys|
  {
    hide Less, LeBytes, Restrict;
    if keys == [] {
      assert EncodeRecords(keys, m) + rest == rest;
      assert before + Restrict(m, keys) == before by { RestrictNothing(m); }
    } else {
      var key: Digest := keys[0];
      var tail := keys[1..];
      var later := EncodeRecords(tail, m) + rest;
      assert tail != [] ==> tail[0] == keys[1] && Less(keys[0], keys[1]);
      hide EncodeRecords, ParseRecords;
      EncodeRecordsStep(keys, m, rest);
      ParseOneRecord(key, m[key], later, |tail|, previous, before);
      ParseRecordsFormat(tail, m, After(key), before[key := m[key]], rest);
      RestrictStep(m, keys, before);
    }
  }

  lemma RestrictNothing(m: CounterMap)
    ensures Restrict(m, []) == map[]
  {
  }

  /** What the record loop has accepted so far, read backwards. */
  lemma UnparseOneRecord(input: seq<bv8>, count: nat, previous: Previous, m: CounterMap)
    returns (key: Digest, counter: U32, later: seq<bv8>)
    requires count > 0 && ParseRecords(input, count, previous, m).Success?
    ensures input == key + (LeBytes(counter, 4) + later) && Follows(previous, key) && counter != 0
    ensures ParseRecords(input, count, previous, m) == ParseRecords(later, count - 1, After(key), m[key := counter])
  {
    hide Less, LeBytes;
    var (k, rest) := ParseDigest(input).value;
    var (n, rest') := ParseU32(rest).value;
    key, counter, later := k, n, rest';
    FormatParseDigest(input);
    FormatParseU32(rest);
  }

  /** Whatever the record loop accepts is an ascending list of nonzero records. */
  lemma {:induction false} FormatParseRecords(input: seq<bv8>, count: nat, previous: Previous, before: CounterMap)
    returns (keys: seq<Digest>)
    requires ParseRecords(input, count, previous, before).Success?
    ensures |keys| == count && Ascending(keys)
    ensures previous.After? ==> forall i :: 0 <= i < |keys| ==> Less(previous.key, keys[i])
    ensures var (m, rest) := ParseRecords(input, count, previous, before).value;
            && (forall k :: k in keys ==> k in m && m[k] != 0)
            && (forall k :: k in before ==> k in m)
            && (forall k :: k in m && k !in keys ==> k in before && m[k] == before[k])
            && input == EncodeRecords(keys, m) + rest
    decreases count
  {
    hide Less, LeBytes;
    if count == 0 {
      keys := [];
      assert [] + input == input;
    } else {
      var key, counter, later := UnparseOneRecord(input, count, previous, before);
      var extended := before[key := counter];
      hide ParseRecords;
      var tail := FormatParseRecords(later, count - 1, After(key), extended);
      keys := [key] + tail;
      PrependAscends(previous, key, tail);
      var (m, rest) := ParseRecords(input, count, previous, before).value;
      if key in tail {
        LessIrreflexive(key);
      }
      assert m[key] == counter;
      assert keys[1..] == tail;
      hide EncodeRecords;
      EncodeRecordsStep(keys, m, rest);
    }
  }

  lemma PrependAscends(previous: Previous, key: Digest, tail: seq<Digest>)
    requires Follows(previous, key) && Ascending(tail)
    requires forall i :: 0 <= i < |tail| ==> Less(key, tail[i])
    ensures Ascending([key] + tail)
    ensures previous.After? ==> forall i :: 0 <= i <= |tail| ==> Less(previous.key, ([key] + tail)[i])
  {
    hide Less;
    if previous.After? {
      forall i | 0 < i <= |tail|
        ensures Less(previous.key, ([key] + tail)[i])
      {
        LessTransitive(previous.key, key, tail[i - 1]);
      }
    }
  }

  /** The counter section is canonical: parsing inverts the encoding, and every
      accepted section is the encoding of its result. */
  lemma CountersRoundTrip(m: CounterMap, rest: seq<bv8>)
    requires Nonzero(m)
    ensures ParseRecords(EncodeCounters(m) + rest, |m|, Start, map[]) == Success((m, rest))
  {
    hide EncodeRecords, ParseRecords, Less;
    var keys := SortedKeys(m.Keys);
    SortedKeysAscend(m.Keys);
    ParseRecordsFormat(keys, m, Start, map[], rest);
    assert map[] + Restrict(m, keys) == m;
    assert |keys| == |m|;
  }

  lemma CountersCanonical(input: seq<bv8>, count: nat)
    requires ParseRecords(input, count, Start, map[]).Success?
    ensures var (m, rest) := ParseRecords(input, count, Start, map[]).value;
            Nonzero(m) && |m| == count && input == EncodeCounters(m) + rest
  {
    hide EncodeRecords, ParseRecords, Less;
    var keys := FormatParseRecords(input, count, Start, map[]);
    var (m, rest) := ParseRecords(input, count, Start, map[]).value;
    AscendingUnique(keys);
    assert m.Keys == KeySet(keys);
    assert |SortedKeys(m.Keys)| == |m.Keys|;
  }

  lemma {:induction false} EncodeRecordsLength(keys: seq<Digest>, m: CounterMap)
    requires forall k :: k in keys ==> k in m
    ensures |EncodeRecords(keys, m)| == 36 * |keys|
    decreases |keys|
  {
    if keys != [] {
      EncodeRecordsLength(keys[1..], m);
    }
  }

  lemma {:induction false} EncodeRecordsAppend(keys: seq<Digest>, key: Digest, m: CounterMap)
    requires key in m && forall k :: k in keys ==> k in m
    ensures EncodeRecords(keys + [key], m) == EncodeRecords(keys, m) + key + LeBytes(m[key], 4)
    decreases |keys|
  {
    hide LeBytes;
    if keys == [] {
      assert [key][1..] == [] && [] + [key] == [key];
    } else {
      EncodeRecordsAppend(keys[1..], key, m);
      assert (keys + [key])[1..] == keys[1..] + [key];
    }
  }

  lemma {:induction false} RecordAt(keys: seq<Digest>, m: CounterMap, i: nat)
    requires (forall k :: k in keys ==> k in m) && i < |keys|
    ensures |EncodeRecords(keys, m)| == 36 * |keys|
    ensures EncodeRecords(keys, m)[36 * i..36 * i + 36] == keys[i] + LeBytes(m[keys[i]], 4)
    decreases i
  {
    hide LeBytes;
    EncodeRecordsLength(keys, m);
    var first := keys[0] + LeBytes(m[keys[0]], 4);
    var later := EncodeRecords(keys[1..], m);
    assert EncodeRecords(keys, m) == first + later;
    if i > 0 {
      RecordAt(keys[1..], m, i - 1);
      assert (first + later)[36 * i..36 * i + 36] == later[36 * (i - 1)..36 * (i - 1) + 36];
    }
  }

  /** The counter section, byte by byte: record i holds the i-th key and its
      counter in little-endian order, and the keys of two records differ first
      in a byte that is smaller in the earlier one. */
  lemma CountersLayout(m: CounterMap, i: nat, j: nat)
    requires i < j < |m|
    ensures var keys, bytes := SortedKeys(m.Keys), EncodeCounters(m);
            && |bytes| == 36 * |m|
            && bytes[36 * i..36 * i + 36] == keys[i] + LeBytes(m[keys[i]], 4)
            && bytes[36 * j..36 * j + 36] == keys[j] + LeBytes(m[keys[j]], 4)
            && exists d: nat :: FirstDifferenceAt(keys[i], keys[j], d)
  {
    hide EncodeRecords, LeBytes, FirstDifferenceAt, Less;
    var keys := SortedKeys(m.Keys);
    RecordAt(keys, m, i);
    RecordAt(keys, m, j);
    SortedKeysAscend(m.Keys);
    LessIsLexicographic(keys[i], keys[j]);
  }

  /** The record loop rejects a zero counter wherever it stands. */
  lemma {:induction false} ParseRecordsZero(keys: seq<Digest>, m: CounterMap, previous: Previous, before: CounterMap,
                                            rest: seq<bv8>)
    requires Ascending(keys) && (forall k :: k in keys ==> k in m) && (exists k :: k in keys && m[k] == 0)
    requires keys != [] ==> Follows(previous, keys[0])
    ensures ParseRecords(EncodeRecords(keys, m) + rest, |keys|, previous, before) == Failure(InvalidEncoding)
    decreases |keys|
  {
    hide Less, LeBytes;
    var key: Digest := keys[0];
    var tail := keys[1..];
    var later := EncodeRecords(tail, m) + rest;
    assert tail != [] ==> tail[0] == keys[1] && Less(keys[0], keys[1]);
    EncodeRecordsStep(keys, m, rest);
    hide EncodeRecords;
    if m[key] == 0 {
      ParseDigestFormat(key, LeBytes(0, 4) + later);
      ParseU32Format(0, later);
    } else {
      hide ParseRecords;
      ParseOneRecord(key, m[key], later, |tail|, previous, before);
      ParseRecordsZero(tail, m, After(key), before[key := m[key]], rest);
    }
  }

  lemma ZeroCounterRejected(m: CounterMap, rest: seq<bv8>)
    requires !Nonzero(m)
    ensures ParseRecords(EncodeCounters(m) + rest, |m|, Start, map[]) == Failure(InvalidEncoding)
  {
    hide EncodeRecords, ParseRecords, Less;
    SortedKeysAscend(m.Keys);
    ParseRecordsZero(SortedKeys(m.Keys), m, Start, map[], rest);
  }

  /** The iteration order of the ordered map. */
  method OrderedKeys(keys: set<Digest>) returns (sorted: seq<Digest>)
    ensures sorted == SortedKeys(keys)
    decreases |keys|
  {
    hide IsLeast;
    if keys == {} {
      sorted := [];
    } else {
      HasLeast(keys);
      var key: Digest :| IsLeast(key, keys);
      LeastIsFirst(keys, key);
      var rest := OrderedKeys(keys - {key});
      sorted := [key] + rest;
    }
  }

  /** The encoder's loop over the ordered map. */
  method AppendCounters(output: ByteBuffer, m: CounterMap)
    modifies output
    ensures output.bytes == old(output.bytes) + EncodeCounters(m)
  {
    hide EncodeRecords, LeBytes, SortedKeys;
    var sorted := OrderedKeys(m.Keys);
    NoRecords(m);
    assert sorted[..0] == [];
    for i := 0 to |sorted|
      invariant output.bytes == old(output.bytes) + EncodeRecords(sorted[..i], m)
    {
      var context := sorted[i];
      EncodeRecordsAppend(sorted[..i], context, m);
      assert sorted[..i + 1] == sorted[..i] + [context];
      output.Extend(context);
      output.Extend(LeBytes(m[context], 4));
    }
    assert sorted[..|sorted|] == sorted;
  }

  lemma NoRecords(m: CounterMap)
    ensures EncodeRecords([], m) == []
  {
  }

  lemma LeastIsFirst(keys: set<Digest>, key: Digest)
    requires IsLeast(key, keys)
    ensures key in keys && SortedKeys(keys) == [key] + SortedKeys(keys - {key})
  {
    hide Less;
    var first := SortedKeys(keys)[0];
    assert IsLeast(first, keys);
    if first != key {
      LessTransitive(first, key, first);
      LessIrreflexive(first);
    }
  }

  /** The decoder's loop, which remembers the previous key and grows the map. */
  method TakeCounters(decoder: Decoder, count: nat) returns (r: Result<CounterMap>)
    requires decoder.Valid()
    modifies decoder
    ensures decoder.Valid()
    ensures match ParseRecords(old(decoder.Rest()), count, Start, map[])
            case Success((m, rest)) => r == Success(m) && decoder.Rest() == rest
            case Failure(e) => r == Failure(e)
  {
    hide Less;
    var nextNonces: CounterMap := map[];
    var previous := Start;
    ghost var whole := ParseRecords(decoder.Rest(), count, Start, map[]);
    for i := 0 to count
      invariant decoder.Valid()
      invariant whole == ParseRecords(decoder.Rest(), count - i, previous, nextNonces)
    {
      var context :- decoder.TakeDigest();
      if previous.After? && !Less(previous.key, context) {
        return Failure(InvalidEncoding);
      }
      previous := After(context);
      var nextNonce :- decoder.TakeU32();
      if nextNonce == 0 {
        return Failure(InvalidEncoding);
      }
      nextNonces := nextNonces[context := nextNonce];
    }
    r := Success(nextNonces);
  }
}
