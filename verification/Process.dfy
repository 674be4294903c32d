/** The decoders behind a process's auxiliary vector, environment, command line and scores. */
module Process {
  import opened Wrappers
  import opened Bytes
  import opened Text
  import opened LastWins

  // ----- Auxiliary vector -----

  datatype ReadError = UnexpectedEof

  /** `std::io::Cursor` over a buffer. */
  class Cursor {
    const data: seq<Byte>
    var pos: nat

    constructor (data: seq<Byte>)
      ensures this.data == data && pos == 0
    {
      this.data := data;
      pos := 0;
    }

    /** Fill `word` from the data, or run to the end if too little is left. */
    method ReadExact(word: array<Byte>) returns (ok: bool)
      requires pos <= |data|
      modifies this`pos, word
      ensures ok <==> old(pos) + word.Length <= |data|
      ensures ok ==> pos == old(pos) + word.Length && word[..] == data[old(pos)..pos]
      ensures !ok ==> pos == |data| && word[..] == old(word[..])
    {
      if pos + word.Length > |data| {
        pos := |data|;
        return false;
      }
      forall i | 0 <= i < word.Length {
        word[i] := data[pos + i];
      }
      pos := pos + word.Length;
      ok := true;
    }
  }

  /** The first pair of words of a buffer; `w` is the word size and `e` the byte order. */
  function FirstPair(buf: seq<Byte>, w: nat, e: Endian): (nat, nat)
    requires 2 * w <= |buf|
  {
    (FromBytes(e, buf[..w]), FromBytes(e, buf[w..2 * w]))
  }

  /** The pairs before the terminating pair (0, 0), or `None` if the buffer ends before it. */
  function Pairs(buf: seq<Byte>, w: nat, e: Endian): Option<seq<(nat, nat)>>
    requires w > 0
    decreases |buf|
  {
    if |buf| < 2 * w then None
    else
      var pair := FirstPair(buf, w, e);
      if pair == (0, 0) then Some([]) else Prepend([pair], Pairs(buf[2 * w..], w, e))
  }

  function Prepend<T>(front: seq<T>, rest: Option<seq<T>>): Option<seq<T>> {
    match rest
    case None => None
    case Some(back) => Some(front + back)
  }

  /** Some kernel processes have an empty auxiliary vector. */
  function DecodeAuxv(buf: seq<Byte>, w: nat, e: Endian): Result<map<nat, nat>, ReadError>
    requires w > 0
  {
    if buf == [] then Ok(map[])
    else
      match Pairs(buf, w, e)
      case None => Err(UnexpectedEof)
      case Some(pairs) => Ok(Insert(pairs))
  }

  /** The loop form: a cursor, one reused word buffer, and a map that pairs are inserted into. */
  method Auxv(buf: seq<Byte>, w: nat, e: Endian) returns (r: Result<map<nat, nat>, ReadError>)
    requires w > 0
    ensures r == DecodeAuxv(buf, w, e)
  {
    var entries: map<nat, nat> := map[];
    if |buf| == 0 {
      return Ok(entries);
    }
    var cursor := new Cursor(buf);
    var word := new Byte[w];
    ghost var seen: seq<(nat, nat)> := [];
    assert buf[0..] == buf;
    PrependNothing(Pairs(buf, w, e));
    while true
      invariant fresh(cursor) && fresh(word) && cursor.data == buf && cursor.pos <= |buf|
      invariant entries == Insert(seen)
      invariant Pairs(buf, w, e) == Prepend(seen, Pairs(buf[cursor.pos..], w, e))
      decreases |buf| - cursor.pos
    {
      ghost var at := cursor.pos;
      var ok := cursor.ReadExact(word);
      if !ok { return Err(UnexpectedEof); }
      var key := FromBytes(e, word[..]);
      ok := cursor.ReadExact(word);
      if !ok { return Err(UnexpectedEof); }
      var value := FromBytes(e, word[..]);
      PairsFrom(buf, at, w, e, key, value);
      if key == 0 && value == 0 {
        assert seen + [] == seen;
        break;
      }
      PrependTwice(seen, [(key, value)], Pairs(buf[cursor.pos..], w, e));
      InsertSnoc(seen, key, value);
      entries := entries[key := value];
      seen := seen + [(key, value)];
    }
    return Ok(entries);
  }

  /** Reading on from position `at`, in terms of the two words found there. */
  lemma PairsFrom(buf: seq<Byte>, at: nat, w: nat, e: Endian, key: nat, value: nat)
    requires w > 0 && at + 2 * w <= |buf|
    requires key == FromBytes(e, buf[at..at + w]) && value == FromBytes(e, buf[at + w..at + w + w])
    ensures Pairs(buf[at..], w, e) ==
            if (key, value) == (0, 0) then Some([]) else Prepend([(key, value)], Pairs(buf[at + w + w..], w, e))
  {
    assert buf[at..][..w] == buf[at..at + w];
    assert buf[at..][w..2 * w] == buf[at + w..at + w + w];
    assert buf[at..][2 * w..] == buf[at + w + w..];
  }

  lemma PrependNothing<T>(rest: Option<seq<T>>)
    ensures Prepend([], rest) == rest
  {
    if rest.Some? {
      assert [] + rest.value == rest.value;
    }
  }

  lemma PrependTwice<T>(a: seq<T>, b: seq<T>, rest: Option<seq<T>>)
    ensures Prepend(a, Prepend(b, rest)) == Prepend(a + b, rest)
  {
    if rest.Some? {
      assert a + (b + rest.value) == a + b + rest.value;
    }
  }

  /** The position of pair `i`. */
  function Offset(w: nat, i: nat): nat {
    i * (2 * w)
  }

  lemma OffsetNext(w: nat, i: nat)
    ensures Offset(w, i + 1) == 2 * w + Offset(w, i)
  {
    var n := 2 * w;
    assert (i + 1) * n == i * n + n;
  }

  /** Pair `i` is complete. */
  predicate InBuffer(buf: seq<Byte>, w: nat, i: nat) {
    Offset(w, i) + 2 * w <= |buf|
  }

  /** The pair of words at index `i`. */
  function PairAt(buf: seq<Byte>, w: nat, e: Endian, i: nat): (nat, nat)
    requires InBuffer(buf, w, i)
  {
    var o := Offset(w, i);
    (FromBytes(e, buf[o..o + w]), FromBytes(e, buf[o + w..o + 2 * w]))
  }

  /** Pair `i` is complete and is (0, 0). */
  ghost predicate TerminatorAt(buf: seq<Byte>, w: nat, e: Endian, i: nat) {
    InBuffer(buf, w, i) && PairAt(buf, w, e, i) == (0, 0)
  }

  /** `pairs` are the pairs of the buffer up to the first terminator. */
  ghost predicate PairsUpToTerminator(buf: seq<Byte>, w: nat, e: Endian, pairs: seq<(nat, nat)>) {
    && TerminatorAt(buf, w, e, |pairs|)
    && (forall i: nat | i < |pairs| :: InBuffer(buf, w, i) && PairAt(buf, w, e, i) == pairs[i] != (0, 0))
  }

  /** Index `i + 1` of a buffer is index `i` of the buffer after its first pair. */
  lemma PairAtNext(buf: seq<Byte>, w: nat, e: Endian, i: nat)
    requires 2 * w <= |buf|
    ensures InBuffer(buf, w, i + 1) <==> InBuffer(buf[2 * w..], w, i)
    ensures InBuffer(buf, w, i + 1) ==> PairAt(buf, w, e, i + 1) == PairAt(buf[2 * w..], w, e, i)
  {
    OffsetNext(w, i);
    if InBuffer(buf, w, i + 1) {
      SliceOfSuffix(buf, 2 * w, Offset(w, i), w);
      SliceOfSuffix(buf, 2 * w, Offset(w, i) + w, w);
    }
  }

  lemma SliceOfSuffix(buf: seq<Byte>, u: nat, o: nat, n: nat)
    requires u + o + n <= |buf|
    ensures buf[u + o..u + o + n] == buf[u..][o..o + n]
  {
  }

  lemma PairAtFirst(buf: seq<Byte>, w: nat, e: Endian)
    requires 2 * w <= |buf|
    ensures InBuffer(buf, w, 0) && PairAt(buf, w, e, 0) == FirstPair(buf, w, e)
  {
  }

  lemma OnePairMore(buf: seq<Byte>, w: nat, e: Endian, tail: seq<(nat, nat)>)
    requires 2 * w <= |buf| && FirstPair(buf, w, e) != (0, 0)
    requires PairsUpToTerminator(buf[2 * w..], w, e, tail)
    ensures PairsUpToTerminator(buf, w, e, [FirstPair(buf, w, e)] + tail)
  {
    var pairs := [FirstPair(buf, w, e)] + tail;
    PairAtNext(buf, w, e, |tail|);
    forall i: nat | i < |pairs|
      ensures InBuffer(buf, w, i) && PairAt(buf, w, e, i) == pairs[i] != (0, 0)
    {
      if i == 0 {
        PairAtFirst(buf, w, e);
      } else {
        PairAtNext(buf, w, e, i - 1);
      }
    }
  }

  /** The recursive reading finds exactly the pairs up to the first terminator. */
  lemma {:induction false} PairsSound(buf: seq<Byte>, w: nat, e: Endian)
    requires w > 0
    ensures Pairs(buf, w, e).Some? ==> PairsUpToTerminator(buf, w, e, Pairs(buf, w, e).value)
    decreases |buf|
  {
    if |buf| >= 2 * w {
      if FirstPair(buf, w, e) == (0, 0) {
        PairAtFirst(buf, w, e);
      } else if Pairs(buf[2 * w..], w, e).Some? {
        PairsSound(buf[2 * w..], w, e);
        OnePairMore(buf, w, e, Pairs(buf[2 * w..], w, e).value);
      }
    }
  }

  lemma TerminatorNext(buf: seq<Byte>, w: nat, e: Endian, i: nat)
    requires i > 0 && TerminatorAt(buf, w, e, i)
    ensures 2 * w <= |buf| && TerminatorAt(buf[2 * w..], w, e, i - 1)
  {
    PairAtNext(buf, w, e, i - 1);
  }

  lemma {:induction false} PairsComplete(buf: seq<Byte>, w: nat, e: Endian, i: nat)
    requires w > 0 && TerminatorAt(buf, w, e, i)
    ensures Pairs(buf, w, e).Some?
    decreases i
  {
    if i == 0 {
      PairAtFirst(buf, w, e);
    } else {
      TerminatorNext(buf, w, e, i);
      PairsComplete(buf[2 * w..], w, e, i - 1);
    }
  }

  /** A non-empty buffer decodes exactly if some complete, aligned pair of words is (0, 0). */
  lemma AuxvAccepts(buf: seq<Byte>, w: nat, e: Endian)
    requires w > 0 && buf != []
    ensures DecodeAuxv(buf, w, e).Ok? <==> exists i :: TerminatorAt(buf, w, e, i)
  {
    if Pairs(buf, w, e).Some? {
      PairsSound(buf, w, e);
      assert TerminatorAt(buf, w, e, |Pairs(buf, w, e).value|);
    }
    forall i | TerminatorAt(buf, w, e, i)
      ensures Pairs(buf, w, e).Some?
    {
      PairsComplete(buf, w, e, i);
    }
  }

  /**
   The result maps each key to its last value among the pairs before the first terminator, and
   nothing after the terminator matters.
   */
  lemma AuxvExact(buf: seq<Byte>, w: nat, e: Endian, pairs: seq<(nat, nat)>)
    requires w > 0 && PairsUpToTerminator(buf, w, e, pairs)
    ensures DecodeAuxv(buf, w, e) == Ok(Insert(pairs))
  {
    PairsComplete(buf, w, e, |pairs|);
    PairsSound(buf, w, e);
    UniquePairs(buf, w, e, pairs, Pairs(buf, w, e).value);
  }

  lemma UniquePairs(buf: seq<Byte>, w: nat, e: Endian, a: seq<(nat, nat)>, b: seq<(nat, nat)>)
    requires PairsUpToTerminator(buf, w, e, a) && PairsUpToTerminator(buf, w, e, b)
    ensures a == b
  {
  }

  /** All keys and values fit a word, and no pair looks like the terminator. */
  ghost predicate Encodable(pairs: seq<(nat, nat)>, w: nat) {
    forall i | 0 <= i < |pairs| ::
      pairs[i].0 < Pow256(w) && pairs[i].1 < Pow256(w) && pairs[i] != (0, 0)
  }

  function EncodePair(pair: (nat, nat), w: nat, e: Endian): seq<Byte>
    requires pair.0 < Pow256(w) && pair.1 < Pow256(w)
  {
    ToBytes(e, pair.0, w) + ToBytes(e, pair.1, w)
  }

  /** The pairs, then the terminator. */
  ghost function Encode(pairs: seq<(nat, nat)>, w: nat, e: Endian): seq<Byte>
    requires Encodable(pairs, w)
  {
    if pairs == [] then EncodePair((0, 0), w, e)
    else EncodePair(pairs[0], w, e) + Encode(pairs[1..], w, e)
  }

  lemma EncodedFirst(pair: (nat, nat), w: nat, e: Endian, rest: seq<Byte>)
    requires pair.0 < Pow256(w) && pair.1 < Pow256(w)
    ensures var buf := EncodePair(pair, w, e) + rest;
            2 * w <= |buf| && FirstPair(buf, w, e) == pair && buf[2 * w..] == rest
  {
    var buf := EncodePair(pair, w, e) + rest;
    assert buf[..w] == ToBytes(e, pair.0, w);
    assert buf[w..2 * w] == ToBytes(e, pair.1, w);
    FromToBytes(e, pair.0, w);
    FromToBytes(e, pair.1, w);
  }

  lemma PairsOfPair(pair: (nat, nat), w: nat, e: Endian, rest: seq<Byte>)
    requires w > 0 && pair.0 < Pow256(w) && pair.1 < Pow256(w) && pair != (0, 0)
    ensures Pairs(EncodePair(pair, w, e) + rest, w, e) == Prepend([pair], Pairs(rest, w, e))
  {
    EncodedFirst(pair, w, e, rest);
  }

  lemma ConcatAssociates<T>(a: seq<T>, b: seq<T>, c: seq<T>)
    ensures a + b + c == a + (b + c)
  {
  }

  lemma PairsOfTerminator(w: nat, e: Endian, trailing: seq<Byte>)
    requires w > 0
    ensures Pairs(EncodePair((0, 0), w, e) + trailing, w, e) == Some([])
  {
    EncodedFirst((0, 0), w, e, trailing);
  }

  lemma {:induction false} PairsOfEncoding(pairs: seq<(nat, nat)>, w: nat, e: Endian, trailing: seq<Byte>)
    requires w > 0 && Encodable(pairs, w)
    ensures Pairs(Encode(pairs, w, e) + trailing, w, e) == Some(pairs)
  {
    if pairs == [] {
      PairsOfTerminator(w, e, trailing);
    } else {
      var rest := Encode(pairs[1..], w, e);
      PairsOfEncoding(pairs[1..], w, e, trailing);
      PairsOfPair(pairs[0], w, e, rest + trailing);
      ConcatAssociates(EncodePair(pairs[0], w, e), rest, trailing);
      assert [pairs[0]] + pairs[1..] == pairs;
    }
  }

  /**
   Any list of pairs, encoded with its terminator and followed by any bytes, decodes to the map
   that inserting the pairs gives ...
   */
  lemma AuxvRoundTrip(pairs: seq<(nat, nat)>, w: nat, e: Endian, trailing: seq<Byte>)
    requires w > 0 && Encodable(pairs, w)
    ensures DecodeAuxv(Encode(pairs, w, e) + trailing, w, e) == Ok(Insert(pairs))
  {
    PairsOfEncoding(pairs, w, e, trailing);
    assert Encode(pairs, w, e) + trailing != [];
  }

  /** ... so that any map is read back from any listing of its entries. */
  lemma AuxvMapRoundTrip(m: map<nat, nat>, pairs: seq<(nat, nat)>, w: nat, e: Endian, trailing: seq<Byte>)
    requires w > 0 && Encodable(pairs, w) && Lists(pairs, m)
    ensures DecodeAuxv(Encode(pairs, w, e) + trailing, w, e) == Ok(m)
  {
    AuxvRoundTrip(pairs, w, e, trailing);
    InsertListing(pairs, m);
  }

  /** One entry and the terminator, word by word. */
  lemma AuxvOne(key: nat, value: nat, w: nat, e: Endian)
    requires w > 0 && key < Pow256(w) && value < Pow256(w) && (key, value) != (0, 0)
    ensures DecodeAuxv(ToBytes(e, key, w) + ToBytes(e, value, w) + (ToBytes(e, 0, w) + ToBytes(e, 0, w)), w, e) ==
            Ok(map[key := value])
  {
    var pairs := [(key, value)];
    PairsOfTerminator(w, e, []);
    assert EncodePair((0, 0), w, e) + [] == EncodePair((0, 0), w, e);
    PairsOfPair((key, value), w, e, EncodePair((0, 0), w, e));
    assert pairs + [] == pairs;
    var none: seq<(nat, nat)> := [];
    InsertSnoc(none, key, value);
    assert none + pairs == pairs && Insert(none) == map[];
  }

  lemma TakeAppend<T>(a: seq<T>, b: seq<T>, n: nat)
    requires |a| <= n <= |a| + |b|
    ensures (a + b)[..n] == a + b[..n - |a|]
  {
  }

  lemma {:induction false} PairsOfTruncated(pairs: seq<(nat, nat)>, w: nat, e: Endian, n: nat)
    requires w > 0 && Encodable(pairs, w) && n < |Encode(pairs, w, e)|
    ensures Pairs(Encode(pairs, w, e)[..n], w, e) == None
  {
    if n >= 2 * w {
      assert pairs != [];
      var head, tail := EncodePair(pairs[0], w, e), Encode(pairs[1..], w, e);
      PairsOfTruncated(pairs[1..], w, e, n - 2 * w);
      TakeAppend(head, tail, n);
      PairsOfPair(pairs[0], w, e, tail[..n - 2 * w]);
    }
  }

  /** An encoding cut anywhere before its terminator is complete is an error, unless nothing is left. */
  lemma AuxvTruncated(pairs: seq<(nat, nat)>, w: nat, e: Endian, n: nat)
    requires w > 0 && Encodable(pairs, w) && n < |Encode(pairs, w, e)|
    ensures DecodeAuxv(Encode(pairs, w, e)[..n], w, e) == if n == 0 then Ok(map[]) else Err(UnexpectedEof)
  {
    PairsOfTruncated(pairs, w, e, n);
  }

  // ----- Environment -----

  type ByteString = seq<Byte>

  const EQUALS: Byte := 0x3D

  predicate IsNulByte(b: Byte) {
    b == 0
  }

  predicate IsNotEquals(b: Byte) {
    b != EQUALS
  }

  /** Split a record at its first equals sign; a record without one is dropped. */
  function KeyValue(record: ByteString): Option<(ByteString, ByteString)> {
    var n := Span(record, IsNotEquals);
    if n == |record| then None else Some((record[..n], record[n + 1..]))
  }

  function Entries(records: seq<ByteString>): seq<(ByteString, ByteString)> {
    if records == [] then []
    else
      match KeyValue(records[0])
      case None => Entries(records[1..])
      case Some(entry) => [entry] + Entries(records[1..])
  }

  /** The NUL-delimited records of a buffer. */
  function Records(buf: ByteString): seq<ByteString> {
    Split(buf, IsNulByte)
  }

  function DecodeEnviron(buf: ByteString): map<ByteString, ByteString> {
    Insert(Entries(Records(buf)))
  }

  /** The loop form: insert one record after the other. */
  method Environ(buf: ByteString) returns (entries: map<ByteString, ByteString>)
    ensures entries == DecodeEnviron(buf)
  {
    entries := map[];
    var records := Records(buf);
    for i := 0 to |records|
      invariant entries == Insert(Entries(records[..i]))
    {
      assert records[..i + 1] == records[..i] + [records[i]];
      EntriesSnoc(records[..i], records[i]);
      var entry := KeyValue(records[i]);
      if entry.Some? {
        InsertSnoc(Entries(records[..i]), entry.value.0, entry.value.1);
        entries := entries[entry.value.0 := entry.value.1];
      }
    }
    assert records[..|records|] == records;
  }

  lemma {:induction false} EntriesSnoc(records: seq<ByteString>, record: ByteString)
    ensures Entries(records + [record]) ==
            match KeyValue(record) case None => Entries(records) case Some(entry) => Entries(records) + [entry]
  {
    if records == [] {
      assert ([record])[1..] == [];
    } else {
      assert (records + [record])[1..] == records[1..] + [record];
      EntriesSnoc(records[1..], record);
    }
  }

  /** Record text `key=value`, where the key has no equals sign. */
  ghost predicate IsEntry(record: ByteString, key: ByteString, value: ByteString) {
    0x3D !in key && record == key + [0x3D] + value
  }

  /** The record defines `key`. */
  ghost predicate HasKey(record: ByteString, key: ByteString) {
    0x3D !in key && key + [0x3D] <= record
  }

  lemma KeyValueExact(record: ByteString, key: ByteString, value: ByteString)
    ensures KeyValue(record) == Some((key, value)) <==> IsEntry(record, key, value)
    ensures HasKey(record, key) <==> KeyValue(record).Some? && KeyValue(record).value.0 == key
  {
    var n := Span(record, IsNotEquals);
    if n < |record| {
      assert IsEntry(record, record[..n], record[n + 1..]);
    }
    if HasKey(record, key) {
      var rest := record[|key| + 1..];
      assert record == key + ([0x3D] + rest);
      SpanOf(key, [0x3D] + rest, IsNotEquals);
      assert record[..|key|] == key;
    }
    if IsEntry(record, key, value) {
      assert record[|key| + 1..] == value;
    }
  }

  /** Record `i` is the last one that defines `key`, and it gives it `value`. */
  ghost predicate LastDefinition(records: seq<ByteString>, i: int, key: ByteString, value: ByteString) {
    && 0 <= i < |records| && IsEntry(records[i], key, value)
    && forall j | i < j < |records| :: !HasKey(records[j], key)
  }

  /** Some record of the list is the last definition of `key`, and it gives it `value`. */
  ghost predicate Defined(records: seq<ByteString>, key: ByteString, value: ByteString) {
    exists i :: LastDefinition(records, i, key, value)
  }

  lemma DefinedSnoc(front: seq<ByteString>, last: ByteString, key: ByteString, value: ByteString)
    ensures Defined(front + [last], key, value) <==>
            if HasKey(last, key) then IsEntry(last, key, value) else Defined(front, key, value)
  {
    var records, n := front + [last], |front|;
    assert records[n] == last;
    if HasKey(last, key) {
      assert forall i | LastDefinition(records, i, key, value) :: i == n;
      assert IsEntry(last, key, value) ==> LastDefinition(records, n, key, value);
    } else {
      assert !IsEntry(last, key, value);
      forall i | LastDefinition(front, i, key, value)
        ensures LastDefinition(records, i, key, value)
      {
      }
      forall i | LastDefinition(records, i, key, value)
        ensures LastDefinition(front, i, key, value)
      {
        forall j | i < j < n
          ensures !HasKey(front[j], key)
        {
          assert front[j] == records[j];
        }
      }
    }
  }

  lemma {:induction false} EntriesExact(records: seq<ByteString>, key: ByteString, value: ByteString)
    ensures var m := Insert(Entries(records));
            (key in m && m[key] == value) <==> Defined(records, key, value)
  {
    if records != [] {
      var n := |records| - 1;
      var front, last := records[..n], records[n];
      assert records == front + [last];
      EntriesExact(front, key, value);
      EntriesSnoc(front, last);
      DefinedSnoc(front, last, key, value);
      KeyValueExact(last, key, value);
      var entry := KeyValue(last);
      if entry.Some? {
        InsertSnoc(Entries(front), entry.value.0, entry.value.1);
      }
    }
  }

  /** The buffer is `records`, free of NULs, with one NUL between any two. */
  ghost predicate NulSeparated(buf: ByteString, records: seq<ByteString>) {
    records != [] && Free(records, IsNulByte) && Join(records, 0) == buf
  }

  lemma RecordsExact(buf: ByteString, records: seq<ByteString>)
    ensures Records(buf) == records <==> NulSeparated(buf, records)
  {
    SplitExact(buf, records, IsNulByte, 0);
  }

  /**
   A key maps to a value exactly if the buffer is a NUL-separated list of records in which the last
   one that reads `key=...` reads `key=value`; the value may itself contain equals signs.
   */
  lemma EnvironExact(buf: ByteString, key: ByteString, value: ByteString)
    ensures var m := DecodeEnviron(buf);
            (key in m && m[key] == value) <==>
            exists records :: NulSeparated(buf, records) && Defined(records, key, value)
  {
    forall records
      ensures NulSeparated(buf, records) <==> records == Records(buf)
    {
      RecordsExact(buf, records);
    }
    EntriesExact(Records(buf), key, value);
  }

  /** Keys hold neither NUL nor an equals sign, values no NUL. */
  ghost predicate Serialisable(entries: seq<(ByteString, ByteString)>) {
    forall i | 0 <= i < |entries| ::
      0 !in entries[i].0 && 0x3D !in entries[i].0 && 0 !in entries[i].1
  }

  function Serialise(entries: seq<(ByteString, ByteString)>): ByteString {
    if entries == [] then []
    else entries[0].0 + [0x3D] + entries[0].1 + [0] + Serialise(entries[1..])
  }

  lemma {:induction false} EntriesOfSerialised(entries: seq<(ByteString, ByteString)>)
    requires Serialisable(entries)
    ensures Entries(Records(Serialise(entries))) == entries
  {
    if entries == [] {
      var none: seq<ByteString> := [[]];
      assert none[1..] == [] && KeyValue(none[0]) == None;
    } else {
      var key, value := entries[0].0, entries[0].1;
      var record := key + [0x3D] + value;
      EntriesOfSerialised(entries[1..]);
      assert NoneOf(record, IsNulByte);
      SplitCons(record, 0, Serialise(entries[1..]), IsNulByte);
      KeyValueExact(record, key, value);
      var records := Records(Serialise(entries[1..]));
      assert ([record] + records)[1..] == records;
    }
  }

  /** Serialised entries decode to the map that inserting them gives ... */
  lemma EnvironRoundTrip(entries: seq<(ByteString, ByteString)>)
    requires Serialisable(entries)
    ensures DecodeEnviron(Serialise(entries)) == Insert(entries)
  {
    EntriesOfSerialised(entries);
  }

  /** ... so that any environment is read back from any listing of it. */
  lemma EnvironMapRoundTrip(m: map<ByteString, ByteString>, entries: seq<(ByteString, ByteString)>)
    requires Serialisable(entries) && Lists(entries, m)
    ensures DecodeEnviron(Serialise(entries)) == m
  {
    EnvironRoundTrip(entries);
    InsertListing(entries, m);
  }

  /** One variable, whose value may hold equals signs (byte 0x3D). */
  lemma EnvironOne(key: ByteString, value: ByteString)
    requires 0 !in key && 0x3D !in key && 0 !in value
    ensures DecodeEnviron(key + [0x3D] + value + [0]) == map[key := value]
  {
    var entries := [(key, value)];
    assert entries[..0] == [] && entries[1..] == [];
    assert Serialise(entries) == key + [0x3D] + value + [0] + [] == key + [0x3D] + value + [0];
    EnvironRoundTrip(entries);
  }

  // ----- Command line -----

  predicate IsNul(c: char) {
    c == '\0'
  }

  function Cmdline(buf: string): seq<string> {
    Tokens(buf, IsNul)
  }

  /** The one separator of arguments is the character NUL. */
  lemma NulOnly()
    ensures Only(IsNul, '\0')
  {
  }

  /**
   The arguments are the maximal NUL-free non-empty pieces, in order: `args` is the result exactly
   if the buffer is `args` with runs of NULs around them, non-empty between any two.
   */
  lemma CmdlineExact(buf: string, args: seq<string>)
    ensures Cmdline(buf) == args <==> exists gaps :: LaysOut(buf, gaps, args, IsNul)
  {
    TokensExact(buf, args, IsNul);
  }

  function Flatten(parts: seq<string>): string {
    if parts == [] then "" else parts[0] + Flatten(parts[1..])
  }

  function WithoutNul(s: string): string {
    if s == "" then "" else if s[0] == '\0' then WithoutNul(s[1..]) else [s[0]] + WithoutNul(s[1..])
  }

  lemma {:induction false} FlattenNonEmpty(parts: seq<string>)
    ensures Flatten(NonEmpty(parts)) == Flatten(parts)
  {
    if parts != [] {
      FlattenNonEmpty(parts[1..]);
      if |parts[0]| == 0 {
        assert parts[0] + Flatten(parts[1..]) == Flatten(parts[1..]);
      } else {
        assert ([parts[0]] + NonEmpty(parts[1..]))[1..] == NonEmpty(parts[1..]);
      }
    }
  }

  lemma {:induction false} FlattenSplit(s: string)
    ensures Flatten(Split(s, IsNul)) == WithoutNul(s)
  {
    if s == "" {
      assert [""][1..] == [];
    } else {
      FlattenSplit(s[1..]);
      var rest := Split(s[1..], IsNul);
      if IsNul(s[0]) {
        assert ([""] + rest)[1..] == rest;
      } else {
        assert ([[s[0]] + rest[0]] + rest[1..])[1..] == rest[1..];
        assert [s[0]] + rest[0] + Flatten(rest[1..]) == [s[0]] + (rest[0] + Flatten(rest[1..]));
      }
    }
  }

  /** Nothing but NULs is lost: the arguments put together are the buffer without its NULs. */
  lemma CmdlineConserves(buf: string)
    ensures Flatten(Cmdline(buf)) == WithoutNul(buf)
  {
    FlattenNonEmpty(Split(buf, IsNul));
    FlattenSplit(buf);
  }
}
