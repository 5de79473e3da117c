/**
 * A reader for the bencode the encoder writes. It is the encoder's partner in
 * the round-trip lemma `DecodeEncode`: every value without an `End` marker is
 * read back from its encoding, whatever bytes follow it. The reader insists on
 * dictionary keys in strictly ascending order, so the same lemma shows that the
 * encoder sorts the keys of every dictionary, however deeply nested.
 */
module BencodeReader {
  import opened Numeric
  import opened Wrappers
  import opened BencodeOrder
  import opened BencodeEncoder

  predicate IsDigit(b: byte)
  {
    ASCII_ZERO <= b <= ASCII_ZERO + 9
  }

  /** The longest run of decimal digits at the front of `bs`, as digit values, and what follows it. */
  function ReadDigits(bs: Bytes): (r: (seq<nat>, Bytes))
    ensures |r.1| <= |bs|
    ensures |r.0| + |r.1| == |bs|
    decreases |bs|
  {
    if bs != [] && IsDigit(bs[0]) then
      var (ds, rest) := ReadDigits(bs[1..]);
      ([bs[0] - ASCII_ZERO] + ds, rest)
    else
      ([], bs)
  }

  /** A non-empty run of digits and the number it denotes. */
  function ReadNumber(bs: Bytes): (r: Option<(nat, Bytes)>)
    ensures r.Some? ==> |r.value.1| < |bs|
  {
    var (ds, rest) := ReadDigits(bs);
    if ds == [] then None else Some((DigitsValue(ds), rest))
  }

  function ReadInteger(bs: Bytes): (r: Option<(Value, Bytes)>)
    requires bs != [] && bs[0] == INTEGER_START_TOKEN
    ensures r.Some? ==> |r.value.1| < |bs|
  {
    var negative := |bs| > 1 && bs[1] == MINUS_SIGN;
    var digitsStart := if negative then 2 else 1;
    match ReadNumber(bs[digitsStart..])
    case None => None
    case Some((magnitude, rest)) =>
      var n: int := if negative then -(magnitude as int) else magnitude;
      if rest != [] && rest[0] == END_TOKEN && -0x8000_0000_0000_0000 <= n < 0x8000_0000_0000_0000
      then Some((Integer(n), rest[1..]))
      else None
  }

  function ReadString(bs: Bytes): (r: Option<(Value, Bytes)>)
    ensures r.Some? ==> |r.value.1| < |bs|
  {
    match ReadNumber(bs)
    case None => None
    case Some((length, rest)) =>
      if rest != [] && rest[0] == STRING_START_TOKEN && length <= |rest| - 1
      then Some((String(rest[1..1 + length]), rest[1 + length..]))
      else None
  }

  /** Reads one value from the front of `bs`; `None` when no value starts there. */
  function Decode(bs: Bytes): (r: Option<(Value, Bytes)>)
    ensures r.Some? ==> |r.value.1| < |bs|
    decreases |bs|, 1
  {
    if bs == [] then None
    else if bs[0] == INTEGER_START_TOKEN then ReadInteger(bs)
    else if bs[0] == LIST_START_TOKEN then
      match DecodeItems(bs[1..])
      case None => None
      case Some((items, rest)) => Some((List(items), rest))
    else if bs[0] == DICTIONARY_START_TOKEN then
      match DecodeEntries(bs[1..], None)
      case None => None
      case Some((d, rest)) => Some((Dictionary(d), rest))
    else ReadString(bs)
  }

  /** Values up to the closing 'e' of a list. */
  function DecodeItems(bs: Bytes): (r: Option<(seq<Value>, Bytes)>)
    ensures r.Some? ==> |r.value.1| < |bs|
    decreases |bs|, 2
  {
    if bs == [] then None
    else if bs[0] == END_TOKEN then Some(([], bs[1..]))
    else
      match Decode(bs)
      case None => None
      case Some((item, rest)) =>
        (match DecodeItems(rest)
         case None => None
         case Some((items, rest')) => Some(([item] + items, rest')))
  }

  /**
   * Key/value pairs up to the closing 'e' of a dictionary; each key must be a
   * byte string sorting strictly after the previous key (`after`).
   */
  function DecodeEntries(bs: Bytes, after: Option<Bytes>): (r: Option<(map<Bytes, Value>, Bytes)>)
    ensures r.Some? ==> |r.value.1| < |bs|
    decreases |bs|, 2
  {
    if bs == [] then None
    else if bs[0] == END_TOKEN then Some((map[], bs[1..]))
    else
      match Decode(bs)
      case Some((String(key), rest)) =>
        if after.Some? && !LexLess(after.value, key) then None
        else
          (match Decode(rest)
           case None => None
           case Some((value, rest')) =>
             (match DecodeEntries(rest', Some(key))
              case None => None
              case Some((d, rest'')) => Some((d[key := value], rest''))))
      case _ => None
  }

  /** A value with no `End` marker anywhere inside it: `End` encodes to nothing and cannot be read back. */
  predicate WellFormed(v: Value)
    decreases v
  {
    match v
    case End => false
    case List(items) => forall i :: 0 <= i < |items| ==> WellFormed(items[i])
    case Dictionary(d) => forall k :: k in d ==> WellFormed(d[k])
    case _ => true
  }

  lemma {:induction false} ReadDigitsOfDigits(ds: seq<nat>, tail: Bytes)
    requires AllDigits(ds)
    requires tail == [] || !IsDigit(tail[0])
    ensures ReadDigits(AsciiDigits(ds) + tail) == (ds, tail)
    decreases |ds|
  {
    if ds != [] {
      var bs := AsciiDigits(ds) + tail;
      assert bs[1..] == AsciiDigits(ds[1..]) + tail;
      ReadDigitsOfDigits(ds[1..], tail);
      assert ds == [ds[0]] + ds[1..];
    } else {
      assert AsciiDigits(ds) + tail == tail;
    }
  }

  /** The decimal text of `n`, followed by a non-digit, reads back as `n`. */
  lemma ReadNumberOfDecimal(n: nat, tail: Bytes)
    requires tail == [] || !IsDigit(tail[0])
    ensures ReadNumber(DecimalBytes(n) + tail) == Some((n, tail))
  {
    DigitsCorrect(n);
    ReadDigitsOfDigits(Digits(n), tail);
  }

  lemma StringRoundTrip(s: Bytes, rest: Bytes)
    ensures StringEncoding(s) + rest != [] && IsDigit((StringEncoding(s) + rest)[0])
    ensures Decode(StringEncoding(s) + rest) == Some((String(s), rest))
  {
    var bs := StringEncoding(s) + rest;
    var tail := [STRING_START_TOKEN] + s + rest;
    assert bs == DecimalBytes(|s|) + tail;
    ReadNumberOfDecimal(|s|, tail);
    assert tail[1..1 + |s|] == s;
    assert tail[1 + |s|..] == rest;
  }

  lemma IntegerRoundTrip(n: i64, rest: Bytes)
    ensures Decode(Encode(Integer(n)) + rest) == Some((Integer(n), rest))
  {
    var bs := Encode(Integer(n)) + rest;
    var tail := [END_TOKEN] + rest;
    if n < 0 {
      assert bs[2..] == DecimalBytes(-(n as int)) + tail;
      ReadNumberOfDecimal(-(n as int), tail);
    } else {
      assert bs[1..] == DecimalBytes(n) + tail;
      ReadNumberOfDecimal(n, tail);
    }
  }

  /**
   * Every value but `End` has a non-empty encoding, and it starts with a byte
   * that tells the kind of value: 'i', 'l', 'd', or the first digit of a
   * string's length.
   */
  lemma EncodeFirstByte(v: Value)
    ensures v.End? <==> Encode(v) == []
    ensures Encode(v) != [] ==> Encode(v)[0] != END_TOKEN
    ensures v.Integer? ==> Encode(v)[0] == INTEGER_START_TOKEN
    ensures v.List? ==> Encode(v)[0] == LIST_START_TOKEN
    ensures v.Dictionary? ==> Encode(v)[0] == DICTIONARY_START_TOKEN
    ensures v.String? ==> IsDigit(Encode(v)[0])
  {
  }

  /** How `DecodeItems` reads one more item. */
  lemma DecodeItemsStep(bs: Bytes, item: Value, rest: Bytes, items: seq<Value>, rest': Bytes)
    requires bs != [] && bs[0] != END_TOKEN
    requires Decode(bs) == Some((item, rest))
    requires DecodeItems(rest) == Some((items, rest'))
    ensures DecodeItems(bs) == Some(([item] + items, rest'))
  {
  }

  /** How `DecodeEntries` reads one more key and value. */
  lemma DecodeEntriesStep(bs: Bytes, after: Option<Bytes>, key: Bytes, rest: Bytes,
                          value: Value, rest': Bytes, d: map<Bytes, Value>, rest'': Bytes)
    requires bs != [] && bs[0] != END_TOKEN
    requires Decode(bs) == Some((String(key), rest))
    requires after.None? || LexLess(after.value, key)
    requires Decode(rest) == Some((value, rest'))
    requires DecodeEntries(rest', Some(key)) == Some((d, rest''))
    ensures DecodeEntries(bs, after) == Some((d[key := value], rest''))
  {
  }

  lemma AppendAssociative(a: Bytes, b: Bytes, c: Bytes)
    ensures (a + b) + c == a + (b + c)
  {
  }

  lemma ItemEncodingsCons(items: seq<Value>, tail: Bytes)
    requires items != []
    ensures Concat(ItemEncodings(items)) + tail
         == Encode(items[0]) + (Concat(ItemEncodings(items[1..])) + tail)
  {
    var head := Encode(items[0]);
    var parts := ItemEncodings(items[1..]);
    assert ItemEncodings(items) == [head] + parts;
    ConcatCons(head, parts);
    AppendAssociative(head, Concat(parts), tail);
  }

  lemma EntryEncodingsCons(d: map<Bytes, Value>, keys: seq<Bytes>, tail: Bytes)
    requires forall i :: 0 <= i < |keys| ==> keys[i] in d
    requires keys != []
    ensures Concat(EntryEncodings(d, keys)) + tail
         == StringEncoding(keys[0]) + (Encode(d[keys[0]]) + (Concat(EntryEncodings(d, keys[1..])) + tail))
  {
    var key := StringEncoding(keys[0]);
    var value := Encode(d[keys[0]]);
    var parts := EntryEncodings(d, keys[1..]);
    assert EntryEncodings(d, keys) == [key + value] + parts;
    ConcatCons(key + value, parts);
    AppendAssociative(key + value, Concat(parts), tail);
    AppendAssociative(key, value, Concat(parts) + tail);
  }

  lemma {:induction false} ItemsRoundTrip(items: seq<Value>, rest: Bytes)
    requires forall i :: 0 <= i < |items| ==> WellFormed(items[i])
    ensures DecodeItems(Concat(ItemEncodings(items)) + ([END_TOKEN] + rest)) == Some((items, rest))
    decreases items, 0, |items|
  {
    if items == [] {
      assert Concat(ItemEncodings(items)) + ([END_TOKEN] + rest) == [END_TOKEN] + rest;
    } else {
      var tl := items[1..];
      var after := Concat(ItemEncodings(tl)) + ([END_TOKEN] + rest);
      var bs := Encode(items[0]) + after;
      ItemEncodingsCons(items, [END_TOKEN] + rest);
      EncodeFirstByte(items[0]);
      DecodeEncode(items[0], after);
      ItemsRoundTrip(tl, rest);
      DecodeItemsStep(bs, items[0], after, tl, rest);
      assert [items[0]] + tl == items;
    }
  }

  /** The part of `d` listed in `keys`. */
  function Restrict(d: map<Bytes, Value>, keys: seq<Bytes>): (r: map<Bytes, Value>)
    ensures forall k :: k in r <==> k in keys && k in d
  {
    map k | k in keys && k in d :: d[k]
  }

  lemma RestrictAll(d: map<Bytes, Value>)
    ensures Restrict(d, SortedKeys(d.Keys)) == d
  {
  }

  lemma RestrictCons(d: map<Bytes, Value>, keys: seq<Bytes>)
    requires keys != [] && keys[0] in d
    ensures Restrict(d, keys[1..])[keys[0] := d[keys[0]]] == Restrict(d, keys)
  {
    assert keys == [keys[0]] + keys[1..];
  }

  lemma HeadNotInTail(keys: seq<Bytes>)
    requires StrictlySorted(keys) && keys != []
    ensures keys[0] !in keys[1..]
  {
    if keys[0] in keys[1..] {
      var p :| 0 <= p < |keys| - 1 && keys[1..][p] == keys[0];
      assert LexLess(keys[0], keys[p + 1]);
      LexIrreflexive(keys[0]);
    }
  }

  lemma {:induction false} EntriesRoundTrip(d: map<Bytes, Value>, keys: seq<Bytes>, after: Option<Bytes>, rest: Bytes)
    requires forall i :: 0 <= i < |keys| ==> keys[i] in d && WellFormed(d[keys[i]])
    requires StrictlySorted(keys)
    requires after.Some? && keys != [] ==> LexLess(after.value, keys[0])
    ensures DecodeEntries(Concat(EntryEncodings(d, keys)) + ([END_TOKEN] + rest), after)
         == Some((Restrict(d, keys), rest))
    decreases Dictionary(d), 0, |keys|
  {
    if keys == [] {
      assert Concat(EntryEncodings(d, keys)) + ([END_TOKEN] + rest) == [END_TOKEN] + rest;
      assert Restrict(d, keys) == map[];
    } else {
      var k := keys[0];
      var tl := keys[1..];
      var afterValue := Concat(EntryEncodings(d, tl)) + ([END_TOKEN] + rest);
      var afterKey := Encode(d[k]) + afterValue;
      var bs := StringEncoding(k) + afterKey;
      EntryEncodingsCons(d, keys, [END_TOKEN] + rest);
      StringRoundTrip(k, afterKey);
      DecodeEncode(d[k], afterValue);
      EntriesRoundTrip(d, tl, Some(k), rest);
      DecodeEntriesStep(bs, after, k, afterKey, d[k], afterValue, Restrict(d, tl), rest);
      RestrictCons(d, keys);
    }
  }

  lemma DecodeListShape(body: Bytes, items: seq<Value>, rest: Bytes)
    requires DecodeItems(body) == Some((items, rest))
    ensures Decode([LIST_START_TOKEN] + body) == Some((List(items), rest))
  {
    assert ([LIST_START_TOKEN] + body)[1..] == body;
  }

  lemma DecodeDictionaryShape(body: Bytes, d: map<Bytes, Value>, rest: Bytes)
    requires DecodeEntries(body, None) == Some((d, rest))
    ensures Decode([DICTIONARY_START_TOKEN] + body) == Some((Dictionary(d), rest))
  {
    assert ([DICTIONARY_START_TOKEN] + body)[1..] == body;
  }

  lemma ListEncodingShape(items: seq<Value>, rest: Bytes)
    ensures Encode(List(items)) + rest
         == [LIST_START_TOKEN] + (Concat(ItemEncodings(items)) + ([END_TOKEN] + rest))
  {
  }

  lemma DictionaryEncodingShape(d: map<Bytes, Value>, rest: Bytes)
    ensures Encode(Dictionary(d)) + rest
         == [DICTIONARY_START_TOKEN] + (Concat(EntryEncodings(d, SortedKeys(d.Keys))) + ([END_TOKEN] + rest))
  {
  }

  lemma ListRoundTrip(items: seq<Value>, rest: Bytes)
    requires forall i :: 0 <= i < |items| ==> WellFormed(items[i])
    ensures Decode(Encode(List(items)) + rest) == Some((List(items), rest))
    decreases List(items), 1, 0
  {
    ListEncodingShape(items, rest);
    ItemsRoundTrip(items, rest);
    DecodeListShape(Concat(ItemEncodings(items)) + ([END_TOKEN] + rest), items, rest);
  }

  lemma DictionaryRoundTrip(d: map<Bytes, Value>, rest: Bytes)
    requires forall k :: k in d ==> WellFormed(d[k])
    ensures Decode(Encode(Dictionary(d)) + rest) == Some((Dictionary(d), rest))
    decreases Dictionary(d), 1, 0
  {
    var keys := SortedKeys(d.Keys);
    DictionaryEncodingShape(d, rest);
    assert forall i :: 0 <= i < |keys| ==> keys[i] in d && WellFormed(d[keys[i]]);
    EntriesRoundTrip(d, keys, None, rest);
    RestrictAll(d);
    DecodeDictionaryShape(Concat(EntryEncodings(d, keys)) + ([END_TOKEN] + rest), d, rest);
  }

  /**
   * Round trip: reading back the encoding of a value without `End` markers
   * gives the value and leaves whatever followed it untouched.
   */
  lemma {:induction false} DecodeEncode(v: Value, rest: Bytes)
    requires WellFormed(v)
    ensures Decode(Encode(v) + rest) == Some((v, rest))
    decreases v, 2, 0
  {
    match v
    case Integer(n) => IntegerRoundTrip(n, rest);
    case String(s) => StringRoundTrip(s, rest);
    case List(items) => ListRoundTrip(items, rest);
    case Dictionary(d) => DictionaryRoundTrip(d, rest);
  }

  /** Values without `End` markers that encode alike are equal. */
  lemma EncodeInjective(v: Value, w: Value)
    requires WellFormed(v) && WellFormed(w)
    requires Encode(v) == Encode(w)
    ensures v == w
  {
    DecodeEncode(v, []);
    DecodeEncode(w, []);
  }
}
