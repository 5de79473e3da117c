/**
 * The bencode encoder of the client (section "bencoding" of BEP 3, the
 * BitTorrent Protocol Specification): integers as `i<decimal>e`, byte
 * strings as `<length>:<bytes>`, lists as `l<items>e`, dictionaries as
 * `d<key><value>...e` with keys in ascending byte order.
 *
 * `Encode` is the specification; `EncodeValue` and the methods under it
 * build the output step by step as the source does and are proved equal to it.
 */
module BencodeEncoder {
  import opened Numeric
  import opened BencodeOrder

  const INTEGER_START_TOKEN: byte := 0x69     // 'i'
  const LIST_START_TOKEN: byte := 0x6C        // 'l'
  const DICTIONARY_START_TOKEN: byte := 0x64  // 'd'
  const END_TOKEN: byte := 0x65               // 'e'
  const STRING_START_TOKEN: byte := 0x3A      // ':'
  const MINUS_SIGN: byte := 0x2D              // '-'

  /** A decoded bencode value; `End` is the decoder's end marker. */
  datatype Value =
    | Integer(n: i64)
    | String(s: Bytes)
    | List(items: seq<Value>)
    | Dictionary(entries: map<Bytes, Value>)
    | End

  /** The pieces of a sequence of byte strings, one after the other. */
  function Concat(parts: seq<Bytes>): Bytes
  {
    if parts == [] then [] else Concat(parts[..|parts| - 1]) + parts[|parts| - 1]
  }

  lemma {:induction false} ConcatAppend(parts: seq<Bytes>, more: seq<Bytes>)
    ensures Concat(parts + more) == Concat(parts) + Concat(more)
    decreases |more|
  {
    if more != [] {
      var n := |more| - 1;
      assert (parts + more)[..|parts + more| - 1] == parts + more[..n];
      ConcatAppend(parts, more[..n]);
    } else {
      assert parts + more == parts;
    }
  }

  lemma ConcatCons(part: Bytes, parts: seq<Bytes>)
    ensures Concat([part] + parts) == part + Concat(parts)
  {
    ConcatAppend([part], parts);
    assert [part][..0] == [];
  }

  /** `integer.to_string()`: a minus sign for negative numbers, then the decimal digits. */
  function IntegerText(n: int): (text: Bytes)
    ensures |text| >= 1
  {
    if n < 0 then [MINUS_SIGN] + DecimalBytes(-n) else DecimalBytes(n)
  }

  function StringEncoding(s: Bytes): Bytes
  {
    DecimalBytes(|s|) + [STRING_START_TOKEN] + s
  }

  /** The bencoding of a value: the specification the methods below are proved against. */
  ghost function Encode(v: Value): Bytes
    decreases v, 1
  {
    match v
    case Integer(n) => [INTEGER_START_TOKEN] + IntegerText(n) + [END_TOKEN]
    case String(s) => StringEncoding(s)
    case List(items) => [LIST_START_TOKEN] + Concat(ItemEncodings(items)) + [END_TOKEN]
    case Dictionary(d) =>
      [DICTIONARY_START_TOKEN] + Concat(EntryEncodings(d, SortedKeys(d.Keys))) + [END_TOKEN]
    case End => []
  }

  /** The encodings of the items of a list, in order. */
  ghost function ItemEncodings(items: seq<Value>): (encs: seq<Bytes>)
    ensures |encs| == |items|
    decreases items, 0
  {
    seq(|items|, i requires 0 <= i < |items| => Encode(items[i]))
  }

  /** For each key in `keys`, the key as a byte string followed by its value. */
  ghost function EntryEncodings(d: map<Bytes, Value>, keys: seq<Bytes>): (encs: seq<Bytes>)
    requires forall i :: 0 <= i < |keys| ==> keys[i] in d
    ensures |encs| == |keys|
    decreases Dictionary(d), 0
  {
    seq(|keys|, i requires 0 <= i < |keys| => StringEncoding(keys[i]) + Encode(d[keys[i]]))
  }

  lemma ItemEncodingsPrefix(items: seq<Value>, i: nat)
    requires i < |items|
    ensures Concat(ItemEncodings(items[..i + 1])) == Concat(ItemEncodings(items[..i])) + Encode(items[i])
  {
    var full := ItemEncodings(items[..i + 1]);
    assert full[..i] == ItemEncodings(items[..i]);
    assert full[i] == Encode(items[i]);
  }

  lemma EntryEncodingsPrefix(d: map<Bytes, Value>, keys: seq<Bytes>, i: nat)
    requires forall j :: 0 <= j < |keys| ==> keys[j] in d
    requires i < |keys|
    ensures Concat(EntryEncodings(d, keys[..i + 1]))
         == Concat(EntryEncodings(d, keys[..i])) + StringEncoding(keys[i]) + Encode(d[keys[i]])
  {
    var full := EntryEncodings(d, keys[..i + 1]);
    assert full[..i] == EntryEncodings(d, keys[..i]);
    assert full[i] == StringEncoding(keys[i]) + Encode(d[keys[i]]);
  }

  /** Worked encodings of integers: 123 as "i123e", -123 as "i-123e", 0 as "i0e" (ASCII in hexadecimal). */
  lemma EncodeIntegerExamples()
    ensures Encode(Integer(123)) == [0x69, 0x31, 0x32, 0x33, 0x65]
    ensures Encode(Integer(-123)) == [0x69, 0x2D, 0x31, 0x32, 0x33, 0x65]
    ensures Encode(Integer(0)) == [0x69, 0x30, 0x65]
  {
    assert Digits(123) == [1, 2, 3];
    assert DecimalBytes(123) == [0x31, 0x32, 0x33];
    assert DecimalBytes(0) == [0x30];
  }

  /** Worked encodings of byte strings: "hola" as "4:hola", the empty string as "0:". */
  lemma EncodeStringExamples()
    ensures Encode(String([0x68, 0x6F, 0x6C, 0x61])) == [0x34, 0x3A, 0x68, 0x6F, 0x6C, 0x61]
    ensures Encode(String([])) == [0x30, 0x3A]
  {
    assert DecimalBytes(4) == [0x34];
    assert DecimalBytes(0) == [0x30];
  }

  /** The list [1, 2, 3] encodes as "li1ei2ei3ee". */
  lemma EncodeListExample()
    ensures Encode(List([Integer(1), Integer(2), Integer(3)]))
         == [0x6C, 0x69, 0x31, 0x65, 0x69, 0x32, 0x65, 0x69, 0x33, 0x65, 0x65]
  {
    var items := [Integer(1), Integer(2), Integer(3)];
    var one, two, three := Encode(Integer(1)), Encode(Integer(2)), Encode(Integer(3));
    DecimalBytesOfDigit(1);
    DecimalBytesOfDigit(2);
    DecimalBytesOfDigit(3);
    assert ItemEncodings(items) == [one] + ([two] + [three]);
    ConcatCons(one, [two] + [three]);
    ConcatCons(two, [three]);
    ConcatCons(three, []);
    assert Concat(ItemEncodings(items)) == [0x69, 0x31, 0x65] + ([0x69, 0x32, 0x65] + ([0x69, 0x33, 0x65] + []));
  }

  const COW: Bytes := [0x63, 0x6F, 0x77]
  const MOO: Bytes := [0x6D, 0x6F, 0x6F]
  const SPAM: Bytes := [0x73, 0x70, 0x61, 0x6D]
  const EGGS: Bytes := [0x65, 0x67, 0x67, 0x73]

  const EXAMPLE_DICTIONARY: map<Bytes, Value> := map[SPAM := String(EGGS), COW := String(MOO)]

  /** "cow" sorts before "spam", so it is written first. */
  lemma ExampleKeyOrder()
    ensures SortedKeys(EXAMPLE_DICTIONARY.Keys) == [COW, SPAM]
  {
    assert LexLess(COW, SPAM);
    assert EXAMPLE_DICTIONARY.Keys == {SPAM, COW};
    SortedKeysUnique([COW, SPAM], EXAMPLE_DICTIONARY.Keys);
  }

  lemma ExampleEntries()
    ensures Concat(EntryEncodings(EXAMPLE_DICTIONARY, [COW, SPAM]))
         == StringEncoding(COW) + StringEncoding(MOO) + (StringEncoding(SPAM) + StringEncoding(EGGS))
  {
    var first := StringEncoding(COW) + StringEncoding(MOO);
    var second := StringEncoding(SPAM) + StringEncoding(EGGS);
    assert EntryEncodings(EXAMPLE_DICTIONARY, [COW, SPAM]) == [first] + [second];
    ConcatCons(first, [second]);
    ConcatCons(second, []);
  }

  /**
   * The dictionary {"spam": "eggs", "cow": "moo"} encodes as
   * "d3:cow3:moo4:spam4:eggse": the entry for "cow" comes first.
   */
  lemma EncodeDictionaryExample()
    ensures Encode(Dictionary(EXAMPLE_DICTIONARY))
         == [DICTIONARY_START_TOKEN] + (StringEncoding(COW) + StringEncoding(MOO)
            + (StringEncoding(SPAM) + StringEncoding(EGGS))) + [END_TOKEN]
  {
    ExampleKeyOrder();
    ExampleEntries();
  }

  /** `encode`: dispatch on the kind of value; `End` gives no bytes. */
  method EncodeValue(value: Value) returns (bytes: Bytes)
    ensures bytes == Encode(value)
    decreases value, 2
  {
    match value
    case Integer(n) => bytes := EncodeInteger(n);
    case String(s) => bytes := EncodeString(s);
    case List(items) => bytes := EncodeList(items);
    case Dictionary(d) => bytes := EncodeDictionary(d);
    case End => bytes := [];
  }

  /** `encode_integer`: 'i', the decimal text of the integer, 'e'. */
  method EncodeInteger(integer: i64) returns (bytes: Bytes)
    ensures bytes == [INTEGER_START_TOKEN] + IntegerText(integer) + [END_TOKEN]
  {
    bytes := [INTEGER_START_TOKEN];
    bytes := bytes + IntegerText(integer);
    bytes := bytes + [END_TOKEN];
  }

  /** `encode_string`: the decimal length, ':', then the bytes themselves. */
  method EncodeString(str: Bytes) returns (bytes: Bytes)
    ensures bytes == DecimalBytes(|str|) + [STRING_START_TOKEN] + str
  {
    bytes := [];
    bytes := bytes + DecimalBytes(|str|);
    bytes := bytes + [STRING_START_TOKEN];
    bytes := bytes + str;
  }

  /** `encode_list`: 'l', each item's encoding in order, 'e'. */
  method EncodeList(list: seq<Value>) returns (bytes: Bytes)
    ensures bytes == [LIST_START_TOKEN] + Concat(ItemEncodings(list)) + [END_TOKEN]
    decreases list, 1
  {
    bytes := [];
    for i := 0 to |list|
      invariant bytes == Concat(ItemEncodings(list[..i]))
    {
      var item := EncodeValue(list[i]);
      ItemEncodingsPrefix(list, i);
      bytes := bytes + item;
    }
    assert list[..|list|] == list;
    bytes := [LIST_START_TOKEN] + bytes + [END_TOKEN];
  }

  /**
   * `encode_dictionary`: collect the entries and sort them by key, then write
   * each key as a byte string followed by its value, between 'd' and 'e'.
   */
  method EncodeDictionary(dictionary: map<Bytes, Value>) returns (bytes: Bytes)
    ensures bytes == [DICTIONARY_START_TOKEN]
                     + Concat(EntryEncodings(dictionary, SortedKeys(dictionary.Keys)))
                     + [END_TOKEN]
    decreases Dictionary(dictionary), 1
  {
    bytes := [DICTIONARY_START_TOKEN];
    var keys := SortedItems(dictionary);
    var entries := EncodeEntries(dictionary, keys);
    bytes := bytes + entries;
    bytes := bytes + [END_TOKEN];
  }

  /** The loop of `encode_dictionary`: for each key, the key as a byte string, then its value. */
  method EncodeEntries(dictionary: map<Bytes, Value>, keys: seq<Bytes>) returns (bytes: Bytes)
    requires forall i :: 0 <= i < |keys| ==> keys[i] in dictionary
    ensures bytes == Concat(EntryEncodings(dictionary, keys))
    decreases Dictionary(dictionary), 0
  {
    bytes := [];
    for i := 0 to |keys|
      invariant bytes == Concat(EntryEncodings(dictionary, keys[..i]))
    {
      var key := EncodeString(keys[i]);
      var value := EncodeValue(dictionary[keys[i]]);
      EntryEncodingsPrefix(dictionary, keys, i);
      bytes := bytes + key + value;
    }
    assert keys[..|keys|] == keys;
  }

  /**
   * `dictionary.iter().collect()` followed by `items.sort_by_key`: the keys
   * come out in the one strictly ascending order, whatever order the map
   * yielded them in.
   */
  method SortedItems(dictionary: map<Bytes, Value>) returns (keys: seq<Bytes>)
    ensures keys == SortedKeys(dictionary.Keys)
  {
    var collected := CollectKeys(dictionary);
    var items := new Bytes[|collected|](i => if 0 <= i < |collected| then collected[i] else []);
    assert items[..] == collected;
    SortKeys(items);
    keys := items[..];
    DistinctPermutation(keys, collected);
    SortedDistinctIsStrict(keys);
    forall k
      ensures k in keys <==> k in dictionary
    {
      assert k in keys <==> k in multiset(keys);
      assert k in collected <==> k in multiset(collected);
    }
    SortedKeysUnique(keys, dictionary.Keys);
  }

  /** Every key once, in an order the map chooses. */
  method CollectKeys(dictionary: map<Bytes, Value>) returns (keys: seq<Bytes>)
    ensures Distinct(keys)
    ensures forall k :: k in keys <==> k in dictionary
  {
    keys := [];
    var rest := dictionary.Keys;
    while rest != {}
      invariant Distinct(keys)
      invariant forall k :: k in keys ==> k in dictionary && k !in rest
      invariant forall k :: k in dictionary ==> k in keys || k in rest
      invariant rest <= dictionary.Keys
      decreases rest
    {
      var k :| k in rest;
      keys := keys + [k];
      rest := rest - {k};
    }
  }

  /** Sorting the collected keys in place (an insertion sort). */
  method SortKeys(a: array<Bytes>)
    modifies a
    ensures Sorted(a[..])
    ensures multiset(a[..]) == multiset(old(a[..]))
  {
    for i := 0 to a.Length
      invariant Sorted(a[..i])
      invariant multiset(a[..]) == multiset(old(a[..]))
    {
      InsertKey(a, i);
    }
    assert a[..a.Length] == a[..];
  }

  /** Moves `a[i]` left past every key after it, so that `a[..i + 1]` is sorted. */
  method InsertKey(a: array<Bytes>, i: nat)
    requires i < a.Length
    requires Sorted(a[..i])
    modifies a
    ensures Sorted(a[..i + 1])
    ensures multiset(a[..i + 1]) == multiset(old(a[..i + 1]))
    ensures a[i + 1..] == old(a[i + 1..])
    ensures multiset(a[..]) == multiset(old(a[..]))
  {
    var j: nat := i;
    InsertingStart(a[..], i);
    while j > 0 && LexLess(a[j], a[j - 1])
      invariant Inserting(a[..], i, j)
      invariant a[i + 1..] == old(a[i + 1..])
      invariant multiset(a[..]) == multiset(old(a[..]))
    {
      InsertingStep(a[..], i, j);
      SwapAdjacent(a, j);
      j := j - 1;
    }
    InsertedSorted(a[..], i, j);
    PrefixMultiset(a[..], old(a[..]), i + 1);
  }

  /**
   * The insertion loop's state: `s[j]` is the key being moved, it sorts
   * before every key between it and `i`, and the other keys of `s[..i + 1]`
   * are in order.
   */
  predicate Inserting(s: seq<Bytes>, i: nat, j: nat)
  {
    && j <= i < |s|
    && (forall p, q :: 0 <= p < q <= i && p != j && q != j ==> !LexLess(s[q], s[p]))
    && (forall q :: j < q <= i ==> LexLess(s[j], s[q]))
  }

  /** Before the first exchange: a sorted prefix followed by the key to insert. */
  lemma InsertingStart(s: seq<Bytes>, i: nat)
    requires i < |s| && Sorted(s[..i])
    ensures Inserting(s, i, i)
  {
    forall p, q | 0 <= p < q <= i && p != i && q != i
      ensures !LexLess(s[q], s[p])
    {
      assert s[..i][p] == s[p] && s[..i][q] == s[q];
    }
  }

  /** Exchanging the moving key with a greater left neighbour moves it one place left. */
  lemma InsertingStep(s: seq<Bytes>, i: nat, j: nat)
    requires Inserting(s, i, j) && j > 0 && LexLess(s[j], s[j - 1])
    ensures Inserting(s[j - 1 := s[j]][j := s[j - 1]], i, j - 1)
  {
  }

  method SwapAdjacent(a: array<Bytes>, j: nat)
    requires 0 < j < a.Length
    modifies a
    ensures a[..] == old(a[..])[j - 1 := old(a[j])][j := old(a[j - 1])]
    ensures multiset(a[..]) == multiset(old(a[..]))
  {
    a[j - 1], a[j] := a[j], a[j - 1];
  }

  /** Two sequences with the same multiset and the same suffix from `n` on have prefixes with the same multiset. */
  lemma PrefixMultiset(s: seq<Bytes>, t: seq<Bytes>, n: nat)
    requires n <= |s| && n <= |t|
    requires multiset(s) == multiset(t) && s[n..] == t[n..]
    ensures multiset(s[..n]) == multiset(t[..n])
  {
    assert s == s[..n] + s[n..];
    assert t == t[..n] + t[n..];
    assert multiset(s) == multiset(s[..n]) + multiset(s[n..]);
    assert multiset(t) == multiset(t[..n]) + multiset(t[n..]);
    assert multiset(s[..n]) == multiset(s) - multiset(s[n..]);
    assert multiset(t[..n]) == multiset(t) - multiset(t[n..]);
  }

  /** The state the insertion loop stops in is a sorted prefix. */
  lemma InsertedSorted(s: seq<Bytes>, i: nat, j: nat)
    requires Inserting(s, i, j)
    requires j > 0 ==> !LexLess(s[j], s[j - 1])
    ensures Sorted(s[..i + 1])
  {
    forall p, q | 0 <= p < q <= i
      ensures !LexLess(s[q], s[p])
    {
      if q == j {
        if p < j - 1 {
          LexNotLessTransitive(s[p], s[j - 1], s[j]);
        }
      } else if p == j {
        LexAsymmetric(s[p], s[q]);
      }
    }
  }
}
