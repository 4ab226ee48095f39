/** Properties of the form-data converter: key rewriting, the piece structure of a body, and round trips. */
module FormDataLemmas {
  import opened Wrappers
  import opened Percent
  import opened Splitting
  import opened FormData
  import Proto

  /** Keys free of the two delimiters the format relies on. */
  predicate PlainKeys(es: seq<Entry>)
  {
    forall i | 0 <= i < |es| :: '&' !in es[i].0 && '=' !in es[i].0
  }

  /** Rewriting keys with an index keeps distinct keys distinct. */
  lemma IndexedKeyInjective(index: Option<int>, a: string, b: string)
    requires IndexedKey(index, a) == IndexedKey(index, b)
    ensures a == b
  {
    if index.Some? {
      var ka, kb := IndexedKey(index, a), IndexedKey(index, b);
      var suffix := "}[" + IntToString(index.value) + "]";
      assert ka == "{" + a + suffix && kb == "{" + b + suffix;
      assert |a| == |b|;
      assert a == ka[1..1 + |a|];
      assert b == kb[1..1 + |b|];
    }
  }

  /** The number a string of decimal digits denotes, most significant digit first. */
  function DecimalValue(s: string): nat
    requires forall k | 0 <= k < |s| :: IsDigit(s[k])
    decreases |s|
  {
    if s == [] then 0
    else
      assert IsDigit(s[|s| - 1]);
      10 * DecimalValue(s[..|s| - 1]) + (s[|s| - 1] as int - '0' as int)
  }

  /** The index is written in decimal: reading the digits back gives the number. */
  lemma {:induction false} NatToStringValue(n: nat)
    ensures DecimalValue(NatToString(n)) == n
    decreases n
  {
    var s := NatToString(n);
    if n >= 10 {
      NatToStringValue(n / 10);
      assert s[..|s| - 1] == NatToString(n / 10);
    } else {
      assert s[..|s| - 1] == [];
    }
  }

  /** Distinct naturals are written as distinct decimal strings. */
  lemma {:induction false} NatToStringInjective(a: nat, b: nat)
    requires NatToString(a) == NatToString(b)
    ensures a == b
    decreases a
  {
    assert |NatToString(a)| == 1 <==> a < 10;
    assert |NatToString(b)| == 1 <==> b < 10;
    if a < 10 {
      assert NatToString(a)[0] == NatToString(b)[0];
    } else {
      var sa, sb := NatToString(a / 10), NatToString(b / 10);
      var s := NatToString(a);
      assert s == sa + [('0' as int + a % 10) as char];
      assert s == sb + [('0' as int + b % 10) as char];
      assert sa == s[..|s| - 1] == sb;
      assert s[|s| - 1] == ('0' as int + a % 10) as char == ('0' as int + b % 10) as char;
      NatToStringInjective(a / 10, b / 10);
    }
  }

  /** `Integer.toString` is injective: distinct indices are written differently. */
  lemma IntToStringInjective(a: int, b: int)
    requires IntToString(a) == IntToString(b)
    ensures a == b
  {
    var s := IntToString(a);
    assert (s[0] == '-') <==> a < 0;
    assert (s[0] == '-') <==> b < 0;
    if a < 0 {
      assert NatToString(-a) == s[1..] == NatToString(-b);
      NatToStringInjective(-a, -b);
    } else {
      NatToStringInjective(a, b);
    }
  }

  /**
   * Keys rewritten for two indices coincide only when both the indices and
   * the keys do: the `[index]` suffix tells the items of a batch apart.
   */
  lemma IndexedKeyInjectiveAcross(i: int, j: int, a: string, b: string)
    requires IndexedKey(Some(i), a) == IndexedKey(Some(j), b)
    ensures i == j && a == b
  {
    var ti, tj := IntToString(i), IntToString(j);
    var s := IndexedKey(Some(i), a);
    assert s == "{" + a + "}[" + ti + "]";
    assert s == "{" + b + "}[" + tj + "]";
    assert s[|s| - 2 - |ti|] == '[' && s[|s| - 2 - |tj|] == '[';
    forall k | |s| - 1 - |ti| <= k < |s| - 1
      ensures s[k] != '['
    {
      assert s[k] == ti[k - (|s| - 1 - |ti|)];
    }
    forall k | |s| - 1 - |tj| <= k < |s| - 1
      ensures s[k] != '['
    {
      assert s[k] == tj[k - (|s| - 1 - |tj|)];
    }
    assert |ti| == |tj|;
    assert ti == s[|s| - 1 - |ti|..|s| - 1] == tj;
    IntToStringInjective(i, j);
    assert a == s[1..1 + |a|] == b;
  }

  /** An index rewrite adds only braces, brackets, digits and `-`: no `&` and no `=`. */
  lemma IndexedKeyPlain(index: Option<int>, key: string)
    ensures '&' !in key ==> '&' !in IndexedKey(index, key)
    ensures '=' !in key ==> '=' !in IndexedKey(index, key)
  {
    if index.Some? {
      var digits := IntToString(index.value);
      assert '&' !in digits && '=' !in digits;
      assert IndexedKey(index, key) == "{" + key + "}[" + digits + "]";
    }
  }

  /** Without an index every output key is the input key; with one, `{key}[index]`. */
  lemma IndexedKeys(index: Option<int>, es: seq<Entry>, i: nat)
    requires i < |es|
    ensures index.None? ==> Rekey(index, es)[i].0 == es[i].0
    ensures index.Some? ==> Rekey(index, es)[i].0 == "{" + es[i].0 + "}[" + IntToString(index.value) + "]"
    ensures Rekey(index, es)[i].1 == es[i].1
  {
  }

  lemma RekeyNone(es: seq<Entry>)
    ensures Rekey(None, es) == es
  {
  }

  lemma RekeyKeepsDistinct(index: Option<int>, es: seq<Entry>)
    requires DistinctKeys(Keys(es))
    ensures DistinctKeys(Keys(Rekey(index, es)))
  {
    var keyed := Rekey(index, es);
    forall i, j | 0 <= i < j < |keyed|
      ensures Keys(keyed)[i] != Keys(keyed)[j]
    {
      assert Keys(es)[i] != Keys(es)[j];
      assert keyed[i].0 == IndexedKey(index, es[i].0) && keyed[j].0 == IndexedKey(index, es[j].0);
      if keyed[i].0 == keyed[j].0 {
        IndexedKeyInjective(index, es[i].0, es[j].0);
      }
    }
  }

  lemma RekeyKeepsPlain(index: Option<int>, es: seq<Entry>)
    requires PlainKeys(es)
    ensures PlainKeys(Rekey(index, es))
  {
    forall i | 0 <= i < |es|
      ensures '&' !in Rekey(index, es)[i].0 && '=' !in Rekey(index, es)[i].0
    {
      IndexedKeyPlain(index, es[i].0);
    }
  }

  /** Dropping the last entry keeps the keys distinct. */
  lemma DistinctKeysInit(es: seq<Entry>)
    requires es != [] && DistinctKeys(Keys(es))
    ensures DistinctKeys(Keys(es[..|es| - 1]))
  {
    var init := es[..|es| - 1];
    forall i, j | 0 <= i < j < |init| ensures Keys(init)[i] != Keys(init)[j] {
      assert Keys(es)[i] != Keys(es)[j];
    }
  }

  /** The map of the entries holds exactly their keys. */
  lemma {:induction false} ToMapKeys(es: seq<Entry>)
    ensures ToMap(es).Keys == set e | e in es :: e.0
    decreases |es|
  {
    if es != [] {
      var init, last := es[..|es| - 1], es[|es| - 1];
      ToMapKeys(init);
      assert es == init + [last];
      assert (set e | e in es :: e.0) == (set e | e in init :: e.0) + {last.0};
    }
  }

  /** With distinct keys, each entry's key maps to that entry's value. */
  lemma {:induction false} ToMapValues(es: seq<Entry>)
    requires DistinctKeys(Keys(es))
    ensures forall i | 0 <= i < |es| :: es[i].0 in ToMap(es) && ToMap(es)[es[i].0] == es[i].1
    decreases |es|
  {
    if es != [] {
      var init := es[..|es| - 1];
      DistinctKeysInit(es);
      ToMapValues(init);
      forall i | 0 <= i < |es| - 1
        ensures es[i].0 in ToMap(es) && ToMap(es)[es[i].0] == es[i].1
      {
        assert Keys(es)[i] != Keys(es)[|es| - 1];
        assert init[i] == es[i];
      }
    }
  }

  /** With distinct keys, the map of the entries holds exactly their keys, each to its value. */
  lemma ToMapSpec(es: seq<Entry>)
    requires DistinctKeys(Keys(es))
    ensures ToMap(es).Keys == set e | e in es :: e.0
    ensures forall e | e in es :: ToMap(es)[e.0] == e.1
  {
    ToMapKeys(es);
    ToMapValues(es);
    forall e | e in es
      ensures ToMap(es)[e.0] == e.1
    {
      var i :| 0 <= i < |es| && es[i] == e;
    }
  }

  /** A piece `key=encoded` splits at `=` into its key and its encoded value. */
  lemma PieceSplits(e: Entry)
    requires '=' !in e.0
    ensures Split(Piece(e), '=') == [e.0, Encode(e.1)]
    ensures WellFormedEntry(Piece(e)) && KeyOf(Piece(e)) == e.0 && ValueOf(Piece(e)) == Encode(e.1)
  {
    var enc := Encode(e.1);
    assert '=' !in enc;
    assert Piece(e) == e.0 + ['='] + enc;
    SplitAround(e.0, enc, '=');
    SplitWithout(e.0, '=');
    SplitWithout(enc, '=');
  }

  /** A piece is never empty and holds `&` only if its key does. */
  lemma PieceShape(e: Entry)
    ensures Piece(e) != ""
    ensures '&' !in e.0 ==> '&' !in Piece(e)
  {
    var enc := Encode(e.1);
    assert Piece(e)[|e.0|] == '=';
    assert '&' !in enc;
    assert Piece(e) == e.0 + "=" + enc;
  }

  /** The non-empty `&`-separated pieces of a join of pieces are those pieces. */
  lemma EntriesOfJoin(es: seq<Entry>)
    requires forall i | 0 <= i < |es| :: '&' !in es[i].0
    ensures Entries(Join('&', Pieces(es))) == Pieces(es)
  {
    var ps := Pieces(es);
    forall i | 0 <= i < |ps|
      ensures ps[i] != "" && '&' !in ps[i]
    {
      PieceShape(es[i]);
    }
    if ps == [] {
      assert Join('&', ps) == "";
    } else {
      SplitJoin(ps, '&');
      OmitEmptyKeeps(ps);
    }
  }

  /**
   * The serialised output holds exactly one `key=value` piece per entry, and
   * nothing else, whatever the order: the set of its pieces is the set of
   * the entries' pieces (keys rewritten, values encoded) and there are as
   * many pieces as entries.
   */
  lemma SerializedPieces(index: Option<int>, es: seq<Entry>)
    requires forall i | 0 <= i < |es| :: '&' !in es[i].0
    requires SerializeEntries(index, es).Ok?
    ensures
      var out := SerializeEntries(index, es).value;
      && |Entries(out)| == |es|
      && (set p | p in Entries(out)) == (set e | e in es :: IndexedKey(index, e.0) + "=" + Encode(e.1))
  {
    var keyed := Rekey(index, es);
    forall i | 0 <= i < |keyed|
      ensures '&' !in keyed[i].0
    {
      IndexedKeyPlain(index, es[i].0);
    }
    EntriesOfJoin(keyed);
    assert SerializeEntries(index, es).value == Join('&', Pieces(keyed));
    RekeyedPieces(index, es);
  }

  /** The pieces of the rekeyed entries, as a set, are the entries' pieces with rewritten keys. */
  lemma RekeyedPieces(index: Option<int>, es: seq<Entry>)
    ensures (set p | p in Pieces(Rekey(index, es))) == (set e | e in es :: IndexedKey(index, e.0) + "=" + Encode(e.1))
  {
    var ps := Pieces(Rekey(index, es));
    var lhs := set p | p in ps;
    var rhs := set e | e in es :: IndexedKey(index, e.0) + "=" + Encode(e.1);
    forall p | p in lhs ensures p in rhs {
      var i :| 0 <= i < |ps| && ps[i] == p;
      PieceOfRekeyed(index, es, i);
      assert es[i] in es;
    }
    forall p | p in rhs ensures p in lhs {
      var e :| e in es && p == IndexedKey(index, e.0) + "=" + Encode(e.1);
      var i :| 0 <= i < |es| && es[i] == e;
      PieceOfRekeyed(index, es, i);
      assert ps[i] in ps;
    }
  }

  lemma PieceOfRekeyed(index: Option<int>, es: seq<Entry>, i: nat)
    requires i < |es|
    ensures Pieces(Rekey(index, es))[i] == IndexedKey(index, es[i].0) + "=" + Encode(es[i].1)
  {
    assert Rekey(index, es)[i] == (IndexedKey(index, es[i].0), es[i].1);
  }

  /** A first key collected before distinct keys none of which was collected keeps them all distinct. */
  lemma DistinctKeysCons(entries: seq<string>, acc: map<string, string>)
    requires entries != [] && KeyOf(entries[0]) in acc
    requires DistinctKeys(KeysOf(entries[1..]))
    requires forall i | 0 <= i < |entries[1..]| :: KeyOf(entries[1..][i]) !in acc
    ensures DistinctKeys(KeysOf(entries))
  {
    var rest := entries[1..];
    forall i, j | 0 <= i < j < |entries|
      ensures KeysOf(entries)[i] != KeysOf(entries)[j]
    {
      if i > 0 {
        assert KeysOf(rest)[i - 1] != KeysOf(rest)[j - 1];
      } else {
        assert KeyOf(rest[j - 1]) !in acc;
      }
    }
  }

  /** Distinct keys stay distinct without the first entry, and none of the others is the first key. */
  lemma DistinctKeysTail(entries: seq<string>)
    requires entries != [] && DistinctKeys(KeysOf(entries))
    ensures DistinctKeys(KeysOf(entries[1..]))
    ensures forall i | 0 <= i < |entries[1..]| :: KeyOf(entries[1..][i]) != KeyOf(entries[0])
  {
    var rest := entries[1..];
    forall i, j | 0 <= i < j < |rest|
      ensures KeysOf(rest)[i] != KeysOf(rest)[j]
    {
      assert KeysOf(entries)[i + 1] != KeysOf(entries)[j + 1];
    }
    forall i | 0 <= i < |rest|
      ensures KeyOf(rest[i]) != KeyOf(entries[0])
    {
      assert KeysOf(entries)[0] != KeysOf(entries)[i + 1];
    }
  }

  /**
   * Guava's map splitter accepts the entries exactly when every entry has
   * one `=`, no two entries share a key and no key was collected before.
   */
  lemma {:induction false} CollectPairsSucceedsIff(entries: seq<string>, acc: map<string, string>)
    ensures CollectPairs(entries, acc).Ok? <==>
              && (forall i | 0 <= i < |entries| :: WellFormedEntry(entries[i]))
              && DistinctKeys(KeysOf(entries))
              && (forall i | 0 <= i < |entries| :: KeyOf(entries[i]) !in acc)
    decreases |entries|
  {
    if entries != [] {
      var e0, rest := entries[0], entries[1..];
      var k0 := KeyOf(e0);
      if k0 !in acc && WellFormedEntry(e0) {
        var acc' := acc[k0 := ValueOf(e0)];
        CollectPairsSucceedsIff(rest, acc');
        if CollectPairs(rest, acc').Ok? {
          DistinctKeysCons(entries, acc');
        } else if DistinctKeys(KeysOf(entries)) && (forall i | 0 <= i < |entries| :: WellFormedEntry(entries[i])) {
          DistinctKeysTail(entries);
        }
      } else if k0 in acc {
        assert KeyOf(entries[0]) in acc;
      } else {
        assert !WellFormedEntry(entries[0]);
      }
    }
  }

  /**
   * The map the splitter yields holds the pairs collected before and each
   * entry's key with its (still encoded) value, and nothing else.
   */
  lemma {:induction false} CollectPairsResult(entries: seq<string>, acc: map<string, string>)
    requires CollectPairs(entries, acc).Ok?
    ensures forall e | e in entries :: WellFormedEntry(e)
    ensures
      var m := CollectPairs(entries, acc).value;
      && m.Keys == acc.Keys + (set e | e in entries :: KeyOf(e))
      && (forall k | k in acc :: m[k] == acc[k])
      && (forall e | e in entries :: m[KeyOf(e)] == ValueOf(e))
    decreases |entries|
  {
    if entries != [] {
      var e0, rest := entries[0], entries[1..];
      var k0 := KeyOf(e0);
      var acc' := acc[k0 := ValueOf(e0)];
      CollectPairsResult(rest, acc');
      var m := CollectPairs(entries, acc).value;
      assert m == CollectPairs(rest, acc').value;
      assert entries == [e0] + rest;
      assert (set e | e in entries :: KeyOf(e)) == {k0} + (set e | e in rest :: KeyOf(e));
      forall e | e in entries
        ensures m[KeyOf(e)] == ValueOf(e)
      {
        if e != e0 {
          assert e in rest;
        }
      }
    }
  }

  /** Percent-decoding a map of encoded values gives back the values. */
  lemma DecodeEncodedValues(m: map<string, string>, original: map<string, string>)
    requires m.Keys == original.Keys
    requires forall k | k in original :: IsOctets(original[k]) && m[k] == Encode(original[k])
    ensures DecodeValues(m) == Ok(original)
  {
    forall k | k in m
      ensures Decode(m[k]) == Ok(original[k])
    {
      DecodeEncode(original[k]);
    }
    var d := map k | k in m :: Decode(m[k]).value;
    assert d.Keys == original.Keys;
    assert d == original;
  }

  /** Each piece of a plain entry is well formed and carries the entry's key. */
  lemma PiecesSplit(es: seq<Entry>)
    requires PlainKeys(es)
    ensures forall i | 0 <= i < |es| ::
              WellFormedEntry(Pieces(es)[i]) && ValueOf(Pieces(es)[i]) == Encode(es[i].1)
    ensures KeysOf(Pieces(es)) == Keys(es)
  {
    forall i | 0 <= i < |es|
      ensures WellFormedEntry(Pieces(es)[i]) && KeyOf(Pieces(es)[i]) == es[i].0
      ensures ValueOf(Pieces(es)[i]) == Encode(es[i].1)
    {
      PieceSplits(es[i]);
    }
  }

  /** The keys of the pieces are the keys of the entries. */
  lemma PieceKeys(es: seq<Entry>)
    requires PlainKeys(es)
    ensures (set p | p in Pieces(es) :: KeyOf(p)) == (set e | e in es :: e.0)
  {
    var ps := Pieces(es);
    PiecesSplit(es);
    var a := set p | p in ps :: KeyOf(p);
    var b := set e | e in es :: e.0;
    forall k | k in a
      ensures k in b
    {
      var i :| 0 <= i < |ps| && KeyOf(ps[i]) == k;
      assert KeysOf(ps)[i] == Keys(es)[i];
      assert es[i] in es;
    }
    forall k | k in b
      ensures k in a
    {
      var i :| 0 <= i < |es| && es[i].0 == k;
      assert KeysOf(ps)[i] == Keys(es)[i];
      assert ps[i] in ps;
    }
  }

  /** The pieces of distinct plain entries pass the map splitter. */
  lemma CollectPiecesSucceeds(es: seq<Entry>)
    requires PlainKeys(es)
    requires DistinctKeys(Keys(es))
    ensures CollectPairs(Pieces(es), map[]).Ok?
  {
    PiecesSplit(es);
    CollectPairsSucceedsIff(Pieces(es), map[]);
  }

  /** Collecting the pieces of distinct plain entries yields their map with every value encoded. */
  lemma CollectPieces(es: seq<Entry>)
    requires PlainKeys(es)
    requires DistinctKeys(Keys(es))
    ensures CollectPairs(Pieces(es), map[]).Ok?
    ensures
      var m, t := CollectPairs(Pieces(es), map[]).value, ToMap(es);
      && m.Keys == t.Keys
      && forall k | k in t :: IsOctets(t[k]) && m[k] == Encode(t[k])
  {
    var ps := Pieces(es);
    CollectPiecesSucceeds(es);
    CollectPairsResult(ps, map[]);
    var m := CollectPairs(ps, map[]).value;
    ToMapSpec(es);
    var t := ToMap(es);
    PieceKeys(es);
    assert m.Keys == t.Keys;
    forall k | k in t
      ensures IsOctets(t[k]) && m[k] == Encode(t[k])
    {
      var i :| 0 <= i < |es| && es[i].0 == k;
      assert es[i] in es && ps[i] in ps;
      PieceSplits(es[i]);
    }
  }

  /**
   * Round trip of the flat stage: for distinct keys without `&` or `=`,
   * splitting and decoding the serialised string gives back the entries' map,
   * under the keys written for `index`.
   */
  lemma RoundTripFlat(index: Option<int>, es: seq<Entry>)
    requires PlainKeys(es)
    requires DistinctKeys(Keys(es))
    ensures SerializeEntries(index, es).Ok?
    ensures ParseFlat(SerializeEntries(index, es).value) == Ok(ToMap(Rekey(index, es)))
  {
    var keyed := Rekey(index, es);
    RekeyKeepsDistinct(index, es);
    RekeyKeepsPlain(index, es);
    EntriesOfJoin(keyed);
    CollectPieces(keyed);
    DecodeEncodedValues(CollectPairs(Pieces(keyed), map[]).value, ToMap(keyed));
  }

  /**
   * Parsing what `serialize` wrote hands the JSON parser exactly the printed
   * map (keys as written for `index`); an empty map serialises to the empty
   * body, which parses to the builder's message without the JSON parser.
   */
  lemma ParseSerialized(index: Option<int>, printer: Printer, message: Proto.Message, jsonParse: JsonParser, builder: Proto.Message)
    requires printer(message).Some?
    requires PlainKeys(printer(message).value)
    requires DistinctKeys(Keys(printer(message).value))
    ensures Serialize(index, printer, message).Ok?
    ensures
      var es := printer(message).value;
      Parse(Some(Serialize(index, printer, message).value), jsonParse, builder) ==
        if es == [] then Ok(builder) else jsonParse(ToMap(Rekey(index, es)), builder)
  {
    var es := printer(message).value;
    RoundTripFlat(index, es);
    var out := SerializeEntries(index, es).value;
    if es != [] {
      PieceShape(Rekey(index, es)[0]);
      assert Pieces(Rekey(index, es))[0] != "";
      assert out != "";
    }
  }

  /**
   * `serialize` fails exactly when printing fails or the printed map has a
   * repeated key: rewriting the keys for an index never merges two keys.
   */
  lemma SerializeFailsIff(index: Option<int>, printer: Printer, message: Proto.Message)
    ensures Serialize(index, printer, message).Err? <==>
              printer(message).None? || !DistinctKeys(Keys(printer(message).value))
  {
    if printer(message).Some? {
      var es := printer(message).value;
      if DistinctKeys(Keys(es)) {
        RekeyKeepsDistinct(index, es);
      } else {
        var i, j :| 0 <= i < j < |es| && Keys(es)[i] == Keys(es)[j];
        assert Keys(Rekey(index, es))[i] == Keys(Rekey(index, es))[j];
      }
    }
  }

  /**
   * A value with a malformed escape fails the parse: with `MalformedEscape`
   * once the entries themselves were accepted.
   */
  lemma MalformedValueRejected(body: string, e: string)
    requires e in Entries(body) && WellFormedEntry(e)
    requires Decode(ValueOf(e)).Err?
    ensures ParseFlat(body).Err?
    ensures CollectPairs(Entries(body), map[]).Ok? ==> ParseFlat(body) == Err(MalformedEscape)
  {
    if CollectPairs(Entries(body), map[]).Ok? {
      CollectPairsResult(Entries(body), map[]);
      var m := CollectPairs(Entries(body), map[]).value;
      assert KeyOf(e) in m && m[KeyOf(e)] == ValueOf(e);
    }
  }

  /** An absent or empty body gives the builder's message, whatever the JSON parser would do. */
  lemma EmptyBodySkipsJson(body: Option<string>, p1: JsonParser, p2: JsonParser, builder: Proto.Message)
    requires body.None? || body.value == ""
    ensures Parse(body, p1, builder) == Parse(body, p2, builder) == Ok(builder)
  {
  }

  /** Empty pieces are ignored: `a&&b` parses as `a&b` does. */
  lemma EmptyPiecesIgnored(a: string, b: string)
    ensures Entries(a + "&&" + b) == Entries(a + "&" + b)
    ensures ParseFlat(a + "&&" + b) == ParseFlat(a + "&" + b)
  {
    assert a + "&&" + b == a + ['&'] + ("&" + b);
    assert "&" + b == [] + ['&'] + b;
    assert a + "&" + b == a + ['&'] + b;
    SplitAround(a, "&" + b, '&');
    SplitAround([], b, '&');
    SplitAround(a, b, '&');
    OmitEmptyAppend(Split(a, '&'), Split("&" + b, '&'));
    OmitEmptyAppend([""], Split(b, '&'));
    OmitEmptyAppend(Split(a, '&'), Split(b, '&'));
  }

  /** The entries of each item, in item order. */
  function EntriesOfEach(items: seq<string>): seq<string>
    decreases |items|
  {
    if items == [] then [] else Entries(items[0]) + EntriesOfEach(items[1..])
  }

  /**
   * A packed batch parses into the entries of its items, in order; an item
   * that serialised to the empty string contributes nothing.
   */
  lemma {:induction false} PackMultipleEntries(items: seq<string>)
    ensures Entries(PackMultiple(items)) == EntriesOfEach(items)
    decreases |items|
  {
    if items == [] {
      assert Entries("") == [];
    } else if |items| == 1 {
      assert EntriesOfEach(items) == Entries(items[0]) + EntriesOfEach([]);
    } else {
      SplitAround(items[0], PackMultiple(items[1..]), '&');
      OmitEmptyAppend(Split(items[0], '&'), Split(PackMultiple(items[1..]), '&'));
      PackMultipleEntries(items[1..]);
    }
  }

  /** `packMultiple` gives `""` for no items, and otherwise the items in order separated by single `&`. */
  lemma PackMultipleSplits(items: seq<string>)
    requires forall i | 0 <= i < |items| :: '&' !in items[i]
    ensures items == [] ==> PackMultiple(items) == ""
    ensures items != [] ==> Split(PackMultiple(items), '&') == items
  {
    if items != [] {
      SplitJoin(items, '&');
    }
  }

  // ------------------------------------------------------------- batches

  /** A batch: each item is an index and the printed entries of that item's message. */
  type Batch = seq<(int, seq<Entry>)>

  /** Every item of the batch has distinct keys free of `&` and `=`. */
  predicate PlainItems(batch: Batch)
  {
    forall k | 0 <= k < |batch| :: PlainKeys(batch[k].1) && DistinctKeys(Keys(batch[k].1))
  }

  /** No two items of the batch carry the same index. */
  predicate DistinctIndices(batch: Batch)
  {
    forall a, b | 0 <= a < b < |batch| :: batch[a].0 != batch[b].0
  }

  /** Each item serialised with its own index, in order; the first failure fails the batch. */
  function SerializeEach(batch: Batch): Result<seq<string>, FormError>
    decreases |batch|
  {
    if batch == [] then Ok([])
    else
      match SerializeEntries(Some(batch[0].0), batch[0].1)
      case Err(e) => Err(e)
      case Ok(item) =>
        match SerializeEach(batch[1..])
        case Err(e) => Err(e)
        case Ok(items) => Ok([item] + items)
  }

  /** Every item's entries under its rewritten keys, in item order. */
  function BatchEntries(batch: Batch): seq<Entry>
    decreases |batch|
  {
    if batch == [] then [] else Rekey(Some(batch[0].0), batch[0].1) + BatchEntries(batch[1..])
  }

  /** The union of the items' maps, each under the keys written for its index. */
  function BatchMap(batch: Batch): map<string, string>
    decreases |batch|
  {
    if batch == [] then map[] else ToMap(Rekey(Some(batch[0].0), batch[0].1)) + BatchMap(batch[1..])
  }

  /** The map of a concatenation is the map of the first part overridden by that of the second. */
  lemma {:induction false} ToMapAppend(a: seq<Entry>, b: seq<Entry>)
    ensures ToMap(a + b) == ToMap(a) + ToMap(b)
    decreases |b|
  {
    if b == [] {
      assert a + b == a;
    } else {
      var init, last := b[..|b| - 1], b[|b| - 1];
      ToMapAppend(a, init);
      assert (a + b)[..|a + b| - 1] == a + init;
      assert (a + b)[|a + b| - 1] == last;
    }
  }

  lemma {:induction false} BatchMapOfEntries(batch: Batch)
    ensures ToMap(BatchEntries(batch)) == BatchMap(batch)
    decreases |batch|
  {
    if batch != [] {
      BatchMapOfEntries(batch[1..]);
      ToMapAppend(Rekey(Some(batch[0].0), batch[0].1), BatchEntries(batch[1..]));
    }
  }

  /** An entry of the batch is an entry of some item with its key rewritten for that item's index. */
  lemma {:induction false} BatchEntryOrigin(batch: Batch, x: Entry) returns (k: nat, e: Entry)
    requires x in BatchEntries(batch)
    ensures k < |batch| && e in batch[k].1
    ensures x == (IndexedKey(Some(batch[k].0), e.0), e.1)
    decreases |batch|
  {
    var first := Rekey(Some(batch[0].0), batch[0].1);
    if x in first {
      var j :| 0 <= j < |first| && first[j] == x;
      k, e := 0, batch[0].1[j];
    } else {
      assert x in BatchEntries(batch[1..]);
      var k', e' := BatchEntryOrigin(batch[1..], x);
      k, e := k' + 1, e';
    }
  }

  /** Concatenating entries with distinct keys and no key in common keeps the keys distinct. */
  lemma DistinctKeysAppend(a: seq<Entry>, b: seq<Entry>)
    requires DistinctKeys(Keys(a)) && DistinctKeys(Keys(b))
    requires forall x, y | x in a && y in b :: x.0 != y.0
    ensures DistinctKeys(Keys(a + b))
  {
    var ab := a + b;
    forall i, j | 0 <= i < j < |ab|
      ensures Keys(ab)[i] != Keys(ab)[j]
    {
      if j < |a| {
        assert Keys(a)[i] != Keys(a)[j];
      } else if i >= |a| {
        assert Keys(b)[i - |a|] != Keys(b)[j - |a|];
      } else {
        assert ab[i] == a[i] && ab[j] == b[j - |a|];
        assert a[i] in a && b[j - |a|] in b;
      }
    }
  }

  /**
   * The rewritten entries of a batch with distinct indices have distinct
   * keys free of `&` and `=`: the `{key}[index]` suffix keeps the items apart.
   */
  lemma {:induction false} BatchKeys(batch: Batch)
    requires PlainItems(batch) && DistinctIndices(batch)
    ensures PlainKeys(BatchEntries(batch)) && DistinctKeys(Keys(BatchEntries(batch)))
    decreases |batch|
  {
    if batch != [] {
      var i0, first, rest := batch[0].0, Rekey(Some(batch[0].0), batch[0].1), batch[1..];
      assert PlainKeys(batch[0].1) && DistinctKeys(Keys(batch[0].1));
      RekeyKeepsPlain(Some(i0), batch[0].1);
      RekeyKeepsDistinct(Some(i0), batch[0].1);
      assert PlainItems(rest) by {
        forall k | 0 <= k < |rest| ensures PlainKeys(rest[k].1) && DistinctKeys(Keys(rest[k].1)) {
          assert rest[k] == batch[k + 1];
        }
      }
      assert DistinctIndices(rest) by {
        forall a, b | 0 <= a < b < |rest| ensures rest[a].0 != rest[b].0 {
          assert batch[a + 1].0 != batch[b + 1].0;
        }
      }
      BatchKeys(rest);
      forall x, y | x in first && y in BatchEntries(rest)
        ensures x.0 != y.0
      {
        var j :| 0 <= j < |first| && first[j] == x;
        var k, e := BatchEntryOrigin(rest, y);
        assert batch[0].0 != batch[k + 1].0;
        if x.0 == y.0 {
          IndexedKeyInjectiveAcross(i0, rest[k].0, batch[0].1[j].0, e.0);
        }
      }
      DistinctKeysAppend(first, BatchEntries(rest));
      var all := first + BatchEntries(rest);
      forall i | 0 <= i < |all| ensures '&' !in all[i].0 && '=' !in all[i].0 {
        if i >= |first| {
          assert all[i] == BatchEntries(rest)[i - |first|];
        }
      }
    }
  }

  /** One item serialises under its index, and the entries of its output are the pieces of its rewritten entries. */
  lemma ItemPieces(i: int, es: seq<Entry>)
    requires PlainKeys(es) && DistinctKeys(Keys(es))
    ensures SerializeEntries(Some(i), es) == Ok(Join('&', Pieces(Rekey(Some(i), es))))
    ensures Entries(SerializeEntries(Some(i), es).value) == Pieces(Rekey(Some(i), es))
  {
    RekeyKeepsDistinct(Some(i), es);
    RekeyKeepsPlain(Some(i), es);
    EntriesOfJoin(Rekey(Some(i), es));
  }

  /** Every item serialises, and the packed items' entries are the pieces of the batch's entries. */
  lemma {:induction false} BatchPieces(batch: Batch)
    requires PlainItems(batch)
    ensures SerializeEach(batch).Ok?
    ensures EntriesOfEach(SerializeEach(batch).value) == Pieces(BatchEntries(batch))
    decreases |batch|
  {
    if batch != [] {
      var first, rest := Rekey(Some(batch[0].0), batch[0].1), batch[1..];
      ItemPieces(batch[0].0, batch[0].1);
      assert PlainItems(rest) by {
        forall k | 0 <= k < |rest| ensures PlainKeys(rest[k].1) && DistinctKeys(Keys(rest[k].1)) {
          assert rest[k] == batch[k + 1];
        }
      }
      BatchPieces(rest);
      var items := SerializeEach(batch).value;
      assert items == [Join('&', Pieces(first))] + SerializeEach(rest).value;
      assert items[1..] == SerializeEach(rest).value;
      PiecesAppend(first, BatchEntries(rest));
    }
  }

  lemma PiecesAppend(a: seq<Entry>, b: seq<Entry>)
    ensures Pieces(a + b) == Pieces(a) + Pieces(b)
  {
    assert forall i | 0 <= i < |a + b| :: Pieces(a + b)[i] == (Pieces(a) + Pieces(b))[i];
  }

  /**
   * Round trip of a batch: items serialised with pairwise distinct indices
   * and packed with `&` remain one flat body, which parses to the union of
   * the items' maps under their rewritten keys.
   */
  lemma BatchRoundTrip(batch: Batch)
    requires PlainItems(batch) && DistinctIndices(batch)
    ensures SerializeEach(batch).Ok?
    ensures ParseFlat(PackMultiple(SerializeEach(batch).value)) == Ok(BatchMap(batch))
  {
    var all := BatchEntries(batch);
    BatchPieces(batch);
    PackMultipleEntries(SerializeEach(batch).value);
    BatchKeys(batch);
    CollectPieces(all);
    DecodeEncodedValues(CollectPairs(Pieces(all), map[]).value, ToMap(all));
    BatchMapOfEntries(batch);
  }

  /** The maps of two items with different indices have no key in common, so `BatchMap` is a union. */
  lemma BatchItemsDisjoint(i: int, es1: seq<Entry>, j: int, es2: seq<Entry>)
    requires i != j
    ensures ToMap(Rekey(Some(i), es1)).Keys !! ToMap(Rekey(Some(j), es2)).Keys
  {
    var r1, r2 := Rekey(Some(i), es1), Rekey(Some(j), es2);
    ToMapKeys(r1);
    ToMapKeys(r2);
    forall x, y | x in r1 && y in r2
      ensures x.0 != y.0
    {
      var a :| 0 <= a < |r1| && r1[a] == x;
      var b :| 0 <= b < |r2| && r2[b] == y;
      if x.0 == y.0 {
        IndexedKeyInjectiveAcross(i, j, es1[a].0, es2[b].0);
      }
    }
  }

  /** A body two of whose entries share a key is refused: keys are never accumulated into a list. */
  lemma DuplicateKeysRejected(body: string, i: nat, j: nat)
    requires i < j < |Entries(body)|
    requires KeyOf(Entries(body)[i]) == KeyOf(Entries(body)[j])
    ensures ParseFlat(body).Err?
  {
    var es := Entries(body);
    assert KeysOf(es)[i] == KeysOf(es)[j];
    CollectPairsSucceedsIff(es, map[]);
  }

  lemma EncodeExample()
    ensures Encode("a b") == "a+b" && Encode("7") == "7"
  {
    assert "a b"[1..] == " b" && " b"[1..] == "b" && "b"[1..] == "";
    assert "7"[1..] == "";
  }

  lemma ExamplePieces()
    ensures Pieces([("string_field", "a b"), ("int_field", "7")]) == ["string_field=a+b", "int_field=7"]
  {
    var es: seq<Entry> := [("string_field", "a b"), ("int_field", "7")];
    EncodeExample();
    assert Piece(es[0]) == "string_field" + "=" + "a+b" == "string_field=a+b";
    assert Piece(es[1]) == "int_field" + "=" + "7" == "int_field=7";
  }

  lemma ExampleJoin()
    ensures Join('&', ["string_field=a+b", "int_field=7"]) == "string_field=a+b&int_field=7"
  {
    var ps := ["string_field=a+b", "int_field=7"];
    assert ps[1..] == ["int_field=7"];
    assert Join('&', ps) == "string_field=a+b" + ['&'] + "int_field=7";
  }

  /**
   * `{string_field: "a b", int_field: 7}` serialises to the two pieces
   * `string_field=a+b` and `int_field=7`, in whichever order the map yields them.
   */
  lemma SerializeExample()
    ensures SerializeEntries(None, [("string_field", "a b"), ("int_field", "7")]).Ok?
    ensures
      var pieces := Entries(SerializeEntries(None, [("string_field", "a b"), ("int_field", "7")]).value);
      |pieces| == 2 && (set p | p in pieces) == {"string_field=a+b", "int_field=7"}
  {
    var es: seq<Entry> := [("string_field", "a b"), ("int_field", "7")];
    RekeyNone(es);
    ExampleKeys();
    assert Keys(es) == ["string_field", "int_field"];
    ExamplePieces();
    EntriesOfJoin(es);
    assert SerializeEntries(None, es).value == Join('&', Pieces(es));
  }

  lemma ExampleMap()
    ensures ToMap([("string_field", "a b"), ("int_field", "7")]) == map["string_field" := "a b", "int_field" := "7"]
  {
    var es: seq<Entry> := [("string_field", "a b"), ("int_field", "7")];
    assert es[..1] == [("string_field", "a b")] && es[..1][..0] == [];
  }

  lemma ExampleKeys()
    ensures PlainKeys([("string_field", "a b"), ("int_field", "7")])
    ensures DistinctKeys(Keys([("string_field", "a b"), ("int_field", "7")]))
  {
    var es: seq<Entry> := [("string_field", "a b"), ("int_field", "7")];
    assert Keys(es) == ["string_field", "int_field"];
    assert '&' !in "string_field" && '=' !in "string_field";
    assert '&' !in "int_field" && '=' !in "int_field";
  }

  /** `string_field=a+b&int_field=7` parses back to `{string_field: "a b", int_field: "7"}`. */
  lemma ParseExample()
    ensures ParseFlat("string_field=a+b&int_field=7") == Ok(map["string_field" := "a b", "int_field" := "7"])
  {
    var es: seq<Entry> := [("string_field", "a b"), ("int_field", "7")];
    ExampleMap();
    ExampleKeys();
    RekeyNone(es);
    RoundTripFlat(None, es);
    ExampleSerialized();
  }

  lemma ExampleSerialized()
    ensures SerializeEntries(None, [("string_field", "a b"), ("int_field", "7")]) == Ok("string_field=a+b&int_field=7")
  {
    var es: seq<Entry> := [("string_field", "a b"), ("int_field", "7")];
    RekeyNone(es);
    assert Keys(es) == ["string_field", "int_field"];
    ExamplePieces();
    ExampleJoin();
  }

  /** With index 2 the key `name` is written `{name}[2]`. */
  lemma IndexedKeyExample()
    ensures IndexedKey(Some(2), "name") == "{name}[2]"
  {
  }

  /**
   * Two entries `k=v1&k=v2` with the same key are refused, naming the key,
   * rather than collected into a list or resolved by keeping one value. The
   * splitter checks the key before the rest of the entry, so whatever `v2`
   * holds (more `=` or `&`) the second entry is refused for its key.
   */
  lemma RepeatedKeyRejected(k: string, v1: string, v2: string)
    requires '&' !in k && '=' !in k
    requires '&' !in v1 && '=' !in v1
    ensures ParseFlat(k + "=" + v1 + "&" + k + "=" + v2) == Err(DuplicateKey(k))
  {
    var e1, f := k + "=" + v1, k + "=" + Split(v2, '&')[0];
    var entries := Entries(k + "=" + v1 + "&" + k + "=" + v2);
    RepeatedKeyEntries(k, v1, v2);
    KeyBeforeEquals(k, v1);
    KeyBeforeEquals(k, Split(v2, '&')[0]);
    SplitWithout(v1, '=');
    assert Split(e1, '=') == [k, v1];
    assert entries[1..][0] == f;
    assert CollectPairs(entries, map[]) == CollectPairs(entries[1..], map[k := v1]);
  }

  /** An entry `k=w` splits at `=` into `k` and the pieces of `w`. */
  lemma KeyBeforeEquals(k: string, w: string)
    requires '=' !in k
    ensures Split(k + "=" + w, '=') == [k] + Split(w, '=')
  {
    assert k + "=" + w == k + ['='] + w;
    SplitAround(k, w, '=');
    SplitWithout(k, '=');
  }

  /** The entries of `k=v1&k=v2`: the first entry, then `k=` glued to the first `&` piece of `v2`, then the rest of `v2`. */
  lemma RepeatedKeyEntries(k: string, v1: string, v2: string)
    requires '&' !in k && '&' !in v1
    ensures Entries(k + "=" + v1 + "&" + k + "=" + v2) ==
              [k + "=" + v1, k + "=" + Split(v2, '&')[0]] + OmitEmpty(Split(v2, '&')[1..])
  {
    var e1, e2 := k + "=" + v1, k + "=" + v2;
    var f, tail := k + "=" + Split(v2, '&')[0], Split(v2, '&')[1..];
    assert k + "=" + v1 + "&" + k + "=" + v2 == e1 + ['&'] + e2;
    assert Split(e2, '&') == [f] + tail by {
      assert e2 == (k + "=") + v2;
      SplitPrefix(k + "=", v2, '&');
    }
    SplitAround(e1, e2, '&');
    SplitWithout(e1, '&');
    assert Split(e1 + ['&'] + e2, '&') == [e1, f] + tail;
    OmitEmptyAppend([e1, f], tail);
    assert e1[|k|] == '=' && f[|k|] == '=';
    OmitEmptyKeeps([e1, f]);
  }

  /** `a=1&a=2` is refused as a duplicate key rather than collected into a list. */
  lemma DuplicateKeyExample()
    ensures ParseFlat("a=1&a=2") == Err(DuplicateKey("a"))
  {
    assert "a=1&a=2" == "a" + "=" + "1" + "&" + "a" + "=" + "2";
    RepeatedKeyRejected("a", "1", "2");
  }

  /** `=1&=2` is refused too: the empty key is a key like any other. */
  lemma EmptyKeyExample()
    ensures ParseFlat("=1&=2") == Err(DuplicateKey(""))
  {
    assert "=1&=2" == "" + "=" + "1" + "&" + "" + "=" + "2";
    RepeatedKeyRejected("", "1", "2");
  }

  /** `a=1&a=x=y` is refused for its repeated key before the second `=` of its last entry is looked at. */
  lemma RepeatedKeyFirstExample()
    ensures ParseFlat("a=1&a=x=y") == Err(DuplicateKey("a"))
  {
    assert "a=1&a=x=y" == "a" + "=" + "1" + "&" + "a" + "=" + "x=y";
    RepeatedKeyRejected("a", "1", "x=y");
  }
}
