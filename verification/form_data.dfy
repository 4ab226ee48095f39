/**
 * `ProtoFormDataConverter`: converts protobuf messages to and from
 * `application/x-www-form-urlencoded` bodies.
 *
 * Serialising prints the message as JSON, flattens it into a string map,
 * percent-encodes every value, optionally rewrites every key to
 * `{key}[index]`, and joins the `key=value` pairs with `&`. Parsing splits
 * on `&` (dropping empty pieces), splits each piece at `=`, percent-decodes
 * the values and hands the flat map to the JSON parser.
 *
 * The JSON printer with its flattening, and the JSON parser, are foreign
 * code: they are parameters here. The printed map is given as a sequence of
 * entries. `SerializeEntries` joins the pieces in that order, whereas Java
 * joins the `HashMap` that `Collectors.toMap` builds, in the order of its hash
 * buckets; so the properties state the pieces of a body as a set, never by
 * position.
 */
module FormData {
  import opened Wrappers
  import opened Percent
  import opened Splitting
  import Proto

  datatype FormError =
    /** `ParsingException`: the message could not be printed as JSON. */
    | ParsingError(reason: string)
    /** A body piece that does not split at `=` into exactly a key and a value. */
    | InvalidEntry(entry: string)
    /** A key occurs twice (in a body, or among the keys of the printed map after rewriting). */
    | DuplicateKey(key: string)
    /** Some value has a `%` not followed by two hexadecimal digits (`IllegalArgumentException`). */
    | MalformedEscape

  /** One entry of the flattened JSON projection: a key and its (charset-encoded) value. */
  type Entry = (string, Octets)

  /** The JSON printer followed by the flattening into a string map; `None` when printing fails. */
  type Printer = Proto.Message -> Option<seq<Entry>>

  /** The JSON parser: merges a flat map, as JSON, into the builder's message, or fails. */
  type JsonParser = (map<string, string>, Proto.Message) -> Result<Proto.Message, FormError>

  datatype MediaType = MediaType(mainType: string, subtype: string, charset: Option<string>)

  /** The content type this converter produces and consumes. */
  function ContentType(): (t: MediaType)
    ensures t.mainType == "application" && t.subtype == "x-www-form-urlencoded"
    ensures t.charset == Some("UTF-8")
  {
    MediaType("application", "x-www-form-urlencoded", Some("UTF-8"))
  }

  /** The charset name `serialize` passes to the encoder: the content type's, falling back to UTF-8. */
  function SerializeCharset(): (name: string)
    ensures name == "UTF-8"
  {
    match ContentType().charset
    case Some(c) => c
    case None => "UTF-8"
  }

  // ---------------------------------------------------------------- keys

  predicate IsDigit(c: char)
  {
    '0' <= c <= '9'
  }

  function NatToString(n: nat): (s: string)
    ensures |s| >= 1
    ensures forall k | 0 <= k < |s| :: IsDigit(s[k])
    decreases n
  {
    if n < 10 then [('0' as int + n) as char]
    else NatToString(n / 10) + [('0' as int + n % 10) as char]
  }

  /** `Integer.toString`: decimal digits, with a leading `-` when negative. */
  function IntToString(i: int): (s: string)
    ensures forall k | 0 <= k < |s| :: IsDigit(s[k]) || s[k] == '-'
  {
    if i < 0 then "-" + NatToString(-i) else NatToString(i)
  }

  /** The key written for `key`: itself without an index, `{key}[index]` with one. */
  function IndexedKey(index: Option<int>, key: string): string
  {
    match index
    case None => key
    case Some(i) => "{" + key + "}[" + IntToString(i) + "]"
  }

  function Keys(es: seq<Entry>): seq<string>
  {
    seq(|es|, i requires 0 <= i < |es| => es[i].0)
  }

  /** The entries with every key rewritten for `index`, values unchanged. */
  function Rekey(index: Option<int>, es: seq<Entry>): seq<Entry>
  {
    seq(|es|, i requires 0 <= i < |es| => (IndexedKey(index, es[i].0), es[i].1))
  }

  predicate DistinctKeys(keys: seq<string>)
  {
    forall i, j | 0 <= i < j < |keys| :: keys[i] != keys[j]
  }

  /** A key that occurs twice in `keys`, or occurs in `seen`; `None` when there is none. */
  function FirstRepeated(keys: seq<string>, seen: set<string>): (r: Option<string>)
    ensures r.None? <==> DistinctKeys(keys) && forall i | 0 <= i < |keys| :: keys[i] !in seen
    ensures r.Some? ==> r.value in keys
    decreases |keys|
  {
    if keys == [] then None
    else if keys[0] in seen then Some(keys[0])
    else FirstRepeated(keys[1..], seen + {keys[0]})
  }

  /** The map an entry sequence denotes: each key to its value (the last one, were a key repeated). */
  function ToMap(es: seq<Entry>): map<string, string>
    decreases |es|
  {
    if es == [] then map[]
    else ToMap(es[..|es| - 1])[es[|es| - 1].0 := es[|es| - 1].1]
  }

  // ----------------------------------------------------------- serialize

  /** One `key=value` piece, the value percent-encoded. */
  function Piece(e: Entry): string
  {
    e.0 + "=" + Encode(e.1)
  }

  function Pieces(es: seq<Entry>): seq<string>
  {
    seq(|es|, i requires 0 <= i < |es| => Piece(es[i]))
  }

  /**
   * The flat stage of `serialize`: rewrite the keys, encode the values
   * (`Collectors.toMap` refuses a key that occurs twice), then join the
   * pieces with `&`, here in entry order.
   */
  function SerializeEntries(index: Option<int>, es: seq<Entry>): Result<string, FormError>
  {
    var keyed := Rekey(index, es);
    match FirstRepeated(Keys(keyed), {})
    case Some(k) => Err(DuplicateKey(k))
    case None => Ok(Join('&', Pieces(keyed)))
  }

  /** `serialize(index, printer, message)`. */
  function Serialize(index: Option<int>, printer: Printer, message: Proto.Message): Result<string, FormError>
  {
    match printer(message)
    case None => Err(ParsingError("Failed to serialize a message"))
    case Some(es) => SerializeEntries(index, es)
  }

  /** `packMultiple`: the serialised items in order, separated by `&`. */
  function PackMultiple(items: seq<string>): string
  {
    Join('&', items)
  }

  // --------------------------------------------------------------- parse

  /** The non-empty pieces of a body between `&` separators. */
  function Entries(body: string): seq<string>
  {
    OmitEmpty(Split(body, '&'))
  }

  /** The text of an entry before its first `=`. */
  function KeyOf(entry: string): string
  {
    Split(entry, '=')[0]
  }

  /** An entry that splits at `=` into exactly a key and a value. */
  predicate WellFormedEntry(entry: string)
  {
    |Split(entry, '=')| == 2
  }

  function ValueOf(entry: string): string
    requires WellFormedEntry(entry)
  {
    Split(entry, '=')[1]
  }

  function KeysOf(entries: seq<string>): seq<string>
  {
    seq(|entries|, i requires 0 <= i < |entries| => KeyOf(entries[i]))
  }

  /**
   * Guava's map splitter over the entries, left to right: a key seen before
   * fails, then an entry without a value or with a second `=` fails.
   */
  function CollectPairs(entries: seq<string>, acc: map<string, string>): Result<map<string, string>, FormError>
    decreases |entries|
  {
    if entries == [] then Ok(acc)
    else
      var parts := Split(entries[0], '=');
      if parts[0] in acc then Err(DuplicateKey(parts[0]))
      else if |parts| != 2 then Err(InvalidEntry(entries[0]))
      else CollectPairs(entries[1..], acc[parts[0] := parts[1]])
  }

  /** Percent-decode every value of the map; keys are taken as they are. */
  function DecodeValues(m: map<string, string>): Result<map<string, string>, FormError>
  {
    if forall k | k in m :: Decode(m[k]).Ok? then Ok(map k | k in m :: Decode(m[k]).value)
    else Err(MalformedEscape)
  }

  /** Split a non-empty body into its key to decoded value map. */
  function ParseFlat(body: string): Result<map<string, string>, FormError>
  {
    match CollectPairs(Entries(body), map[])
    case Err(e) => Err(e)
    case Ok(pairs) => DecodeValues(pairs)
  }

  /**
   * `parse(body, charset, builder)`: an absent or empty body gives the
   * builder's message as it is; otherwise the flat map goes to the JSON parser.
   */
  function Parse(body: Option<string>, jsonParse: JsonParser, builder: Proto.Message): (r: Result<Proto.Message, FormError>)
    ensures body.None? || body.value == "" ==> r == Ok(builder)
  {
    if body.None? || body.value == "" then Ok(builder)
    else
      match ParseFlat(body.value)
      case Err(e) => Err(e)
      case Ok(pairs) => jsonParse(pairs, builder)
  }
}
