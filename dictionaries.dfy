/**
 * The NSDictionary (POSRx) category: merging two possibly absent dictionaries
 * and encoding a dictionary as a URL query string or a form body.
 *
 * A dictionary maps strings to strings. Its enumeration order, which the
 * query string follows, is unspecified, so every encoder takes it as `order`:
 * the dictionary's keys, each exactly once.
 */
module Dictionaries {
  import opened Wrappers
  import opened Sequences
  import opened Utf8
  import PercentEncoding
  import opened QueryStrings

  type Dictionary = map<string, string>

  /** The entries of a possibly absent dictionary; an absent one has none. */
  function Contents(d: Option<Dictionary>): Dictionary {
    if d.None? then map[] else d.value
  }

  // ---------------------------------------------------------------------------
  // posrx_merge:with:

  /**
   * Merges `target` over `source`: every key of either is present, and a key
   * of `target` keeps the target's value. An absent argument is no
   * dictionary; the result is absent only when both are.
   */
  function Merge(source: Option<Dictionary>, target: Option<Dictionary>): (merged: Option<Dictionary>)
    ensures merged.None? <==> source.None? && target.None?
    ensures Contents(merged).Keys == Contents(source).Keys + Contents(target).Keys
    ensures forall k | k in Contents(target) :: Contents(merged)[k] == Contents(target)[k]
    ensures forall k | k in Contents(source) && k !in Contents(target) :: Contents(merged)[k] == Contents(source)[k]
  {
    match (source, target)
    case (None, _) => target
    case (_, None) => source
    case (Some(s), Some(t)) => Some(s + t)
  }

  /** Merging with an absent or empty dictionary gives the other argument's entries. */
  lemma MergeWithNothing(d: Option<Dictionary>)
    ensures Merge(None, d) == d && Merge(d, None) == d
    ensures Contents(Merge(Some(map[]), d)) == Contents(d)
    ensures Contents(Merge(d, Some(map[]))) == Contents(d)
  {
    if d.Some? {
      assert map[] + d.value == d.value;
      assert d.value + map[] == d.value;
    }
  }

  /** Merging the same target again changes nothing, and a dictionary merged with itself is itself. */
  lemma MergeIdempotent(source: Option<Dictionary>, target: Option<Dictionary>)
    ensures Merge(Merge(source, target), target) == Merge(source, target)
    ensures Merge(target, target) == target
  {
    if source.Some? && target.Some? {
      assert source.value + target.value + target.value == source.value + target.value;
    }
    if target.Some? {
      assert target.value + target.value == target.value;
    }
  }

  // ---------------------------------------------------------------------------
  // posrx_URLQueryUsingPercentEncoding:, posrx_URLQuery, posrx_URLQueryBody

  /** `order` lists the keys of `d`, each exactly once. */
  predicate IsEnumeration(d: Dictionary, order: seq<string>) {
    && NoDuplicates(order)
    && (forall k | k in order :: k in d)
    && (forall k | k in d :: k in order)
  }

  lemma EnumerationLength(d: Dictionary, order: seq<string>)
    requires IsEnumeration(d, order)
    ensures |order| == |d|
  {
    DistinctCardinality(order);
    assert (set k | k in order) == d.Keys;
  }

  /** The entries of `d` in the order `order` lists their keys. */
  function Entries(d: Dictionary, order: seq<string>): seq<(string, string)>
    requires forall k | k in order :: k in d
  {
    seq(|order|, i requires 0 <= i < |order| => (order[i], d[order[i]]))
  }

  function Escape(s: string, usePercentEncoding: bool): string {
    if usePercentEncoding then PercentEncoding.Encode(s) else s
  }

  /** One `key=value` item. */
  function Item(key: string, value: string, usePercentEncoding: bool): string {
    Escape(key, usePercentEncoding) + "=" + Escape(value, usePercentEncoding)
  }

  /** One item per entry, in order. */
  function Items(entries: seq<(string, string)>, usePercentEncoding: bool): (items: seq<string>)
    ensures |items| == |entries|
  {
    if entries == [] then []
    else [Item(entries[0].0, entries[0].1, usePercentEncoding)] + Items(entries[1..], usePercentEncoding)
  }

  /**
   * The `&`-concatenation of one `key=value` item per entry, keys and values
   * percent-encoded when asked to. It is empty exactly when the dictionary is.
   */
  function URLQueryUsingPercentEncoding(d: Dictionary, order: seq<string>, usePercentEncoding: bool): (query: string)
    requires IsEnumeration(d, order)
    ensures query == [] <==> |d| == 0
  {
    EnumerationLength(d, order);
    var items := Items(Entries(d, order), usePercentEncoding);
    assert items != [] ==> items[0] != [];
    assert |items| >= 1 ==> Join(items, '&') != [] by {
      if |items| >= 1 {
        assert |items| == 1 || Join(items, '&') == items[0] + ['&'] + Join(items[1..], '&');
      }
    }
    Join(items, '&')
  }

  /** The characters a percent-escaped query string is made of. */
  predicate IsQueryChar(c: char) {
    PercentEncoding.IsUnreserved(c) || c == '%' || c == '&' || c == '='
  }

  lemma {:induction false} JoinQueryChars(parts: seq<string>)
    requires forall i, j | 0 <= i < |parts| && 0 <= j < |parts[i]| :: IsQueryChar(parts[i][j])
    ensures forall j | 0 <= j < |Join(parts, '&')| :: IsQueryChar(Join(parts, '&')[j])
  {
    if |parts| >= 2 {
      JoinQueryChars(parts[1..]);
      var tail := Join(parts[1..], '&');
      forall j | 0 <= j < |parts[0] + ['&'] + tail| ensures IsQueryChar((parts[0] + ['&'] + tail)[j]) {
        if j > |parts[0]| {
          assert (parts[0] + ['&'] + tail)[j] == tail[j - |parts[0]| - 1];
        }
      }
    }
  }

  /** Characters a percent-encoded key or value is made of. */
  predicate IsEscaped(s: string) {
    forall j | 0 <= j < |s| :: PercentEncoding.IsUnreserved(s[j]) || s[j] == '%'
  }

  lemma EscapedPair(k: string, v: string)
    requires IsEscaped(k) && IsEscaped(v)
    ensures forall j | 0 <= j < |k + "=" + v| :: IsQueryChar((k + "=" + v)[j])
    ensures '&' !in k + "=" + v
  {
    forall j | 0 <= j < |k + "=" + v| ensures IsQueryChar((k + "=" + v)[j]) && (k + "=" + v)[j] != '&' {
      if j > |k| {
        assert (k + "=" + v)[j] == v[j - |k| - 1];
      }
    }
  }

  /** An escaped item holds only query characters and no `&`. */
  lemma EscapedItem(key: string, value: string)
    ensures forall j | 0 <= j < |Item(key, value, true)| :: IsQueryChar(Item(key, value, true)[j])
    ensures '&' !in Item(key, value, true)
  {
    EscapedPair(PercentEncoding.Encode(key), PercentEncoding.Encode(value));
  }

  lemma {:induction false} EscapedItems(entries: seq<(string, string)>)
    ensures forall i, j | 0 <= i < |Items(entries, true)| && 0 <= j < |Items(entries, true)[i]| ::
      IsQueryChar(Items(entries, true)[i][j])
    ensures forall i | 0 <= i < |Items(entries, true)| :: '&' !in Items(entries, true)[i]
  {
    if entries != [] {
      var head, rest := Item(entries[0].0, entries[0].1, true), Items(entries[1..], true);
      EscapedItem(entries[0].0, entries[0].1);
      EscapedItems(entries[1..]);
      assert forall i | 1 <= i < |Items(entries, true)| :: Items(entries, true)[i] == rest[i - 1];
    }
  }

  /** The percent-escaped query string: nothing but unreserved characters, escapes and the two delimiters. */
  function URLQuery(d: Dictionary, order: seq<string>): (query: string)
    requires IsEnumeration(d, order)
    ensures forall j | 0 <= j < |query| :: IsQueryChar(query[j])
  {
    EscapedItems(Entries(d, order));
    JoinQueryChars(Items(Entries(d, order), true));
    URLQueryUsingPercentEncoding(d, order, true)
  }

  /**
   * The UTF-8 octets of the unescaped query string: never fewer octets than
   * characters, and exactly as many when the query is ASCII.
   */
  function URLQueryBody(d: Dictionary, order: seq<string>): (body: seq<byte>)
    requires IsEnumeration(d, order)
    ensures |body| >= |URLQueryUsingPercentEncoding(d, order, false)|
    ensures |body| == |URLQueryUsingPercentEncoding(d, order, false)| <==> IsAscii(URLQueryUsingPercentEncoding(d, order, false))
  {
    Utf8.Encode(URLQueryUsingPercentEncoding(d, order, false))
  }

  // ---------------------------------------------------------------------------
  // Reading a query string back

  /** Splits a `key=value` item and percent-decodes both halves to octets. */
  function ParseItem(item: string): Option<(seq<byte>, seq<byte>)> {
    var halves := Split(item, '=');
    if |halves| != 2 then None
    else
      match (PercentEncoding.Decode(halves[0]), PercentEncoding.Decode(halves[1]))
      case (Some(key), Some(value)) => Some((key, value))
      case _ => None
  }

  function ParseItems(items: seq<string>): Option<seq<(seq<byte>, seq<byte>)>> {
    if items == [] then Some([])
    else
      match (ParseItem(items[0]), ParseItems(items[1..]))
      case (Some(pair), Some(pairs)) => Some([pair] + pairs)
      case _ => None
  }

  /** The decoded pairs of a query string, in order; the empty query has none. */
  function ParseQuery(query: string): Option<seq<(seq<byte>, seq<byte>)>> {
    if query == [] then Some([]) else ParseItems(Split(query, '&'))
  }

  /** The entries as UTF-8 octets. */
  function Octets(entries: seq<(string, string)>): seq<(seq<byte>, seq<byte>)> {
    if entries == [] then []
    else [(Utf8.Encode(entries[0].0), Utf8.Encode(entries[0].1))] + Octets(entries[1..])
  }

  lemma ParseEscapedItem(key: string, value: string)
    ensures ParseItem(Item(key, value, true)) == Some((Utf8.Encode(key), Utf8.Encode(value)))
  {
    var k, v := PercentEncoding.Encode(key), PercentEncoding.Encode(value);
    assert '=' !in k && '=' !in v by {
      assert forall j | 0 <= j < |k| :: k[j] != '=';
      assert forall j | 0 <= j < |v| :: v[j] != '=';
    }
    assert Join([k, v], '=') == k + "=" + v by {
      assert [k, v][1..] == [v];
    }
    SplitJoin([k, v], '=');
    PercentEncoding.DecodeEncode(key);
    PercentEncoding.DecodeEncode(value);
  }

  /** Parsing a list of items parses its first item and then the rest. */
  lemma ParseItemsCons(item: string, items: seq<string>, pair: (seq<byte>, seq<byte>), pairs: seq<(seq<byte>, seq<byte>)>)
    requires ParseItem(item) == Some(pair) && ParseItems(items) == Some(pairs)
    ensures ParseItems([item] + items) == Some([pair] + pairs)
  {
    assert ([item] + items)[1..] == items;
  }

  lemma ParseEscapedItemsStep(entries: seq<(string, string)>)
    requires entries != []
    requires ParseItems(Items(entries[1..], true)) == Some(Octets(entries[1..]))
    ensures ParseItems(Items(entries, true)) == Some(Octets(entries))
  {
    var key, value := entries[0].0, entries[0].1;
    ParseEscapedItem(key, value);
    ParseItemsCons(Item(key, value, true), Items(entries[1..], true), (Utf8.Encode(key), Utf8.Encode(value)), Octets(entries[1..]));
  }

  lemma {:induction false} ParseEscapedItems(entries: seq<(string, string)>)
    ensures ParseItems(Items(entries, true)) == Some(Octets(entries))
  {
    if entries != [] {
      ParseEscapedItems(entries[1..]);
      ParseEscapedItemsStep(entries);
    } else {
      assert Items(entries, true) == [] && Octets(entries) == [];
    }
  }

  /**
   * Splitting the escaped query on `&` and `=` and percent-decoding gives back
   * every entry, in enumeration order, as the UTF-8 octets of its key and value.
   */
  lemma QueryRoundTrip(d: Dictionary, order: seq<string>)
    requires IsEnumeration(d, order)
    ensures ParseQuery(URLQuery(d, order)) == Some(Octets(Entries(d, order)))
  {
    var entries := Entries(d, order);
    var items := Items(entries, true);
    EnumerationLength(d, order);
    if |order| > 0 {
      EscapedItems(entries);
      SplitJoin(items, '&');
      ParseEscapedItems(entries);
    } else {
      assert entries == [];
    }
  }

  /** A non-empty dictionary's escaped query has one `&` fewer than it has entries. */
  lemma QuerySeparators(d: Dictionary, order: seq<string>)
    requires IsEnumeration(d, order) && |d| >= 1
    ensures Occurrences('&', URLQuery(d, order)) == |d| - 1
  {
    var entries := Entries(d, order);
    var items := Items(entries, true);
    EnumerationLength(d, order);
    EscapedItems(entries);
    SplitJoin(items, '&');
    SplitCountsSeparators(URLQuery(d, order), '&');
  }

  /** `s` holds only unreserved characters, so percent-encoding leaves it as it is. */
  predicate NeedsNoEscaping(s: string) {
    forall j | 0 <= j < |s| :: PercentEncoding.IsUnreserved(s[j])
  }

  lemma {:induction false} UnescapedItems(entries: seq<(string, string)>)
    requires forall i | 0 <= i < |entries| :: NeedsNoEscaping(entries[i].0) && NeedsNoEscaping(entries[i].1)
    ensures Items(entries, true) == Items(entries, false)
  {
    if entries != [] {
      PercentEncoding.EncodeUnreservedIsIdentity(entries[0].0);
      PercentEncoding.EncodeUnreservedIsIdentity(entries[0].1);
      assert forall i | 0 <= i < |entries[1..]| :: entries[1..][i] == entries[i + 1];
      UnescapedItems(entries[1..]);
    }
  }

  /** When no key or value needs escaping, the escaped and the plain query are the same string. */
  lemma EscapingUnreservedIsIdentity(d: Dictionary, order: seq<string>)
    requires IsEnumeration(d, order)
    requires forall k | k in d :: NeedsNoEscaping(k) && NeedsNoEscaping(d[k])
    ensures URLQueryUsingPercentEncoding(d, order, true) == URLQueryUsingPercentEncoding(d, order, false)
  {
    var entries := Entries(d, order);
    assert forall i | 0 <= i < |entries| :: entries[i].0 in d && entries[i].1 == d[entries[i].0];
    UnescapedItems(entries);
  }

  /**
   * When no key or value needs escaping, the body is the UTF-8 of the escaped
   * query string too, one octet per character.
   */
  lemma BodyOfUnreservedEntries(d: Dictionary, order: seq<string>)
    requires IsEnumeration(d, order)
    requires forall k | k in d :: NeedsNoEscaping(k) && NeedsNoEscaping(d[k])
    ensures URLQueryBody(d, order) == Utf8.Encode(URLQuery(d, order))
    ensures |URLQueryBody(d, order)| == |URLQuery(d, order)|
  {
    EscapingUnreservedIsIdentity(d, order);
    QueryIsAscii(d, order);
  }

  lemma QueryIsAscii(d: Dictionary, order: seq<string>)
    requires IsEnumeration(d, order)
    ensures IsAscii(URLQuery(d, order))
  {
    var query := URLQuery(d, order);
    forall j | 0 <= j < |query| ensures query[j] as int < 0x80 {
      assert IsQueryChar(query[j]);
    }
  }
}
