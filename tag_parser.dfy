/**
  The `<seo>` tag parser of the WikiSEO extension: the body of a tag,
  `key=value|key=value|...`, becomes a map from key to value. Keys and values
  are trimmed, entries without `=` or with an empty key or value are dropped,
  a later duplicate key overwrites an earlier one, and every surviving value
  is expanded by the wiki host, stripped of HTML tags, entity-decoded and
  trimmed again.
 */
module TagParser {
  import opened PhpStrings

  datatype Option<T> = None | Some(value: T)

  /**
    What the parser calls but cannot see: the host's full recursive wikitext
    expansion (for the frame of the current tag), PHP `strip_tags` and PHP
    `html_entity_decode`.
   */
  datatype Host = Host(
    expand: string -> string,
    stripTags: string -> string,
    decodeEntities: string -> string)

  /** The separator between two entries of a tag body. */
  const EntrySeparator: char := '|'

  /** The separator between the key and the value of an entry. */
  const KeyValueSeparator: char := '='

  /** `$pair` for one entry: the entry cut at its first `=`, both halves trimmed. */
  function Pair(arg: string): (p: seq<string>)
    ensures |p| == 1 || |p| == 2
    ensures |p| == 2 <==> KeyValueSeparator in arg
    ensures forall i :: 0 <= i < |p| ==> IsTrimmed(p[i])
  {
    TrimAll(ExplodeAtFirst(arg, KeyValueSeparator))
  }

  /** The entry `arg` writes `key` into the map being built. */
  predicate Defines(arg: string, key: string) {
    |Pair(arg)| == 2 && Pair(arg)[0] == key
  }

  /** The trimmed value an entry with a `=` writes. */
  function RawValue(arg: string): string
    requires KeyValueSeparator in arg
  {
    Pair(arg)[1]
  }

  /**
    The map `$results` after the loop of `parseArgs` has seen every entry of
    `args`: every key and every value in it is trimmed.
   */
  function Collected(args: seq<string>): (m: map<string, string>)
    ensures forall k :: k in m ==> IsTrimmed(k) && IsTrimmed(m[k])
  {
    if args == [] then map[]
    else
      var m := Collected(args[..|args| - 1]);
      var pair := Pair(args[|args| - 1]);
      if |pair| == 2 then m[pair[0] := pair[1]] else m
  }

  /**
    The `array_filter` stage: keeps exactly the entries whose key and value
    are both non-empty, unchanged.
   */
  function NonEmptyEntries(m: map<string, string>): (r: map<string, string>)
    ensures forall k :: k in r <==> k in m && |k| > 0 && |m[k]| > 0
    ensures forall k :: k in r ==> r[k] == m[k]
  {
    map k | k in m && |k| > 0 && |m[k]| > 0 :: m[k]
  }

  /**
    What `expandWikiTextTagArray` returns: the same keys, each value
    expanded by the host, then stripped of tags, then entity-decoded, then
    trimmed. Every value that comes out is trimmed.
   */
  function Expanded(tags: map<string, string>, host: Host): (r: map<string, string>)
    ensures r.Keys == tags.Keys
    ensures forall k :: k in tags ==>
      r[k] == Trim(host.decodeEntities(host.stripTags(host.expand(tags[k]))))
    ensures forall k :: k in r ==> IsTrimmed(r[k])
  {
    map k | k in tags :: Trim(host.decodeEntities(host.stripTags(host.expand(tags[k]))))
  }

  /**
    What `parseArgs` returns for `args`: exactly the keys of the loop's map
    that are non-empty and hold a non-empty value, each value processed by
    the host and trimmed.
   */
  function ParsedArgs(args: seq<string>, host: Host): (r: map<string, string>)
    ensures forall k :: k in r <==> k in Collected(args) && |k| > 0 && |Collected(args)[k]| > 0
    ensures forall k :: k in r ==>
      r[k] == Trim(host.decodeEntities(host.stripTags(host.expand(Collected(args)[k]))))
    ensures forall k :: k in r ==> |k| > 0 && IsTrimmed(k) && IsTrimmed(r[k])
  {
    Expanded(NonEmptyEntries(Collected(args)), host)
  }

  /**
    The strings `parseArgs` hands to the host's expander: the non-empty
    values the loop's map holds under non-empty keys. Each is trimmed.
   */
  function ExpanderInputs(args: seq<string>): (r: set<string>)
    ensures forall v :: v in r <==>
      exists k :: k in Collected(args) && |k| > 0 && |v| > 0 && Collected(args)[k] == v
    ensures forall v :: v in r ==> |v| > 0 && IsTrimmed(v)
  {
    NonEmptyEntries(Collected(args)).Values
  }

  /**
    The entries of a tag body: the body cut at every `|`, with no escaping.
    No entry holds a `|`, and joining the entries with `|` gives back the body.
   */
  function Entries(text: string): (r: seq<string>)
    ensures |r| >= 1
    ensures forall i :: 0 <= i < |r| ==> EntrySeparator !in r[i]
    ensures Join(r, EntrySeparator) == text
  {
    Explode(text, EntrySeparator)
  }

  /**
    `expandWikiTextTagArray`: the foreach loop replaces every value by its
    expansion (keys visited in an order the model leaves open), then the
    three `array_map` stages strip tags, decode entities and trim. `calls`
    is the set of strings handed to the expander.
   */
  method ExpandWikiTextTagArray(tags: map<string, string>, host: Host)
    returns (r: map<string, string>, ghost calls: set<string>)
    ensures r == Expanded(tags, host)
    ensures calls == tags.Values
  {
    var expanded := tags;
    var pending := tags.Keys;
    calls := {};
    while pending != {}
      invariant pending <= tags.Keys
      invariant expanded.Keys == tags.Keys
      invariant forall k :: k in pending ==> expanded[k] == tags[k]
      invariant forall k :: k in tags && k !in pending ==> expanded[k] == host.expand(tags[k])
      invariant calls == ValuesOf(tags, tags.Keys - pending)
      decreases pending
    {
      var key :| key in pending;
      ValuesOfInsert(tags, tags.Keys - pending, key);
      assert tags.Keys - (pending - {key}) == (tags.Keys - pending) + {key};
      calls := calls + {expanded[key]};
      expanded := expanded[key := host.expand(expanded[key])];
      pending := pending - {key};
    }
    ValuesOfAllKeys(tags);
    var stripped := MapValues(expanded, host.stripTags);
    var decoded := MapValues(stripped, host.decodeEntities);
    r := MapValues(decoded, Trim);
    StagesCompose(tags, expanded, host);
  }

  /** The values `m` holds under the keys in `keys`. */
  ghost function ValuesOf(m: map<string, string>, keys: set<string>): set<string>
    requires keys <= m.Keys
  {
    set k | k in keys :: m[k]
  }

  lemma ValuesOfInsert(m: map<string, string>, keys: set<string>, key: string)
    requires keys <= m.Keys && key in m
    ensures ValuesOf(m, keys + {key}) == ValuesOf(m, keys) + {m[key]}
  {
  }

  lemma ValuesOfAllKeys(m: map<string, string>)
    ensures ValuesOf(m, m.Keys) == m.Values
  {
  }

  /** The expansion loop's map followed by the three `array_map` stages is `Expanded(tags, host)`. */
  lemma StagesCompose(tags: map<string, string>, expanded: map<string, string>, host: Host)
    requires expanded.Keys == tags.Keys
    requires forall k :: k in tags ==> expanded[k] == host.expand(tags[k])
    ensures MapValues(MapValues(MapValues(expanded, host.stripTags), host.decodeEntities), Trim)
      == Expanded(tags, host)
  {
  }

  /** PHP `array_map($f, $m)` on an array with string keys: same keys, `f` applied to each value. */
  function MapValues(m: map<string, string>, f: string -> string): (r: map<string, string>)
    ensures r.Keys == m.Keys
    ensures forall k :: k in m ==> r[k] == f(m[k])
  {
    map k | k in m :: f(m[k])
  }

  /**
    `parseArgs`: builds `$results` entry by entry, a later duplicate key
    overwriting an earlier one, filters out empty keys and values, and
    expands what is left. Only the filtered raw values reach the expander,
    and each of them is non-empty and trimmed.
   */
  method ParseArgs(args: seq<string>, host: Host)
    returns (r: map<string, string>, ghost calls: set<string>)
    ensures r == ParsedArgs(args, host)
    ensures calls == ExpanderInputs(args)
    ensures forall v :: v in calls ==> |v| > 0 && IsTrimmed(v)
  {
    var results: map<string, string> := map[];
    for i := 0 to |args|
      invariant results == Collected(args[..i])
      invariant forall k :: k in results ==> IsTrimmed(results[k])
    {
      var pair := ExplodeAtFirst(args[i], KeyValueSeparator);
      pair := TrimAll(pair);
      if |pair| == 2 {
        results := results[pair[0] := pair[1]];
      }
      assert args[..i + 1][..i] == args[..i];
    }
    assert args[..|args|] == args;
    results := NonEmptyEntries(results);
    r, calls := ExpandWikiTextTagArray(results, host);
  }

  /**
    `parseText`: no body gives the empty map without calling the expander;
    otherwise the body is cut at every `|` and parsed as entries.
   */
  method ParseText(text: Option<string>, host: Host)
    returns (r: map<string, string>, ghost calls: set<string>)
    ensures text.None? ==> r == map[]
    ensures text.Some? ==> r == ParsedArgs(Entries(text.value), host)
    ensures text.None? ==> calls == {}
    ensures text.Some? ==> calls == ExpanderInputs(Entries(text.value))
  {
    if text.None? {
      return map[], {};
    }
    var lines := Explode(text.value, EntrySeparator);
    r, calls := ParseArgs(lines, host);
  }
}
