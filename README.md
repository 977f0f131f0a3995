# WikiSEO `<seo>` tag parser, modelled in Dafny

This project models `TagParser`, the class of the WikiSEO MediaWiki extension
that turns the body of a `<seo>` tag into a map from key to value.

- `parseText` takes the tag body, or no body at all. With no body it returns
  the empty map. Otherwise it cuts the body at every `|` and hands the pieces
  to `parseArgs`.
- `parseArgs` cuts each entry at its first `=` and trims both halves. It drops
  entries that have no `=`. It writes each pair into a map, so a later
  duplicate key overwrites an earlier one. It then removes entries whose key
  or value is empty, and passes the rest to `expandWikiTextTagArray`.
- `expandWikiTextTagArray` keeps the keys. It replaces each value with the
  host's full wikitext expansion of it. Then it strips HTML tags, decodes
  HTML entities and trims, in that order.

Files:

- `php_strings.dfy` (module `PhpStrings`) holds the PHP built-ins the parser
  uses. `trim` uses its default character list `" \t\n\r\0\x0B"`. There is
  `explode` on a one-character delimiter and `explode` with a limit of 2.
- `tag_parser.dfy` (module `TagParser`) holds the three operations as
  methods with their loops, and the functions that specify them.
  `Collected` is the map built by the loop of `parseArgs`. `NonEmptyEntries`
  is the `array_filter` stage. `Expanded` is the result of
  `expandWikiTextTagArray`. `ParsedArgs` is the result of `parseArgs`.
- `tag_parser_properties.dfy` (module `TagParserProperties`) holds the
  lemmas: which entry's value wins for a key, what keys and values look
  like, what reaches the expander, how a body is cut into entries, and
  worked examples.

The host's recursive expansion (`Parser::recursiveTagParseFully` with its
`PPFrame`), PHP `strip_tags` and PHP `html_entity_decode` are opaque total
functions. They are the three fields of the `Host` datatype, and the model
states only the order in which they are applied. The ghost out-parameter
`calls` of each method is the set of strings handed to the expander. That
is how the model states that no body means no expansion, and that only
filtered values are expanded.

PHP strings are byte strings. Here they are sequences of characters. Every
character `trim` removes is ASCII, and `mb_strlen($x) > 0` holds exactly
when `$x` is non-empty. So trimming and the emptiness filter give the same
results on characters as on UTF-8 bytes.

Values of the result can be empty. The code drops empty values before
expansion, not after. An expansion that yields only whitespace or markup
therefore leaves the key mapped to `""` (`ExpansionMayYieldEmpty`).

## Model

| member | source | states |
|---|---|---|
| `PhpStrings.Trim` | includes/TagParser.php:47 | `trim` returns a string with no trim character at either end, and returns an already trimmed string unchanged |
| `PhpStrings.TrimIsSlice` | includes/TagParser.php:47 | `trim` returns a slice of its input, and every character outside that slice is a trim character |
| `PhpStrings.TrimKeepsAbsent` | includes/TagParser.php:47 | a character that does not occur in a string does not occur in its trim |
| `PhpStrings.TrimAll` | includes/TagParser.php:47 | `array_map('trim', $pair)` keeps the length and trims each piece at its own position |
| `PhpStrings.Explode` | includes/TagParser.php:78 | `explode('|', $text)` returns at least one piece, no piece contains the delimiter, and joining the pieces with it gives back the text |
| `PhpStrings.ExplodeJoin` | includes/TagParser.php:78 | the other direction: exploding the join of delimiter-free pieces gives back exactly those pieces |
| `PhpStrings.ExplodeAtFirst` | includes/TagParser.php:46 | `explode('=', $arg, 2)` gives one piece equal to the entry exactly when it has no `=`, and otherwise a `=`-free head and the whole remainder after the first `=` |
| `PhpStrings.ExplodeAtFirstIsLimitTwo` | includes/TagParser.php:46 | the limit-2 split equals the first piece of the full split plus the rest of the full split joined back with `=` |
| `TagParser.Pair` | includes/TagParser.php:46-47 | an entry's `$pair` has two pieces exactly when the entry contains `=`, and every piece is trimmed |
| `TagParser.Collected` | includes/TagParser.php:43-53 | `$results` after the loop: every key and every value in it is trimmed (`CollectedIsLastDefinition` says which entry's value each key holds) |
| `TagParser.Entries` | includes/TagParser.php:78 | `explode('\|', $text)`: at least one entry, no entry holds `\|`, and joining the entries with `\|` gives back the body |
| `TagParser.NonEmptyEntries` | includes/TagParser.php:55-59 | the filter keeps a key exactly when the key and its value are both non-empty, and it keeps the value unchanged |
| `TagParser.Expanded` | includes/TagParser.php:92-100 | expansion keeps the key set exactly, each value becomes trim(decode(strip(expand(v)))) in that order, and every resulting value is trimmed |
| `TagParser.ParsedArgs` | includes/TagParser.php:42-62 | what `parseArgs` returns: exactly the non-empty keys of `$results` whose value is non-empty, each mapped to trim(decode(strip(expand(v)))); every key is non-empty and trimmed, every value trimmed |
| `TagParser.ExpanderInputs` | includes/TagParser.php:55-61 | the strings handed to `recursiveTagParseFully`: exactly the non-empty values `$results` holds under non-empty keys; each is trimmed |
| `TagParser.MapValues` | includes/TagParser.php:97-100 | `array_map` over a string-keyed array keeps the keys and applies the function to each value |
| `TagParser.ExpandWikiTextTagArray` | includes/TagParser.php:92-101 | the foreach loop, in any key order, followed by the three `array_map` stages, yields `Expanded(tags)`; the expander is called on exactly the values of `tags` |
| `TagParser.ParseArgs` | includes/TagParser.php:42-62 | the loop builds `Collected(args)`; the method returns the expansion of its non-empty entries; every string handed to the expander is non-empty and trimmed |
| `TagParser.ParseText` | includes/TagParser.php:73-81 | no body gives the empty map and no expander call; otherwise the result is `parseArgs` of the body cut at every `|` |
| `TagParserProperties.LastWhere` | includes/TagParser.php:45-53 | reference definition of the last index whose element satisfies a predicate: that element satisfies it and no later one does, or none does |
| `TagParserProperties.LastDefinition` | includes/TagParser.php:45-53 | the last entry that writes a key: that entry writes the key and no later entry does, or no entry writes it at all |
| `TagParserProperties.CollectedIsLastDefinition` | includes/TagParser.php:43-53 | the loop's map holds a key exactly when some entry writes it, and then holds the trimmed value of the last such entry |
| `TagParserProperties.LastDuplicateWins` | includes/TagParser.php:45-61 | when the last entry writing a non-empty key has a non-empty value, the result maps the key to that value passed through expand, strip, decode and trim |
| `TagParserProperties.EmptyLastValueErases` | includes/TagParser.php:45-59 | when the last entry writing a key has an empty value, the key is absent from the result, even if an earlier entry gave it a value |
| `TagParserProperties.UndefinedKeyAbsent` | includes/TagParser.php:45-53 | a key that no entry writes is absent from the result |
| `TagParserProperties.FirstSeparatorSplits` | includes/TagParser.php:46-47 | an entry splits only at its first `=`: the key is the trimmed text before it, and the value is the trimmed text after it, later `=` included |
| `TagParserProperties.EntryWithoutSeparatorIgnored` | includes/TagParser.php:49-52 | appending an entry with no `=` leaves the loop's map unchanged |
| `TagParserProperties.EntryWithSeparatorOverwrites` | includes/TagParser.php:49-52 | appending an entry with `=` sets its trimmed key to its trimmed value and overwrites any earlier value |
| `TagParserProperties.CollectedShape` | includes/TagParser.php:45-53 | every key of the loop's map is trimmed and has no `=`; its value is trimmed and was written by some entry |
| `TagParserProperties.KeysTrimmedNonEmpty` | includes/TagParser.php:46-59 | every key of the result is non-empty, is equal to its own trim, and has no `=` |
| `TagParserProperties.ValuesTrimmed` | includes/TagParser.php:100 | every value of the result is equal to its own trim |
| `TagParserProperties.FilterBeforeExpansion` | includes/TagParser.php:55-61 | every string handed to the expander is a non-empty, trimmed raw value written by some entry |
| `TagParserProperties.RawEntriesFreeOfSeparator` | includes/TagParser.php:78-80 | when a body is parsed, no raw key and no raw value contains `\|` |
| `TagParserProperties.JoinedEntriesParsed` | includes/TagParser.php:78 | a body made by joining `\|`-free entries with `\|` is cut back into exactly those entries |
| `TagParserProperties.ExpandedIdempotent` | includes/TagParser.php:92-100 | expanding the output again changes nothing when expand, strip and decode all leave that output as it is |
| `TagParserProperties.PairOfEntry` | includes/TagParser.php:46-47 | the pair of `k=v` with a `=`-free `k` is the trimmed `k` and the trimmed `v`, whatever `v` holds |
| `TagParserProperties.SingleEntry` | includes/TagParser.php:42-62 | a single entry `k=v` with non-empty trimmed key and value gives exactly the trimmed key mapped to trim(decode(strip(expand(trimmed v)))); `v` keeps any further `=` |
| `TagParserProperties.ExpansionMayYieldEmpty` | includes/TagParser.php:92-100 | a value can be empty in the result: when the expansion of a non-empty raw value is empty, the key stays, mapped to the empty string |
| `TagParserProperties.LaterDuplicateOverwrites` | includes/TagParser.php:45-61 | `a=x`, `b=y`, `a=z` give exactly `a` mapped to the processed `z` and `b` mapped to the processed `y`, whatever `x` was |
| `TagParserProperties.NothingSurvives` | includes/TagParser.php:45-61 | an entry with no `=`, an entry `e=v` whose key is blank (empty or only trim characters) and an entry `k=w` whose value is blank together give the empty map, whatever the host does |
| `TagParserProperties.EntriesOfTwo` | includes/TagParser.php:78 | a body `p\|q` of two `\|`-free entries is cut into exactly `p` and `q` |
| `TagParserProperties.TwoEntryText` | includes/TagParser.php:73-81 | a body `a=x\|b=y` with distinct non-empty keys gives exactly both keys, each mapped to its own processed value |
| `TagParserProperties.SanitizeOrderExample` | includes/TagParser.php:97-100 | an expansion `<b>Bold</b> &amp; more` becomes `Bold & more`: tags are stripped before entities are decoded |
| `TagParser.StagesCompose` | includes/TagParser.php:97-100 | the expanded map followed by the strip, decode and trim `array_map` stages equals `Expanded` of the original map |

## Left out

- PHP array-key coercion is not modelled. PHP turns a numeric-string key such as `"1"` into an integer key. Under `strict_types=1`, passing that integer to `mb_strlen` in the filter may raise a TypeError. The model keeps every key a string.
- The order of keys in the resulting array is not modelled. The result is a Dafny `map`, and the expansion loop visits keys in an order the model leaves open.
- The host expansion is modelled as a pure function. `Parser::recursiveTagParseFully` runs inside the host parser and may depend on or change its state, so in the source one expansion could depend on an earlier one. The model cannot express that. `Parser` and `PPFrame` themselves are not part of this model.
- The internals of PHP `strip_tags` and `html_entity_decode` (allowed tags, quote flags, charsets, malformed markup) are not modelled. Only the order in which they are applied is stated.
- A failure raised by the host expander is not modelled. In the source it propagates to the caller unchanged.
- `TagParser.ExpandWikiTextTagArray`: `calls` is a set, so it does not record how many times the expander sees the same string.
