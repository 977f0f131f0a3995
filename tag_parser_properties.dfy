/**
  What the tag parser promises about its result: where each key's value
  comes from when keys repeat, what keys and values look like, what reaches
  the host's expander, and how a tag body is cut into entries.
 */
module TagParserProperties {
  import opened PhpStrings
  import opened TagParser

  /** The largest index of `xs` whose element satisfies `p`, or none when no element does. */
  function LastWhere<T>(xs: seq<T>, p: T -> bool): (r: Option<nat>)
    ensures r.Some? ==> r.value < |xs| && p(xs[r.value])
    ensures r.Some? ==> forall j :: r.value < j < |xs| ==> !p(xs[j])
    ensures r.None? ==> forall j :: 0 <= j < |xs| ==> !p(xs[j])
  {
    if xs == [] then None
    else if p(xs[|xs| - 1]) then Some(|xs| - 1)
    else LastWhere(xs[..|xs| - 1], p)
  }

  /**
    Reference definition of "the last entry that writes `key`": the largest
    index whose entry defines `key`, or none when no entry does.
   */
  function LastDefinition(args: seq<string>, key: string): (r: Option<nat>)
    ensures r.Some? ==> r.value < |args| && Defines(args[r.value], key)
    ensures r.Some? ==> forall j :: r.value < j < |args| ==> !Defines(args[j], key)
    ensures r.None? ==> forall j :: 0 <= j < |args| ==> !Defines(args[j], key)
  {
    LastWhere(args, arg => Defines(arg, key))
  }

  /**
    The loop of `parseArgs` holds `key` exactly when some entry defines it,
    and then holds the trimmed value of the last such entry.
   */
  lemma {:induction false} CollectedIsLastDefinition(args: seq<string>, key: string)
    ensures key in Collected(args) <==> LastDefinition(args, key).Some?
    ensures LastDefinition(args, key).Some? ==>
      Collected(args)[key] == RawValue(args[LastDefinition(args, key).value])
  {
    if args != [] {
      var init := args[..|args| - 1];
      CollectedIsLastDefinition(init, key);
      if !Defines(args[|args| - 1], key) {
        var last := LastDefinition(init, key);
        if last.Some? {
          assert args[last.value] == init[last.value];
        }
      }
    }
  }

  /**
    Last duplicate wins: when entry `i` is the last one to write `key`, and
    both `key` and its trimmed value are non-empty, the result maps `key` to
    that value run through expand, strip_tags, html_entity_decode and trim.
   */
  lemma LastDuplicateWins(args: seq<string>, host: Host, i: nat, key: string)
    requires i < |args| && Defines(args[i], key)
    requires forall j :: i < j < |args| ==> !Defines(args[j], key)
    requires |key| > 0 && |RawValue(args[i])| > 0
    ensures key in ParsedArgs(args, host)
    ensures ParsedArgs(args, host)[key]
      == Trim(host.decodeEntities(host.stripTags(host.expand(RawValue(args[i])))))
  {
    CollectedIsLastDefinition(args, key);
    assert LastDefinition(args, key) == Some(i);
  }

  /**
    Overwriting happens before filtering: when the last entry that writes
    `key` has an empty trimmed value, `key` is absent from the result even if
    an earlier entry gave it a non-empty value.
   */
  lemma EmptyLastValueErases(args: seq<string>, host: Host, i: nat, key: string)
    requires i < |args| && Defines(args[i], key)
    requires forall j :: i < j < |args| ==> !Defines(args[j], key)
    requires RawValue(args[i]) == ""
    ensures key !in ParsedArgs(args, host)
  {
    CollectedIsLastDefinition(args, key);
    assert LastDefinition(args, key) == Some(i);
  }

  /** A key no entry defines is absent from the result. */
  lemma UndefinedKeyAbsent(args: seq<string>, host: Host, key: string)
    requires forall j :: 0 <= j < |args| ==> !Defines(args[j], key)
    ensures key !in ParsedArgs(args, host)
  {
    CollectedIsLastDefinition(args, key);
  }

  /**
    Only the first `=` splits an entry: the key is the trimmed text before
    it, and the value is the trimmed text after it, later `=` included.
   */
  lemma {:induction false} FirstSeparatorSplits(arg: string)
    requires KeyValueSeparator in arg
    ensures var i := IndexOf(arg, KeyValueSeparator);
      Pair(arg) == [Trim(arg[..i]), Trim(arg[i + 1..])]
  {
    var i := IndexOf(arg, KeyValueSeparator);
    var halves := ExplodeAtFirst(arg, KeyValueSeparator);
    var n := |halves[0]|;
    assert arg[..n] == halves[0] && arg[n] == KeyValueSeparator;
    assert i == n;
    assert arg[i + 1..] == halves[1];
  }

  /** Appending one entry to the loop's input: its `$pair`, when it has two pieces, is written over the map. */
  lemma CollectedAppend(args: seq<string>, arg: string)
    ensures Collected(args + [arg])
      == if |Pair(arg)| == 2 then Collected(args)[Pair(arg)[0] := Pair(arg)[1]] else Collected(args)
  {
    assert (args + [arg])[..|args|] == args;
  }

  /** An entry without `=` writes nothing. */
  lemma EntryWithoutSeparatorIgnored(args: seq<string>, arg: string)
    requires KeyValueSeparator !in arg
    ensures Collected(args + [arg]) == Collected(args)
  {
    assert (args + [arg])[..|args|] == args;
  }

  /** An entry with `=` writes its trimmed value under its trimmed key, over any earlier value. */
  lemma EntryWithSeparatorOverwrites(args: seq<string>, arg: string)
    requires KeyValueSeparator in arg
    ensures var i := IndexOf(arg, KeyValueSeparator);
      Collected(args + [arg]) == Collected(args)[Trim(arg[..i]) := Trim(arg[i + 1..])]
  {
    assert (args + [arg])[..|args|] == args;
    FirstSeparatorSplits(arg);
  }

  /**
    Every key of the loop's map is trimmed and holds no `=`, and every value
    is trimmed and is the trimmed tail of some entry after its first `=`.
   */
  lemma CollectedShape(args: seq<string>, key: string)
    requires key in Collected(args)
    ensures IsTrimmed(key) && KeyValueSeparator !in key
    ensures IsTrimmed(Collected(args)[key])
    ensures exists i :: 0 <= i < |args| && Defines(args[i], key) && Collected(args)[key] == RawValue(args[i])
  {
    CollectedIsLastDefinition(args, key);
    var i := LastDefinition(args, key).value;
    var arg := args[i];
    var halves := ExplodeAtFirst(arg, KeyValueSeparator);
    TrimKeepsAbsent(halves[0], KeyValueSeparator);
  }

  /** Every key of the result is non-empty, equal to its own trim and free of `=`. */
  lemma KeysTrimmedNonEmpty(args: seq<string>, host: Host, key: string)
    requires key in ParsedArgs(args, host)
    ensures |key| > 0 && Trim(key) == key && KeyValueSeparator !in key
  {
    CollectedShape(args, key);
  }

  /**
    Every value of the result equals its own trim. It need not be non-empty:
    see `ExpansionMayYieldEmpty`.
   */
  lemma ValuesTrimmed(args: seq<string>, host: Host, key: string)
    requires key in ParsedArgs(args, host)
    ensures Trim(ParsedArgs(args, host)[key]) == ParsedArgs(args, host)[key]
  {
  }

  /**
    Filtering precedes expansion: each string handed to the expander is a
    non-empty trimmed value that some entry wrote, so an empty raw value
    never reaches it and an empty key is dropped whatever its value.
   */
  lemma FilterBeforeExpansion(args: seq<string>, host: Host, v: string)
    requires v in ExpanderInputs(args)
    ensures |v| > 0 && Trim(v) == v
    ensures exists i :: 0 <= i < |args| && KeyValueSeparator in args[i] && RawValue(args[i]) == v
  {
    var m := NonEmptyEntries(Collected(args));
    var key :| key in m && m[key] == v;
    CollectedShape(args, key);
  }

  /**
    No `|` in a raw key or value: the body is cut at every `|`, so no entry,
    and hence no key or raw value taken from it, holds one.
   */
  lemma RawEntriesFreeOfSeparator(text: string, key: string)
    requires key in Collected(Entries(text))
    ensures EntrySeparator !in key && EntrySeparator !in Collected(Entries(text))[key]
  {
    var args := Entries(text);
    CollectedIsLastDefinition(args, key);
    var arg := args[LastDefinition(args, key).value];
    var halves := ExplodeAtFirst(arg, KeyValueSeparator);
    assert EntrySeparator !in halves[0] && EntrySeparator !in halves[1] by {
      assert arg == halves[0] + [KeyValueSeparator] + halves[1];
    }
    TrimKeepsAbsent(halves[0], EntrySeparator);
    TrimKeepsAbsent(halves[1], EntrySeparator);
  }

  /** A body built by joining `|`-free entries with `|` is parsed as exactly those entries. */
  lemma JoinedEntriesParsed(entries: seq<string>)
    requires |entries| >= 1
    requires forall i :: 0 <= i < |entries| ==> EntrySeparator !in entries[i]
    ensures Entries(Join(entries, EntrySeparator)) == entries
  {
    ExplodeJoin(entries, EntrySeparator);
  }

  /**
    Re-expanding output that expand, strip_tags and html_entity_decode all
    leave as it is changes nothing: the final trim is idempotent.
   */
  lemma ExpandedIdempotent(tags: map<string, string>, host: Host)
    requires forall k :: k in tags ==>
      var v := Expanded(tags, host)[k];
      host.expand(v) == v && host.stripTags(v) == v && host.decodeEntities(v) == v
    ensures Expanded(Expanded(tags, host), host) == Expanded(tags, host)
  {
  }

  /** The pair of an entry `k=v` whose `k` holds no `=`: the trimmed `k` and the trimmed `v`. */
  lemma PairOfEntry(k: string, v: string)
    requires KeyValueSeparator !in k
    ensures Pair(k + [KeyValueSeparator] + v) == [Trim(k), Trim(v)]
  {
    var arg := k + [KeyValueSeparator] + v;
    FirstSeparatorSplits(arg);
    IndexOfAfterHead(k, KeyValueSeparator, v);
    assert arg[..|k|] == k && arg[|k| + 1..] == v;
  }

  /** The loop's map after the two entries `a=x` and `b=y`. */
  lemma CollectedTwo(a: string, x: string, b: string, y: string)
    requires KeyValueSeparator !in a && KeyValueSeparator !in b
    ensures Collected([a + [KeyValueSeparator] + x, b + [KeyValueSeparator] + y])
      == map[Trim(a) := Trim(x)][Trim(b) := Trim(y)]
  {
    var args := [a + [KeyValueSeparator] + x, b + [KeyValueSeparator] + y];
    PairOfEntry(a, x);
    PairOfEntry(b, y);
    assert args[..1][..0] == [];
    assert Collected(args[..1]) == map[Trim(a) := Trim(x)];
  }

  /** Filtering and expanding a map of two distinct non-empty keys with non-empty values. */
  lemma ExpandedTwo(ka: string, va: string, kb: string, vb: string, host: Host)
    requires ka != kb && |ka| > 0 && |kb| > 0 && |va| > 0 && |vb| > 0
    ensures Expanded(NonEmptyEntries(map[ka := va][kb := vb]), host)
      == map[ka := Trim(host.decodeEntities(host.stripTags(host.expand(va)))),
             kb := Trim(host.decodeEntities(host.stripTags(host.expand(vb))))]
  {
    assert NonEmptyEntries(map[ka := va][kb := vb]) == map[ka := va][kb := vb];
  }

  /**
    A single entry `k=v` (the value may hold further `=`) gives the trimmed
    key mapped to the trimmed value passed through expand, strip_tags,
    html_entity_decode and trim, when key and value are non-empty.
   */
  lemma SingleEntry(k: string, v: string, host: Host)
    requires KeyValueSeparator !in k
    requires |Trim(k)| > 0 && |Trim(v)| > 0
    ensures ParsedArgs([k + [KeyValueSeparator] + v], host)
      == map[Trim(k) := Trim(host.decodeEntities(host.stripTags(host.expand(Trim(v)))))]
  {
    var args := [k + [KeyValueSeparator] + v];
    PairOfEntry(k, v);
    assert args[..0] == [];
    assert Collected(args) == map[Trim(k) := Trim(v)];
    assert NonEmptyEntries(Collected(args)) == map[Trim(k) := Trim(v)];
  }

  /**
    Values can be empty: when the expansion of a non-empty raw value comes
    out empty, the key stays in the result mapped to the empty string.
   */
  lemma ExpansionMayYieldEmpty(k: string, v: string, host: Host)
    requires KeyValueSeparator !in k
    requires |Trim(k)| > 0 && |Trim(v)| > 0
    requires host.expand(Trim(v)) == "" && host.stripTags("") == "" && host.decodeEntities("") == ""
    ensures ParsedArgs([k + [KeyValueSeparator] + v], host) == map[Trim(k) := ""]
  {
    SingleEntry(k, v, host);
    assert IsTrimmed("");
  }

  /** Writing `ka` again after a different key `kb` leaves only the second value of `ka`. */
  lemma OverwriteAfterOtherKey(ka: string, x: string, kb: string, y: string, z: string)
    requires ka != kb
    ensures map[ka := x][kb := y][ka := z] == map[ka := z][kb := y]
  {
  }

  /** The loop's map after `a=x`, `b=y`, `a=z`. */
  lemma CollectedDuplicate(a: string, x: string, b: string, y: string, z: string)
    requires KeyValueSeparator !in a && KeyValueSeparator !in b && Trim(a) != Trim(b)
    ensures Collected([a + [KeyValueSeparator] + x, b + [KeyValueSeparator] + y, a + [KeyValueSeparator] + z])
      == map[Trim(a) := Trim(z)][Trim(b) := Trim(y)]
  {
    var e1, e2, e3 := a + [KeyValueSeparator] + x, b + [KeyValueSeparator] + y, a + [KeyValueSeparator] + z;
    CollectedTwo(a, x, b, y);
    PairOfEntry(a, z);
    CollectedAppend([e1, e2], e3);
    assert [e1, e2] + [e3] == [e1, e2, e3];
    OverwriteAfterOtherKey(Trim(a), Trim(x), Trim(b), Trim(y), Trim(z));
  }

  /**
    A later duplicate wins: in `a=x|b=y|a=z` the value of `a` comes from
    `z`, whatever `x` was, and `b` keeps `y`.
   */
  lemma LaterDuplicateOverwrites(a: string, x: string, b: string, y: string, z: string, host: Host)
    requires KeyValueSeparator !in a && KeyValueSeparator !in b
    requires Trim(a) != Trim(b) && |Trim(a)| > 0 && |Trim(b)| > 0
    requires |Trim(y)| > 0 && |Trim(z)| > 0
    ensures ParsedArgs([a + [KeyValueSeparator] + x, b + [KeyValueSeparator] + y, a + [KeyValueSeparator] + z], host)
      == map[Trim(a) := Trim(host.decodeEntities(host.stripTags(host.expand(Trim(z))))),
             Trim(b) := Trim(host.decodeEntities(host.stripTags(host.expand(Trim(y)))))]
  {
    CollectedDuplicate(a, x, b, y, z);
    ExpandedTwo(Trim(a), Trim(z), Trim(b), Trim(y), host);
  }

  /** The loop's map after `n` (no `=`), `e=v` and `k=w`. */
  lemma CollectedOfDroppedEntries(n: string, e: string, v: string, k: string, w: string)
    requires KeyValueSeparator !in n && KeyValueSeparator !in e && KeyValueSeparator !in k
    ensures Collected([n, e + [KeyValueSeparator] + v, k + [KeyValueSeparator] + w])
      == map[Trim(e) := Trim(v)][Trim(k) := Trim(w)]
  {
    var e1, e2, e3 := n, e + [KeyValueSeparator] + v, k + [KeyValueSeparator] + w;
    CollectedAppend([], e1);
    assert [] + [e1] == [e1];
    PairOfEntry(e, v);
    CollectedAppend([e1], e2);
    assert [e1] + [e2] == [e1, e2];
    PairOfEntry(k, w);
    CollectedAppend([e1, e2], e3);
    assert [e1, e2] + [e3] == [e1, e2, e3];
  }

  /**
    An entry with no `=`, an entry `e=v` whose key is blank (empty or only
    trim characters) and an entry `k=w` whose value is blank all vanish,
    whatever the host does.
   */
  lemma NothingSurvives(n: string, e: string, v: string, k: string, w: string, host: Host)
    requires KeyValueSeparator !in n && KeyValueSeparator !in e && KeyValueSeparator !in k
    requires Trim(e) == [] && Trim(w) == []
    ensures ParsedArgs([n, e + [KeyValueSeparator] + v, k + [KeyValueSeparator] + w], host) == map[]
  {
    CollectedOfDroppedEntries(n, e, v, k, w);
    EmptyKeyThenEmptyValueFiltered(Trim(v), Trim(k));
  }

  /** A map whose only keys are the empty key and a key with an empty value has nothing left after filtering. */
  lemma EmptyKeyThenEmptyValueFiltered(u: string, w: string)
    ensures NonEmptyEntries(map[[] := u][w := []]) == map[]
  {
    var m: map<string, string> := map[[] := u][w := []];
    forall key | key in m
      ensures key !in NonEmptyEntries(m)
    {
    }
  }

  /** The body `p|q` of two `|`-free entries is cut into exactly `p` and `q`. */
  lemma EntriesOfTwo(p: string, q: string)
    requires EntrySeparator !in p && EntrySeparator !in q
    ensures Entries(p + [EntrySeparator] + q) == [p, q]
  {
    assert Join([p, q], EntrySeparator) == p + [EntrySeparator] + q;
    JoinedEntriesParsed([p, q]);
  }

  /**
    A body `a=x|b=y` of `|`-free parts gives both entries, each under its
    own trimmed key.
   */
  lemma TwoEntryText(a: string, x: string, b: string, y: string, host: Host)
    requires KeyValueSeparator !in a && KeyValueSeparator !in b
    requires EntrySeparator !in a && EntrySeparator !in x && EntrySeparator !in b && EntrySeparator !in y
    requires Trim(a) != Trim(b) && |Trim(a)| > 0 && |Trim(b)| > 0
    requires |Trim(x)| > 0 && |Trim(y)| > 0
    ensures ParsedArgs(Entries(a + [KeyValueSeparator] + x + [EntrySeparator] + b + [KeyValueSeparator] + y), host)
      == map[Trim(a) := Trim(host.decodeEntities(host.stripTags(host.expand(Trim(x))))),
             Trim(b) := Trim(host.decodeEntities(host.stripTags(host.expand(Trim(y)))))]
  {
    var p, q := a + [KeyValueSeparator] + x, b + [KeyValueSeparator] + y;
    assert a + [KeyValueSeparator] + x + [EntrySeparator] + b + [KeyValueSeparator] + y == p + [EntrySeparator] + q;
    EntriesOfTwo(p, q);
    CollectedTwo(a, x, b, y);
    ExpandedTwo(Trim(a), Trim(x), Trim(b), Trim(y), host);
  }

  /**
    The fixed order expand, strip_tags, html_entity_decode, trim: an
    expansion `<b>Bold</b> &amp; more` loses its tags first and its entity
    second, giving `Bold & more`.
   */
  lemma SanitizeOrderExample(host: Host)
    requires host.expand("x") == "<b>Bold</b> &amp; more"
    requires host.stripTags("<b>Bold</b> &amp; more") == "Bold &amp; more"
    requires host.decodeEntities("Bold &amp; more") == "Bold & more"
    ensures Expanded(map["k" := "x"], host) == map["k" := "Bold & more"]
  {
    assert IsTrimmed("Bold & more");
  }
}
