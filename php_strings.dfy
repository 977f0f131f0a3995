/**
  The three PHP string built-ins the tag parser relies on, over strings of
  characters: `trim` with its default character list, `explode` on a
  one-character delimiter, and `explode` with a limit of two.
 */
module PhpStrings {

  /** The characters PHP's `trim` removes by default: " \t\n\r\0\x0B". */
  predicate IsTrimChar(c: char) {
    c == ' ' || c == '\t' || c == '\n' || c == '\r' || c == '\0' || c == '\U{0B}'
  }

  /** Neither end of `s` holds a character that `trim` would remove. */
  predicate IsTrimmed(s: string) {
    |s| == 0 || (!IsTrimChar(s[0]) && !IsTrimChar(s[|s| - 1]))
  }

  /** Drops trim characters from the front of `s`; what is left starts with a kept character. */
  function TrimLeft(s: string): (r: string)
    ensures |r| == 0 || !IsTrimChar(r[0])
  {
    if |s| > 0 && IsTrimChar(s[0]) then TrimLeft(s[1..]) else s
  }

  /** Drops trim characters from the back of `s`; what is left ends with a kept character. */
  function TrimRight(s: string): (r: string)
    ensures |r| == 0 || !IsTrimChar(r[|r| - 1])
  {
    if |s| > 0 && IsTrimChar(s[|s| - 1]) then TrimRight(s[..|s| - 1]) else s
  }

  /** `TrimLeft` keeps a suffix of `s` and drops only trim characters. */
  lemma {:induction false} TrimLeftIsSuffix(s: string)
    ensures |TrimLeft(s)| <= |s| && TrimLeft(s) == s[|s| - |TrimLeft(s)|..]
    ensures forall j :: 0 <= j < |s| - |TrimLeft(s)| ==> IsTrimChar(s[j])
  {
    if |s| > 0 && IsTrimChar(s[0]) {
      TrimLeftIsSuffix(s[1..]);
    }
  }

  /** `TrimRight` keeps a prefix of `s` and drops only trim characters. */
  lemma {:induction false} TrimRightIsPrefix(s: string)
    ensures |TrimRight(s)| <= |s| && TrimRight(s) == s[..|TrimRight(s)|]
    ensures forall j :: |TrimRight(s)| <= j < |s| ==> IsTrimChar(s[j])
  {
    if |s| > 0 && IsTrimChar(s[|s| - 1]) {
      TrimRightIsPrefix(s[..|s| - 1]);
    }
  }

  /**
    PHP `trim($s)`: `s` with every leading and trailing trim character
    removed. The result is itself trimmed, and a string that is already
    trimmed comes back unchanged (`TrimIsSlice` says what was removed).
   */
  function Trim(s: string): (r: string)
    ensures IsTrimmed(r)
    ensures IsTrimmed(s) ==> r == s
  {
    TrimRightIsPrefix(TrimLeft(s));
    TrimRight(TrimLeft(s))
  }

  /** `trim` removes only trim characters, and only from the two ends. */
  lemma TrimIsSlice(s: string) returns (lo: nat)
    ensures SliceAmidTrimChars(s, lo, Trim(s))
  {
    TrimLeftIsSuffix(s);
    TrimRightIsPrefix(TrimLeft(s));
    lo := |s| - |TrimLeft(s)|;
  }

  /** `r` sits in `s` at offset `lo` and only trim characters lie outside it. */
  predicate SliceAmidTrimChars(s: string, lo: int, r: string) {
    && 0 <= lo <= lo + |r| <= |s|
    && s[lo..lo + |r|] == r
    && forall j :: 0 <= j < |s| && !(lo <= j < lo + |r|) ==> IsTrimChar(s[j])
  }

  /** A character absent from `s` is absent from `trim($s)`. */
  lemma TrimKeepsAbsent(s: string, c: char)
    requires c !in s
    ensures c !in Trim(s)
  {
    var lo := TrimIsSlice(s);
  }

  /** PHP `array_map('trim', $pieces)`. */
  function TrimAll(pieces: seq<string>): (r: seq<string>)
    ensures |r| == |pieces|
    ensures forall i :: 0 <= i < |r| ==> r[i] == Trim(pieces[i])
  {
    seq(|pieces|, i requires 0 <= i < |pieces| => Trim(pieces[i]))
  }

  /** Position of the first occurrence of `d` in `s`. */
  function IndexOf(s: string, d: char): (i: nat)
    requires d in s
    ensures i < |s| && s[i] == d && d !in s[..i]
  {
    if s[0] == d then 0 else 1 + IndexOf(s[1..], d)
  }

  /** The pieces joined back together with `d` between consecutive ones. */
  function Join(pieces: seq<string>, d: char): string {
    if |pieces| <= 1 then (if pieces == [] then "" else pieces[0])
    else pieces[0] + [d] + Join(pieces[1..], d)
  }

  /**
    PHP `explode($d, $s)` for a one-character delimiter: `s` cut at every
    `d`. There is always at least one piece, no piece contains `d`, and
    joining the pieces with `d` gives back `s`.
   */
  function Explode(s: string, d: char): (r: seq<string>)
    ensures |r| >= 1
    ensures forall i :: 0 <= i < |r| ==> d !in r[i]
    ensures Join(r, d) == s
    decreases |s|
  {
    if d !in s then [s]
    else
      var i := IndexOf(s, d);
      var rest := Explode(s[i + 1..], d);
      assert s == s[..i] + [d] + s[i + 1..];
      [s[..i]] + rest
  }

  /**
    PHP `explode($d, $s, 2)`: `s` cut at its first `d` only. One piece
    (equal to `s`) when `d` does not occur, otherwise two, the first free of
    `d` and the second holding everything after that first `d`.
   */
  function ExplodeAtFirst(s: string, d: char): (r: seq<string>)
    ensures |r| == 1 || |r| == 2
    ensures |r| == 1 <==> d !in s
    ensures |r| == 1 ==> r[0] == s
    ensures |r| == 2 ==> d !in r[0] && r[0] + [d] + r[1] == s
  {
    if d !in s then [s]
    else
      var i := IndexOf(s, d);
      assert s == s[..i] + [d] + s[i + 1..];
      [s[..i], s[i + 1..]]
  }

  /** In `head + [d] + tail` with a `d`-free head, the first `d` sits right after the head. */
  lemma {:induction false} IndexOfAfterHead(head: string, d: char, tail: string)
    requires d !in head
    ensures IndexOf(head + [d] + tail, d) == |head|
  {
    if head != [] {
      assert (head + [d] + tail)[1..] == head[1..] + [d] + tail;
      IndexOfAfterHead(head[1..], d, tail);
    }
  }

  /** Cutting the join of `d`-free pieces at every `d` gives back those pieces. */
  lemma {:induction false} ExplodeJoin(pieces: seq<string>, d: char)
    requires |pieces| >= 1
    requires forall i :: 0 <= i < |pieces| ==> d !in pieces[i]
    ensures Explode(Join(pieces, d), d) == pieces
  {
    if |pieces| > 1 {
      var head, tail := pieces[0], Join(pieces[1..], d);
      var s := Join(pieces, d);
      assert s == head + [d] + tail;
      IndexOfAfterHead(head, d, tail);
      assert s[..|head|] == head && s[|head| + 1..] == tail;
      ExplodeJoin(pieces[1..], d);
      assert pieces == [head] + pieces[1..];
    }
  }

  /**
    With a limit of two, `explode` keeps the first piece of the unlimited
    split and leaves the rest of the string, later delimiters included, in
    the second piece.
   */
  lemma ExplodeAtFirstIsLimitTwo(s: string, d: char)
    ensures var all := Explode(s, d);
      ExplodeAtFirst(s, d) == if |all| == 1 then all else [all[0], Join(all[1..], d)]
  {
  }
}
