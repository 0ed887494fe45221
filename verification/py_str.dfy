/**
 * The Python `str` built-ins the commit hunter relies on, over Dafny strings:
 * `s.split(sep, maxsplit)` with a one-character separator, `s.strip(chars)`,
 * `s.rstrip(chars)` and the whitespace-splitting `s.split()`.
 */
module PyStr {

  /** Every character of `s` is in `cs`. */
  predicate AllIn(s: string, cs: set<char>) {
    forall k :: 0 <= k < |s| ==> s[k] in cs
  }

  /** No character of `s` is in `cs`. */
  predicate NoneIn(s: string, cs: set<char>) {
    forall k :: 0 <= k < |s| ==> s[k] !in cs
  }

  /** Number of occurrences of `c` in `s`. */
  function Occurrences(s: string, c: char): (n: nat)
    ensures n <= |s|
  {
    if s == [] then 0 else (if s[0] == c then 1 else 0) + Occurrences(s[1..], c)
  }

  /** `c` occurs zero times exactly when it is not in `s`. */
  lemma {:induction false} OccurrencesZero(s: string, c: char)
    ensures Occurrences(s, c) == 0 <==> c !in s
  {
    if s != [] {
      OccurrencesZero(s[1..], c);
      assert c in s <==> s[0] == c || c in s[1..];
    }
  }

  lemma {:induction false} OccurrencesAppend(a: string, b: string, c: char)
    ensures Occurrences(a + b, c) == Occurrences(a, c) + Occurrences(b, c)
  {
    if a != [] {
      assert (a + b)[1..] == a[1..] + b;
      OccurrencesAppend(a[1..], b, c);
    } else {
      assert a + b == b;
    }
  }

  /** Index of the first `c` in `s`, or `|s|` when there is none. */
  function IndexOf(s: string, c: char): (i: nat)
    ensures i <= |s|
  {
    if s == [] || s[0] == c then 0 else IndexOf(s[1..], c) + 1
  }

  /** The index found is that of the first `c`, or `|s|` when there is none. */
  lemma {:induction false} IndexOfSpec(s: string, c: char)
    ensures var i := IndexOf(s, c);
      && (forall k :: 0 <= k < i ==> s[k] != c)
      && (i < |s| ==> s[i] == c)
  {
    if s != [] && s[0] != c {
      IndexOfSpec(s[1..], c);
      var j := IndexOf(s[1..], c);
      assert forall k :: 1 <= k < j + 1 ==> s[k] == s[1..][k - 1];
    }
  }

  lemma {:induction false} IndexOfFirst(a: string, c: char, b: string)
    requires c !in a
    ensures IndexOf(a + [c] + b, c) == |a|
  {
    if a != [] {
      assert (a + [c] + b)[1..] == a[1..] + [c] + b;
      IndexOfFirst(a[1..], c, b);
    }
  }

  lemma Associative<T>(a: seq<T>, b: seq<T>, c: seq<T>)
    ensures a + b + c == a + (b + c)
  {
  }

  /** The parts joined back together, `sep.join(parts)` in Python. */
  function Join(parts: seq<string>, sep: char): string {
    if parts == [] then ""
    else if |parts| == 1 then parts[0]
    else parts[0] + [sep] + Join(parts[1..], sep)
  }

  lemma JoinThree(parts: seq<string>, sep: char)
    requires |parts| == 3
    ensures Join(parts, sep) == parts[0] + [sep] + parts[1] + [sep] + parts[2]
  {
    assert parts[1..][1..] == [parts[2]];
    assert Join(parts[1..], sep) == parts[1] + [sep] + parts[2];
    assert Join(parts, sep) == parts[0] + [sep] + (parts[1] + [sep] + parts[2]);
  }

  function Min(a: nat, b: nat): nat { if a <= b then a else b }

  /** `s.split(sep, maxsplit)`: split at the first `maxsplit` occurrences of `sep`, keeping empty parts. */
  function Split(s: string, sep: char, maxsplit: nat): seq<string>
    decreases maxsplit
  {
    var i := IndexOf(s, sep);
    if maxsplit == 0 || i == |s| then [s]
    else [s[..i]] + Split(s[i + 1..], sep, maxsplit - 1)
  }

  /** A split made at the first `sep`: the part before it, then a split of the rest. */
  lemma SplitStep(s: string, sep: char, maxsplit: nat)
    requires maxsplit > 0 && IndexOf(s, sep) < |s|
    ensures var i := IndexOf(s, sep);
      && Split(s, sep, maxsplit) == [s[..i]] + Split(s[i + 1..], sep, maxsplit - 1)
      && s == s[..i] + [sep] + s[i + 1..]
      && sep !in s[..i]
  {
    var i := IndexOf(s, sep);
    IndexOfSpec(s, sep);
    assert s == s[..i] + [sep] + s[i + 1..];
  }

  /** The first `sep` of `s` counts once; the rest come after it. */
  lemma OccurrencesAtFirst(s: string, sep: char, i: nat)
    requires i < |s| && s == s[..i] + [sep] + s[i + 1..] && sep !in s[..i]
    ensures Occurrences(s, sep) == 1 + Occurrences(s[i + 1..], sep)
  {
    OccurrencesAppend(s[..i] + [sep], s[i + 1..], sep);
    OccurrencesAppend(s[..i], [sep], sep);
    OccurrencesZero(s[..i], sep);
    assert [sep][1..] == [];
  }

  /** There is one part per split made, plus one: at most `maxsplit` splits, one per `sep`. */
  lemma {:induction false} SplitLength(s: string, sep: char, maxsplit: nat)
    ensures |Split(s, sep, maxsplit)| == Min(maxsplit, Occurrences(s, sep)) + 1
    decreases maxsplit
  {
    var i := IndexOf(s, sep);
    if i == |s| {
      IndexOfSpec(s, sep);
      assert sep !in s;
      OccurrencesZero(s, sep);
    } else if maxsplit > 0 {
      SplitStep(s, sep, maxsplit);
      SplitLength(s[i + 1..], sep, maxsplit - 1);
      OccurrencesAtFirst(s, sep, i);
    }
  }

  /** Joining the parts of a split with `sep` gives `s` back. */
  lemma {:induction false} SplitJoin(s: string, sep: char, maxsplit: nat)
    ensures Join(Split(s, sep, maxsplit), sep) == s
    decreases maxsplit
  {
    var i := IndexOf(s, sep);
    if i < |s| && maxsplit > 0 {
      SplitStep(s, sep, maxsplit);
      SplitJoin(s[i + 1..], sep, maxsplit - 1);
      var rest := Split(s[i + 1..], sep, maxsplit - 1);
      var parts := [s[..i]] + rest;
      assert rest != [];
      assert parts[0] == s[..i] && parts[1..] == rest;
      assert Join(parts, sep) == s[..i] + [sep] + Join(rest, sep);
    }
  }

  /** Putting a `sep`-free part in front keeps all parts but the last `sep`-free. */
  lemma ConsFreeParts(first: string, rest: seq<string>, sep: char)
    requires sep !in first
    requires forall j :: 0 <= j < |rest| - 1 ==> sep !in rest[j]
    ensures forall j :: 0 <= j < |[first] + rest| - 1 ==> sep !in ([first] + rest)[j]
  {
    forall j | 0 < j < |[first] + rest| - 1 ensures sep !in ([first] + rest)[j] {
      assert ([first] + rest)[j] == rest[j - 1];
    }
  }

  /** Every part of a split but the last is free of `sep`. */
  lemma {:induction false} SplitParts(s: string, sep: char, maxsplit: nat)
    ensures var parts := Split(s, sep, maxsplit);
      forall j :: 0 <= j < |parts| - 1 ==> sep !in parts[j]
    decreases maxsplit
  {
    var i := IndexOf(s, sep);
    if i < |s| && maxsplit > 0 {
      SplitStep(s, sep, maxsplit);
      SplitParts(s[i + 1..], sep, maxsplit - 1);
      ConsFreeParts(s[..i], Split(s[i + 1..], sep, maxsplit - 1), sep);
    }
  }

  /** `s.lstrip(cs)`: drop the longest prefix made of characters in `cs`. */
  function LStrip(s: string, cs: set<char>): (r: string)
    ensures |r| <= |s|
  {
    if s != [] && s[0] in cs then LStrip(s[1..], cs) else s
  }

  /** `lstrip` keeps a suffix, drops only characters of `cs`, and stops at one outside `cs`. */
  lemma {:induction false} LStripSpec(s: string, cs: set<char>)
    ensures var r := LStrip(s, cs);
      && r == s[|s| - |r|..]
      && AllIn(s[..|s| - |r|], cs)
      && (r == [] || r[0] !in cs)
  {
    if s != [] && s[0] in cs {
      LStripSpec(s[1..], cs);
      var r := LStrip(s[1..], cs);
      assert s[..|s| - |r|] == [s[0]] + s[1..][..|s| - 1 - |r|];
      assert s[1..][|s| - 1 - |r|..] == s[|s| - |r|..];
    } else {
      assert s[|s| - |s|..] == s;
    }
  }

  /** `s.rstrip(cs)`: drop the longest suffix made of characters in `cs`. */
  function RStrip(s: string, cs: set<char>): (r: string)
    ensures |r| <= |s|
  {
    if s != [] && s[|s| - 1] in cs then RStrip(s[..|s| - 1], cs) else s
  }

  /** `rstrip` keeps a prefix, drops only characters of `cs`, and stops at one outside `cs`. */
  lemma {:induction false} RStripSpec(s: string, cs: set<char>)
    ensures var r := RStrip(s, cs);
      && r == s[..|r|]
      && AllIn(s[|r|..], cs)
      && (r == [] || r[|r| - 1] !in cs)
  {
    if s != [] && s[|s| - 1] in cs {
      RStripSpec(s[..|s| - 1], cs);
      var r := RStrip(s[..|s| - 1], cs);
      assert s[|r|..] == s[..|s| - 1][|r|..] + [s[|s| - 1]];
      assert s[..|s| - 1][..|r|] == s[..|r|];
    } else {
      assert s[..|s|] == s;
    }
  }

  /**
   * `s.strip(cs)` as a split of `s` into three parts: the prefix `lstrip`
   * drops, the kept core, and the suffix `rstrip` then drops.
   */
  function StripParts(s: string, cs: set<char>): (string, string, string) {
    var l := LStrip(s, cs);
    var r := RStrip(l, cs);
    (s[..|s| - |l|], r, l[|r|..])
  }

  lemma Halves<T>(s: seq<T>, k: nat)
    requires k <= |s|
    ensures s == s[..k] + s[k..]
  {
  }

  /** The three parts of `StripParts` put back together give `s`. */
  lemma StripPartsJoin(s: string, cs: set<char>)
    ensures var parts := StripParts(s, cs);
      s == parts.0 + parts.1 + parts.2
  {
    var l := LStrip(s, cs);
    LStripSpec(s, cs);
    var r := RStrip(l, cs);
    RStripSpec(l, cs);
    var k := |s| - |l|;
    assert l == s[k..] && r == l[..|r|];
    Halves(s, k);
    Halves(l, |r|);
    Associative(s[..k], r, l[|r|..]);
  }

  /** The prefix and suffix of `StripParts` come from `cs`; the core's ends do not. */
  lemma StripPartsEnds(s: string, cs: set<char>)
    ensures var parts := StripParts(s, cs);
      && AllIn(parts.0, cs) && AllIn(parts.2, cs)
      && (parts.1 == [] || (parts.1[0] !in cs && parts.1[|parts.1| - 1] !in cs))
  {
    var l := LStrip(s, cs);
    LStripSpec(s, cs);
    var r := RStrip(l, cs);
    RStripSpec(l, cs);
    if r != [] {
      assert r[0] == l[0] && l[0] !in cs;
    }
  }

  /**
   * The split is exact: a prefix and a suffix made only of characters in
   * `cs`, and between them the core, neither of whose ends is in `cs`.
   */
  lemma StripPartsSpec(s: string, cs: set<char>)
    ensures var parts := StripParts(s, cs);
      && s == parts.0 + parts.1 + parts.2
      && AllIn(parts.0, cs) && AllIn(parts.2, cs)
      && (parts.1 == [] || (parts.1[0] !in cs && parts.1[|parts.1| - 1] !in cs))
  {
    StripPartsJoin(s, cs);
    StripPartsEnds(s, cs);
  }

  /** `s.strip(cs)`: the core of `StripParts`. */
  function Strip(s: string, cs: set<char>): string {
    StripParts(s, cs).1
  }

  /** `lstrip` removes a prefix from `cs` and stops at the first character outside it. */
  lemma {:induction false} LStripPrefix(pre: string, t: string, cs: set<char>)
    requires AllIn(pre, cs)
    requires t == [] || t[0] !in cs
    ensures LStrip(pre + t, cs) == t
  {
    if pre == [] {
      assert pre + t == t;
    } else {
      assert (pre + t)[1..] == pre[1..] + t;
      LStripPrefix(pre[1..], t, cs);
    }
  }

  /** `rstrip` removes a suffix from `cs` and stops at the last character outside it. */
  lemma {:induction false} RStripSuffix(t: string, post: string, cs: set<char>)
    requires AllIn(post, cs)
    requires t == [] || t[|t| - 1] !in cs
    ensures RStrip(t + post, cs) == t
  {
    if post == [] {
      assert t + post == t;
    } else {
      var p := post[..|post| - 1];
      assert (t + post)[..|t + post| - 1] == t + p;
      RStripSuffix(t, p, cs);
    }
  }

  /**
   * The strip of `s` is the only core with both properties: any split of `s`
   * into a prefix and a suffix from `cs` around a core whose ends are not in
   * `cs` has that core as `Strip(s, cs)`.
   */
  lemma StripUnique(pre: string, core: string, post: string, cs: set<char>)
    requires AllIn(pre, cs) && AllIn(post, cs)
    requires core == [] || (core[0] !in cs && core[|core| - 1] !in cs)
    ensures Strip(pre + core + post, cs) == core
  {
    if core == [] {
      assert pre + core + post == pre + post;
      assert AllIn(pre + post, cs) by {
        forall k | 0 <= k < |pre + post| ensures (pre + post)[k] in cs {
          if k < |pre| { assert (pre + post)[k] == pre[k]; }
          else { assert (pre + post)[k] == post[k - |pre|]; }
        }
      }
      LStripPrefix(pre + post, [], cs);
      assert pre + post + [] == pre + post;
    } else {
      assert pre + core + post == pre + (core + post);
      LStripPrefix(pre, core + post, cs);
      RStripSuffix(core, post, cs);
    }
  }

  /** Python's `str.isspace` characters: those `s.split()` splits on. */
  const Whitespace: set<char> := {
    '\t', '\n', '\U{B}', '\U{C}', '\r', '\U{1C}', '\U{1D}', '\U{1E}', '\U{1F}', ' ',
    '\U{85}', '\U{A0}', '\U{1680}',
    '\U{2000}', '\U{2001}', '\U{2002}', '\U{2003}', '\U{2004}', '\U{2005}',
    '\U{2006}', '\U{2007}', '\U{2008}', '\U{2009}', '\U{200A}',
    '\U{2028}', '\U{2029}', '\U{202F}', '\U{205F}', '\U{3000}'
  }

  /** The longest prefix of `s` with no character of `cs`. */
  function TakeUntil(s: string, cs: set<char>): (r: string)
    ensures |r| <= |s| && r == s[..|r|]
    ensures NoneIn(r, cs)
    ensures |r| == |s| || s[|r|] in cs
  {
    if s == [] || s[0] in cs then []
    else
      var r := TakeUntil(s[1..], cs);
      assert [s[0]] + r == s[..|r| + 1];
      [s[0]] + r
  }

  /** `s` with its whitespace characters removed. */
  function NonWhitespace(s: string): string {
    if s == [] then []
    else (if s[0] in Whitespace then [] else [s[0]]) + NonWhitespace(s[1..])
  }

  lemma {:induction false} NonWhitespaceAppend(a: string, b: string)
    ensures NonWhitespace(a + b) == NonWhitespace(a) + NonWhitespace(b)
  {
    if a != [] {
      assert (a + b)[1..] == a[1..] + b;
      NonWhitespaceAppend(a[1..], b);
    } else {
      assert a + b == b;
    }
  }

  lemma {:induction false} NonWhitespaceOfAllIn(s: string)
    requires AllIn(s, Whitespace)
    ensures NonWhitespace(s) == []
  {
    if s != [] { NonWhitespaceOfAllIn(s[1..]); }
  }

  lemma {:induction false} NonWhitespaceOfNoneIn(s: string)
    requires NoneIn(s, Whitespace)
    ensures NonWhitespace(s) == s
  {
    if s != [] { NonWhitespaceOfNoneIn(s[1..]); }
  }

  function Concat(words: seq<string>): string {
    if words == [] then [] else words[0] + Concat(words[1..])
  }

  /**
   * `s.split()`: the maximal runs of non-whitespace characters, in order.
   * Every word is non-empty and whitespace-free, and together the words hold
   * exactly the non-whitespace characters of `s`; there are none exactly when
   * `s` is all whitespace.
   */
  function SplitWhitespace(s: string): (words: seq<string>)
    ensures forall i :: 0 <= i < |words| ==> words[i] != [] && NoneIn(words[i], Whitespace)
    ensures Concat(words) == NonWhitespace(s)
    ensures words == [] <==> AllIn(s, Whitespace)
    decreases |s|
  {
    if s == [] then []
    else if s[0] in Whitespace then
      var words := SplitWhitespace(s[1..]);
      assert AllIn(s[1..], Whitespace) ==> AllIn(s, Whitespace) by {
        if AllIn(s[1..], Whitespace) {
          forall k | 1 <= k < |s| ensures s[k] in Whitespace { assert s[k] == s[1..][k - 1]; }
        }
      }
      words
    else
      var w := TakeUntil(s, Whitespace);
      var rest := SplitWhitespace(s[|w|..]);
      assert s == w + s[|w|..];
      NonWhitespaceAppend(w, s[|w|..]);
      NonWhitespaceOfNoneIn(w);
      assert ([w] + rest)[1..] == rest;
      [w] + rest
  }

  /** A whitespace-free run followed by whitespace or nothing is taken whole. */
  lemma {:induction false} TakeUntilWord(w: string, rest: string, cs: set<char>)
    requires NoneIn(w, cs)
    requires rest == [] || rest[0] in cs
    ensures TakeUntil(w + rest, cs) == w
  {
    if w == [] {
      assert w + rest == rest;
    } else {
      assert (w + rest)[1..] == w[1..] + rest;
      TakeUntilWord(w[1..], rest, cs);
    }
  }

  /**
   * The first word of `s.split()` is the first run of non-whitespace characters:
   * it is preceded by whitespace only and followed by whitespace or nothing.
   */
  lemma {:induction false} FirstWord(pre: string, w: string, rest: string)
    requires AllIn(pre, Whitespace)
    requires w != [] && NoneIn(w, Whitespace)
    requires rest == [] || rest[0] in Whitespace
    ensures SplitWhitespace(pre + w + rest) != []
    ensures SplitWhitespace(pre + w + rest)[0] == w
  {
    if pre == [] {
      assert pre + w + rest == w + rest;
      TakeUntilWord(w, rest, Whitespace);
    } else {
      assert (pre + w + rest)[1..] == pre[1..] + w + rest;
      FirstWord(pre[1..], w, rest);
    }
  }
}
