/**
 * The category mapping `neat_commits`: one list per key of
 * `VALID_CATEGORIES + ["Misc"]`, filled by the loop over the git log output.
 * `Bucket` is the mapping after a prefix of the lines; `ParsedCommits` and
 * `WithCategory` give an independent description of each list.
 */
module Buckets {
  import opened Wrappers
  import opened PyStr
  import opened Commits

  /** What the loop does with one line of git output: `rstrip("\n")`, then parse. */
  function ParseLine(categories: seq<string>, raw: string): Option<Commit> {
    ParseCommit(categories, RStrip(raw, {'\n'}))
  }

  /** Trailing newlines of a line of output do not reach `generate_commit`. */
  lemma ParseLineDropsNewlines(categories: seq<string>, line: string, newlines: string)
    requires AllIn(newlines, {'\n'})
    requires line == [] || line[|line| - 1] != '\n'
    ensures ParseLine(categories, line + newlines) == ParseCommit(categories, line)
  {
    RStripSuffix(line, newlines, {'\n'});
  }

  predicate Distinct(s: seq<string>) {
    forall i, j :: 0 <= i < j < |s| ==> s[i] != s[j]
  }

  /** `s` with later repeats dropped: the order in which a dict keeps keys. */
  function Dedup(s: seq<string>): (r: seq<string>)
    ensures Distinct(r)
    ensures forall x :: x in r <==> x in s
  {
    if s == [] then []
    else
      var d := Dedup(s[..|s| - 1]);
      assert forall x :: x in s <==> x in s[..|s| - 1] || x == s[|s| - 1];
      if s[|s| - 1] in d then d else d + [s[|s| - 1]]
  }

  /** `s.index(x)`, or `|s|` when `x` does not occur in `s`. */
  function FirstIndex(s: seq<string>, x: string): (i: nat)
    ensures i <= |s| && (i < |s| <==> x in s)
    ensures i < |s| ==> s[i] == x
    ensures forall k :: 0 <= k < i ==> s[k] != x
  {
    if s == [] || s[0] == x then 0 else FirstIndex(s[1..], x) + 1
  }

  /** Appending to `s` does not move the first occurrence of an element of `s`. */
  lemma FirstIndexPrefix(s: seq<string>, t: seq<string>, x: string)
    requires x in s
    ensures FirstIndex(s + t, x) == FirstIndex(s, x)
  {
    var i := FirstIndex(s, x);
    assert (s + t)[i] == x;
    assert forall k :: 0 <= k < i ==> (s + t)[k] == s[k];
  }

  /** `r` lists elements of `s` in the order of their first occurrence in `s`. */
  predicate InFirstOrder(s: seq<string>, r: seq<string>) {
    forall i, j :: 0 <= i < j < |r| ==> FirstIndex(s, r[i]) < FirstIndex(s, r[j])
  }

  /** `Dedup` keeps each element at its first occurrence, so it lists them in that order. */
  lemma {:induction false} DedupOrder(s: seq<string>)
    ensures InFirstOrder(s, Dedup(s))
  {
    if s != [] {
      var p, x := s[..|s| - 1], s[|s| - 1];
      assert s == p + [x];
      var d := Dedup(p);
      DedupOrder(p);
      forall y | y in d
        ensures FirstIndex(s, y) == FirstIndex(p, y) < |p|
      {
        FirstIndexPrefix(p, [x], y);
      }
      var r := Dedup(s);
      assert r == if x in d then d else d + [x];
      forall i, j | 0 <= i < j < |r|
        ensures FirstIndex(s, r[i]) < FirstIndex(s, r[j])
      {
        assert r[i] == d[i] && FirstIndex(s, d[i]) == FirstIndex(p, d[i]) < |p|;
        if j == |d| {
          assert r[j] == x && x !in p;
          assert FirstIndex(s, x) == |p|;
        } else {
          assert r[j] == d[j] && FirstIndex(s, d[j]) == FirstIndex(p, d[j]);
        }
      }
    }
  }

  /** The keys of `neat_commits` in the order `commit_hunter.py:117` inserts them. */
  function CategoryKeys(categories: seq<string>): (keys: seq<string>)
    ensures Distinct(keys)
    ensures forall k :: k in keys <==> k in CategorySet(categories)
    ensures InFirstOrder(categories + [Misc], keys)
  {
    DedupOrder(categories + [Misc]);
    Dedup(categories + [Misc])
  }

  /** `{key: [] for key in VALID_CATEGORIES + ["Misc"]}`: every key, each with no commits. */
  function EmptyBuckets(categories: seq<string>): (m: map<string, seq<Commit>>)
    ensures m.Keys == CategorySet(categories)
    ensures forall k :: k in m ==> m[k] == []
  {
    map k | k in categories + [Misc] :: []
  }

  /** The parse result of each line of output, in order. */
  function Parses(categories: seq<string>, lines: seq<string>): (ps: seq<Option<Commit>>)
    ensures |ps| == |lines|
    ensures Categorised(categories, ps)
  {
    if lines == [] then []
    else Parses(categories, lines[..|lines| - 1]) + [ParseLine(categories, lines[|lines| - 1])]
  }

  lemma {:induction false} ParsesIndex(categories: seq<string>, lines: seq<string>, i: nat)
    requires i < |lines|
    ensures Parses(categories, lines)[i] == ParseLine(categories, lines[i])
  {
    if i < |lines| - 1 {
      ParsesIndex(categories, lines[..|lines| - 1], i);
    }
  }

  /** Every commit among the parse results has a key in the mapping. */
  predicate Categorised(categories: seq<string>, ps: seq<Option<Commit>>) {
    forall j :: 0 <= j < |ps| && ps[j].Some? ==> ps[j].value.category in CategorySet(categories)
  }

  /** `neat_commits[c.category].append(c)` for a parsed commit; nothing for a failed line. */
  function AddCommit(m: map<string, seq<Commit>>, p: Option<Commit>): (m': map<string, seq<Commit>>)
    requires p.Some? ==> p.value.category in m
    ensures m'.Keys == m.Keys
  {
    if p.Some? then m[p.value.category := m[p.value.category] + [p.value]] else m
  }

  /** The mapping after the loop has appended the commits among `ps`, in order. */
  function BucketOf(categories: seq<string>, ps: seq<Option<Commit>>): (m: map<string, seq<Commit>>)
    requires Categorised(categories, ps)
    ensures m.Keys == CategorySet(categories)
  {
    if ps == [] then EmptyBuckets(categories)
    else AddCommit(BucketOf(categories, ps[..|ps| - 1]), ps[|ps| - 1])
  }

  /**
   * The mapping once the loop of `commit_hunter.py:132-136` has handled `lines`: each
   * commit parsed from a line is appended to the list of its category. The
   * lookup never misses, and the keys stay those of the initial mapping.
   */
  function Bucket(categories: seq<string>, lines: seq<string>): (m: map<string, seq<Commit>>)
    ensures m.Keys == CategorySet(categories)
  {
    BucketOf(categories, Parses(categories, lines))
  }

  /** The commits among the parse results, in order. */
  function Somes(ps: seq<Option<Commit>>): (cs: seq<Commit>)
    ensures |cs| <= |ps|
  {
    if ps == [] then [] else (if ps[0].Some? then [ps[0].value] else []) + Somes(ps[1..])
  }

  /** The commits the lines parse to, in input order; unparseable lines give none. */
  function ParsedCommits(categories: seq<string>, lines: seq<string>): seq<Commit> {
    Somes(Parses(categories, lines))
  }

  /** The commits of category `k`, in order. */
  function WithCategory(cs: seq<Commit>, k: string): (r: seq<Commit>)
    ensures |r| <= |cs|
    ensures forall i :: 0 <= i < |r| ==> r[i].category == k
  {
    if cs == [] then []
    else (if cs[0].category == k then [cs[0]] else []) + WithCategory(cs[1..], k)
  }

  /** The log entries written for the lines whose parse failed, in order. */
  function FailureLogOf(lines: seq<string>, ps: seq<Option<Commit>>): seq<string>
    requires |ps| == |lines|
  {
    if ps == [] then []
    else
      (if ps[0].None? then [ParseErrorEntry(RStrip(lines[0], {'\n'}))] else [])
      + FailureLogOf(lines[1..], ps[1..])
  }

  /** The log entries `generate_commit` writes for the unparseable lines, in order. */
  function FailureLog(categories: seq<string>, lines: seq<string>): seq<string> {
    FailureLogOf(lines, Parses(categories, lines))
  }

  lemma {:induction false} SomesAppend(ps: seq<Option<Commit>>, p: Option<Commit>)
    ensures Somes(ps + [p]) == Somes(ps) + (if p.Some? then [p.value] else [])
  {
    var last := if p.Some? then [p.value] else [];
    if ps == [] {
      assert [p][1..] == [];
      assert ps + [p] == [p];
      assert Somes([p]) == last + [];
      assert last + [] == last && [] + last == last;
    } else {
      var first := if ps[0].Some? then [ps[0].value] else [];
      assert (ps + [p])[1..] == ps[1..] + [p];
      SomesAppend(ps[1..], p);
      calc {
        Somes(ps + [p]);
        first + Somes(ps[1..] + [p]);
        first + (Somes(ps[1..]) + last);
        { Associative(first, Somes(ps[1..]), last); }
        first + Somes(ps[1..]) + last;
        Somes(ps) + last;
      }
    }
  }

  lemma {:induction false} FailureLogOfAppend(lines: seq<string>, ps: seq<Option<Commit>>, line: string, p: Option<Commit>)
    requires |ps| == |lines|
    ensures FailureLogOf(lines + [line], ps + [p]) ==
      FailureLogOf(lines, ps) + (if p.None? then [ParseErrorEntry(RStrip(line, {'\n'}))] else [])
  {
    if ps == [] {
      assert [line][1..] == [] && [p][1..] == [];
    } else {
      assert (lines + [line])[1..] == lines[1..] + [line];
      assert (ps + [p])[1..] == ps[1..] + [p];
      FailureLogOfAppend(lines[1..], ps[1..], line, p);
    }
  }

  /** One turn of the loop: the mapping and the failure log after the first `i + 1` lines. */
  lemma CollectStep(categories: seq<string>, lines: seq<string>, ps: seq<Option<Commit>>, i: nat)
    requires |ps| == |lines| && i < |ps|
    requires Categorised(categories, ps)
    ensures Categorised(categories, ps[..i]) && Categorised(categories, ps[..i + 1])
    ensures BucketOf(categories, ps[..i + 1]) == AddCommit(BucketOf(categories, ps[..i]), ps[i])
    ensures FailureLogOf(lines[..i + 1], ps[..i + 1]) ==
      FailureLogOf(lines[..i], ps[..i]) + (if ps[i].None? then [ParseErrorEntry(RStrip(lines[i], {'\n'}))] else [])
  {
    assert lines[..i + 1] == lines[..i] + [lines[i]];
    assert ps[..i + 1] == ps[..i] + [ps[i]];
    assert ps[..i + 1][..i] == ps[..i];
    FailureLogOfAppend(lines[..i], ps[..i], lines[i], ps[i]);
  }



  lemma {:induction false} WithCategoryAppend(a: seq<Commit>, b: seq<Commit>, k: string)
    ensures WithCategory(a + b, k) == WithCategory(a, k) + WithCategory(b, k)
  {
    if a != [] {
      assert (a + b)[1..] == a[1..] + b;
      WithCategoryAppend(a[1..], b, k);
    } else {
      assert a + b == b;
    }
  }

  /** Each list built from `ps` holds exactly the commits of its key, in order. */
  lemma {:induction false} BucketOfIsFilter(categories: seq<string>, ps: seq<Option<Commit>>, k: string)
    requires Categorised(categories, ps)
    requires k in CategorySet(categories)
    ensures BucketOf(categories, ps)[k] == WithCategory(Somes(ps), k)
  {
    if ps != [] {
      var init, p := ps[..|ps| - 1], ps[|ps| - 1];
      assert ps == init + [p];
      BucketOfIsFilter(categories, init, k);
      SomesAppend(init, p);
      var tail := if p.Some? then [p.value] else [];
      WithCategoryAppend(Somes(init), tail, k);
      if p.Some? {
        assert WithCategory([p.value], k) == (if p.value.category == k then [p.value] else []);
      }
    }
  }

  /**
   * Each list of the final mapping holds exactly the commits of its category,
   * in the order of the lines they came from; unparseable lines add nothing.
   */
  lemma BucketIsFilter(categories: seq<string>, lines: seq<string>, k: string)
    requires k in CategorySet(categories)
    ensures Bucket(categories, lines)[k] == WithCategory(ParsedCommits(categories, lines), k)
  {
    BucketOfIsFilter(categories, Parses(categories, lines), k);
  }

  lemma {:induction false} AccountedOf(lines: seq<string>, ps: seq<Option<Commit>>)
    requires |ps| == |lines|
    ensures |Somes(ps)| + |FailureLogOf(lines, ps)| == |ps|
  {
    if ps != [] {
      AccountedOf(lines[1..], ps[1..]);
    }
  }

  /** Every line either yields one commit or one log entry, never both. */
  lemma LinesAccountedFor(categories: seq<string>, lines: seq<string>)
    ensures |ParsedCommits(categories, lines)| + |FailureLog(categories, lines)| == |lines|
  {
    AccountedOf(lines, Parses(categories, lines));
  }

  /** Total length of the lists under `keys`. */
  function SumSizes(m: map<string, seq<Commit>>, keys: seq<string>): nat
    requires forall k :: k in keys ==> k in m
  {
    if keys == [] then 0 else |m[keys[0]]| + SumSizes(m, keys[1..])
  }

  lemma {:induction false} SumSizesEmpty(m: map<string, seq<Commit>>, keys: seq<string>)
    requires forall k :: k in keys ==> k in m && m[k] == []
    ensures SumSizes(m, keys) == 0
  {
    if keys != [] { SumSizesEmpty(m, keys[1..]); }
  }

  lemma {:induction false} SumSizesOther(m: map<string, seq<Commit>>, keys: seq<string>, c: string, v: seq<Commit>)
    requires forall k :: k in keys ==> k in m
    requires c !in keys
    ensures SumSizes(m[c := v], keys) == SumSizes(m, keys)
  {
    if keys != [] { SumSizesOther(m, keys[1..], c, v); }
  }

  /** Appending one commit to one list adds one to the total over distinct keys. */
  lemma {:induction false} SumSizesAppend(m: map<string, seq<Commit>>, keys: seq<string>, c: string, x: Commit)
    requires forall k :: k in keys ==> k in m
    requires Distinct(keys) && c in keys && c in m
    ensures SumSizes(m[c := m[c] + [x]], keys) == SumSizes(m, keys) + 1
  {
    if keys[0] == c {
      assert c !in keys[1..] by {
        forall j | 0 <= j < |keys[1..]| ensures keys[1..][j] != c { assert keys[1..][j] == keys[j + 1]; }
      }
      SumSizesOther(m, keys[1..], c, m[c] + [x]);
    } else {
      assert c in keys[1..] by {
        var j :| 0 <= j < |keys| && keys[j] == c;
        assert keys[1..][j - 1] == c;
      }
      SumSizesAppend(m, keys[1..], c, x);
    }
  }

  lemma {:induction false} TotalOf(categories: seq<string>, ps: seq<Option<Commit>>)
    requires Categorised(categories, ps)
    ensures SumSizes(BucketOf(categories, ps), CategoryKeys(categories)) == |Somes(ps)|
  {
    var keys := CategoryKeys(categories);
    if ps == [] {
      SumSizesEmpty(EmptyBuckets(categories), keys);
    } else {
      var init, p := ps[..|ps| - 1], ps[|ps| - 1];
      assert ps == init + [p];
      TotalOf(categories, init);
      SomesAppend(init, p);
      if p.Some? {
        SumSizesAppend(BucketOf(categories, init), keys, p.value.category, p.value);
      }
    }
  }

  /**
   * The lists of the final mapping together hold one commit per line that
   * parsed: the sum of their lengths is the number of parsed commits.
   */
  lemma TotalBucketed(categories: seq<string>, lines: seq<string>)
    ensures SumSizes(Bucket(categories, lines), CategoryKeys(categories)) == |ParsedCommits(categories, lines)|
  {
    TotalOf(categories, Parses(categories, lines));
  }
}
