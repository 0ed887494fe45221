/**
 * The commit record and `generate_commit`: one line of
 * `git log --pretty=oneline --abbrev-commit` becomes a commit, or nothing when
 * the line has fewer than three space-separated fields.
 */
module Commits {
  import opened Wrappers
  import opened PyStr
  import PyRepr

  /** A parsed commit; `hash` is the abbreviated hash git printed. */
  datatype Commit = Commit(category: string, hash: string, message: string)

  /** The category given to commits whose tag is not a valid category. */
  const Misc: string := "Misc"

  /** The characters `category.strip("[]")` removes from the ends of a tag. */
  const Brackets: set<char> := {'[', ']'}

  /** The keys of the category mapping: the valid categories and `Misc`. */
  function CategorySet(categories: seq<string>): set<string> {
    (set c | c in categories) + {Misc}
  }

  /**
   * `generate_commit(line)` with `VALID_CATEGORIES` given as `categories`.
   * The line is split at its first two spaces into hash, tag and rest; a line
   * with fewer than two spaces gives `None`. When the tag with its enclosing
   * brackets stripped is a valid category, that is the category and the rest is
   * the message. Otherwise the category is `Misc` and the tag, brackets and
   * all, is put back in front of the message, so hash, a space and the message
   * give the line back.
   */
  function ParseCommit(categories: seq<string>, line: string): (r: Option<Commit>)
    ensures r.Some? <==> Occurrences(line, ' ') >= 2
    ensures r.Some? ==> r.value.category in CategorySet(categories)
    ensures r.Some? ==> ' ' !in r.value.hash && |r.value.hash| < |line|
    ensures r.Some? ==> line[..|r.value.hash|] == r.value.hash && line[|r.value.hash|] == ' '
    ensures r.Some? && r.value.category !in categories ==> r.value.hash + " " + r.value.message == line
  {
    var fields := Split(line, ' ', 2);
    SplitLength(line, ' ', 2);
    if |fields| != 3 then None
    else
      var hash, tag, rest := fields[0], fields[1], fields[2];
      ThreeFields(line);
      // on the valid path `commit_hunter.py:78` strips the tag itself (line 73
      // only tests it); on the `Misc` path it strips "Misc", a no-op (`MiscUnstripped`)
      if Strip(tag, Brackets) in categories then
        Some(Commit(Strip(tag, Brackets), hash, rest))
      else
        var category := Strip(Misc, Brackets);
        assert category == Misc by { MiscUnstripped(); }
        Some(Commit(category, hash, tag + " " + rest))
  }

  /** The three fields of a line that splits into three. */
  lemma ThreeFields(line: string)
    requires |Split(line, ' ', 2)| == 3
    ensures var f := Split(line, ' ', 2);
      && ' ' !in f[0] && ' ' !in f[1]
      && line == f[0] + " " + (f[1] + " " + f[2])
      && line[..|f[0]|] == f[0] && line[|f[0]|] == ' '
  {
    var f := Split(line, ' ', 2);
    SplitJoin(line, ' ', 2);
    SplitParts(line, ' ', 2);
    JoinThree(f, ' ');
    assert " " == [' '];
    Associative(f[0] + " ", f[1], " ");
    Associative(f[0] + " ", f[1] + " ", f[2]);
  }

  lemma MiscUnstripped()
    ensures Strip(Misc, Brackets) == Misc
  {
    StripUnique([], Misc, [], Brackets);
    assert [] + Misc + [] == Misc;
  }

  /** Splitting at the first two spaces recovers the three fields. */
  lemma {:induction false} SplitFields(line: string, hash: string, tag: string, rest: string)
    requires ' ' !in hash && ' ' !in tag
    requires line == hash + " " + tag + " " + rest
    ensures Split(line, ' ', 2) == [hash, tag, rest]
  {
    var tail := tag + [' '] + rest;
    assert line == hash + [' '] + tail;
    IndexOfFirst(hash, ' ', tail);
    assert line[..|hash|] == hash && line[|hash| + 1..] == tail;
    assert Split(line, ' ', 2) == [hash] + Split(tail, ' ', 1);
    IndexOfFirst(tag, ' ', rest);
    assert tail[..|tag|] == tag && tail[|tag| + 1..] == rest;
    assert Split(tail, ' ', 1) == [tag] + Split(rest, ' ', 0);
    assert Split(rest, ' ', 0) == [rest];
    assert [hash] + ([tag] + [rest]) == [hash, tag, rest];
  }

  /** Every line with two spaces is a hash, a space, a tag, a space and a rest. */
  lemma LineFields(line: string) returns (hash: string, tag: string, rest: string)
    requires Occurrences(line, ' ') >= 2
    ensures ' ' !in hash && ' ' !in tag
    ensures line == hash + " " + tag + " " + rest
  {
    SplitLength(line, ' ', 2);
    var f := Split(line, ' ', 2);
    SplitJoin(line, ' ', 2);
    SplitParts(line, ' ', 2);
    JoinThree(f, ' ');
    hash, tag, rest := f[0], f[1], f[2];
    assert " " == [' '];
  }

  /**
   * A line made of a hash, a space, a tag, a space and a rest parses by the
   * tag: a valid category once its brackets are stripped, or `Misc` with the
   * tag kept at the front of the message.
   */
  lemma ParseFields(categories: seq<string>, line: string, hash: string, tag: string, rest: string)
    requires ' ' !in hash && ' ' !in tag
    requires line == hash + " " + tag + " " + rest
    ensures ParseCommit(categories, line) ==
      if Strip(tag, Brackets) in categories then Some(Commit(Strip(tag, Brackets), hash, rest))
      else Some(Commit(Misc, hash, tag + " " + rest))
  {
    SplitFields(line, hash, tag, rest);
    if Strip(tag, Brackets) !in categories {
      MiscUnstripped();
    }
  }

  /** `<hash> [<category>] <message>` with a valid category gives exactly that commit. */
  lemma TaggedLine(categories: seq<string>, line: string, hash: string, category: string, message: string)
    requires ' ' !in hash && ' ' !in category
    requires category in categories
    requires category == [] || (category[0] !in Brackets && category[|category| - 1] !in Brackets)
    requires line == hash + " [" + category + "] " + message
    ensures ParseCommit(categories, line) == Some(Commit(category, hash, message))
  {
    var tag := "[" + category + "]";
    StripUnique("[", category, "]", Brackets);
    assert line == hash + " " + tag + " " + message;
    ParseFields(categories, line, hash, tag, message);
  }

  /** The log entry `generate_commit` writes for a line it cannot parse. */
  const ParseErrorPrefix: string := "The following string caused an ERROR: "

  function ParseErrorEntry(line: string): string {
    ParseErrorPrefix + PyRepr.Repr(line)
  }

  /** The line a parse-error log entry names, read back from the entry. */
  function LineOfParseError(entry: string): Option<string> {
    if |ParseErrorPrefix| <= |entry| && entry[..|ParseErrorPrefix|] == ParseErrorPrefix then
      PyRepr.Unrepr(entry[|ParseErrorPrefix|..])
    else None
  }

  /** A parse-error log entry identifies the failing line exactly. */
  lemma ParseErrorNamesLine(line: string)
    ensures LineOfParseError(ParseErrorEntry(line)) == Some(line)
  {
    var entry := ParseErrorEntry(line);
    assert entry[..|ParseErrorPrefix|] == ParseErrorPrefix;
    assert entry[|ParseErrorPrefix|..] == PyRepr.Repr(line);
    PyRepr.UnreprRepr(line);
  }
}
