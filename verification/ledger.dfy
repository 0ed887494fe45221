/**
 * The ledger file `ledger.txt`, which holds the abbreviated hash of the HEAD
 * commit the last published patch notes reached. Its contents are `None` when
 * the file does not exist.
 */
module Ledger {
  import opened Wrappers
  import opened PyStr

  /** Line endings recognised by `readline()` on a file opened in text mode. */
  const LineBreaks: set<char> := {'\n', '\r'}

  /**
   * The first line of `contents` as `readline()` reads it, without its line
   * ending (which `split()` would drop anyway).
   */
  function FirstLine(contents: string): (line: string)
    ensures |line| <= |contents| && line == contents[..|line|]
    ensures NoneIn(line, LineBreaks)
    ensures |line| == |contents| || contents[|line|] in LineBreaks
  {
    TakeUntil(contents, LineBreaks)
  }

  /** The log entry written when the ledger cannot be read. */
  const LedgerErrorEntry: string := "ERROR when reading commit ledger"

  /**
   * `get_previous_head_commit()`: the first whitespace-separated word of the
   * ledger's first line. `None` when the file is missing (`open` raises) or the
   * first line holds only whitespace (`split()[0]` raises); the answer, when
   * there is one, is a non-empty word without whitespace.
   */
  function PreviousHeadCommit(ledger: Option<string>): (head: Option<string>)
    ensures head.Some? ==> head.value != [] && NoneIn(head.value, Whitespace)
    ensures head.None? <==> ledger.None? || AllIn(FirstLine(ledger.value), Whitespace)
  {
    match ledger
    case None => None
    case Some(contents) =>
      var words := SplitWhitespace(FirstLine(contents));
      if words == [] then None else Some(words[0])
  }

  lemma {:induction false} TakeUntilPast(a: string, b: string, cs: set<char>)
    requires NoneIn(a, cs)
    ensures TakeUntil(a + b, cs) == a + TakeUntil(b, cs)
  {
    if a == [] {
      assert a + b == b;
    } else {
      assert (a + b)[1..] == a[1..] + b;
      TakeUntilPast(a[1..], b, cs);
    }
  }

  /**
   * A ledger whose first line starts with blanks (no line break), then a word,
   * then whitespace or nothing, names that word.
   */
  lemma PreviousHeadIsFirstWord(pre: string, head: string, rest: string)
    requires AllIn(pre, Whitespace - LineBreaks)
    requires head != [] && NoneIn(head, Whitespace)
    requires rest == [] || rest[0] in Whitespace
    ensures PreviousHeadCommit(Some(pre + head + rest)) == Some(head)
  {
    assert NoneIn(pre + head, LineBreaks);
    assert pre + head + rest == (pre + head) + rest;
    TakeUntilPast(pre + head, rest, LineBreaks);
    var tail := FirstLine(rest);
    assert tail == [] || tail[0] == rest[0];
    FirstWord(pre, head, tail);
  }

  /**
   * What `update_previous_head_commit` writes is what the next run reads: the
   * output of `git rev-parse --short HEAD` with its trailing newlines removed,
   * read back, gives the hash.
   */
  lemma MarkerRoundTrip(revParseOutput: string, head: string, newlines: string)
    requires head != [] && NoneIn(head, Whitespace)
    requires AllIn(newlines, {'\n'})
    requires revParseOutput == head + newlines
    ensures PreviousHeadCommit(Some(RStrip(revParseOutput, {'\n'}))) == Some(head)
  {
    RStripSuffix(head, newlines, {'\n'});
    PreviousHeadIsFirstWord([], head, []);
    assert [] + head + [] == head;
  }
}
