/**
 * The commit hunter script as a whole: the persisted ledger and patch notes,
 * the `neat_commits` mapping it fills, and its log file, updated in the order
 * the script runs. The git calls are inputs: the lines of
 * `git log --pretty=oneline --abbrev-commit <ledger>..HEAD` (or its failure)
 * and the output of `git rev-parse --short HEAD`; so is the point, if any, at
 * which an exception interrupts the writes at the end of the run.
 */
module Hunter {
  import opened Wrappers
  import opened PyStr
  import opened Commits
  import opened Buckets
  import opened Ledger

  /**
   * How a run ends: early on an empty log, by the exception `sh` raises when
   * `git log` exits non-zero, by an exception while writing the patch notes or
   * the ledger, or having published.
   */
  datatype Outcome = NoNewCommits | GitLogFailed | Crashed | Published

  /** The runs that reach the loop over the git log output. */
  predicate Collected(outcome: Outcome) {
    outcome.Crashed? || outcome.Published?
  }

  /** Where an exception interrupts the writes at the end of a run, if anywhere. */
  datatype Failure =
    | NoFailure
      /** `os.makedirs` or `open(…, "wb")` raises (`commit_hunter.py:144-152`). */
    | BeforeNotesOpen
      /** `pickle.dump` or `close` raises after `open` truncated the file (`commit_hunter.py:153-154`). */
    | AfterNotesOpen
      /** `git rev-parse` raises, or `open(…, "w")` raises before truncating the ledger (`commit_hunter.py:99-100`). */
    | AtRevParse
      /** The write or `close` raises after `open` truncated the ledger (`commit_hunter.py:100-102`). */
    | AfterLedgerOpen

  /** The day's patch notes file: not there, truncated by a failed write, or holding the pickled mapping. */
  datatype PatchFile = Absent | Damaged | Pickled(notes: map<string, seq<Commit>>)

  /** The log entry written when git reports no new commits. */
  const NoNewCommitsEntry: string := "No new commits. Cancelling patch notes generation"

  /** The log output is empty (and the script stops) exactly when all of its lines are. */
  lemma {:induction false} EmptyOutput(lines: seq<string>)
    ensures Concat(lines) == [] <==> forall i :: 0 <= i < |lines| ==> lines[i] == []
  {
    if lines != [] {
      EmptyOutput(lines[1..]);
      assert forall i :: 1 <= i < |lines| ==> lines[i] == lines[1..][i - 1];
    }
  }

  class CommitHunter {
    /** `VALID_CATEGORIES`. */
    const categories: seq<string>
    /** The contents of the ledger file; `None` while it does not exist. */
    var ledger: Option<string>
    /** The day's patch notes file. */
    var patchNotes: PatchFile
    /** `neat_commits`. */
    var neatCommits: map<string, seq<Commit>>
    /** The entries written to the log file since it was truncated. */
    ghost var log: seq<string>

    constructor (categories: seq<string>, ledger: Option<string>, patchNotes: PatchFile)
      ensures this.categories == categories && this.ledger == ledger && this.patchNotes == patchNotes
      ensures neatCommits == EmptyBuckets(categories) && log == []
    {
      this.categories := categories;
      this.ledger := ledger;
      this.patchNotes := patchNotes;
      neatCommits := EmptyBuckets(categories);
      log := [];
    }

    /** `generate_commit`: parse one line, logging it when it cannot be parsed. */
    method GenerateCommit(line: string) returns (c: Option<Commit>)
      modifies this`log
      ensures c == ParseCommit(categories, line)
      ensures log == old(log) + (if c.None? then [ParseErrorEntry(line)] else [])
    {
      c := ParseCommit(categories, line);
      if c.None? {
        log := log + [ParseErrorEntry(line)];
      }
    }

    /** `get_previous_head_commit`: read the ledger, logging when it cannot be read. */
    method GetPreviousHeadCommit() returns (head: Option<string>)
      modifies this`log
      ensures head == PreviousHeadCommit(ledger)
      ensures log == old(log) + (if head.None? then [LedgerErrorEntry] else [])
    {
      head := PreviousHeadCommit(ledger);
      if head.None? {
        log := log + [LedgerErrorEntry];
      }
    }

    /** `update_previous_head_commit`: overwrite the ledger with the current HEAD. */
    method UpdatePreviousHeadCommit(revParseOutput: string)
      modifies this`ledger
      ensures ledger == Some(RStrip(revParseOutput, {'\n'}))
    {
      ledger := Some(RStrip(revParseOutput, {'\n'}));
    }

    /**
     * The loop of `commit_hunter.py:132-136`: strip each line's trailing newlines, parse
     * it, and append the commit to the list of its category.
     */
    method CollectCommits(gitLog: seq<string>)
      requires neatCommits == EmptyBuckets(categories)
      modifies this`neatCommits, this`log
      ensures neatCommits == Bucket(categories, gitLog)
      ensures log == old(log) + FailureLog(categories, gitLog)
    {
      ghost var ps := Parses(categories, gitLog);
      var i := 0;
      while i < |gitLog|
        invariant 0 <= i <= |gitLog| == |ps|
        invariant Categorised(categories, ps)
        invariant neatCommits == BucketOf(categories, ps[..i])
        invariant log == old(log) + FailureLogOf(gitLog[..i], ps[..i])
      {
        var line := RStrip(gitLog[i], {'\n'});
        var commit := GenerateCommit(line);
        assert commit == ps[i] by { ParsesIndex(categories, gitLog, i); }
        CollectStep(categories, gitLog, ps, i);
        Associative(old(log), FailureLogOf(gitLog[..i], ps[..i]), if commit.None? then [ParseErrorEntry(line)] else []);
        neatCommits := AddCommit(neatCommits, commit);
        i := i + 1;
      }
      assert gitLog[..i] == gitLog && ps[..i] == ps;
    }

    /**
     * The end of a run (`commit_hunter.py:139-156`): pickle `neatCommits` into
     * the day's file, then move the ledger to HEAD. An exception stops the
     * writes where `failure` says; the ledger is never written unless the
     * patch notes were stored.
     */
    method Publish(failure: Failure, revParseOutput: string)
      modifies this`patchNotes, this`ledger
      ensures patchNotes ==
        if failure == BeforeNotesOpen then old(patchNotes)
        else if failure == AfterNotesOpen then Damaged
        else Pickled(neatCommits)
      ensures ledger ==
        if failure == NoFailure then Some(RStrip(revParseOutput, {'\n'}))
        else if failure == AfterLedgerOpen then Some([])
        else old(ledger)
      ensures ledger != old(ledger) ==> patchNotes == Pickled(neatCommits)
    {
      if failure == BeforeNotesOpen {
        return;
      } else if failure == AfterNotesOpen {
        patchNotes := Damaged;
        return;
      }
      patchNotes := Pickled(neatCommits);
      if failure == AtRevParse {
        return;
      } else if failure == AfterLedgerOpen {
        ledger := Some([]);
        return;
      }
      UpdatePreviousHeadCommit(revParseOutput);
    }

    /**
     * One run of the script. The log starts empty. Without a marker the query
     * is `None..HEAD`, which git rejects, so the run ends there, as it does
     * when `git log` fails for any other reason. When the output is empty
     * (`EmptyOutput`: every line is empty) the run stops with nothing stored
     * and the ledger untouched. Otherwise every line is parsed into
     * `neatCommits`. The patch notes are written before the ledger, so the
     * marker only moves once the notes are stored; `failure` says where, if
     * anywhere, an exception cuts the writes short. `since` is the marker read
     * at the start.
     */
    method Run(gitLog: Option<seq<string>>, failure: Failure, revParseOutput: string)
      returns (outcome: Outcome, since: Option<string>)
      modifies this
      ensures since == PreviousHeadCommit(old(ledger))
      ensures outcome == GitLogFailed <==> since.None? || gitLog.None?
      ensures outcome == NoNewCommits <==> since.Some? && gitLog.Some? && Concat(gitLog.value) == []
      ensures outcome == Published <==>
        since.Some? && gitLog.Some? && Concat(gitLog.value) != [] && failure == NoFailure
      ensures Collected(outcome) ==> gitLog.Some? && neatCommits == Bucket(categories, gitLog.value)
      ensures !Collected(outcome) ==> neatCommits == EmptyBuckets(categories)
      ensures patchNotes ==
        if !Collected(outcome) || failure == BeforeNotesOpen then old(patchNotes)
        else if failure == AfterNotesOpen then Damaged
        else Pickled(neatCommits)
      ensures ledger ==
        if outcome == Published then Some(RStrip(revParseOutput, {'\n'}))
        else if Collected(outcome) && failure == AfterLedgerOpen then Some([])
        else old(ledger)
      ensures ledger != old(ledger) ==> patchNotes == Pickled(neatCommits)
      ensures log ==
        (if since.None? then [LedgerErrorEntry] else [])
        + (if outcome == NoNewCommits then [NoNewCommitsEntry]
           else if Collected(outcome) then FailureLog(categories, gitLog.value)
           else [])
    {
      log := [];
      neatCommits := EmptyBuckets(categories);
      since := GetPreviousHeadCommit();
      ghost var startLog := if since.None? then [LedgerErrorEntry] else [];
      assert log == startLog;

      if since.None? || gitLog.None? {
        return GitLogFailed, since;
      }
      var lines := gitLog.value;
      if Concat(lines) == [] {
        log := log + [NoNewCommitsEntry];
        return NoNewCommits, since;
      }

      CollectCommits(lines);
      assert log == startLog + FailureLog(categories, lines);

      Publish(failure, revParseOutput);
      outcome := if failure == NoFailure then Published else Crashed;
    }
  }
}
