/**
 * The mutation ratchet (scripts/mutation-ratchet.ts): each file's score from a report, the check against the recorded
 * entries and the update of the entries. Scores are in hundredths of a percent, as `cents` compares them.
 */
module MutationRatchet {
  import opened Arithmetic
  import opened Wrappers

  datatype Mutant = Mutant(status: string, reason: string)

  /** A report: the mutants of each file. */
  type Report = map<string, seq<Mutant>>

  type Scores = map<string, int>

  /** Whether a mutant stopped by the allowance alone is taken as caught: a check takes it so, an update does not. */
  datatype Allowance = Detected | Undetected

  // -------------------------------------------------------------------------------------------------------------
  // Scores
  // -------------------------------------------------------------------------------------------------------------

  const HIT_LIMIT := "Hit limit"

  predicate RanOutOfTime(m: Mutant) { m.status == "Timeout" && !(HIT_LIMIT <= m.reason) }

  /** What a tally counts. */
  datatype Kind = Found(allowance: Allowance) | Valid | Killed

  predicate Is(kind: Kind, m: Mutant) {
    match kind
    case Found(allowance) => m.status in {"Killed", "Timeout"} && (allowance.Detected? || !RanOutOfTime(m))
    case Valid => m.status in {"Killed", "Timeout", "Survived", "NoCoverage"}
    case Killed => m.status == "Killed"
  }

  function Count(kind: Kind, mutants: seq<Mutant>): nat {
    if mutants == [] then 0
    else Count(kind, mutants[..|mutants| - 1]) + if Is(kind, mutants[|mutants| - 1]) then 1 else 0
  }

  /** `Math.round(detected * 10000 / valid)`, halves up. */
  function Percent(detected: nat, valid: nat): nat
    requires valid > 0
  {
    (detected * 20000 + valid) / (2 * valid)
  }

  /** Some mutant was caught, and every one that was ran out of time. */
  predicate AllTimedOut(detected: nat, killed: nat) { detected > 0 && killed == 0 }

  predicate Unmeasured(mutants: seq<Mutant>) { AllTimedOut(Count(Found(Detected), mutants), Count(Killed, mutants)) }

  /** A file's score; none without a valid mutant. */
  function ScoreOf(mutants: seq<Mutant>, allowance: Allowance): Option<nat> {
    var detected, valid := Count(Found(allowance), mutants), Count(Valid, mutants);
    if valid == 0 then None
    else Some(if AllTimedOut(detected, Count(Killed, mutants)) then 0 else Percent(detected, valid))
  }

  function ScoresOf(report: Report, allowance: Allowance): Scores {
    map f | f in report && ScoreOf(report[f], allowance).Some? :: ScoreOf(report[f], allowance).value
  }

  method Tally(mutants: seq<Mutant>, allowance: Allowance) returns (detected: nat, valid: nat, killed: nat)
    ensures detected == Count(Found(allowance), mutants) && valid == Count(Valid, mutants) && killed == Count(Killed, mutants)
  {
    detected, valid, killed := 0, 0, 0;
    for i := 0 to |mutants|
      invariant detected == Count(Found(allowance), mutants[..i])
      invariant valid == Count(Valid, mutants[..i]) && killed == Count(Killed, mutants[..i])
    {
      assert mutants[..i + 1][..i] == mutants[..i];
      var m := mutants[i];
      if m.status in {"Killed", "Timeout"} && (allowance.Detected? || !RanOutOfTime(m)) {
        detected := detected + 1;
      }
      if m.status == "Killed" {
        killed := killed + 1;
      }
      if m.status in {"Killed", "Timeout", "Survived", "NoCoverage"} {
        valid := valid + 1;
      }
    }
    assert mutants[..|mutants|] == mutants;
  }

  method ScoreByFile(report: Report, allowance: Allowance) returns (scores: Scores)
    ensures scores == ScoresOf(report, allowance)
  {
    hide Count;
    hide Percent;
    scores := map[];
    var rest := report.Keys;
    while rest != {}
      invariant rest <= report.Keys
      invariant scores == map f | f in report.Keys - rest && ScoreOf(report[f], allowance).Some? ::
                            ScoreOf(report[f], allowance).value
      decreases rest
    {
      var path :| path in rest;
      rest := rest - {path};
      var detected, valid, killed := Tally(report[path], allowance);
      if valid > 0 {
        scores := scores[path := if AllTimedOut(detected, killed) then 0 else Percent(detected, valid)];
      }
    }
  }

  lemma {:induction false} CountIsMonotone(low: Kind, high: Kind, mutants: seq<Mutant>)
    requires forall m :: Is(low, m) ==> Is(high, m)
    ensures Count(low, mutants) <= Count(high, mutants)
    decreases |mutants|
  {
    if mutants != [] {
      CountIsMonotone(low, high, mutants[..|mutants| - 1]);
    }
  }

  lemma PercentIsMonotone(low: nat, high: nat, valid: nat)
    requires low <= high && valid > 0
    ensures Percent(low, valid) <= Percent(high, valid)
  {
    DivisionIsMonotone(low * 20000 + valid, high * 20000 + valid, 2 * valid);
  }

  /** Rounding loses at most half a hundredth, so the score is the nearest one. */
  lemma PercentIsNearest(detected: nat, valid: nat)
    requires valid > 0
    ensures 2 * Percent(detected, valid) * valid - valid <= detected * 20000 <= 2 * Percent(detected, valid) * valid + valid
  {
    var n, d := detected * 20000 + valid, 2 * valid;
    assert n == d * (n / d) + n % d && 0 <= n % d < d;
  }

  function WithStatus(mutants: seq<Mutant>, status: string): nat {
    if mutants == [] then 0
    else WithStatus(mutants[..|mutants| - 1], status) + if mutants[|mutants| - 1].status == status then 1 else 0
  }

  /** The timeouts that the hit limit ended, which are caught in either way of counting. */
  function HitLimits(mutants: seq<Mutant>): nat {
    if mutants == [] then 0
    else
      var m := mutants[|mutants| - 1];
      HitLimits(mutants[..|mutants| - 1]) + if m.status == "Timeout" && "Hit limit" <= m.reason then 1 else 0
  }

  /** The three counts, by the statuses of a report. */
  lemma {:induction false} CountsByStatus(mutants: seq<Mutant>)
    ensures Count(Killed, mutants) == WithStatus(mutants, "Killed")
    ensures Count(Found(Detected), mutants) == WithStatus(mutants, "Killed") + WithStatus(mutants, "Timeout")
    ensures Count(Found(Undetected), mutants) == WithStatus(mutants, "Killed") + HitLimits(mutants)
    ensures Count(Valid, mutants) == WithStatus(mutants, "Killed") + WithStatus(mutants, "Timeout")
                                     + WithStatus(mutants, "Survived") + WithStatus(mutants, "NoCoverage")
    decreases |mutants|
  {
    StatusesDiffer();
    if mutants != [] {
      CountsByStatus(mutants[..|mutants| - 1]);
    }
  }

  lemma StatusesDiffer()
    ensures "Killed" != "Timeout" && "Killed" != "Survived" && "Killed" != "NoCoverage"
    ensures "Timeout" != "Survived" && "Timeout" != "NoCoverage" && "Survived" != "NoCoverage"
  {
    assert "Killed"[0] == 'K' && "Timeout"[0] == 'T' && "Survived"[0] == 'S' && "NoCoverage"[0] == 'N';
  }

  /** `score` is `found` of `all` in hundredths of a percent, rounded to the nearest, halves up. */
  predicate IsRounded(score: nat, found: nat, all: nat) { 2 * all * score <= 20000 * found + all < 2 * all * (score + 1) }

  /**
   * Main result: a file's score, by its mutants' statuses: none without a killed, timed out, survived or uncovered mutant;
   * zero when some timed out and none was killed; and otherwise the share that was killed or timed out, a timeout by the
   * allowance alone counting only when checked.
   */
  lemma ScoreByStatus(mutants: seq<Mutant>, allowance: Allowance)
    ensures var killed, timeouts := WithStatus(mutants, "Killed"), WithStatus(mutants, "Timeout");
            var all := killed + timeouts + WithStatus(mutants, "Survived") + WithStatus(mutants, "NoCoverage");
            var found := killed + if allowance.Detected? then timeouts else HitLimits(mutants);
            && (ScoreOf(mutants, allowance).None? <==> all == 0)
            && (all > 0 ==>
                  if killed == 0 && found > 0 then ScoreOf(mutants, allowance) == Some(0)
                  else IsRounded(ScoreOf(mutants, allowance).value, found, all))
  {
    hide Count;
    hide WithStatus;
    hide HitLimits;
    hide Percent;
    hide IsRounded;
    CountsByStatus(mutants);
    if Count(Valid, mutants) > 0 {
      PercentIsRounded(Count(Found(allowance), mutants), Count(Valid, mutants));
    }
  }

  lemma PercentIsRounded(found: nat, all: nat)
    requires all > 0
    ensures IsRounded(Percent(found, all), found, all)
  {
    var n, d := found * 20000 + all, 2 * all;
    assert n == d * (n / d) + n % d && 0 <= n % d < d;
    NextMultiple(d, n / d);
  }

  lemma NextMultiple(d: nat, k: nat)
    ensures d * (k + 1) == d * k + d
  {}

  /** Every score is a percentage. */
  lemma ScoreIsPercentage(mutants: seq<Mutant>, allowance: Allowance)
    requires ScoreOf(mutants, allowance).Some?
    ensures 0 <= ScoreOf(mutants, allowance).value <= 10000
  {
    CountIsMonotone(Found(allowance), Valid, mutants);
    var detected, valid := Count(Found(allowance), mutants), Count(Valid, mutants);
    PercentIsMonotone(detected, valid, valid);
    WholeIsHundred(valid);
  }

  lemma WholeIsHundred(valid: nat)
    requires valid > 0
    ensures Percent(valid, valid) == 10000
  {
    QuotientIs(valid * 20000 + valid, 2 * valid, 10000);
  }

  /**
   * Main result: both ways of counting score the same files, and a file recorded never scores above the file checked,
   * through rounding and the unmeasured rule.
   */
  lemma RecordedIsNoHigher(report: Report)
    ensures ScoresOf(report, Undetected).Keys == ScoresOf(report, Detected).Keys
    ensures forall f :: f in ScoresOf(report, Detected) ==> 0 <= ScoresOf(report, Undetected)[f] <= ScoresOf(report, Detected)[f]
  {
    forall f | f in ScoresOf(report, Detected)
      ensures ScoresOf(report, Undetected)[f] <= ScoresOf(report, Detected)[f]
    {
      FileRecordedIsNoHigher(report[f]);
    }
  }

  lemma FileRecordedIsNoHigher(mutants: seq<Mutant>)
    requires Count(Valid, mutants) > 0
    ensures 0 <= ScoreOf(mutants, Undetected).value <= ScoreOf(mutants, Detected).value
    ensures Unmeasured(mutants) ==> ScoreOf(mutants, Undetected) == ScoreOf(mutants, Detected) == Some(0)
  {
    CountIsMonotone(Found(Undetected), Found(Detected), mutants);
    PercentIsMonotone(Count(Found(Undetected), mutants), Count(Found(Detected), mutants), Count(Valid, mutants));
    PercentIsMonotone(0, Count(Found(Undetected), mutants), Count(Valid, mutants));
    if Count(Found(Undetected), mutants) == 0 {
      NothingIsZero(Count(Valid, mutants));
    }
  }

  lemma NothingIsZero(valid: nat)
    requires valid > 0
    ensures Percent(0, valid) == 0
  {
    QuotientIs(valid, 2 * valid, 0);
  }

  // -------------------------------------------------------------------------------------------------------------
  // The check
  // -------------------------------------------------------------------------------------------------------------

  /** The files with an entry whose score fell below it, and those whose score rose above it. */
  method Compare(ratchet: Scores, scores: Scores) returns (lower: set<string>, rose: set<string>)
    ensures forall f :: f in lower <==> f in scores && f in ratchet && scores[f] < ratchet[f]
    ensures forall f :: f in rose <==> f in scores && f in ratchet && scores[f] > ratchet[f]
  {
    lower, rose := {}, {};
    var rest := scores.Keys;
    while rest != {}
      invariant rest <= scores.Keys
      invariant forall f :: f in lower <==> f in scores && f !in rest && f in ratchet && scores[f] < ratchet[f]
      invariant forall f :: f in rose <==> f in scores && f !in rest && f in ratchet && scores[f] > ratchet[f]
      decreases rest
    {
      var file :| file in rest;
      rest := rest - {file};
      if file !in ratchet {
        continue;
      }
      if scores[file] < ratchet[file] {
        lower := lower + {file};
      } else if scores[file] > ratchet[file] {
        rose := rose + {file};
      }
    }
  }

  /** No file of the report is below its entry. */
  ghost predicate Passes(ratchet: Scores, report: Report) {
    forall f :: f in ScoresOf(report, Detected) && f in ratchet ==> ratchet[f] <= ScoresOf(report, Detected)[f]
  }

  method Check(ratchet: Scores, report: Report) returns (exitCode: int, rose: set<string>)
    ensures exitCode == 0 <==> Passes(ratchet, report)
    ensures exitCode == 0 || exitCode == 1
    ensures forall f :: f in rose <==> f in ScoresOf(report, Undetected) && f in ratchet
                                       && ScoresOf(report, Undetected)[f] > ratchet[f]
  {
    var scores := ScoreByFile(report, Detected);
    var lower, _ := Compare(ratchet, scores);
    var recorded := ScoreByFile(report, Undetected);
    var _, above := Compare(ratchet, recorded);
    rose := above;
    assert lower == {} <==> Passes(ratchet, report);
    exitCode := if lower != {} then 1 else 0;
  }

  // -------------------------------------------------------------------------------------------------------------
  // The update
  // -------------------------------------------------------------------------------------------------------------

  function Max(x: int, y: int): int { if x >= y then x else y }

  function Follow(scores: Scores, inSet: set<string>): Scores { map f | f in scores && f in inSet :: scores[f] }

  /** Each file at the higher of its entry and its score, new files added. */
  function Raised(ratchet: Scores, scores: Scores): Scores {
    map f | f in ratchet.Keys + scores.Keys ::
      if f !in scores then ratchet[f] else if f !in ratchet then scores[f] else Max(ratchet[f], scores[f])
  }

  method Raise(ratchet: Scores, scores: Scores) returns (raised: Scores)
    ensures raised == Raised(ratchet, scores)
  {
    raised := ratchet;
    var rest := scores.Keys;
    while rest != {}
      invariant rest <= scores.Keys
      invariant raised == Raised(ratchet, map f | f in scores && f !in rest :: scores[f])
      decreases rest
    {
      var file :| file in rest;
      rest := rest - {file};
      raised := raised[file := if file !in raised then scores[file] else Max(raised[file], scores[file])];
    }
    assert scores == map f | f in scores && f !in rest :: scores[f];
  }

  /** The scores an incremental run is trusted for: the changed files' and those of files with no entry. */
  function Eligible(ratchet: Scores, scores: Scores, changed: set<string>): Scores {
    map f | f in scores && (f in changed || f !in ratchet) :: scores[f]
  }

  method RaiseWithin(ratchet: Scores, scores: Scores, changed: set<string>) returns (raised: Scores)
    ensures raised == Raised(ratchet, Eligible(ratchet, scores, changed))
  {
    raised := Raise(ratchet, Eligible(ratchet, scores, changed));
  }

  /** The command line and the tree of one update: what changed, and the tracked files of the mutate set. */
  datatype Run = Run(total: bool, changed: set<string>, inSet: set<string>)

  /** The files that have no kill to their score. */
  function UnmeasuredFiles(report: Report): set<string> { set f | f in report && Unmeasured(report[f]) }

  /** Whether the update may touch the entry of a file it has a score for. */
  predicate Reached(before: Scores, scores: Scores, run: Run, f: string) {
    f in run.inSet && f in scores && (run.total || f in run.changed || f !in before)
  }

  /** The files with an entry after the update. */
  predicate Holds(before: Scores, scores: Scores, run: Run, f: string) {
    f in run.inSet && (f in before || f in scores)
  }

  /** What an entry becomes: zero for an unmeasured file, else the higher of the entry and the score, where reached. */
  function EntryAfter(before: Scores, scores: Scores, unmeasured: set<string>, run: Run, f: string): int
    requires Holds(before, scores, run, f)
  {
    if !Reached(before, scores, run, f) then before[f]
    else if f in unmeasured then 0
    else if f in before then Max(before[f], scores[f])
    else scores[f]
  }

  function Updated(before: Scores, scores: Scores, unmeasured: set<string>, run: Run): Scores {
    map f | f in before.Keys + scores.Keys && Holds(before, scores, run, f) :: EntryAfter(before, scores, unmeasured, run, f)
  }

  /** The report lists every file of the mutate set. */
  predicate Covers(report: Report, run: Run) { run.inSet <= report.Keys }

  function Zeroed(files: Scores, paths: set<string>): Scores {
    map f | f in files.Keys + paths :: if f in paths then 0 else files[f]
  }

  method Zero(files: Scores, paths: set<string>) returns (zeroed: Scores)
    ensures zeroed == Zeroed(files, paths)
  {
    zeroed := files;
    var rest := paths;
    while rest != {}
      invariant rest <= paths
      invariant zeroed == Zeroed(files, paths - rest)
      decreases rest
    {
      var path :| path in rest;
      rest := rest - {path};
      zeroed := zeroed[path := 0];
    }
    assert paths - rest == paths;
  }

  /** The entries written; none when a `--total` report misses a file of the mutate set. */
  method Update(before: Scores, report: Report, run: Run) returns (next: Option<Scores>)
    ensures next == if run.total && !Covers(report, run) then None
                    else Some(Updated(before, ScoresOf(report, Undetected), UnmeasuredFiles(report), run))
  {
    hide ScoresOf;
    hide UnmeasuredFiles;
    hide Updated;
    var held := Follow(before, run.inSet);
    var recorded := ScoreByFile(report, Undetected);
    var scores := Follow(recorded, run.inSet);
    var within := if run.total then scores.Keys else run.changed;
    var files;
    if run.total {
      files := Raise(held, scores);
    } else {
      files := RaiseWithin(held, scores, within);
    }
    ghost var raised := files;
    var unmeasured := UnmeasuredFiles(report);
    var here := set path | path in unmeasured && path in run.inSet && (path in within || path !in held);
    files := Zero(files, here);
    UnmeasuredHaveScores(report);
    UpdatedByParts(before, recorded, unmeasured, run, here, raised);
    if run.total && !(run.inSet <= report.Keys) {
      return None;
    }
    next := Some(files);
  }

  lemma UnmeasuredHaveScores(report: Report)
    ensures UnmeasuredFiles(report) <= ScoresOf(report, Undetected).Keys
    ensures forall f :: f in UnmeasuredFiles(report) ==> ScoresOf(report, Undetected)[f] == ScoresOf(report, Detected)[f] == 0
  {
    forall f | f in UnmeasuredFiles(report)
      ensures Count(Valid, report[f]) > 0 && ScoreOf(report[f], Undetected) == ScoreOf(report[f], Detected) == Some(0)
    {
      CountIsMonotone(Found(Detected), Valid, report[f]);
      FileRecordedIsNoHigher(report[f]);
    }
  }

  lemma UpdatedByParts(before: Scores, scores: Scores, unmeasured: set<string>, run: Run, here: set<string>, raised: Scores)
    requires unmeasured <= scores.Keys
    requires var held, followed := Follow(before, run.inSet), Follow(scores, run.inSet);
             raised == Raised(held, if run.total then followed else Eligible(held, followed, run.changed))
    requires here == set f | f in unmeasured && f in run.inSet
                             && (run.total || f in run.changed || f !in Follow(before, run.inSet))
    ensures Zeroed(raised, here) == Updated(before, scores, unmeasured, run)
  {}

  // -------------------------------------------------------------------------------------------------------------
  // What an update keeps
  // -------------------------------------------------------------------------------------------------------------

  /**
   * Main result: a ratchet updated from a report passes on that report exactly when no file that keeps its entry was
   * below it, leaving out the unmeasured files the update reached.
   */
  lemma PassesAfterExactly(before: Scores, report: Report, run: Run)
    ensures Passes(Updated(before, ScoresOf(report, Undetected), UnmeasuredFiles(report), run), report)
       <==> forall f :: f in before && f in run.inSet && f in ScoresOf(report, Detected)
                        && !(f in UnmeasuredFiles(report) && Reached(before, ScoresOf(report, Undetected), run, f))
                        ==> before[f] <= ScoresOf(report, Detected)[f]
  {
    RecordedIsNoHigher(report);
    UnmeasuredHaveScores(report);
    hide ScoresOf;
    hide UnmeasuredFiles;
    var scores, unmeasured := ScoresOf(report, Undetected), UnmeasuredFiles(report);
    var next := Updated(before, scores, unmeasured, run);
    forall f | f in before && f in run.inSet && f in ScoresOf(report, Detected)
      ensures f in next
      ensures !(f in unmeasured && Reached(before, scores, run, f)) ==>
                (next[f] <= ScoresOf(report, Detected)[f] <==> before[f] <= ScoresOf(report, Detected)[f])
      ensures f in unmeasured && Reached(before, scores, run, f) ==> next[f] <= ScoresOf(report, Detected)[f]
    {}
  }

  /** Main result: so a ratchet that passes on a report still passes after an update from it. */
  lemma PassingStaysPassing(before: Scores, report: Report, run: Run)
    requires Passes(before, report)
    ensures Passes(Updated(before, ScoresOf(report, Undetected), UnmeasuredFiles(report), run), report)
  {
    PassesAfterExactly(before, report, run);
  }

  /** Main result: a second update from the same report changes nothing. */
  lemma UpdateIsIdempotent(before: Scores, report: Report, run: Run)
    ensures var scores, unmeasured := ScoresOf(report, Undetected), UnmeasuredFiles(report);
            var once := Updated(before, scores, unmeasured, run);
            Updated(once, scores, unmeasured, run) == once
  {
    UnmeasuredHaveScores(report);
    hide ScoresOf;
    hide UnmeasuredFiles;
    var scores, unmeasured := ScoresOf(report, Undetected), UnmeasuredFiles(report);
    var once := Updated(before, scores, unmeasured, run);
    forall f | f in once
      ensures Holds(once, scores, run, f) && EntryAfter(once, scores, unmeasured, run, f) == once[f]
    {}
  }

  /**
   * An update lowers unmeasured files only, to zero; leaves alone every entry outside the changed files
   * unless it is `--total`; and drops an entry exactly when its file left the mutate set.
   */
  lemma UpdateLowersOnlyUnmeasured(before: Scores, report: Report, run: Run, f: string)
    requires f in before
    ensures var next := Updated(before, ScoresOf(report, Undetected), UnmeasuredFiles(report), run);
            && (f in next <==> f in run.inSet)
            && (f in next && next[f] < before[f] ==> f in UnmeasuredFiles(report) && next[f] == 0)
            && (f in next && !run.total && f !in run.changed ==> next[f] == before[f])
  {
    UnmeasuredHaveScores(report);
    hide ScoresOf;
    hide UnmeasuredFiles;
  }

  /**
   * Main result: what an update makes of a file of the mutate set. Its score counts when the update is of all, or the file
   * changed, or it had no entry: then the entry becomes the higher of the two, or zero when nothing was killed.
   */
  lemma UpdatedExactly(before: Scores, report: Report, run: Run, f: string)
    requires f in run.inSet
    ensures var scores, next := ScoresOf(report, Undetected), Updated(before, ScoresOf(report, Undetected), UnmeasuredFiles(report), run);
            var counts := f in scores && (run.total || f in run.changed || f !in before);
            && (f in next <==> f in before || f in scores)
            && (f in before && !counts ==> next[f] == before[f])
            && (counts && f in UnmeasuredFiles(report) ==> next[f] == 0)
            && (counts && f !in UnmeasuredFiles(report) ==>
                  && next[f] >= scores[f] && (f in before ==> next[f] >= before[f])
                  && (next[f] == scores[f] || (f in before && next[f] == before[f])))
  {
    UnmeasuredHaveScores(report);
    hide ScoresOf;
    hide UnmeasuredFiles;
  }

  /** `check` names a file of the mutate set above its entry exactly when an update that reaches it raises it. */
  lemma RoseExactlyWhenRaised(before: Scores, report: Report, run: Run, f: string)
    requires f in before && before[f] >= 0 && Reached(before, ScoresOf(report, Undetected), run, f)
    ensures var scores := ScoresOf(report, Undetected);
            scores[f] > before[f] <==> Updated(before, scores, UnmeasuredFiles(report), run)[f] > before[f]
  {
    UnmeasuredHaveScores(report);
    hide ScoresOf;
    hide UnmeasuredFiles;
  }
}
