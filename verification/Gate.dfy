/**
 * The gate's plan and its run (scripts/gate.ts): `select` and `settle` act on the flags before anything runs,
 * and `run` goes through what was planned, passing over a step one of whose needs did not come out ok.
 */
module Gate {
  import opened TextSplit
  import opened Wrappers

  /** `needs` is empty where the source leaves it out. */
  datatype StepSpec = StepSpec(name: string, command: string, skip: Option<string>, needs: seq<string>)

  datatype Status = Ok | Red | Skipped

  /** `reason` is the detail of a skipped step, and empty on the others. */
  datatype Step = Step(name: string, status: Status, reason: string)

  datatype RunResult = Ran(exitCode: int, steps: seq<Step>) | NotEarlier(step: string, need: string)

  // -------------------------------------------------------------------------------------------------------------
  // The run
  // -------------------------------------------------------------------------------------------------------------

  /** The first result of that name. */
  function Find(results: seq<Step>, name: string): Option<Step> {
    if results == [] then None
    else if results[0].name == name then Some(results[0])
    else Find(results[1..], name)
  }

  function StatusText(s: Status): string {
    match s
    case Ok => "ok"
    case Red => "red"
    case Skipped => "skipped"
  }

  /** The needs that are not ok, as the reason names them. */
  function UnmetOf(needs: seq<string>, results: seq<Step>): seq<string>
    requires forall n :: n in needs ==> Find(results, n).Some?
  {
    if needs == [] then []
    else
      var last := needs[|needs| - 1];
      var status := Find(results, last).value.status;
      UnmetOf(needs[..|needs| - 1], results) + if status.Ok? then [] else [last + " (" + StatusText(status) + ")"]
  }

  /** A step's result after the earlier ones, when its command would exit with `code`. */
  function Outcome(spec: StepSpec, results: seq<Step>, code: int): Step
    requires forall n :: n in spec.needs ==> Find(results, n).Some?
  {
    var unmet := UnmetOf(spec.needs, results);
    if spec.skip.Some? then Step(spec.name, Skipped, spec.skip.value)
    else if unmet != [] then Step(spec.name, Skipped, "needs " + Join(unmet, ", "))
    else Step(spec.name, if code == 0 then Ok else Red, "")
  }

  ghost predicate HasName(steps: seq<StepSpec>, name: string) { exists j :: 0 <= j < |steps| && steps[j].name == name }

  ghost predicate NeedsEarlier(steps: seq<StepSpec>) {
    forall i, n :: 0 <= i < |steps| && n in steps[i].needs ==> HasName(steps[..i], n)
  }

  ghost predicate UniquelyNamed(steps: seq<StepSpec>) {
    forall i, j :: 0 <= i < j < |steps| ==> steps[i].name != steps[j].name
  }

  ghost predicate Follows(spec: StepSpec, before: seq<Step>, code: int, result: Step) {
    (forall n :: n in spec.needs ==> Find(before, n).Some?) && result == Outcome(spec, before, code)
  }

  /** The results of the first steps, each the outcome after those before it. */
  ghost predicate AreResults(steps: seq<StepSpec>, codes: seq<int>, results: seq<Step>) {
    && |results| <= |steps| == |codes|
    && forall i :: 0 <= i < |results| ==> Follows(steps[i], results[..i], codes[i], results[i])
  }

  lemma {:induction false} FindFinds(results: seq<Step>, name: string)
    ensures Find(results, name).Some? <==> exists j :: 0 <= j < |results| && results[j].name == name
    ensures Find(results, name).Some? ==> Find(results, name).value in results && Find(results, name).value.name == name
    decreases |results|
  {
    if results != [] && results[0].name != name {
      FindFinds(results[1..], name);
      assert results == [results[0]] + results[1..];
    }
  }

  lemma NamesFollow(steps: seq<StepSpec>, codes: seq<int>, results: seq<Step>)
    requires AreResults(steps, codes, results)
    ensures forall i :: 0 <= i < |results| ==> results[i].name == steps[i].name
  {
    forall i | 0 <= i < |results|
      ensures results[i].name == steps[i].name
    {
      assert Follows(steps[i], results[..i], codes[i], results[i]);
    }
  }

  /** A need has a result exactly when it is an earlier step. */
  lemma FoundExactlyEarlier(steps: seq<StepSpec>, codes: seq<int>, results: seq<Step>, name: string)
    requires AreResults(steps, codes, results)
    ensures Find(results, name).Some? <==> HasName(steps[..|results|], name)
  {
    NamesFollow(steps, codes, results);
    FindFinds(results, name);
    forall j | 0 <= j < |results|
      ensures steps[..|results|][j].name == results[j].name
    {}
    if HasName(steps[..|results|], name) {
      var j :| 0 <= j < |results| && steps[..|results|][j].name == name;
      assert results[j].name == name;
    }
  }

  /** `codes[i]` is the exit code of step `i`'s command, should it run. */
  method Run(steps: seq<StepSpec>, codes: seq<int>) returns (r: RunResult)
    requires |codes| == |steps|
    ensures r.Ran? <==> NeedsEarlier(steps)
    ensures r.Ran? ==> |r.steps| == |steps| && AreResults(steps, codes, r.steps)
    ensures r.Ran? ==> r.exitCode == if exists s :: s in r.steps && s.status.Red? then 1 else 0
    ensures r.NotEarlier? ==> exists i :: 0 <= i < |steps| && steps[i].name == r.step && r.need in steps[i].needs
                                          && !HasName(steps[..i], r.need)
  {
    hide Outcome;
    hide AreResults;
    hide HasName;
    hide Find;
    hide UnmetOf;
    hide Follows;
    hide After;
    NoResults(steps, codes);
    var results: seq<Step> := [];
    var red := false;
    for i := 0 to |steps|
      invariant |results| == i && AreResults(steps, codes, results)
      invariant red <==> exists s :: s in results && s.status.Red?
      invariant forall k, n :: 0 <= k < i && n in steps[k].needs ==> HasName(steps[..k], n)
    {
      var spec := steps[i];
      var missing, unmet := JudgeNeeds(steps, codes, results, spec.needs);
      if missing.Some? {
        return NotEarlier(spec.name, missing.value);
      }
      var step := After(spec, unmet, codes[i]);
      AfterFollows(spec, results, codes[i]);
      ResultsGrow(steps, codes, results, step);
      red := red || step.status.Red?;
      results := results + [step];
    }
    r := Ran(if red then 1 else 0, results);
  }

  lemma NoResults(steps: seq<StepSpec>, codes: seq<int>)
    requires |codes| == |steps|
    ensures AreResults(steps, codes, [])
  {}

  /** The first need that is no earlier step, or else the needs that are not ok. */
  method JudgeNeeds(ghost steps: seq<StepSpec>, ghost codes: seq<int>, results: seq<Step>, needs: seq<string>)
    returns (missing: Option<string>, unmet: seq<string>)
    requires AreResults(steps, codes, results)
    ensures missing.Some? ==> missing.value in needs && !HasName(steps[..|results|], missing.value)
    ensures missing.None? ==> forall n :: n in needs ==> Find(results, n).Some? && HasName(steps[..|results|], n)
    ensures missing.None? ==> unmet == UnmetOf(needs, results)
  {
    hide Follows;
    hide HasName;
    hide Find;
    unmet := [];
    for k := 0 to |needs|
      invariant |results| <= |steps|
      invariant forall n :: n in needs[..k] ==> Find(results, n).Some? && HasName(steps[..|results|], n)
      invariant unmet == UnmetOf(needs[..k], results)
    {
      var need := needs[k];
      FoundExactlyEarlier(steps, codes, results, need);
      var earlier := Find(results, need);
      if earlier.None? {
        return Some(need), unmet;
      }
      assert needs[..k + 1][..k] == needs[..k];
      if !earlier.value.status.Ok? {
        unmet := unmet + [need + " (" + StatusText(earlier.value.status) + ")"];
      }
    }
    assert needs[..|needs|] == needs;
    missing := None;
  }

  function After(spec: StepSpec, unmet: seq<string>, code: int): Step {
    var reason := if spec.skip.Some? then spec.skip else if |unmet| > 0 then Some("needs " + Join(unmet, ", ")) else None;
    if reason.Some? then Step(spec.name, Skipped, reason.value) else Step(spec.name, if code == 0 then Ok else Red, "")
  }

  lemma AfterFollows(spec: StepSpec, results: seq<Step>, code: int)
    requires forall n :: n in spec.needs ==> Find(results, n).Some?
    ensures Follows(spec, results, code, After(spec, UnmetOf(spec.needs, results), code))
  {}

  lemma ResultsGrow(steps: seq<StepSpec>, codes: seq<int>, results: seq<Step>, step: Step)
    requires AreResults(steps, codes, results) && |results| < |steps|
    requires Follows(steps[|results|], results, codes[|results|], step)
    ensures AreResults(steps, codes, results + [step])
  {
    hide Follows;
    var more := results + [step];
    forall i | 0 <= i < |more|
      ensures Follows(steps[i], more[..i], codes[i], more[i])
    {
      assert more[..i] == results[..i];
      assert i < |results| ==> more[i] == results[i];
      assert results[..|results|] == results;
    }
  }

  // -------------------------------------------------------------------------------------------------------------
  // The plan
  // -------------------------------------------------------------------------------------------------------------

  /** What of the flags the plan reads: `postgresUrl` and the like are none when not given. */
  datatype PlanInput = PlanInput(external: bool, postgresUrl: Option<string>, mailpitUrl: Option<string>, noBuild: bool,
                                 artefactPresent: bool, only: Option<seq<string>>)

  predicate Given(url: Option<string>) { url.Some? && url.value != "" }

  /** The needs a flag meets. */
  function Met(input: PlanInput): set<string> {
    (if input.external && Given(input.postgresUrl) then {"compose up"} else {})
    + (if input.external && Given(input.mailpitUrl) then {"mailpit up"} else {})
    + (if input.noBuild && input.artefactPresent then {"build"} else {})
  }

  const NoPostgres := "NYMBAL_TEST_POSTGRES_URL is not set (--services external)"
  const NoMailpit := "NYMBAL_TEST_MAILPIT_URL is not set (--services external)"
  const NoArtefact := "the build artefact is not present (--no-build)"

  function Only(when: bool, need: string, reason: string): map<string, string> {
    if when then map[need := reason] else map[]
  }

  /** The needs a flag makes unmeetable, with the reason. */
  function Unmet(input: PlanInput): map<string, string> {
    Only(input.external && !Given(input.postgresUrl), "compose up", NoPostgres)
    + Only(input.external && !Given(input.mailpitUrl), "mailpit up", NoMailpit)
    + Only(input.noBuild && !input.artefactPresent, "build", NoArtefact)
  }

  datatype Verdict = Dropped | Reason(text: string) | Kept

  function Judge(input: PlanInput, selected: set<string>, need: string): Verdict {
    if need in Met(input) then Dropped
    else if need in Unmet(input) then Reason(Unmet(input)[need])
    else if need !in selected then Reason("needs " + need + ", which --only leaves out")
    else Kept
  }

  /** The needs left for the run to judge. */
  function KeptOf(input: PlanInput, selected: set<string>, needs: seq<string>): (kept: seq<string>)
    ensures forall n :: n in kept <==> n in needs && Judge(input, selected, n).Kept?
  {
    if needs == [] then []
    else
      var last := needs[|needs| - 1];
      assert needs == needs[..|needs| - 1] + [last];
      KeptOf(input, selected, needs[..|needs| - 1]) + if Judge(input, selected, last).Kept? then [last] else []
  }

  function ReasonsOf(input: PlanInput, selected: set<string>, needs: seq<string>): (reasons: seq<string>)
    ensures reasons == [] <==> forall n :: n in needs ==> !Judge(input, selected, n).Reason?
  {
    if needs == [] then []
    else
      var last := needs[|needs| - 1];
      assert needs == needs[..|needs| - 1] + [last];
      var verdict := Judge(input, selected, last);
      ReasonsOf(input, selected, needs[..|needs| - 1]) + if verdict.Reason? then [verdict.text] else []
  }

  /** What a step is planned as: the needs left for the run, and a reason to skip it if it had one or a need gave one. */
  ghost predicate IsSettled(input: PlanInput, selected: set<string>, step: StepSpec, settled: StepSpec) {
    && settled.name == step.name && settled.command == step.command
    && settled.needs == KeptOf(input, selected, step.needs)
    && settled.skip == if step.skip.Some? then step.skip
                       else if ReasonsOf(input, selected, step.needs) == [] then None
                       else Some(Join(ReasonsOf(input, selected, step.needs), "; "))
  }

  lemma SettledGrows(input: PlanInput, selected: set<string>, needs: seq<string>)
    ensures needs == [] ==> KeptOf(input, selected, needs) == [] && ReasonsOf(input, selected, needs) == []
    ensures needs != [] ==>
              KeptOf(input, selected, needs)
              == KeptOf(input, selected, needs[..|needs| - 1])
              + (if Judge(input, selected, needs[|needs| - 1]).Kept? then [needs[|needs| - 1]] else [])
    ensures needs != [] ==>
              ReasonsOf(input, selected, needs)
              == ReasonsOf(input, selected, needs[..|needs| - 1])
              + (var v := Judge(input, selected, needs[|needs| - 1]); if v.Reason? then [v.text] else [])
  {
    hide Judge;
  }

  method SettleStep(step: StepSpec, input: PlanInput, selected: set<string>) returns (settled: StepSpec)
    ensures IsSettled(input, selected, step, settled)
  {
    hide Judge;
    hide KeptOf;
    hide ReasonsOf;
    var reasons: seq<string>, needs: seq<string> := [], [];
    SettledGrows(input, selected, []);
    for k := 0 to |step.needs|
      invariant needs == KeptOf(input, selected, step.needs[..k])
      invariant reasons == ReasonsOf(input, selected, step.needs[..k])
    {
      assert step.needs[..k + 1][..k] == step.needs[..k];
      SettledGrows(input, selected, step.needs[..k + 1]);
      var verdict := Judge(input, selected, step.needs[k]);
      if verdict.Reason? {
        reasons := reasons + [verdict.text];
      } else if verdict.Kept? {
        needs := needs + [step.needs[k]];
      }
    }
    assert step.needs[..|step.needs|] == step.needs;
    var skip := if step.skip.Some? then step.skip else if reasons != [] then Some(Join(reasons, "; ")) else None;
    settled := StepSpec(step.name, step.command, skip, needs);
  }

  function NamesOf(steps: seq<StepSpec>): set<string> { set s | s in steps :: s.name }

  /** The plan cut down to `only`, its order kept; the whole plan without it. */
  function Chosen(steps: seq<StepSpec>, only: Option<seq<string>>): seq<StepSpec> {
    if steps == [] then []
    else
      var last := steps[|steps| - 1];
      Chosen(steps[..|steps| - 1], only) + if only.None? || last.name in only.value then [last] else []
  }

  /** The planned steps; none when `only` names a step that is not one. */
  method Select(steps: seq<StepSpec>, input: PlanInput) returns (plan: Option<seq<StepSpec>>)
    ensures plan.None? <==> input.only.Some? && exists name :: name in input.only.value && name !in NamesOf(steps)
    ensures plan.Some? ==> IsPlan(input, Chosen(steps, input.only), plan.value)
  {
    var chosen := Chosen(steps, input.only);
    if input.only.Some? && exists name :: name in input.only.value && name !in NamesOf(steps) {
      return None;
    }
    var settled: seq<StepSpec> := [];
    for i := 0 to |chosen|
      invariant |settled| == i
      invariant forall k :: 0 <= k < i ==> IsSettled(input, NamesOf(chosen), chosen[k], settled[k])
    {
      var step := SettleStep(chosen[i], input, NamesOf(chosen));
      settled := settled + [step];
    }
    plan := Some(settled);
  }

  ghost predicate IsPlan(input: PlanInput, chosen: seq<StepSpec>, settled: seq<StepSpec>) {
    && |settled| == |chosen|
    && forall k :: 0 <= k < |chosen| ==> IsSettled(input, NamesOf(chosen), chosen[k], settled[k])
  }

  // -------------------------------------------------------------------------------------------------------------
  // Planning keeps needs earlier
  // -------------------------------------------------------------------------------------------------------------

  lemma HasNameAt(steps: seq<StepSpec>, j: nat)
    requires j < |steps|
    ensures HasName(steps, steps[j].name)
  {}

  lemma HasNameGrows(steps: seq<StepSpec>, last: StepSpec, name: string)
    ensures HasName(steps + [last], name) <==> HasName(steps, name) || last.name == name
  {
    var more := steps + [last];
    if HasName(steps, name) {
      var j :| 0 <= j < |steps| && steps[j].name == name;
      assert more[j].name == name;
    }
    assert more[|steps|] == last;
  }

  lemma {:induction false} ChosenHas(steps: seq<StepSpec>, only: Option<seq<string>>, name: string)
    ensures HasName(Chosen(steps, only), name) <==> HasName(steps, name) && (only.None? || name in only.value)
    decreases |steps|
  {
    if steps != [] {
      var front, last := steps[..|steps| - 1], steps[|steps| - 1];
      ChosenHas(front, only, name);
      assert steps == front + [last];
      HasNameGrows(front, last, name);
      HasNameGrows(Chosen(front, only), last, name);
      assert Chosen(front, only) + [] == Chosen(front, only);
    }
  }

  /** Whatever `only` keeps of a step's needs stays earlier. */
  lemma {:induction false} ChosenNeedsEarlier(steps: seq<StepSpec>, only: Option<seq<string>>, i: nat, need: string)
    requires NeedsEarlier(steps) && (only.None? || need in only.value)
    requires i < |Chosen(steps, only)| && need in Chosen(steps, only)[i].needs
    ensures HasName(Chosen(steps, only)[..i], need)
    decreases |steps|
  {
    var front, last := steps[..|steps| - 1], steps[|steps| - 1];
    var chosen := Chosen(front, only);
    FrontNeedsEarlier(steps);
    if i < |chosen| {
      ChosenNeedsEarlier(front, only, i, need);
      assert Chosen(steps, only)[..i] == chosen[..i];
    } else {
      assert HasName(steps[..|steps| - 1], need);
      ChosenHas(front, only, need);
      assert Chosen(steps, only)[..i] == chosen;
    }
  }

  lemma FrontNeedsEarlier(steps: seq<StepSpec>)
    requires NeedsEarlier(steps) && steps != []
    ensures NeedsEarlier(steps[..|steps| - 1])
  {
    var front := steps[..|steps| - 1];
    forall i, n | 0 <= i < |front| && n in front[i].needs
      ensures HasName(front[..i], n)
    {
      assert front[i] == steps[i] && front[..i] == steps[..i];
    }
  }

  lemma {:induction false} ChosenIsUnique(steps: seq<StepSpec>, only: Option<seq<string>>)
    requires UniquelyNamed(steps)
    ensures UniquelyNamed(Chosen(steps, only))
    decreases |steps|
  {
    if steps != [] {
      var front, last := steps[..|steps| - 1], steps[|steps| - 1];
      ChosenIsUnique(front, only);
      ChosenHas(front, only, last.name);
      var chosen := Chosen(front, only);
      forall j | 0 <= j < |chosen|
        ensures chosen[j].name != last.name
      {
        HasNameAt(chosen, j);
      }
    }
  }

  /** Main result: the settled plan keeps needs earlier, so the run never throws. */
  lemma PlanKeepsNeedsEarlier(steps: seq<StepSpec>, input: PlanInput, settled: seq<StepSpec>)
    requires NeedsEarlier(steps) && IsPlan(input, Chosen(steps, input.only), settled)
    ensures NeedsEarlier(settled)
  {
    hide Chosen;
    hide ReasonsOf;
    hide Join;
    hide Met;
    hide Unmet;
    var chosen := Chosen(steps, input.only);
    forall i, n | 0 <= i < |settled| && n in settled[i].needs
      ensures HasName(settled[..i], n)
    {
      assert IsSettled(input, NamesOf(chosen), chosen[i], settled[i]);
      assert n in NamesOf(chosen);
      var k :| 0 <= k < |chosen| && chosen[k].name == n;
      assert HasName(chosen, n);
      ChosenHas(steps, input.only, n);
      ChosenNeedsEarlier(steps, input.only, i, n);
      var j :| 0 <= j < i && chosen[..i][j].name == n;
      assert settled[..i][j].name == n;
    }
  }

  // -------------------------------------------------------------------------------------------------------------
  // What is run
  // -------------------------------------------------------------------------------------------------------------

  /** The need was ok before place `i`. */
  ghost predicate OkBefore(results: seq<Step>, i: nat, need: string)
    requires i <= |results|
  {
    exists j :: 0 <= j < i && results[j].name == need && results[j].status.Ok?
  }

  lemma {:induction false} UnmetIsEmpty(needs: seq<string>, results: seq<Step>)
    requires forall n :: n in needs ==> Find(results, n).Some?
    ensures UnmetOf(needs, results) == [] <==> forall n :: n in needs ==> Find(results, n).value.status.Ok?
    decreases |needs|
  {
    if needs != [] {
      var front, last := needs[..|needs| - 1], needs[|needs| - 1];
      assert needs == front + [last];
      UnmetIsEmpty(front, results);
      assert last in needs && forall n :: n in needs <==> n in front || n == last;
      hide Find;
    }
  }

  /** With unique names the result a need is judged by is the only one of its name. */
  lemma FoundOkExactly(settled: seq<StepSpec>, codes: seq<int>, results: seq<Step>, i: nat, need: string)
    requires AreResults(settled, codes, results) && UniquelyNamed(settled) && i < |results|
    requires Find(results[..i], need).Some?
    ensures Find(results[..i], need).value.status.Ok? <==> OkBefore(results, i, need)
  {
    hide Outcome;
    NamesFollow(settled, codes, results);
    FindFinds(results[..i], need);
    var found := Find(results[..i], need).value;
    var j :| 0 <= j < i && results[j] == found;
    forall k | 0 <= k < i && results[k].name == need
      ensures k == j
    {
      assert settled[k].name == settled[j].name;
    }
  }

  /** What a planned step needs to run: no reason of its own to be skipped, and each declared need met or ok before it. */
  ghost predicate Runs(input: PlanInput, step: StepSpec, results: seq<Step>, i: nat)
    requires i <= |results|
  {
    step.skip.None? && forall n :: n in step.needs ==> n in Met(input) || (n !in Unmet(input) && OkBefore(results, i, n))
  }

  /**
   * Main result: a step is run exactly when it has no reason of its own to be skipped and each need it declared is met
   * by a flag, or not ruled out by one and ok before it; and a step that runs is red exactly on a nonzero exit.
   */
  lemma RunsExactly(input: PlanInput, chosen: seq<StepSpec>, settled: seq<StepSpec>, codes: seq<int>, results: seq<Step>, i: nat)
    requires UniquelyNamed(chosen) && IsPlan(input, chosen, settled)
    requires AreResults(settled, codes, results) && i < |results| == |settled|
    ensures results[i].name == chosen[i].name
    ensures !results[i].status.Skipped? <==> Runs(input, chosen[i], results, i)
    ensures results[i].status.Red? <==> Runs(input, chosen[i], results, i) && codes[i] != 0
  {
    var selected := NamesOf(chosen);
    PlanNames(input, chosen, settled);
    NamesFollow(settled, codes, results);
    ResultAt(settled, codes, results, i);
    hide AreResults;
    forall n | n in chosen[i].needs
      ensures Judge(input, selected, n).Kept? ==>
                Find(results[..i], n).Some? && (Find(results[..i], n).value.status.Ok? <==> OkBefore(results, i, n))
      ensures Judge(input, selected, n).Reason? ==> n !in Met(input) && (n in Unmet(input) || !OkBefore(results, i, n))
    {
      NeedIsJudged(input, chosen, settled, codes, results, i, n);
    }
    assert IsSettled(input, selected, chosen[i], settled[i]);
    RunsAsSettled(input, selected, chosen[i], settled[i], results, i, codes[i]);
  }

  lemma PlanNames(input: PlanInput, chosen: seq<StepSpec>, settled: seq<StepSpec>)
    requires IsPlan(input, chosen, settled)
    ensures forall k :: 0 <= k < |chosen| ==> settled[k].name == chosen[k].name
  {
    assert forall k :: 0 <= k < |chosen| ==> IsSettled(input, NamesOf(chosen), chosen[k], settled[k]);
  }

  lemma ResultAt(steps: seq<StepSpec>, codes: seq<int>, results: seq<Step>, i: nat)
    requires AreResults(steps, codes, results) && i < |results|
    ensures forall n :: n in steps[i].needs ==> Find(results[..i], n).Some?
    ensures results[i] == Outcome(steps[i], results[..i], codes[i])
  {
    assert Follows(steps[i], results[..i], codes[i], results[i]);
  }

  lemma RunsAsSettled(input: PlanInput, selected: set<string>, step: StepSpec, settled: StepSpec, results: seq<Step>,
                      i: nat, code: int)
    requires IsSettled(input, selected, step, settled) && i < |results|
    requires forall n :: n in settled.needs ==> Find(results[..i], n).Some?
    requires forall n :: n in step.needs && Judge(input, selected, n).Kept? ==>
                Find(results[..i], n).Some? && (Find(results[..i], n).value.status.Ok? <==> OkBefore(results, i, n))
    requires forall n :: n in step.needs && Judge(input, selected, n).Reason? ==>
                n !in Met(input) && (n in Unmet(input) || !OkBefore(results, i, n))
    requires results[i] == Outcome(settled, results[..i], code)
    ensures !results[i].status.Skipped? <==> Runs(input, step, results, i)
    ensures results[i].status.Red? <==> Runs(input, step, results, i) && code != 0
  {
    UnmetIsEmpty(settled.needs, results[..i]);
    hide Find;
    hide UnmetOf;
    hide Met;
    hide Unmet;
    hide OkBefore;
    hide ReasonsOf;
    hide KeptOf;
    hide Join;
  }

  lemma NeedIsJudged(input: PlanInput, chosen: seq<StepSpec>, settled: seq<StepSpec>, codes: seq<int>, results: seq<Step>,
                     i: nat, n: string)
    requires UniquelyNamed(chosen) && |settled| == |chosen| && IsPlan(input, chosen, settled)
    requires forall k :: 0 <= k < |chosen| ==> settled[k].name == chosen[k].name
    requires AreResults(settled, codes, results) && i < |results| && n in chosen[i].needs
    ensures Judge(input, NamesOf(chosen), n).Kept? ==>
              Find(results[..i], n).Some? && (Find(results[..i], n).value.status.Ok? <==> OkBefore(results, i, n))
    ensures Judge(input, NamesOf(chosen), n).Reason? ==> n !in Met(input) && (n in Unmet(input) || !OkBefore(results, i, n))
  {
    hide Outcome;
    hide Find;
    hide Met;
    hide Unmet;
    NamesFollow(settled, codes, results);
    assert IsSettled(input, NamesOf(chosen), chosen[i], settled[i]);
    if Judge(input, NamesOf(chosen), n).Kept? {
      FoundOkExactly(settled, codes, results, i, n);
    }
    forall j | 0 <= j < i
      ensures results[j].name in NamesOf(chosen)
    {
      assert chosen[j] in chosen;
    }
  }

  /**
   * The flags, in plain terms: with services from outside a step that needs one runs just if its URL is given, and without
   * a build just if the artefact is there; otherwise on the step that provides it.
   */
  lemma NeedsByFlags(input: PlanInput, step: StepSpec, results: seq<Step>, i: nat)
    requires i <= |results| && step.skip.None?
    ensures step.needs == ["compose up"] ==>
              (Runs(input, step, results, i) <==>
               if input.external then input.postgresUrl.Some? && input.postgresUrl.value != ""
               else OkBefore(results, i, "compose up"))
    ensures step.needs == ["mailpit up"] ==>
              (Runs(input, step, results, i) <==>
               if input.external then input.mailpitUrl.Some? && input.mailpitUrl.value != ""
               else OkBefore(results, i, "mailpit up"))
    ensures step.needs == ["build"] ==>
              (Runs(input, step, results, i) <==> if input.noBuild then input.artefactPresent else OkBefore(results, i, "build"))
    ensures forall n :: step.needs == [n] && n !in {"compose up", "mailpit up", "build"} ==>
              (Runs(input, step, results, i) <==> OkBefore(results, i, n))
  {
    hide Met;
    hide Unmet;
    hide Runs;
    hide OkBefore;
    ServicesDiffer();
    forall n | step.needs == [n]
      ensures Runs(input, step, results, i) <==> n in Met(input) || (n !in Unmet(input) && OkBefore(results, i, n))
    {
      OneNeed(input, step, results, i, n);
    }
    forall n
      ensures n in Met(input) || n in Unmet(input) ==> n == "compose up" || n == "mailpit up" || n == "build"
    {
      MetIs(input, n);
      UnmetIs(input, n);
    }
    ServicesByFlags(input);
  }

  lemma ServicesByFlags(input: PlanInput)
    ensures "compose up" in Met(input) <==> input.external && input.postgresUrl.Some? && input.postgresUrl.value != ""
    ensures "compose up" in Met(input) || "compose up" in Unmet(input) <==> input.external
    ensures "mailpit up" in Met(input) <==> input.external && input.mailpitUrl.Some? && input.mailpitUrl.value != ""
    ensures "mailpit up" in Met(input) || "mailpit up" in Unmet(input) <==> input.external
    ensures "build" in Met(input) <==> input.noBuild && input.artefactPresent
    ensures "build" in Met(input) || "build" in Unmet(input) <==> input.noBuild
  {
    hide Met;
    hide Unmet;
    ServicesDiffer();
    MetIs(input, "compose up");
    MetIs(input, "mailpit up");
    MetIs(input, "build");
    UnmetIs(input, "compose up");
    UnmetIs(input, "mailpit up");
    UnmetIs(input, "build");
  }

  lemma OneNeed(input: PlanInput, step: StepSpec, results: seq<Step>, i: nat, n: string)
    requires i <= |results| && step.skip.None? && step.needs == [n]
    ensures Runs(input, step, results, i) <==> n in Met(input) || (n !in Unmet(input) && OkBefore(results, i, n))
  {
    hide Met;
    hide Unmet;
    hide OkBefore;
    assert n in step.needs && forall k :: k in step.needs ==> k == n;
  }

  lemma MetIs(input: PlanInput, n: string)
    ensures n in Met(input) <==>
            || (n == "compose up" && input.external && input.postgresUrl.Some? && input.postgresUrl.value != "")
            || (n == "mailpit up" && input.external && input.mailpitUrl.Some? && input.mailpitUrl.value != "")
            || (n == "build" && input.noBuild && input.artefactPresent)
  {}

  lemma UnmetIs(input: PlanInput, n: string)
    ensures n in Unmet(input) <==>
            || (n == "compose up" && input.external && !(input.postgresUrl.Some? && input.postgresUrl.value != ""))
            || (n == "mailpit up" && input.external && !(input.mailpitUrl.Some? && input.mailpitUrl.value != ""))
            || (n == "build" && input.noBuild && !input.artefactPresent)
  {
    hide Only;
    hide NoPostgres;
    hide NoMailpit;
    hide NoArtefact;
    OnlyHas(input.external && !Given(input.postgresUrl), "compose up", NoPostgres, n);
    OnlyHas(input.external && !Given(input.mailpitUrl), "mailpit up", NoMailpit, n);
    OnlyHas(input.noBuild && !input.artefactPresent, "build", NoArtefact, n);
  }

  lemma OnlyHas(when: bool, need: string, reason: string, n: string)
    ensures n in Only(when, need, reason) <==> when && n == need
  {}

  lemma ServicesDiffer()
    ensures "compose up" != "mailpit up" && "compose up" != "build" && "mailpit up" != "build"
  {
    assert "compose up"[0] == 'c' && "mailpit up"[0] == 'm' && "build"[0] == 'b';
  }

  // -------------------------------------------------------------------------------------------------------------
  // What a skipped step says
  // -------------------------------------------------------------------------------------------------------------

  lemma ReasonFor(input: PlanInput)
    ensures "compose up" in Unmet(input) ==> Unmet(input)["compose up"] == NoPostgres
    ensures "mailpit up" in Unmet(input) ==> Unmet(input)["mailpit up"] == NoMailpit
    ensures "build" in Unmet(input) ==> Unmet(input)["build"] == NoArtefact
  {
    hide NoPostgres, NoMailpit, NoArtefact;
    ServicesDiffer();
  }

  lemma SettledAlone(input: PlanInput, selected: set<string>, step: StepSpec, settled: StepSpec, n: string)
    requires IsSettled(input, selected, step, settled) && step.skip.None? && step.needs == [n]
    ensures var v := Judge(input, selected, n);
            && settled.needs == (if v.Kept? then [n] else [])
            && settled.skip == (if v.Reason? then Some(v.text) else None)
  {
    hide Judge;
    SettledGrows(input, selected, []);
    SettledGrows(input, selected, [n]);
    assert [n][..0] == [];
  }

  /** What the plan makes of a step with one need: for each flag that rules it out, and for `only`, its own words. */
  lemma PlanSays(input: PlanInput, selected: set<string>, step: StepSpec, settled: StepSpec, n: string)
    requires IsSettled(input, selected, step, settled) && step.skip.None? && step.needs == [n]
    ensures n == "compose up" && input.external && !Given(input.postgresUrl) ==>
              settled.skip == Some("NYMBAL_TEST_POSTGRES_URL is not set (--services external)")
    ensures n == "mailpit up" && input.external && !Given(input.mailpitUrl) ==>
              settled.skip == Some("NYMBAL_TEST_MAILPIT_URL is not set (--services external)")
    ensures n == "build" && input.noBuild && !input.artefactPresent ==>
              settled.skip == Some("the build artefact is not present (--no-build)")
    ensures n in Met(input) ==> settled.skip == None && settled.needs == []
    ensures n !in Met(input) && n !in Unmet(input) && n !in selected ==>
              settled.skip == Some("needs " + n + ", which --only leaves out") && settled.needs == []
    ensures n !in Met(input) && n !in Unmet(input) && n in selected ==> settled.skip == None && settled.needs == [n]
  {
    hide Met;
    hide Unmet;
    hide IsSettled;
    SettledAlone(input, selected, step, settled, n);
    ServicesDiffer();
    MetIs(input, n);
    UnmetIs(input, n);
    ReasonFor(input);
  }

  lemma {:induction false} JudgedInTurn(input: PlanInput, selected: set<string>, xs: seq<string>, ys: seq<string>)
    ensures KeptOf(input, selected, xs + ys) == KeptOf(input, selected, xs) + KeptOf(input, selected, ys)
    ensures ReasonsOf(input, selected, xs + ys) == ReasonsOf(input, selected, xs) + ReasonsOf(input, selected, ys)
    decreases |ys|
  {
    hide Judge;
    hide KeptOf;
    hide ReasonsOf;
    SettledGrows(input, selected, ys);
    if ys == [] {
      assert xs + ys == xs;
      NothingBehind(KeptOf(input, selected, xs));
      NothingBehind(ReasonsOf(input, selected, xs));
    } else {
      JudgedInTurn(input, selected, xs, ys[..|ys| - 1]);
      SettledGrows(input, selected, xs + ys);
      assert (xs + ys)[..|xs + ys| - 1] == xs + ys[..|ys| - 1];
    }
  }

  lemma NothingBehind(xs: seq<string>)
    ensures xs + [] == xs
  {}

  /** Any needs are settled as their parts are: those left in turn, and the reasons one after another. */
  lemma PlanSaysInTurn(input: PlanInput, selected: set<string>, step: StepSpec, xs: seq<string>, ys: seq<string>,
                       settled: StepSpec, first: StepSpec, second: StepSpec)
    requires step.skip.None? && step.needs == xs + ys && IsSettled(input, selected, step, settled)
    requires IsSettled(input, selected, step.(needs := xs), first) && IsSettled(input, selected, step.(needs := ys), second)
    ensures settled.needs == first.needs + second.needs
    ensures settled.skip == if first.skip.Some? && second.skip.Some? then Some(first.skip.value + "; " + second.skip.value)
                            else if first.skip.Some? then first.skip else second.skip
  {
    hide KeptOf;
    hide ReasonsOf;
    JudgedInTurn(input, selected, xs, ys);
    var before, after := ReasonsOf(input, selected, xs), ReasonsOf(input, selected, ys);
    assert before + [] == before && [] + after == after;
    if before != [] && after != [] {
      JoinConcat(before, after, "; ");
    }
  }

  /** What the run makes of a step: its own reason stands, and one need that is not ok is named with how it came out. */
  lemma RunSays(step: StepSpec, results: seq<Step>, code: int, n: string)
    requires step.needs == [n] && Find(results, n).Some?
    ensures var r, status := Outcome(step, results, code), Find(results, n).value.status;
            && r.name == step.name
            && (step.skip.Some? ==> r.status.Skipped? && r.reason == step.skip.value)
            && (step.skip.None? && status.Red? ==> r.status.Skipped? && r.reason == "needs " + (n + " (red)"))
            && (step.skip.None? && status.Skipped? ==> r.status.Skipped? && r.reason == "needs " + (n + " (skipped)"))
            && (step.skip.None? && status.Ok? ==> r.status == (if code == 0 then Ok else Red) && r.reason == "")
  {
    hide Find;
    UnmetAlone(results, n);
    assert forall k :: k in step.needs ==> k == n;
    if step.skip.None? && !Find(results, n).value.status.Ok? {
      JoinUnfolds(UnmetOf(step.needs, results), ", ");
    }
  }

  lemma UnmetAlone(results: seq<Step>, n: string)
    requires Find(results, n).Some?
    ensures UnmetOf([n], results)
         == match Find(results, n).value.status
            case Ok => []
            case Red => [n + " (red)"]
            case Skipped => [n + " (skipped)"]
  {
    hide Find;
    assert [n][..0] == [];
    assert (n + " (" + "red") + ")" == n + " (red)";
    assert (n + " (" + "skipped") + ")" == n + " (skipped)";
  }

  lemma {:induction false} UnmetInTurn(xs: seq<string>, ys: seq<string>, results: seq<Step>)
    requires forall n :: n in xs + ys ==> Find(results, n).Some?
    ensures forall n :: n in xs || n in ys ==> n in xs + ys
    ensures UnmetOf(xs + ys, results) == UnmetOf(xs, results) + UnmetOf(ys, results)
    decreases |ys|
  {
    hide Find;
    if ys == [] {
      assert xs + ys == xs;
    } else {
      assert (xs + ys)[..|xs + ys| - 1] == xs + ys[..|ys| - 1];
      UnmetInTurn(xs, ys[..|ys| - 1], results);
    }
  }

  /** Any needs are answered for as their parts are: the step waits for both, and names what of either is not ok in turn. */
  lemma RunSaysInTurn(step: StepSpec, xs: seq<string>, ys: seq<string>, results: seq<Step>, code: int)
    requires step.skip.None? && step.needs == xs + ys && forall n :: n in xs + ys ==> Find(results, n).Some?
    ensures forall n :: n in xs || n in ys ==> n in xs + ys
    ensures var r := Outcome(step, results, code);
            var first, second := Outcome(step.(needs := xs), results, code), Outcome(step.(needs := ys), results, code);
            && (!first.status.Skipped? ==> r == second)
            && (!second.status.Skipped? ==> r == first)
            && (first.status.Skipped? && second.status.Skipped? ==>
                  && |first.reason| >= 6 && |second.reason| >= 6 && r.status.Skipped?
                  && r.reason == "needs " + (first.reason[6..] + ", " + second.reason[6..]))
  {
    hide Find;
    hide UnmetOf;
    UnmetInTurn(xs, ys, results);
    var before, after := UnmetOf(xs, results), UnmetOf(ys, results);
    assert before + [] == before && [] + after == after;
    if before != [] && after != [] {
      JoinConcat(before, after, ", ");
      assert ("needs " + Join(before, ", "))[6..] == Join(before, ", ");
      assert ("needs " + Join(after, ", "))[6..] == Join(after, ", ");
    }
  }

  /**
   * Main result: planning and running a plan of uniquely named steps whose needs are earlier fails only on an unknown
   * `only` name; every chosen step gets its result in plan order, and the exit code is 1 exactly when some step is red.
   */
  method RunPlan(steps: seq<StepSpec>, input: PlanInput, codes: seq<int>) returns (r: Option<RunResult>)
    requires UniquelyNamed(steps) && NeedsEarlier(steps) && |codes| == |Chosen(steps, input.only)|
    ensures r.None? <==> input.only.Some? && exists name :: name in input.only.value && name !in NamesOf(steps)
    ensures r.Some? ==> r.value.Ran? && |r.value.steps| == |Chosen(steps, input.only)|
    ensures r.Some? ==> forall i :: 0 <= i < |r.value.steps| ==>
                          && r.value.steps[i].name == Chosen(steps, input.only)[i].name
                          && (!r.value.steps[i].status.Skipped? <==> Runs(input, Chosen(steps, input.only)[i], r.value.steps, i))
                          && (r.value.steps[i].status.Red? <==>
                              Runs(input, Chosen(steps, input.only)[i], r.value.steps, i) && codes[i] != 0)
    ensures r.Some? ==> (r.value.exitCode == 1 <==> exists s :: s in r.value.steps && s.status.Red?)
  {
    var plan := Select(steps, input);
    if plan.None? {
      return None;
    }
    PlanKeepsNeedsEarlier(steps, input, plan.value);
    ChosenIsUnique(steps, input.only);
    var run := Run(plan.value, codes);
    hide Chosen;
    hide AreResults;
    hide IsPlan;
    hide Runs;
    forall i | 0 <= i < |run.steps|
      ensures && run.steps[i].name == Chosen(steps, input.only)[i].name
              && (!run.steps[i].status.Skipped? <==> Runs(input, Chosen(steps, input.only)[i], run.steps, i))
              && (run.steps[i].status.Red? <==> Runs(input, Chosen(steps, input.only)[i], run.steps, i) && codes[i] != 0)
    {
      RunsExactly(input, Chosen(steps, input.only), plan.value, codes, run.steps, i);
    }
    r := Some(run);
  }
}
