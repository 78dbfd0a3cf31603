/** `compress_videos_in_directory`: walk the input tree, pick the `.mkv` files,
    skip those whose base name already has an output, compress the rest one
    at a time, stop as soon as the flag is seen after a job, and finally run
    the chosen power action. */
module Batch {
  import opened Wrappers
  import opened Text
  import opened Transcode

  /** The settings of one run. */
  datatype Config = Config(outputDir: string, bitrate: string, extension: string, postTask: string, useGpu: bool)

  /** One file the directory walk yields: the directory it was found in and its name. */
  datatype Entry = Entry(root: string, file: string)

  /** What the outside world does for one input when its turn comes: the
      probe's diagnostic text and the encoder's diagnostic lines (`None`:
      the process could not be started), and whether the encoder leaves an
      entry named after the output in the output directory. */
  datatype JobIO = JobIO(probe: Option<string>, stream: Option<seq<string>>, leavesOutput: bool)

  const SourceSuffix: string := ".mkv"

  /** Files the batch considers: the lower-cased name ends in `.mkv`. Character
      by character, the last four characters of the name are a dot, `m` or `M`,
      `k`, `K` or the KELVIN SIGN, and `v` or `V`; nothing before them matters. */
  predicate IsCandidate(file: string)
    ensures IsCandidate(file) <==>
              && |file| >= 4
              && file[|file| - 4] == '.'
              && (file[|file| - 3] == 'm' || file[|file| - 3] == 'M')
              && (file[|file| - 2] == 'k' || file[|file| - 2] == 'K' || file[|file| - 2] == '\U{212A}')
              && (file[|file| - 1] == 'v' || file[|file| - 1] == 'V')
  {
    LowerSuffix(file);
    EndsWith(Lower(file), SourceSuffix)
  }

  /** The lower-cased name ends in `.mkv` exactly when its last four
      characters lower to `.`, `m`, `k` and `v`. */
  lemma LowerSuffix(file: string)
    ensures EndsWith(Lower(file), SourceSuffix) <==>
              && |file| >= 4
              && file[|file| - 4] == '.'
              && (file[|file| - 3] == 'm' || file[|file| - 3] == 'M')
              && (file[|file| - 2] == 'k' || file[|file| - 2] == 'K' || file[|file| - 2] == '\U{212A}')
              && (file[|file| - 1] == 'v' || file[|file| - 1] == 'V')
  {
    var low := Lower(file);
    if |file| >= 4 {
      var n := |file|;
      assert low[n - 4..] == [low[n - 4], low[n - 3], low[n - 2], low[n - 1]];
      LowerCharIs(file[n - 4], '.');
      LowerCharIs(file[n - 3], 'm');
      LowerCharIs(file[n - 2], 'k');
      LowerCharIs(file[n - 1], 'v');
    }
  }

  /** The characters `str.lower` maps to the lower-case letter or dot `c`. */
  lemma LowerCharIs(x: char, c: char)
    requires c == '.' || c == 'm' || c == 'k' || c == 'v'
    ensures LowerChar(x) == c <==>
              x == c || (c != '.' && x as int == c as int - 32) || (c == 'k' && x == '\U{212A}')
  {
  }

  /** The `.mkv` test ignores case and looks only at the end of the name. */
  lemma CandidateExamples()
    ensures IsCandidate("Movie.MKV") && IsCandidate("a.Mkv")
    ensures !IsCandidate("movie.mkv.txt") && !IsCandidate("mkv")
  {
    assert Lower("Movie.MKV")[5..] == ".mkv";
    assert Lower("a.Mkv")[1..] == ".mkv";
    assert Lower("movie.mkv.txt")[9..] != ".mkv" by {
      assert Lower("movie.mkv.txt")[9] == '.' && Lower("movie.mkv.txt")[10] == 't';
    }
  }

  /** Some entry of the output directory has base name `base`. */
  predicate HasOutput(listing: set<string>, base: string) {
    exists f :: f in listing && Root(f) == base
  }

  /** Name of the output of `file`: its base name with the configured extension. */
  function OutputName(cfg: Config, file: string): string {
    Root(file) + cfg.extension
  }

  /** The job for one input: read from where the walk found it, written into
      the output directory under its output name. */
  function JobFor(cfg: Config, e: Entry): (job: Job)
    ensures EndsWith(job.input, e.file) && EndsWith(job.output, OutputName(cfg, e.file))
    ensures job.bitrate == cfg.bitrate && job.useGpu == cfg.useGpu
    ensures |e.file| > 0 && e.file[0] != '/' && e.root != [] && e.root[|e.root| - 1] != '/' ==>
              job.input == e.root + "/" + e.file
    ensures var name := OutputName(cfg, e.file);
            |name| > 0 && name[0] != '/' && cfg.outputDir != [] && cfg.outputDir[|cfg.outputDir| - 1] != '/' ==>
              job.output == cfg.outputDir + "/" + name
    ensures NoSlash(e.file) ==> Basename(job.input) == e.file
    ensures NoSlash(e.file) && NoSlash(cfg.extension) ==> Basename(job.output) == OutputName(cfg, e.file)
  {
    JobNames(cfg, e);
    Job(Join(e.root, e.file), Join(cfg.outputDir, OutputName(cfg, e.file)), cfg.bitrate, cfg.useGpu)
  }

  /** A name without a `/`, as the directory walk yields them. */
  predicate NoSlash(s: string) {
    forall i :: 0 <= i < |s| ==> s[i] != '/'
  }

  /** The base names of the two joined paths are the input's name and its
      output name, the one the skip rule later finds in the listing. */
  lemma JobNames(cfg: Config, e: Entry)
    ensures NoSlash(e.file) ==> Basename(Join(e.root, e.file)) == e.file
    ensures NoSlash(e.file) && NoSlash(cfg.extension) ==>
              Basename(Join(cfg.outputDir, OutputName(cfg, e.file))) == OutputName(cfg, e.file)
  {
    if NoSlash(e.file) {
      BasenameOfJoin(e.root, e.file);
      if NoSlash(cfg.extension) {
        var name := OutputName(cfg, e.file);
        var split := SplitExt(e.file);
        assert split.0 + split.1 == e.file;
        assert forall i :: 0 <= i < |split.0| ==> split.0[i] == e.file[i];
        assert forall i :: 0 <= i < |name| ==> name[i] != '/' by {
          forall i | 0 <= i < |name|
            ensures name[i] != '/'
          {
            if i >= |split.0| {
              assert name[i] == cfg.extension[i - |split.0|];
            }
          }
        }
        BasenameOfJoin(cfg.outputDir, name);
      }
    }
  }

  /** The entries of the walk the batch considers, in walk order. */
  function Candidates(walk: seq<Entry>): (cs: seq<Entry>)
    ensures |cs| <= |walk|
    ensures forall i :: 0 <= i < |cs| ==> IsCandidate(cs[i].file)
  {
    if walk == [] then []
    else (if IsCandidate(walk[0].file) then [walk[0]] else []) + Candidates(walk[1..])
  }

  /** An entry is a candidate of the walk exactly when the walk yields it and
      its name passes the `.mkv` test. */
  lemma {:induction false} CandidatesMembers(walk: seq<Entry>, e: Entry)
    ensures e in Candidates(walk) <==> e in walk && IsCandidate(e.file)
    decreases |walk|
  {
    if walk != [] {
      CandidatesMembers(walk[1..], e);
      assert walk == [walk[0]] + walk[1..];
    }
  }

  /** What happened to one candidate. */
  datatype Step =
    | Skipped(entry: Entry)
    | Processed(entry: Entry, run: JobRun, wrote: bool)

  /** Names the processed steps added to the output directory. */
  function Written(cfg: Config, steps: seq<Step>): set<string> {
    if steps == [] then {}
    else
      (if steps[0].Processed? && steps[0].wrote then {OutputName(cfg, steps[0].entry.file)} else {})
      + Written(cfg, steps[1..])
  }

  /** The outcome of a walk: one step per candidate reached, whether the flag
      stopped it, the output directory's final listing, the next poll number. */
  datatype Walked = Walked(steps: seq<Step>, stopped: bool, listing: set<string>, nextPoll: nat)

  /** Whether the encoder ran for a job and left its output behind. */
  predicate Wrote(run: JobRun, jio: JobIO) {
    run.invoked.Some? && jio.stream.Some? && jio.leavesOutput
  }

  /** What happens to candidate `e` when its turn comes with the output
      directory listing `listing`: it is skipped if some entry there has its
      base name, and otherwise compressed by `run(e, poll)`. */
  function StepFor(cfg: Config, run: (Entry, nat) -> JobRun, io: Entry -> JobIO,
                   e: Entry, listing: set<string>, poll: nat): Step {
    if HasOutput(listing, Root(e.file)) then Skipped(e)
    else
      var r := run(e, poll);
      Processed(e, r, Wrote(r, io(e)))
  }

  /** Whether the flag check after `step` ends the walk. */
  predicate Stops(token: Token, step: Step) {
    step.Processed? && token.SeenAt(step.run.nextPoll)
  }

  /** The number of the next poll after `step`: a skip polls nothing, a job
      polls during its run and once more after it. */
  function PollAfter(step: Step, poll: nat): nat {
    if step.Processed? then step.run.nextPoll + 1 else poll
  }

  /** The nested `for` loops over the candidates of the walk, with `run(e, p)`
      standing for the `compress_video` call on entry `e` whose first poll of
      the flag is poll number `p`. `listing` is what `os.listdir` of the
      output directory shows when the next candidate is reached. Entries that
      are not candidates do nothing, not even poll the flag, so the walk may
      as well go over the candidates alone. */
  function WalkWith(cfg: Config, run: (Entry, nat) -> JobRun, io: Entry -> JobIO, token: Token,
                    cands: seq<Entry>, listing: set<string>, poll: nat): (r: Walked)
    ensures r.stopped ==> r.steps != [] && Stops(token, r.steps[|r.steps| - 1])
    decreases |cands|
  {
    if cands == [] then Walked([], false, listing, poll)
    else
      var step := StepFor(cfg, run, io, cands[0], listing, poll);
      var listing' := listing + Written(cfg, [step]);
      if Stops(token, step) then Walked([step], true, listing', PollAfter(step, poll))
      else
        var rest := WalkWith(cfg, run, io, token, cands[1..], listing', PollAfter(step, poll));
        Walked([step] + rest.steps, rest.stopped, rest.listing, rest.nextPoll)
  }

  /** `compress_video` as the batch calls it for entry `e`. */
  function Runner(cfg: Config, cbs: Callbacks, io: Entry -> JobIO, token: Token): (Entry, nat) -> JobRun {
    (e: Entry, p: nat) => CompressVideo(JobFor(cfg, e), cbs, io(e).probe, io(e).stream, token, p)
  }

  /** The walk of `compress_videos_in_directory`. */
  function Walk(cfg: Config, cbs: Callbacks, io: Entry -> JobIO, token: Token,
                walk: seq<Entry>, listing: set<string>, poll: nat): Walked {
    WalkWith(cfg, Runner(cfg, cbs, io, token), io, token, Candidates(walk), listing, poll)
  }

  /** The command the post-task runs: shutdown or hibernate, nothing otherwise. */
  function PostCommand(postTask: string): (cmd: Option<string>)
    ensures cmd == Some("shutdown /s /t 1") <==> postTask == "shutdown"
    ensures cmd == Some("shutdown /h /t 1") <==> postTask == "hibernate"
    ensures cmd.None? <==> postTask != "shutdown" && postTask != "hibernate"
  {
    if postTask == "shutdown" then Some("shutdown /s /t 1")
    else if postTask == "hibernate" then Some("shutdown /h /t 1")
    else None
  }

  /** The outcome of a whole run: the steps, whether the flag stopped it, and
      the power command issued at the end, if any. */
  datatype BatchRun = BatchRun(steps: seq<Step>, stopped: bool, post: Option<string>, listing: set<string>)

  /** `compress_videos_in_directory` over the walk `walk` with the output
      directory initially listing `listing`; polls are numbered from 0. */
  function RunBatch(cfg: Config, cbs: Callbacks, io: Entry -> JobIO, token: Token,
                    walk: seq<Entry>, listing: set<string>): (r: BatchRun)
    ensures r.post.Some? <==> !r.stopped && (cfg.postTask == "shutdown" || cfg.postTask == "hibernate")
    ensures !r.stopped ==> r.post == PostCommand(cfg.postTask)
  {
    var w := Walk(cfg, cbs, io, token, walk, listing, 0);
    BatchRun(w.steps, w.stopped, if w.stopped then None else PostCommand(cfg.postTask), w.listing)
  }

  // ---------------------------------------------------------------------------
  // Which candidates are visited, and in what order

  lemma {:induction false} WrittenAppend(cfg: Config, a: seq<Step>, b: seq<Step>)
    ensures Written(cfg, a + b) == Written(cfg, a) + Written(cfg, b)
    decreases |a|
  {
    if a != [] {
      assert (a + b)[0] == a[0];
      assert (a + b)[1..] == a[1..] + b;
      WrittenAppend(cfg, a[1..], b);
    } else {
      assert a + b == b;
    }
  }

  /** The steps are the candidates' in order, one each, and all of them
      unless the walk was stopped. */
  predicate FollowsCandidates(cands: seq<Entry>, w: Walked) {
    && |w.steps| <= |cands|
    && (forall i :: 0 <= i < |w.steps| ==> w.steps[i].entry == cands[i])
    && (!w.stopped ==> |w.steps| == |cands|)
  }

  /** The walk meets the candidates in order, one step each, and visits them
      all unless the flag stopped it. */
  lemma {:induction false} WalkVisitsCandidates(cfg: Config, run: (Entry, nat) -> JobRun, io: Entry -> JobIO,
                                                token: Token, cands: seq<Entry>, listing: set<string>, poll: nat)
    ensures FollowsCandidates(cands, WalkWith(cfg, run, io, token, cands, listing, poll))
    decreases |cands|
  {
    if cands != [] {
      var r := WalkWith(cfg, run, io, token, cands, listing, poll);
      var step := StepFor(cfg, run, io, cands[0], listing, poll);
      if !Stops(token, step) {
        var listing' := listing + Written(cfg, [step]);
        WalkVisitsCandidates(cfg, run, io, token, cands[1..], listing', PollAfter(step, poll));
        var rest := WalkWith(cfg, run, io, token, cands[1..], listing', PollAfter(step, poll));
        assert r.steps == [step] + rest.steps;
      }
    }
  }

  /** The final listing is `listing` plus the outputs the steps wrote. */
  predicate ListingOf(cfg: Config, listing: set<string>, w: Walked) {
    w.listing == listing + Written(cfg, w.steps)
  }

  /** The listing rule for a walk that starts with `first`, from the rule for
      the rest of it against the listing `first` leaves behind. */
  lemma ListingShift(cfg: Config, listing: set<string>, listing': set<string>, first: Step, rest: Walked)
    requires listing' == listing + Written(cfg, [first])
    requires ListingOf(cfg, listing', rest)
    ensures ListingOf(cfg, listing, Walked([first] + rest.steps, rest.stopped, rest.listing, rest.nextPoll))
  {
    WrittenAppend(cfg, [first], rest.steps);
  }

  /** The final listing is the initial one plus the outputs the processed
      steps wrote. */
  lemma {:induction false} WalkListing(cfg: Config, run: (Entry, nat) -> JobRun, io: Entry -> JobIO,
                                       token: Token, cands: seq<Entry>, listing: set<string>, poll: nat)
    ensures ListingOf(cfg, listing, WalkWith(cfg, run, io, token, cands, listing, poll))
    decreases |cands|
  {
    if cands != [] {
      var step := StepFor(cfg, run, io, cands[0], listing, poll);
      var listing' := listing + Written(cfg, [step]);
      if !Stops(token, step) {
        WalkListing(cfg, run, io, token, cands[1..], listing', PollAfter(step, poll));
        var rest := WalkWith(cfg, run, io, token, cands[1..], listing', PollAfter(step, poll));
        ListingShift(cfg, listing, listing', step, rest);
      } else {
        assert Written(cfg, [step]) == Written(cfg, [step]) + Written(cfg, []);
      }
    }
  }

  // ---------------------------------------------------------------------------
  // When the walk stops, and which candidates it skips

  /** Every job after which the flag is seen is the last step of a stopped walk. */
  predicate EndsAtFlag(token: Token, w: Walked) {
    forall i :: 0 <= i < |w.steps| && Stops(token, w.steps[i]) ==> i == |w.steps| - 1 && w.stopped
  }

  /** After each job the flag is checked once more: a job after which the flag
      is seen is the last step, and the walk is reported as stopped. */
  lemma {:induction false} WalkStopsAtFlag(cfg: Config, run: (Entry, nat) -> JobRun, io: Entry -> JobIO,
                                           token: Token, cands: seq<Entry>, listing: set<string>, poll: nat)
    ensures EndsAtFlag(token, WalkWith(cfg, run, io, token, cands, listing, poll))
    decreases |cands|
  {
    if cands != [] {
      var r := WalkWith(cfg, run, io, token, cands, listing, poll);
      var step := StepFor(cfg, run, io, cands[0], listing, poll);
      if !Stops(token, step) {
        var listing' := listing + Written(cfg, [step]);
        WalkStopsAtFlag(cfg, run, io, token, cands[1..], listing', PollAfter(step, poll));
        var rest := WalkWith(cfg, run, io, token, cands[1..], listing', PollAfter(step, poll));
        assert r.steps == [step] + rest.steps;
      }
    }
  }

  /** Each step is a skip exactly when, at its turn, the listing `listing`
      extended by what the earlier steps wrote has an entry with its base name. */
  predicate SkipRule(cfg: Config, listing: set<string>, steps: seq<Step>) {
    forall i :: 0 <= i < |steps| ==>
      (steps[i].Skipped? <==> HasOutput(listing + Written(cfg, steps[..i]), Root(steps[i].entry.file)))
  }

  /** The skip rule for `[first] + rest`, from the rule for `rest` against the
      listing `first` leaves behind. */
  lemma SkipsShift(cfg: Config, listing: set<string>, listing': set<string>, first: Step, rest: seq<Step>)
    requires listing' == listing + Written(cfg, [first])
    requires first.Skipped? <==> HasOutput(listing, Root(first.entry.file))
    requires SkipRule(cfg, listing', rest)
    ensures SkipRule(cfg, listing, [first] + rest)
  {
    var steps := [first] + rest;
    forall i | 1 <= i < |steps|
      ensures steps[i].Skipped? <==> HasOutput(listing + Written(cfg, steps[..i]), Root(steps[i].entry.file))
    {
      ListingBefore(cfg, listing, listing', first, rest, i);
    }
    assert steps[..0] == [] && listing + Written(cfg, []) == listing;
  }

  /** The listing the `i`-th step of `[first] + rest` meets is the one the
      `i - 1`-th step of `rest` meets once `first` has written its output. */
  lemma ListingBefore(cfg: Config, listing: set<string>, listing': set<string>, first: Step, rest: seq<Step>, i: nat)
    requires listing' == listing + Written(cfg, [first])
    requires 1 <= i <= |rest|
    ensures listing + Written(cfg, ([first] + rest)[..i]) == listing' + Written(cfg, rest[..i - 1])
  {
    assert ([first] + rest)[..i] == [first] + rest[..i - 1];
    WrittenAppend(cfg, [first], rest[..i - 1]);
  }

  /** A candidate is skipped exactly when, at its turn, the output directory
      holds an entry with its base name: one that was there from the start or
      one an earlier job of the same walk wrote. */
  lemma {:induction false} WalkSkips(cfg: Config, run: (Entry, nat) -> JobRun, io: Entry -> JobIO,
                                     token: Token, cands: seq<Entry>, listing: set<string>, poll: nat)
    ensures SkipRule(cfg, listing, WalkWith(cfg, run, io, token, cands, listing, poll).steps)
    decreases |cands|
  {
    if cands != [] {
      var r := WalkWith(cfg, run, io, token, cands, listing, poll);
      var step := StepFor(cfg, run, io, cands[0], listing, poll);
      var listing' := listing + Written(cfg, [step]);
      if !Stops(token, step) {
        WalkSkips(cfg, run, io, token, cands[1..], listing', PollAfter(step, poll));
        var rest := WalkWith(cfg, run, io, token, cands[1..], listing', PollAfter(step, poll));
        SkipsShift(cfg, listing, listing', step, rest.steps);
        assert r.steps == [step] + rest.steps;
      } else {
        SkipsShift(cfg, listing, listing', step, []);
        assert r.steps == [step] + [];
      }
    }
  }

  /** `P` holds of every processed step's entry and run. */
  predicate RunsSatisfy(steps: seq<Step>, P: (Entry, JobRun) -> bool) {
    forall i :: 0 <= i < |steps| && steps[i].Processed? ==> P(steps[i].entry, steps[i].run)
  }

  /** Every job the walk starts is `run` applied to its entry, so whatever
      holds of all such runs holds of the runs the steps record. */
  lemma {:induction false} WalkRunsSatisfy(cfg: Config, run: (Entry, nat) -> JobRun, io: Entry -> JobIO,
                                           token: Token, cands: seq<Entry>, listing: set<string>, poll: nat,
                                           P: (Entry, JobRun) -> bool)
    requires forall e, p :: P(e, run(e, p))
    ensures RunsSatisfy(WalkWith(cfg, run, io, token, cands, listing, poll).steps, P)
    decreases |cands|
  {
    if cands != [] {
      var r := WalkWith(cfg, run, io, token, cands, listing, poll);
      var step := StepFor(cfg, run, io, cands[0], listing, poll);
      assert step.Processed? ==> P(step.entry, step.run);
      if !Stops(token, step) {
        var listing' := listing + Written(cfg, [step]);
        WalkRunsSatisfy(cfg, run, io, token, cands[1..], listing', PollAfter(step, poll), P);
        var rest := WalkWith(cfg, run, io, token, cands[1..], listing', PollAfter(step, poll));
        assert r.steps == [step] + rest.steps;
      }
    }
  }

  // ---------------------------------------------------------------------------
  // The walk `compress_videos_in_directory` performs

  /** What every `compress_video` run in the batch satisfies: it invokes the
      encoder command of its entry's job, and it is cancelled only once the
      flag is up at the poll that follows it. */
  predicate JobOk(cfg: Config, token: Token, e: Entry, jr: JobRun) {
    && (jr.invoked.Some? ==> jr.invoked.value == Command(JobFor(cfg, e)))
    && (jr.outcome.Cancelled? ==> token.SeenAt(jr.nextPoll))
  }

  lemma RunnerOk(cfg: Config, cbs: Callbacks, io: Entry -> JobIO, token: Token)
    ensures forall e, p :: JobOk(cfg, token, e, Runner(cfg, cbs, io, token)(e, p))
  {
    forall e, p
      ensures JobOk(cfg, token, e, Runner(cfg, cbs, io, token)(e, p))
    {
      var jr := CompressVideo(JobFor(cfg, e), cbs, io(e).probe, io(e).stream, token, p);
      if jr.outcome.Cancelled? {
        SeenLater(token, jr.nextPoll - 1, jr.nextPoll);
      }
    }
  }

  /** The walk over a directory tree: its steps are the `.mkv` entries' in walk
      order, skipped by the listing rule; every job runs its entry's command; a
      cancelled job, or any job after which the flag is seen, ends the walk;
      and the output directory ends up holding what the jobs wrote. */
  lemma WalkFacts(cfg: Config, cbs: Callbacks, io: Entry -> JobIO, token: Token,
                  walk: seq<Entry>, listing: set<string>, poll: nat)
    ensures var w := Walk(cfg, cbs, io, token, walk, listing, poll);
            && FollowsCandidates(Candidates(walk), w)
            && SkipRule(cfg, listing, w.steps)
            && EndsAtFlag(token, w)
            && RunsSatisfy(w.steps, (e, jr) => JobOk(cfg, token, e, jr))
            && ListingOf(cfg, listing, w)
  {
    var run := Runner(cfg, cbs, io, token);
    var cands := Candidates(walk);
    WalkVisitsCandidates(cfg, run, io, token, cands, listing, poll);
    WalkSkips(cfg, run, io, token, cands, listing, poll);
    WalkStopsAtFlag(cfg, run, io, token, cands, listing, poll);
    RunnerOk(cfg, cbs, io, token);
    WalkRunsSatisfy(cfg, run, io, token, cands, listing, poll, (e, jr) => JobOk(cfg, token, e, jr));
    WalkListing(cfg, run, io, token, cands, listing, poll);
  }

  /** A job that ends cancelled is the last one the batch runs, and no power
      action follows. */
  lemma CancelEndsBatch(cfg: Config, cbs: Callbacks, io: Entry -> JobIO, token: Token,
                        walk: seq<Entry>, listing: set<string>, i: nat)
    requires var b := RunBatch(cfg, cbs, io, token, walk, listing);
             i < |b.steps| && b.steps[i].Processed? && b.steps[i].run.outcome.Cancelled?
    ensures var b := RunBatch(cfg, cbs, io, token, walk, listing);
            i == |b.steps| - 1 && b.stopped && b.post.None?
  {
    WalkFacts(cfg, cbs, io, token, walk, listing, 0);
    var w := Walk(cfg, cbs, io, token, walk, listing, 0);
    assert JobOk(cfg, token, w.steps[i].entry, w.steps[i].run);
    assert Stops(token, w.steps[i]);
  }

  // ---------------------------------------------------------------------------
  // Running the batch again

  /** Every candidate skipped. */
  function AllSkipped(cands: seq<Entry>): (steps: seq<Step>)
    ensures |steps| == |cands|
    ensures forall i :: 0 <= i < |cands| ==> steps[i] == Skipped(cands[i])
  {
    seq(|cands|, i requires 0 <= i < |cands| => Skipped(cands[i]))
  }

  /** Every candidate's base name has an entry in `listing`. */
  predicate Covered(listing: set<string>, cands: seq<Entry>) {
    forall i :: 0 <= i < |cands| ==> HasOutput(listing, Root(cands[i].file))
  }

  /** When every candidate already has an output, the walk skips them all,
      starts no job, never polls the flag and leaves the listing alone. */
  lemma {:induction false} WalkSkipsAll(cfg: Config, run: (Entry, nat) -> JobRun, io: Entry -> JobIO,
                                        token: Token, cands: seq<Entry>, listing: set<string>, poll: nat)
    requires Covered(listing, cands)
    ensures WalkWith(cfg, run, io, token, cands, listing, poll) == Walked(AllSkipped(cands), false, listing, poll)
    decreases |cands|
  {
    if cands != [] {
      CoveredTail(listing, cands);
      var step := StepFor(cfg, run, io, cands[0], listing, poll);
      assert step == Skipped(cands[0]);
      SkipWritesNothing(cfg, listing, cands[0]);
      WalkSkipsAll(cfg, run, io, token, cands[1..], listing, poll);
      AllSkippedCons(cands);
    }
  }

  lemma CoveredTail(listing: set<string>, cands: seq<Entry>)
    requires Covered(listing, cands) && cands != []
    ensures HasOutput(listing, Root(cands[0].file)) && Covered(listing, cands[1..])
  {
    forall i | 0 <= i < |cands| - 1
      ensures HasOutput(listing, Root(cands[1..][i].file))
    {
      assert cands[1..][i] == cands[i + 1];
    }
  }

  lemma SkipWritesNothing(cfg: Config, listing: set<string>, e: Entry)
    ensures listing + Written(cfg, [Skipped(e)]) == listing
  {
    assert Written(cfg, [Skipped(e)]) == {};
  }

  lemma AllSkippedCons(cands: seq<Entry>)
    requires cands != []
    ensures AllSkipped(cands) == [Skipped(cands[0])] + AllSkipped(cands[1..])
  {
  }

  /** A processed step that wrote leaves its output name in `Written`. */
  lemma {:induction false} WrittenHas(cfg: Config, steps: seq<Step>, i: nat)
    requires i < |steps| && steps[i].Processed? && steps[i].wrote
    ensures OutputName(cfg, steps[i].entry.file) in Written(cfg, steps)
    decreases i
  {
    if i > 0 {
      WrittenHas(cfg, steps[1..], i - 1);
    }
  }

  /** `Written` only grows along the steps. */
  lemma WrittenPrefix(cfg: Config, steps: seq<Step>, i: nat)
    requires i <= |steps|
    ensures Written(cfg, steps[..i]) <= Written(cfg, steps)
  {
    WrittenAppend(cfg, steps[..i], steps[i..]);
    assert steps[..i] + steps[i..] == steps;
  }

  /** A candidate's base name contains a character other than a dot. */
  lemma CandidateRoot(file: string)
    requires IsCandidate(file)
    ensures HasNonDot(Root(file))
  {
    if SplitExt(file).1 == [] {
      var n := |file|;
      assert Lower(file)[n - 1] == 'v';
      assert LowerChar(file[n - 1]) == 'v';
      assert file[n - 1] != '.';
    }
  }

  /** With a well-formed extension, the output's base name is the input's. */
  lemma OutputRoot(cfg: Config, file: string)
    requires IsExtension(cfg.extension) && IsCandidate(file)
    ensures Root(OutputName(cfg, file)) == Root(file)
  {
    CandidateRoot(file);
    SplitExtUnique(OutputName(cfg, file), Root(file), cfg.extension);
  }

  /** Every processed step wrote its output. */
  predicate AllWrote(steps: seq<Step>) {
    forall i :: 0 <= i < |steps| && steps[i].Processed? ==> steps[i].wrote
  }

  /** After a walk that ran to the end with every job leaving its output, each
      candidate has an output with its base name in the final listing. */
  lemma WalkCovers(cfg: Config, run: (Entry, nat) -> JobRun, io: Entry -> JobIO,
                   token: Token, cands: seq<Entry>, listing: set<string>, poll: nat)
    requires IsExtension(cfg.extension)
    requires forall i :: 0 <= i < |cands| ==> IsCandidate(cands[i].file)
    requires var w := WalkWith(cfg, run, io, token, cands, listing, poll);
             !w.stopped && AllWrote(w.steps)
    ensures Covered(WalkWith(cfg, run, io, token, cands, listing, poll).listing, cands)
  {
    var w := WalkWith(cfg, run, io, token, cands, listing, poll);
    WalkVisitsCandidates(cfg, run, io, token, cands, listing, poll);
    WalkSkips(cfg, run, io, token, cands, listing, poll);
    WalkListing(cfg, run, io, token, cands, listing, poll);
    forall i | 0 <= i < |cands|
      ensures HasOutput(w.listing, Root(cands[i].file))
    {
      assert w.steps[i].entry == cands[i];
      var base := Root(cands[i].file);
      if w.steps[i].Skipped? {
        assert HasOutput(listing + Written(cfg, w.steps[..i]), base);
        WrittenPrefix(cfg, w.steps, i);
        var f :| f in listing + Written(cfg, w.steps[..i]) && Root(f) == base;
        assert f in w.listing;
      } else {
        WrittenHas(cfg, w.steps, i);
        OutputRoot(cfg, cands[i].file);
        assert OutputName(cfg, cands[i].file) in w.listing;
      }
    }
  }

  /** Running the batch again over the same tree, after a run that was not
      stopped and whose every job left its output, compresses nothing: every
      candidate is skipped, the listing stays as it is, and the power action
      runs once more. */
  lemma RerunIsIdle(cfg: Config, cbs: Callbacks, io: Entry -> JobIO, io': Entry -> JobIO,
                    token: Token, token': Token, walk: seq<Entry>, listing: set<string>)
    requires IsExtension(cfg.extension)
    requires var b := RunBatch(cfg, cbs, io, token, walk, listing);
             !b.stopped && AllWrote(b.steps)
    ensures var b := RunBatch(cfg, cbs, io, token, walk, listing);
            var again := RunBatch(cfg, cbs, io', token', walk, b.listing);
            && again.steps == AllSkipped(Candidates(walk))
            && !again.stopped
            && again.listing == b.listing
            && again.post == PostCommand(cfg.postTask)
  {
    var cands := Candidates(walk);
    var b := RunBatch(cfg, cbs, io, token, walk, listing);
    WalkCovers(cfg, Runner(cfg, cbs, io, token), io, token, cands, listing, 0);
    WalkSkipsAll(cfg, Runner(cfg, cbs, io', token'), io', token', cands, b.listing, 0);
  }

  /** The flag is checked only after a job, so a batch whose candidates are
      all skipped never looks at it: even with the flag raised before the
      batch began, nothing is compressed, the batch is not stopped, and the
      power action runs. */
  lemma FlagAmongSkipsStillPowersOff(cfg: Config, cbs: Callbacks, io: Entry -> JobIO, token: Token,
                                     walk: seq<Entry>, listing: set<string>)
    requires Covered(listing, Candidates(walk))
    ensures var b := RunBatch(cfg, cbs, io, token, walk, listing);
            && b.steps == AllSkipped(Candidates(walk))
            && !b.stopped
            && b.post == PostCommand(cfg.postTask)
  {
    WalkSkipsAll(cfg, Runner(cfg, cbs, io, token), io, token, Candidates(walk), listing, 0);
  }

  /** The smallest instance: the flag up from the start, one `.mkv` whose
      output exists, and `shutdown` chosen; the machine is shut down. */
  lemma FlagRaisedYetShutdown(cbs: Callbacks, io: Entry -> JobIO)
    ensures var cfg := Config("out", "1M", ".mp4", "shutdown", true);
            var b := RunBatch(cfg, cbs, io, Token(Some(0)), [Entry("in", "a.mkv")], {"a.mp4"});
            Token(Some(0)).SeenAt(0) && b.post == Some("shutdown /s /t 1")
  {
    var e := Entry("in", "a.mkv");
    ExampleCovered(e);
    FlagAmongSkipsStillPowersOff(Config("out", "1M", ".mp4", "shutdown", true), cbs, io, Token(Some(0)), [e], {"a.mp4"});
  }

  /** `a.mp4` in the listing covers the walk that yields only `a.mkv`. */
  lemma ExampleCovered(e: Entry)
    requires e == Entry("in", "a.mkv")
    ensures Covered({"a.mp4"}, Candidates([e]))
  {
    assert Candidates([e]) == [e];
    assert SplitExt("a.mkv") == ("a", ".mkv") by {
      assert "a"[0] != '.';
      assert "a.mkv" == "a" + ".mkv";
      SplitExtUnique("a.mkv", "a", ".mkv");
    }
    assert SplitExt("a.mp4") == ("a", ".mp4") by {
      assert "a"[0] != '.';
      assert "a.mp4" == "a" + ".mp4";
      SplitExtUnique("a.mp4", "a", ".mp4");
    }
    assert HasOutput({"a.mp4"}, Root("a.mkv"));
  }

  /** An extension typed without its dot breaks the skip rule: the output of
      `clip.mkv` is `clipmp4`, whose base name is not `clip`, so a second run
      compresses `clip.mkv` again. */
  lemma DotlessExtensionRedoes()
    ensures var cfg := Config("out", "1M", "mp4", "none", true);
            OutputName(cfg, "clip.mkv") == "clipmp4" && !HasOutput({"clipmp4"}, Root("clip.mkv"))
  {
    assert SplitExt("clip.mkv") == ("clip", ".mkv") by {
      assert "clip"[0] != '.';
      assert "clip.mkv" == "clip" + ".mkv";
      SplitExtUnique("clip.mkv", "clip", ".mkv");
    }
    assert SplitExt("clipmp4").1 == [] by {
      assert LastIndexOf("clipmp4", '.') == -1;
    }
  }
}
