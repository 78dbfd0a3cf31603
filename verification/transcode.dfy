/** `compress_video`: probe the input's duration, start the encoder, and follow
    its diagnostic stream line by line, polling the cancellation flag before
    each line and turning every `time=` timestamp into callback events. */
module Transcode {
  import opened Wrappers
  import opened Text
  import opened Stamp
  import opened Probe

  // ---------------------------------------------------------------------------
  // The encoder invocation

  /** One transcode: source and destination paths, the target bitrate text
      (`'1M'` and the like, passed through untouched) and the codec choice. */
  datatype Job = Job(input: string, output: string, bitrate: string, useGpu: bool)

  const GpuCodec: string := "h264_nvenc"
  const CpuCodec: string := "libx264"
  const ScaleFilter: string := "scale=1440:1080"

  function Codec(useGpu: bool): (codec: string)
    ensures codec == GpuCodec <==> useGpu
    ensures codec == CpuCodec <==> !useGpu
  {
    if useGpu then GpuCodec else CpuCodec
  }

  /** The argument vector handed to the encoder: the bitrate verbatim, the
      codec the flag selects, the audio stream copied, a fixed 1440x1080 scale. */
  function Command(job: Job): (args: seq<string>)
    ensures |args| == 12 && args[0] == "ffmpeg" && args[|args| - 1] == job.output
    ensures args[1] == "-i" && args[2] == job.input
    ensures args[3] == "-b:v" && args[4] == job.bitrate
    ensures args[5] == "-c:v" && (args[6] == GpuCodec <==> job.useGpu) && (args[6] == CpuCodec <==> !job.useGpu)
    ensures args[7] == "-c:a" && args[8] == "copy"
    ensures args[9] == "-vf" && args[10] == ScaleFilter
  {
    ["ffmpeg", "-i", job.input, "-b:v", job.bitrate, "-c:v", Codec(job.useGpu),
     "-c:a", "copy", "-vf", ScaleFilter, job.output]
  }

  /** Reads a job back from an encoder argument vector; `None` for any vector
      that is not the fixed shape with one of the two codecs. */
  function ParseCommand(args: seq<string>): (r: Option<Job>)
    ensures r.Some? ==> |args| == 12 && r.value.input == args[2] && r.value.bitrate == args[4] && r.value.output == args[11]
  {
    if |args| == 12 && args[0] == "ffmpeg" && args[1] == "-i" && args[3] == "-b:v" && args[5] == "-c:v"
       && (args[6] == GpuCodec || args[6] == CpuCodec)
       && args[7] == "-c:a" && args[8] == "copy" && args[9] == "-vf" && args[10] == ScaleFilter
    then Some(Job(args[2], args[11], args[4], args[6] == GpuCodec))
    else None
  }

  /** Every job is recovered from its command line. */
  lemma ParseCommandInverse(job: Job)
    ensures ParseCommand(Command(job)) == Some(job)
  {
  }

  /** Every argument vector the parser accepts is the command line of the job it reads. */
  lemma CommandOfParsed(args: seq<string>)
    requires ParseCommand(args).Some?
    ensures Command(ParseCommand(args).value) == args
  {
    var job := ParseCommand(args).value;
    assert Command(job)[6] == args[6];
  }

  // ---------------------------------------------------------------------------
  // Callbacks and the cancellation flag

  /** Which of the optional callbacks the caller supplied. */
  datatype Callbacks = Callbacks(progress: bool, remaining: bool, file: bool)

  /** One callback invocation, in the order the callbacks fire. */
  datatype Event = Progress(fraction: real) | Remaining(seconds: real) | CurrentFile(name: string)

  /** The cancellation flag over the whole run. Polls of the flag are numbered
      0, 1, 2, ... in the order they happen; the flag is raised once, before
      poll `setAt`, and never lowered (`None`: never raised, or no flag given). */
  datatype Token = Token(setAt: Option<nat>) {
    predicate SeenAt(poll: nat) {
      setAt.Some? && setAt.value <= poll
    }
  }

  /** Once observed, the flag stays observed. */
  lemma SeenLater(token: Token, poll: nat, later: nat)
    requires token.SeenAt(poll) && poll <= later
    ensures token.SeenAt(later)
  {
  }

  /** Why a job ended in the `except Exception` branch. */
  datatype Failure =
    | NoDuration      // the probe found no duration marker (`ValueError`)
    | SpawnFailure    // an ffmpeg process could not be started
    | ZeroDivision    // a zero duration reached the progress division

  datatype Outcome = Completed | Cancelled | Failed(why: Failure)

  // ---------------------------------------------------------------------------
  // Events of one progress line, and of a series of them

  /** A zero duration with a progress callback present makes the division fail. */
  predicate Hazard(total: real, cbs: Callbacks) {
    cbs.progress && total == 0.0
  }

  /** The events one `time=` line fires: fraction, then remaining seconds,
      then the base name, each only when its callback is present. */
  function Fired(total: real, elapsed: real, name: string, cbs: Callbacks): (es: seq<Event>)
    requires !Hazard(total, cbs)
    ensures |es| == Width(cbs)
  {
    (if cbs.progress then [Progress(elapsed / total)] else [])
    + (if cbs.remaining then [Remaining(total - elapsed)] else [])
    + (if cbs.file then [CurrentFile(name)] else [])
  }

  /** How many callbacks are present. */
  function Width(cbs: Callbacks): nat {
    (if cbs.progress then 1 else 0) + (if cbs.remaining then 1 else 0) + (if cbs.file then 1 else 0)
  }

  /** The events a series of elapsed times fires, in order. */
  function FireAll(total: real, samples: seq<real>, name: string, cbs: Callbacks): (es: seq<Event>)
    requires !Hazard(total, cbs) || samples == []
    ensures |es| == Width(cbs) * |samples|
  {
    if samples == [] then []
    else Fired(total, samples[0], name, cbs) + FireAll(total, samples[1..], name, cbs)
  }

  lemma {:induction false} FireAllAppend(total: real, a: seq<real>, b: seq<real>, name: string, cbs: Callbacks)
    requires !Hazard(total, cbs)
    ensures FireAll(total, a + b, name, cbs) == FireAll(total, a, name, cbs) + FireAll(total, b, name, cbs)
    decreases |a|
  {
    if a != [] {
      assert (a + b)[1..] == a[1..] + b;
      FireAllAppend(total, a[1..], b, name, cbs);
    } else {
      assert a + b == b;
    }
  }

  /** The elapsed time a diagnostic line reports after `time=`, if any. */
  function LineTime(line: string): (t: Option<real>)
    ensures t.Some? ==> t.value >= 0.0
    ensures t.None? <==> Search(line, TimeMarker).None?
  {
    match Search(line, TimeMarker)
    case Some(st) => Some(Seconds(st))
    case None => None
  }

  /** The elapsed time of each line of the stream. */
  function Times(lines: seq<string>): (ts: seq<Option<real>>)
    ensures |ts| == |lines|
  {
    seq(|lines|, i requires 0 <= i < |lines| => LineTime(lines[i]))
  }

  /** The elapsed times present in `times`, in order. */
  function Samples(times: seq<Option<real>>): (s: seq<real>)
    ensures |s| <= |times|
  {
    if times == [] then []
    else (if times[0].Some? then [times[0].value] else []) + Samples(times[1..])
  }

  lemma {:induction false} SamplesAppend(a: seq<Option<real>>, b: seq<Option<real>>)
    ensures Samples(a + b) == Samples(a) + Samples(b)
    decreases |a|
  {
    if a != [] {
      assert (a + b)[0] == a[0];
      assert (a + b)[1..] == a[1..] + b;
      SamplesAppend(a[1..], b);
    } else {
      assert a + b == b;
    }
  }

  /** Only the present times are samples: none before the first present one. */
  lemma {:induction false} NoSamples(times: seq<Option<real>>)
    requires forall j :: 0 <= j < |times| ==> times[j].None?
    ensures Samples(times) == []
    decreases |times|
  {
    if times != [] {
      NoSamples(times[1..]);
    }
  }

  // ---------------------------------------------------------------------------
  // The supervised loop

  /** What following the stream produced: how the job ended, the callback
      events in firing order, and the number of the next poll of the flag. */
  datatype Supervision = Supervision(outcome: Outcome, events: seq<Event>, nextPoll: nat)

  /** The `for line in process.stderr` loop over the lines' elapsed times.
      Each iteration first polls the flag (poll number `poll`, then `poll + 1`,
      ...) and returns if it is set; only then is the line's timestamp used. A
      zero duration with a progress callback raises at the division, before
      any callback of that line. */
  function Supervise(total: real, name: string, cbs: Callbacks, times: seq<Option<real>>, token: Token, poll: nat)
    : (r: Supervision)
    ensures poll <= r.nextPoll <= poll + |times|
    ensures r.outcome.Completed? ==> r.nextPoll == poll + |times|
    ensures r.outcome.Cancelled? ==> poll < r.nextPoll && token.SeenAt(r.nextPoll - 1)
    ensures r.outcome.Failed? ==> r.outcome == Failed(ZeroDivision) && Hazard(total, cbs)
    decreases |times|
  {
    if times == [] then Supervision(Completed, [], poll)
    else if token.SeenAt(poll) then Supervision(Cancelled, [], poll + 1)
    else
      match times[0]
      case None => Supervise(total, name, cbs, times[1..], token, poll + 1)
      case Some(elapsed) =>
        if Hazard(total, cbs) then Supervision(Failed(ZeroDivision), [], poll + 1)
        else
          var rest := Supervise(total, name, cbs, times[1..], token, poll + 1);
          Supervision(rest.outcome, Fired(total, elapsed, name, cbs) + rest.events, rest.nextPoll)
  }

  /** No poll numbered from `lo` up to but excluding `hi` sees the flag. */
  predicate Unseen(token: Token, lo: nat, hi: int) {
    forall j: nat :: lo <= j < hi ==> !token.SeenAt(j)
  }

  /** The loop stops at the first poll that sees the flag: none of the polls
      before its last one does, and none at all when it completes. */
  lemma {:induction false} SuperviseUnseen(total: real, name: string, cbs: Callbacks, times: seq<Option<real>>,
                                           token: Token, poll: nat)
    ensures Unseen(token, poll, Supervise(total, name, cbs, times, token, poll).nextPoll - 1)
    ensures Supervise(total, name, cbs, times, token, poll).outcome.Completed? ==>
              Unseen(token, poll, Supervise(total, name, cbs, times, token, poll).nextPoll)
    decreases |times|
  {
    if times != [] && !token.SeenAt(poll) {
      SuperviseUnseen(total, name, cbs, times[1..], token, poll + 1);
    }
  }

  /** `s` with the events `es` fired before it. */
  function After(es: seq<Event>, s: Supervision): Supervision {
    Supervision(s.outcome, es + s.events, s.nextPoll)
  }

  /** One iteration that neither sees the flag nor fails fires the events of
      its line's sample and hands over to the next line. */
  lemma SuperviseStep(total: real, name: string, cbs: Callbacks, times: seq<Option<real>>, token: Token, poll: nat)
    requires times != [] && !token.SeenAt(poll)
    requires !Hazard(total, cbs) || times[0].None?
    ensures Supervise(total, name, cbs, times, token, poll)
            == After(FireAll(total, Samples(times[..1]), name, cbs), Supervise(total, name, cbs, times[1..], token, poll + 1))
  {
    assert times[..1][1..] == [];
    var rest := Supervise(total, name, cbs, times[1..], token, poll + 1);
    if times[0].Some? {
      assert FireAll(total, [times[0].value], name, cbs) == Fired(total, times[0].value, name, cbs);
    } else {
      assert [] + rest.events == rest.events;
    }
  }

  lemma SamplesOfPrefix(times: seq<Option<real>>, k: nat)
    requires 0 < k <= |times|
    ensures Samples(times[..k]) == Samples(times[..1]) + Samples(times[1..][..k - 1])
    ensures times[1..][k - 1..] == times[k..]
  {
    assert times[..k] == times[..1] + times[1..][..k - 1];
    SamplesAppend(times[..1], times[1..][..k - 1]);
  }

  lemma FireAllSplit(total: real, a: seq<real>, b: seq<real>, name: string, cbs: Callbacks)
    requires !Hazard(total, cbs) || a + b == []
    ensures !Hazard(total, cbs) || (a == [] && b == [])
    ensures FireAll(total, a + b, name, cbs) == FireAll(total, a, name, cbs) + FireAll(total, b, name, cbs)
  {
    if Hazard(total, cbs) {
      assert |a + b| == |a| + |b|;
    } else {
      FireAllAppend(total, a, b, name, cbs);
    }
  }

  lemma AfterAfter(a: seq<Event>, b: seq<Event>, s: Supervision)
    ensures After(a, After(b, s)) == After(a + b, s)
  {
    assert a + (b + s.events) == (a + b) + s.events;
  }

  /** The loop unrolled over its first `k` lines: when none of their polls sees
      the flag and none of them can fail, those lines contribute exactly the
      events of their samples, and the rest of the run is the loop over the
      remaining lines. */
  lemma {:induction false} SuperviseUnrolls(total: real, name: string, cbs: Callbacks, times: seq<Option<real>>,
                                            token: Token, poll: nat, k: nat)
    requires k <= |times|
    requires forall j :: poll <= j < poll + k ==> !token.SeenAt(j)
    requires !Hazard(total, cbs) || Samples(times[..k]) == []
    ensures Supervise(total, name, cbs, times, token, poll)
            == After(FireAll(total, Samples(times[..k]), name, cbs), Supervise(total, name, cbs, times[k..], token, poll + k))
    decreases k
  {
    if k > 0 {
      var tail := times[1..];
      var one := Samples(times[..1]);
      var pre := Samples(tail[..k - 1]);
      SamplesOfPrefix(times, k);
      FireAllSplit(total, one, pre, name, cbs);
      assert !Hazard(total, cbs) || times[0].None? by {
        assert times[..1] == [times[0]];
      }
      SuperviseStep(total, name, cbs, times, token, poll);
      SuperviseUnrolls(total, name, cbs, tail, token, poll + 1, k - 1);
      AfterAfter(FireAll(total, one, name, cbs), FireAll(total, pre, name, cbs),
                 Supervise(total, name, cbs, times[k..], token, poll + k));
    } else {
      assert times[..0] == [] && times[0..] == times;
      var s := Supervise(total, name, cbs, times, token, poll);
      assert [] + s.events == s.events;
    }
  }

  /** With the flag never seen and no failing division, the loop runs to the
      end of the stream and fires the events of every timestamp in order. */
  lemma SuperviseCompletes(total: real, name: string, cbs: Callbacks, times: seq<Option<real>>, token: Token, poll: nat)
    requires forall j :: poll <= j < poll + |times| ==> !token.SeenAt(j)
    requires !Hazard(total, cbs) || Samples(times) == []
    ensures Supervise(total, name, cbs, times, token, poll)
            == Supervision(Completed, FireAll(total, Samples(times), name, cbs), poll + |times|)
  {
    assert times[..|times|] == times;
    SuperviseUnrolls(total, name, cbs, times, token, poll, |times|);
    var s := Supervise(total, name, cbs, times[|times|..], token, poll + |times|);
    assert times[|times|..] == [];
    assert FireAll(total, Samples(times), name, cbs) + [] == FireAll(total, Samples(times), name, cbs);
  }

  /** The flag first seen at the poll before line `k` ends the loop there:
      line `k` and every later line fire nothing. */
  lemma SuperviseCancels(total: real, name: string, cbs: Callbacks, times: seq<Option<real>>, token: Token,
                         poll: nat, k: nat)
    requires k < |times| && token.SeenAt(poll + k)
    requires forall j :: poll <= j < poll + k ==> !token.SeenAt(j)
    requires !Hazard(total, cbs) || Samples(times[..k]) == []
    ensures Supervise(total, name, cbs, times, token, poll)
            == Supervision(Cancelled, FireAll(total, Samples(times[..k]), name, cbs), poll + k + 1)
  {
    SuperviseUnrolls(total, name, cbs, times, token, poll, k);
    var es := FireAll(total, Samples(times[..k]), name, cbs);
    assert es + [] == es;
  }

  /** Lines after the one at which the flag is seen are never looked at. */
  lemma CancelIgnoresLaterLines(total: real, name: string, cbs: Callbacks, times: seq<Option<real>>, token: Token,
                                poll: nat, k: nat, later: seq<Option<real>>)
    requires k < |times| && token.SeenAt(poll + k)
    requires forall j :: poll <= j < poll + k ==> !token.SeenAt(j)
    requires !Hazard(total, cbs) || Samples(times[..k]) == []
    ensures Supervise(total, name, cbs, times[..k + 1] + later, token, poll)
            == Supervise(total, name, cbs, times, token, poll)
  {
    var times' := times[..k + 1] + later;
    assert times'[..k] == times[..k];
    SuperviseCancels(total, name, cbs, times, token, poll, k);
    SuperviseCancels(total, name, cbs, times', token, poll, k);
  }

  /** With a zero duration and a progress callback, the first timestamp line
      fails the job before any event fires. */
  lemma SuperviseFails(total: real, name: string, cbs: Callbacks, times: seq<Option<real>>, token: Token,
                       poll: nat, k: nat)
    requires Hazard(total, cbs)
    requires k < |times| && times[k].Some?
    requires forall j :: 0 <= j < k ==> times[j].None?
    requires forall j :: poll <= j <= poll + k ==> !token.SeenAt(j)
    ensures Supervise(total, name, cbs, times, token, poll) == Supervision(Failed(ZeroDivision), [], poll + k + 1)
  {
    NoSamples(times[..k]);
    SuperviseUnrolls(total, name, cbs, times, token, poll, k);
    assert times[k..][0] == times[k];
  }

  /** Lines without a timestamp fire nothing. */
  lemma {:induction false} UnmarkedLinesAreSilent(total: real, name: string, cbs: Callbacks, times: seq<Option<real>>,
                                                  token: Token, poll: nat)
    requires forall j :: 0 <= j < |times| ==> times[j].None?
    ensures Supervise(total, name, cbs, times, token, poll).events == []
    decreases |times|
  {
    if times != [] && !token.SeenAt(poll) {
      UnmarkedLinesAreSilent(total, name, cbs, times[1..], token, poll + 1);
    }
  }

  // ---------------------------------------------------------------------------
  // What the events say

  /** The fractions reported, in order. */
  function Fractions(es: seq<Event>): seq<real> {
    if es == [] then []
    else (if es[0].Progress? then [es[0].fraction] else []) + Fractions(es[1..])
  }

  lemma {:induction false} FractionsAppend(a: seq<Event>, b: seq<Event>)
    ensures Fractions(a + b) == Fractions(a) + Fractions(b)
    decreases |a|
  {
    if a != [] {
      assert (a + b)[0] == a[0];
      assert (a + b)[1..] == a[1..] + b;
      FractionsAppend(a[1..], b);
    } else {
      assert a + b == b;
    }
  }

  /** The progress callback receives `elapsed / total` for every sample, in
      order, and nothing if it is absent. */
  lemma {:induction false} FractionsOfSamples(total: real, samples: seq<real>, name: string, cbs: Callbacks)
    requires !Hazard(total, cbs)
    ensures var fs := Fractions(FireAll(total, samples, name, cbs));
            && |fs| == (if cbs.progress then |samples| else 0)
            && (cbs.progress ==> forall i :: 0 <= i < |samples| ==> fs[i] == samples[i] / total)
    decreases |samples|
  {
    if samples != [] {
      FractionsFired(total, samples[0], name, cbs);
      FractionsAppend(Fired(total, samples[0], name, cbs), FireAll(total, samples[1..], name, cbs));
      FractionsOfSamples(total, samples[1..], name, cbs);
    }
  }

  /** Of one line's events, only the progress event carries a fraction. */
  lemma FractionsFired(total: real, x: real, name: string, cbs: Callbacks)
    requires !Hazard(total, cbs)
    ensures Fractions(Fired(total, x, name, cbs)) == if cbs.progress then [x / total] else []
  {
    var p := if cbs.progress then [Progress(x / total)] else [];
    var q := if cbs.remaining then [Remaining(total - x)] else [];
    var f := if cbs.file then [CurrentFile(name)] else [];
    FractionsAppend(p, q);
    FractionsAppend(p + q, f);
  }

  /** Timestamps that never go back give fractions that never go back. */
  lemma FractionsMonotone(total: real, samples: seq<real>, name: string, cbs: Callbacks)
    requires total > 0.0
    requires forall i, j :: 0 <= i <= j < |samples| ==> samples[i] <= samples[j]
    ensures var fs := Fractions(FireAll(total, samples, name, cbs));
            forall i, j :: 0 <= i <= j < |fs| ==> fs[i] <= fs[j]
  {
    FractionsOfSamples(total, samples, name, cbs);
    var fs := Fractions(FireAll(total, samples, name, cbs));
    forall i, j | 0 <= i <= j < |fs|
      ensures fs[i] <= fs[j]
    {
      DivideMonotone(samples[i], samples[j], total);
    }
  }

  lemma DivideMonotone(x: real, y: real, d: real)
    requires x <= y && d > 0.0
    ensures x / d <= y / d
  {
    assert y / d - x / d == (y - x) / d;
  }

  /** Every fraction reported lies in [0, 1] and every remaining time is non-negative. */
  predicate Bounded(es: seq<Event>) {
    forall i :: 0 <= i < |es| ==>
      (es[i].Progress? ==> 0.0 <= es[i].fraction <= 1.0) && (es[i].Remaining? ==> es[i].seconds >= 0.0)
  }

  lemma BoundedAppend(a: seq<Event>, b: seq<Event>)
    requires Bounded(a) && Bounded(b)
    ensures Bounded(a + b)
  {
    forall i | 0 <= i < |a + b|
      ensures ((a + b)[i].Progress? ==> 0.0 <= (a + b)[i].fraction <= 1.0)
              && ((a + b)[i].Remaining? ==> (a + b)[i].seconds >= 0.0)
    {
      if i >= |a| {
        assert (a + b)[i] == b[i - |a|];
      }
    }
  }

  /** The bound holds when no timestamp exceeds the duration; the code does
      not clamp, so it holds only under that condition. */
  lemma {:induction false} EventsBounded(total: real, samples: seq<real>, name: string, cbs: Callbacks)
    requires total > 0.0
    requires forall i :: 0 <= i < |samples| ==> 0.0 <= samples[i] <= total
    ensures Bounded(FireAll(total, samples, name, cbs))
    decreases |samples|
  {
    if samples != [] {
      EventsBounded(total, samples[1..], name, cbs);
      FractionBounded(samples[0], total);
      var p := if cbs.progress then [Progress(samples[0] / total)] else [];
      var q := if cbs.remaining then [Remaining(total - samples[0])] else [];
      var f := if cbs.file then [CurrentFile(name)] else [];
      BoundedAppend(p, q);
      BoundedAppend(p + q, f);
      BoundedAppend(Fired(total, samples[0], name, cbs), FireAll(total, samples[1..], name, cbs));
    }
  }

  lemma FractionBounded(x: real, d: real)
    requires 0.0 <= x <= d && d > 0.0
    ensures 0.0 <= x / d <= 1.0
  {
    assert x / d * d == x;
  }

  /** A timestamp past the probed duration is reported as a fraction above 1
      and a negative remaining time. */
  lemma FractionUnclamped()
    ensures FireAll(1.0, [2.0], "a.mkv", Callbacks(true, true, false)) == [Progress(2.0), Remaining(-1.0)]
  {
  }

  /** With all three callbacks present, each timestamp fires progress, then
      remaining, then the file name, and the triples follow the samples. */
  lemma {:induction false} EventTriples(total: real, samples: seq<real>, name: string)
    requires total != 0.0
    ensures var es := FireAll(total, samples, name, Callbacks(true, true, true));
            && |es| == 3 * |samples|
            && forall i :: 0 <= i < |samples| ==> Triple(es, i, total, samples[i], name)
    decreases |samples|
  {
    if samples != [] {
      var cbs := Callbacks(true, true, true);
      EventTriples(total, samples[1..], name);
      var rest := FireAll(total, samples[1..], name, cbs);
      var head := [Progress(samples[0] / total), Remaining(total - samples[0]), CurrentFile(name)];
      assert FireAll(total, samples, name, cbs) == head + rest;
      forall i | 0 <= i < |samples|
        ensures Triple(head + rest, i, total, samples[i], name)
      {
        if i > 0 {
          assert Triple(rest, i - 1, total, samples[1..][i - 1], name);
          TripleShift(head, rest, i - 1, total, samples[i], name);
        }
      }
    }
  }

  /** Events `3i`, `3i + 1` and `3i + 2` are the triple of elapsed time `x`. */
  predicate Triple(es: seq<Event>, i: nat, total: real, x: real, name: string)
    requires total != 0.0
  {
    && 3 * i + 2 < |es|
    && es[3 * i] == Progress(x / total)
    && es[3 * i + 1] == Remaining(total - x)
    && es[3 * i + 2] == CurrentFile(name)
  }

  lemma TripleShift(head: seq<Event>, rest: seq<Event>, i: nat, total: real, x: real, name: string)
    requires total != 0.0 && |head| == 3 && Triple(rest, i, total, x, name)
    ensures Triple(head + rest, i + 1, total, x, name)
  {
    var es := head + rest;
    assert 3 * (i + 1) == 3 * i + 3;
    assert es[3 * i + 3] == rest[3 * i];
    assert es[3 * i + 4] == rest[3 * i + 1];
    assert es[3 * i + 5] == rest[3 * i + 2];
  }

  // ---------------------------------------------------------------------------
  // The whole job

  /** What one call did: how it ended, the encoder command it started (if it
      got that far), the events, and the number of the next poll of the flag. */
  datatype JobRun = JobRun(outcome: Outcome, invoked: Option<seq<string>>, events: seq<Event>, nextPoll: nat)

  /** `compress_video`. `probe` is the probe's diagnostic text (`None`: ffmpeg
      could not be started); `stream` is the encoder's diagnostic lines (`None`:
      it could not be started). */
  function CompressVideo(job: Job, cbs: Callbacks, probe: Option<string>, stream: Option<seq<string>>,
                         token: Token, poll: nat): (r: JobRun)
    ensures poll <= r.nextPoll
    ensures r.invoked.Some? ==> r.invoked.value == Command(job)
    ensures r.invoked.None? ==> r.outcome.Failed? && r.events == [] && r.nextPoll == poll
    ensures r.outcome.Completed? || r.outcome.Cancelled? ==> stream.Some?
    ensures r.outcome.Cancelled? ==> poll < r.nextPoll && token.SeenAt(r.nextPoll - 1)
  {
    match probe
    case None => JobRun(Failed(SpawnFailure), None, [], poll)
    case Some(text) =>
      match ProbeDuration(text)
      case None => JobRun(Failed(NoDuration), None, [], poll)
      case Some(total) =>
        match stream
        case None => JobRun(Failed(SpawnFailure), Some(Command(job)), [], poll)
        case Some(lines) =>
          var s := Supervise(total, Basename(job.input), cbs, Times(lines), token, poll);
          JobRun(s.outcome, Some(Command(job)), s.events, s.nextPoll)
  }

  /** Without a duration marker in the probe text the encoder is never
      started, no callback fires and the flag is not polled. */
  lemma NoDurationNoTranscode(job: Job, cbs: Callbacks, text: string, stream: Option<seq<string>>,
                              token: Token, poll: nat)
    requires forall j :: 0 <= j < |SplitLines(text)| ==> Search(SplitLines(text)[j], DurationMarker).None?
    ensures CompressVideo(job, cbs, Some(text), stream, token, poll)
            == JobRun(Failed(NoDuration), None, [], poll)
  {
  }

  /** A job the flag never interrupts runs to the end of the stream and
      reports, for the file's base name, the progress of every timestamp
      against the probed duration. */
  lemma CompressVideoCompletes(job: Job, cbs: Callbacks, text: string, lines: seq<string>, token: Token, poll: nat)
    requires ProbeDuration(text).Some?
    requires forall j :: poll <= j < poll + |lines| ==> !token.SeenAt(j)
    requires !Hazard(ProbeDuration(text).value, cbs) || Samples(Times(lines)) == []
    ensures var r := CompressVideo(job, cbs, Some(text), Some(lines), token, poll);
            && r.outcome == Completed
            && r.invoked == Some(Command(job))
            && r.events == FireAll(ProbeDuration(text).value, Samples(Times(lines)), Basename(job.input), cbs)
            && r.nextPoll == poll + |lines|
  {
    SuperviseCompletes(ProbeDuration(text).value, Basename(job.input), cbs, Times(lines), token, poll);
  }

  /** A job whose flag is first seen before line `k` reports the timestamps
      of the lines before `k` and nothing after. */
  lemma CompressVideoCancels(job: Job, cbs: Callbacks, text: string, lines: seq<string>, token: Token,
                             poll: nat, k: nat)
    requires ProbeDuration(text).Some?
    requires k < |lines| && token.SeenAt(poll + k)
    requires forall j :: poll <= j < poll + k ==> !token.SeenAt(j)
    requires !Hazard(ProbeDuration(text).value, cbs) || Samples(Times(lines)[..k]) == []
    ensures var r := CompressVideo(job, cbs, Some(text), Some(lines), token, poll);
            && r.outcome == Cancelled
            && r.events == FireAll(ProbeDuration(text).value, Samples(Times(lines)[..k]), Basename(job.input), cbs)
            && r.nextPoll == poll + k + 1
  {
    SuperviseCancels(ProbeDuration(text).value, Basename(job.input), cbs, Times(lines), token, poll, k);
  }

  /** A zero probed duration with a progress callback fails the job at the
      first timestamp line, before any callback fires. */
  lemma CompressVideoZeroDuration(job: Job, cbs: Callbacks, text: string, lines: seq<string>, token: Token,
                                  poll: nat, k: nat)
    requires ProbeDuration(text) == Some(0.0) && cbs.progress
    requires k < |lines| && Search(lines[k], TimeMarker).Some?
    requires forall j :: 0 <= j < k ==> Search(lines[j], TimeMarker).None?
    requires forall j :: poll <= j <= poll + k ==> !token.SeenAt(j)
    ensures CompressVideo(job, cbs, Some(text), Some(lines), token, poll)
            == JobRun(Failed(ZeroDivision), Some(Command(job)), [], poll + k + 1)
  {
    var times := Times(lines);
    assert times[k].Some?;
    assert forall j :: 0 <= j < k ==> times[j].None?;
    SuperviseFails(0.0, Basename(job.input), cbs, times, token, poll, k);
  }
}
