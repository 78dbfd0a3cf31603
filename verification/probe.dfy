/** `get_video_duration`: run `ffmpeg -i <input>`, split its diagnostic text at
    newlines, and read the total duration off the first line that carries a
    `Duration: H:M:S.f` marker. */
module Probe {
  import opened Wrappers
  import opened Text
  import opened Stamp

  /** The outcome of searching each line for a timestamp after `marker`. */
  function Searches(lines: seq<string>, marker: string): (h: seq<Option<Stamp>>)
    ensures |h| == |lines|
  {
    seq(|lines|, i requires 0 <= i < |lines| => Search(lines[i], marker))
  }

  /** The first line in which `marker` starts a timestamp match: its index and groups. */
  function FirstMarked(lines: seq<string>, marker: string): (r: Option<(nat, Stamp)>)
    ensures r.Some? ==> r.value.0 < |lines| && Search(lines[r.value.0], marker) == Some(r.value.1)
    ensures r.Some? ==> forall j :: 0 <= j < r.value.0 ==> Search(lines[j], marker).None?
    ensures r.None? <==> forall j :: 0 <= j < |lines| ==> Search(lines[j], marker).None?
  {
    var hits := Searches(lines, marker);
    var r := FirstHit(hits, 0);
    assert r.Some? ==> hits[r.value.0] == Search(lines[r.value.0], marker);
    assert forall j :: 0 <= j < |lines| ==> hits[j] == Search(lines[j], marker);
    r
  }

  /** The first marked line is the one reported, wherever later marks lie. */
  lemma FirstMarkedAt(lines: seq<string>, marker: string, k: nat)
    requires k < |lines| && Search(lines[k], marker).Some?
    requires forall j :: 0 <= j < k ==> Search(lines[j], marker).None?
    ensures FirstMarked(lines, marker) == Some((k, Search(lines[k], marker).value))
  {
    var hits := Searches(lines, marker);
    forall q | 0 <= q < k
      ensures hits[q].None?
    {
    }
    FirstHitAt(hits, k, Search(lines[k], marker).value);
  }

  /** The duration in seconds read from the first line with a duration marker. */
  function DurationOf(lines: seq<string>): (r: Option<real>)
    ensures r.None? <==> forall j :: 0 <= j < |lines| ==> Search(lines[j], DurationMarker).None?
    ensures r.Some? ==>
              exists i :: 0 <= i < |lines| && Search(lines[i], DurationMarker).Some? &&
                r.value == Seconds(Search(lines[i], DurationMarker).value) &&
                forall j :: 0 <= j < i ==> Search(lines[j], DurationMarker).None?
  {
    match FirstMarked(lines, DurationMarker)
    case Some((i, st)) => Some(Seconds(st))
    case None => None
  }

  /** `get_video_duration` on the captured diagnostic text: `None` stands for
      the `ValueError` it raises when no line carries a duration. */
  function ProbeDuration(stderr: string): (r: Option<real>)
    ensures r.Some? ==> r.value >= 0.0
  {
    DurationOf(SplitLines(stderr))
  }

  /** Lines after the first one with a duration marker are never consulted. */
  lemma DurationIgnoresLaterLines(lines: seq<string>, i: nat, later: seq<string>)
    requires i < |lines| && Search(lines[i], DurationMarker).Some?
    ensures DurationOf(lines[..i + 1] + later) == DurationOf(lines)
  {
    var k := FirstMarked(lines, DurationMarker).value.0;
    var lines' := lines[..i + 1] + later;
    assert k <= i;
    assert forall j :: 0 <= j <= i ==> lines'[j] == lines[j];
    FirstMarkedAt(lines', DurationMarker, k);
  }

  /** A line that opens with a rendered duration yields exactly that many
      seconds, provided no earlier line carries a duration. */
  lemma DurationOfRendered(earlier: seq<string>, st: Stamp, rest: string, later: seq<string>)
    requires WellFormed(st)
    requires forall j :: 0 <= j < |earlier| ==> Search(earlier[j], DurationMarker).None?
    requires rest == [] || !IsDigit(rest[0])
    ensures DurationOf(earlier + [Render(DurationMarker, st) + rest] + later) == Some(Seconds(st))
  {
    var w := Render(DurationMarker, st);
    var line := w + rest;
    assert line[0..|w|] == w;
    assert Matches(line, DurationMarker, 0, st);
    SearchFinds(line, DurationMarker, 0, st);
    var lines := earlier + [line] + later;
    assert lines[|earlier|] == line;
    assert forall j :: 0 <= j < |earlier| ==> lines[j] == earlier[j];
    FirstMarkedAt(lines, DurationMarker, |earlier|);
  }

  /** A banner line `Duration: 00:01:30.50, start: ...` probes to 90.5 seconds. */
  lemma DurationExample()
    ensures DurationOf(["Duration: 00:01:30.50, start: 0.000000"]) == Some(90.5)
  {
    var st := Stamp("00", "01", "30", "50");
    var rest := ", start: 0.000000";
    ExampleLine();
    DurationOfRendered([], st, rest, []);
    assert [] + [Render(DurationMarker, st) + rest] + [] == [Render(DurationMarker, st) + rest];
    SecondsExample();
  }

  lemma ExampleLine()
    ensures Render(DurationMarker, Stamp("00", "01", "30", "50")) + ", start: 0.000000" == "Duration: 00:01:30.50, start: 0.000000"
  {
  }

  lemma SecondsExample()
    ensures Seconds(Stamp("00", "01", "30", "50")) == 90.5
  {
    assert DigitsValue("0") == 0 && DigitsValue("00") == 0;
    assert DigitsValue("0") == 0 && DigitsValue("01") == 1;
    assert DigitsValue("3") == 3 && DigitsValue("30") == 30;
    assert DigitsValue("5") == 5 && DigitsValue("50") == 50;
    assert Pow10(2) == 100;
  }
}
