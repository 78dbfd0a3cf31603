/** Scraping of the timestamps ffmpeg writes to its diagnostic stream: the
    regular expressions `Duration: (\d+):(\d+):(\d+\.\d+)` (probe) and
    `time=(\d+):(\d+):(\d+\.\d+)` (progress), searched for with `re.search`,
    and the conversion of a match to `H*3600 + M*60 + S` seconds. */
module Stamp {
  import opened Wrappers
  import opened Text

  const DurationMarker: string := "Duration: "
  const TimeMarker: string := "time="

  /** The groups of one match: hours, minutes, and the seconds group split
      at its dot into whole and fractional digits. */
  datatype Stamp = Stamp(hours: string, minutes: string, whole: string, frac: string)

  /** Every group is a non-empty run of digits, as each `\d+` demands. */
  predicate WellFormed(st: Stamp) {
    && |st.hours| > 0 && AllDigits(st.hours)
    && |st.minutes| > 0 && AllDigits(st.minutes)
    && |st.whole| > 0 && AllDigits(st.whole)
    && |st.frac| > 0 && AllDigits(st.frac)
  }

  /** The text a match with groups `st` covers. */
  function Render(marker: string, st: Stamp): string {
    marker + (st.hours + (":" + (st.minutes + (":" + (st.whole + ("." + st.frac))))))
  }

  /** The pattern matches `line` at position `p` with groups `st`. The groups
      ahead of a `:` or `.` are fixed by that delimiter; the last `\d+` is
      greedy, so the match stops only where the digits stop. */
  predicate Matches(line: string, marker: string, p: nat, st: Stamp) {
    var e := p + |Render(marker, st)|;
    && WellFormed(st)
    && e <= |line|
    && line[p..e] == Render(marker, st)
    && RunEnds(line, e)
  }

  /** Seconds denoted by a match: `H*3600 + M*60 + S`, with `S` read exactly. */
  function Seconds(st: Stamp): (s: real)
    requires WellFormed(st)
    ensures var whole := DigitsValue(st.hours) * 3600 + DigitsValue(st.minutes) * 60 + DigitsValue(st.whole);
            whole as real <= s < whole as real + 1.0
  {
    (DigitsValue(st.hours) * 3600 + DigitsValue(st.minutes) * 60) as real + DecimalValue(st.whole, st.frac)
  }

  // ---------------------------------------------------------------------------
  // The matcher

  /** Every character of `line[i..j]` is a digit. */
  predicate DigitsIn(line: string, i: nat, j: nat) {
    i <= j <= |line| && forall k :: i <= k < j ==> IsDigit(line[k])
  }

  /** No digit continues a run that ends at `j`. */
  predicate RunEnds(line: string, j: nat) {
    j == |line| || (j < |line| && !IsDigit(line[j]))
  }

  /** Length of the longest run of digits starting at `i`. */
  function DigitRun(line: string, i: nat): (n: nat)
    requires i <= |line|
    ensures DigitsIn(line, i, i + n) && RunEnds(line, i + n)
    decreases |line| - i
  {
    if i < |line| && IsDigit(line[i]) then 1 + DigitRun(line, i + 1) else 0
  }

  /** Where the non-empty digit run at `i` meets `delim`, or -1. */
  function FieldEnd(line: string, i: nat, delim: char): (j: int)
    requires i <= |line|
    ensures j == -1 || (i < j < |line| && DigitsIn(line, i, j) && line[j] == delim)
  {
    var n := DigitRun(line, i);
    if n > 0 && i + n < |line| && line[i + n] == delim then i + n else -1
  }

  /** The positions `(b, c, d, e)` of the groups after a marker ending at `a`:
      the two `:` sit at `b` and `c`, the `.` at `d`, and the final digit run
      ends at `e`. */
  function Fields(line: string, a: nat): (r: Option<(nat, nat, nat, nat)>)
    requires a <= |line|
    ensures r.Some? ==>
              var (b, c, d, e) := r.value;
              && a < b && b + 1 < c && c + 1 < d && d + 1 < e <= |line|
              && DigitsIn(line, a, b) && line[b] == ':'
              && DigitsIn(line, b + 1, c) && line[c] == ':'
              && DigitsIn(line, c + 1, d) && line[d] == '.'
              && DigitsIn(line, d + 1, e) && RunEnds(line, e)
  {
    var b := FieldEnd(line, a, ':');
    if b < 0 then None
    else
      var c := FieldEnd(line, b + 1, ':');
      if c < 0 then None
      else
        var d := FieldEnd(line, c + 1, '.');
        if d < 0 then None
        else
          var n := DigitRun(line, d + 1);
          if n == 0 then None else Some((b, c, d, d + 1 + n))
  }

  /** The positions `(a, b, c, d, e)` delimiting a match anchored at `p`:
      the marker ends at `a`, followed by the groups `Fields` finds. */
  function Bounds(line: string, marker: string, p: nat): Option<(nat, nat, nat, nat, nat)> {
    var a := p + |marker|;
    if a > |line| || line[p..a] != marker then None
    else
      match Fields(line, a)
      case None => None
      case Some((b, c, d, e)) => Some((a, b, c, d, e))
  }

  /** The match of the pattern anchored at `p`, if there is one. */
  function MatchAt(line: string, marker: string, p: nat): (r: Option<Stamp>)
    ensures r.Some? ==> p < |line|
  {
    match Bounds(line, marker, p)
    case None => None
    case Some((a, b, c, d, e)) => Some(Slices(line, a, b, c, d, e))
  }

  /** The outcome of anchoring the pattern at each position of `line`, end included. */
  function Hits(line: string, marker: string): (h: seq<Option<Stamp>>)
    ensures |h| == |line| + 1
  {
    seq(|line| + 1, q requires 0 <= q <= |line| => MatchAt(line, marker, q))
  }

  /** `re.search`: the groups of the leftmost match in `line`. */
  function Search(line: string, marker: string): (r: Option<Stamp>)
    ensures r.Some? ==> WellFormed(r.value)
  {
    match FirstHit(Hits(line, marker), 0)
    case Some((p, st)) =>
      MatchAtSound(line, marker, p, st);
      Some(st)
    case None => None
  }

  // ---------------------------------------------------------------------------
  // The matcher finds exactly the matches the pattern admits

  lemma DigitsSlice(line: string, i: nat, j: nat)
    requires i <= j <= |line|
    ensures DigitsIn(line, i, j) <==> AllDigits(line[i..j])
  {
    assert forall k :: i <= k < j ==> line[k] == line[i..j][k - i];
  }

  /** A digit run that is followed by a non-digit is the longest run there. */
  lemma {:induction false} RunExact(line: string, i: nat, j: nat)
    requires DigitsIn(line, i, j) && RunEnds(line, j)
    ensures DigitRun(line, i) == j - i
    decreases j - i
  {
    if i < j {
      RunExact(line, i + 1, j);
    }
  }

  lemma FieldEndAt(line: string, i: nat, j: nat, delim: char)
    requires i < j < |line| && DigitsIn(line, i, j) && line[j] == delim && !IsDigit(delim)
    ensures FieldEnd(line, i, delim) == j
  {
    RunExact(line, i, j);
  }

  /** The positions of the pieces of a match with groups `st` at `p`. */
  function Cuts(marker: string, p: nat, st: Stamp): (nat, nat, nat, nat, nat) {
    var a := p + |marker|;
    var b := a + |st.hours|;
    var c := b + 1 + |st.minutes|;
    var d := c + 1 + |st.whole|;
    (a, b, c, d, d + 1 + |st.frac|)
  }

  /** The match `st` laid out piece by piece from `p`. */
  predicate Pieces(line: string, marker: string, p: nat, st: Stamp) {
    var (a, b, c, d, e) := Cuts(marker, p, st);
    && e <= |line|
    && line[p..a] == marker
    && line[a..b] == st.hours && line[b..b + 1] == ":"
    && line[b + 1..c] == st.minutes && line[c..c + 1] == ":"
    && line[c + 1..d] == st.whole && line[d..d + 1] == "."
    && line[d + 1..e] == st.frac
  }

  /** Adjacent slices spelling `u` and `v` together spell `u + v`. */
  lemma Glue(line: string, i: nat, j: nat, k: nat, u: string, v: string)
    requires i <= j <= k <= |line| && line[i..j] == u && line[j..k] == v
    ensures line[i..k] == u + v
  {
    assert line[i..k] == line[i..j] + line[j..k];
  }

  /** A slice spelling `u + v` splits into slices spelling `u` and `v`. */
  lemma Unglue(line: string, i: nat, k: nat, u: string, v: string)
    requires i + |u| + |v| == k <= |line| && line[i..k] == u + v
    ensures line[i..i + |u|] == u && line[i + |u|..k] == v
  {
    assert line[i..i + |u|] == (u + v)[..|u|];
    assert line[i + |u|..k] == (u + v)[|u|..];
  }

  /** The text after the minutes: `:whole.frac`. */
  function SecondsText(st: Stamp): string {
    ":" + (st.whole + ("." + st.frac))
  }

  lemma JoinSeconds(line: string, c: nat, st: Stamp)
    requires var d := c + 1 + |st.whole|;
             var e := d + 1 + |st.frac|;
             && e <= |line|
             && line[c..c + 1] == ":" && line[c + 1..d] == st.whole
             && line[d..d + 1] == "." && line[d + 1..e] == st.frac
    ensures line[c..c + |SecondsText(st)|] == SecondsText(st)
  {
    var d := c + 1 + |st.whole|;
    var e := d + 1 + |st.frac|;
    Glue(line, d, d + 1, e, ".", st.frac);
    Glue(line, c + 1, d, e, st.whole, "." + st.frac);
    Glue(line, c, c + 1, e, ":", st.whole + ("." + st.frac));
  }

  lemma SplitSeconds(line: string, c: nat, st: Stamp)
    requires c + |SecondsText(st)| <= |line| && line[c..c + |SecondsText(st)|] == SecondsText(st)
    ensures var d := c + 1 + |st.whole|;
            var e := d + 1 + |st.frac|;
            && line[c..c + 1] == ":" && line[c + 1..d] == st.whole
            && line[d..d + 1] == "." && line[d + 1..e] == st.frac
  {
    var d := c + 1 + |st.whole|;
    var e := d + 1 + |st.frac|;
    Unglue(line, c, e, ":", st.whole + ("." + st.frac));
    Unglue(line, c + 1, e, st.whole, "." + st.frac);
    Unglue(line, d, e, ".", st.frac);
  }

  lemma RenderSeconds(marker: string, st: Stamp)
    ensures Render(marker, st) == marker + (st.hours + (":" + (st.minutes + SecondsText(st))))
  {
  }

  /** A match's text laid out piece by piece gives back the whole text. */
  lemma PiecesJoin(line: string, marker: string, p: nat, st: Stamp)
    requires Pieces(line, marker, p, st)
    ensures p + |Render(marker, st)| <= |line|
    ensures line[p..p + |Render(marker, st)|] == Render(marker, st)
  {
    var (a, b, c, d, e) := Cuts(marker, p, st);
    JoinSeconds(line, c, st);
    var t3 := st.minutes + SecondsText(st);
    Glue(line, b + 1, c, e, st.minutes, SecondsText(st));
    Glue(line, b, b + 1, e, ":", t3);
    Glue(line, a, b, e, st.hours, ":" + t3);
    Glue(line, p, a, e, marker, st.hours + (":" + t3));
    RenderSeconds(marker, st);
  }

  /** A match's text splits into its pieces. */
  lemma PiecesSplit(line: string, marker: string, p: nat, st: Stamp)
    requires p + |Render(marker, st)| <= |line|
    requires line[p..p + |Render(marker, st)|] == Render(marker, st)
    ensures Pieces(line, marker, p, st)
  {
    var (a, b, c, d, e) := Cuts(marker, p, st);
    var t3 := st.minutes + SecondsText(st);
    RenderSeconds(marker, st);
    Unglue(line, p, e, marker, st.hours + (":" + t3));
    Unglue(line, a, e, st.hours, ":" + t3);
    SplitMinutes(line, b, st);
    SplitSeconds(line, c, st);
  }

  lemma SplitMinutes(line: string, b: nat, st: Stamp)
    requires b + 1 + |st.minutes| + |SecondsText(st)| <= |line|
    requires line[b..b + 1 + |st.minutes| + |SecondsText(st)|] == ":" + (st.minutes + SecondsText(st))
    ensures var c := b + 1 + |st.minutes|;
            && line[b..b + 1] == ":" && line[b + 1..c] == st.minutes
            && line[c..c + |SecondsText(st)|] == SecondsText(st)
  {
    var e := b + 1 + |st.minutes| + |SecondsText(st)|;
    Unglue(line, b, e, ":", st.minutes + SecondsText(st));
    Unglue(line, b + 1, e, st.minutes, SecondsText(st));
  }

  lemma CharSlice(line: string, i: nat, c: char)
    requires i < |line|
    ensures line[i..i + 1] == [c] <==> line[i] == c
  {
    assert |line[i..i + 1]| == 1 && line[i..i + 1][0] == line[i];
  }

  /** The groups cut out of `line` by the positions of a match. */
  function Slices(line: string, a: nat, b: nat, c: nat, d: nat, e: nat): Stamp
    requires a <= b < c < d < e <= |line|
  {
    Stamp(line[a..b], line[b + 1..c], line[c + 1..d], line[d + 1..e])
  }

  lemma SlicesWellFormed(line: string, a: nat, b: nat, c: nat, d: nat, e: nat)
    requires a < b && b + 1 < c && c + 1 < d && d + 1 < e <= |line|
    requires DigitsIn(line, a, b) && DigitsIn(line, b + 1, c) && DigitsIn(line, c + 1, d) && DigitsIn(line, d + 1, e)
    ensures WellFormed(Slices(line, a, b, c, d, e))
  {
    DigitsSlice(line, a, b);
    DigitsSlice(line, b + 1, c);
    DigitsSlice(line, c + 1, d);
    DigitsSlice(line, d + 1, e);
  }

  lemma SlicesPieces(line: string, marker: string, p: nat, a: nat, b: nat, c: nat, d: nat, e: nat)
    requires p + |marker| == a < b < c < d < e <= |line| && line[p..a] == marker
    requires line[b] == ':' && line[c] == ':' && line[d] == '.'
    ensures Pieces(line, marker, p, Slices(line, a, b, c, d, e))
  {
    CharSlice(line, b, ':');
    CharSlice(line, c, ':');
    CharSlice(line, d, '.');
  }

  /** The groups cut out at the positions `Bounds` finds form a match. */
  lemma SlicesMatch(line: string, marker: string, p: nat, a: nat, b: nat, c: nat, d: nat, e: nat)
    requires p + |marker| == a < b && b + 1 < c && c + 1 < d && d + 1 < e <= |line| && line[p..a] == marker
    requires DigitsIn(line, a, b) && line[b] == ':'
    requires DigitsIn(line, b + 1, c) && line[c] == ':'
    requires DigitsIn(line, c + 1, d) && line[d] == '.'
    requires DigitsIn(line, d + 1, e) && RunEnds(line, e)
    ensures Matches(line, marker, p, Slices(line, a, b, c, d, e))
  {
    SlicesWellFormed(line, a, b, c, d, e);
    SlicesPieces(line, marker, p, a, b, c, d, e);
    PiecesJoin(line, marker, p, Slices(line, a, b, c, d, e));
  }

  /** Every match `MatchAt` reports is one the pattern admits. */
  lemma MatchAtSound(line: string, marker: string, p: nat, st: Stamp)
    requires MatchAt(line, marker, p) == Some(st)
    ensures Matches(line, marker, p, st)
  {
    var (a, b, c, d, e) := Bounds(line, marker, p).value;
    SlicesMatch(line, marker, p, a, b, c, d, e);
  }

  /** The positions of the groups of a match the pattern admits are the ones
      `Fields` finds. */
  lemma FieldsComplete(line: string, a: nat, b: nat, c: nat, d: nat, e: nat)
    requires a < b && b + 1 < c && c + 1 < d && d + 1 < e <= |line|
    requires DigitsIn(line, a, b) && line[b] == ':'
    requires DigitsIn(line, b + 1, c) && line[c] == ':'
    requires DigitsIn(line, c + 1, d) && line[d] == '.'
    requires DigitsIn(line, d + 1, e) && RunEnds(line, e)
    ensures Fields(line, a) == Some((b, c, d, e))
  {
    FieldEndAt(line, a, b, ':');
    FieldEndAt(line, b + 1, c, ':');
    FieldEndAt(line, c + 1, d, '.');
    RunExact(line, d + 1, e);
    FieldsAt(line, a, b, c, d, e);
  }

  lemma FieldsAt(line: string, a: nat, b: nat, c: nat, d: nat, e: nat)
    requires a <= |line|
    requires FieldEnd(line, a, ':') == b && FieldEnd(line, b + 1, ':') == c && FieldEnd(line, c + 1, '.') == d
    requires d + 1 < e && DigitRun(line, d + 1) == e - (d + 1)
    ensures Fields(line, a) == Some((b, c, d, e))
  {
  }

  /** A marker at `p` followed by the groups `Fields` finds is what `Bounds` reports. */
  lemma BoundsAt(line: string, marker: string, p: nat, f: (nat, nat, nat, nat))
    requires p + |marker| <= |line| && line[p..p + |marker|] == marker
    requires Fields(line, p + |marker|) == Some(f)
    ensures Bounds(line, marker, p) == Some((p + |marker|, f.0, f.1, f.2, f.3))
  {
  }

  /** A match the pattern admits has its delimiters and digit runs where
      `Cuts` places them. */
  lemma MatchLaidOut(line: string, marker: string, p: nat, st: Stamp)
    requires Matches(line, marker, p, st)
    ensures var (a, b, c, d, e) := Cuts(marker, p, st);
            && p + |marker| == a < b && b + 1 < c && c + 1 < d && d + 1 < e <= |line| && line[p..a] == marker
            && DigitsIn(line, a, b) && line[b] == ':'
            && DigitsIn(line, b + 1, c) && line[c] == ':'
            && DigitsIn(line, c + 1, d) && line[d] == '.'
            && DigitsIn(line, d + 1, e) && RunEnds(line, e)
            && Slices(line, a, b, c, d, e) == st
  {
    PiecesSplit(line, marker, p, st);
    PiecesDigits(line, marker, p, st);
    PiecesDelimiters(line, marker, p, st);
  }

  lemma PiecesDigits(line: string, marker: string, p: nat, st: Stamp)
    requires Pieces(line, marker, p, st) && WellFormed(st)
    ensures var (a, b, c, d, e) := Cuts(marker, p, st);
            DigitsIn(line, a, b) && DigitsIn(line, b + 1, c) && DigitsIn(line, c + 1, d) && DigitsIn(line, d + 1, e)
  {
    var (a, b, c, d, e) := Cuts(marker, p, st);
    DigitsSlice(line, a, b);
    DigitsSlice(line, b + 1, c);
    DigitsSlice(line, c + 1, d);
    DigitsSlice(line, d + 1, e);
  }

  lemma PiecesDelimiters(line: string, marker: string, p: nat, st: Stamp)
    requires Pieces(line, marker, p, st)
    ensures var (a, b, c, d, e) := Cuts(marker, p, st);
            e <= |line| && line[b] == ':' && line[c] == ':' && line[d] == '.'
  {
    var (a, b, c, d, e) := Cuts(marker, p, st);
    CharSlice(line, b, ':');
    CharSlice(line, c, ':');
    CharSlice(line, d, '.');
  }

  /** Every match the pattern admits is the one `MatchAt` reports. */
  lemma MatchAtComplete(line: string, marker: string, p: nat, st: Stamp)
    requires Matches(line, marker, p, st)
    ensures MatchAt(line, marker, p) == Some(st)
  {
    MatchLaidOut(line, marker, p, st);
    var (a, b, c, d, e) := Cuts(marker, p, st);
    FieldsComplete(line, a, b, c, d, e);
    BoundsAt(line, marker, p, (b, c, d, e));
  }

  /** `MatchAt` reports precisely the matches of the regular expression. */
  lemma MatchAtIff(line: string, marker: string, p: nat, st: Stamp)
    ensures MatchAt(line, marker, p) == Some(st) <==> Matches(line, marker, p, st)
  {
    if MatchAt(line, marker, p) == Some(st) {
      MatchAtSound(line, marker, p, st);
    }
    if Matches(line, marker, p, st) {
      MatchAtComplete(line, marker, p, st);
    }
  }

  /** `re.search` semantics: `Search` yields the groups of a match at some
      position and no match exists at any earlier position; it yields
      nothing exactly when the pattern matches nowhere. */
  lemma SearchLeftmost(line: string, marker: string)
    ensures Search(line, marker).Some? ==>
              exists p :: 0 <= p < |line| && Matches(line, marker, p, Search(line, marker).value) &&
                forall q, st :: 0 <= q < p ==> !Matches(line, marker, q, st)
    ensures Search(line, marker).None? ==> forall p, st :: 0 <= p <= |line| ==> !Matches(line, marker, p, st)
  {
    var hits := Hits(line, marker);
    match FirstHit(hits, 0)
    case Some((p, st)) =>
      MatchAtSound(line, marker, p, st);
      forall q, st' | 0 <= q < p
        ensures !Matches(line, marker, q, st')
      {
        assert hits[q].None?;
        MatchAtIff(line, marker, q, st');
      }
    case None =>
      forall p, st | 0 <= p <= |line|
        ensures !Matches(line, marker, p, st)
      {
        assert hits[p].None?;
        MatchAtIff(line, marker, p, st);
      }
  }

  /** A match at `p` with none before it is what `Search` yields. */
  lemma SearchFinds(line: string, marker: string, p: nat, st: Stamp)
    requires Matches(line, marker, p, st)
    requires forall q, st' :: 0 <= q < p ==> !Matches(line, marker, q, st')
    ensures Search(line, marker) == Some(st)
  {
    MatchAtComplete(line, marker, p, st);
    var hits := Hits(line, marker);
    assert hits[p] == Some(st);
    forall q | 0 <= q < p
      ensures hits[q].None?
    {
      if hits[q].Some? {
        MatchAtSound(line, marker, q, hits[q].value);
      }
    }
    FirstHitAt(hits, p, st);
  }
}
