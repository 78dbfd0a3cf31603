/** String helpers the compressor borrows from Python: decimal digits and `int`,
    `str.lower`, `str.endswith`, `str.split('\n')`, and the `os.path` functions
    `splitext`, `join` and `basename`. */
module Text {

  // ---------------------------------------------------------------------------
  // Digits

  /** The characters `\d` and `int` accept (ASCII digits only). */
  predicate IsDigit(c: char) {
    '0' <= c <= '9'
  }

  predicate AllDigits(s: string) {
    forall i :: 0 <= i < |s| ==> IsDigit(s[i])
  }

  function Pow10(n: nat): (r: nat)
    ensures r >= 1
  {
    if n == 0 then 1 else 10 * Pow10(n - 1)
  }

  /** Value of a digit string, as Python's `int` reads it (leading zeros allowed). */
  function DigitsValue(s: string): (r: nat)
    requires AllDigits(s)
    ensures r < Pow10(|s|)
  {
    if |s| == 0 then 0
    else 10 * DigitsValue(s[..|s| - 1]) + ((s[|s| - 1] as int) - ('0' as int))
  }

  /** The decimal spelling of `n`, without leading zeros. */
  function Digits(n: nat): (s: string)
    ensures |s| > 0 && AllDigits(s)
    decreases n
  {
    var last := [((n % 10) + ('0' as int)) as char];
    if n < 10 then last else Digits(n / 10) + last
  }

  /** `int` reads back every spelled number. */
  lemma {:induction false} DigitsRoundTrip(n: nat)
    ensures DigitsValue(Digits(n)) == n
    decreases n
  {
    var s := Digits(n);
    if n >= 10 {
      DigitsRoundTrip(n / 10);
      assert s[..|s| - 1] == Digits(n / 10);
    }
  }

  /** A run of zeros is worth nothing. */
  lemma {:induction false} ZerosValue(zeros: string)
    requires forall i :: 0 <= i < |zeros| ==> zeros[i] == '0'
    ensures AllDigits(zeros) && DigitsValue(zeros) == 0
    decreases |zeros|
  {
    if |zeros| > 0 {
      ZerosValue(zeros[..|zeros| - 1]);
    }
  }

  /** Leading zeros do not change what `int` reads, so `01` and `1` are both one. */
  lemma {:induction false} LeadingZeros(zeros: string, s: string)
    requires forall i :: 0 <= i < |zeros| ==> zeros[i] == '0'
    requires AllDigits(s)
    ensures AllDigits(zeros + s) && DigitsValue(zeros + s) == DigitsValue(s)
    decreases |s|
  {
    ZerosValue(zeros);
    var t := zeros + s;
    assert AllDigits(t) by {
      forall i | 0 <= i < |t|
        ensures IsDigit(t[i])
      {
        if i >= |zeros| {
          assert t[i] == s[i - |zeros|];
        }
      }
    }
    if |s| == 0 {
      assert t == zeros;
    } else {
      assert t[..|t| - 1] == zeros + s[..|s| - 1];
      assert t[|t| - 1] == s[|s| - 1];
      LeadingZeros(zeros, s[..|s| - 1]);
    }
  }

  /** Value of the decimal literal `whole.frac`, as `float` reads it but without rounding. */
  function DecimalValue(whole: string, frac: string): (r: real)
    requires AllDigits(whole) && AllDigits(frac)
    ensures DigitsValue(whole) as real <= r < DigitsValue(whole) as real + 1.0
  {
    var n := DigitsValue(frac) as real;
    var d := Pow10(|frac|) as real;
    FractionBelowOne(n, d);
    DigitsValue(whole) as real + n / d
  }

  lemma FractionBelowOne(n: real, d: real)
    requires 0.0 <= n < d
    ensures 0.0 <= n / d < 1.0
  {
    assert n / d * d == n;
  }

  // ---------------------------------------------------------------------------
  // Searching for a character

  function IndexOf(s: string, c: char): (k: int)
    ensures -1 <= k < |s|
    ensures k >= 0 ==> s[k] == c
    ensures forall j :: 0 <= j < |s| && (k == -1 || j < k) ==> s[j] != c
  {
    if |s| == 0 then -1
    else if s[0] == c then 0
    else
      var k := IndexOf(s[1..], c);
      if k == -1 then -1 else k + 1
  }

  function LastIndexOf(s: string, c: char): (k: int)
    ensures -1 <= k < |s|
    ensures k >= 0 ==> s[k] == c
    ensures forall j :: k < j < |s| ==> s[j] != c
  {
    if |s| == 0 then -1
    else if s[|s| - 1] == c then |s| - 1
    else LastIndexOf(s[..|s| - 1], c)
  }

  /** The first occurrence of `c` is the one before which `c` does not appear. */
  lemma IndexOfAt(s: string, c: char, k: nat)
    requires k < |s| && s[k] == c
    requires forall j :: 0 <= j < k ==> s[j] != c
    ensures IndexOf(s, c) == k
  {
  }

  /** The last occurrence of `c` is the one after which `c` no longer appears. */
  lemma LastIndexOfAt(s: string, c: char, k: nat)
    requires k < |s| && s[k] == c
    requires forall j :: k < j < |s| ==> s[j] != c
    ensures LastIndexOf(s, c) == k
  {
  }

  // ---------------------------------------------------------------------------
  // Lower-casing and suffixes

  /** `str.lower` for the characters whose lower-case form is an ASCII letter:
      the ASCII capitals and U+212A KELVIN SIGN, which lowers to `k`. */
  function LowerChar(c: char): (r: char)
    ensures 'A' <= c <= 'Z' ==> r as int == c as int + 32
    ensures c == '\U{212A}' ==> r == 'k'
    ensures !('A' <= c <= 'Z') && c != '\U{212A}' ==> r == c
  {
    if 'A' <= c <= 'Z' then (c as int + 32) as char
    else if c == '\U{212A}' then 'k'
    else c
  }

  function Lower(s: string): (r: string)
    ensures |r| == |s|
    ensures forall i :: 0 <= i < |s| ==> r[i] == LowerChar(s[i])
  {
    seq(|s|, i requires 0 <= i < |s| => LowerChar(s[i]))
  }

  predicate EndsWith(s: string, suffix: string) {
    |suffix| <= |s| && s[|s| - |suffix|..] == suffix
  }

  // ---------------------------------------------------------------------------
  // `os.path.splitext` on a bare file name

  predicate HasNonDot(s: string) {
    exists i :: 0 <= i < |s| && s[i] != '.'
  }

  /** A well-formed extension: a dot followed by dot-free text. */
  predicate IsExtension(ext: string) {
    |ext| >= 1 && ext[0] == '.' && forall i :: 1 <= i < |ext| ==> ext[i] != '.'
  }

  /** `os.path.splitext(name)` for a name without directory separators: the
      extension starts at the last dot, unless only dots precede that dot
      (so `.bashrc` and `..x` have no extension). */
  function SplitExt(name: string): (r: (string, string))
    ensures r.0 + r.1 == name
    ensures r.1 == [] || (IsExtension(r.1) && HasNonDot(r.0))
  {
    var d := LastIndexOf(name, '.');
    if d >= 0 && HasNonDot(name[..d]) then
      assert name[..d] + name[d..] == name;
      (name[..d], name[d..])
    else
      (name, [])
  }

  /** `os.path.splitext(name)[0]`. */
  function Root(name: string): string {
    SplitExt(name).0
  }

  /** `splitext` splits exactly at the one place that leaves a well-formed
      extension behind a root holding a character other than a dot. */
  lemma SplitExtUnique(name: string, root: string, ext: string)
    requires name == root + ext && IsExtension(ext) && HasNonDot(root)
    ensures SplitExt(name) == (root, ext)
  {
    var k := |root|;
    assert name[k] == '.';
    assert forall j :: k < j < |name| ==> name[j] == ext[j - k];
    LastIndexOfAt(name, '.', k);
    assert name[..k] == root;
    assert name[k..] == ext;
  }

  /** When `splitext` finds no extension, no split of the name could have
      produced one. */
  lemma SplitExtNone(name: string, root: string, ext: string)
    requires SplitExt(name).1 == []
    requires name == root + ext
    ensures !(IsExtension(ext) && HasNonDot(root))
  {
    if IsExtension(ext) && HasNonDot(root) {
      SplitExtUnique(name, root, ext);
    }
  }

  // ---------------------------------------------------------------------------
  // `os.path.join` and `os.path.basename` (POSIX separator)

  /** `os.path.join(dir, name)`: an absolute `name` replaces `dir`; otherwise a
      `/` is inserted unless `dir` is empty or already ends with one. */
  function Join(dir: string, name: string): (p: string)
    ensures EndsWith(p, name)
    ensures |name| > 0 && name[0] != '/' && dir != [] && dir[|dir| - 1] != '/' ==> p == dir + "/" + name
  {
    if |name| > 0 && name[0] == '/' then name
    else if dir == [] || dir[|dir| - 1] == '/' then dir + name
    else dir + "/" + name
  }

  /** `os.path.basename(p)`: the text after the last `/`. */
  function Basename(p: string): (b: string)
    ensures forall i :: 0 <= i < |b| ==> b[i] != '/'
    ensures EndsWith(p, b)
    ensures |b| < |p| ==> p[|p| - |b| - 1] == '/'
  {
    p[LastIndexOf(p, '/') + 1..]
  }

  /** The base name of a joined path is the name that was joined on. */
  lemma BasenameOfJoin(dir: string, name: string)
    requires forall i :: 0 <= i < |name| ==> name[i] != '/'
    ensures Basename(Join(dir, name)) == name
  {
    var p := Join(dir, name);
    var k := |p| - |name|;
    assert p[k..] == name;
    assert forall j :: k <= j < |p| ==> p[j] == name[j - k];
    if k == 0 {
      assert LastIndexOf(p, '/') == -1;
    } else {
      assert p[k - 1] == '/';
      LastIndexOfAt(p, '/', k - 1);
    }
  }

  // ---------------------------------------------------------------------------
  // `str.split('\n')` and its inverse `'\n'.join`

  function JoinLines(ls: seq<string>): string
    requires |ls| >= 1
  {
    if |ls| == 1 then ls[0] else ls[0] + "\n" + JoinLines(ls[1..])
  }

  /** `s.split('\n')`: the pieces between newlines, never fewer than one. */
  function SplitLines(s: string): (ls: seq<string>)
    ensures |ls| >= 1
    ensures forall i, j :: 0 <= i < |ls| && 0 <= j < |ls[i]| ==> ls[i][j] != '\n'
    ensures JoinLines(ls) == s
    decreases |s|
  {
    var k := IndexOf(s, '\n');
    if k == -1 then [s]
    else
      var rest := SplitLines(s[k + 1..]);
      assert s == s[..k] + "\n" + s[k + 1..];
      assert ([s[..k]] + rest)[1..] == rest;
      [s[..k]] + rest
  }

  /** Splitting undoes joining when no piece holds a newline. */
  lemma {:induction false} SplitJoinLines(ls: seq<string>)
    requires |ls| >= 1
    requires forall i, j :: 0 <= i < |ls| && 0 <= j < |ls[i]| ==> ls[i][j] != '\n'
    ensures SplitLines(JoinLines(ls)) == ls
    decreases |ls|
  {
    var s := JoinLines(ls);
    if |ls| == 1 {
      assert IndexOf(s, '\n') == -1;
    } else {
      var k := |ls[0]|;
      assert s == ls[0] + "\n" + JoinLines(ls[1..]);
      assert s[k] == '\n';
      assert s[..k] == ls[0];
      IndexOfAt(s, '\n', k);
      assert s[k + 1..] == JoinLines(ls[1..]);
      SplitJoinLines(ls[1..]);
      assert ls == [ls[0]] + ls[1..];
    }
  }
}
