/**
 * The handful of Python string operations the extraction code relies on:
 * `str.strip()`, `str.strip(chars)`, `str.split(sep)[0]` and `str.split()`.
 * (`str.startswith` is Dafny's prefix test `<=`.) Strings are sequences of
 * code points.
 */
module PyStr {
  import opened Wrappers

  /** The characters `str.isspace()` accepts, which is what `strip()` and `split()` drop. */
  const Whitespace: set<char> := {
    ' ', '\t', '\n', '\r', '\U{000B}', '\U{000C}',
    '\U{001C}', '\U{001D}', '\U{001E}', '\U{001F}', '\U{0085}', '\U{00A0}', '\U{1680}',
    '\U{2000}', '\U{2001}', '\U{2002}', '\U{2003}', '\U{2004}', '\U{2005}', '\U{2006}',
    '\U{2007}', '\U{2008}', '\U{2009}', '\U{200A}', '\U{2028}', '\U{2029}', '\U{202F}',
    '\U{205F}', '\U{3000}'
  }

  predicate AllIn(s: string, cs: set<char>) {
    forall k :: 0 <= k < |s| ==> s[k] in cs
  }

  /** How many characters at the front of `s` are in `cs`: what `lstrip(cs)` cuts. */
  function Lead(s: string, cs: set<char>): (n: nat)
    ensures n <= |s| && AllIn(s[..n], cs)
    ensures n < |s| ==> s[n] !in cs
  {
    if s != [] && s[0] in cs then
      var m := Lead(s[1..], cs);
      m + 1
    else 0
  }

  /** How many characters at the back of `s` are in `cs`: what `rstrip(cs)` cuts. */
  function Trail(s: string, cs: set<char>): (n: nat)
    ensures n <= |s| && AllIn(s[|s| - n..], cs)
    ensures n < |s| ==> s[|s| - n - 1] !in cs
  {
    if s != [] && s[|s| - 1] in cs then
      var m := Trail(s[..|s| - 1], cs);
      m + 1
    else 0
  }

  lemma SliceOfSuffix(s: string, i: nat, n: nat)
    requires i + n <= |s|
    ensures s[i..][..n] == s[i..i + n] && s[i..][n..] == s[i + n..]
  {}

  /** `s.strip(cs)`: the result neither starts nor ends with a character from `cs`. */
  function Strip(s: string, cs: set<char>): (r: string)
    ensures r != [] ==> r[0] !in cs && r[|r| - 1] !in cs
  {
    var t := s[Lead(s, cs)..];
    t[..|t| - Trail(t, cs)]
  }

  /**
   * What `strip` leaves is the slice of `s` between a run of characters from
   * `cs` at the front and one at the back.
   */
  lemma StripCuts(s: string, cs: set<char>)
    ensures var r, i := Strip(s, cs), Lead(s, cs);
      i + |r| <= |s| && s[i..i + |r|] == r && AllIn(s[..i], cs) && AllIn(s[i + |r|..], cs)
  {
    var i := Lead(s, cs);
    var t := s[i..];
    var r := t[..|t| - Trail(t, cs)];
    SliceOfSuffix(s, i, |r|);
  }

  /** `s.strip()` with no argument strips whitespace. */
  function Trim(s: string): string {
    Strip(s, Whitespace)
  }

  /** `s.split(sep)[0]`: everything before the first `sep`, or all of `s`. */
  function BeforeFirst(s: string, sep: char): (r: string)
    ensures r <= s && sep !in r
    ensures |r| == |s| || s[|r|] == sep
  {
    if s == [] || s[0] == sep then [] else [s[0]] + BeforeFirst(s[1..], sep)
  }

  predicate NoneIn(s: string, cs: set<char>) {
    forall k :: 0 <= k < |s| ==> s[k] !in cs
  }

  /** The longest prefix of `s` with no character from `cs`. */
  function Run(s: string, cs: set<char>): (w: string)
    ensures w <= s && NoneIn(w, cs)
    ensures |w| == |s| || s[|w|] in cs
  {
    if s == [] || s[0] in cs then [] else [s[0]] + Run(s[1..], cs)
  }

  /** The maximal runs of characters outside `cs`, in order. */
  function Split(s: string, cs: set<char>): seq<string>
    decreases |s|
  {
    var i := Lead(s, cs);
    if i == |s| then []
    else
      var t := s[i..];
      var w := Run(t, cs);
      assert w != [] by {
        assert t[0] == s[i];
      }
      [w] + Split(t[|w|..], cs)
  }

  /** Every run is non-empty and free of `cs`. */
  lemma {:induction false} SplitRuns(s: string, cs: set<char>)
    ensures forall w :: w in Split(s, cs) ==> w != [] && NoneIn(w, cs)
    decreases |s|
  {
    var i := Lead(s, cs);
    if i < |s| {
      var t := s[i..];
      var w := Run(t, cs);
      assert w != [] by {
        assert t[0] == s[i];
      }
      SplitRuns(t[|w|..], cs);
      assert Split(s, cs) == [w] + Split(t[|w|..], cs);
    }
  }

  /** There is no run exactly when `s` is made of characters from `cs` only. */
  lemma SplitEmpty(s: string, cs: set<char>)
    ensures Split(s, cs) == [] <==> AllIn(s, cs)
  {
    if Lead(s, cs) == |s| {
      assert s[..|s|] == s;
    }
  }

  /** `s.split()`: the whitespace-separated words of `s`. */
  function Words(s: string): seq<string> {
    Split(s, Whitespace)
  }

  /**
   * The first run is the longest one starting at the first character of `s`
   * outside `cs`.
   */
  lemma FirstRun(s: string, cs: set<char>)
    requires !AllIn(s, cs)
    ensures var i := Lead(s, cs);
      i < |s| && AllIn(s[..i], cs) && s[i] !in cs && Split(s, cs)[0] == Run(s[i..], cs)
  {
    SplitEmpty(s, cs);
  }

  /**
   * `Split(s, cs)[0]`, or None where there is no run: the longest run
   * outside `cs` starting at the first character of `s` outside `cs`.
   */
  function FirstRunOf(s: string, cs: set<char>): (r: Option<string>)
    ensures r.None? <==> AllIn(s, cs)
    ensures r.Some? ==> r.value != [] && NoneIn(r.value, cs)
    ensures r.Some? ==> var i := Lead(s, cs);
      i < |s| && AllIn(s[..i], cs) && s[i] !in cs && r.value == Run(s[i..], cs)
  {
    var runs := Split(s, cs);
    SplitRuns(s, cs);
    SplitEmpty(s, cs);
    if runs == [] then None
    else
      FirstRun(s, cs);
      Some(runs[0])
  }
}
