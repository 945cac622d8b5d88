/**
 * The identifier parser of `TVModelEntry.__init__`: the file name is the last
 * component of the path, and it is scanned, left to right, for the regular
 * expressions `[sS]([0-9]+)` (season) and `[eE]([0-9]+)` (episode). Every match
 * overwrites the field, so the last match wins; with no match the field keeps
 * its initial value -1.
 */
module Parser {
  import opened Options

  // ---------------------------------------------------------------------
  // File name of a path

  /** Index of the last '/' in `p`, or -1 when there is none. */
  function LastSlash(p: string): (k: int)
    ensures -1 <= k < |p|
    ensures k >= 0 ==> p[k] == '/'
    ensures forall q :: k < q < |p| ==> p[q] != '/'
  {
    if p == [] then -1
    else if p[|p| - 1] == '/' then |p| - 1
    else LastSlash(p[..|p| - 1])
  }

  /**
   * The `name` of a POSIX path: its last component, where empty components
   * (repeated or trailing slashes) and "." components do not count; "" when
   * no component is left (as for "", "/" or ".").
   */
  function BaseName(p: string): (name: string)
    ensures '/' !in name && name != "."
    decreases |p|
  {
    var k := LastSlash(p);
    var segment := p[k + 1..];
    if segment != "" && segment != "." then segment
    else if k < 0 then ""
    else BaseName(p[..k])
  }

  /** Only the final component matters: whatever directory precedes a plain file name, the name is that file name. */
  lemma BaseNameOfJoin(dir: string, name: string)
    requires dir == [] || dir[|dir| - 1] == '/'
    requires name != "" && name != "." && '/' !in name
    ensures BaseName(dir + name) == name
  {
    var p := dir + name;
    assert p[|dir|..] == name;
    forall q | |dir| <= q < |p| ensures p[q] != '/' {
      assert p[q] == name[q - |dir|];
    }
    if dir != [] {
      assert p[|dir| - 1] == '/';
    }
    assert LastSlash(p) == |dir| - 1;
  }

  // ---------------------------------------------------------------------
  // Markers

  /** The two patterns of the scan: `[sS][0-9]+` and `[eE][0-9]+`. */
  datatype Marker = Season | Episode

  predicate IsMarkerLetter(m: Marker, c: char)
  {
    match m
    case Season => c == 's' || c == 'S'
    case Episode => c == 'e' || c == 'E'
  }

  /** The regular expression class `[0-9]`: ASCII digits only. */
  predicate IsDigit(c: char)
  {
    '0' <= c <= '9'
  }

  function DigitValue(c: char): (d: nat)
    requires IsDigit(c)
    ensures d < 10
  {
    c as int - '0' as int
  }

  /** What `int` makes of a string of ASCII digits: its decimal value, leading zeros ignored. */
  function DigitsValue(ds: string): (v: nat)
    requires forall k :: 0 <= k < |ds| ==> IsDigit(ds[k])
  {
    if ds == [] then 0
    else DigitsValue(ds[..|ds| - 1]) * 10 + DigitValue(ds[|ds| - 1])
  }

  /** End of the longest digit run starting at `i`: the greedy `[0-9]+`. */
  function RunEnd(s: string, i: nat): (j: nat)
    requires i <= |s|
    ensures i <= j <= |s|
    ensures forall k :: i <= k < j ==> IsDigit(s[k])
    ensures j == |s| || !IsDigit(s[j])
    decreases |s| - i
  {
    if i < |s| && IsDigit(s[i]) then RunEnd(s, i + 1) else i
  }

  /**
   * A match of marker `m` starts at position `p`. Matches never overlap: a
   * match ends at the end of its digit run, and no marker letter is a digit,
   * so the matches `finditer` reports are exactly these positions.
   */
  predicate MarkerAt(s: string, m: Marker, p: int)
  {
    0 <= p && p + 1 < |s| && IsMarkerLetter(m, s[p]) && IsDigit(s[p + 1])
  }

  /** The number captured by the match starting at `p`. */
  function MarkerValue(s: string, p: nat): nat
    requires p < |s|
  {
    DigitsValue(s[p + 1..RunEnd(s, p + 1)])
  }

  /** The start of the last match of `m` that begins before `n`, if there is one. */
  function LastMarker(s: string, m: Marker, n: nat): (r: Option<nat>)
    requires n <= |s|
    ensures r.None? ==> forall q :: 0 <= q < n ==> !MarkerAt(s, m, q)
    ensures r.Some? ==> r.value < n && MarkerAt(s, m, r.value)
    ensures r.Some? ==> forall q :: r.value < q < n ==> !MarkerAt(s, m, q)
  {
    if n == 0 then None
    else if MarkerAt(s, m, n - 1) then Some(n - 1)
    else LastMarker(s, m, n - 1)
  }

  /** The value a field holds once the matches starting before `n` have been seen. */
  function ScannedValue(s: string, m: Marker, n: nat): int
    requires n <= |s|
  {
    match LastMarker(s, m, n)
    case None => -1
    case Some(p) => MarkerValue(s, p)
  }

  /** The value a field holds once the scan of `s` for `m` is over. */
  function LastMarkerValue(s: string, m: Marker): (v: int)
    ensures v >= -1
    ensures v == -1 <==> forall p :: 0 <= p < |s| ==> !MarkerAt(s, m, p)
    ensures forall p :: MarkerAt(s, m, p) && (forall q :: p < q < |s| ==> !MarkerAt(s, m, q)) ==>
      v == MarkerValue(s, p)
  {
    ScannedValue(s, m, |s|)
  }

  /** A match runs to the end of its digits, and nothing inside it starts another match. */
  lemma MatchSpansRun(s: string, m: Marker, i: nat)
    requires MarkerAt(s, m, i)
    ensures ScannedValue(s, m, RunEnd(s, i + 1)) == MarkerValue(s, i)
  {
    var j := RunEnd(s, i + 1);
    forall q | i < q < j ensures !MarkerAt(s, m, q) {
      assert IsDigit(s[q]);
    }
    assert LastMarker(s, m, j) == Some(i);
  }

  /** Read the digit run starting at `i` and compute its value, as `int(m.group(1))` does. */
  method ReadNumber(s: string, i: nat) returns (j: nat, number: nat)
    requires i <= |s|
    ensures j == RunEnd(s, i) && number == DigitsValue(s[i..j])
  {
    j := i;
    number := 0;
    while j < |s| && IsDigit(s[j])
      invariant i <= j <= |s|
      invariant forall k :: i <= k < j ==> IsDigit(s[k])
      invariant RunEnd(s, i) == RunEnd(s, j)
      invariant number == DigitsValue(s[i..j])
    {
      assert s[i..j + 1][..j - i] == s[i..j];
      number := number * 10 + DigitValue(s[j]);
      j := j + 1;
    }
  }

  /**
   * The scan loop itself: walk the matches from left to right, as
   * `re.finditer` reports them, and overwrite the value with each captured
   * number. `int` of a digit run fails only beyond 4300 digits, longer
   * than any file name (255 bytes on common file systems), so the
   * `ValueError` branch of the source has no counterpart here.
   */
  method ScanMarkers(s: string, m: Marker) returns (v: int)
    ensures v == LastMarkerValue(s, m)
  {
    v := -1;
    var i := 0;
    while i < |s|
      invariant 0 <= i <= |s|
      invariant v == ScannedValue(s, m, i)
    {
      if MarkerAt(s, m, i) {
        var j, number := ReadNumber(s, i + 1);
        MatchSpansRun(s, m, i);
        v := number;
        i := j;
      } else {
        i := i + 1;
      }
    }
  }

  /** The (season, episode) pair the constructor derives from a file name. */
  function ParseName(name: string): (int, int)
  {
    (LastMarkerValue(name, Season), LastMarkerValue(name, Episode))
  }

  /** Each field takes the last match of its own pattern, independently of the other field. */
  lemma ParseLastMatchWins()
    ensures ParseName("S1.S2E7.mkv") == (2, 7)
  {
    assert LastMarker("S1.S2E7.mkv", Season, 11) == Some(3);
    assert LastMarker("S1.S2E7.mkv", Episode, 11) == Some(5);
    assert MarkerValue("S1.S2E7.mkv", 3) == 2 && MarkerValue("S1.S2E7.mkv", 5) == 7;
  }

  /** Leading zeros are dropped from the captured numbers. */
  lemma ParseSeasonAndEpisode()
    ensures ParseName("Show S02E05.mkv") == (2, 5)
  {
    assert LastMarker("Show S02E05.mkv", Season, 15) == Some(5);
    assert LastMarker("Show S02E05.mkv", Episode, 15) == Some(8);
    assert MarkerValue("Show S02E05.mkv", 5) == 2 by {
      assert RunEnd("Show S02E05.mkv", 6) == 8 && "Show S02E05.mkv"[6..8] == "02";
      assert DigitsValue("02") == 2 by { assert "02"[..1] == "0"; }
    }
    assert MarkerValue("Show S02E05.mkv", 8) == 5 by {
      assert RunEnd("Show S02E05.mkv", 9) == 11 && "Show S02E05.mkv"[9..11] == "05";
      assert DigitsValue("05") == 5 by { assert "05"[..1] == "0"; }
    }
  }

  /** Without a match both fields keep the sentinel -1. */
  lemma ParseNoMarkers()
    ensures ParseName("random.mkv") == (-1, -1)
  {
    assert LastMarker("random.mkv", Season, 10) == None;
    assert LastMarker("random.mkv", Episode, 10) == None;
  }
}
