/** Character classes and small string operations shared by the INI store and
    the printer adapter. The modelled program runs on Python 2 byte strings, so
    "whitespace" is the six ASCII characters that `str.strip()` and the regex
    class `\s` agree on. */
module Text {

  datatype Option<+T> = None | Some(value: T)

  /** Space, tab, newline, carriage return, vertical tab, form feed. */
  predicate IsSpace(c: char) {
    c == ' ' || c == '\t' || c == '\n' || c == '\r' || c == '\U{000B}' || c == '\U{000C}'
  }

  predicate AllSpace(s: string) {
    forall i :: 0 <= i < |s| ==> IsSpace(s[i])
  }

  /** Length of the run of whitespace starting at `i`. */
  function SpaceRun(s: string, i: nat): (n: nat)
    requires i <= |s|
    ensures i + n <= |s|
    decreases |s| - i
  {
    if i == |s| || !IsSpace(s[i]) then 0 else 1 + SpaceRun(s, i + 1)
  }

  /** The run is whitespace and stops at a non-space or at the end. */
  lemma {:induction false} SpaceRunFacts(s: string, i: nat)
    requires i <= |s|
    ensures forall j :: i <= j < i + SpaceRun(s, i) ==> IsSpace(s[j])
    ensures i + SpaceRun(s, i) == |s| || !IsSpace(s[i + SpaceRun(s, i)])
    decreases |s| - i
  {
    if i < |s| && IsSpace(s[i]) {
      SpaceRunFacts(s, i + 1);
    }
  }

  /** Length of the run of whitespace ending just before `j`. */
  function SpaceRunBack(s: string, j: nat): (n: nat)
    requires j <= |s|
    ensures n <= j
  {
    if j == 0 || !IsSpace(s[j - 1]) then 0 else 1 + SpaceRunBack(s, j - 1)
  }

  lemma {:induction false} SpaceRunBackFacts(s: string, j: nat)
    requires j <= |s|
    ensures forall k :: j - SpaceRunBack(s, j) <= k < j ==> IsSpace(s[k])
    ensures SpaceRunBack(s, j) == j || !IsSpace(s[j - SpaceRunBack(s, j) - 1])
  {
    if j > 0 && IsSpace(s[j - 1]) {
      SpaceRunBackFacts(s, j - 1);
    }
  }

  /** Python `str.strip()`: drop leading and trailing whitespace. */
  function Strip(s: string): (r: string)
    ensures |r| <= |s|
    ensures |r| == 0 || (!IsSpace(r[0]) && !IsSpace(r[|r| - 1]))
    ensures |r| == 0 ==> AllSpace(s)
    ensures exists a, b :: 0 <= a <= b <= |s| && r == s[a..b] && AllSpace(s[..a]) && AllSpace(s[b..])
  {
    var a := SpaceRun(s, 0);
    SpaceRunFacts(s, 0);
    SpaceRunBackFacts(s, |s|);
    if a == |s| then
      assert s[0..0] == "" && s[..0] == "" && s[0..] == s;
      ""
    else
      var b := |s| - SpaceRunBack(s, |s|);
      assert !IsSpace(s[a]) && a < b;
      s[a..b]
  }

  /** A string is its own stripped form exactly when it has no whitespace at
      either end. */
  lemma StripFixpoint(s: string)
    ensures Strip(s) == s <==> (|s| == 0 || (!IsSpace(s[0]) && !IsSpace(s[|s| - 1])))
  {
    if |s| > 0 && !IsSpace(s[0]) && !IsSpace(s[|s| - 1]) {
      assert SpaceRun(s, 0) == 0;
      assert SpaceRunBack(s, |s|) == 0;
    }
  }

  /** Stripping twice is stripping once. */
  lemma StripIdempotent(s: string)
    ensures Strip(Strip(s)) == Strip(s)
  {
    StripFixpoint(Strip(s));
  }

  /** `strip()` reduces a line to nothing exactly when it is blank. */
  lemma StripEmptyIffBlank(s: string)
    ensures Strip(s) == "" <==> AllSpace(s)
  {
    SpaceRunFacts(s, 0);
  }

  /** The newline a file iterator leaves on a line goes away with `strip()`. */
  lemma StripNewline(s: string)
    requires Strip(s) == s
    ensures Strip(s + "\n") == s
  {
    StripFixpoint(s);
    var t := s + "\n";
    if |s| > 0 {
      assert SpaceRun(t, 0) == 0;
      assert SpaceRunBack(t, |t| - 1) == 0;
      assert t[..|s|] == s;
    }
  }

  /** First position of `c` in `s`, if any (Python `str.find`). */
  function IndexOf(s: string, c: char): (r: Option<nat>)
    ensures r.Some? ==> r.value < |s| && s[r.value] == c && c !in s[..r.value]
    ensures r.None? ==> c !in s
  {
    if |s| == 0 then None
    else if s[0] == c then Some(0)
    else match IndexOf(s[1..], c)
      case None => None
      case Some(i) =>
        assert s[..i + 1] == [s[0]] + s[1..][..i];
        Some(i + 1)
  }

  /** A position holding `c` with no `c` before it is the one found. */
  lemma IndexOfFirst(s: string, c: char, i: nat)
    requires i < |s| && s[i] == c && c !in s[..i]
    ensures IndexOf(s, c) == Some(i)
  {
    assert forall j :: 0 <= j < i ==> s[..i][j] == s[j];
    assert forall j :: i < j <= |s| ==> s[..j][i] == c;
  }

  /** Last position of `c` in `s`, if any (Python `str.rfind`). */
  function LastIndexOf(s: string, c: char): (r: Option<nat>)
    ensures r.Some? ==> r.value < |s| && s[r.value] == c && c !in s[r.value + 1..]
    ensures r.None? ==> c !in s
  {
    if |s| == 0 then None
    else if s[|s| - 1] == c then Some(|s| - 1)
    else
      var r := LastIndexOf(s[..|s| - 1], c);
      assert s == s[..|s| - 1] + [s[|s| - 1]];
      r
  }

  lemma ConcatAssoc<T>(a: seq<T>, b: seq<T>, c: seq<T>)
    ensures a + (b + c) == a + b + c
  {
  }

  /** Python `'\n'.join(pieces)`. */
  function JoinLines(pieces: seq<string>): string
    requires |pieces| >= 1
  {
    if |pieces| == 1 then pieces[0] else pieces[0] + "\n" + JoinLines(pieces[1..])
  }

  /** Python `s.split('\n')`: the pieces between newlines, always at least one. */
  function SplitLines(s: string): (pieces: seq<string>)
    ensures |pieces| >= 1
    ensures forall i :: 0 <= i < |pieces| ==> '\n' !in pieces[i]
    ensures JoinLines(pieces) == s
    decreases |s|
  {
    match IndexOf(s, '\n')
    case None => [s]
    case Some(i) =>
      var rest := SplitLines(s[i + 1..]);
      assert s == s[..i] + "\n" + s[i + 1..];
      [s[..i]] + rest
  }

  /** Splitting the empty string gives one empty piece. */
  lemma SplitEmpty()
    ensures SplitLines("") == [""]
  {
  }

  /** Splitting undoes joining, for pieces that hold no newline. */
  lemma {:induction false} SplitJoin(pieces: seq<string>)
    requires |pieces| >= 1
    requires forall i :: 0 <= i < |pieces| ==> '\n' !in pieces[i]
    ensures SplitLines(JoinLines(pieces)) == pieces
    decreases |pieces|
  {
    if |pieces| > 1 {
      var p := pieces[0];
      var rest := JoinLines(pieces[1..]);
      var s := p + "\n" + rest;
      assert s[..|p|] == p && s[|p|] == '\n';
      var r := IndexOf(s, '\n');
      assert r == Some(|p|);
      assert s[|p| + 1..] == rest;
      SplitJoin(pieces[1..]);
    }
  }

  /** The lines a Python file iterator yields: each piece up to and including
      its newline, and a final unterminated piece when there is one. */
  function FileLines(s: string): (r: seq<string>)
    decreases |s|
  {
    if |s| == 0 then []
    else match IndexOf(s, '\n')
      case None => [s]
      case Some(i) => [s[..i + 1]] + FileLines(s[i + 1..])
  }

  /** The file text made of `lines`, each followed by a newline. */
  function Terminated(lines: seq<string>): string {
    if |lines| == 0 then "" else lines[0] + "\n" + Terminated(lines[1..])
  }

  /** Reading back a file written line by line yields those lines, each with
      its newline. */
  lemma {:induction false} FileLinesOfTerminated(lines: seq<string>)
    requires forall i :: 0 <= i < |lines| ==> '\n' !in lines[i]
    ensures |FileLines(Terminated(lines))| == |lines|
    ensures forall i :: 0 <= i < |lines| ==> FileLines(Terminated(lines))[i] == lines[i] + "\n"
  {
    if |lines| > 0 {
      var p := lines[0];
      var rest := Terminated(lines[1..]);
      var s := p + "\n" + rest;
      assert s[..|p|] == p && s[|p|] == '\n';
      assert IndexOf(s, '\n') == Some(|p|);
      assert s[..|p| + 1] == p + "\n";
      assert s[|p| + 1..] == rest;
      FileLinesOfTerminated(lines[1..]);
    }
  }

  /** Decimal digits of a natural number. */
  function NatDigits(n: nat): (r: string)
    ensures |r| >= 1
    ensures forall i :: 0 <= i < |r| ==> '0' <= r[i] <= '9'
  {
    var d := [(n % 10) as char + '0'];
    if n < 10 then d else NatDigits(n / 10) + d
  }

  /** Python `"%s" % n` for an integer. */
  function DecimalString(n: int): (r: string)
    ensures |r| >= 1
    ensures r[0] == '-' <==> n < 0
    ensures forall i :: 0 < i < |r| ==> '0' <= r[i] <= '9'
    ensures '0' <= r[|r| - 1] <= '9'
  {
    if n < 0 then "-" + NatDigits(-n) else NatDigits(n)
  }
}
