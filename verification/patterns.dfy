/** The two regular expressions of the INI reader, evaluated the way Python's
    `re.match` does: anchored at the start of the line, and backtracking in the
    engine's priority order. Greedy quantifiers try their longest run first,
    the lazy `.+?` its shortest, and the optional comment group tries
    "present" before "absent". `.` accepts anything but a newline, `\s` is
    `Text.IsSpace`, and `$` (no MULTILINE) matches at the end of the line or
    just before a final newline. */
module Patterns {
  import opened Text

  /** Length of the run of characters `.` accepts, starting at `i`. */
  function LineRun(s: string, i: nat): (n: nat)
    requires i <= |s|
    ensures i + n <= |s|
    decreases |s| - i
  {
    if i == |s| || s[i] == '\n' then 0 else 1 + LineRun(s, i + 1)
  }

  /** The run holds no newline and stops at one or at the end. */
  lemma {:induction false} LineRunFacts(s: string, i: nat)
    requires i <= |s|
    ensures forall j :: i <= j < i + LineRun(s, i) ==> s[j] != '\n'
    ensures i + LineRun(s, i) == |s| || s[i + LineRun(s, i)] == '\n'
    decreases |s| - i
  {
    if i < |s| && s[i] != '\n' {
      LineRunFacts(s, i + 1);
    }
  }

  /** Where `$` matches. */
  predicate EndAnchor(s: string, x: nat) {
    x == |s| || (x + 1 == |s| && s[x] == '\n')
  }

  // ---------------------------------------------------------------------------
  // Section header: \[(.+)\]
  // ---------------------------------------------------------------------------

  /** The greatest `c` in `2..j` with `s[c] == ']'`: greedy `.+` backing off
      one character at a time until a `]` follows. */
  function LastClose(s: string, j: nat): (r: Option<nat>)
    requires j < |s|
    ensures r.Some? ==> 2 <= r.value <= j && s[r.value] == ']'
    ensures r.Some? ==> forall c :: r.value < c <= j ==> s[c] != ']'
    ensures r.None? ==> forall c :: 2 <= c <= j ==> s[c] != ']'
  {
    if j < 2 then None
    else if s[j] == ']' then Some(j)
    else LastClose(s, j - 1)
  }

  /** The header line of section `name`, as `write()` spells it. */
  function Header(name: string): string {
    "[" + name + "]"
  }

  /** Group 1 of the section-header pattern, if the line starts with a header:
      the text between the leading `[` and the last `]` that precedes the
      first newline. */
  function HeaderName(line: string): (r: Option<string>)
    ensures r.Some? ==>
      && |r.value| >= 1
      && |r.value| + 2 <= |line|
      && line[..|r.value| + 2] == Header(r.value)
      && |r.value| + 1 <= LineRun(line, 1)
      && forall c :: |r.value| + 1 < c <= LineRun(line, 1) ==> line[c] != ']'
    ensures r.None? ==>
      || |line| == 0
      || line[0] != '['
      || forall c :: 2 <= c <= LineRun(line, 1) ==> line[c] != ']'
  {
    if |line| == 0 || line[0] != '[' then None
    else match LastClose(line, LineRun(line, 1))
      case None => None
      case Some(c) =>
        assert line[..c + 1] == Header(line[1..c]);
        Some(line[1..c])
  }

  /** A header written as `[name]` reads back as `name`. */
  lemma HeaderOfBracketed(name: string)
    requires |name| >= 1 && '\n' !in name
    ensures HeaderName(Header(name)) == Some(name)
  {
    var s := Header(name);
    assert forall j :: 1 <= j < |s| ==> s[j] != '\n' by {
      forall j | 1 <= j < |s| ensures s[j] != '\n' {
        if j <= |name| {
          assert s[j] == name[j - 1];
        }
      }
    }
    LineRunExact(s, 1, |name| + 1);
    assert s[1..|name| + 1] == name;
  }

  // ---------------------------------------------------------------------------
  // Option line: ([^=;]+?)=(\s*)(.+?)(\s*)(;.+)?$
  // ---------------------------------------------------------------------------

  /** The five groups of an option line; an absent comment group is "", as
      `match.groups("")` reports it. */
  datatype Groups = Groups(name: string, lead: string, value: string, trail: string, comment: string)

  /** The text the groups cover, with the `=` between the first two. */
  function Format(g: Groups): string {
    g.name + "=" + g.lead + g.value + g.trail + g.comment
  }

  /** What `[^=;]+?` followed by `=` can capture. */
  predicate NameOk(s: string) {
    |s| >= 1 && '=' !in s && ';' !in s
  }

  /** What `(;.+)?` can capture. */
  predicate CommentOk(s: string) {
    s == "" || (|s| >= 2 && s[0] == ';' && '\n' !in s)
  }

  /** A value that reads back as exactly itself: non-empty, no whitespace at
      either end, no `;` (which would start a comment) and no newline. */
  predicate PlainValue(s: string) {
    |s| >= 1 && !IsSpace(s[0]) && !IsSpace(s[|s| - 1]) && ';' !in s && '\n' !in s
  }

  predicate WellFormedGroups(g: Groups) {
    NameOk(g.name) && AllSpace(g.lead) && PlainValue(g.value) && AllSpace(g.trail) && CommentOk(g.comment)
  }

  /** `.+` inside the comment group, of length k, k-1, ..., 1 from `i`, each
      followed by `$`. Returns where the match ends. */
  function CommentEnd(s: string, i: nat, k: nat): (r: Option<nat>)
    requires i + k <= |s|
    ensures r.Some? ==> i < r.value <= i + k && EndAnchor(s, r.value)
    decreases k
  {
    if k == 0 then None
    else if EndAnchor(s, i + k) then Some(i + k)
    else CommentEnd(s, i, k - 1)
  }

  /** `(;.+)?$` tried at `t`; the end of the match. */
  function TailAt(s: string, t: nat): (r: Option<nat>)
    requires t <= |s|
    ensures r.Some? ==> t <= r.value <= |s|
  {
    var withComment := if t < |s| && s[t] == ';' then CommentEnd(s, t + 1, LineRun(s, t + 1)) else None;
    if withComment.Some? then withComment
    else if EndAnchor(s, t) then Some(t)
    else None
  }

  /** A matched tail is `$` after a possibly empty well-formed comment. */
  lemma TailSound(s: string, t: nat)
    requires t <= |s| && TailAt(s, t).Some?
    ensures EndAnchor(s, TailAt(s, t).value)
    ensures CommentOk(s[t..TailAt(s, t).value])
  {
    var u := TailAt(s, t).value;
    if u > t {
      LineRunFacts(s, t + 1);
      assert forall j :: t + 1 <= j < u ==> s[j] != '\n';
      assert s[t..u][0] == ';';
    }
  }

  /** Greedy `(\s*)` from `r`, of length k, k-1, ..., 0, then the tail.
      Returns where the comment group starts and where the match ends. */
  function TrailFrom(s: string, r: nat, k: nat): Option<(nat, nat)>
    requires r + k <= |s|
    decreases k
  {
    match TailAt(s, r + k)
    case Some(u) => Some((r + k, u))
    case None => if k == 0 then None else TrailFrom(s, r, k - 1)
  }

  /** Everything after group 3 when group 3 ends at `x`. */
  function TrailAfter(s: string, x: nat): Option<(nat, nat)>
    requires x <= |s|
  {
    TrailFrom(s, x, SpaceRun(s, x))
  }

  /** Lazy `(.+?)` from `p`, of length len, len+1, ... up to the newline.
      Returns where group 3 ends, where the comment starts, and the end. */
  function ValueFrom(s: string, p: nat, len: nat): Option<(nat, nat, nat)>
    requires p <= |s| && 1 <= len <= LineRun(s, p) + 1
    decreases LineRun(s, p) + 1 - len
  {
    if len > LineRun(s, p) then None
    else match TrailAfter(s, p + len)
      case Some((c, u)) => Some((p + len, c, u))
      case None => ValueFrom(s, p, len + 1)
  }

  /** Greedy `(\s*)` after the `=`, of length k, k-1, ..., 0, then the rest.
      Returns where group 3 starts and ends, where the comment starts, and
      the end of the match. */
  function LeadFrom(s: string, q: nat, k: nat): Option<(nat, nat, nat, nat)>
    requires q + k <= |s|
    decreases k
  {
    match ValueFrom(s, q + k, 1)
    case Some((e, c, u)) => Some((q + k, e, c, u))
    case None => if k == 0 then None else LeadFrom(s, q, k - 1)
  }

  /** The option-line pattern under `re.match`. Group 1 cannot hold `=`, so it
      ends at the first `=`; the match fails outright when a `;` comes first. */
  function MatchNameValue(line: string): (r: Option<Groups>)
    ensures r.Some? ==>
      && NameOk(r.value.name)
      && AllSpace(r.value.lead)
      && |r.value.value| >= 1 && '\n' !in r.value.value
      && AllSpace(r.value.trail)
      && CommentOk(r.value.comment)
    ensures r.Some? ==>
      var t := Format(r.value);
      |t| <= |line| && line[..|t|] == t && EndAnchor(line, |t|)
  {
    var first := IndexOf(line, '=');
    if first.None? || first.value == 0 || ';' in line[..first.value] then None
    else
      var eq := first.value;
      var rest := LeadFrom(line, eq + 1, SpaceRun(line, eq + 1));
      if rest.None? then None
      else
        var (v, e, c, u) := rest.value;
        LeadSound(line, eq + 1, rest.value);
        SlicesJoin(line, eq, v, e, c, u);
        Some(Groups(line[..eq], line[eq + 1..v], line[v..e], line[e..c], line[c..u]))
  }

  // ---------------------------------------------------------------------------
  // The searches return the first success in priority order
  // ---------------------------------------------------------------------------

  /** Greedy trailing whitespace: the longest run after which the tail matches. */
  lemma {:induction false} TrailFromFirst(s: string, r: nat, k: nat)
    requires r + k <= |s|
    ensures var res := TrailFrom(s, r, k);
      && (res.Some? ==> r <= res.value.0 <= r + k && TailAt(s, res.value.0) == Some(res.value.1))
      && (res.Some? ==> forall j :: res.value.0 < j <= r + k ==> TailAt(s, j).None?)
      && (res.None? ==> forall j :: r <= j <= r + k ==> TailAt(s, j).None?)
    decreases k
  {
    if TailAt(s, r + k).None? && k > 0 {
      TrailFromFirst(s, r, k - 1);
    }
  }

  /** Lazy value: the shortest value after which the rest of the line matches. */
  lemma {:induction false} ValueFromFirst(s: string, p: nat, len: nat)
    requires p <= |s| && 1 <= len <= LineRun(s, p) + 1
    ensures var res := ValueFrom(s, p, len);
      && (res.Some? ==> p + len <= res.value.0 <= p + LineRun(s, p))
      && (res.Some? ==> TrailAfter(s, res.value.0) == Some((res.value.1, res.value.2)))
      && (res.Some? ==> forall x :: p + len <= x < res.value.0 ==> TrailAfter(s, x).None?)
      && (res.None? ==> forall x :: p + len <= x <= p + LineRun(s, p) ==> TrailAfter(s, x).None?)
    decreases LineRun(s, p) + 1 - len
  {
    if len <= LineRun(s, p) {
      var here := TrailAfter(s, p + len);
      if here.Some? {
        assert ValueFrom(s, p, len) == Some((p + len, here.value.0, here.value.1));
      } else {
        ValueFromFirst(s, p, len + 1);
        assert ValueFrom(s, p, len) == ValueFrom(s, p, len + 1);
      }
    }
  }

  /** Greedy leading whitespace: the longest run after which a value matches. */
  lemma {:induction false} LeadFromFirst(s: string, q: nat, k: nat)
    requires q + k <= |s|
    ensures var res := LeadFrom(s, q, k);
      && (res.Some? ==> q <= res.value.0 <= q + k)
      && (res.Some? ==> ValueFrom(s, res.value.0, 1) == Some((res.value.1, res.value.2, res.value.3)))
      && (res.Some? ==> forall x :: res.value.0 < x <= q + k ==> ValueFrom(s, x, 1).None?)
      && (res.None? ==> forall x :: q <= x <= q + k ==> ValueFrom(s, x, 1).None?)
    decreases k
  {
    var here := ValueFrom(s, q + k, 1);
    if here.Some? {
      assert LeadFrom(s, q, k) == Some((q + k, here.value.0, here.value.1, here.value.2));
    } else if k > 0 {
      LeadFromFirst(s, q, k - 1);
      assert LeadFrom(s, q, k) == LeadFrom(s, q, k - 1);
    }
  }

  // ---------------------------------------------------------------------------
  // Soundness: what a successful search says about the text it covers
  // ---------------------------------------------------------------------------

  lemma TrailSound(s: string, e: nat, res: (nat, nat))
    requires e <= |s| && TrailAfter(s, e) == Some(res)
    ensures e <= res.0 <= res.1 <= |s|
    ensures AllSpace(s[e..res.0])
    ensures CommentOk(s[res.0..res.1]) && EndAnchor(s, res.1)
  {
    SpaceRunFacts(s, e);
    TrailFromFirst(s, e, SpaceRun(s, e));
    TailSound(s, res.0);
  }

  lemma ValueSound(s: string, v: nat, res: (nat, nat, nat))
    requires v <= |s| && ValueFrom(s, v, 1) == Some(res)
    ensures v < res.0 <= res.1 <= res.2 <= |s|
    ensures '\n' !in s[v..res.0]
    ensures AllSpace(s[res.0..res.1])
    ensures CommentOk(s[res.1..res.2]) && EndAnchor(s, res.2)
  {
    LineRunFacts(s, v);
    ValueFromFirst(s, v, 1);
    TrailSound(s, res.0, (res.1, res.2));
  }

  lemma LeadSound(s: string, q: nat, res: (nat, nat, nat, nat))
    requires q <= |s| && LeadFrom(s, q, SpaceRun(s, q)) == Some(res)
    ensures q <= res.0 < res.1 <= res.2 <= res.3 <= |s|
    ensures AllSpace(s[q..res.0])
    ensures '\n' !in s[res.0..res.1]
    ensures AllSpace(s[res.1..res.2])
    ensures CommentOk(s[res.2..res.3]) && EndAnchor(s, res.3)
  {
    SpaceRunFacts(s, q);
    LeadFromFirst(s, q, SpaceRun(s, q));
    ValueSound(s, res.0, (res.1, res.2, res.3));
  }

  /** Cutting a matched line at the group boundaries and putting it back
      together gives the matched prefix. */
  lemma SlicesJoin(s: string, eq: nat, v: nat, e: nat, c: nat, u: nat)
    requires eq < v <= e <= c <= u <= |s| && s[eq] == '='
    ensures s[..u] == s[..eq] + "=" + s[eq + 1..v] + s[v..e] + s[e..c] + s[c..u]
  {
    assert s[..eq + 1] == s[..eq] + "=";
    assert s[..v] == s[..eq + 1] + s[eq + 1..v];
    assert s[..e] == s[..v] + s[v..e];
    assert s[..c] == s[..e] + s[e..c];
    assert s[..u] == s[..c] + s[c..u];
  }

  // ---------------------------------------------------------------------------
  // Completeness: formatted groups read back
  // ---------------------------------------------------------------------------

  lemma SpaceRunExact(s: string, i: nat, n: nat)
    requires i + n <= |s|
    requires forall j :: i <= j < i + n ==> IsSpace(s[j])
    requires i + n == |s| || !IsSpace(s[i + n])
    ensures SpaceRun(s, i) == n
  {
    SpaceRunFacts(s, i);
  }

  lemma LineRunAtLeast(s: string, i: nat, n: nat)
    requires i + n <= |s|
    requires forall j :: i <= j < i + n ==> s[j] != '\n'
    ensures LineRun(s, i) >= n
  {
    LineRunFacts(s, i);
  }

  lemma LineRunExact(s: string, i: nat, n: nat)
    requires i + n <= |s|
    requires forall j :: i <= j < i + n ==> s[j] != '\n'
    requires i + n == |s| || s[i + n] == '\n'
    ensures LineRun(s, i) == n
  {
    LineRunFacts(s, i);
  }

  /** The tail cannot start on an ordinary character. */
  lemma TailAtPlain(s: string, t: nat)
    requires t < |s| && s[t] != ';' && s[t] != '\n'
    ensures TailAt(s, t).None?
  {
  }

  /** The tail matches a well-formed comment that runs to the end. */
  lemma TailAtComment(s: string, t: nat)
    requires t <= |s| && CommentOk(s[t..])
    ensures TailAt(s, t) == Some(|s|)
  {
    if t < |s| {
      assert s[t] == s[t..][0];
      forall j | t + 1 <= j < |s|
        ensures s[j] != '\n'
      {
        assert s[j] == s[t..][j - t];
      }
      LineRunAtLeast(s, t + 1, |s| - t - 1);
    }
  }

  /** Where each group of `Format(g)` sits. */
  lemma FormatLayout(g: Groups) returns (eq: nat, p: nat, e: nat, c: nat)
    ensures eq == |g.name| && p == eq + 1 + |g.lead| && e == p + |g.value| && c == e + |g.trail|
    ensures var s := Format(g);
      && |s| == c + |g.comment|
      && s[..eq] == g.name
      && s[eq] == '='
      && s[eq + 1..p] == g.lead
      && s[p..e] == g.value
      && s[e..c] == g.trail
      && s[c..] == g.comment
  {
    var s1 := g.name + "=";
    var s2 := s1 + g.lead;
    var s3 := s2 + g.value;
    var s4 := s3 + g.trail;
    var s := s4 + g.comment;
    assert s == Format(g);
    eq := |g.name|;
    p := eq + 1 + |g.lead|;
    e := p + |g.value|;
    c := e + |g.trail|;
    assert s[..c] == s4 && s[c..] == g.comment;
    assert s4[..e] == s3 && s4[e..] == g.trail;
    assert s3[..p] == s2 && s3[p..] == g.value;
    assert s2[..eq + 1] == s1 && s2[eq + 1..] == g.lead;
    assert s1[..eq] == g.name && s1[eq] == '=';
    assert s[..e] == s3;
    assert s[..p] == s2;
    assert s[..eq + 1] == s1;
    assert s[eq + 1..p] == s2[eq + 1..];
    assert s[p..e] == s3[p..];
    assert s[e..c] == s4[e..];
  }

  /** The lazy value group stops at the first place after which only
      whitespace and a well-formed comment remain. */
  lemma ValueSearch(s: string, p: nat, e: nat, c: nat)
    requires p < e <= c <= |s|
    requires forall j :: p <= j < e ==> s[j] != ';' && s[j] != '\n'
    requires !IsSpace(s[e - 1])
    requires forall j :: e <= j < c ==> IsSpace(s[j])
    requires c == |s| || !IsSpace(s[c])
    requires CommentOk(s[c..])
    ensures ValueFrom(s, p, 1) == Some((e, c, |s|))
  {
    forall x | p < x < e
      ensures TrailAfter(s, x).None?
    {
      var k := SpaceRun(s, x);
      SpaceRunFacts(s, x);
      assert x + k < e;
      forall j | x <= j <= x + k
        ensures TailAt(s, j).None?
      {
        TailAtPlain(s, j);
      }
      TrailFromFirst(s, x, k);
    }
    SpaceRunExact(s, e, c - e);
    TailAtComment(s, c);
    assert TrailAfter(s, e) == Some((c, |s|));
    LineRunAtLeast(s, p, e - p);
    ValueFromFirst(s, p, 1);
  }

  /** Greedy leading whitespace is kept whole when the value can follow it. */
  lemma LeadSearch(s: string, q: nat, p: nat, rest: (nat, nat, nat))
    requires q <= p < |s|
    requires forall j :: q <= j < p ==> IsSpace(s[j])
    requires !IsSpace(s[p])
    requires ValueFrom(s, p, 1) == Some(rest)
    ensures LeadFrom(s, q, SpaceRun(s, q)) == Some((p, rest.0, rest.1, rest.2))
  {
    SpaceRunExact(s, q, p - q);
    assert q + (p - q) == p;
  }

  /** The first `=` of `Format(g)` is the one after the name. */
  lemma FormatEquals(g: Groups)
    requires WellFormedGroups(g)
    ensures IndexOf(Format(g), '=') == Some(|g.name|)
    ensures ';' !in Format(g)[..|g.name|]
  {
    var s := Format(g);
    var eq, _, _, _ := FormatLayout(g);
    assert s[..eq + 1][eq] == '=';
  }

  /** The characters of the lead, value and trail groups of `Format(g)`. */
  lemma FormatChars(g: Groups, eq: nat, p: nat, e: nat, c: nat)
    requires WellFormedGroups(g)
    requires eq == |g.name| && p == eq + 1 + |g.lead| && e == p + |g.value| && c == e + |g.trail|
    ensures var s := Format(g);
      && (forall j :: eq + 1 <= j < p ==> IsSpace(s[j]))
      && !IsSpace(s[p])
      && (forall j :: p <= j < e ==> s[j] != ';' && s[j] != '\n')
      && !IsSpace(s[e - 1])
      && (forall j :: e <= j < c ==> IsSpace(s[j]))
      && (c == |s| || !IsSpace(s[c]))
  {
    var s := Format(g);
    var _, _, _, _ := FormatLayout(g);
    forall j | p <= j < e
      ensures s[j] != ';' && s[j] != '\n'
    {
      assert s[j] == s[p..e][j - p];
    }
    assert s[e - 1] == s[p..e][e - 1 - p];
    forall j | e <= j < c
      ensures IsSpace(s[j])
    {
      assert s[j] == s[e..c][j - e];
    }
    assert c < |s| ==> s[c] == s[c..][0];
    forall j | eq + 1 <= j < p
      ensures IsSpace(s[j])
    {
      assert s[j] == s[eq + 1..p][j - eq - 1];
    }
    assert s[p] == s[p..e][0];
  }

  /** The match, once the position of every group boundary is known. */
  lemma MatchAt(s: string, eq: nat, p: nat, e: nat, c: nat)
    requires eq < |s| && IndexOf(s, '=') == Some(eq) && eq > 0 && ';' !in s[..eq]
    requires eq + 1 <= p <= e <= c <= |s|
    requires LeadFrom(s, eq + 1, SpaceRun(s, eq + 1)) == Some((p, e, c, |s|))
    ensures MatchNameValue(s) == Some(Groups(s[..eq], s[eq + 1..p], s[p..e], s[e..c], s[c..]))
  {
    assert s[c..|s|] == s[c..];
  }

  /** Formatting well-formed groups and matching the result gives the same
      groups back. */
  lemma FormatParse(g: Groups)
    requires WellFormedGroups(g)
    ensures MatchNameValue(Format(g)) == Some(g)
  {
    var s := Format(g);
    var eq, p, e, c := FormatLayout(g);
    FormatEquals(g);
    FormatChars(g, eq, p, e, c);
    ValueSearch(s, p, e, c);
    LeadSearch(s, eq + 1, p, (e, c, |s|));
    MatchAt(s, eq, p, e, c);
    assert s[..eq] == g.name && s[eq + 1..p] == g.lead && s[p..e] == g.value && s[e..c] == g.trail && s[c..] == g.comment;
    assert Groups(s[..eq], s[eq + 1..p], s[p..e], s[e..c], s[c..]) == g;
  }

  /** Which stripped, newline-free lines are option lines: those with a `=`
      that is not the first or last character and has no `;` before it. */
  lemma MatchStrippedLine(line: string)
    requires '\n' !in line && Strip(line) == line
    ensures MatchNameValue(line).Some? <==>
      (exists eq :: 1 <= eq < |line| - 1 && line[eq] == '=' && '=' !in line[..eq] && ';' !in line[..eq])
  {
    StripFixpoint(line);
    match IndexOf(line, '=')
    case None =>
    case Some(eq) =>
      if 1 <= eq < |line| - 1 && ';' !in line[..eq] {
        var q := eq + 1;
        var x := q + SpaceRun(line, q);
        SpaceRunFacts(line, q);
        assert x < |line|;
        LineRunAtLeast(line, x, |line| - x);
        assert TrailAfter(line, |line|) == Some((|line|, |line|));
        ValueFromFirst(line, x, 1);
        LeadFromFirst(line, q, SpaceRun(line, q));
      } else {
        forall eq' | 1 <= eq' < |line| - 1 && line[eq'] == '=' && '=' !in line[..eq']
          ensures ';' in line[..eq']
        {
        }
      }
  }
}
