/** The lexical shapes of the recursion syntax (`src/index.js` lines 3-6 and
    the needles passed to the unescaped-search helpers), as recognisers that
    look at a pattern from a given position. Each recogniser follows the
    regex it models: a name or depth is the maximal run of allowed
    characters, and the closing delimiter must follow it directly. */
module Lexical {
  import opened Wrappers

  /** A lexeme of a pattern. */
  datatype Token =
    | CaptureOpen(name: string)                 // `(?<name>`
    | GlobalRecursion(depth: string)            // `(?R=depth)`
    | SubRecursion(name: string, depth: string) // `\g<name&R=depth>`
    | Backref(name: string)                     // `\k<name>`
    | NumberedBackref(digit: char)              // `\1` .. `\9`
    | DefineOpen                                // `(?(DEFINE)`
    | Plain(text: string)                       // one character, or a backslash and the one it escapes

  /** The pattern text a token stands for. */
  function Text(t: Token): string {
    match t
    case CaptureOpen(n) => "(?<" + n + ">"
    case GlobalRecursion(d) => "(?R=" + d + ")"
    case SubRecursion(n, d) => "\\g<" + n + "&R=" + d + ">"
    case Backref(n) => "\\k<" + n + ">"
    case NumberedBackref(c) => ['\\', c]
    case DefineOpen => "(?(DEFINE)"
    case Plain(x) => x
  }

  /** The token is one its regex can produce: names and depths are
      non-empty and free of their closing delimiter; a capture name does not
      start with `=` or `!` (those open lookbehinds). */
  predicate WellFormed(t: Token) {
    match t
    case CaptureOpen(n) => |n| > 0 && n[0] != '=' && n[0] != '!' && '>' !in n
    case GlobalRecursion(d) => |d| > 0 && ')' !in d
    case SubRecursion(n, d) => |n| > 0 && '>' !in n && '&' !in n && |d| > 0 && '>' !in d
    case Backref(n) => |n| > 0 && '>' !in n
    case NumberedBackref(c) => '1' <= c <= '9'
    case DefineOpen => true
    case Plain(x) => |x| == 1 || (|x| == 2 && x[0] == '\\')
  }

  /** Token `t` occurs in `s` at position `i`. */
  predicate Matches(s: string, i: nat, t: Token) {
    i + |Text(t)| <= |s| && s[i..i + |Text(t)|] == Text(t)
  }

  /** The first position at or after `j` holding one of `stops`, or `|s|`. */
  function IndexOfAny(s: string, j: nat, stops: string): (k: nat)
    requires j <= |s|
    ensures j <= k <= |s|
    ensures k < |s| ==> s[k] in stops
    ensures forall m :: j <= m < k ==> s[m] !in stops
    decreases |s| - j
  {
    if j == |s| || s[j] in stops then j else IndexOfAny(s, j + 1, stops)
  }

  /** Token `t` is at the start of `u`. */
  predicate Starts(u: string, t: Token) {
    |Text(t)| <= |u| && u[..|Text(t)|] == Text(t)
  }

  lemma StartsMatches(s: string, i: nat, t: Token)
    requires i <= |s| && Starts(s[i..], t)
    ensures Matches(s, i, t)
  {
    assert s[i..i + |Text(t)|] == s[i..][..|Text(t)|];
  }

  // Each recogniser looks at the start of the remaining text `u`. Their
  // contracts only bound the length consumed; that the token is well formed
  // and really starts `u` is stated by the soundness lemmas below.

  /** `\(\?<(?![=!])(?<captureName>[^>]+)>` */
  function CaptureOpenAt(u: string): (r: Option<Token>)
    ensures r.Some? ==> r.value.CaptureOpen? && 0 < |Text(r.value)| <= |u|
  {
    if 3 < |u| && u[0] == '(' && u[1] == '?' && u[2] == '<' && u[3] != '=' && u[3] != '!' then
      var e := IndexOfAny(u, 3, ">");
      if 3 < e < |u| then Some(CaptureOpen(u[3..e])) else None
    else
      None
  }

  /** `\(\?R=(?<rDepth>[^\)]+)\)` */
  function GlobalRecursionAt(u: string): (r: Option<Token>)
    ensures r.Some? ==> r.value.GlobalRecursion? && 0 < |Text(r.value)| <= |u|
  {
    if 4 <= |u| && u[0] == '(' && u[1] == '?' && u[2] == 'R' && u[3] == '=' then
      var e := IndexOfAny(u, 4, ")");
      if 4 < e < |u| then Some(GlobalRecursion(u[4..e])) else None
    else
      None
  }

  /** `\\g<(?<gRName>[^>&]+)&R=(?<gRDepth>[^>]+)>` */
  function SubRecursionAt(u: string): (r: Option<Token>)
    ensures r.Some? ==> r.value.SubRecursion? && 0 < |Text(r.value)| <= |u|
  {
    if 3 <= |u| && u[0] == '\\' && u[1] == 'g' && u[2] == '<' then
      var e1 := IndexOfAny(u, 3, ">&");
      if 3 < e1 && e1 + 3 <= |u| && u[e1] == '&' && u[e1 + 1] == 'R' && u[e1 + 2] == '=' then
        var e2 := IndexOfAny(u, e1 + 3, ">");
        if e1 + 3 < e2 < |u| then Some(SubRecursion(u[3..e1], u[e1 + 3..e2])) else None
      else
        None
    else
      None
  }

  /** `\\k<(?<backref>[^>]+)>` */
  function BackrefAt(u: string): (r: Option<Token>)
    ensures r.Some? ==> r.value.Backref? && 0 < |Text(r.value)| <= |u|
  {
    if 3 <= |u| && u[0] == '\\' && u[1] == 'k' && u[2] == '<' then
      var e := IndexOfAny(u, 3, ">");
      if 3 < e < |u| then Some(Backref(u[3..e])) else None
    else
      None
  }

  /** `\\[1-9]` */
  function NumberedBackrefAt(u: string): (r: Option<Token>)
    ensures r.Some? ==> r.value.NumberedBackref? && 0 < |Text(r.value)| <= |u|
  {
    if 1 < |u| && u[0] == '\\' && '1' <= u[1] <= '9' then Some(NumberedBackref(u[1])) else None
  }

  /** `(?(DEFINE)` at the start of `u`. */
  predicate DefineOpenStarts(u: string) {
    10 <= |u| && u[0] == '(' && u[1] == '?' && u[2] == '(' && u[3] == 'D' && u[4] == 'E'
    && u[5] == 'F' && u[6] == 'I' && u[7] == 'N' && u[8] == 'E' && u[9] == ')'
  }

  /** `\(\?\(DEFINE\)` */
  function DefineOpenAt(u: string): (r: Option<Token>)
    ensures r.Some? ==> r.value.DefineOpen? && 0 < |Text(r.value)| <= |u|
  {
    if DefineOpenStarts(u) then Some(DefineOpen) else None
  }

  /** `\\?.` with the `s` flag: a backslash takes the next character with it,
      unless it is the last character. */
  function PlainAt(u: string): (t: Token)
    requires |u| > 0
    ensures t.Plain? && 0 < |Text(t)| <= |u|
  {
    if u[0] == '\\' && 1 < |u| then Plain(u[..2]) else Plain(u[..1])
  }

  lemma CaptureOpenAtSound(u: string)
    ensures var r := CaptureOpenAt(u); r.Some? ==> WellFormed(r.value) && Starts(u, r.value)
  {
    if CaptureOpenAt(u).Some? {
      var e := IndexOfAny(u, 3, ">");
      assert u[..3] == "(?<";
      assert u[..e + 1] == u[..3] + u[3..e] + [u[e]];
    }
  }

  lemma GlobalRecursionAtSound(u: string)
    ensures var r := GlobalRecursionAt(u); r.Some? ==> WellFormed(r.value) && Starts(u, r.value)
  {
    if GlobalRecursionAt(u).Some? {
      var e := IndexOfAny(u, 4, ")");
      assert u[..4] == "(?R=";
      assert u[..e + 1] == u[..4] + u[4..e] + [u[e]];
    }
  }

  lemma SubRecursionAtSound(u: string)
    ensures var r := SubRecursionAt(u); r.Some? ==> WellFormed(r.value) && Starts(u, r.value)
  {
    if SubRecursionAt(u).Some? {
      var e1 := IndexOfAny(u, 3, ">&");
      var e2 := IndexOfAny(u, e1 + 3, ">");
      var n, d := u[3..e1], u[e1 + 3..e2];
      assert '>' !in n && '&' !in n by {
        forall m | 0 <= m < |n| ensures n[m] != '>' && n[m] != '&' {
          assert n[m] == u[3 + m];
        }
      }
      assert '>' !in d by {
        forall m | 0 <= m < |d| ensures d[m] != '>' {
          assert d[m] == u[e1 + 3 + m];
        }
      }
      assert u[..3] == "\\g<";
      assert u[e1..e1 + 3] == "&R=";
      assert u[..e1] == u[..3] + n;
      assert u[..e1 + 3] == u[..e1] + u[e1..e1 + 3];
      assert u[..e2] == u[..e1 + 3] + d;
      assert u[..e2 + 1] == u[..e2] + [u[e2]];
    }
  }

  lemma BackrefAtSound(u: string)
    ensures var r := BackrefAt(u); r.Some? ==> WellFormed(r.value) && Starts(u, r.value)
  {
    if BackrefAt(u).Some? {
      var e := IndexOfAny(u, 3, ">");
      assert u[..3] == "\\k<";
      assert u[..e + 1] == u[..3] + u[3..e] + [u[e]];
    }
  }

  lemma NumberedBackrefAtSound(u: string)
    ensures var r := NumberedBackrefAt(u); r.Some? ==> WellFormed(r.value) && Starts(u, r.value)
  {
    if NumberedBackrefAt(u).Some? {
      assert u[..2] == [u[0], u[1]];
    }
  }

  lemma DefineOpenAtSound(u: string)
    ensures var r := DefineOpenAt(u); r.Some? ==> WellFormed(r.value) && Starts(u, r.value)
  {
    if DefineOpenAt(u).Some? {
      assert u[..10] == "(?(DEFINE)";
    }
  }

  lemma PlainAtSound(u: string)
    requires |u| > 0
    ensures WellFormed(PlainAt(u)) && Starts(u, PlainAt(u))
  {
  }

  /** The recogniser for the kind of token `t`. */
  function RecogniserFor(t: Token, u: string): Option<Token> {
    match t
    case CaptureOpen(_) => CaptureOpenAt(u)
    case GlobalRecursion(_) => GlobalRecursionAt(u)
    case SubRecursion(_, _) => SubRecursionAt(u)
    case Backref(_) => BackrefAt(u)
    case NumberedBackref(_) => NumberedBackrefAt(u)
    case DefineOpen => DefineOpenAt(u)
    case Plain(_) => None
  }

  lemma IndexOfAnyIs(s: string, j: nat, stops: string, k: nat)
    requires j <= k < |s| && s[k] in stops
    requires forall m :: j <= m < k ==> s[m] !in stops
    ensures IndexOfAny(s, j, stops) == k
  {
  }

  lemma NoStopsIn(s: string, lo: nat, x: string, stops: string)
    requires lo + |x| <= |s| && s[lo..lo + |x|] == x
    requires forall c :: c in stops ==> c !in x
    ensures forall m :: lo <= m < lo + |x| ==> s[m] !in stops
  {
    forall m | lo <= m < lo + |x| ensures s[m] !in stops {
      assert s[m] == x[m - lo];
    }
  }

  lemma CaptureOpenRecognised(n: string, rest: string)
    requires WellFormed(CaptureOpen(n))
    ensures CaptureOpenAt(Text(CaptureOpen(n)) + rest) == Some(CaptureOpen(n))
  {
    var s := Text(CaptureOpen(n)) + rest;
    assert s[0] == '(' && s[1] == '?' && s[2] == '<' && s[3] == n[0];
    assert s[3..3 + |n|] == n;
    NoStopsIn(s, 3, n, ">");
    IndexOfAnyIs(s, 3, ">", 3 + |n|);
  }

  lemma GlobalRecursionRecognised(d: string, rest: string)
    requires WellFormed(GlobalRecursion(d))
    ensures GlobalRecursionAt(Text(GlobalRecursion(d)) + rest) == Some(GlobalRecursion(d))
  {
    var s := Text(GlobalRecursion(d)) + rest;
    assert s[0] == '(' && s[1] == '?' && s[2] == 'R' && s[3] == '=';
    assert s[4..4 + |d|] == d;
    NoStopsIn(s, 4, d, ")");
    IndexOfAnyIs(s, 4, ")", 4 + |d|);
  }

  lemma SubRecursionRecognised(n: string, d: string, rest: string)
    requires WellFormed(SubRecursion(n, d))
    ensures SubRecursionAt(Text(SubRecursion(n, d)) + rest) == Some(SubRecursion(n, d))
  {
    var s := Text(SubRecursion(n, d)) + rest;
    var e1 := 3 + |n|;
    assert s[0] == '\\' && s[1] == 'g' && s[2] == '<';
    assert s[3..e1] == n;
    assert s[e1] == '&' && s[e1 + 1] == 'R' && s[e1 + 2] == '=';
    assert s[e1 + 3..e1 + 3 + |d|] == d;
    NoStopsIn(s, 3, n, ">&");
    IndexOfAnyIs(s, 3, ">&", e1);
    NoStopsIn(s, e1 + 3, d, ">");
    IndexOfAnyIs(s, e1 + 3, ">", e1 + 3 + |d|);
  }

  lemma BackrefRecognised(n: string, rest: string)
    requires WellFormed(Backref(n))
    ensures BackrefAt(Text(Backref(n)) + rest) == Some(Backref(n))
  {
    var s := Text(Backref(n)) + rest;
    assert s[0] == '\\' && s[1] == 'k' && s[2] == '<';
    assert s[3..3 + |n|] == n;
    NoStopsIn(s, 3, n, ">");
    IndexOfAnyIs(s, 3, ">", 3 + |n|);
  }

  /** Round trip of the lexical shapes: a well-formed token written out is
      read back as the same token, whatever follows it. */
  lemma TextIsRecognised(t: Token, rest: string)
    requires WellFormed(t) && !t.Plain?
    ensures RecogniserFor(t, Text(t) + rest) == Some(t)
  {
    match t
    case CaptureOpen(n) => CaptureOpenRecognised(n, rest);
    case GlobalRecursion(d) => GlobalRecursionRecognised(d, rest);
    case SubRecursion(n, d) => SubRecursionRecognised(n, d, rest);
    case Backref(n) => BackrefRecognised(n, rest);
    case NumberedBackref(c) =>
    case DefineOpen =>
      var s := Text(t) + rest;
      assert s[0] == '(' && s[1] == '?' && s[2] == '(' && s[3] == 'D' && s[4] == 'E';
      assert s[5] == 'F' && s[6] == 'I' && s[7] == 'N' && s[8] == 'E' && s[9] == ')';
  }
}
