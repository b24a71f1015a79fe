/** A model of the `regex-utilities` helpers the expansion relies on, each
    used with the default context: `hasUnescaped`, `getGroupContents`,
    `forEachUnescaped` and `replaceUnescaped`. All of them walk the pattern
    the same way: at each position the needle is tried first; otherwise one
    token `\\?.` is skipped. A skipped `[` opens a (possibly nested)
    character class and a skipped `]` closes one if any is open. A needle
    match counts only outside every character class. (`replaceUnescaped`
    skips `[^` as one token; since neither `^` nor any needle here starts
    with `^`, that walks the same way.) */
module Unescaped {
  import opened Wrappers
  import opened Lexical

  /** The needles the expansion searches for. */
  datatype Needle =
    | RecursiveToken       // `(?R=N)` or `\g<name&R=N>`
    | GRToken              // `\g<name&R=N>`
    | NumberedBackrefToken // `\1` .. `\9`
    | DefineToken          // `(?(DEFINE)`
    | NamedCapturingDelim  // `(?<name>`
    | CaptureOrBackref     // `(?<name>` or `\k<name>`
    | ScannerToken         // `(?<name>`, `(?R=N)` or `\g<name&R=N>`
    | NoToken              // none: the walk of `getGroupContents` reads `\\?.` alone

  /** The kinds of token needle `n` matches. */
  predicate NeedleKind(n: Needle, t: Token) {
    match n
    case RecursiveToken => t.GlobalRecursion? || t.SubRecursion?
    case GRToken => t.SubRecursion?
    case NumberedBackrefToken => t.NumberedBackref?
    case DefineToken => t.DefineOpen?
    case NamedCapturingDelim => t.CaptureOpen?
    case CaptureOrBackref => t.CaptureOpen? || t.Backref?
    case ScannerToken => t.CaptureOpen? || t.GlobalRecursion? || t.SubRecursion?
    case NoToken => false
  }

  function Or(a: Option<Token>, b: Option<Token>): Option<Token> {
    if a.Some? then a else b
  }

  /** The needle's match at the start of the remaining text `u`, if any
      (alternatives are tried in the order the source writes them). */
  function NeedleAt(n: Needle, u: string): (r: Option<Token>)
    ensures r.Some? ==> 0 < |Text(r.value)| <= |u|
  {
    match n
    case RecursiveToken => Or(GlobalRecursionAt(u), SubRecursionAt(u))
    case GRToken => SubRecursionAt(u)
    case NumberedBackrefToken => NumberedBackrefAt(u)
    case DefineToken => DefineOpenAt(u)
    case NamedCapturingDelim => CaptureOpenAt(u)
    case CaptureOrBackref => Or(CaptureOpenAt(u), BackrefAt(u))
    case ScannerToken => Or(CaptureOpenAt(u), Or(GlobalRecursionAt(u), SubRecursionAt(u)))
    case NoToken => None
  }

  /** A needle match is a well-formed token of the needle's kinds that
      really starts the text. */
  lemma NeedleAtSound(n: Needle, u: string)
    ensures var r := NeedleAt(n, u);
            r.Some? ==> Starts(u, r.value) && WellFormed(r.value) && NeedleKind(n, r.value)
  {
    CaptureOpenAtSound(u);
    GlobalRecursionAtSound(u);
    SubRecursionAtSound(u);
    BackrefAtSound(u);
    NumberedBackrefAtSound(u);
    DefineOpenAtSound(u);
  }

  /** The token consumed at the start of `u`: the needle's match, else
      `\\?.`. */
  function Lex(n: Needle, u: string): (t: Token)
    requires |u| > 0
    ensures 0 < |Text(t)| <= |u|
  {
    var r := NeedleAt(n, u);
    if r.Some? then r.value else PlainAt(u)
  }

  lemma LexSound(n: Needle, u: string)
    requires |u| > 0
    ensures var t := Lex(n, u); Starts(u, t) && WellFormed(t) && (t.Plain? || NeedleKind(n, t))
  {
    NeedleAtSound(n, u);
    PlainAtSound(u);
  }

  /** Token `t` is the single plain character `c`. */
  predicate IsChar(t: Token, c: char) {
    t.Plain? && |t.text| == 1 && t.text[0] == c
  }

  /** Character-class nesting after consuming token `t`. */
  function ClassStep(t: Token, depth: nat): nat {
    if IsChar(t, '[') then depth + 1
    else if IsChar(t, ']') && depth > 0 then depth - 1
    else depth
  }

  /** A token together with whether it lies outside every character class. */
  datatype Lexeme = Lexeme(tok: Token, outside: bool)

  /** A needle match in the default context. */
  predicate IsHit(l: Lexeme) {
    l.outside && !l.tok.Plain?
  }

  /** Some lexeme is a needle match in the default context. */
  predicate AnyHit(ls: seq<Lexeme>) {
    exists k :: 0 <= k < |ls| && IsHit(ls[k])
  }

  function Flatten(ls: seq<Lexeme>): string {
    if |ls| == 0 then [] else Text(ls[0].tok) + Flatten(ls[1..])
  }

  /** The lexemes of `u`, met by a scan that starts at class depth `depth`. */
  function LexOn(n: Needle, u: string, depth: nat): (ls: seq<Lexeme>)
    decreases |u|
  {
    if |u| == 0 then
      []
    else
      var t := Lex(n, u);
      [Lexeme(t, depth == 0)] + LexOn(n, u[|Text(t)|..], ClassStep(t, depth))
  }

  /** Lexing loses nothing: writing the lexemes out gives back the text. */
  lemma {:induction false} LexOnFlatten(n: Needle, u: string, depth: nat)
    ensures Flatten(LexOn(n, u, depth)) == u
    decreases |u|
  {
    if |u| > 0 {
      var t := Lex(n, u);
      var rest := LexOn(n, u[|Text(t)|..], ClassStep(t, depth));
      LexSound(n, u);
      LexOnFlatten(n, u[|Text(t)|..], ClassStep(t, depth));
      assert LexOn(n, u, depth) == [Lexeme(t, depth == 0)] + rest;
      assert u == Text(t) + u[|Text(t)|..];
    }
  }

  /** Every lexeme is the needle's kind of token or plain text. */
  lemma {:induction false} LexOnKinds(n: Needle, u: string, depth: nat)
    ensures forall l :: l in LexOn(n, u, depth) ==> l.tok.Plain? || NeedleKind(n, l.tok)
    decreases |u|
  {
    if |u| > 0 {
      var t := Lex(n, u);
      LexSound(n, u);
      LexOnKinds(n, u[|Text(t)|..], ClassStep(t, depth));
    }
  }

  function Lexemes(n: Needle, s: string): seq<Lexeme> {
    LexOn(n, s, 0)
  }

  /** `hasUnescaped(s, needle, Context.DEFAULT)`: the scan meets a needle
      match outside every character class. */
  predicate HasUnescaped(s: string, n: Needle) {
    AnyHit(Lexemes(n, s))
  }

  lemma AnyHitCons(l: Lexeme, rest: seq<Lexeme>)
    ensures AnyHit([l] + rest) <==> IsHit(l) || AnyHit(rest)
  {
    var ls := [l] + rest;
    assert ls[0] == l;
    if AnyHit(rest) {
      var k :| 0 <= k < |rest| && IsHit(rest[k]);
      assert ls[k + 1] == rest[k];
    }
    if AnyHit(ls) {
      var k :| 0 <= k < |ls| && IsHit(ls[k]);
      if k > 0 {
        assert rest[k - 1] == ls[k];
      }
    }
  }

  lemma {:induction false} FlattenAppend(a: seq<Lexeme>, b: seq<Lexeme>)
    ensures Flatten(a + b) == Flatten(a) + Flatten(b)
  {
    if |a| == 0 {
      assert a + b == b;
    } else {
      assert (a + b)[0] == a[0];
      assert (a + b)[1..] == a[1..] + b;
      FlattenAppend(a[1..], b);
      calc {
        Flatten(a + b);
        Text(a[0].tok) + Flatten(a[1..] + b);
        Text(a[0].tok) + (Flatten(a[1..]) + Flatten(b));
        (Text(a[0].tok) + Flatten(a[1..])) + Flatten(b);
      }
    }
  }

  /** Text the scans step through one character at a time, each a token
      of its own that opens nothing: no `(`, no backslash, no class
      syntax. */
  predicate PlainRun(x: string) {
    forall k :: 0 <= k < |x| ==> x[k] !in "([]\\"
  }

  /** A character that opens nothing is a token of its own. */
  lemma LexPlainChar(n: Needle, u: string)
    requires |u| > 0 && u[0] !in "([]\\"
    ensures Lex(n, u) == Plain([u[0]])
  {
    NoNeedleAtOther(n, u);
    assert u[..1] == [u[0]];
  }

  /** A plain run holds no needle match. */
  lemma {:induction false} PlainRunNoHit(n: Needle, x: string, depth: nat)
    requires PlainRun(x)
    ensures !AnyHit(LexOn(n, x, depth))
    decreases |x|
  {
    if |x| > 0 {
      NoNeedleAtOther(n, x);
      LexOnInertStep(n, x, depth);
      PlainRunNoHit(n, x[1..], depth);
      AnyHitCons(Lexeme(Plain([x[0]]), depth == 0), LexOn(n, x[1..], depth));
    }
  }

  lemma PlainHasNone(n: Needle, x: string)
    requires PlainRun(x)
    ensures !HasUnescaped(x, n)
  {
    PlainRunNoHit(n, x, 0);
  }

  /** A plain run in front of a text changes nothing about whether the text
      holds a needle match. */
  lemma {:induction false} PlainRunPrefix(n: Needle, x: string, y: string, depth: nat)
    requires PlainRun(x)
    ensures AnyHit(LexOn(n, x + y, depth)) <==> AnyHit(LexOn(n, y, depth))
    decreases |x|
  {
    if |x| == 0 {
      assert x + y == y;
    } else {
      var u := x + y;
      assert u[0] == x[0] && u[1..] == x[1..] + y;
      NoNeedleAtOther(n, u);
      LexOnInertStep(n, u, depth);
      PlainRunPrefix(n, x[1..], y, depth);
      AnyHitCons(Lexeme(Plain([u[0]]), depth == 0), LexOn(n, u[1..], depth));
    }
  }

  /** A needle match outside every class is found. */
  lemma NeedleHead(n: Needle, u: string)
    requires |u| > 0 && NeedleAt(n, u).Some?
    ensures AnyHit(LexOn(n, u, 0))
  {
    var t := Lex(n, u);
    NeedleAtSound(n, u);
    AnyHitCons(Lexeme(t, true), LexOn(n, u[|Text(t)|..], ClassStep(t, 0)));
  }

  /** `getGroupContents`: from inside a group (`groups` open), the position
      of the `)` that closes the outermost one, or the end of the pattern.
      It tokenises with `\\?.` alone. */
  function GroupEnd(s: string, i: nat, classes: nat, groups: nat): (e: nat)
    requires i <= |s| && groups >= 1
    ensures i <= e <= |s|
    ensures e < |s| ==> s[e] == ')'
    decreases |s| - i
  {
    if i == |s| then
      |s|
    else if s[i] == '\\' && i + 1 < |s| then
      GroupEnd(s, i + 2, classes, groups)
    else if s[i] == '[' then
      GroupEnd(s, i + 1, classes + 1, groups)
    else if classes == 0 then
      if s[i] == '(' then GroupEnd(s, i + 1, 0, groups + 1)
      else if s[i] == ')' then (if groups == 1 then i else GroupEnd(s, i + 1, 0, groups - 1))
      else GroupEnd(s, i + 1, 0, groups)
    else if s[i] == ']' then GroupEnd(s, i + 1, classes - 1, groups)
    else GroupEnd(s, i + 1, classes, groups)
  }

  /** The contents of the group whose opening delimiter ends at `start`. */
  function GroupContents(s: string, start: nat): (c: string)
    requires start <= |s|
    ensures start + |c| <= |s| && c == s[start..start + |c|]
    ensures start + |c| < |s| ==> s[start + |c|] == ')'
  {
    s[start..GroupEnd(s, start, 0, 1)]
  }

  /** Text free of group and class syntax and of escapes. */
  predicate Inert(c: string) {
    forall k :: 0 <= k < |c| ==> c[k] !in "()[]\\"
  }

  /** `getGroupContents` walks through inert text without changing its
      count of open groups. */
  lemma {:induction false} GroupEndRun(s: string, i: nat, j: nat, groups: nat)
    requires i <= j <= |s| && groups >= 1 && Inert(s[i..j])
    ensures GroupEnd(s, i, 0, groups) == GroupEnd(s, j, 0, groups)
    decreases j - i
  {
    if i < j {
      assert s[i] == s[i..j][0];
      assert s[i + 1..j] == s[i..j][1..];
      GroupEndRun(s, i + 1, j, groups);
    }
  }

  // `getGroupContents` as a count over lexemes: its walk reads the tokens
  // `\\?.` (the lexemes of `NoToken`), and the group ends at the first `)`
  // outside classes that would leave no group open.

  /** Lexeme `k` of `ls` starts this many characters into the text they
      spell. */
  function Offset(ls: seq<Lexeme>, k: nat): nat
    requires k <= |ls|
  {
    |Flatten(ls[..k])|
  }

  lemma OffsetCons(l: Lexeme, ls: seq<Lexeme>, k: nat)
    requires k <= |ls|
    ensures Offset([l] + ls, k + 1) == |Text(l.tok)| + Offset(ls, k)
  {
    assert ([l] + ls)[..k + 1] == [l] + ls[..k];
  }

  /** How a lexeme changes the number of open groups: an unescaped `(`
      outside classes opens one and an unescaped `)` closes one. */
  function GroupStep(l: Lexeme): int {
    if !l.outside then 0
    else if IsChar(l.tok, '(') then 1
    else if IsChar(l.tok, ')') then -1
    else 0
  }

  /** The unescaped `(` minus the unescaped `)` outside classes. */
  function Net(ls: seq<Lexeme>): int {
    if |ls| == 0 then 0 else GroupStep(ls[0]) + Net(ls[1..])
  }

  predicate IsCloser(l: Lexeme) {
    l.outside && IsChar(l.tok, ')')
  }

  /** With `groups` groups open before `ls`, every prefix of the first `k`
      lexemes leaves at least one open, and lexeme `k`, when there is one,
      is a `)` that closes the last. */
  predicate ClosesAt(ls: seq<Lexeme>, groups: nat, k: nat) {
    && k <= |ls|
    && (forall j :: 0 <= j <= k ==> groups + Net(ls[..j]) >= 1)
    && (k < |ls| ==> IsCloser(ls[k]) && groups + Net(ls[..k]) == 1)
  }

  /** With nothing read yet, the count stands at `groups`: the walk stops at
      once when the text is empty or starts with the closer of the last group. */
  lemma ClosesAtStart(ls: seq<Lexeme>, groups: nat)
    requires groups >= 1
    requires |ls| > 0 ==> IsCloser(ls[0]) && groups == 1
    ensures ClosesAt(ls, groups, 0) && Offset(ls, 0) == 0
  {
    assert ls[..0] == [];
  }

  lemma ClosesAtCons(l: Lexeme, ls: seq<Lexeme>, groups: nat, k: nat)
    requires groups >= 1 && groups + GroupStep(l) >= 1
    requires ClosesAt(ls, groups + GroupStep(l), k)
    ensures ClosesAt([l] + ls, groups, k + 1)
  {
    var x := [l] + ls;
    forall j | 0 <= j <= k + 1 ensures groups + Net(x[..j]) >= 1 {
      if j > 0 {
        assert x[..j] == [l] + ls[..j - 1];
      }
    }
    if k + 1 < |x| {
      assert x[..k + 1] == [l] + ls[..k];
    }
  }

  /** The count of open groups walked lexeme by lexeme: `k` lexemes are
      read before the closer of the last group, or before the end. */
  predicate Closing(ls: seq<Lexeme>, groups: nat, k: nat)
    decreases k
  {
    if |ls| == 0 || (IsCloser(ls[0]) && groups == 1) then k == 0
    else k > 0 && groups + GroupStep(ls[0]) >= 1 && Closing(ls[1..], groups + GroupStep(ls[0]), k - 1)
  }

  /** The walk's stop is where the balance of `ClosesAt` says it is. */
  lemma {:induction false} ClosingCloses(ls: seq<Lexeme>, groups: nat, k: nat)
    requires groups >= 1 && Closing(ls, groups, k)
    ensures ClosesAt(ls, groups, k)
    decreases k
  {
    if |ls| == 0 || (IsCloser(ls[0]) && groups == 1) {
      ClosesAtStart(ls, groups);
    } else {
      ClosingCloses(ls[1..], groups + GroupStep(ls[0]), k - 1);
      assert ls == [ls[0]] + ls[1..];
      ClosesAtCons(ls[0], ls[1..], groups, k - 1);
    }
  }

  /** The walk of `getGroupContents`: `\\?.` lexemes with the class depth
      tracked, which is what lexing with `NoToken` gives. */
  function Walk(u: string, depth: nat): seq<Lexeme>
    decreases |u|
  {
    if |u| == 0 then []
    else
      var t := PlainAt(u);
      [Lexeme(t, depth == 0)] + Walk(u[|Text(t)|..], ClassStep(t, depth))
  }

  lemma {:induction false} WalkIsLexOn(u: string, depth: nat)
    ensures LexOn(NoToken, u, depth) == Walk(u, depth)
    decreases |u|
  {
    if |u| > 0 {
      var t := PlainAt(u);
      assert Lex(NoToken, u) == t;
      WalkIsLexOn(u[|Text(t)|..], ClassStep(t, depth));
    }
  }

  /** The walk of `getGroupContents` reads one lexeme:
      either that lexeme closes the last open group, or the walk goes on
      after it with the count updated. */
  lemma GroupEndStep(s: string, i: nat, classes: nat, groups: nat)
    requires i < |s| && groups >= 1
    ensures var t := PlainAt(s[i..]); var l := Lexeme(t, classes == 0);
            if IsCloser(l) && groups == 1 then GroupEnd(s, i, classes, groups) == i
            else groups + GroupStep(l) >= 1
                 && GroupEnd(s, i, classes, groups) == GroupEnd(s, i + |Text(t)|, ClassStep(t, classes), groups + GroupStep(l))
  {
    var u := s[i..];
    assert u[0] == s[i];
    if s[i] == '\\' && i + 1 < |s| {
      assert u[..2] == [s[i], s[i + 1]];
      assert PlainAt(u) == Plain([s[i], s[i + 1]]);
    } else {
      assert u[..1] == [s[i]];
      var t := Plain([s[i]]);
      assert PlainAt(u) == t && IsChar(t, s[i]);
      if s[i] == '[' {
        assert ClassStep(t, classes) == classes + 1;
      } else if classes == 0 {
        assert ClassStep(t, classes) == 0;
      } else if s[i] == ']' {
        assert ClassStep(t, classes) == classes - 1;
      }
    }
  }

  /** `GroupEndStep` for a lexeme that does not close the last group. */
  lemma GroupEndGoes(s: string, i: nat, classes: nat, groups: nat, l: Lexeme)
    requires i < |s| && groups >= 1
    requires l == Lexeme(PlainAt(s[i..]), classes == 0) && !(IsCloser(l) && groups == 1)
    ensures groups + GroupStep(l) >= 1
    ensures GroupEnd(s, i, classes, groups)
            == GroupEnd(s, i + |Text(l.tok)|, ClassStep(l.tok, classes), groups + GroupStep(l))
  {
    GroupEndStep(s, i, classes, groups);
  }

  /** The walk's first lexeme is the one read at `i`. */
  lemma WalkCons(s: string, i: nat, classes: nat)
    requires i < |s|
    ensures var t := PlainAt(s[i..]);
            Walk(s[i..], classes)
            == [Lexeme(t, classes == 0)] + Walk(s[i + |Text(t)|..], ClassStep(t, classes))
  {
    var u := s[i..];
    var t := PlainAt(u);
    assert u[|Text(t)|..] == s[i + |Text(t)|..];
  }

  /** One lexeme in front of a walk that closes at `k` closes at `k + 1`,
      its text shifting the stop by its length. */
  lemma CountsCons(ls: seq<Lexeme>, l: Lexeme, rest: seq<Lexeme>, groups: nat, k: nat, i: nat, e: nat)
    requires ls == [l] + rest && !(IsCloser(l) && groups == 1)
    requires groups >= 1 && groups + GroupStep(l) >= 1
    requires k <= |rest| && Closing(rest, groups + GroupStep(l), k)
    requires e == i + |Text(l.tok)| + Offset(rest, k)
    ensures Closing(ls, groups, k + 1) && e == i + Offset(ls, k + 1)
  {
    assert ls[1..] == rest;
    OffsetCons(l, rest, k);
  }


  /** The position `getGroupContents` stops at is where lexeme `k` starts,
      for the `k` that `ClosesAt` singles out. */
  lemma {:induction false} GroupEndCounts(s: string, i: nat, classes: nat, groups: nat) returns (k: nat)
    requires i <= |s| && groups >= 1
    ensures var ls := Walk(s[i..], classes);
            k <= |ls| && Closing(ls, groups, k) && GroupEnd(s, i, classes, groups) == i + Offset(ls, k)
    decreases |s| - i, 1
  {
    if i == |s| {
      assert s[i..] == [];
      ClosesAtStart(Walk(s[i..], classes), groups);
      k := 0;
    } else {
      k := GroupEndCountsAt(s, i, classes, groups);
    }
  }

  /** `GroupEndCounts` where there is a lexeme to read: it either closes the
      last group or shifts the count for the rest of the walk. */
  lemma {:induction false} GroupEndCountsAt(s: string, i: nat, classes: nat, groups: nat) returns (k: nat)
    requires i < |s| && groups >= 1
    ensures var ls := Walk(s[i..], classes);
            k <= |ls| && Closing(ls, groups, k) && GroupEnd(s, i, classes, groups) == i + Offset(ls, k)
    decreases |s| - i, 0
  {
    var t := PlainAt(s[i..]);
    var l := Lexeme(t, classes == 0);
    if IsCloser(l) && groups == 1 {
      CloserCounts(s, i, classes, groups);
      k := 0;
    } else {
      GroupEndGoes(s, i, classes, groups, l);
      var g: nat := groups + GroupStep(l);
      var k' := GroupEndCounts(s, i + |Text(t)|, ClassStep(t, classes), g);
      var rest := Walk(s[i + |Text(t)|..], ClassStep(t, classes));
      NextCounts(s, i, classes, groups, k', l, g, rest);
      WalkCons(s, i, classes);
      k := k' + 1;
    }
  }

  /** The walk stops at once on the closer of the last group. */
  lemma CloserCounts(s: string, i: nat, classes: nat, groups: nat)
    requires i < |s| && groups == 1
    requires IsCloser(Lexeme(PlainAt(s[i..]), classes == 0))
    ensures var ls := Walk(s[i..], classes);
            Closing(ls, groups, 0) && GroupEnd(s, i, classes, groups) == i + Offset(ls, 0)
  {
    WalkCons(s, i, classes);
    GroupEndStep(s, i, classes, groups);
    ClosesAtStart(Walk(s[i..], classes), groups);
  }

  /** Any other lexeme moves the stop one lexeme further in. */
  lemma NextCounts(s: string, i: nat, classes: nat, groups: nat, k: nat, l: Lexeme, g: nat, rest: seq<Lexeme>)
    requires i < |s| && groups >= 1
    requires l == Lexeme(PlainAt(s[i..]), classes == 0) && !(IsCloser(l) && groups == 1)
    requires g == groups + GroupStep(l) && k <= |rest| && Closing(rest, g, k)
    requires GroupEnd(s, i + |Text(l.tok)|, ClassStep(l.tok, classes), g) == i + |Text(l.tok)| + Offset(rest, k)
    ensures k + 1 <= |[l] + rest| && Closing([l] + rest, groups, k + 1)
    ensures GroupEnd(s, i, classes, groups) == i + Offset([l] + rest, k + 1)
  {
    GroupEndGoes(s, i, classes, groups, l);
    CountsCons([l] + rest, l, rest, groups, k, i, GroupEnd(s, i, classes, groups));
  }

  /** The text the first `k` lexemes spell starts the text all of them
      spell. */
  lemma FlattenPrefix(ls: seq<Lexeme>, k: nat)
    requires k <= |ls|
    ensures Flatten(ls) == Flatten(ls[..k]) + Flatten(ls[k..])
  {
    assert ls == ls[..k] + ls[k..];
    FlattenAppend(ls[..k], ls[k..]);
  }

  /** `getGroupContents` ends the group at the first `)` outside classes
      and escapes that balances the `(` before it: the contents are the
      first `k` lexemes of the walk, no prefix of them closes more groups
      than it opens, and lexeme `k`, when there is one, is a `)` with as
      many `(` as `)` before it. */
  lemma GroupContentsBalanced(s: string, start: nat)
    requires start <= |s|
    ensures var ls := LexOn(NoToken, s[start..], 0);
            exists k: nat :: ClosesAt(ls, 1, k) && GroupContents(s, start) == Flatten(ls[..k])
  {
    var ls := LexOn(NoToken, s[start..], 0);
    var k := GroupEndCounts(s, start, 0, 1);
    WalkIsLexOn(s[start..], 0);
    ClosingCloses(ls, 1, k);
    SpelledPrefix(s, start, ls, k);
  }

  /** The first `k` lexemes of the walk from `start` spell the text from
      `start` to where lexeme `k` starts. */
  lemma SpelledPrefix(s: string, start: nat, ls: seq<Lexeme>, k: nat)
    requires start <= |s| && ls == LexOn(NoToken, s[start..], 0) && k <= |ls|
    ensures start + Offset(ls, k) <= |s| && s[start..start + Offset(ls, k)] == Flatten(ls[..k])
  {
    LexOnFlatten(NoToken, s[start..], 0);
    FlattenPrefix(ls, k);
    assert s[start..][..Offset(ls, k)] == Flatten(ls[..k]);
  }

  /** `forEachUnescaped(s, namedCapturingDelim, ...)` collecting the names:
      every capture name whose opener is unescaped and outside classes. */
  function CaptureNames(s: string): set<string> {
    set l | l in Lexemes(NamedCapturingDelim, s) && l.outside && l.tok.CaptureOpen? :: l.tok.name
  }

  /** A pattern declares no capture name exactly when the search for an
      unescaped opener fails. */
  lemma CaptureNamesEmpty(s: string)
    ensures CaptureNames(s) == {} <==> !HasUnescaped(s, NamedCapturingDelim)
  {
    var ls := Lexemes(NamedCapturingDelim, s);
    LexOnKinds(NamedCapturingDelim, s, 0);
    if AnyHit(ls) {
      var k :| 0 <= k < |ls| && IsHit(ls[k]);
      assert ls[k] in ls;
      assert ls[k].tok.CaptureOpen?;
      assert ls[k].tok.name in CaptureNames(s);
    }
  }

  /** The replacement callback of `repeatWithDepth`, applied to one lexeme:
      outside classes, a capture opener gets the tag after its name, and so
      does a backreference unless `scope` is given and lacks its name. */
  function Renamed(l: Lexeme, tag: string, scope: Option<set<string>>): Token {
    if !l.outside then l.tok
    else
      match l.tok
      case CaptureOpen(nm) => CaptureOpen(nm + tag)
      case Backref(nm) => if scope.Some? && nm !in scope.value then l.tok else Backref(nm + tag)
      case _ => l.tok
  }

  function Render(ls: seq<Lexeme>, tag: string, scope: Option<set<string>>): string {
    if |ls| == 0 then [] else Text(Renamed(ls[0], tag, scope)) + Render(ls[1..], tag, scope)
  }

  lemma {:induction false} RenderAppend(a: seq<Lexeme>, b: seq<Lexeme>, tag: string, scope: Option<set<string>>)
    ensures Render(a + b, tag, scope) == Render(a, tag, scope) + Render(b, tag, scope)
  {
    if |a| == 0 {
      assert a + b == b;
    } else {
      assert (a + b)[0] == a[0];
      assert (a + b)[1..] == a[1..] + b;
      RenderAppend(a[1..], b, tag, scope);
      var x := Text(Renamed(a[0], tag, scope));
      calc {
        Render(a + b, tag, scope);
        x + Render(a[1..] + b, tag, scope);
        x + (Render(a[1..], tag, scope) + Render(b, tag, scope));
        (x + Render(a[1..], tag, scope)) + Render(b, tag, scope);
      }
    }
  }

  /** `replaceUnescaped(s, namedCapturingDelim|\\k<...>, callback)` with the
      callback of `repeatWithDepth`: each lexeme of the scan is written out,
      renamed when it is a match outside classes. */
  function Retag(s: string, tag: string, scope: Option<set<string>>): string {
    Render(Lexemes(CaptureOrBackref, s), tag, scope)
  }

  /** Renaming text in two parts is renaming each part, whenever the
      scan reads the parts separately. */
  lemma RetagAppend(a: string, b: string, tag: string, scope: Option<set<string>>)
    requires Lexemes(CaptureOrBackref, a + b) == Lexemes(CaptureOrBackref, a) + Lexemes(CaptureOrBackref, b)
    ensures Retag(a + b, tag, scope) == Retag(a, tag, scope) + Retag(b, tag, scope)
  {
    RenderAppend(Lexemes(CaptureOrBackref, a), Lexemes(CaptureOrBackref, b), tag, scope);
  }

  lemma {:induction false} RenderNoHit(ls: seq<Lexeme>, tag: string, scope: Option<set<string>>)
    requires !AnyHit(ls)
    ensures Render(ls, tag, scope) == Flatten(ls)
  {
    if |ls| > 0 {
      assert ls == [ls[0]] + ls[1..];
      AnyHitCons(ls[0], ls[1..]);
      RenderNoHit(ls[1..], tag, scope);
    }
  }

  /** Text without an unescaped capture opener or backreference outside
      classes is copied unchanged. */
  lemma RetagUntouched(s: string, tag: string, scope: Option<set<string>>)
    requires !HasUnescaped(s, CaptureOrBackref)
    ensures Retag(s, tag, scope) == s
  {
    RenderNoHit(Lexemes(CaptureOrBackref, s), tag, scope);
    LexOnFlatten(CaptureOrBackref, s, 0);
  }

  /** A whole token the renaming scan reads at the start of `u`, with
      nothing after it, is its only lexeme. */
  lemma LexOnSingle(u: string, t: Token)
    requires |u| > 0 && Lex(CaptureOrBackref, u) == t && |Text(t)| == |u| && !IsChar(t, '[')
    ensures LexOn(CaptureOrBackref, u, 0) == [Lexeme(t, true)]
  {
    LexOnCons(CaptureOrBackref, u, 0);
    var rest := u[|Text(t)|..];
    assert rest == [];
    assert LexOn(CaptureOrBackref, rest, ClassStep(t, 0)) == [];
  }

  /** Each copy renames a named group opener `(?<name>` to
      `(?<name_$k>`, whatever the scope. */
  lemma RetagCaptureOpen(name: string, tag: string, scope: Option<set<string>>)
    requires WellFormed(CaptureOpen(name))
    ensures Retag(Text(CaptureOpen(name)), tag, scope) == Text(CaptureOpen(name + tag))
  {
    var u := Text(CaptureOpen(name));
    CaptureOpenRecognised(name, []);
    assert u + [] == u;
    LexOnSingle(u, CaptureOpen(name));
    assert Render([Lexeme(CaptureOpen(name), true)], tag, scope) == Text(CaptureOpen(name + tag)) + [];
  }

  /** Each copy renames a backreference `\k<name>` to `\k<name_$k>`,
      except that in subpattern mode (`scope` given) a name declared
      outside the recursed text is left alone. */
  lemma RetagBackref(name: string, tag: string, scope: Option<set<string>>)
    requires WellFormed(Backref(name))
    ensures Retag(Text(Backref(name)), tag, scope) ==
            if scope.Some? && name !in scope.value then Text(Backref(name)) else Text(Backref(name + tag))
  {
    var u := Text(Backref(name));
    BackrefRecognised(name, []);
    assert u + [] == u;
    assert CaptureOpenAt(u).None?;
    LexOnSingle(u, Backref(name));
    var r := Renamed(Lexeme(Backref(name), true), tag, scope);
    assert Render([Lexeme(Backref(name), true)], tag, scope) == Text(r) + [];
  }

  /** Every needle starts with `(` or a backslash. */
  lemma NoNeedleAtOther(n: Needle, u: string)
    requires |u| > 0 && u[0] != '(' && u[0] != '\\'
    ensures NeedleAt(n, u).None?
  {
    if |u| >= 3 {
      assert u[..3][0] == u[0];
    }
    if |u| >= 4 {
      assert u[..4][0] == u[0];
    }
    if |u| >= 10 {
      assert u[..10][0] == u[0];
    }
  }

  lemma NoNeedleAtNonCapturingOpen(n: Needle, s: string)
    ensures NeedleAt(n, "(?:" + s).None?
  {
    var x := "(?:" + s;
    assert x[..3][2] == ':';
    if |x| >= 4 {
      assert x[..4][2] == ':';
    }
    if |x| >= 10 {
      assert x[..10][2] == ':';
    }
  }

  /** One step of the scan over a character that is neither a needle start
      nor class syntax nor an escape. */
  lemma LexOnInertStep(n: Needle, u: string, depth: nat)
    requires |u| > 0 && u[0] !in "[]\\" && NeedleAt(n, u).None?
    ensures LexOn(n, u, depth) == [Lexeme(Plain([u[0]]), depth == 0)] + LexOn(n, u[1..], depth)
  {
    assert u[..1] == [u[0]];
  }

  /** A character that is neither a needle start nor class syntax nor an
      escape lexes as plain text on its own. */
  lemma LexOnInertPrefix(c: char, s: string, depth: nat)
    requires c !in "[]\\("
    ensures LexOn(CaptureOrBackref, [c] + s, depth) ==
            [Lexeme(Plain([c]), depth == 0)] + LexOn(CaptureOrBackref, s, depth)
  {
    var u := [c] + s;
    NoNeedleAtOther(CaptureOrBackref, u);
    LexOnInertStep(CaptureOrBackref, u, depth);
    assert u[1..] == s;
  }

  lemma LexOnOpenParen(s: string)
    ensures LexOn(CaptureOrBackref, "(?:" + s, 0) ==
            [Lexeme(Plain("("), true)] + LexOn(CaptureOrBackref, "?:" + s, 0)
  {
    var u := "(?:" + s;
    NoNeedleAtNonCapturingOpen(CaptureOrBackref, s);
    LexOnInertStep(CaptureOrBackref, u, 0);
    assert u[1..] == "?:" + s;
  }

  lemma ConsTwo<T>(a: T, b: T, rest: seq<T>, x: seq<T>, y: seq<T>)
    requires x == [a] + y && y == [b] + rest
    ensures x == [a, b] + rest
  {
  }

  lemma LexOnQuestionColon(s: string)
    ensures LexOn(CaptureOrBackref, "?:" + s, 0) ==
            [Lexeme(Plain("?"), true), Lexeme(Plain(":"), true)] + LexOn(CaptureOrBackref, s, 0)
  {
    var u := "?:" + s;
    assert u == ['?'] + u[1..] && u[1..] == [':'] + s;
    LexOnInertPrefix('?', u[1..], 0);
    LexOnInertPrefix(':', s, 0);
    ConsTwo(Lexeme(Plain("?"), true), Lexeme(Plain(":"), true), LexOn(CaptureOrBackref, s, 0),
            LexOn(CaptureOrBackref, u, 0), LexOn(CaptureOrBackref, u[1..], 0));
  }

  /** The opener `(?:` written in front of a pattern lexes as three plain
      characters outside classes, followed by the pattern's own lexemes. */
  lemma LexemesAfterNonCapturingOpen(s: string)
    ensures Lexemes(CaptureOrBackref, "(?:" + s) ==
      [Lexeme(Plain("("), true), Lexeme(Plain("?"), true), Lexeme(Plain(":"), true)] + Lexemes(CaptureOrBackref, s)
  {
    LexOnOpenParen(s);
    LexOnQuestionColon(s);
  }

  /** Renaming commutes with the `(?:` that `makeRecursive` puts before each
      copy of `pre`. */
  lemma RetagAfterNonCapturingOpen(s: string, tag: string, scope: Option<set<string>>)
    ensures Retag("(?:" + s, tag, scope) == "(?:" + Retag(s, tag, scope)
  {
    var open := [Lexeme(Plain("("), true), Lexeme(Plain("?"), true), Lexeme(Plain(":"), true)];
    LexemesAfterNonCapturingOpen(s);
    RenderAppend(open, Lexemes(CaptureOrBackref, s), tag, scope);
    RenderNonCapturingOpen(tag, scope);
  }

  lemma RenderNonCapturingOpen(tag: string, scope: Option<set<string>>)
    ensures Render([Lexeme(Plain("("), true), Lexeme(Plain("?"), true), Lexeme(Plain(":"), true)], tag, scope) == "(?:"
  {
    var open := [Lexeme(Plain("("), true), Lexeme(Plain("?"), true), Lexeme(Plain(":"), true)];
    assert Render(open[2..], tag, scope) == ":";
    assert Render(open[1..], tag, scope) == "?:";
  }

  // Appending `)` to a pattern: no needle of the renaming scan can use the
  // final `)`, so only a trailing lone backslash changes, and it is plain text.

  lemma IndexOfAnyAppend(s: string, c: char, j: nat, stops: string)
    requires j <= |s| && c !in stops
    ensures var e := IndexOfAny(s, j, stops);
            IndexOfAny(s + [c], j, stops) == if e < |s| then e else |s| + 1
  {
    var x := s + [c];
    var e := IndexOfAny(s, j, stops);
    forall m | j <= m < e ensures x[m] !in stops {
      assert x[m] == s[m];
    }
    if e < |s| {
      assert x[e] == s[e];
      IndexOfAnyIs(x, j, stops, e);
    } else {
      assert x[|s|] == c;
      forall m | j <= m < |x| ensures x[m] !in stops {
        if m < |s| {
          assert x[m] == s[m];
        }
      }
    }
  }

  lemma CaptureOpenAtAppendClose(u: string)
    requires |u| > 0
    ensures CaptureOpenAt(u + ")") == CaptureOpenAt(u)
  {
    var x := u + ")";
    if 3 <= |u| {
      assert x[..3] == u[..3];
      IndexOfAnyAppend(u, ')', 3, ">");
      if 3 < |u| {
        assert x[3] == u[3];
        var e := IndexOfAny(u, 3, ">");
        if e < |u| {
          assert x[3..e] == u[3..e];
        }
      }
    }
  }

  lemma BackrefAtAppendClose(u: string)
    requires |u| > 0
    ensures BackrefAt(u + ")") == BackrefAt(u)
  {
    var x := u + ")";
    if 3 <= |u| {
      assert x[..3] == u[..3];
      IndexOfAnyAppend(u, ')', 3, ">");
      var e := IndexOfAny(u, 3, ">");
      if e < |u| {
        assert x[3..e] == u[3..e];
      }
    } else if |x| == 3 {
      assert x[..3][2] == ')';
    }
  }

  lemma LexAppendClose(u: string)
    requires |u| > 0
    ensures var t := Lex(CaptureOrBackref, u);
            var t' := Lex(CaptureOrBackref, u + ")");
            if u == "\\" then t == Plain("\\") && t' == Plain("\\)") else t' == t
  {
    var x := u + ")";
    CaptureOpenAtAppendClose(u);
    BackrefAtAppendClose(u);
    assert NeedleAt(CaptureOrBackref, x) == NeedleAt(CaptureOrBackref, u);
    assert x[..1] == u[..1];
    if |u| > 1 {
      assert x[..2] == u[..2];
    }
  }

  lemma RenderLoneBackslashClose(depth: nat, tag: string, scope: Option<set<string>>)
    ensures Render(LexOn(CaptureOrBackref, "\\)", depth), tag, scope) ==
            Render(LexOn(CaptureOrBackref, "\\", depth), tag, scope) + ")"
  {
    var n := CaptureOrBackref;
    LexAppendClose("\\");
    var x: string := "\\)";
    var u: string := "\\";
    assert u + ")" == x;
    assert Lex(n, x) == Plain(x) && Lex(n, u) == Plain(u);
    assert x[2..] == [] && u[1..] == [];
    assert LexOn(n, x, depth) == [Lexeme(Plain("\\)"), depth == 0)] + LexOn(n, [], ClassStep(Plain("\\)"), depth));
    assert LexOn(n, u, depth) == [Lexeme(Plain("\\"), depth == 0)] + LexOn(n, [], ClassStep(Plain("\\"), depth));
  }

  /** One step of the scan: the first lexeme, then the scan of the rest. */
  lemma LexOnCons(n: Needle, u: string, depth: nat)
    requires |u| > 0
    ensures var t := Lex(n, u);
            LexOn(n, u, depth) == [Lexeme(t, depth == 0)] + LexOn(n, u[|Text(t)|..], ClassStep(t, depth))
  {
  }

  /** `LexOnCons` for a first token already known to be the plain text `x`. */
  lemma LexOnPlainStep(n: Needle, u: string, depth: nat, x: string)
    requires |u| > 0 && Lex(n, u) == Plain(x)
    ensures LexOn(n, u, depth) == [Lexeme(Plain(x), depth == 0)] + LexOn(n, u[|x|..], ClassStep(Plain(x), depth))
  {
    LexOnCons(n, u, depth);
  }

  lemma RenderCons(l: Lexeme, rest: seq<Lexeme>, tag: string, scope: Option<set<string>>)
    ensures Render([l] + rest, tag, scope) == Text(Renamed(l, tag, scope)) + Render(rest, tag, scope)
  {
    assert ([l] + rest)[0] == l && ([l] + rest)[1..] == rest;
  }

  lemma RenderEmptyClose(depth: nat, tag: string, scope: Option<set<string>>)
    ensures Render(LexOn(CaptureOrBackref, ")", depth), tag, scope) == ")"
  {
    var x: string := ")";
    NoNeedleAtOther(CaptureOrBackref, x);
    LexOnInertStep(CaptureOrBackref, x, depth);
    assert x[1..] == [];
  }

  lemma LexOnAppendClose(u: string, depth: nat)
    requires |u| > 0 && u != "\\"
    ensures var t := Lex(CaptureOrBackref, u);
            LexOn(CaptureOrBackref, u + ")", depth) ==
            [Lexeme(t, depth == 0)] + LexOn(CaptureOrBackref, u[|Text(t)|..] + ")", ClassStep(t, depth))
  {
    var x := u + ")";
    LexAppendClose(u);
    var k := |Text(Lex(CaptureOrBackref, u))|;
    assert x[k..] == u[k..] + ")";
    LexOnCons(CaptureOrBackref, x, depth);
  }

  lemma RenderConsClose(l: Lexeme, a: seq<Lexeme>, b: seq<Lexeme>, x: seq<Lexeme>, y: seq<Lexeme>,
                        tag: string, scope: Option<set<string>>)
    requires x == [l] + a && y == [l] + b
    requires Render(a, tag, scope) == Render(b, tag, scope) + ")"
    ensures Render(x, tag, scope) == Render(y, tag, scope) + ")"
  {
    RenderCons(l, a, tag, scope);
    RenderCons(l, b, tag, scope);
  }

  lemma RenderAppendCloseStep(u: string, depth: nat, tag: string, scope: Option<set<string>>)
    requires |u| > 0 && u != "\\"
    requires var t := Lex(CaptureOrBackref, u); var k := |Text(t)|;
      Render(LexOn(CaptureOrBackref, u[k..] + ")", ClassStep(t, depth)), tag, scope) ==
      Render(LexOn(CaptureOrBackref, u[k..], ClassStep(t, depth)), tag, scope) + ")"
    ensures Render(LexOn(CaptureOrBackref, u + ")", depth), tag, scope) ==
            Render(LexOn(CaptureOrBackref, u, depth), tag, scope) + ")"
  {
    var n := CaptureOrBackref;
    var t := Lex(n, u);
    var k := |Text(t)|;
    var d := ClassStep(t, depth);
    LexOnAppendClose(u, depth);
    LexOnCons(n, u, depth);
    RenderConsClose(Lexeme(t, depth == 0), LexOn(n, u[k..] + ")", d), LexOn(n, u[k..], d),
                    LexOn(n, u + ")", depth), LexOn(n, u, depth), tag, scope);
  }

  lemma {:induction false} RenderAppendClose(u: string, depth: nat, tag: string, scope: Option<set<string>>)
    ensures Render(LexOn(CaptureOrBackref, u + ")", depth), tag, scope) ==
            Render(LexOn(CaptureOrBackref, u, depth), tag, scope) + ")"
    decreases |u|
  {
    if |u| == 0 {
      assert u + ")" == ")";
      RenderEmptyClose(depth, tag, scope);
    } else if u == "\\" {
      RenderLoneBackslashClose(depth, tag, scope);
    } else {
      var t := Lex(CaptureOrBackref, u);
      RenderAppendClose(u[|Text(t)|..], ClassStep(t, depth), tag, scope);
      RenderAppendCloseStep(u, depth, tag, scope);
    }
  }

  /** Renaming commutes with the `)` that `makeRecursive` puts after each
      copy of `post`. */
  lemma RetagBeforeClose(s: string, tag: string, scope: Option<set<string>>)
    ensures Retag(s + ")", tag, scope) == Retag(s, tag, scope) + ")"
  {
    RenderAppendClose(s, 0, tag, scope);
  }
}
