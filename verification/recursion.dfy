/** `recursion(expression)` (`src/index.js` lines 12-102): the pre-checks,
    the scan for the first directive, the checks on the directive, and the
    call to `makeRecursive`. A thrown `Error` is a `Failure`. */
module Expansion {
  import opened Wrappers
  import opened Decimal
  import opened Lexical
  import opened Unescaped
  import opened Unroll

  /** The errors `recursion` throws. */
  datatype Error =
    | InvalidDepth(literal: string)                    // Max depth must be integer between 2 and 100
    | NumberedBackrefWithRecursion                     // Numbered backrefs cannot be used with recursion
    | DefineWithRecursion                              // DEFINE groups cannot be used with recursion
    | OutsideReferencedGroup(name: string, depth: string) // must be used within the referenced group
    | RecursionUsedTwice                               // Recursion can only be used once per regex
    | NotProcessed                                     // Unexpected error; recursion was not processed

  /** `assertMaxInBounds(max)` followed by `+max`: the literal must match
      `^[1-9]\d*$` and its value must lie in 2..100. */
  function ParseDepth(literal: string): (r: Result<nat, Error>)
    ensures r.Success? ==> 2 <= r.value <= 100 && Show(r.value) == literal
    ensures r.Failure? ==> r.error == InvalidDepth(literal)
  {
    if IsCanonical(literal) && 2 <= Value(literal) <= 100 then
      ShowValue(literal);
      Success(Value(literal))
    else
      Failure(InvalidDepth(literal))
  }

  /** The depth literals accepted are exactly the renderings of 2..100. */
  lemma ParseDepthAccepts(literal: string)
    ensures ParseDepth(literal).Success? <==> exists n :: 2 <= n <= 100 && literal == Show(n)
  {
    if exists n :: 2 <= n <= 100 && literal == Show(n) {
      var n :| 2 <= n <= 100 && literal == Show(n);
      ParseDepthShow(n);
    }
  }

  /** Rendering a valid depth and reading it back gives the depth. */
  lemma ParseDepthShow(n: nat)
    requires 2 <= n <= 100
    ensures ParseDepth(Show(n)) == Success(n)
  {
    assert IsCanonical(Show(n)) && Value(Show(n)) == n;
  }

  /** `String.prototype.slice(n)` on a string: empty past the end. */
  function Drop(s: string, n: nat): (r: string)
    ensures n <= |s| ==> s == s[..n] + r
    ensures n > |s| ==> r == []
  {
    if n <= |s| then s[n..] else []
  }

  /** The directive the scan stopped at, at position `pos`, with the
      content start of every named group opened before it
      (`groupContentsStartPos`). */
  datatype Hit = Hit(pos: nat, tok: Token, starts: map<string, nat>)

  /** The group opener `(?<name>` ends at position `p` of `s`. */
  predicate OpenerEndsAt(s: string, name: string, p: nat) {
    var m := Text(CaptureOpen(name));
    |m| <= p && Matches(s, p - |m|, CaptureOpen(name))
  }

  /** One step of the scan loop of `recursion`. */
  datatype Step =
    | Continue(next: nat, classes: nat, starts: map<string, nat>)
    | Stop(hit: Hit)

  /** One round of the scan loop at position `i`, with `classes`
      character classes open: read one token; `[` opens a class and `]`
      closes one; outside classes, a group opener `(?<name>` records where
      its contents start, and `(?R=N)` or `\g<name&R=N>` stops the scan.
      The scan always moves forward; it stops only outside classes, on a
      well formed directive inside the pattern; and it records no start
      beyond the position it moves to. */
  function ScanStep(s: string, i: nat, classes: nat, starts: map<string, nat>): (st: Step)
    requires i < |s|
    ensures st.Continue? ==> i < st.next <= |s|
    ensures st.Stop? ==> classes == 0 && st.hit.pos == i && st.hit.starts == starts
    ensures st.Stop? ==> (st.hit.tok.GlobalRecursion? || st.hit.tok.SubRecursion?)
                         && WellFormed(st.hit.tok) && i + |Text(st.hit.tok)| <= |s|
    ensures st.Continue? && (forall nm :: nm in starts ==> starts[nm] <= i) ==>
              forall nm :: nm in st.starts ==> st.starts[nm] <= st.next
  {
    var t := Lex(ScannerToken, s[i..]);
    var next := i + |Text(t)|;
    LexSound(ScannerToken, s[i..]);
    if IsChar(t, '[') then
      Continue(next, classes + 1, starts)
    else if classes == 0 then
      if t.CaptureOpen? then
        Continue(next, 0, starts[t.name := next])
      else if t.GlobalRecursion? || t.SubRecursion? then
        Stop(Hit(i, t, starts))
      else
        Continue(next, 0, starts)
    else if IsChar(t, ']') then
      Continue(next, classes - 1, starts)
    else
      Continue(next, classes, starts)
  }

  /** The scan loop of `recursion` from position `i`: it stops at the
      first `(?R=N)` or `\g<name&R=N>` met outside every class, recording
      on the way where the contents of each named group start. The
      directive it stops at lies inside the pattern and is well formed, and
      when every start given lies at or before `i`, every start recorded
      lies before the directive. */
  function ScanFrom(s: string, i: nat, classes: nat, starts: map<string, nat>): (h: Option<Hit>)
    requires i <= |s|
    ensures h.Some? ==> i <= h.value.pos && h.value.pos + |Text(h.value.tok)| <= |s| && WellFormed(h.value.tok)
    ensures h.Some? ==> h.value.tok.GlobalRecursion? || h.value.tok.SubRecursion?
    ensures h.Some? && (forall nm :: nm in starts ==> starts[nm] <= i) ==>
              forall nm :: nm in h.value.starts ==> h.value.starts[nm] <= h.value.pos
    decreases |s| - i
  {
    if i == |s| then
      None
    else
      match ScanStep(s, i, classes, starts)
      case Stop(h) => Some(h)
      case Continue(next, classes', starts') => ScanFrom(s, next, classes', starts')
  }

  /** The scan from the start of the pattern, with no group opened yet. */
  function Scan(s: string): (h: Option<Hit>)
    ensures h.Some? ==> h.value.pos + |Text(h.value.tok)| <= |s| && WellFormed(h.value.tok)
    ensures h.Some? ==> h.value.tok.GlobalRecursion? || h.value.tok.SubRecursion?
    ensures h.Some? ==> forall nm :: nm in h.value.starts ==> h.value.starts[nm] <= h.value.pos
  {
    ScanFrom(s, 0, 0, map[])
  }

  /** A step that stops does so on a directive spelled out at `i`. */
  lemma ScanStepMatches(s: string, i: nat, classes: nat, starts: map<string, nat>)
    requires i < |s| && ScanStep(s, i, classes, starts).Stop?
    ensures var h := ScanStep(s, i, classes, starts).hit; Matches(s, h.pos, h.tok)
  {
    LexSound(ScannerToken, s[i..]);
    StartsMatches(s, i, Lex(ScannerToken, s[i..]));
  }

  /** The directive the scan from `i` stops at is spelled out in the
      pattern at its position. */
  lemma {:induction false} ScanFromMatches(s: string, i: nat, classes: nat, starts: map<string, nat>)
    requires i <= |s| && ScanFrom(s, i, classes, starts).Some?
    ensures var h := ScanFrom(s, i, classes, starts).value; Matches(s, h.pos, h.tok)
    decreases |s| - i
  {
    match ScanStep(s, i, classes, starts)
    case Stop(_) => ScanStepMatches(s, i, classes, starts);
    case Continue(next, classes', starts') => ScanFromMatches(s, next, classes', starts');
  }

  /** Every start in `h` is either one of `starts`, or lies after `i`,
      before the directive, right after that group's opener. */
  predicate StartsFrom(s: string, i: nat, starts: map<string, nat>, h: Hit) {
    forall nm :: nm in h.starts ==>
      (nm in starts && h.starts[nm] == starts[nm])
      || (i < h.starts[nm] <= h.pos && OpenerEndsAt(s, nm, h.starts[nm]))
  }

  lemma StartsFromLater(s: string, i: nat, next: nat, starts: map<string, nat>, h: Hit)
    requires i < next && StartsFrom(s, next, starts, h)
    ensures StartsFrom(s, i, starts, h)
  {
  }

  lemma StartsFromOpen(s: string, i: nat, next: nat, name: string, starts: map<string, nat>, h: Hit)
    requires i < next <= h.pos && OpenerEndsAt(s, name, next)
    requires StartsFrom(s, next, starts[name := next], h)
    ensures StartsFrom(s, i, starts, h)
  {
  }

  /** A step that moves on either keeps the starts or records one right
      after the opener it read. */
  lemma ScanStepStarts(s: string, i: nat, classes: nat, starts: map<string, nat>)
    requires i < |s| && ScanStep(s, i, classes, starts).Continue?
    ensures var st := ScanStep(s, i, classes, starts);
            st.starts == starts || exists name :: st.starts == starts[name := st.next] && OpenerEndsAt(s, name, st.next)
  {
    var t := Lex(ScannerToken, s[i..]);
    LexSound(ScannerToken, s[i..]);
    if classes == 0 && !IsChar(t, '[') && t.CaptureOpen? {
      StartsMatches(s, i, t);
      assert OpenerEndsAt(s, t.name, i + |Text(t)|);
    }
  }

  /** The starts a step records carry over to the rest of the scan. */
  lemma StartsFromStep(s: string, i: nat, classes: nat, starts: map<string, nat>, h: Hit)
    requires i < |s| && ScanStep(s, i, classes, starts).Continue?
    requires ScanStep(s, i, classes, starts).next <= h.pos
    requires var st := ScanStep(s, i, classes, starts); StartsFrom(s, st.next, st.starts, h)
    ensures StartsFrom(s, i, starts, h)
  {
    var st := ScanStep(s, i, classes, starts);
    ScanStepStarts(s, i, classes, starts);
    if st.starts == starts {
      StartsFromLater(s, i, st.next, starts, h);
    } else {
      var name :| st.starts == starts[name := st.next] && OpenerEndsAt(s, name, st.next);
      StartsFromOpen(s, i, st.next, name, starts, h);
    }
  }

  /** Every group start the scan records from `i` on lies right after
      that group's opener `(?<name>`, met on the way to the directive. */
  lemma {:induction false} ScanFromStarts(s: string, i: nat, classes: nat, starts: map<string, nat>)
    requires i <= |s| && ScanFrom(s, i, classes, starts).Some?
    ensures StartsFrom(s, i, starts, ScanFrom(s, i, classes, starts).value)
    decreases |s| - i
  {
    match ScanStep(s, i, classes, starts)
    case Stop(_) =>
    case Continue(next, classes', starts') =>
      ScanFromStarts(s, next, classes', starts');
      StartsFromStep(s, i, classes, starts, ScanFrom(s, i, classes, starts).value);
  }

  /** Every group start the scan of the whole pattern records lies right
      after that group's opener. */
  lemma ScanStarts(s: string)
    requires Scan(s).Some?
    ensures forall nm :: nm in Scan(s).value.starts ==> OpenerEndsAt(s, nm, Scan(s).value.starts[nm])
  {
    ScanFromStarts(s, 0, 0, map[]);
  }

  // The scan read as a walk over the lexemes of `ScannerToken`: it stops
  // at the first directive outside classes, and by then it has recorded,
  // for each name, the end of the last opener of that name.

  /** A `(?R=N)` or `\g<name&R=N>` outside every class. */
  predicate IsDirective(l: Lexeme) {
    l.outside && (l.tok.GlobalRecursion? || l.tok.SubRecursion?)
  }

  /** A `(?<name>` outside every class. */
  predicate Opens(l: Lexeme, name: string) {
    l.outside && l.tok.CaptureOpen? && l.tok.name == name
  }

  predicate NoDirective(ls: seq<Lexeme>) {
    forall j :: 0 <= j < |ls| ==> !IsDirective(ls[j])
  }

  /** Lexeme `k` is the first directive. */
  predicate FirstDirective(ls: seq<Lexeme>, k: nat) {
    k < |ls| && IsDirective(ls[k]) && forall j :: 0 <= j < k ==> !IsDirective(ls[j])
  }

  /** Lexeme `j` is the last opener of `name` among the first `k`. */
  predicate LastOpener(ls: seq<Lexeme>, k: nat, name: string, j: nat) {
    j < k <= |ls| && Opens(ls[j], name) && forall j' :: j < j' < k ==> !Opens(ls[j'], name)
  }

  /** The starts `m` left by walking the first `k` lexemes from offset
      `base`, with `starts` recorded before: a name is recorded exactly
      when it was before or some lexeme opens it; an opened name maps to
      the end of its last opener; any other name keeps its earlier start. */
  ghost predicate Records(ls: seq<Lexeme>, k: nat, base: nat, starts: map<string, nat>, m: map<string, nat>) {
    && k <= |ls|
    && (forall nm :: nm in m <==> nm in starts || exists j :: 0 <= j < k && Opens(ls[j], nm))
    && (forall nm, j: nat :: LastOpener(ls, k, nm, j) ==> nm in m && m[nm] == base + Offset(ls, j + 1))
    && (forall nm :: nm in starts && (forall j :: 0 <= j < k ==> !Opens(ls[j], nm)) ==> nm in m && m[nm] == starts[nm])
  }

  /** What the scan over the lexemes `ls` from offset `base` yields: no hit
      exactly when no lexeme is a directive; otherwise the hit is lexeme
      `k`, the first directive, at its offset, with the starts recorded by
      the lexemes before it. */
  ghost predicate ScanOutcome(ls: seq<Lexeme>, base: nat, starts: map<string, nat>, h: Option<Hit>, k: nat) {
    && (h.None? <==> NoDirective(ls))
    && (h.Some? ==> && FirstDirective(ls, k)
                    && h.value.pos == base + Offset(ls, k)
                    && h.value.tok == ls[k].tok
                    && Records(ls, k, base, starts, h.value.starts))
  }

  /** The starts after one lexeme: an opener outside classes records the
      position after it. */
  function Recorded(l: Lexeme, starts: map<string, nat>, next: nat): map<string, nat> {
    if l.outside && l.tok.CaptureOpen? then starts[l.tok.name := next] else starts
  }

  /** The scan's first lexeme is the one read at `i`. */
  lemma ScanCons(s: string, i: nat, classes: nat, t: Token, l: Lexeme, next: nat, rest: seq<Lexeme>)
    requires i < |s| && t == Lex(ScannerToken, s[i..]) && l == Lexeme(t, classes == 0)
    requires next == i + |Text(t)| && rest == LexOn(ScannerToken, s[next..], ClassStep(t, classes))
    ensures LexOn(ScannerToken, s[i..], classes) == [l] + rest
  {
    var u := s[i..];
    LexOnCons(ScannerToken, u, classes);
    assert u[|Text(t)|..] == s[next..];
  }

  /** A step on a directive outside classes stops there. */
  lemma ScanStepStops(s: string, i: nat, classes: nat, starts: map<string, nat>, t: Token)
    requires i < |s| && t == Lex(ScannerToken, s[i..]) && IsDirective(Lexeme(t, classes == 0))
    ensures ScanFrom(s, i, classes, starts) == Some(Hit(i, t, starts))
  {
    assert ScanStep(s, i, classes, starts) == Stop(Hit(i, t, starts));
  }

  /** A step on any other lexeme moves past it, with the class depth of
      the lexing and the start it records. */
  lemma ScanStepGoes(s: string, i: nat, classes: nat, starts: map<string, nat>, t: Token)
    requires i < |s| && t == Lex(ScannerToken, s[i..]) && !IsDirective(Lexeme(t, classes == 0))
    ensures ScanStep(s, i, classes, starts)
            == Continue(i + |Text(t)|, ClassStep(t, classes), Recorded(Lexeme(t, classes == 0), starts, i + |Text(t)|))
  {
  }

  lemma ScanFromGoes(s: string, i: nat, classes: nat, starts: map<string, nat>, t: Token, next: nat, classes': nat, starts': map<string, nat>)
    requires i < |s| && t == Lex(ScannerToken, s[i..]) && !IsDirective(Lexeme(t, classes == 0))
    requires next == i + |Text(t)| && classes' == ClassStep(t, classes)
    requires starts' == Recorded(Lexeme(t, classes == 0), starts, next)
    ensures ScanFrom(s, i, classes, starts) == ScanFrom(s, next, classes', starts')
  {
    ScanStepGoes(s, i, classes, starts, t);
    assert ScanStep(s, i, classes, starts) == Continue(next, classes', starts');
  }

  lemma NoDirectiveCons(l: Lexeme, rest: seq<Lexeme>)
    requires !IsDirective(l)
    ensures NoDirective([l] + rest) <==> NoDirective(rest)
  {
    var x := [l] + rest;
    assert forall j :: 0 <= j < |rest| ==> x[j + 1] == rest[j];
  }

  lemma FirstDirectiveCons(l: Lexeme, rest: seq<Lexeme>, k: nat)
    requires !IsDirective(l) && FirstDirective(rest, k)
    ensures FirstDirective([l] + rest, k + 1)
  {
    var x := [l] + rest;
    forall j | 0 <= j < k + 1 ensures !IsDirective(x[j]) {
      if j > 0 {
        assert x[j] == rest[j - 1];
      }
    }
  }

  /** With no lexeme walked, the starts are those given. */
  lemma RecordsNone(ls: seq<Lexeme>, base: nat, starts: map<string, nat>)
    ensures Records(ls, 0, base, starts, starts)
  {
  }

  /** Walking one more lexeme in front: what the rest records from the
      lexeme's end, with the lexeme's own start added, is what the whole
      records from its start. */
  lemma RecordsCons(x: seq<Lexeme>, l: Lexeme, rest: seq<Lexeme>, k: nat, k1: nat, base: nat, starts: map<string, nat>, starts': map<string, nat>, m: map<string, nat>)
    requires x == [l] + rest && k1 == k + 1
    requires starts' == Recorded(l, starts, base + |Text(l.tok)|)
    requires Records(rest, k, base + |Text(l.tok)|, starts', m)
    ensures Records(x, k1, base, starts, m)
  {
    RecordsConsNames(x, l, rest, k, k1, base, starts, starts', m);
    RecordsConsLast(x, l, rest, k, k1, base, starts, starts', m);
    RecordsConsKept(x, l, rest, k, k1, base, starts, starts', m);
  }

  lemma RecordsConsNames(x: seq<Lexeme>, l: Lexeme, rest: seq<Lexeme>, k: nat, k1: nat, base: nat, starts: map<string, nat>, starts': map<string, nat>, m: map<string, nat>)
    requires x == [l] + rest && k1 == k + 1
    requires starts' == Recorded(l, starts, base + |Text(l.tok)|)
    requires Records(rest, k, base + |Text(l.tok)|, starts', m)
    ensures forall nm :: nm in m <==> nm in starts || exists j :: 0 <= j < k1 && Opens(x[j], nm)
  {
    forall nm ensures nm in m <==> nm in starts || exists j :: 0 <= j < k1 && Opens(x[j], nm) {
      assert x[0] == l;
      assert nm in starts' <==> nm in starts || Opens(l, nm);
      if Opens(l, nm) {
        assert Opens(x[0], nm);
      }
      if exists j :: 0 <= j < k && Opens(rest[j], nm) {
        var j :| 0 <= j < k && Opens(rest[j], nm);
        assert x[j + 1] == rest[j];
      }
      if exists j :: 0 <= j < k1 && Opens(x[j], nm) {
        var j :| 0 <= j < k1 && Opens(x[j], nm);
        if j > 0 {
          assert x[j] == rest[j - 1];
        }
      }
    }
  }

  lemma RecordsConsLast(x: seq<Lexeme>, l: Lexeme, rest: seq<Lexeme>, k: nat, k1: nat, base: nat, starts: map<string, nat>, starts': map<string, nat>, m: map<string, nat>)
    requires x == [l] + rest && k1 == k + 1
    requires starts' == Recorded(l, starts, base + |Text(l.tok)|)
    requires Records(rest, k, base + |Text(l.tok)|, starts', m)
    ensures forall nm, j: nat :: LastOpener(x, k1, nm, j) ==> nm in m && m[nm] == base + Offset(x, j + 1)
  {
    forall nm, j: nat | LastOpener(x, k1, nm, j) ensures nm in m && m[nm] == base + Offset(x, j + 1) {
      if j == 0 {
        assert x[0] == l;
        assert nm in starts' && starts'[nm] == base + |Text(l.tok)|;
        forall j' | 0 <= j' < k ensures !Opens(rest[j'], nm) {
          assert x[j' + 1] == rest[j'];
        }
        OffsetCons(l, rest, 0);
        assert Offset(rest, 0) == 0 by { assert rest[..0] == []; }
      } else {
        forall j' | j - 1 < j' < k ensures !Opens(rest[j'], nm) {
          assert x[j' + 1] == rest[j'];
        }
        assert x[j] == rest[j - 1];
        assert LastOpener(rest, k, nm, j - 1);
        OffsetCons(l, rest, j);
      }
    }
  }

  lemma RecordsConsKept(x: seq<Lexeme>, l: Lexeme, rest: seq<Lexeme>, k: nat, k1: nat, base: nat, starts: map<string, nat>, starts': map<string, nat>, m: map<string, nat>)
    requires x == [l] + rest && k1 == k + 1
    requires starts' == Recorded(l, starts, base + |Text(l.tok)|)
    requires Records(rest, k, base + |Text(l.tok)|, starts', m)
    ensures forall nm :: nm in starts && (forall j :: 0 <= j < k1 ==> !Opens(x[j], nm)) ==> nm in m && m[nm] == starts[nm]
  {
    forall nm | nm in starts && (forall j :: 0 <= j < k1 ==> !Opens(x[j], nm))
      ensures nm in m && m[nm] == starts[nm]
    {
      assert !Opens(x[0], nm);
      forall j | 0 <= j < k ensures !Opens(rest[j], nm) {
        assert x[j + 1] == rest[j];
      }
    }
  }

  /** The scan stops on a first lexeme that is a directive. */
  lemma ScanOutcomeHere(ls: seq<Lexeme>, l: Lexeme, rest: seq<Lexeme>, base: nat, starts: map<string, nat>, h: Option<Hit>)
    requires ls == [l] + rest && IsDirective(l) && h == Some(Hit(base, l.tok, starts))
    ensures ScanOutcome(ls, base, starts, h, 0)
  {
    assert ls[0] == l && !NoDirective(ls);
    assert Offset(ls, 0) == 0 by { assert ls[..0] == []; }
    RecordsNone(ls, base, starts);
  }

  /** The scan passes a first lexeme that is no directive. */
  lemma ScanOutcomeNext(ls: seq<Lexeme>, l: Lexeme, rest: seq<Lexeme>, base: nat, next: nat, starts: map<string, nat>, starts': map<string, nat>, h0: Option<Hit>, h: Option<Hit>, k: nat, k1: nat)
    requires ls == [l] + rest && !IsDirective(l) && next == base + |Text(l.tok)| && k1 == k + 1
    requires starts' == Recorded(l, starts, next)
    requires ScanOutcome(rest, next, starts', h, k) && h0 == h
    ensures ScanOutcome(ls, base, starts, h0, k1)
  {
    NoDirectiveCons(l, rest);
    if h.Some? {
      FirstDirectiveCons(l, rest, k);
      OffsetCons(l, rest, k);
      assert ls[k + 1] == rest[k];
      RecordsCons(ls, l, rest, k, k + 1, base, starts, starts', h.value.starts);
    }
  }

  /** The scan from `i` is the walk over the lexemes from `i`. */
  lemma {:induction false} ScanFromLexemes(s: string, i: nat, classes: nat, starts: map<string, nat>) returns (k: nat)
    requires i <= |s|
    ensures ScanOutcome(LexOn(ScannerToken, s[i..], classes), i, starts, ScanFrom(s, i, classes, starts), k)
    decreases |s| - i, 1
  {
    if i == |s| {
      assert s[i..] == [];
      k := 0;
    } else {
      k := ScanFromLexemesAt(s, i, classes, starts);
    }
  }

  lemma {:induction false} ScanFromLexemesAt(s: string, i: nat, classes: nat, starts: map<string, nat>) returns (k: nat)
    requires i < |s|
    ensures ScanOutcome(LexOn(ScannerToken, s[i..], classes), i, starts, ScanFrom(s, i, classes, starts), k)
    decreases |s| - i, 0
  {
    var t := Lex(ScannerToken, s[i..]);
    var l := Lexeme(t, classes == 0);
    var next := i + |Text(t)|;
    var rest := LexOn(ScannerToken, s[next..], ClassStep(t, classes));
    ScanCons(s, i, classes, t, l, next, rest);
    if IsDirective(l) {
      ScanStepStops(s, i, classes, starts, t);
      ScanOutcomeHere(LexOn(ScannerToken, s[i..], classes), l, rest, i, starts, ScanFrom(s, i, classes, starts));
      k := 0;
    } else {
      var c' := ClassStep(t, classes);
      var starts' := Recorded(l, starts, next);
      ScanFromGoes(s, i, classes, starts, t, next, c', starts');
      var k' := ScanFromLexemes(s, next, c', starts');
      k := k' + 1;
      ScanOutcomeNext(LexOn(ScannerToken, s[i..], classes), l, rest, i, next, starts, starts',
                      ScanFrom(s, i, classes, starts), ScanFrom(s, next, c', starts'), k', k);
    }
  }

  /** The scan of the whole pattern finds nothing exactly when no lexeme
      outside classes is a directive; otherwise it stops at the first one,
      at its offset, and has recorded a start for exactly the names some
      opener before it declares, each the end of the last such opener. */
  lemma ScanCharacterised(s: string)
    ensures var ls := Lexemes(ScannerToken, s);
            && (Scan(s).None? <==> NoDirective(ls))
            && (Scan(s).Some? ==> exists k: nat ::
                  && FirstDirective(ls, k)
                  && Scan(s).value.pos == Offset(ls, k)
                  && Scan(s).value.tok == ls[k].tok
                  && Records(ls, k, 0, map[], Scan(s).value.starts))
  {
    assert s[0..] == s;
    var k := ScanFromLexemes(s, 0, 0, map[]);
  }

  /** The scan steps over a character that opens nothing. */
  lemma ScanPlainStep(s: string, i: nat, starts: map<string, nat>)
    requires i < |s| && s[i] !in "([]\\"
    ensures ScanFrom(s, i, 0, starts) == ScanFrom(s, i + 1, 0, starts)
  {
    ScanStepPlain(s, i, starts);
  }

  lemma ScanStepPlain(s: string, i: nat, starts: map<string, nat>)
    requires i < |s| && s[i] !in "([]\\"
    ensures ScanStep(s, i, 0, starts) == Continue(i + 1, 0, starts)
  {
    assert s[i..][0] == s[i];
    LexPlainChar(ScannerToken, s[i..]);
  }

  /** The scan steps through a plain run one character at a time, outside
      classes, recording nothing. */
  lemma {:induction false} ScanPlainRun(s: string, i: nat, j: nat, starts: map<string, nat>)
    requires i <= j <= |s| && PlainRun(s[i..j])
    ensures ScanFrom(s, i, 0, starts) == ScanFrom(s, j, 0, starts)
    decreases j - i
  {
    if i < j {
      assert s[i] == s[i..j][0];
      assert s[i + 1..j] == s[i..j][1..];
      ScanPlainStep(s, i, starts);
      ScanPlainRun(s, i + 1, j, starts);
    }
  }

  /** A directive the scan can stop at, inside the pattern, with every
      recorded group start before it. */
  predicate ValidHit(s: string, h: Hit) {
    && h.pos + |Text(h.tok)| <= |s|
    && (h.tok.GlobalRecursion? || h.tok.SubRecursion?)
    && forall nm :: nm in h.starts ==> h.starts[nm] <= h.pos
  }

  /** `expression.slice(0, match.index)`: the text before the directive. */
  function Before(s: string, h: Hit): string
    requires ValidHit(s, h)
  {
    s[..h.pos]
  }

  /** `expression.slice(token.lastIndex)`: the text after the directive. */
  function After(s: string, h: Hit): string
    requires ValidHit(s, h)
  {
    s[h.pos + |Text(h.tok)|..]
  }

  /** Where the contents of the group a `\g<name&R=N>` names start. */
  function GroupStart(s: string, h: Hit): nat
    requires ValidHit(s, h) && h.tok.SubRecursion? && h.tok.name in h.starts
  {
    h.starts[h.tok.name]
  }

  /** `recursiveGroupContents`. */
  function Contents(s: string, h: Hit): string
    requires ValidHit(s, h) && h.tok.SubRecursion? && h.tok.name in h.starts
  {
    GroupContents(s, GroupStart(s, h))
  }

  /** The recursed `pre`: from the group's content start to the directive. */
  function SubPre(s: string, h: Hit): string
    requires ValidHit(s, h) && h.tok.SubRecursion? && h.tok.name in h.starts
  {
    s[GroupStart(s, h)..h.pos]
  }

  /** The recursed `post`: the group's contents after `pre` and the
      directive (empty when the contents end sooner). */
  function SubPost(s: string, h: Hit): string
    requires ValidHit(s, h) && h.tok.SubRecursion? && h.tok.name in h.starts
  {
    Drop(Contents(s, h), |SubPre(s, h)| + |Text(h.tok)|)
  }

  /** The checks `recursion` makes on the directive the scan stopped at,
      then the expansion. */
  function Expand(s: string, h: Hit): (r: Result<string, Error>)
    requires ValidHit(s, h)
    ensures r.Failure? ==> r.error != NotProcessed
  {
    if h.tok.GlobalRecursion? then
      var maxDepth :- ParseDepth(h.tok.depth);
      if HasUnescaped(After(s, h), RecursiveToken) then Failure(RecursionUsedTwice)
      else Success(MakeRecursive(Before(s, h), After(s, h), maxDepth, false))
    else
      var maxDepth :- ParseDepth(h.tok.depth);
      if h.tok.name !in h.starts then
        Failure(OutsideReferencedGroup(h.tok.name, h.tok.depth))
      else if !HasUnescaped(Contents(s, h), GRToken) then
        Failure(OutsideReferencedGroup(h.tok.name, h.tok.depth))
      else if HasUnescaped(After(s, h), RecursiveToken) then
        Failure(RecursionUsedTwice)
      else
        Success(Splice(s, GroupStart(s, h), |Contents(s, h)|, MakeRecursive(SubPre(s, h), SubPost(s, h), maxDepth, true)))
  }

  /** `s` with the `len` characters at `start` replaced by `middle`. */
  function Splice(s: string, start: nat, len: nat, middle: string): (r: string)
    requires start + len <= |s|
    ensures |r| == |s| - len + |middle|
    ensures r[..start] == s[..start] && r[start..start + |middle|] == middle
    ensures r[start + |middle|..] == s[start + len..]
  {
    s[..start] + middle + s[start + len..]
  }

  /** `recursion(expression)`. */
  function Recursion(expression: string): (r: Result<string, Error>)
    ensures !HasUnescaped(expression, RecursiveToken) ==> r == Success(expression)
    ensures HasUnescaped(expression, RecursiveToken) && HasUnescaped(expression, NumberedBackrefToken)
            ==> r == Failure(NumberedBackrefWithRecursion)
    ensures HasUnescaped(expression, RecursiveToken) && !HasUnescaped(expression, NumberedBackrefToken)
              && HasUnescaped(expression, DefineToken)
            ==> r == Failure(DefineWithRecursion)
  {
    if !HasUnescaped(expression, RecursiveToken) then
      Success(expression)
    else if HasUnescaped(expression, NumberedBackrefToken) then
      Failure(NumberedBackrefWithRecursion)
    else if HasUnescaped(expression, DefineToken) then
      Failure(DefineWithRecursion)
    else
      match Scan(expression)
      case None => Failure(NotProcessed)
      case Some(h) => Expand(expression, h)
  }

  /** The pre-checks let the scan run: some directive occurs, and no
      numbered backreference or DEFINE group does. */
  predicate PreChecksPass(s: string) {
    HasUnescaped(s, RecursiveToken) && !HasUnescaped(s, NumberedBackrefToken) && !HasUnescaped(s, DefineToken)
  }

  /** The "unexpected" error is thrown exactly when the pre-checks pass but
      no lexeme of the scan, outside classes, is a directive. */
  lemma RecursionNotProcessed(s: string)
    ensures Recursion(s) == Failure(NotProcessed) <==> PreChecksPass(s) && NoDirective(Lexemes(ScannerToken, s))
  {
    ScanCharacterised(s);
  }

  /** The directive the scan stops at lies inside the pattern, spelled
      out at its position. */
  lemma ScanHit(s: string, h: Hit)
    requires Scan(s) == Some(h)
    ensures ValidHit(s, h) && Matches(s, h.pos, h.tok)
  {
    ScanFromMatches(s, 0, 0, map[]);
  }

  /** The pattern is the text before the directive, the directive, and the
      text after it. */
  lemma SplitAtHit(s: string, h: Hit)
    requires ValidHit(s, h) && Matches(s, h.pos, h.tok)
    ensures s == Before(s, h) + Text(h.tok) + After(s, h)
  {
    assert s == s[..h.pos] + s[h.pos..h.pos + |Text(h.tok)|] + s[h.pos + |Text(h.tok)|..];
  }

  /** Once the pre-checks pass, the result is decided by the directive the
      scan stops at. */
  lemma RecursionAtHit(s: string, h: Hit)
    requires PreChecksPass(s) && Scan(s) == Some(h)
    ensures ValidHit(s, h) && Recursion(s) == Expand(s, h)
  {
    ScanHit(s, h);
  }

  /** `(?R=N)` with a depth outside `2..100` or not in canonical decimal. */
  lemma ExpandGlobalDepth(s: string, h: Hit)
    requires ValidHit(s, h) && h.tok.GlobalRecursion? && ParseDepth(h.tok.depth).Failure?
    ensures Expand(s, h) == Failure(InvalidDepth(h.tok.depth))
  {
  }

  /** `(?R=N)` followed by a second directive. */
  lemma ExpandGlobalTwice(s: string, h: Hit)
    requires ValidHit(s, h) && h.tok.GlobalRecursion? && ParseDepth(h.tok.depth).Success?
    requires HasUnescaped(After(s, h), RecursiveToken)
    ensures Expand(s, h) == Failure(RecursionUsedTwice)
  {
  }

  /** `(?R=N)` expanded: `pre`, the nesting of renamed copies (every
      backreference renamed), and `post`. */
  lemma ExpandGlobalNest(s: string, h: Hit)
    requires ValidHit(s, h) && h.tok.GlobalRecursion? && ParseDepth(h.tok.depth).Success?
    requires !HasUnescaped(After(s, h), RecursiveToken)
    ensures var pre, post := Before(s, h), After(s, h);
            Expand(s, h) == Success(pre + Nest(Renaming(pre, None), Renaming(post, None), 0, ParseDepth(h.tok.depth).value - 1) + post)
  {
    MakeRecursiveNests(Before(s, h), After(s, h), ParseDepth(h.tok.depth).value, false);
  }

  /** A `(?R=N)` the scan stops at splits the pattern into `pre`, the
      directive and `post`. */
  lemma GlobalSplit(s: string, h: Hit)
    requires Scan(s) == Some(h) && h.tok.GlobalRecursion?
    ensures ValidHit(s, h) && s == Before(s, h) + "(?R=" + h.tok.depth + ")" + After(s, h)
  {
    ScanHit(s, h);
    SplitAtHit(s, h);
  }

  /** `(?R=N)`: the pattern is `pre`, the directive, `post`; a bad depth or
      a second directive is an error; otherwise the result is `pre`, the
      nesting of renamed copies, and `post`. */
  lemma GlobalExpansion(s: string, h: Hit)
    requires PreChecksPass(s) && Scan(s) == Some(h) && h.tok.GlobalRecursion?
    ensures ValidHit(s, h) && s == Before(s, h) + "(?R=" + h.tok.depth + ")" + After(s, h)
    ensures ParseDepth(h.tok.depth).Failure? ==> Recursion(s) == Failure(InvalidDepth(h.tok.depth))
    ensures ParseDepth(h.tok.depth).Success? && HasUnescaped(After(s, h), RecursiveToken)
            ==> Recursion(s) == Failure(RecursionUsedTwice)
    ensures ParseDepth(h.tok.depth).Success? && !HasUnescaped(After(s, h), RecursiveToken)
            ==> var pre, post := Before(s, h), After(s, h);
                Recursion(s) == Success(pre + Nest(Renaming(pre, None), Renaming(post, None), 0, ParseDepth(h.tok.depth).value - 1) + post)
  {
    GlobalSplit(s, h);
    RecursionAtHit(s, h);
    if ParseDepth(h.tok.depth).Failure? {
      ExpandGlobalDepth(s, h);
    } else if HasUnescaped(After(s, h), RecursiveToken) {
      ExpandGlobalTwice(s, h);
    } else {
      ExpandGlobalNest(s, h);
    }
  }

  /** The global shape of the expansion: when `pre` and `post` hold no
      named group or backreference, `pre (?R=N) post` becomes `pre`,
      `N - 1` copies of `(?:pre`, `(?:)`, `N - 1` copies of `post)`, then
      `post`. */
  lemma ExpandGlobalShape(s: string, h: Hit)
    requires ValidHit(s, h) && h.tok.GlobalRecursion? && ParseDepth(h.tok.depth).Success?
    requires !HasUnescaped(After(s, h), RecursiveToken)
    requires !HasUnescaped(Before(s, h), CaptureOrBackref) && !HasUnescaped(After(s, h), CaptureOrBackref)
    ensures var n, pre, post := ParseDepth(h.tok.depth).value, Before(s, h), After(s, h);
            Expand(s, h) == Success(pre + Power("(?:" + pre, n - 1) + "(?:)" + Power(post + ")", n - 1) + post)
  {
    MakeRecursiveShape(Before(s, h), After(s, h), ParseDepth(h.tok.depth).value, false);
  }

  /** `GlobalShape` for the whole of `recursion`. */
  lemma GlobalShape(s: string, h: Hit)
    requires PreChecksPass(s) && Scan(s) == Some(h) && h.tok.GlobalRecursion?
    requires ParseDepth(h.tok.depth).Success?
    requires ValidHit(s, h) && !HasUnescaped(After(s, h), RecursiveToken)
    requires !HasUnescaped(Before(s, h), CaptureOrBackref) && !HasUnescaped(After(s, h), CaptureOrBackref)
    ensures var n, pre, post := ParseDepth(h.tok.depth).value, Before(s, h), After(s, h);
            Recursion(s) == Success(pre + Power("(?:" + pre, n - 1) + "(?:)" + Power(post + ")", n - 1) + post)
  {
    RecursionAtHit(s, h);
    ExpandGlobalShape(s, h);
  }

  /** `\g<name&R=N>` with a valid depth naming no group opened before it. */
  lemma ExpandSubUnopened(s: string, h: Hit)
    requires ValidHit(s, h) && h.tok.SubRecursion? && ParseDepth(h.tok.depth).Success?
    requires h.tok.name !in h.starts
    ensures Expand(s, h) == Failure(OutsideReferencedGroup(h.tok.name, h.tok.depth))
  {
  }

  /** `\g<name&R=N>` whose group's contents hold no `\g<...&R=...>`. */
  lemma ExpandSubClosed(s: string, h: Hit)
    requires ValidHit(s, h) && h.tok.SubRecursion? && ParseDepth(h.tok.depth).Success?
    requires h.tok.name in h.starts && !HasUnescaped(Contents(s, h), GRToken)
    ensures Expand(s, h) == Failure(OutsideReferencedGroup(h.tok.name, h.tok.depth))
  {
  }

  /** A legal `\g<name&R=N>` is not reported as outside its group. */
  lemma ExpandSubInside(s: string, h: Hit)
    requires ValidHit(s, h) && h.tok.SubRecursion? && ParseDepth(h.tok.depth).Success?
    requires h.tok.name in h.starts && HasUnescaped(Contents(s, h), GRToken)
    ensures Expand(s, h) != Failure(OutsideReferencedGroup(h.tok.name, h.tok.depth))
  {
  }

  /** `\g<name&R=N>` with a valid depth is rejected exactly when no group
      `name` opened before it, or that group's contents hold no
      `\g<...&R=...>` (the group closed before the directive). */
  lemma ReferenceLegality(s: string, h: Hit)
    requires PreChecksPass(s) && Scan(s) == Some(h) && h.tok.SubRecursion?
    requires ParseDepth(h.tok.depth).Success?
    ensures Recursion(s) == Failure(OutsideReferencedGroup(h.tok.name, h.tok.depth)) <==>
            h.tok.name !in h.starts || !HasUnescaped(GroupContents(s, h.starts[h.tok.name]), GRToken)
  {
    RecursionAtHit(s, h);
    if h.tok.name !in h.starts {
      ExpandSubUnopened(s, h);
    } else if !HasUnescaped(Contents(s, h), GRToken) {
      ExpandSubClosed(s, h);
    } else {
      ExpandSubInside(s, h);
    }
  }

  /** Some lexeme among the first `k` opens `name`, so one of them is the
      last to. */
  lemma {:induction false} LastOpenerExists(ls: seq<Lexeme>, k: nat, name: string) returns (j: nat)
    requires k <= |ls| && exists j :: 0 <= j < k && Opens(ls[j], name)
    ensures LastOpener(ls, k, name, j)
  {
    if Opens(ls[k - 1], name) {
      j := k - 1;
    } else {
      j := LastOpenerExists(ls, k - 1, name);
    }
  }

  lemma LastOpenerUnique(ls: seq<Lexeme>, k: nat, name: string, j1: nat, j2: nat)
    requires LastOpener(ls, k, name, j1) && LastOpener(ls, k, name, j2)
    ensures j1 == j2
  {
  }

  /** `ReferenceLegality` read off the lexemes: with `k` the first
      directive, a `\g<name&R=N>` with a valid depth is rejected exactly
      when no opener of `name` comes before it, or the contents of the
      group its last opener starts hold no `\g<...&R=...>`. */
  lemma ReferenceByOpeners(s: string)
    requires PreChecksPass(s) && Scan(s).Some? && Scan(s).value.tok.SubRecursion?
    requires ParseDepth(Scan(s).value.tok.depth).Success?
    ensures var ls, d := Lexemes(ScannerToken, s), Scan(s).value.tok;
            exists k: nat :: FirstDirective(ls, k) && ls[k].tok == d &&
              (Recursion(s) == Failure(OutsideReferencedGroup(d.name, d.depth)) <==>
                 || (forall j :: 0 <= j < k ==> !Opens(ls[j], d.name))
                 || exists j: nat :: LastOpener(ls, k, d.name, j) && Offset(ls, j + 1) <= |s|
                                     && !HasUnescaped(GroupContents(s, Offset(ls, j + 1)), GRToken))
  {
    var ls, h := Lexemes(ScannerToken, s), Scan(s).value;
    var d := h.tok;
    var k := ScanLexemes(s);
    ReferenceLegality(s, h);
    ReferenceFromRecords(s, ls, k, h.starts, d.name, Recursion(s) == Failure(OutsideReferencedGroup(d.name, d.depth)));
  }

  lemma ReferenceFromRecords(s: string, ls: seq<Lexeme>, k: nat, m: map<string, nat>, name: string, rejected: bool)
    requires Records(ls, k, 0, map[], m) && forall nm :: nm in m ==> m[nm] <= |s|
    requires rejected <==> name !in m || !HasUnescaped(GroupContents(s, m[name]), GRToken)
    ensures rejected <==>
              || (forall j :: 0 <= j < k ==> !Opens(ls[j], name))
              || exists j: nat :: LastOpener(ls, k, name, j) && Offset(ls, j + 1) <= |s|
                                  && !HasUnescaped(GroupContents(s, Offset(ls, j + 1)), GRToken)
  {
    if name in m {
      var j := RecordedStart(ls, k, m, name);
    } else {
      NotRecorded(ls, k, m, name);
    }
  }

  /** The scan of the whole pattern is the walk over its lexemes. */
  lemma ScanLexemes(s: string) returns (k: nat)
    ensures ScanOutcome(Lexemes(ScannerToken, s), 0, map[], Scan(s), k)
  {
    assert s[0..] == s;
    k := ScanFromLexemes(s, 0, 0, map[]);
  }

  /** A recorded start is the end of the one last opener of its name. */
  lemma RecordedStart(ls: seq<Lexeme>, k: nat, m: map<string, nat>, name: string) returns (j: nat)
    requires Records(ls, k, 0, map[], m) && name in m
    ensures LastOpener(ls, k, name, j) && m[name] == Offset(ls, j + 1)
    ensures forall j': nat :: LastOpener(ls, k, name, j') ==> j' == j
  {
    j := LastOpenerExists(ls, k, name);
    forall j': nat | LastOpener(ls, k, name, j') ensures j' == j {
      LastOpenerUnique(ls, k, name, j, j');
    }
  }

  /** A name with no recorded start has no opener. */
  lemma NotRecorded(ls: seq<Lexeme>, k: nat, m: map<string, nat>, name: string)
    requires Records(ls, k, 0, map[], m) && name !in m
    ensures forall j :: 0 <= j < k ==> !Opens(ls[j], name)
  {
  }

  /** A legal `\g<name&R=N>` followed by a second directive. */
  lemma ExpandSubTwice(s: string, h: Hit)
    requires ValidHit(s, h) && h.tok.SubRecursion? && ParseDepth(h.tok.depth).Success?
    requires h.tok.name in h.starts && HasUnescaped(Contents(s, h), GRToken)
    requires HasUnescaped(After(s, h), RecursiveToken)
    ensures Expand(s, h) == Failure(RecursionUsedTwice)
  {
  }

  /** A legal `\g<name&R=N>` expanded: only the group's contents change,
      into `pre`, the nesting of renamed copies (backreferences renamed
      only when they name a group declared in `pre + post`), and `post`. */
  lemma ExpandSubNest(s: string, h: Hit)
    requires ValidHit(s, h) && h.tok.SubRecursion? && ParseDepth(h.tok.depth).Success?
    requires h.tok.name in h.starts && HasUnescaped(Contents(s, h), GRToken)
    requires !HasUnescaped(After(s, h), RecursiveToken)
    ensures var pre, post, start := SubPre(s, h), SubPost(s, h), GroupStart(s, h);
            var scope := Some(CaptureNames(pre + post));
            Expand(s, h) == Success(Splice(s, start, |Contents(s, h)|,
                                           pre + Nest(Renaming(pre, scope), Renaming(post, scope), 0, ParseDepth(h.tok.depth).value - 1) + post))
  {
    ExpandSubMakes(s, h);
    MakeRecursiveNests(SubPre(s, h), SubPost(s, h), ParseDepth(h.tok.depth).value, true);
  }

  /** A legal `\g<name&R=N>` hands the group's contents to `makeRecursive`. */
  lemma ExpandSubMakes(s: string, h: Hit)
    requires ValidHit(s, h) && h.tok.SubRecursion? && ParseDepth(h.tok.depth).Success?
    requires h.tok.name in h.starts && HasUnescaped(Contents(s, h), GRToken)
    requires !HasUnescaped(After(s, h), RecursiveToken)
    ensures Expand(s, h) == Success(Splice(s, GroupStart(s, h), |Contents(s, h)|,
                                           MakeRecursive(SubPre(s, h), SubPost(s, h), ParseDepth(h.tok.depth).value, true)))
  {
  }

  /** `\g<name&R=N>` inside its group: the group's opener `(?<name>` ends
      where its contents start; a second directive is an error; otherwise
      only the contents change. */
  lemma SubpatternExpansion(s: string, h: Hit)
    requires PreChecksPass(s) && Scan(s) == Some(h) && h.tok.SubRecursion?
    requires ParseDepth(h.tok.depth).Success?
    requires h.tok.name in h.starts && HasUnescaped(GroupContents(s, h.starts[h.tok.name]), GRToken)
    ensures ValidHit(s, h) && GroupStart(s, h) <= h.pos && OpenerEndsAt(s, h.tok.name, GroupStart(s, h))
    ensures HasUnescaped(After(s, h), RecursiveToken) ==> Recursion(s) == Failure(RecursionUsedTwice)
    ensures !HasUnescaped(After(s, h), RecursiveToken) ==>
              var pre, post, start := SubPre(s, h), SubPost(s, h), GroupStart(s, h);
              var scope := Some(CaptureNames(pre + post));
              Recursion(s) == Success(Splice(s, start, |Contents(s, h)|,
                                             pre + Nest(Renaming(pre, scope), Renaming(post, scope), 0, ParseDepth(h.tok.depth).value - 1) + post))
  {
    RecursionAtHit(s, h);
    ScanStarts(s);
    if HasUnescaped(After(s, h), RecursiveToken) {
      ExpandSubTwice(s, h);
    } else {
      ExpandSubNest(s, h);
    }
  }

  /** The subpattern shape of the expansion: when the recursed `pre` and
      `post` hold no named group or backreference, the group's contents
      become `pre`, `N - 1` copies of `(?:pre`, `(?:)`, `N - 1` copies of
      `post)`, then `post`. */
  lemma ExpandSubShape(s: string, h: Hit)
    requires ValidHit(s, h) && h.tok.SubRecursion? && ParseDepth(h.tok.depth).Success?
    requires h.tok.name in h.starts && HasUnescaped(Contents(s, h), GRToken)
    requires !HasUnescaped(After(s, h), RecursiveToken)
    requires !HasUnescaped(SubPre(s, h), CaptureOrBackref) && !HasUnescaped(SubPost(s, h), CaptureOrBackref)
    ensures var n, pre, post := ParseDepth(h.tok.depth).value, SubPre(s, h), SubPost(s, h);
            Expand(s, h) == Success(Splice(s, GroupStart(s, h), |Contents(s, h)|,
                                           pre + Power("(?:" + pre, n - 1) + "(?:)" + Power(post + ")", n - 1) + post))
  {
    ExpandSubMakes(s, h);
    MakeRecursiveShape(SubPre(s, h), SubPost(s, h), ParseDepth(h.tok.depth).value, true);
  }

  /** `ExpandSubShape` for the whole of `recursion`. */
  lemma SubShape(s: string, h: Hit)
    requires PreChecksPass(s) && Scan(s) == Some(h) && h.tok.SubRecursion?
    requires ParseDepth(h.tok.depth).Success?
    requires ValidHit(s, h) && h.tok.name in h.starts && HasUnescaped(Contents(s, h), GRToken)
    requires !HasUnescaped(After(s, h), RecursiveToken)
    requires !HasUnescaped(SubPre(s, h), CaptureOrBackref) && !HasUnescaped(SubPost(s, h), CaptureOrBackref)
    ensures var n, pre, post := ParseDepth(h.tok.depth).value, SubPre(s, h), SubPost(s, h);
            Recursion(s) == Success(Splice(s, GroupStart(s, h), |Contents(s, h)|,
                                           pre + Power("(?:" + pre, n - 1) + "(?:)" + Power(post + ")", n - 1) + post))
  {
    RecursionAtHit(s, h);
    ExpandSubShape(s, h);
  }

  /** `\g<name&R=N>` with a depth outside `2..100` or not in canonical
      decimal. */
  lemma ExpandSubDepth(s: string, h: Hit)
    requires ValidHit(s, h) && h.tok.SubRecursion? && ParseDepth(h.tok.depth).Failure?
    ensures Expand(s, h) == Failure(InvalidDepth(h.tok.depth))
  {
  }

  /** When the referenced group spans the directive, its contents are
      exactly `pre`, the directive and `post`, and what follows them is the
      group's `)` or the end of the pattern: the expansion rewrites the
      group's contents and nothing else. */
  lemma SubpatternContents(s: string, h: Hit)
    requires ValidHit(s, h) && h.tok.SubRecursion? && h.tok.name in h.starts
    requires GroupStart(s, h) + |Contents(s, h)| >= h.pos + |Text(h.tok)|
    requires Matches(s, h.pos, h.tok)
    ensures Contents(s, h) == SubPre(s, h) + Text(h.tok) + SubPost(s, h)
    ensures Splice(s, GroupStart(s, h), |Contents(s, h)|, Contents(s, h)) == s
  {
    var start := GroupStart(s, h);
    var contents := Contents(s, h);
    var pre := SubPre(s, h);
    var m := |pre| + |Text(h.tok)|;
    assert contents == s[start..start + |contents|];
    assert contents[..|pre|] == pre;
    assert contents[|pre|..m] == s[h.pos..h.pos + |Text(h.tok)|];
    assert contents == contents[..|pre|] + contents[|pre|..m] + contents[m..];
    assert s == s[..start] + contents + s[start + |contents|..];
  }
}
