/** Patterns spelled from atoms: plain characters, escapes, named group
    openers, named backreferences and the two directives. Every scan of the
    expansion reads each atom the same way wherever it stands, so what
    `recursion` does to such a pattern can be read off its atoms: which
    needles it holds, which groups it declares, where the scan stops, where a
    group ends, and what the renaming of `repeatWithDepth` (`src/index.js`
    lines 140-156) writes. */
module Atoms {
  import opened Wrappers
  import opened Lexical
  import opened Unescaped
  import opened Unroll
  import opened Expansion
  import opened Shapes

  datatype Atom =
    | Char(c: char)                         // a character that opens nothing
    | Escape(c: char)                       // a backslash and the character it escapes
    | Group(name: string)                   // `(?<name>`
    | Ref(name: string)                     // `\k<name>`
    | Recurse(name: string, depth: string)  // `\g<name&R=depth>`
    | RecurseAll(depth: string)             // `(?R=depth)`

  /** The token an atom stands for. */
  function AtomToken(a: Atom): Token {
    match a
    case Char(c) => Plain([c])
    case Escape(c) => Plain(['\\', c])
    case Group(n) => CaptureOpen(n)
    case Ref(n) => Backref(n)
    case Recurse(n, d) => SubRecursion(n, d)
    case RecurseAll(d) => GlobalRecursion(d)
  }

  /** The pattern text the atoms spell. */
  function Spell(xs: seq<Atom>): string {
    if |xs| == 0 then [] else Text(AtomToken(xs[0])) + Spell(xs[1..])
  }

  /** An atom every scan reads alike: a character is not `(`, class syntax
      or a backslash; an escape does not start a `\g<`, `\k<` or numbered
      backreference; names and depths are well formed and free of group
      and class syntax and of backslashes. */
  predicate ValidAtom(a: Atom) {
    match a
    case Char(c) => c !in "([]\\"
    case Escape(c) => c !in "gk123456789"
    case Group(n) => WellFormed(CaptureOpen(n)) && Inert(n)
    case Ref(n) => WellFormed(Backref(n)) && Inert(n)
    case Recurse(n, d) => WellFormed(SubRecursion(n, d)) && Inert(n) && Inert(d)
    case RecurseAll(d) => WellFormed(GlobalRecursion(d)) && Inert(d)
  }

  predicate ValidAtoms(xs: seq<Atom>) {
    forall i :: 0 <= i < |xs| ==> ValidAtom(xs[i])
  }

  lemma {:induction false} SpellAppend(xs: seq<Atom>, ys: seq<Atom>)
    ensures Spell(xs + ys) == Spell(xs) + Spell(ys)
  {
    if |xs| == 0 {
      assert xs + ys == ys;
    } else {
      assert (xs + ys)[0] == xs[0] && (xs + ys)[1..] == xs[1..] + ys;
      SpellAppend(xs[1..], ys);
    }
  }

  lemma ValidCons(a: Atom, xs: seq<Atom>)
    ensures ValidAtoms([a] + xs) <==> ValidAtom(a) && ValidAtoms(xs)
  {
    assert ([a] + xs)[0] == a;
    if ValidAtom(a) && ValidAtoms(xs) {
      forall i | 0 <= i < |[a] + xs| ensures ValidAtom(([a] + xs)[i]) {
        if i > 0 {
          assert ([a] + xs)[i] == xs[i - 1];
        }
      }
    }
    if ValidAtoms([a] + xs) {
      forall i | 0 <= i < |xs| ensures ValidAtom(xs[i]) {
        assert ([a] + xs)[i + 1] == xs[i];
      }
    }
  }

  lemma SpellCons(a: Atom, xs: seq<Atom>)
    ensures Spell([a] + xs) == Text(AtomToken(a)) + Spell(xs)
  {
    assert ([a] + xs)[0] == a && ([a] + xs)[1..] == xs;
  }

  // Lexing: what the scan for each needle reads in an atom.

  /** Plain lexemes outside classes, one per character of `x`. */
  function Chars(x: string): seq<Lexeme> {
    if |x| == 0 then [] else [Lexeme(Plain([x[0]]), true)] + Chars(x[1..])
  }

  /** A character that opens nothing is one plain lexeme. */
  lemma CharLexOn(n: Needle, c: char, rest: string, u: string)
    requires c !in "([]\\" && u == [c] + rest
    ensures LexOn(n, u, 0) == [Lexeme(Plain([c]), true)] + LexOn(n, rest, 0)
  {
    assert u[0] == c && u[1..] == rest;
    NoNeedleAtOther(n, u);
    LexOnInertStep(n, u, 0);
  }

  /** A plain run is read one character at a time, whatever follows it. */
  lemma {:induction false} CharsLexOn(n: Needle, x: string, rest: string)
    requires PlainRun(x)
    ensures LexOn(n, x + rest, 0) == Chars(x) + LexOn(n, rest, 0)
    decreases |x|
  {
    if |x| == 0 {
      assert x + rest == rest;
    } else {
      var y := x[1..];
      assert x + rest == [x[0]] + (y + rest);
      CharLexOn(n, x[0], y + rest, x + rest);
      CharsLexOn(n, y, rest);
      CharsJoin(x, LexOn(n, x + rest, 0), LexOn(n, y + rest, 0), LexOn(n, rest, 0));
    }
  }

  lemma CharsJoin(x: string, a: seq<Lexeme>, b: seq<Lexeme>, c: seq<Lexeme>)
    requires |x| > 0 && a == [Lexeme(Plain([x[0]]), true)] + b && b == Chars(x[1..]) + c
    ensures a == Chars(x) + c
  {
    var l := Lexeme(Plain([x[0]]), true);
    assert Chars(x) == [l] + Chars(x[1..]);
    SeqAssoc([l], Chars(x[1..]), c);
  }

  lemma SeqAssoc<T>(a: seq<T>, b: seq<T>, c: seq<T>)
    ensures a + (b + c) == (a + b) + c
  {
  }

  lemma {:induction false} CharsPlain(x: string)
    ensures forall l :: l in Chars(x) ==> l.tok.Plain? && l.outside
    ensures Render(Chars(x), "", None) == x
    ensures !AnyHit(Chars(x))
  {
    if |x| > 0 {
      CharsPlain(x[1..]);
      AnyHitCons(Lexeme(Plain([x[0]]), true), Chars(x[1..]));
    }
  }

  lemma {:induction false} RenderChars(x: string, tag: string, scope: Option<set<string>>)
    ensures Render(Chars(x), tag, scope) == x
  {
    if |x| > 0 {
      RenderChars(x[1..], tag, scope);
      RenderCons(Lexeme(Plain([x[0]]), true), Chars(x[1..]), tag, scope);
    }
  }

  lemma PlainAround(x: string, y: string, z: string)
    requires PlainRun(x) && Inert(y) && PlainRun(z)
    ensures PlainRun(x + y + z)
  {
    var w := x + y + z;
    forall k | 0 <= k < |w| ensures w[k] !in "([]\\" {
      if k < |x| {
        assert w[k] == x[k];
      } else if k < |x| + |y| {
        assert w[k] == y[k - |x|];
      } else {
        assert w[k] == z[k - |x| - |y|];
      }
    }
  }

  /** The lexemes the scan for needle `n` reads in atom `a`: the atom
      whole when it is plain text or of a kind the needle matches;
      otherwise its first character (or escape), then plain characters. */
  function AtomLexemes(n: Needle, a: Atom): seq<Lexeme> {
    var t := AtomToken(a);
    if t.Plain? || NeedleKind(n, t) then [Lexeme(t, true)]
    else
      match a
      case Group(nm) => [Lexeme(Plain("("), true)] + Chars("?<" + nm + ">")
      case Ref(nm) => [Lexeme(Plain("\\k"), true)] + Chars("<" + nm + ">")
      case Recurse(nm, d) => [Lexeme(Plain("\\g"), true)] + Chars("<" + nm + "&R=" + d + ">")
      case RecurseAll(d) => [Lexeme(Plain("("), true)] + Chars("?R=" + d + ")")
      case _ => [Lexeme(t, true)]
  }

  function SpellLexemes(n: Needle, xs: seq<Atom>): seq<Lexeme> {
    if |xs| == 0 then [] else AtomLexemes(n, xs[0]) + SpellLexemes(n, xs[1..])
  }

  lemma LexEscape(n: Needle, c: char, rest: string)
    requires c !in "gk123456789"
    ensures Lex(n, ['\\', c] + rest) == Plain(['\\', c])
  {
    var u := ['\\', c] + rest;
    assert u[0] == '\\' && u[1] == c;
    assert u[..2] == ['\\', c];
    if |u| >= 3 {
      assert u[..3][0] == '\\';
    }
    if |u| >= 4 {
      assert u[..4][0] == '\\';
    }
    if |u| >= 10 {
      assert u[..10][0] == '\\';
    }
  }

  lemma LexGroup(n: Needle, nm: string, rest: string)
    requires WellFormed(CaptureOpen(nm))
    ensures Lex(n, Text(CaptureOpen(nm)) + rest) ==
            if NeedleKind(n, CaptureOpen(nm)) then CaptureOpen(nm) else Plain("(")
  {
    var u := Text(CaptureOpen(nm)) + rest;
    assert u[0] == '(' && u[1] == '?' && u[2] == '<';
    CaptureOpenRecognised(nm, rest);
    assert u[..1] == "(";
    if |u| >= 10 {
      assert u[..10][2] == '<';
    }
  }

  lemma LexRef(n: Needle, nm: string, rest: string)
    requires WellFormed(Backref(nm))
    ensures Lex(n, Text(Backref(nm)) + rest) ==
            if NeedleKind(n, Backref(nm)) then Backref(nm) else Plain("\\k")
  {
    var u := Text(Backref(nm)) + rest;
    assert u[0] == '\\' && u[1] == 'k' && u[2] == '<';
    BackrefRecognised(nm, rest);
    assert u[..2] == "\\k";
  }

  lemma LexRecurse(n: Needle, nm: string, d: string, rest: string)
    requires WellFormed(SubRecursion(nm, d))
    ensures Lex(n, Text(SubRecursion(nm, d)) + rest) ==
            if NeedleKind(n, SubRecursion(nm, d)) then SubRecursion(nm, d) else Plain("\\g")
  {
    var u := Text(SubRecursion(nm, d)) + rest;
    assert u[0] == '\\' && u[1] == 'g' && u[2] == '<';
    SubRecursionRecognised(nm, d, rest);
    assert u[..2] == "\\g";
  }

  lemma LexRecurseAll(n: Needle, d: string, rest: string)
    requires WellFormed(GlobalRecursion(d))
    ensures Lex(n, Text(GlobalRecursion(d)) + rest) ==
            if NeedleKind(n, GlobalRecursion(d)) then GlobalRecursion(d) else Plain("(")
  {
    var u := Text(GlobalRecursion(d)) + rest;
    assert u[0] == '(' && u[1] == '?' && u[2] == 'R' && u[3] == '=';
    GlobalRecursionRecognised(d, rest);
    assert u[..1] == "(";
    if |u| >= 10 {
      assert u[..10][2] == 'R';
    }
  }

  /** A token read whole at the start of `u`, outside classes. */
  lemma TokenLexOn(n: Needle, t: Token, rest: string, u: string)
    requires u == Text(t) + rest && |Text(t)| > 0 && Lex(n, u) == t && !IsChar(t, '[')
    ensures LexOn(n, u, 0) == [Lexeme(t, true)] + LexOn(n, rest, 0)
  {
    LexOnCons(n, u, 0);
    assert u[|Text(t)|..] == rest;
  }

  /** A plain token `head` read at the start of `u`, then a plain run. */
  lemma HeadLexOn(n: Needle, head: string, tail: string, rest: string, u: string)
    requires u == head + (tail + rest) && |head| == 2 && Lex(n, u) == Plain(head) && PlainRun(tail)
    ensures LexOn(n, u, 0) == ([Lexeme(Plain(head), true)] + Chars(tail)) + LexOn(n, rest, 0)
  {
    TokenLexOn(n, Plain(head), tail + rest, u);
    CharsLexOn(n, tail, rest);
    SeqAssoc([Lexeme(Plain(head), true)], Chars(tail), LexOn(n, rest, 0));
  }

  /** `HeadLexOn` for a head `(`. */
  lemma ParenLexOn(n: Needle, tail: string, rest: string, u: string)
    requires u == "(" + (tail + rest) && Lex(n, u) == Plain("(") && PlainRun(tail)
    ensures LexOn(n, u, 0) == ([Lexeme(Plain("("), true)] + Chars(tail)) + LexOn(n, rest, 0)
  {
    TokenLexOn(n, Plain("("), tail + rest, u);
    CharsLexOn(n, tail, rest);
    SeqAssoc([Lexeme(Plain("("), true)], Chars(tail), LexOn(n, rest, 0));
  }

  lemma CharAtomLexOn(n: Needle, a: Atom, rest: string)
    requires a.Char? && ValidAtom(a)
    ensures LexOn(n, Text(AtomToken(a)) + rest, 0) == AtomLexemes(n, a) + LexOn(n, rest, 0)
  {
    assert Text(AtomToken(a)) == [a.c];
    assert AtomLexemes(n, a) == [Lexeme(Plain([a.c]), true)];
    CharLexOn(n, a.c, rest, [a.c] + rest);
  }

  lemma EscapeAtomLexOn(n: Needle, a: Atom, rest: string)
    requires a.Escape? && ValidAtom(a)
    ensures LexOn(n, Text(AtomToken(a)) + rest, 0) == AtomLexemes(n, a) + LexOn(n, rest, 0)
  {
    assert Text(AtomToken(a)) == ['\\', a.c];
    assert AtomLexemes(n, a) == [Lexeme(Plain(['\\', a.c]), true)];
    EscapeLexOn(n, a.c, rest);
  }

  lemma EscapeLexOn(n: Needle, c: char, rest: string)
    requires c !in "gk123456789"
    ensures LexOn(n, ['\\', c] + rest, 0) == [Lexeme(Plain(['\\', c]), true)] + LexOn(n, rest, 0)
  {
    LexEscape(n, c, rest);
    TokenLexOn(n, Plain(['\\', c]), rest, ['\\', c] + rest);
  }

  lemma GroupLexOn(n: Needle, nm: string, rest: string)
    requires ValidAtom(Group(nm))
    ensures LexOn(n, Text(CaptureOpen(nm)) + rest, 0) == AtomLexemes(n, Group(nm)) + LexOn(n, rest, 0)
  {
    var u := Text(CaptureOpen(nm)) + rest;
    LexGroup(n, nm, rest);
    if NeedleKind(n, CaptureOpen(nm)) {
      TokenLexOn(n, CaptureOpen(nm), rest, u);
    } else {
      var tail := "?<" + nm + ">";
      assert u == "(" + (tail + rest);
      PlainAround("?<", nm, ">");
      ParenLexOn(n, tail, rest, u);
    }
  }

  lemma RefLexOn(n: Needle, nm: string, rest: string)
    requires ValidAtom(Ref(nm))
    ensures LexOn(n, Text(Backref(nm)) + rest, 0) == AtomLexemes(n, Ref(nm)) + LexOn(n, rest, 0)
  {
    var u := Text(Backref(nm)) + rest;
    LexRef(n, nm, rest);
    if NeedleKind(n, Backref(nm)) {
      TokenLexOn(n, Backref(nm), rest, u);
    } else {
      var tail := "<" + nm + ">";
      assert u == "\\k" + (tail + rest);
      PlainAround("<", nm, ">");
      HeadLexOn(n, "\\k", tail, rest, u);
    }
  }

  lemma RecurseLexOn(n: Needle, nm: string, d: string, rest: string)
    requires ValidAtom(Recurse(nm, d))
    ensures LexOn(n, Text(SubRecursion(nm, d)) + rest, 0) == AtomLexemes(n, Recurse(nm, d)) + LexOn(n, rest, 0)
  {
    var u := Text(SubRecursion(nm, d)) + rest;
    LexRecurse(n, nm, d, rest);
    if NeedleKind(n, SubRecursion(nm, d)) {
      TokenLexOn(n, SubRecursion(nm, d), rest, u);
    } else {
      RecurseTail(nm, d, rest, u);
      HeadLexOn(n, "\\g", "<" + nm + "&R=" + d + ">", rest, u);
    }
  }

  lemma RecurseTail(nm: string, d: string, rest: string, u: string)
    requires Inert(nm) && Inert(d) && u == Text(SubRecursion(nm, d)) + rest
    ensures var tail := "<" + nm + "&R=" + d + ">"; u == "\\g" + (tail + rest) && PlainRun(tail)
  {
    PlainAround("<", nm, "&R=");
    PlainAround("<" + nm + "&R=", d, ">");
    RecurseSplit(nm, d, rest, u);
  }

  lemma RecurseSplit(nm: string, d: string, rest: string, u: string)
    requires u == Text(SubRecursion(nm, d)) + rest
    ensures u == "\\g" + ("<" + nm + "&R=" + d + ">" + rest)
  {
    assert "\\g<" == "\\g" + "<";
    Reassoc("\\g", "<", nm, "&R=", d, ">", rest);
  }

  /** A string enclosed in parentheses, and its inside. */
  lemma Enclosed(x: string, m: string)
    requires x == "(" + m + ")"
    ensures |x| >= 2 && x[0] == '(' && x[|x| - 1] == ')' && x[..|x| - 1][1..] == m
  {
    assert x[..|x| - 1][1..] == x[1..|x| - 1];
  }

  lemma Reassoc(a: string, b: string, c: string, d: string, e: string, f: string, g: string)
    ensures a + b + c + d + e + f + g == a + (b + c + d + e + f + g)
  {
  }

  lemma RecurseAllLexOn(n: Needle, d: string, rest: string)
    requires ValidAtom(RecurseAll(d))
    ensures LexOn(n, Text(GlobalRecursion(d)) + rest, 0) == AtomLexemes(n, RecurseAll(d)) + LexOn(n, rest, 0)
  {
    var u := Text(GlobalRecursion(d)) + rest;
    LexRecurseAll(n, d, rest);
    if NeedleKind(n, GlobalRecursion(d)) {
      TokenLexOn(n, GlobalRecursion(d), rest, u);
    } else {
      var tail := "?R=" + d + ")";
      assert u == "(" + (tail + rest);
      PlainAround("?R=", d, ")");
      ParenLexOn(n, tail, rest, u);
    }
  }

  /** An atom followed by `rest` is read as the atom's lexemes, then those
      of `rest`. */
  lemma AtomLexOn(n: Needle, a: Atom, rest: string)
    requires ValidAtom(a)
    ensures LexOn(n, Text(AtomToken(a)) + rest, 0) == AtomLexemes(n, a) + LexOn(n, rest, 0)
  {
    if a.Char? {
      CharAtomLexOn(n, a, rest);
    } else if a.Escape? {
      EscapeAtomLexOn(n, a, rest);
    } else {
      KeyedAtomLexOn(n, a, rest);
    }
  }

  lemma KeyedAtomLexOn(n: Needle, a: Atom, rest: string)
    requires ValidAtom(a) && !a.Char? && !a.Escape?
    ensures LexOn(n, Text(AtomToken(a)) + rest, 0) == AtomLexemes(n, a) + LexOn(n, rest, 0)
  {
    match a
    case Group(nm) => GroupLexOn(n, nm, rest);
    case Ref(nm) => RefLexOn(n, nm, rest);
    case Recurse(nm, d) => RecurseLexOn(n, nm, d, rest);
    case RecurseAll(d) => RecurseAllLexOn(n, d, rest);
  }

  /** Text spelled from atoms, followed by `rest`, is read atom by atom,
      then `rest` is read as if on its own: no needle match spans the
      boundary. */
  lemma {:induction false} SpellLexOn(n: Needle, xs: seq<Atom>, rest: string)
    requires ValidAtoms(xs)
    ensures LexOn(n, Spell(xs) + rest, 0) == SpellLexemes(n, xs) + LexOn(n, rest, 0)
  {
    if |xs| == 0 {
      assert Spell(xs) + rest == rest;
    } else {
      var ys := xs[1..];
      assert Spell(xs) + rest == Text(AtomToken(xs[0])) + (Spell(ys) + rest);
      AtomLexOn(n, xs[0], Spell(ys) + rest);
      SpellLexOn(n, ys, rest);
      SeqAssoc(AtomLexemes(n, xs[0]), SpellLexemes(n, ys), LexOn(n, rest, 0));
    }
  }

  // Needles: a spelled pattern holds a needle match exactly when one of its
  // atoms is of a kind the needle matches.

  /** Some atom of `xs` is of a kind needle `n` matches. */
  predicate Sees(n: Needle, xs: seq<Atom>) {
    |xs| > 0 && (NeedleKind(n, AtomToken(xs[0])) || Sees(n, xs[1..]))
  }

  lemma SeesCons(n: Needle, a: Atom, xs: seq<Atom>)
    ensures Sees(n, [a] + xs) <==> NeedleKind(n, AtomToken(a)) || Sees(n, xs)
  {
    assert ([a] + xs)[0] == a && ([a] + xs)[1..] == xs;
  }

  lemma {:induction false} SeesAppend(n: Needle, xs: seq<Atom>, ys: seq<Atom>)
    ensures Sees(n, xs + ys) <==> Sees(n, xs) || Sees(n, ys)
  {
    if |xs| == 0 {
      assert xs + ys == ys;
    } else {
      assert (xs + ys)[0] == xs[0] && (xs + ys)[1..] == xs[1..] + ys;
      SeesAppend(n, xs[1..], ys);
    }
  }

  lemma AnyHitAppend(a: seq<Lexeme>, b: seq<Lexeme>)
    ensures AnyHit(a + b) <==> AnyHit(a) || AnyHit(b)
  {
    if AnyHit(a) {
      var k :| 0 <= k < |a| && IsHit(a[k]);
      assert (a + b)[k] == a[k];
    }
    if AnyHit(b) {
      var k :| 0 <= k < |b| && IsHit(b[k]);
      assert (a + b)[|a| + k] == b[k];
    }
    if AnyHit(a + b) {
      var k :| 0 <= k < |a + b| && IsHit((a + b)[k]);
      if k < |a| {
        assert a[k] == (a + b)[k];
      } else {
        assert b[k - |a|] == (a + b)[k];
      }
    }
  }

  lemma AtomHits(n: Needle, a: Atom)
    ensures AnyHit(AtomLexemes(n, a)) <==> NeedleKind(n, AtomToken(a))
  {
    var t := AtomToken(a);
    if t.Plain? || NeedleKind(n, t) {
      AnyHitCons(Lexeme(t, true), []);
    } else {
      var head, tail := AtomLexemes(n, a)[0], AtomLexemes(n, a)[1..];
      assert AtomLexemes(n, a) == [head] + tail;
      assert head.tok.Plain?;
      match a
      case Group(nm) => CharsPlain("?<" + nm + ">");
      case Ref(nm) => CharsPlain("<" + nm + ">");
      case Recurse(nm, d) => CharsPlain("<" + nm + "&R=" + d + ">");
      case RecurseAll(d) => CharsPlain("?R=" + d + ")");
      AnyHitCons(head, tail);
    }
  }

  lemma {:induction false} SpellHits(n: Needle, xs: seq<Atom>)
    ensures AnyHit(SpellLexemes(n, xs)) <==> Sees(n, xs)
  {
    if |xs| > 0 {
      SpellHits(n, xs[1..]);
      AtomHits(n, xs[0]);
      AnyHitAppend(AtomLexemes(n, xs[0]), SpellLexemes(n, xs[1..]));
    }
  }

  /** The scan of a spelled pattern reads its atoms one by one. */
  lemma SpellLexemesAre(n: Needle, xs: seq<Atom>)
    requires ValidAtoms(xs)
    ensures Lexemes(n, Spell(xs)) == SpellLexemes(n, xs)
  {
    SpellLexOn(n, xs, []);
    assert Spell(xs) + [] == Spell(xs);
  }

  /** `hasUnescaped(spelled, needle)` holds exactly when some atom is of a
      kind the needle matches. */
  lemma SpelledHas(n: Needle, xs: seq<Atom>)
    requires ValidAtoms(xs)
    ensures HasUnescaped(Spell(xs), n) <==> Sees(n, xs)
  {
    SpellLexemesAre(n, xs);
    SpellHits(n, xs);
  }

  /** No atom is a numbered backreference or a DEFINE opener. */
  lemma {:induction false} SeesNoOther(xs: seq<Atom>)
    ensures !Sees(NumberedBackrefToken, xs) && !Sees(DefineToken, xs)
  {
    if |xs| > 0 {
      SeesNoOther(xs[1..]);
    }
  }

  // The renaming of `repeatWithDepth`, read off the atoms.

  /** The renaming on one atom: a group opener always gets the tag after
      its name; a backreference gets it unless `scope` is given and lacks
      its name; nothing else changes. */
  function Rename(a: Atom, tag: string, scope: Option<set<string>>): Atom {
    match a
    case Group(nm) => Group(nm + tag)
    case Ref(nm) => if scope.Some? && nm !in scope.value then a else Ref(nm + tag)
    case _ => a
  }

  function Renames(xs: seq<Atom>, tag: string, scope: Option<set<string>>): (ys: seq<Atom>)
    ensures |ys| == |xs|
  {
    if |xs| == 0 then [] else [Rename(xs[0], tag, scope)] + Renames(xs[1..], tag, scope)
  }

  lemma RenamesCons(a: Atom, xs: seq<Atom>, tag: string, scope: Option<set<string>>)
    ensures Renames([a] + xs, tag, scope) == [Rename(a, tag, scope)] + Renames(xs, tag, scope)
  {
    assert ([a] + xs)[0] == a && ([a] + xs)[1..] == xs;
  }

  lemma RenderAtom(a: Atom, tag: string, scope: Option<set<string>>)
    ensures Render(AtomLexemes(CaptureOrBackref, a), tag, scope) == Text(AtomToken(Rename(a, tag, scope)))
  {
    var t := AtomToken(a);
    if t.Plain? || NeedleKind(CaptureOrBackref, t) {
      RenderWhole(a, t, tag, scope);
    } else if a.Recurse? {
      RenderRecurse(a, tag, scope);
    } else {
      RenderRecurseAll(a, tag, scope);
    }
  }

  lemma RenderRecurse(a: Atom, tag: string, scope: Option<set<string>>)
    requires a.Recurse?
    ensures Render(AtomLexemes(CaptureOrBackref, a), tag, scope) == Text(AtomToken(Rename(a, tag, scope)))
  {
    RenderPlainHead(a, "\\g", "<" + a.name + "&R=" + a.depth + ">", tag, scope);
  }

  lemma RenderRecurseAll(a: Atom, tag: string, scope: Option<set<string>>)
    requires a.RecurseAll?
    ensures Render(AtomLexemes(CaptureOrBackref, a), tag, scope) == Text(AtomToken(Rename(a, tag, scope)))
  {
    RenderPlainHead(a, "(", "?R=" + a.depth + ")", tag, scope);
  }

  lemma RenderWhole(a: Atom, t: Token, tag: string, scope: Option<set<string>>)
    requires t == AtomToken(a) && (t.Plain? || NeedleKind(CaptureOrBackref, t))
    ensures Render(AtomLexemes(CaptureOrBackref, a), tag, scope) == Text(AtomToken(Rename(a, tag, scope)))
  {
    assert AtomLexemes(CaptureOrBackref, a) == [Lexeme(t, true)];
    RenderCons(Lexeme(t, true), [], tag, scope);
  }

  lemma RenderPlainHead(a: Atom, head: string, tail: string, tag: string, scope: Option<set<string>>)
    requires AtomLexemes(CaptureOrBackref, a) == [Lexeme(Plain(head), true)] + Chars(tail)
    requires Rename(a, tag, scope) == a && Text(AtomToken(a)) == head + tail
    ensures Render(AtomLexemes(CaptureOrBackref, a), tag, scope) == Text(AtomToken(Rename(a, tag, scope)))
  {
    RenderChars(tail, tag, scope);
    RenderCons(Lexeme(Plain(head), true), Chars(tail), tag, scope);
  }

  lemma {:induction false} RenderSpelled(xs: seq<Atom>, tag: string, scope: Option<set<string>>)
    ensures Render(SpellLexemes(CaptureOrBackref, xs), tag, scope) == Spell(Renames(xs, tag, scope))
  {
    if |xs| > 0 {
      RenderSpelled(xs[1..], tag, scope);
      RenderAtom(xs[0], tag, scope);
      RenderAppend(AtomLexemes(CaptureOrBackref, xs[0]), SpellLexemes(CaptureOrBackref, xs[1..]), tag, scope);
      SpellCons(Rename(xs[0], tag, scope), Renames(xs[1..], tag, scope));
    }
  }

  /** The renaming scan reads a spelled pattern and the text after it
      separately. */
  lemma SpelledSplit(xs: seq<Atom>, rest: string)
    requires ValidAtoms(xs)
    ensures Lexemes(CaptureOrBackref, Spell(xs) + rest) ==
            Lexemes(CaptureOrBackref, Spell(xs)) + Lexemes(CaptureOrBackref, rest)
  {
    SpellLexOn(CaptureOrBackref, xs, rest);
    SpellLexemesAre(CaptureOrBackref, xs);
  }

  /** The renaming of a spelled pattern renames exactly its group openers
      and the backreferences in scope, then goes on with what follows. */
  lemma RetagSpelled(xs: seq<Atom>, rest: string, tag: string, scope: Option<set<string>>)
    requires ValidAtoms(xs)
    ensures Retag(Spell(xs) + rest, tag, scope) == Spell(Renames(xs, tag, scope)) + Retag(rest, tag, scope)
  {
    SpelledSplit(xs, rest);
    RetagAppend(Spell(xs), rest, tag, scope);
    SpellLexemesAre(CaptureOrBackref, xs);
    RenderSpelled(xs, tag, scope);
  }

  /** `RetagSpelled` with nothing after the atoms. */
  lemma RetagAtoms(xs: seq<Atom>, tag: string, scope: Option<set<string>>)
    requires ValidAtoms(xs)
    ensures Retag(Spell(xs), tag, scope) == Spell(Renames(xs, tag, scope))
  {
    SpellLexemesAre(CaptureOrBackref, xs);
    RenderSpelled(xs, tag, scope);
  }

  // The names a spelled pattern declares.

  /** The names of the group openers among the atoms. */
  function GroupNames(xs: seq<Atom>): set<string> {
    if |xs| == 0 then {} else (if xs[0].Group? then {xs[0].name} else {}) + GroupNames(xs[1..])
  }

  lemma {:induction false} GroupNamesAppend(xs: seq<Atom>, ys: seq<Atom>)
    ensures GroupNames(xs + ys) == GroupNames(xs) + GroupNames(ys)
    decreases |xs|
  {
    if |xs| > 0 {
      assert (xs + ys)[0] == xs[0] && (xs + ys)[1..] == xs[1..] + ys;
      GroupNamesAppend(xs[1..], ys);
    } else {
      assert xs + ys == ys;
    }
  }

  /** The names of the capture openers outside classes among lexemes. */
  function OpenerNames(ls: seq<Lexeme>): set<string> {
    set l | l in ls && l.outside && l.tok.CaptureOpen? :: l.tok.name
  }

  lemma OpenerNamesAppend(a: seq<Lexeme>, b: seq<Lexeme>)
    ensures OpenerNames(a + b) == OpenerNames(a) + OpenerNames(b)
  {
    forall l | l in a + b ensures l in a || l in b {
    }
    forall l | l in a ensures l in a + b {
    }
    forall l | l in b ensures l in a + b {
    }
  }

  lemma AtomNames(a: Atom)
    ensures OpenerNames(AtomLexemes(NamedCapturingDelim, a)) == if a.Group? then {a.name} else {}
  {
    var t := AtomToken(a);
    var ls := AtomLexemes(NamedCapturingDelim, a);
    if t.Plain? || NeedleKind(NamedCapturingDelim, t) {
      assert ls == [Lexeme(t, true)];
    } else {
      var tail := ls[1..];
      assert ls == [ls[0]] + tail && ls[0].tok.Plain?;
      match a
      case Ref(nm) => CharsPlain("<" + nm + ">");
      case Recurse(nm, d) => CharsPlain("<" + nm + "&R=" + d + ">");
      case RecurseAll(d) => CharsPlain("?R=" + d + ")");
      forall l | l in ls ensures !l.tok.CaptureOpen? {
      }
    }
  }

  lemma {:induction false} SpellNames(xs: seq<Atom>)
    ensures OpenerNames(SpellLexemes(NamedCapturingDelim, xs)) == GroupNames(xs)
  {
    if |xs| == 0 {
      assert OpenerNames([]) == {};
    } else {
      SpellNames(xs[1..]);
      AtomNames(xs[0]);
      OpenerNamesAppend(AtomLexemes(NamedCapturingDelim, xs[0]), SpellLexemes(NamedCapturingDelim, xs[1..]));
    }
  }

  /** The names a spelled pattern declares are those of its group openers. */
  lemma CaptureNamesSpelled(xs: seq<Atom>)
    requires ValidAtoms(xs)
    ensures CaptureNames(Spell(xs)) == GroupNames(xs)
  {
    SpellLexemesAre(NamedCapturingDelim, xs);
    SpellNames(xs);
    assert CaptureNames(Spell(xs)) == OpenerNames(Lexemes(NamedCapturingDelim, Spell(xs)));
  }

  // The scan of `recursion` over atoms.

  /** The scan reads a character, an escape or a group opener as one
      token. */
  lemma ScanLexWhole(a: Atom, rest: string)
    requires ValidAtom(a) && (a.Char? || a.Escape? || a.Group?)
    ensures Lex(ScannerToken, Text(AtomToken(a)) + rest) == AtomToken(a)
  {
    match a
    case Char(c) =>
      var u := [c] + rest;
      assert u[0] == c;
      LexPlainChar(ScannerToken, u);
    case Escape(c) => LexEscape(ScannerToken, c, rest);
    case Group(nm) => LexGroup(ScannerToken, nm, rest);
  }

  /** The scan steps over a token it reads whole and that is no directive
      and opens no class. */
  lemma ScanToken(s: string, i: nat, t: Token, next: nat, starts: map<string, nat>)
    requires i < |s| && t == Lex(ScannerToken, s[i..]) && next == i + |Text(t)|
    requires !t.GlobalRecursion? && !t.SubRecursion? && !IsChar(t, '[')
    ensures ScanFrom(s, i, 0, starts) == ScanFrom(s, next, 0, Recorded(Lexeme(t, true), starts, next))
  {
    ScanFromGoes(s, i, 0, starts, t, next, 0, Recorded(Lexeme(t, true), starts, next));
  }

  /** The token the scan reads at `i` when the atom is spelled out there. */
  lemma ScanLexAt(s: string, i: nat, a: Atom)
    requires (a.Char? || a.Escape? || a.Group?) && ValidAtom(a) && Piece(s, i, Text(AtomToken(a)))
    ensures i < |s| && Lex(ScannerToken, s[i..]) == AtomToken(a)
  {
    var x := Text(AtomToken(a));
    PieceRest(s, i, x);
    ScanLexWhole(a, s[i + |x|..]);
  }

  /** What the scan sees of a back-reference spelled out at `i`: the
      plain `\k`, then a plain run. */
  lemma RefAt(s: string, i: nat, nm: string, next: nat)
    requires ValidAtom(Ref(nm)) && Piece(s, i, Text(Backref(nm))) && next == i + |Text(Backref(nm))|
    ensures i + 2 < |s| && Lex(ScannerToken, s[i..]) == Plain("\\k")
    ensures i + 2 <= next <= |s| && PlainRun(s[i + 2..next])
  {
    var x := Text(Backref(nm));
    PieceRest(s, i, x);
    LexRef(ScannerToken, nm, s[next..]);
    PlainAround("<", nm, ">");
    assert s[i + 2..next] == "<" + nm + ">" by {
      assert s[i + 2..next] == s[i..next][2..];
    }
  }

  lemma ScanRef(s: string, i: nat, j: nat, starts: map<string, nat>)
    requires i + 2 <= j <= |s| && i < |s| && Lex(ScannerToken, s[i..]) == Plain("\\k") && PlainRun(s[i + 2..j])
    ensures ScanFrom(s, i, 0, starts) == ScanFrom(s, j, 0, starts)
  {
    var k := i + 2;
    ScanToken(s, i, Plain("\\k"), k, starts);
    ScanPlainRun(s, k, j, starts);
  }

  lemma ScanWholeAtom(s: string, i: nat, a: Atom, next: nat, starts: map<string, nat>)
    requires (a.Char? || a.Escape? || a.Group?) && !IsChar(AtomToken(a), '[')
    requires i < |s| && Lex(ScannerToken, s[i..]) == AtomToken(a) && next == i + |Text(AtomToken(a))|
    ensures ScanFrom(s, i, 0, starts) == ScanFrom(s, next, 0, Recorded(Lexeme(AtomToken(a), true), starts, next))
  {
    ScanToken(s, i, AtomToken(a), next, starts);
  }

  /** The scan steps over an atom that is not a directive, recording the
      start of a group it opens. */
  lemma ScanAtom(s: string, i: nat, a: Atom, next: nat, starts: map<string, nat>)
    requires ValidAtom(a) && !NeedleKind(RecursiveToken, AtomToken(a)) && Piece(s, i, Text(AtomToken(a)))
    requires next == i + |Text(AtomToken(a))|
    ensures ScanFrom(s, i, 0, starts) == ScanFrom(s, next, 0, Recorded(Lexeme(AtomToken(a), true), starts, next))
  {
    if a.Ref? {
      RefAt(s, i, a.name, next);
      ScanRef(s, i, next, starts);
    } else {
      ScanLexAt(s, i, a);
      ScanWholeAtom(s, i, a, next, starts);
    }
  }

  /** The scan stops at a directive atom. */
  lemma ScanAtomStops(s: string, i: nat, a: Atom, starts: map<string, nat>)
    requires ValidAtom(a) && NeedleKind(RecursiveToken, AtomToken(a)) && Piece(s, i, Text(AtomToken(a)))
    ensures ScanFrom(s, i, 0, starts) == Some(Hit(i, AtomToken(a), starts))
  {
    var x := Text(AtomToken(a));
    PieceRest(s, i, x);
    if a.Recurse? {
      LexRecurse(ScannerToken, a.name, a.depth, s[i + |x|..]);
    } else {
      LexRecurseAll(ScannerToken, a.depth, s[i + |x|..]);
    }
    ScanStepStops(s, i, 0, starts, AtomToken(a));
  }

  /** The scan reads atoms holding no directive one by one; a start
      recorded before them survives unless one of them opens a group of
      the same name, and a name none of them opens gains no start. */
  lemma {:induction false} ScanSpelled(s: string, i: nat, xs: seq<Atom>, j: nat, starts: map<string, nat>) returns (m: map<string, nat>)
    requires ValidAtoms(xs) && !Sees(RecursiveToken, xs) && Piece(s, i, Spell(xs)) && j == i + |Spell(xs)|
    ensures ScanFrom(s, i, 0, starts) == ScanFrom(s, j, 0, m)
    ensures forall nm :: nm in starts && nm !in GroupNames(xs) ==> nm in m && m[nm] == starts[nm]
    ensures forall nm :: nm !in starts && nm !in GroupNames(xs) ==> nm !in m
    decreases |xs|
  {
    if |xs| > 0 {
      var x := Text(AtomToken(xs[0]));
      var next := i + |x|;
      var r := Recorded(Lexeme(AtomToken(xs[0]), true), starts, next);
      assert Spell(xs) == x + Spell(xs[1..]);
      PieceSplitAt(s, i, x, Spell(xs[1..]), next);
      ScanAtom(s, i, xs[0], next, starts);
      m := ScanSpelled(s, next, xs[1..], j, r);
      assert GroupNames(xs) == (if xs[0].Group? then {xs[0].name} else {}) + GroupNames(xs[1..]);
    } else {
      assert i == j;
      m := starts;
    }
  }

  lemma PieceSplitAt(s: string, i: nat, x: string, y: string, k: nat)
    requires Piece(s, i, x + y) && k == i + |x|
    ensures Piece(s, i, x) && Piece(s, k, y)
  {
    PieceSplit(s, i, x, y);
  }

  // `getGroupContents` over atoms: no atom opens a class, so the walk
  // only counts groups, and an escape or a token's inert tail leaves the
  // count as it is.

  /** The groups open after one atom: a `)` closes one, a group opener
      opens one, and `(?R=N)` opens and closes its own. */
  function Nesting(a: Atom, g: nat): nat {
    if a == Char(')') then (if g > 0 then g - 1 else 0)
    else if a.Group? then g + 1
    else g
  }

  /** Reading `xs` with `g` groups open never closes the last one. */
  predicate Inside(xs: seq<Atom>, g: nat)
    decreases |xs|
  {
    |xs| == 0 || ((xs[0] != Char(')') || g > 1) && Inside(xs[1..], Nesting(xs[0], g)))
  }

  /** The groups open after reading `xs`. */
  function Level(xs: seq<Atom>, g: nat): nat
    decreases |xs|
  {
    if |xs| == 0 then g else Level(xs[1..], Nesting(xs[0], g))
  }

  /** The names, the nesting and the level of atoms read one at a time. */
  lemma NestingCons(a: Atom, xs: seq<Atom>, g: nat)
    ensures GroupNames([a] + xs) == (if a.Group? then {a.name} else {}) + GroupNames(xs)
    ensures Inside([a] + xs, g) <==> (a != Char(')') || g > 1) && Inside(xs, Nesting(a, g))
    ensures Level([a] + xs, g) == Level(xs, Nesting(a, g))
  {
    assert ([a] + xs)[0] == a && ([a] + xs)[1..] == xs;
  }

  lemma InertAround(x: string, y: string, z: string)
    requires Inert(x) && Inert(y) && Inert(z)
    ensures Inert(x + y + z)
  {
    var u := x + y + z;
    forall k | 0 <= k < |u| ensures u[k] !in "()[]\\" {
      if k < |x| {
        assert u[k] == x[k];
      } else if k < |x| + |y| {
        assert u[k] == y[k - |x|];
      } else {
        assert u[k] == z[k - |x| - |y|];
      }
    }
  }

  /** The walk reads a token's inert tail `x[k..]` without a change. */
  /** The walk reads the inert tail `x[k..]` of a token spelled out at
      `i`, from `from` to `to`, without a change. */
  lemma GroupEndTail(s: string, i: nat, x: string, k: nat, g: nat, from: nat, to: nat)
    requires Piece(s, i, x) && k <= |x| && Inert(x[k..]) && g >= 1 && from == i + k && to == i + |x|
    ensures GroupEnd(s, from, 0, g) == GroupEnd(s, to, 0, g)
  {
    assert s[from..to] == x[k..];
    GroupEndRun(s, from, to, g);
  }

  lemma GroupEndChar(s: string, i: nat, g: nat, next: nat)
    requires i < |s| && s[i] !in "([]\\" && g >= 1 && (s[i] == ')' ==> g > 1) && next == i + 1
    ensures GroupEnd(s, i, 0, g) == GroupEnd(s, next, 0, if s[i] == ')' then g - 1 else g)
  {
  }

  lemma GroupEndParen(s: string, i: nat, g: nat, next: nat)
    requires i < |s| && s[i] == '(' && g >= 1 && next == i + 1
    ensures GroupEnd(s, i, 0, g) == GroupEnd(s, next, 0, g + 1)
  {
  }

  lemma GroupEndCharAtom(s: string, i: nat, c: char, g: nat, next: nat)
    requires ValidAtom(Char(c)) && g >= 1 && (c == ')' ==> g > 1) && Piece(s, i, [c]) && next == i + 1
    ensures GroupEnd(s, i, 0, g) == GroupEnd(s, next, 0, Nesting(Char(c), g))
  {
    assert s[i] == s[i..i + 1][0];
    GroupEndChar(s, i, g, next);
  }

  /** An escape, a `\k<name>` or a `\g<name&R=N>` is a backslash, an
      escaped letter and an inert tail. */
  lemma EscapedShape(a: Atom)
    requires (a.Escape? || a.Ref? || a.Recurse?) && ValidAtom(a)
    ensures |Text(AtomToken(a))| >= 2 && Text(AtomToken(a))[0] == '\\'
    ensures Inert(Text(AtomToken(a))[2..])
  {
    var x := Text(AtomToken(a));
    if a.Ref? {
      assert x[2..] == "<" + a.name + ">";
      InertAround("<", a.name, ">");
    } else if a.Recurse? {
      assert x[2..] == "<" + a.name + "&R=" + a.depth + ">";
      InertAround("<", a.name, "&R=");
      InertAround("<" + a.name + "&R=", a.depth, ">");
    } else {
      assert x[2..] == [];
    }
  }

  lemma GroupEndEscaped(s: string, i: nat, a: Atom, g: nat, next: nat)
    requires (a.Escape? || a.Ref? || a.Recurse?) && ValidAtom(a) && g >= 1 && Piece(s, i, Text(AtomToken(a)))
    requires next == i + |Text(AtomToken(a))|
    ensures GroupEnd(s, i, 0, g) == GroupEnd(s, next, 0, Nesting(a, g))
  {
    var x := Text(AtomToken(a));
    EscapedShape(a);
    assert s[i] == x[0] && i + 1 < |s| by {
      assert s[i..i + |x|] == x;
    }
    var k := i + 2;
    GroupEndEscape(s, i, g);
    GroupEndTail(s, i, x, 2, g, k, next);
  }

  lemma GroupEndGroupAtom(s: string, i: nat, nm: string, g: nat, next: nat)
    requires ValidAtom(Group(nm)) && g >= 1 && Piece(s, i, Text(CaptureOpen(nm))) && next == i + |Text(CaptureOpen(nm))|
    ensures GroupEnd(s, i, 0, g) == GroupEnd(s, next, 0, g + 1)
  {
    var x := Text(CaptureOpen(nm));
    assert s[i] == x[0] == '(' by {
      assert s[i..i + |x|] == x;
    }
    var k := i + 1;
    GroupEndParen(s, i, g, k);
    assert x[1..] == "?<" + nm + ">";
    InertAround("?<", nm, ">");
    GroupEndTail(s, i, x, 1, g + 1, k, next);
  }

  lemma GroupEndRecurseAllAtom(s: string, i: nat, d: string, g: nat, next: nat)
    requires ValidAtom(RecurseAll(d)) && g >= 1 && Piece(s, i, Text(GlobalRecursion(d))) && next == i + |Text(GlobalRecursion(d))|
    ensures GroupEnd(s, i, 0, g) == GroupEnd(s, next, 0, g)
  {
    var m := "?R=" + d;
    assert Text(GlobalRecursion(d)) == "(" + m + ")" by {
      assert "(?R=" == "(" + "?R=";
      Reassoc("(", "?R=", d, ")", "", "", "");
    }
    InertAround("?R=", d, "");
    GroupEndEnclosed(s, i, Text(GlobalRecursion(d)), m, g, next);
  }

  /** The group end steps over a parenthesised run of inert characters. */
  lemma GroupEndEnclosed(s: string, i: nat, x: string, m: string, g: nat, next: nat)
    requires x == "(" + m + ")" && Inert(m) && Piece(s, i, x) && g >= 1 && next == i + |x|
    ensures GroupEnd(s, i, 0, g) == GroupEnd(s, next, 0, g)
  {
    var y := x[..|x| - 1];
    EnclosedPiece(s, i, x, m, y);
    var k1, k2 := i + 1, i + |y|;
    GroupEndParen(s, i, g, k1);
    GroupEndTail(s, i, y, 1, g + 1, k1, k2);
    GroupEndInnerClose(s, k2, g + 1, g, next);
  }

  lemma EnclosedPiece(s: string, i: nat, x: string, m: string, y: string)
    requires x == "(" + m + ")" && Piece(s, i, x) && y == x[..|x| - 1]
    ensures s[i] == '(' && i + |y| < |s| && s[i + |y|] == ')' && Piece(s, i, y) && y[1..] == m
  {
    Enclosed(x, m);
    assert s[i..i + |x|] == x;
    assert s[i..i + |y|] == s[i..i + |x|][..|y|];
  }

  /** The group end steps over a closing parenthesis of an inner group. */
  lemma GroupEndInnerClose(s: string, i: nat, g: nat, h: nat, k: nat)
    requires i < |s| && s[i] == ')' && h >= 1 && g == h + 1 && k == i + 1
    ensures GroupEnd(s, i, 0, g) == GroupEnd(s, k, 0, h)
  {
  }

  /** The walk steps over one atom, counting the groups it opens and
      closes. */
  lemma GroupEndAtom(s: string, i: nat, a: Atom, g: nat, next: nat)
    requires ValidAtom(a) && g >= 1 && (a == Char(')') ==> g > 1) && Piece(s, i, Text(AtomToken(a)))
    requires next == i + |Text(AtomToken(a))|
    ensures GroupEnd(s, i, 0, g) == GroupEnd(s, next, 0, Nesting(a, g))
  {
    match a
    case Char(c) => GroupEndCharAtom(s, i, c, g, next);
    case Group(nm) => GroupEndGroupAtom(s, i, nm, g, next);
    case RecurseAll(d) => GroupEndRecurseAllAtom(s, i, d, g, next);
    case _ => GroupEndEscaped(s, i, a, g, next);
  }

  /** The walk reads atoms that never close the last open group, and
      leaves as many open as they do. */
  lemma {:induction false} GroupEndSpelled(s: string, i: nat, xs: seq<Atom>, g: nat, j: nat) returns (h: nat)
    requires ValidAtoms(xs) && g >= 1 && Inside(xs, g) && Piece(s, i, Spell(xs)) && j == i + |Spell(xs)|
    ensures h == Level(xs, g) >= 1 && GroupEnd(s, i, 0, g) == GroupEnd(s, j, 0, h)
    decreases |xs|
  {
    if |xs| > 0 {
      var x := Text(AtomToken(xs[0]));
      var next := i + |x|;
      assert Spell(xs) == x + Spell(xs[1..]);
      PieceSplitAt(s, i, x, Spell(xs[1..]), next);
      GroupEndAtom(s, i, xs[0], g, next);
      h := GroupEndSpelled(s, next, xs[1..], Nesting(xs[0], g), j);
    } else {
      assert i == j;
      h := g;
    }
  }

  // `recursion` on a pattern spelled out in atoms.

  /** The renamed copies of the atoms: copy `k` spells the atoms renamed
      with the tag for depth number `k`. */
  function Respelling(xs: seq<Atom>, scope: Option<set<string>>): nat -> string {
    (k: nat) => Spell(Renames(xs, Tag(k), scope))
  }

  /** Renaming the spelled text is spelling the renamed atoms. */
  lemma RenamingSpelled(xs: seq<Atom>, scope: Option<set<string>>)
    requires ValidAtoms(xs)
    ensures forall k: nat :: Renaming(Spell(xs), scope)(k) == Respelling(xs, scope)(k)
  {
    forall k: nat ensures Renaming(Spell(xs), scope)(k) == Respelling(xs, scope)(k) {
      RetagAtoms(xs, Tag(k), scope);
    }
  }

  /** The nesting depends only on the copies' values. */
  lemma {:induction false} NestAgree(p: nat -> string, q: nat -> string, p': nat -> string, q': nat -> string, j: nat, reps: nat)
    requires j <= reps && (forall k: nat :: p(k) == p'(k)) && (forall k: nat :: q(k) == q'(k))
    ensures Nest(p, q, j, reps) == Nest(p', q', j, reps)
    decreases reps - j
  {
    if j < reps {
      NestAgree(p, q, p', q', j + 1, reps);
    }
  }

  lemma Parts(s: string, a: string, b: string, c: string)
    requires s == a + b + c
    ensures Piece(s, 0, a) && Piece(s, |a|, b) && s[..|a|] == a && s[|a| + |b|..] == c
  {
    assert s[0..|a|] == a;
    assert s[|a|..|a| + |b|] == b;
  }

  /** The scan of `pre (?R=N) post` stops at the directive when `pre`
      holds none. */
  lemma ScanGlobal(s: string, pre: seq<Atom>, d: string, post: seq<Atom>) returns (h: Hit)
    requires ValidAtoms(pre) && ValidAtom(RecurseAll(d)) && !Sees(RecursiveToken, pre)
    requires s == Spell(pre) + Text(GlobalRecursion(d)) + Spell(post)
    ensures Scan(s) == Some(h) && h.pos == |Spell(pre)| && h.tok == GlobalRecursion(d)
  {
    Parts(s, Spell(pre), Text(GlobalRecursion(d)), Spell(post));
    assert s[0..|Spell(pre)|] == Spell(pre);
    var j := |Spell(pre)|;
    var m := ScanSpelled(s, 0, pre, j, map[]);
    ScanAtomStops(s, j, RecurseAll(d), m);
    h := Hit(j, GlobalRecursion(d), m);
  }

  /** `recursion` on `pre \g<name&R=N> post`, where `pre` holds no
      directive and opens no group `name`: an invalid depth is rejected,
      and otherwise the directive is rejected as outside its group, since
      no group of that name was opened before it. A numeric name such as
      `1` is a name like any other here. */
  lemma UnopenedSpelled(pre: seq<Atom>, name: string, d: string, post: seq<Atom>)
    requires ValidAtoms(pre) && ValidAtom(Recurse(name, d)) && ValidAtoms(post)
    requires !Sees(RecursiveToken, pre) && name !in GroupNames(pre)
    ensures var s := Spell(pre) + Text(SubRecursion(name, d)) + Spell(post);
            ParseDepth(d).Failure? ==> Recursion(s) == Failure(InvalidDepth(d))
    ensures var s := Spell(pre) + Text(SubRecursion(name, d)) + Spell(post);
            ParseDepth(d).Success? ==> Recursion(s) == Failure(OutsideReferencedGroup(name, d))
  {
    var a := Recurse(name, d);
    var s := Spell(pre) + Text(AtomToken(a)) + Spell(post);
    SpellAround(pre, a, post, RecursiveToken);
    SpelledChecks(pre + [a] + post);
    Parts(s, Spell(pre), Text(AtomToken(a)), Spell(post));
    assert s[0..|Spell(pre)|] == Spell(pre);
    var h := ScanToDirective(s, 0, pre, a, |Spell(pre)|, map[]);
    assert s[0..] == s;
    RecursionAtHit(s, h);
    if ParseDepth(d).Failure? {
      ExpandSubDepth(s, h);
    } else {
      ExpandSubUnopened(s, h);
    }
  }

  lemma ValidAtomsAppend(xs: seq<Atom>, ys: seq<Atom>)
    requires ValidAtoms(xs) && ValidAtoms(ys)
    ensures ValidAtoms(xs + ys)
  {
    forall i | 0 <= i < |xs + ys| ensures ValidAtom((xs + ys)[i]) {
      if i >= |xs| {
        assert (xs + ys)[i] == ys[i - |xs|];
      }
    }
  }

  /** Atoms holding a directive pass the pre-checks: they spell neither a
      numbered back-reference nor `(?(DEFINE)`. */
  lemma SpelledChecks(xs: seq<Atom>)
    requires ValidAtoms(xs) && Sees(RecursiveToken, xs)
    ensures PreChecksPass(Spell(xs))
  {
    SpelledHas(RecursiveToken, xs);
    SpelledHas(NumberedBackrefToken, xs);
    SpelledHas(DefineToken, xs);
    SeesNoOther(xs);
  }

  /** The atoms `xs` with `a` between `pre` and `post` spell the three
      parts in turn, and they see what `a` sees. */
  lemma SpellAround(pre: seq<Atom>, a: Atom, post: seq<Atom>, n: Needle)
    requires ValidAtoms(pre) && ValidAtom(a) && ValidAtoms(post)
    ensures ValidAtoms(pre + [a] + post)
    ensures Spell(pre + [a] + post) == Spell(pre) + Text(AtomToken(a)) + Spell(post)
    ensures NeedleKind(n, AtomToken(a)) ==> Sees(n, pre + [a] + post)
  {
    var one := [a];
    SpellCons(a, []);
    assert one == [a] + [];
    SpellAppend(pre, one);
    SpellAppend(pre + one, post);
    assert ValidAtoms(one);
    ValidAtomsAppend(pre, one);
    ValidAtomsAppend(pre + one, post);
    assert NeedleKind(n, AtomToken(a)) ==> Sees(n, one);
    SeesAppend(n, pre, one);
    SeesAppend(n, pre + one, post);
  }

  /** The spelled pattern holds a directive and neither numbered
      back-references nor `(?(DEFINE)`. */
  lemma GlobalPreChecks(s: string, pre: seq<Atom>, d: string, post: seq<Atom>)
    requires ValidAtoms(pre) && ValidAtom(RecurseAll(d)) && ValidAtoms(post)
    requires s == Spell(pre) + Text(GlobalRecursion(d)) + Spell(post)
    ensures PreChecksPass(s)
  {
    SpellAround(pre, RecurseAll(d), post, RecursiveToken);
    SpelledChecks(pre + [RecurseAll(d)] + post);
  }

  /** `recursion` on `pre (?R=N) post`, where `pre` and `post` are atoms
      and `pre` holds no directive: an invalid depth is rejected, a second
      directive in `post` is rejected, and otherwise the result is `pre`,
      the `N - 1` nested copies with every group and every back-reference
      renamed after its depth, and `post`. */
  lemma GlobalSpelled(pre: seq<Atom>, d: string, post: seq<Atom>)
    requires ValidAtoms(pre) && ValidAtom(RecurseAll(d)) && ValidAtoms(post) && !Sees(RecursiveToken, pre)
    ensures var s := Spell(pre) + Text(GlobalRecursion(d)) + Spell(post);
            ParseDepth(d).Failure? ==> Recursion(s) == Failure(InvalidDepth(d))
    ensures var s := Spell(pre) + Text(GlobalRecursion(d)) + Spell(post);
            ParseDepth(d).Success? && Sees(RecursiveToken, post) ==> Recursion(s) == Failure(RecursionUsedTwice)
    ensures var s := Spell(pre) + Text(GlobalRecursion(d)) + Spell(post);
            ParseDepth(d).Success? && !Sees(RecursiveToken, post) ==>
              Recursion(s) == Success(Spell(pre) + Nest(Respelling(pre, None), Respelling(post, None), 0, ParseDepth(d).value - 1) + Spell(post))
  {
    var s := Spell(pre) + Text(GlobalRecursion(d)) + Spell(post);
    GlobalPreChecks(s, pre, d, post);
    var h := ScanGlobal(s, pre, d, post);
    GlobalExpansion(s, h);
    Parts(s, Spell(pre), Text(GlobalRecursion(d)), Spell(post));
    assert Before(s, h) == Spell(pre) && After(s, h) == Spell(post);
    SpelledHas(RecursiveToken, post);
    if ParseDepth(d).Success? && !Sees(RecursiveToken, post) {
      RenamingSpelled(pre, None);
      RenamingSpelled(post, None);
      NestAgree(Renaming(Spell(pre), None), Renaming(Spell(post), None), Respelling(pre, None), Respelling(post, None), 0, ParseDepth(d).value - 1);
    }
  }

  /** The scan reads a group opener and records where the group's
      contents start. */
  lemma ScanOpener(s: string, i: nat, a: Atom, next: nat, starts: map<string, nat>) returns (m: map<string, nat>)
    requires a.Group? && ValidAtom(a) && Piece(s, i, Text(AtomToken(a))) && next == i + |Text(AtomToken(a))|
    ensures ScanFrom(s, i, 0, starts) == ScanFrom(s, next, 0, m)
    ensures a.name in m && m[a.name] == next
  {
    ScanAtom(s, i, a, next, starts);
    m := Recorded(Lexeme(AtomToken(a), true), starts, next);
  }

  /** The scan steps over atoms holding no directive and stops at the
      directive after them, with the groups they do not open recorded as
      before. */
  lemma ScanToDirective(s: string, i: nat, xs: seq<Atom>, directive: Atom, j: nat, starts: map<string, nat>) returns (h: Hit)
    requires ValidAtoms(xs) && !Sees(RecursiveToken, xs) && Piece(s, i, Spell(xs)) && j == i + |Spell(xs)|
    requires ValidAtom(directive) && NeedleKind(RecursiveToken, AtomToken(directive)) && Piece(s, j, Text(AtomToken(directive)))
    ensures ScanFrom(s, i, 0, starts) == Some(h) && h.pos == j && h.tok == AtomToken(directive)
    ensures forall nm :: nm in starts && nm !in GroupNames(xs) ==> nm in h.starts && h.starts[nm] == starts[nm]
    ensures forall nm :: nm !in starts && nm !in GroupNames(xs) ==> nm !in h.starts
  {
    var m := ScanSpelled(s, i, xs, j, starts);
    ScanAtomStops(s, j, directive, m);
    h := Hit(j, AtomToken(directive), m);
  }

  /** The scan of `lead (?<name> pre \g<name&R=N> ...` stops at the
      directive, with the group's contents recorded as starting right after
      its opener, when neither `lead` nor `pre` holds a directive and `pre`
      opens no group of the same name. */
  lemma ScanSubPieces(s: string, lead: seq<Atom>, opener: Atom, pre: seq<Atom>, directive: Atom, j0: nat, j1: nat, j2: nat)
      returns (h: Hit)
    requires opener.Group? && NeedleKind(RecursiveToken, AtomToken(directive)) && ValidAtom(opener) && ValidAtom(directive)
    requires ValidAtoms(lead) && ValidAtoms(pre)
    requires !Sees(RecursiveToken, lead) && !Sees(RecursiveToken, pre) && opener.name !in GroupNames(pre)
    requires j0 == |Spell(lead)| && j1 == j0 + |Text(AtomToken(opener))| && j2 == j1 + |Spell(pre)|
    requires Piece(s, 0, Spell(lead)) && Piece(s, j0, Text(AtomToken(opener)))
    requires Piece(s, j1, Spell(pre)) && Piece(s, j2, Text(AtomToken(directive)))
    ensures Scan(s) == Some(h) && h.tok == AtomToken(directive) && h.pos == j2
    ensures opener.name in h.starts && h.starts[opener.name] == j1
  {
    var m0 := ScanSpelled(s, 0, lead, j0, map[]);
    var m1 := ScanOpener(s, j0, opener, j1, m0);
    h := ScanToDirective(s, j1, pre, directive, j2, m1);
  }

  lemma Parts4(s: string, a: string, b: string, c: string, d: string, rest: string)
    requires s == a + b + c + d + rest
    ensures Piece(s, 0, a) && Piece(s, |a|, b) && Piece(s, |a| + |b|, c) && Piece(s, |a| + |b| + |c|, d)
  {
    assert s[0..|a|] == a;
    assert s[|a|..|a| + |b|] == b;
    assert s[|a| + |b|..|a| + |b| + |c|] == c;
    assert s[|a| + |b| + |c|..|a| + |b| + |c| + |d|] == d;
  }

  lemma ScanSub(s: string, lead: seq<Atom>, name: string, pre: seq<Atom>, d: string, rest: string) returns (h: Hit)
    requires ValidAtoms(lead) && ValidAtom(Group(name)) && ValidAtoms(pre) && ValidAtom(Recurse(name, d))
    requires !Sees(RecursiveToken, lead) && !Sees(RecursiveToken, pre) && name !in GroupNames(pre)
    requires s == Spell(lead) + Text(CaptureOpen(name)) + Spell(pre) + Text(SubRecursion(name, d)) + rest
    ensures Scan(s) == Some(h) && h.tok == SubRecursion(name, d)
    ensures h.pos == |Spell(lead)| + |Text(CaptureOpen(name))| + |Spell(pre)|
    ensures name in h.starts && h.starts[name] == |Spell(lead)| + |Text(CaptureOpen(name))|
  {
    Parts4(s, Spell(lead), Text(AtomToken(Group(name))), Spell(pre), Text(AtomToken(Recurse(name, d))), rest);
    var j0 := |Spell(lead)|;
    var j1 := j0 + |Text(AtomToken(Group(name)))|;
    h := ScanSubPieces(s, lead, Group(name), pre, Recurse(name, d), j0, j1, j1 + |Spell(pre)|);
  }

  lemma RegroupTail(a: string, b: string, c: string, d: string, e: string, f: string)
    ensures a + b + c + d + e + ")" + f == a + b + c + d + (e + ")" + f)
  {
  }

  lemma ChecksRegrouped(xs: seq<Atom>, x: string, a: string, b: string, c: string, d: string, e: string, f: string, g: string)
    requires ValidAtoms(xs) && Sees(RecursiveToken, xs) && Spell(xs) == a + b + ((c + d + e) + f + g)
    requires x == a + b + c + d + e + f + g
    ensures PreChecksPass(x)
  {
    SpelledChecks(xs);
    Regroup(a, b, c, d, e, f, g);
  }

  lemma Regroup(a: string, b: string, c: string, d: string, e: string, f: string, g: string)
    ensures a + b + ((c + d + e) + f + g) == a + b + c + d + e + f + g
  {
  }

  /** `pre`, `a` and `post` as one list of atoms, which holds the needle
      when any of the three does. */
  lemma SpellWrap(pre: seq<Atom>, a: Atom, post: seq<Atom>, n: Needle) returns (all: seq<Atom>)
    requires ValidAtoms(pre) && ValidAtom(a) && ValidAtoms(post)
    requires NeedleKind(n, AtomToken(a)) || Sees(n, pre) || Sees(n, post)
    ensures ValidAtoms(all) && Sees(n, all) && Spell(all) == Spell(pre) + Text(AtomToken(a)) + Spell(post)
  {
    all := pre + [a] + post;
    SpellAround(pre, a, post, n);
    SeesAppend(n, pre, [a]);
    SeesAppend(n, pre + [a], post);
    SeesCons(n, a, []);
  }

  /** Atoms holding a directive between a group opener and a closing
      parenthesis pass the pre-checks. */
  lemma ChecksAround(s: string, lead: seq<Atom>, opener: Atom, o: string, pre: seq<Atom>, directive: Atom, t: string,
                      post: seq<Atom>, closer: Atom, c: string, trail: seq<Atom>)
    requires ValidAtoms(lead) && ValidAtom(opener) && ValidAtoms(pre) && ValidAtom(directive)
    requires ValidAtoms(post) && ValidAtom(closer) && ValidAtoms(trail) && NeedleKind(RecursiveToken, AtomToken(directive))
    requires o == Text(AtomToken(opener)) && t == Text(AtomToken(directive)) && c == Text(AtomToken(closer))
    requires s == Spell(lead) + o + Spell(pre) + t + Spell(post) + c + Spell(trail)
    ensures PreChecksPass(s)
  {
    var inner := SpellWrap(pre, directive, post, RecursiveToken);
    var tail := SpellWrap(inner, closer, trail, RecursiveToken);
    var all := SpellWrap(lead, opener, tail, RecursiveToken);
    ChecksRegrouped(all, s, Spell(lead), o, Spell(pre), t, Spell(post), c, Spell(trail));
  }

  /** `lead (?<name> pre \g<name&R=N> post ) trail` spelled from atoms
      passes the pre-checks. */
  lemma SubChecks(s: string, lead: seq<Atom>, name: string, pre: seq<Atom>, d: string, post: seq<Atom>, trail: seq<Atom>)
    requires ValidAtoms(lead) && ValidAtom(Group(name)) && ValidAtoms(pre) && ValidAtom(Recurse(name, d))
    requires ValidAtoms(post) && ValidAtoms(trail)
    requires s == Spell(lead) + Text(CaptureOpen(name)) + Spell(pre) + Text(SubRecursion(name, d)) + Spell(post) + ")" + Spell(trail)
    ensures PreChecksPass(s)
  {
    CloserAtom();
    ChecksAround(s, lead, Group(name), Text(CaptureOpen(name)), pre, Recurse(name, d), Text(SubRecursion(name, d)),
                 post, Char(')'), ")", trail);
  }

  /** The closing parenthesis as an atom. */
  lemma CloserAtom()
    ensures ValidAtom(Char(')')) && Text(AtomToken(Char(')'))) == ")"
  {
  }

  lemma SliceIs(s: string, i: nat, j: nat, x: string)
    requires Piece(s, i, x) && j == i + |x|
    ensures s[i..j] == x
  {
  }

  /** The walk reads atoms that close exactly the groups open before
      them and stops at the `)` after them. */
  lemma GroupEndClosing(s: string, i: nat, xs: seq<Atom>, g: nat, e: nat)
    requires ValidAtoms(xs) && g >= 1 && Inside(xs, g) && Level(xs, g) == 1
    requires e == i + |Spell(xs)| && Piece(s, i, Spell(xs)) && Piece(s, e, ")")
    ensures GroupEnd(s, i, 0, g) == e
  {
    var h := GroupEndSpelled(s, i, xs, g, e);
    GroupEndClose(s, e);
  }

  /** The walk reads atoms that never close the group, then a directive,
      leaving as many groups open as the atoms do. */
  lemma GroupEndBefore(s: string, i: nat, pre: seq<Atom>, a: Atom, j: nat, k: nat)
    requires ValidAtoms(pre) && a.Recurse? && ValidAtom(a) && Inside(pre, 1)
    requires j == i + |Spell(pre)| && k == j + |Text(AtomToken(a))|
    requires Piece(s, i, Spell(pre)) && Piece(s, j, Text(AtomToken(a)))
    ensures Level(pre, 1) >= 1 && GroupEnd(s, i, 0, 1) == GroupEnd(s, k, 0, Level(pre, 1))
  {
    var h := GroupEndSpelled(s, i, pre, 1, j);
    GroupEndAtom(s, j, a, h, k);
  }

  /** Four strings spelled out one after the other from `i`, starting at
      `i`, `j`, `k` and `e`. */
  lemma Pieces4(s: string, i: nat, w: string, x: string, y: string, z: string, j: nat, k: nat, e: nat)
    requires Piece(s, i, w + x + y + z) && j == i + |w| && k == j + |x| && e == k + |y|
    ensures Piece(s, i, w) && Piece(s, j, x) && Piece(s, k, y) && Piece(s, e, z)
  {
    assert w + x + y + z == w + (x + (y + z));
    PieceSplitAt(s, i, w, x + (y + z), j);
    PieceSplitAt(s, j, x, y + z, k);
    PieceSplitAt(s, k, y, z, e);
  }

  /** The walk for the end of a group `pre \g<name&R=N> post )`, where
      `pre` never closes the group and `post` closes exactly the groups
      `pre` leaves open, stops at its `)`. */
  lemma GroupEndAround(s: string, i: nat, pre: seq<Atom>, a: Atom, post: seq<Atom>, j: nat, k: nat, e: nat)
    requires ValidAtoms(pre) && a.Recurse? && ValidAtom(a) && ValidAtoms(post)
    requires Inside(pre, 1) && Inside(post, Level(pre, 1)) && Level(post, Level(pre, 1)) == 1
    requires Piece(s, i, Spell(pre) + Text(AtomToken(a)) + Spell(post) + ")")
    requires j == i + |Spell(pre)| && k == j + |Text(AtomToken(a))| && e == k + |Spell(post)|
    ensures GroupEnd(s, i, 0, 1) == e
  {
    Pieces4(s, i, Spell(pre), Text(AtomToken(a)), Spell(post), ")", j, k, e);
    GroupEndBefore(s, i, pre, a, j, k);
    GroupEndClosing(s, k, post, Level(pre, 1), e);
  }

  /** The body of the group in `lead (?<name> pre \g<name&R=N> post ) trail`
      starts after its opener. */
  lemma SubMiddle(s: string, lead: string, o: string, pre: string, g: string, post: string, trail: string)
    requires s == lead + o + pre + g + post + ")" + trail
    ensures Piece(s, |lead| + |o|, pre + g + post + ")")
  {
    assert s == (lead + o) + (pre + g + post + ")") + trail;
    assert s[|lead| + |o|..|lead| + |o| + |pre + g + post + ")"|] == pre + g + post + ")";
  }

  /** Atoms around a needle hold it. */
  lemma AroundNeedle(n: Needle, pre: seq<Atom>, a: Atom, post: seq<Atom>)
    requires ValidAtoms(pre) && ValidAtom(a) && ValidAtoms(post) && NeedleKind(n, AtomToken(a))
    ensures HasUnescaped(Spell(pre) + Text(AtomToken(a)) + Spell(post), n)
  {
    SpellAround(pre, a, post, n);
    SpelledHas(n, pre + [a] + post);
  }

  /** The pieces of a hit whose group has contents `pre \g<name&R=N> post`
      at `start`, followed by `rest`. */
  lemma SubHitPieces(s: string, h: Hit, start: nat, pre: string, g: string, post: string, rest: string)
    requires ValidHit(s, h) && h.tok.SubRecursion? && h.tok.name in h.starts && h.starts[h.tok.name] == start
    requires g == Text(h.tok) && h.pos == start + |pre|
    requires start <= |s| && GroupContents(s, start) == pre + g + post
    requires start + |pre| + |g| <= |s| && s[start + |pre| + |g|..] == rest
    ensures GroupStart(s, h) == start && Contents(s, h) == pre + g + post
    ensures SubPre(s, h) == pre && SubPost(s, h) == post && After(s, h) == rest
  {
    var c := pre + g + post;
    ContentsSlice(s, start, c);
    assert s[start..h.pos] == c[..|pre|];
    DropMiddle(pre, g, post);
    AfterIs(s, h, start + |pre| + |g|, rest);
  }

  /** The contents of a group are the text after its opener. */
  lemma ContentsSlice(s: string, start: nat, c: string)
    requires start <= |s| && GroupContents(s, start) == c
    ensures start + |c| <= |s| && s[start..start + |c|] == c
  {
  }

  lemma AfterIs(s: string, h: Hit, k: nat, x: string)
    requires ValidHit(s, h) && k == h.pos + |Text(h.tok)| && k <= |s| && s[k..] == x
    ensures After(s, h) == x
  {
  }

  /** The directive's group, read from its contents alone: with contents
      `pre \g<name&R=N> post` at `start` followed by `rest`, the expansion
      is refused when `rest` holds another directive, and otherwise
      splices the nesting of `pre` and `post` over the contents. */
  lemma SubExpandedAt(s: string, h: Hit, start: nat, pre: string, g: string, post: string, rest: string)
    requires PreChecksPass(s) && Scan(s) == Some(h) && h.tok.SubRecursion? && ParseDepth(h.tok.depth).Success?
    requires h.tok.name in h.starts && h.starts[h.tok.name] == start
    requires g == Text(h.tok) && h.pos == start + |pre|
    requires Piece(s, start, pre + g + post) && GroupEnd(s, start, 0, 1) == start + |pre + g + post|
    requires HasUnescaped(pre + g + post, GRToken)
    requires start + |pre| + |g| <= |s| && s[start + |pre| + |g|..] == rest
    ensures HasUnescaped(rest, RecursiveToken) ==> Recursion(s) == Failure(RecursionUsedTwice)
    ensures !HasUnescaped(rest, RecursiveToken) ==>
              var scope := Some(CaptureNames(pre + post));
              Recursion(s) == Success(Splice(s, start, |pre + g + post|,
                                             pre + Nest(Renaming(pre, scope), Renaming(post, scope), 0, ParseDepth(h.tok.depth).value - 1) + post))
  {
    assert GroupContents(s, start) == pre + g + post by {
      SliceIs(s, start, start + |pre + g + post|, pre + g + post);
    }
    SubpatternExpansion(s, h);
    SubHitPieces(s, h, start, pre, g, post, rest);
  }

  /** The directive's group as atoms: the expansion of a hit on
      `\g<name&R=N>` inside a group whose body is `pre \g<name&R=N> post )`
      at `start`, followed by `rest`. */
  lemma SubAtomsAt(s: string, h: Hit, start: nat, pre: seq<Atom>, a: Atom, post: seq<Atom>, rest: string)
    requires ValidAtoms(pre) && a.Recurse? && ValidAtom(a) && ValidAtoms(post)
    requires Inside(pre, 1) && Inside(post, Level(pre, 1)) && Level(post, Level(pre, 1)) == 1
    requires PreChecksPass(s) && Scan(s) == Some(h) && h.tok == AtomToken(a) && ParseDepth(h.tok.depth).Success?
    requires h.tok.name in h.starts && h.starts[h.tok.name] == start && h.pos == start + |Spell(pre)|
    requires Piece(s, start, Spell(pre) + Text(AtomToken(a)) + Spell(post) + ")")
    requires start + |Spell(pre)| + |Text(AtomToken(a))| <= |s| && s[start + |Spell(pre)| + |Text(AtomToken(a))|..] == rest
    ensures HasUnescaped(rest, RecursiveToken) ==> Recursion(s) == Failure(RecursionUsedTwice)
    ensures !HasUnescaped(rest, RecursiveToken) ==>
              var p, q := Spell(pre), Spell(post);
              var scope := Some(CaptureNames(p + q));
              Recursion(s) == Success(Splice(s, start, |p + Text(AtomToken(a)) + q|,
                                             p + Nest(Renaming(p, scope), Renaming(q, scope), 0, ParseDepth(h.tok.depth).value - 1) + q))
  {
    var c := Spell(pre) + Text(AtomToken(a)) + Spell(post);
    var j := start + |Spell(pre)|;
    var k := j + |Text(AtomToken(a))|;
    GroupEndAround(s, start, pre, a, post, j, k, start + |c|);
    PieceSplit(s, start, c, ")");
    AroundNeedle(GRToken, pre, a, post);
    SubExpandedAt(s, h, start, Spell(pre), Text(AtomToken(a)), Spell(post), rest);
  }

  /** The strings around the directive's group in
      `lead (?<name> pre \g<name&R=N> post ) trail`. */
  lemma SubFacts(s: string, lead: string, o: string, pre: string, g: string, post: string, trail: string, m: string, start: nat, k: nat)
    requires s == lead + o + pre + g + post + ")" + trail
    requires start == |lead| + |o| && k == start + |pre| + |g|
    ensures Piece(s, start, pre + g + post + ")")
    ensures k <= |s| && s[k..] == post + ")" + trail
    ensures start + |pre + g + post| <= |s| && Splice(s, start, |pre + g + post|, m) == lead + o + m + ")" + trail
  {
    SubMiddle(s, lead, o, pre, g, post, trail);
    SubAround(s, lead, o, pre, g, post, trail);
    SubSplice(s, lead, o, pre, g, post, trail, |lead| + |o|, |pre + g + post|, m, lead + o + m + ")" + trail);
  }

  /** Atoms around one that is not a needle hold the needle exactly when
      one side does. */
  lemma AroundHas(n: Needle, pre: seq<Atom>, a: Atom, post: seq<Atom>)
    requires ValidAtoms(pre) && ValidAtom(a) && ValidAtoms(post) && !NeedleKind(n, AtomToken(a))
    ensures HasUnescaped(Spell(pre) + Text(AtomToken(a)) + Spell(post), n) <==> Sees(n, pre) || Sees(n, post)
  {
    SpellAround(pre, a, post, n);
    SeesAppend(n, pre, [a]);
    SeesAppend(n, pre + [a], post);
    assert !Sees(n, [a]) by {
      assert [a][1..] == [];
    }
    SpelledHas(n, pre + [a] + post);
  }

  /** What follows the directive holds another one exactly when `post` or
      `trail` does. */
  lemma SubAfter(post: seq<Atom>, trail: seq<Atom>)
    requires ValidAtoms(post) && ValidAtoms(trail)
    ensures HasUnescaped(Spell(post) + ")" + Spell(trail), RecursiveToken) <==> Sees(RecursiveToken, post) || Sees(RecursiveToken, trail)
  {
    var c := Char(')');
    assert Text(AtomToken(c)) == ")";
    AroundHas(RecursiveToken, post, c, trail);
  }

  /** The copies of a subpattern's `pre` and `post` rename the groups the
      two of them open. */
  lemma SubRenamed(pre: seq<Atom>, post: seq<Atom>, n: nat)
    requires ValidAtoms(pre) && ValidAtoms(post)
    ensures var scope := Some(GroupNames(pre + post));
            CaptureNames(Spell(pre) + Spell(post)) == GroupNames(pre + post)
            && Nest(Renaming(Spell(pre), scope), Renaming(Spell(post), scope), 0, n) == Nest(Respelling(pre, scope), Respelling(post, scope), 0, n)
  {
    var scope := Some(GroupNames(pre + post));
    ValidAtomsAppend(pre, post);
    SpellAppend(pre, post);
    CaptureNamesSpelled(pre + post);
    RenamingSpelled(pre, scope);
    RenamingSpelled(post, scope);
    NestAgree(Renaming(Spell(pre), scope), Renaming(Spell(post), scope), Respelling(pre, scope), Respelling(post, scope), 0, n);
  }

  /** `recursion` on `lead (?<name> pre \g<name&R=N> post ) trail`, where
      the group's atoms `pre`, the directive and `post` never close it
      before its `)`, neither `lead` nor `pre` holds a directive, and `pre`
      opens no group of the same name: an invalid depth is rejected, a
      second directive after the first is rejected, and otherwise the
      group's contents become `pre`, the `N - 1` nested copies with the
      groups of `pre` and `post` and the back-references to them renamed
      after their depth, and `post`. */
  lemma SubSpelled(lead: seq<Atom>, name: string, pre: seq<Atom>, d: string, post: seq<Atom>, trail: seq<Atom>)
    requires ValidAtoms(lead) && ValidAtom(Group(name)) && ValidAtoms(pre) && ValidAtom(Recurse(name, d))
    requires ValidAtoms(post) && ValidAtoms(trail)
    requires !Sees(RecursiveToken, lead) && !Sees(RecursiveToken, pre) && name !in GroupNames(pre)
    requires Inside(pre, 1) && Inside(post, Level(pre, 1)) && Level(post, Level(pre, 1)) == 1
    ensures var s := Spell(lead) + Text(CaptureOpen(name)) + Spell(pre) + Text(SubRecursion(name, d)) + Spell(post) + ")" + Spell(trail);
            ParseDepth(d).Failure? ==> Recursion(s) == Failure(InvalidDepth(d))
    ensures var s := Spell(lead) + Text(CaptureOpen(name)) + Spell(pre) + Text(SubRecursion(name, d)) + Spell(post) + ")" + Spell(trail);
            ParseDepth(d).Success? && (Sees(RecursiveToken, post) || Sees(RecursiveToken, trail))
            ==> Recursion(s) == Failure(RecursionUsedTwice)
    ensures var s := Spell(lead) + Text(CaptureOpen(name)) + Spell(pre) + Text(SubRecursion(name, d)) + Spell(post) + ")" + Spell(trail);
            var scope := Some(GroupNames(pre + post));
            ParseDepth(d).Success? && !Sees(RecursiveToken, post) && !Sees(RecursiveToken, trail) ==>
              Recursion(s) == Success(Spell(lead) + Text(CaptureOpen(name))
                                      + (Spell(pre) + Nest(Respelling(pre, scope), Respelling(post, scope), 0, ParseDepth(d).value - 1) + Spell(post))
                                      + ")" + Spell(trail))
  {
    var s := Spell(lead) + Text(CaptureOpen(name)) + Spell(pre) + Text(SubRecursion(name, d)) + Spell(post) + ")" + Spell(trail);
    SubChecks(s, lead, name, pre, d, post, trail);
    var rest := Spell(post) + ")" + Spell(trail);
    RegroupTail(Spell(lead), Text(CaptureOpen(name)), Spell(pre), Text(SubRecursion(name, d)), Spell(post), Spell(trail));
    var h := ScanSub(s, lead, name, pre, d, rest);
    RecursionAtHit(s, h);
    if ParseDepth(d).Failure? {
      ExpandSubDepth(s, h);
    } else {
      var scope := Some(GroupNames(pre + post));
      var m := Spell(pre) + Nest(Respelling(pre, scope), Respelling(post, scope), 0, ParseDepth(d).value - 1) + Spell(post);
      var L, o, P, g, Q, T := Spell(lead), Text(CaptureOpen(name)), Spell(pre), Text(SubRecursion(name, d)), Spell(post), Spell(trail);
      var start := |L| + |o|;
      var k := start + |P| + |g|;
      SubFacts(s, L, o, P, g, Q, T, m, start, k);
      SubLater(s, h, start, k, name, pre, d, post, trail, L + o + m + ")" + T);
    }
  }

  /** The part of `SubSpelled` past the depth check, read from the pieces
      of the pattern around the directive's group at `start`. */
  lemma SubLater(s: string, h: Hit, start: nat, k: nat, name: string, pre: seq<Atom>, d: string, post: seq<Atom>, trail: seq<Atom>, r: string)
    requires ValidAtoms(pre) && ValidAtom(Recurse(name, d)) && ValidAtoms(post) && ValidAtoms(trail)
    requires Inside(pre, 1) && Inside(post, Level(pre, 1)) && Level(post, Level(pre, 1)) == 1
    requires PreChecksPass(s) && Scan(s) == Some(h) && h.tok == SubRecursion(name, d) && ParseDepth(d).Success?
    requires name in h.starts && h.starts[name] == start && h.pos == start + |Spell(pre)|
    requires Piece(s, start, Spell(pre) + Text(SubRecursion(name, d)) + Spell(post) + ")")
    requires k == start + |Spell(pre)| + |Text(SubRecursion(name, d))| && k <= |s| && s[k..] == Spell(post) + ")" + Spell(trail)
    requires var scope := Some(GroupNames(pre + post));
             start + |Spell(pre) + Text(SubRecursion(name, d)) + Spell(post)| <= |s| &&
             Splice(s, start, |Spell(pre) + Text(SubRecursion(name, d)) + Spell(post)|,
                    Spell(pre) + Nest(Respelling(pre, scope), Respelling(post, scope), 0, ParseDepth(d).value - 1) + Spell(post)) == r
    ensures Sees(RecursiveToken, post) || Sees(RecursiveToken, trail) ==> Recursion(s) == Failure(RecursionUsedTwice)
    ensures !Sees(RecursiveToken, post) && !Sees(RecursiveToken, trail) ==> Recursion(s) == Success(r)
  {
    var a := Recurse(name, d);
    assert Text(AtomToken(a)) == Text(SubRecursion(name, d));
    SubAtomsAt(s, h, start, pre, a, post, Spell(post) + ")" + Spell(trail));
    SubAfter(post, trail);
    if !Sees(RecursiveToken, post) && !Sees(RecursiveToken, trail) {
      SubRenamed(pre, post, ParseDepth(d).value - 1);
    }
  }
}
