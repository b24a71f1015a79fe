/** What `recursion` does to patterns whose surroundings are plain text:
    the unrolled shapes the test suite checks, for every such pattern. */
module Shapes {
  import opened Wrappers
  import opened Lexical
  import opened Unescaped
  import opened Unroll
  import opened Expansion

  // `pre (?R=N) post` with plain `pre`, `N` and `post`.

  /** A plain context around a `(?R=N)` directive. */
  predicate PlainGlobal(pre: string, d: string, post: string) {
    PlainRun(pre) && PlainRun(d) && PlainRun(post) && WellFormed(GlobalRecursion(d))
  }

  lemma GlobalLexDirective(d: string, post: string)
    requires WellFormed(GlobalRecursion(d))
    ensures Lex(RecursiveToken, Text(GlobalRecursion(d)) + post) == GlobalRecursion(d)
    ensures Lex(ScannerToken, Text(GlobalRecursion(d)) + post) == GlobalRecursion(d)
  {
    var u := Text(GlobalRecursion(d)) + post;
    assert u[0] == '(' && u[2] == 'R';
    GlobalRecursionRecognised(d, post);
  }

  lemma GlobalLexParen(n: Needle, d: string, post: string)
    requires n == NumberedBackrefToken || n == DefineToken
    ensures Lex(n, Text(GlobalRecursion(d)) + post) == Plain("(")
  {
    var u := Text(GlobalRecursion(d)) + post;
    assert u[0] == '(' && u[2] == 'R' && u[..1] == "(";
  }

  lemma GlobalHasDirective(pre: string, d: string, post: string)
    requires PlainRun(pre) && WellFormed(GlobalRecursion(d))
    ensures HasUnescaped(pre + Text(GlobalRecursion(d)) + post, RecursiveToken)
  {
    var rest := Text(GlobalRecursion(d)) + post;
    assert pre + Text(GlobalRecursion(d)) + post == pre + rest;
    GlobalLexDirective(d, post);
    NeedleHead(RecursiveToken, rest);
    PlainRunPrefix(RecursiveToken, pre, rest, 0);
  }

  /** What follows the `(` of a plain `(?R=N)`, up to the end. */
  lemma GlobalTailPlain(d: string, post: string)
    requires PlainRun(d) && PlainRun(post)
    ensures PlainRun("?R=" + d + ")" + post)
  {
    var tail := "?R=" + d + ")" + post;
    forall k | 0 <= k < |tail| ensures tail[k] !in "([]\\" {
      if 3 <= k < 3 + |d| {
        assert tail[k] == d[k - 3];
      } else if k >= 4 + |d| {
        assert tail[k] == post[k - 4 - |d|];
      }
    }
  }

  lemma GlobalDirectiveLexemes(n: Needle, d: string, post: string)
    requires n == NumberedBackrefToken || n == DefineToken
    ensures LexOn(n, Text(GlobalRecursion(d)) + post, 0)
            == [Lexeme(Plain("("), true)] + LexOn(n, "?R=" + d + ")" + post, 0)
  {
    var rest := Text(GlobalRecursion(d)) + post;
    assert rest[1..] == "?R=" + d + ")" + post;
    GlobalLexParen(n, d, post);
    LexOnPlainStep(n, rest, 0, "(");
  }

  lemma GlobalDirectiveNoOther(n: Needle, d: string, post: string)
    requires n == NumberedBackrefToken || n == DefineToken
    requires PlainRun(d) && PlainRun(post)
    ensures !AnyHit(LexOn(n, Text(GlobalRecursion(d)) + post, 0))
  {
    var tail := "?R=" + d + ")" + post;
    GlobalDirectiveLexemes(n, d, post);
    GlobalTailPlain(d, post);
    PlainRunNoHit(n, tail, 0);
    AnyHitCons(Lexeme(Plain("("), true), LexOn(n, tail, 0));
  }

  lemma GlobalNoOtherSyntax(n: Needle, pre: string, d: string, post: string)
    requires n == NumberedBackrefToken || n == DefineToken
    requires PlainGlobal(pre, d, post)
    ensures !HasUnescaped(pre + Text(GlobalRecursion(d)) + post, n)
  {
    var rest := Text(GlobalRecursion(d)) + post;
    assert pre + Text(GlobalRecursion(d)) + post == pre + rest;
    GlobalDirectiveNoOther(n, d, post);
    PlainRunPrefix(n, pre, rest, 0);
  }

  lemma GlobalScanPlain(pre: string, d: string, post: string)
    requires PlainRun(pre) && WellFormed(GlobalRecursion(d))
    ensures Scan(pre + Text(GlobalRecursion(d)) + post) == Some(Hit(|pre|, GlobalRecursion(d), map[]))
  {
    var s := pre + Text(GlobalRecursion(d)) + post;
    assert s[0..|pre|] == pre;
    assert s[|pre|..] == Text(GlobalRecursion(d)) + post;
    ScanPlainRun(s, 0, |pre|, map[]);
    GlobalLexDirective(d, post);
  }

  lemma GlobalPieces(pre: string, d: string, post: string)
    requires WellFormed(GlobalRecursion(d))
    ensures var s, h := pre + Text(GlobalRecursion(d)) + post, Hit(|pre|, GlobalRecursion(d), map[]);
            ValidHit(s, h) && Before(s, h) == pre && After(s, h) == post
  {
    var s := pre + Text(GlobalRecursion(d)) + post;
    assert s[..|pre|] == pre;
    assert s[|pre| + |Text(GlobalRecursion(d))|..] == post;
  }

  /** `pre (?R=N) post` in a plain context passes the pre-checks and the
      scan stops at its directive. */
  lemma GlobalPlainHit(pre: string, d: string, post: string)
    requires PlainGlobal(pre, d, post)
    ensures var s, h := pre + Text(GlobalRecursion(d)) + post, Hit(|pre|, GlobalRecursion(d), map[]);
            PreChecksPass(s) && Scan(s) == Some(h) && ValidHit(s, h)
  {
    GlobalHasDirective(pre, d, post);
    GlobalNoOtherSyntax(NumberedBackrefToken, pre, d, post);
    GlobalNoOtherSyntax(DefineToken, pre, d, post);
    GlobalScanPlain(pre, d, post);
    GlobalPieces(pre, d, post);
  }

  /** With plain surroundings, `s = pre (?R=N) post` is rejected when the
      depth is. */
  lemma GlobalPlainRejects(s: string, pre: string, d: string, post: string)
    requires PlainGlobal(pre, d, post) && ParseDepth(d).Failure?
    requires s == pre + Text(GlobalRecursion(d)) + post
    ensures Recursion(s) == Failure(InvalidDepth(d))
  {
    var h := Hit(|pre|, GlobalRecursion(d), map[]);
    GlobalPlainHit(pre, d, post);
    RecursionAtHit(s, h);
    ExpandGlobalDepth(s, h);
  }

  /** With plain surroundings and a valid depth `N`, `s = pre (?R=N) post`
      becomes `r`: `pre`, `N - 1` copies of `(?:pre`, `(?:)`, `N - 1`
      copies of `post)`, then `post`. */
  lemma GlobalPlainUnrolls(s: string, pre: string, d: string, post: string, r: string)
    requires PlainGlobal(pre, d, post) && ParseDepth(d).Success?
    requires s == pre + Text(GlobalRecursion(d)) + post
    requires var n := ParseDepth(d).value;
             r == pre + Power("(?:" + pre, n - 1) + "(?:)" + Power(post + ")", n - 1) + post
    ensures Recursion(s) == Success(r)
  {
    var h := Hit(|pre|, GlobalRecursion(d), map[]);
    GlobalPlainHit(pre, d, post);
    GlobalPieces(pre, d, post);
    PlainHasNone(RecursiveToken, post);
    PlainHasNone(CaptureOrBackref, pre);
    PlainHasNone(CaptureOrBackref, post);
    GlobalShape(s, h);
  }

  // `pre (?R=N) mid (?R=M) post`: a second directive after the first.

  lemma TwiceNoOther(n: Needle, d: string, x: string)
    requires n == NumberedBackrefToken || n == DefineToken
    requires PlainRun(d) && !AnyHit(LexOn(n, x, 0))
    ensures !AnyHit(LexOn(n, Text(GlobalRecursion(d)) + x, 0))
  {
    var head := "?R=" + d + ")";
    GlobalDirectiveLexemes(n, d, x);
    GlobalTailPlain(d, "");
    assert head + "" == head;
    PlainRunPrefix(n, head, x, 0);
    assert head + x == "?R=" + d + ")" + x;
    AnyHitCons(Lexeme(Plain("("), true), LexOn(n, head + x, 0));
  }

  lemma TwiceNoOtherSyntax(n: Needle, pre: string, d: string, mid: string, d2: string, post: string)
    requires n == NumberedBackrefToken || n == DefineToken
    requires PlainRun(pre) && PlainRun(d) && PlainRun(mid) && PlainRun(d2) && PlainRun(post)
    ensures !HasUnescaped(pre + Text(GlobalRecursion(d)) + (mid + Text(GlobalRecursion(d2)) + post), n)
  {
    var x := mid + Text(GlobalRecursion(d2)) + post;
    var rest := Text(GlobalRecursion(d)) + x;
    assert x == mid + (Text(GlobalRecursion(d2)) + post);
    GlobalDirectiveNoOther(n, d2, post);
    PlainRunPrefix(n, mid, Text(GlobalRecursion(d2)) + post, 0);
    TwiceNoOther(n, d, x);
    assert pre + Text(GlobalRecursion(d)) + x == pre + rest;
    PlainRunPrefix(n, pre, rest, 0);
  }

  /** With plain surroundings, `s = pre (?R=N) mid (?R=M) post` is rejected
      for its second directive, whatever `M` is, once `N` is valid. */
  lemma GlobalTwiceRejects(s: string, pre: string, d: string, mid: string, d2: string, post: string)
    requires PlainRun(pre) && PlainRun(d) && PlainRun(mid) && PlainRun(d2) && PlainRun(post)
    requires WellFormed(GlobalRecursion(d)) && WellFormed(GlobalRecursion(d2)) && ParseDepth(d).Success?
    requires s == pre + Text(GlobalRecursion(d)) + (mid + Text(GlobalRecursion(d2)) + post)
    ensures Recursion(s) == Failure(RecursionUsedTwice)
  {
    var after := mid + Text(GlobalRecursion(d2)) + post;
    var h := Hit(|pre|, GlobalRecursion(d), map[]);
    GlobalHasDirective(pre, d, after);
    TwiceNoOtherSyntax(NumberedBackrefToken, pre, d, mid, d2, post);
    TwiceNoOtherSyntax(DefineToken, pre, d, mid, d2, post);
    GlobalScanPlain(pre, d, after);
    GlobalPieces(pre, d, after);
    GlobalHasDirective(mid, d2, post);
    RecursionAtHit(s, h);
    ExpandGlobalTwice(s, h);
  }

  // `lead (?<name> pre \g<name&R=N> post ) trail` with plain parts.

  /** A plain context around a named group whose contents recurse into
      the group itself. */
  predicate PlainSub(lead: string, name: string, pre: string, d: string, post: string, trail: string) {
    && PlainRun(lead) && Inert(name) && Inert(pre) && Inert(d) && Inert(post) && PlainRun(trail)
    && WellFormed(CaptureOpen(name)) && WellFormed(SubRecursion(name, d))
  }

  lemma InertPlain(x: string)
    requires Inert(x)
    ensures PlainRun(x)
  {
    forall k | 0 <= k < |x| ensures x[k] !in "([]\\" {
      assert x[k] !in "()[]\\";
    }
  }

  /** Only the scanner's needle reads a whole group opener: the others
      step over its `(` alone. */
  lemma LexOpenParen(n: Needle, u: string)
    requires n == RecursiveToken || n == NumberedBackrefToken || n == DefineToken
    requires 3 <= |u| && u[0] == '(' && u[1] == '?' && u[2] == '<'
    ensures Lex(n, u) == Plain("(")
  {
    assert u[..1] == "(";
    if n == RecursiveToken {
      assert GlobalRecursionAt(u).None? && SubRecursionAt(u).None?;
    } else if n == NumberedBackrefToken {
      assert NumberedBackrefAt(u).None?;
    } else {
      assert DefineOpenAt(u).None?;
    }
  }

  lemma LexOnOpenParen(n: Needle, u: string)
    requires n == RecursiveToken || n == NumberedBackrefToken || n == DefineToken
    requires 3 <= |u| && u[0] == '(' && u[1] == '?' && u[2] == '<'
    ensures LexOn(n, u, 0) == [Lexeme(Plain("("), true)] + LexOn(n, u[1..], 0)
  {
    LexOpenParen(n, u);
    if n == RecursiveToken {
      LexOnCons(RecursiveToken, u, 0);
    } else if n == NumberedBackrefToken {
      LexOnCons(NumberedBackrefToken, u, 0);
    } else {
      LexOnCons(DefineToken, u, 0);
    }
  }

  lemma SubLexOpenScanner(name: string, z: string)
    requires WellFormed(CaptureOpen(name))
    ensures Lex(ScannerToken, Text(CaptureOpen(name)) + z) == CaptureOpen(name)
  {
    CaptureOpenRecognised(name, z);
  }

  lemma SubLexDirective(n: Needle, name: string, d: string, z: string)
    requires n == RecursiveToken || n == GRToken || n == ScannerToken
    requires WellFormed(SubRecursion(name, d))
    ensures Lex(n, Text(SubRecursion(name, d)) + z) == SubRecursion(name, d)
  {
    var u := Text(SubRecursion(name, d)) + z;
    assert u[0] == '\\';
    SubRecursionRecognised(name, d, z);
  }

  /** The needles that do not read the directive step over its `\g`. */
  lemma LexEscapeG(n: Needle, u: string)
    requires n == NumberedBackrefToken || n == DefineToken
    requires 2 <= |u| && u[0] == '\\' && u[1] == 'g'
    ensures Lex(n, u) == Plain("\\g")
  {
    assert u[..2] == "\\g";
    if n == NumberedBackrefToken {
      assert NumberedBackrefAt(u).None?;
    } else {
      assert DefineOpenAt(u).None?;
    }
  }

  lemma LexOnEscapeG(n: Needle, u: string)
    requires n == NumberedBackrefToken || n == DefineToken
    requires 2 <= |u| && u[0] == '\\' && u[1] == 'g'
    ensures LexOn(n, u, 0) == [Lexeme(Plain("\\g"), true)] + LexOn(n, u[2..], 0)
  {
    LexEscapeG(n, u);
    LexOnCons(n, u, 0);
  }

  /** What follows the `\g` of the directive. */
  lemma SubTailPlain(name: string, d: string, post: string, trail: string)
    requires Inert(name) && Inert(d) && Inert(post) && PlainRun(trail)
    ensures PlainRun("<" + name + "&R=" + d + ">" + post + ")" + trail)
  {
    var tail := "<" + name + "&R=" + d + ">" + post + ")" + trail;
    var a := 1 + |name|;
    var b := a + 3 + |d|;
    var c := b + 1 + |post|;
    InertPlain(name);
    InertPlain(d);
    InertPlain(post);
    forall k | 0 <= k < |tail| ensures tail[k] !in "([]\\" {
      if 1 <= k < a {
        assert tail[k] == name[k - 1];
      } else if a + 3 <= k < b {
        assert tail[k] == d[k - a - 3];
      } else if b + 1 <= k < c {
        assert tail[k] == post[k - b - 1];
      } else if c + 1 <= k {
        assert tail[k] == trail[k - c - 1];
      }
    }
  }

  /** The group opener past its `(`, then plain text up to the directive. */
  lemma SubHeadPlain(name: string, pre: string)
    requires Inert(name) && PlainRun(pre)
    ensures PlainRun("?<" + name + ">" + pre)
  {
    var x := "?<" + name + ">" + pre;
    InertPlain(name);
    forall k | 0 <= k < |x| ensures x[k] !in "([]\\" {
      if 2 <= k < 2 + |name| {
        assert x[k] == name[k - 2];
      } else if 3 + |name| <= k {
        assert x[k] == pre[k - 3 - |name|];
      }
    }
  }

  lemma SubDirectiveHits(n: Needle, name: string, d: string, z: string)
    requires n == RecursiveToken || n == GRToken
    requires WellFormed(SubRecursion(name, d))
    ensures AnyHit(LexOn(n, Text(SubRecursion(name, d)) + z, 0))
  {
    SubLexDirective(n, name, d, z);
    NeedleHead(n, Text(SubRecursion(name, d)) + z);
  }

  lemma SubDirectiveLexemes(n: Needle, name: string, d: string, z: string)
    requires n == NumberedBackrefToken || n == DefineToken
    ensures LexOn(n, Text(SubRecursion(name, d)) + z, 0)
            == [Lexeme(Plain("\\g"), true)] + LexOn(n, "<" + name + "&R=" + d + ">" + z, 0)
  {
    var u := Text(SubRecursion(name, d)) + z;
    assert u[0] == '\\' && u[1] == 'g';
    assert u[2..] == "<" + name + "&R=" + d + ">" + z;
    LexOnEscapeG(n, u);
  }

  lemma SubDirectiveNoOther(n: Needle, name: string, d: string, post: string, trail: string)
    requires n == NumberedBackrefToken || n == DefineToken
    requires Inert(name) && Inert(d) && Inert(post) && PlainRun(trail)
    ensures !AnyHit(LexOn(n, Text(SubRecursion(name, d)) + (post + ")" + trail), 0))
  {
    var tail := "<" + name + "&R=" + d + ">" + (post + ")" + trail);
    assert tail == "<" + name + "&R=" + d + ">" + post + ")" + trail;
    SubDirectiveLexemes(n, name, d, post + ")" + trail);
    SubTailPlain(name, d, post, trail);
    PlainRunNoHit(n, tail, 0);
    AnyHitCons(Lexeme(Plain("\\g"), true), LexOn(n, tail, 0));
  }

  lemma SubOpenLexemes(n: Needle, name: string, y: string)
    requires n == RecursiveToken || n == NumberedBackrefToken || n == DefineToken
    ensures LexOn(n, Text(CaptureOpen(name)) + y, 0) == [Lexeme(Plain("("), true)] + LexOn(n, "?<" + name + ">" + y, 0)
  {
    var u := Text(CaptureOpen(name)) + y;
    assert u[0] == '(' && u[1] == '?' && u[2] == '<';
    assert u[1..] == "?<" + name + ">" + y;
    LexOnOpenParen(n, u);
  }

  /** The `(` of a group opener is no match for the pre-check needles. */
  lemma SubOpenStep(n: Needle, name: string, y: string)
    requires n == RecursiveToken || n == NumberedBackrefToken || n == DefineToken
    ensures AnyHit(LexOn(n, Text(CaptureOpen(name)) + y, 0)) <==> AnyHit(LexOn(n, "?<" + name + ">" + y, 0))
  {
    SubOpenLexemes(n, name, y);
    AnyHitCons(Lexeme(Plain("("), true), LexOn(n, "?<" + name + ">" + y, 0));
  }

  /** Splits `lead (?<name> pre \g<name&R=N> post ) trail` at the opener
      and at the directive. */
  lemma SubSplit(lead: string, name: string, pre: string, d: string, post: string, trail: string)
    ensures var o, g, w := Text(CaptureOpen(name)), Text(SubRecursion(name, d)), post + ")" + trail;
            && lead + o + pre + g + post + ")" + trail == lead + (o + (pre + (g + w)))
            && "?<" + name + ">" + (pre + (g + w)) == ("?<" + name + ">" + pre) + (g + w)
  {
  }

  lemma SubHasDirective(lead: string, name: string, pre: string, d: string, post: string, trail: string)
    requires PlainSub(lead, name, pre, d, post, trail)
    ensures HasUnescaped(lead + Text(CaptureOpen(name)) + pre + Text(SubRecursion(name, d)) + post + ")" + trail, RecursiveToken)
  {
    var o, g, w := Text(CaptureOpen(name)), Text(SubRecursion(name, d)), post + ")" + trail;
    var x := "?<" + name + ">" + pre;
    SubSplit(lead, name, pre, d, post, trail);
    SubDirectiveHits(RecursiveToken, name, d, w);
    InertPlain(pre);
    SubHeadPlain(name, pre);
    PlainRunPrefix(RecursiveToken, x, g + w, 0);
    SubOpenStep(RecursiveToken, name, pre + (g + w));
    PlainRunPrefix(RecursiveToken, lead, o + (pre + (g + w)), 0);
  }

  lemma SubNoOtherSyntax(n: Needle, lead: string, name: string, pre: string, d: string, post: string, trail: string)
    requires n == NumberedBackrefToken || n == DefineToken
    requires PlainSub(lead, name, pre, d, post, trail)
    ensures !HasUnescaped(lead + Text(CaptureOpen(name)) + pre + Text(SubRecursion(name, d)) + post + ")" + trail, n)
  {
    var o, g, w := Text(CaptureOpen(name)), Text(SubRecursion(name, d)), post + ")" + trail;
    var x := "?<" + name + ">" + pre;
    SubSplit(lead, name, pre, d, post, trail);
    SubDirectiveNoOther(n, name, d, post, trail);
    InertPlain(pre);
    SubHeadPlain(name, pre);
    PlainRunPrefix(n, x, g + w, 0);
    SubOpenStep(n, name, pre + (g + w));
    PlainRunPrefix(n, lead, o + (pre + (g + w)), 0);
  }

  // Positions inside a pattern assembled from parts. The opener and the
  // directive are passed as strings `o` and `g` so that every position is
  // written the same way wherever it occurs.

  /** `x` occurs in `s` at position `i`. */
  predicate Piece(s: string, i: nat, x: string) {
    i + |x| <= |s| && s[i..i + |x|] == x
  }

  lemma PieceSplit(s: string, i: nat, x: string, y: string)
    requires Piece(s, i, x + y)
    ensures Piece(s, i, x) && Piece(s, i + |x|, y)
  {
    var whole := s[i..i + |x| + |y|];
    assert s[i..i + |x|] == whole[..|x|];
    assert s[i + |x|..i + |x| + |y|] == whole[|x|..];
  }

  lemma PieceJoin(s: string, i: nat, x: string, y: string)
    requires Piece(s, i, x) && Piece(s, i + |x|, y)
    ensures Piece(s, i, x + y)
  {
    assert s[i..i + |x| + |y|] == s[i..i + |x|] + s[i + |x|..i + |x| + |y|];
  }

  lemma PieceRest(s: string, i: nat, x: string)
    requires Piece(s, i, x)
    ensures s[i..] == x + s[i + |x|..]
  {
    assert s[i..] == s[i..i + |x|] + s[i + |x|..];
  }

  /** A plain run placed in a pattern. */
  lemma PieceRun(s: string, i: nat, x: string)
    requires Piece(s, i, x) && PlainRun(x)
    ensures PlainRun(s[i..i + |x|])
  {
  }

  /** The parts of `pre g post ) trail` at position `i`. */
  lemma SubTailParts(s: string, i: nat, pre: string, g: string, post: string, trail: string)
    requires Piece(s, i, pre + (g + (post + (")" + trail))))
    ensures Piece(s, i, pre) && Piece(s, i + |pre|, g) && Piece(s, i + |pre| + |g|, post)
    ensures Piece(s, i + |pre| + |g| + |post|, ")") && Piece(s, i + |pre| + |g| + |post| + 1, trail)
  {
    PieceSplit(s, i, pre, g + (post + (")" + trail)));
    PieceSplit(s, i + |pre|, g, post + (")" + trail));
    PieceSplit(s, i + |pre| + |g|, post, ")" + trail);
    PieceSplit(s, i + |pre| + |g| + |post|, ")", trail);
  }

  /** The parts of `lead o pre g post ) trail`, each at its position. */
  lemma SubParts(s: string, lead: string, o: string, pre: string, g: string, post: string, trail: string)
    requires s == lead + o + pre + g + post + ")" + trail
    ensures Piece(s, 0, lead) && Piece(s, |lead|, o)
    ensures Piece(s, |lead| + |o|, pre + (g + (post + (")" + trail))))
    ensures |lead| + |o| + |pre| + |g| + |post| + 1 + |trail| == |s|
  {
    var rest := pre + (g + (post + (")" + trail)));
    assert s == lead + (o + rest);
    assert Piece(s, 0, lead + (o + rest));
    PieceSplit(s, 0, lead, o + rest);
    PieceSplit(s, |lead|, o, rest);
  }

  lemma ScanStepOpen(s: string, i: nat, name: string, o: string, starts: map<string, nat>)
    requires i < |s| && o == Text(CaptureOpen(name)) && Lex(ScannerToken, s[i..]) == CaptureOpen(name)
    ensures ScanStep(s, i, 0, starts) == Continue(i + |o|, 0, starts[name := i + |o|])
  {
  }

  lemma ScanStepDirective(s: string, i: nat, name: string, d: string, starts: map<string, nat>)
    requires i < |s| && Lex(ScannerToken, s[i..]) == SubRecursion(name, d)
    ensures ScanStep(s, i, 0, starts) == Stop(Hit(i, SubRecursion(name, d), starts))
  {
  }

  /** The scan reads a group opener whole and records where its contents
      start. */
  lemma ScanOpen(s: string, i: nat, name: string, o: string, starts: map<string, nat>)
    requires WellFormed(CaptureOpen(name)) && o == Text(CaptureOpen(name)) && Piece(s, i, o)
    ensures ScanFrom(s, i, 0, starts) == ScanFrom(s, i + |o|, 0, starts[name := i + |o|])
  {
    PieceRest(s, i, o);
    SubLexOpenScanner(name, s[i + |o|..]);
    ScanStepOpen(s, i, name, o, starts);
  }

  /** The scan stops at a `\g<name&R=N>` outside classes. */
  lemma ScanDirective(s: string, i: nat, name: string, d: string, g: string, starts: map<string, nat>)
    requires WellFormed(SubRecursion(name, d)) && g == Text(SubRecursion(name, d)) && Piece(s, i, g)
    ensures ScanFrom(s, i, 0, starts) == Some(Hit(i, SubRecursion(name, d), starts))
  {
    PieceRest(s, i, g);
    SubLexDirective(ScannerToken, name, d, s[i + |g|..]);
    ScanStepDirective(s, i, name, d, starts);
  }

  /** From the start of the pattern through plain text `s[..a]` and the
      opener `o`. */
  lemma ScanToContents(s: string, a: nat, name: string, o: string)
    requires WellFormed(CaptureOpen(name)) && o == Text(CaptureOpen(name))
    requires a <= |s| && PlainRun(s[0..a]) && Piece(s, a, o)
    ensures ScanFrom(s, 0, 0, map[]) == ScanFrom(s, a + |o|, 0, map[][name := a + |o|])
  {
    ScanPlainRun(s, 0, a, map[]);
    ScanOpen(s, a, name, o, map[]);
  }

  /** From `c` through plain text up to the directive `g` at `b`. */
  lemma ScanFromContents(s: string, c: nat, b: nat, name: string, d: string, g: string, starts: map<string, nat>)
    requires WellFormed(SubRecursion(name, d)) && g == Text(SubRecursion(name, d))
    requires c <= b <= |s| && PlainRun(s[c..b]) && Piece(s, b, g)
    ensures ScanFrom(s, c, 0, starts) == Some(Hit(b, SubRecursion(name, d), starts))
  {
    ScanPlainRun(s, c, b, starts);
    ScanDirective(s, b, name, d, g, starts);
  }

  lemma ScanToSubDirective(s: string, a: nat, b: nat, name: string, o: string, d: string, g: string)
    requires WellFormed(CaptureOpen(name)) && o == Text(CaptureOpen(name))
    requires WellFormed(SubRecursion(name, d)) && g == Text(SubRecursion(name, d))
    requires a + |o| <= b <= |s| && PlainRun(s[0..a]) && Piece(s, a, o)
    requires PlainRun(s[a + |o|..b]) && Piece(s, b, g)
    ensures ScanFrom(s, 0, 0, map[]) == Some(Hit(b, SubRecursion(name, d), map[][name := a + |o|]))
  {
    ScanToContents(s, a, name, o);
    ScanFromContents(s, a + |o|, b, name, d, g, map[][name := a + |o|]);
  }

  lemma ScanIs(s: string, h: Hit)
    requires ScanFrom(s, 0, 0, map[]) == Some(h)
    ensures Scan(s) == Some(h)
  {
  }

  /** The scan from the start of the pattern, given the parts' positions. */
  lemma SubScanFrom(s: string, lead: string, name: string, pre: string, d: string, post: string, trail: string, o: string, g: string)
    requires PlainRun(lead) && Inert(pre)
    requires WellFormed(CaptureOpen(name)) && WellFormed(SubRecursion(name, d))
    requires o == Text(CaptureOpen(name)) && g == Text(SubRecursion(name, d))
    requires Piece(s, 0, lead) && Piece(s, |lead|, o) && Piece(s, |lead| + |o|, pre + (g + (post + (")" + trail))))
    ensures ScanFrom(s, 0, 0, map[]) == Some(Hit(|lead| + |o| + |pre|, SubRecursion(name, d), map[][name := |lead| + |o|]))
  {
    SubTailParts(s, |lead| + |o|, pre, g, post, trail);
    InertPlain(pre);
    PieceRun(s, 0, lead);
    PieceRun(s, |lead| + |o|, pre);
    ScanToSubDirective(s, |lead|, |lead| + |o| + |pre|, name, o, d, g);
  }

  /** The scan of `lead (?<name> pre \g<name&R=N> post ) trail` records
      the group's contents start and stops at the directive. */
  lemma SubScanPlain(s: string, lead: string, name: string, pre: string, d: string, post: string, trail: string, o: string, g: string)
    requires PlainRun(lead) && Inert(pre)
    requires WellFormed(CaptureOpen(name)) && WellFormed(SubRecursion(name, d))
    requires o == Text(CaptureOpen(name)) && g == Text(SubRecursion(name, d))
    requires s == lead + o + pre + g + post + ")" + trail
    ensures ScanFrom(s, 0, 0, map[]) == Some(Hit(|lead| + |o| + |pre|, SubRecursion(name, d), map[][name := |lead| + |o|]))
  {
    SubParts(s, lead, o, pre, g, post, trail);
    SubScanFrom(s, lead, name, pre, d, post, trail, o, g);
  }

  lemma InertDirectiveTail(name: string, d: string, post: string)
    requires Inert(name) && Inert(d) && Inert(post)
    ensures Inert("<" + name + "&R=" + d + ">" + post)
  {
    var tail := "<" + name + "&R=" + d + ">" + post;
    var a := 1 + |name|;
    var b := a + 3 + |d|;
    forall k | 0 <= k < |tail| ensures tail[k] !in "()[]\\" {
      if 1 <= k < a {
        assert tail[k] == name[k - 1];
      } else if a + 3 <= k < b {
        assert tail[k] == d[k - a - 3];
      } else if b + 1 <= k {
        assert tail[k] == post[k - b - 1];
      }
    }
  }

  /** The directive past its `\g`, followed by `post`. */
  lemma SubDirectiveTail(s: string, i: nat, name: string, d: string, g: string, post: string)
    requires g == Text(SubRecursion(name, d)) && Piece(s, i, g) && Piece(s, i + |g|, post)
    ensures s[i] == '\\' && Piece(s, i + 2, "<" + name + "&R=" + d + ">" + post)
  {
    assert g == g[..2] + g[2..];
    PieceSplit(s, i, g[..2], g[2..]);
    PieceJoin(s, i + 2, g[2..], post);
    assert g[2..] + post == "<" + name + "&R=" + d + ">" + post;
  }

  lemma GroupEndEscape(s: string, i: nat, groups: nat)
    requires i + 1 < |s| && s[i] == '\\' && groups >= 1
    ensures GroupEnd(s, i, 0, groups) == GroupEnd(s, i + 2, 0, groups)
  {
  }

  lemma GroupEndClose(s: string, e: nat)
    requires Piece(s, e, ")")
    ensures GroupEnd(s, e, 0, 1) == e
  {
    assert s[e] == s[e..e + 1][0];
  }

  /** `getGroupContents` steps over the escaped `\g` and the rest of the
      directive, and stops at the `)` after `post`. */
  lemma SubGroupEnd(s: string, i: nat, name: string, d: string, g: string, post: string)
    requires Inert(name) && Inert(d) && Inert(post) && g == Text(SubRecursion(name, d))
    requires Piece(s, i, g) && Piece(s, i + |g|, post) && Piece(s, i + |g| + |post|, ")")
    ensures GroupEnd(s, i, 0, 1) == i + |g| + |post|
  {
    SubDirectiveTail(s, i, name, d, g, post);
    InertDirectiveTail(name, d, post);
    GroupEndEscape(s, i, 1);
    GroupEndRun(s, i + 2, i + |g| + |post|, 1);
    GroupEndClose(s, i + |g| + |post|);
  }

  lemma SubContents(s: string, lead: string, name: string, pre: string, d: string, post: string, trail: string, o: string, g: string)
    requires PlainSub(lead, name, pre, d, post, trail)
    requires o == Text(CaptureOpen(name)) && g == Text(SubRecursion(name, d))
    requires s == lead + o + pre + g + post + ")" + trail
    ensures GroupContents(s, |lead| + |o|) == pre + g + post
  {
    SubParts(s, lead, o, pre, g, post, trail);
    SubContentsFrom(s, |lead| + |o|, name, pre, d, g, post, trail);
  }

  lemma SubContentsFrom(s: string, i: nat, name: string, pre: string, d: string, g: string, post: string, trail: string)
    requires Inert(name) && Inert(pre) && Inert(d) && Inert(post) && g == Text(SubRecursion(name, d))
    requires Piece(s, i, pre + (g + (post + (")" + trail))))
    ensures GroupContents(s, i) == pre + g + post
  {
    SubTailParts(s, i, pre, g, post, trail);
    SubContentsAt(s, i, name, pre, d, g, post);
  }

  lemma SubContentsAt(s: string, i: nat, name: string, pre: string, d: string, g: string, post: string)
    requires Inert(name) && Inert(pre) && Inert(d) && Inert(post) && g == Text(SubRecursion(name, d))
    requires Piece(s, i, pre) && Piece(s, i + |pre|, g) && Piece(s, i + |pre| + |g|, post)
    requires Piece(s, i + |pre| + |g| + |post|, ")")
    ensures GroupContents(s, i) == pre + g + post
  {
    assert Inert(s[i..i + |pre|]);
    GroupEndRun(s, i, i + |pre|, 1);
    SubGroupEnd(s, i + |pre|, name, d, g, post);
    PieceJoin(s, i, pre, g);
    PieceJoin(s, i, pre + g, post);
  }

  /** The directive lies inside the group's contents. */
  lemma SubContentsHasDirective(name: string, pre: string, d: string, g: string, post: string)
    requires Inert(pre) && WellFormed(SubRecursion(name, d)) && g == Text(SubRecursion(name, d))
    ensures HasUnescaped(pre + g + post, GRToken)
  {
    assert pre + g + post == pre + (g + post);
    InertPlain(pre);
    SubDirectiveHits(GRToken, name, d, post);
    PlainRunPrefix(GRToken, pre, g + post, 0);
  }

  lemma SubAfterPlain(post: string, trail: string)
    requires Inert(post) && PlainRun(trail)
    ensures PlainRun(post + ")" + trail)
  {
    var x := post + ")" + trail;
    InertPlain(post);
    forall k | 0 <= k < |x| ensures x[k] !in "([]\\" {
      if k < |post| {
        assert x[k] == post[k];
      } else if k > |post| {
        assert x[k] == trail[k - |post| - 1];
      }
    }
  }

  /** `lead (?<name> pre \g<name&R=N> post ) trail` in a plain context
      passes the pre-checks and the scan stops at its directive, with the
      group's contents starting after the opener. */
  lemma SubPlainHit(s: string, lead: string, name: string, pre: string, d: string, post: string, trail: string, o: string, g: string, h: Hit)
    requires PlainSub(lead, name, pre, d, post, trail)
    requires o == Text(CaptureOpen(name)) && g == Text(SubRecursion(name, d))
    requires s == lead + o + pre + g + post + ")" + trail
    requires h == Hit(|lead| + |o| + |pre|, SubRecursion(name, d), map[][name := |lead| + |o|])
    ensures PreChecksPass(s) && Scan(s) == Some(h)
  {
    SubHasDirective(lead, name, pre, d, post, trail);
    SubNoOtherSyntax(NumberedBackrefToken, lead, name, pre, d, post, trail);
    SubNoOtherSyntax(DefineToken, lead, name, pre, d, post, trail);
    SubScanPlain(s, lead, name, pre, d, post, trail, o, g);
    ScanIs(s, h);
  }

  lemma PieceEnd(s: string, i: nat, x: string)
    requires Piece(s, i, x) && i + |x| == |s|
    ensures s[i..] == x
  {
  }

  /** What the expansion reads around the directive. */
  lemma SubAround(s: string, lead: string, o: string, pre: string, g: string, post: string, trail: string)
    requires s == lead + o + pre + g + post + ")" + trail
    ensures s[|lead| + |o|..|lead| + |o| + |pre|] == pre
    ensures s[|lead| + |o| + |pre| + |g|..] == post + ")" + trail
  {
    SubParts(s, lead, o, pre, g, post, trail);
    var i := |lead| + |o|;
    PieceSplit(s, i, pre, g + (post + (")" + trail)));
    PieceSplit(s, i + |pre|, g, post + (")" + trail));
    PieceEnd(s, i + |pre| + |g|, post + (")" + trail));
    assert post + (")" + trail) == post + ")" + trail;
  }

  lemma DropMiddle(pre: string, g: string, post: string)
    ensures Drop(pre + g + post, |pre| + |g|) == post
  {
    assert (pre + g + post)[|pre| + |g|..] == post;
  }

  /** The hit's pieces in terms of the parts. */
  lemma SubPieces(s: string, lead: string, name: string, pre: string, d: string, post: string, trail: string, o: string, g: string, h: Hit)
    requires PlainSub(lead, name, pre, d, post, trail)
    requires o == Text(CaptureOpen(name)) && g == Text(SubRecursion(name, d))
    requires s == lead + o + pre + g + post + ")" + trail
    requires h == Hit(|lead| + |o| + |pre|, SubRecursion(name, d), map[][name := |lead| + |o|])
    ensures ValidHit(s, h) && h.tok.SubRecursion? && h.tok.name in h.starts
    ensures GroupStart(s, h) == |lead| + |o| && Contents(s, h) == pre + g + post
    ensures SubPre(s, h) == pre && SubPost(s, h) == post && After(s, h) == post + ")" + trail
  {
    SubAround(s, lead, o, pre, g, post, trail);
    SubContents(s, lead, name, pre, d, post, trail, o, g);
    DropMiddle(pre, g, post);
  }

  /** Replacing the contents `pre g post` of the group. */
  lemma SubSplice(s: string, lead: string, o: string, pre: string, g: string, post: string, trail: string,
                  start: nat, len: nat, m: string, r: string)
    requires s == lead + o + pre + g + post + ")" + trail
    requires start == |lead| + |o| && len == |pre + g + post|
    requires r == lead + o + m + ")" + trail
    ensures start + len <= |s| && Splice(s, start, len, m) == r
  {
    assert s == (lead + o) + (pre + g + post) + (")" + trail);
    assert s[..start] == lead + o;
    assert s[start + len..] == ")" + trail;
  }

  /** The result `lead (?<name> pre ... post ) trail` regrouped around the
      new contents. */
  lemma SubResult(lead: string, o: string, pre: string, p: string, q: string, post: string, trail: string, r: string)
    requires r == lead + o + pre + p + "(?:)" + q + post + ")" + trail
    ensures r == lead + o + (pre + p + "(?:)" + q + post) + ")" + trail
  {
  }

  /** The subpattern shape for plain surroundings, before the result is
      reassembled. */
  lemma SubPlainShape(s: string, lead: string, name: string, pre: string, d: string, post: string, trail: string, o: string, g: string, h: Hit)
    requires PlainSub(lead, name, pre, d, post, trail) && ParseDepth(d).Success?
    requires o == Text(CaptureOpen(name)) && g == Text(SubRecursion(name, d))
    requires s == lead + o + pre + g + post + ")" + trail
    requires h == Hit(|lead| + |o| + |pre|, SubRecursion(name, d), map[][name := |lead| + |o|])
    ensures ValidHit(s, h) && h.tok.SubRecursion? && h.tok.name in h.starts
    ensures var n := ParseDepth(d).value;
            Recursion(s) == Success(Splice(s, GroupStart(s, h), |Contents(s, h)|,
                                           pre + Power("(?:" + pre, n - 1) + "(?:)" + Power(post + ")", n - 1) + post))
  {
    SubPlainHit(s, lead, name, pre, d, post, trail, o, g, h);
    SubPieces(s, lead, name, pre, d, post, trail, o, g, h);
    SubContentsHasDirective(name, pre, d, g, post);
    SubAfterPlain(post, trail);
    PlainHasNone(RecursiveToken, post + ")" + trail);
    InertPlain(pre);
    InertPlain(post);
    PlainHasNone(CaptureOrBackref, pre);
    PlainHasNone(CaptureOrBackref, post);
    SubShape(s, h);
  }

  /** With plain surroundings and a valid depth `N`, the subpattern
      `lead (?<name> pre \g<name&R=N> post ) trail` becomes `r`: only the
      group's contents change, into `pre`, `N - 1` copies of `(?:pre`,
      `(?:)`, `N - 1` copies of `post)`, then `post`. */
  lemma SubPlainUnrolls(s: string, lead: string, name: string, pre: string, d: string, post: string, trail: string, r: string)
    requires PlainSub(lead, name, pre, d, post, trail) && ParseDepth(d).Success?
    requires s == lead + Text(CaptureOpen(name)) + pre + Text(SubRecursion(name, d)) + post + ")" + trail
    requires var n := ParseDepth(d).value;
             r == lead + Text(CaptureOpen(name)) + pre + Power("(?:" + pre, n - 1) + "(?:)" + Power(post + ")", n - 1) + post + ")" + trail
    ensures Recursion(s) == Success(r)
  {
    var o, g := Text(CaptureOpen(name)), Text(SubRecursion(name, d));
    var n := ParseDepth(d).value;
    var h := Hit(|lead| + |o| + |pre|, SubRecursion(name, d), map[][name := |lead| + |o|]);
    var m := pre + Power("(?:" + pre, n - 1) + "(?:)" + Power(post + ")", n - 1) + post;
    SubPlainShape(s, lead, name, pre, d, post, trail, o, g, h);
    SubPieces(s, lead, name, pre, d, post, trail, o, g, h);
    SubResult(lead, o, pre, Power("(?:" + pre, n - 1), Power(post + ")", n - 1), post, trail, r);
    SubSplice(s, lead, o, pre, g, post, trail, GroupStart(s, h), |Contents(s, h)|, m, r);
  }

  /** With plain surroundings, the subpattern is rejected when its depth
      is. */
  lemma SubPlainRejects(s: string, lead: string, name: string, pre: string, d: string, post: string, trail: string)
    requires PlainSub(lead, name, pre, d, post, trail) && ParseDepth(d).Failure?
    requires s == lead + Text(CaptureOpen(name)) + pre + Text(SubRecursion(name, d)) + post + ")" + trail
    ensures Recursion(s) == Failure(InvalidDepth(d))
  {
    var o, g := Text(CaptureOpen(name)), Text(SubRecursion(name, d));
    var h := Hit(|lead| + |o| + |pre|, SubRecursion(name, d), map[][name := |lead| + |o|]);
    SubPlainHit(s, lead, name, pre, d, post, trail, o, g, h);
    RecursionAtHit(s, h);
    ExpandSubDepth(s, h);
  }

  // A directive that is escaped, or sits inside a character class, is not
  // a directive: the pattern comes back unchanged.

  /** An escaped `(` is a plain two-character token, never a needle match. */
  lemma LexEscapedParen(u: string)
    requires 2 <= |u| && u[0] == '\\' && u[1] == '('
    ensures Lex(RecursiveToken, u) == Plain("\\(")
  {
    assert u[..2] == "\\(";
  }

  lemma LexOnEscapedParen(u: string)
    requires 2 <= |u| && u[0] == '\\' && u[1] == '('
    ensures LexOn(RecursiveToken, u, 0) == [Lexeme(Plain("\\("), true)] + LexOn(RecursiveToken, u[2..], 0)
  {
    LexEscapedParen(u);
    LexOnPlainStep(RecursiveToken, u, 0, "\\(");
    assert ClassStep(Plain("\\("), 0) == 0;
  }

  lemma EscapedTailNoHit(d: string, post: string)
    requires PlainRun(d) && PlainRun(post)
    ensures !AnyHit(LexOn(RecursiveToken, "\\" + Text(GlobalRecursion(d)) + post, 0))
  {
    var tail := "?R=" + d + ")" + post;
    var u := "\\" + Text(GlobalRecursion(d)) + post;
    assert u == "\\(" + tail;
    assert u[2..] == tail;
    LexOnEscapedParen(u);
    GlobalTailPlain(d, post);
    PlainRunNoHit(RecursiveToken, tail, 0);
    AnyHitCons(Lexeme(Plain("\\("), true), LexOn(RecursiveToken, tail, 0));
  }

  /** `pre \(?R=N) post` is returned as it is. */
  lemma EscapedGlobalUntouched(s: string, pre: string, d: string, post: string)
    requires PlainRun(pre) && PlainRun(d) && PlainRun(post)
    requires s == pre + "\\" + Text(GlobalRecursion(d)) + post
    ensures Recursion(s) == Success(s)
  {
    var u := "\\" + Text(GlobalRecursion(d)) + post;
    assert s == pre + u;
    EscapedTailNoHit(d, post);
    PlainRunPrefix(RecursiveToken, pre, u, 0);
  }

  /** A single class bracket is a plain one-character token. */
  lemma LexBracket(u: string)
    requires 0 < |u| && (u[0] == '[' || u[0] == ']')
    ensures Lex(RecursiveToken, u) == Plain([u[0]])
  {
    NoNeedleAtOther(RecursiveToken, u);
  }

  /** A `]` closes the class it ends. */
  lemma LexOnClassClose(u: string)
    requires 0 < |u| && u[0] == ']'
    ensures LexOn(RecursiveToken, u, 1) == [Lexeme(Plain("]"), false)] + LexOn(RecursiveToken, u[1..], 0)
  {
    LexBracket(u);
    assert [u[0]] == "]";
    LexOnPlainStep(RecursiveToken, u, 1, "]");
    assert ClassStep(Plain("]"), 1) == 0;
  }

  /** A `[` opens a class. */
  lemma LexOnClassOpen(u: string)
    requires 0 < |u| && u[0] == '['
    ensures LexOn(RecursiveToken, u, 0) == [Lexeme(Plain("["), true)] + LexOn(RecursiveToken, u[1..], 1)
  {
    LexBracket(u);
    assert [u[0]] == "[";
    LexOnPlainStep(RecursiveToken, u, 0, "[");
    assert ClassStep(Plain("["), 0) == 1;
  }

  /** Inside a class the directive is lexed but does not count. */
  lemma LexOnClassDirective(d: string, u: string, rest: string)
    requires WellFormed(GlobalRecursion(d))
    requires u == Text(GlobalRecursion(d)) + rest
    ensures LexOn(RecursiveToken, u, 1) == [Lexeme(GlobalRecursion(d), false)] + LexOn(RecursiveToken, rest, 1)
  {
    GlobalLexDirective(d, rest);
    LexOnCons(RecursiveToken, u, 1);
    assert u[|Text(GlobalRecursion(d))|..] == rest;
  }

  lemma ClassTailNoHit(d: string, post: string)
    requires PlainRun(post) && WellFormed(GlobalRecursion(d))
    ensures !AnyHit(LexOn(RecursiveToken, "[" + Text(GlobalRecursion(d)) + "]" + post, 0))
  {
    var u1 := "]" + post;
    var u2 := Text(GlobalRecursion(d)) + u1;
    var u3 := "[" + u2;
    assert u3 == "[" + Text(GlobalRecursion(d)) + "]" + post;
    LexOnClassClose(u1);
    assert u1[1..] == post;
    LexOnClassDirective(d, u2, u1);
    LexOnClassOpen(u3);
    assert u3[1..] == u2;
    PlainRunNoHit(RecursiveToken, post, 0);
    AnyHitCons(Lexeme(Plain("]"), false), LexOn(RecursiveToken, post, 0));
    AnyHitCons(Lexeme(GlobalRecursion(d), false), LexOn(RecursiveToken, u1, 1));
    AnyHitCons(Lexeme(Plain("["), true), LexOn(RecursiveToken, u2, 1));
  }

  /** `pre [(?R=N)] post` is returned as it is. */
  lemma ClassGlobalUntouched(s: string, pre: string, d: string, post: string)
    requires PlainRun(pre) && PlainRun(post) && WellFormed(GlobalRecursion(d))
    requires s == pre + "[" + Text(GlobalRecursion(d)) + "]" + post
    ensures Recursion(s) == Success(s)
  {
    var u := "[" + Text(GlobalRecursion(d)) + "]" + post;
    assert s == pre + u;
    ClassTailNoHit(d, post);
    PlainRunPrefix(RecursiveToken, pre, u, 0);
  }

  // `lead (?<name> inner ) mid \g<name&R=N> post`: the directive refers to
  // a group that is already closed.

  predicate ClosedSub(lead: string, name: string, inner: string, mid: string, d: string, post: string) {
    && PlainRun(lead) && Inert(name) && Inert(inner) && PlainRun(mid) && Inert(d) && PlainRun(post)
    && WellFormed(CaptureOpen(name)) && WellFormed(SubRecursion(name, d))
  }

  /** The closed group's contents, its `)` and what follows up to the directive. */
  lemma ClosedBodyPlain(inner: string, mid: string)
    requires Inert(inner) && PlainRun(mid)
    ensures PlainRun(inner + ")" + mid)
  {
    var x := inner + ")" + mid;
    InertPlain(inner);
    forall k | 0 <= k < |x| ensures x[k] !in "([]\\" {
      if k < |inner| {
        assert x[k] == inner[k];
      } else if k > |inner| {
        assert x[k] == mid[k - |inner| - 1];
      }
    }
  }

  /** The directive past its `\g`, then plain text. */
  lemma DirectiveTailPlain(name: string, d: string, post: string)
    requires Inert(name) && Inert(d) && PlainRun(post)
    ensures PlainRun("<" + name + "&R=" + d + ">" + post)
  {
    var tail := "<" + name + "&R=" + d + ">" + post;
    var a := 1 + |name|;
    var b := a + 3 + |d|;
    InertPlain(name);
    InertPlain(d);
    forall k | 0 <= k < |tail| ensures tail[k] !in "([]\\" {
      if 1 <= k < a {
        assert tail[k] == name[k - 1];
      } else if a + 3 <= k < b {
        assert tail[k] == d[k - a - 3];
      } else if b + 1 <= k {
        assert tail[k] == post[k - b - 1];
      }
    }
  }

  lemma ClosedSplit(lead: string, o: string, x: string, g: string, post: string, name: string)
    ensures lead + o + x + g + post == lead + (o + (x + (g + post)))
    ensures "?<" + name + ">" + (x + (g + post)) == ("?<" + name + ">" + x) + (g + post)
  {
  }

  lemma ClosedHasDirective(s: string, lead: string, name: string, x: string, d: string, post: string)
    requires PlainRun(lead) && Inert(name) && PlainRun(x) && WellFormed(SubRecursion(name, d))
    requires s == lead + Text(CaptureOpen(name)) + x + Text(SubRecursion(name, d)) + post
    ensures HasUnescaped(s, RecursiveToken)
  {
    var o, g := Text(CaptureOpen(name)), Text(SubRecursion(name, d));
    ClosedSplit(lead, o, x, g, post, name);
    SubDirectiveHits(RecursiveToken, name, d, post);
    SubHeadPlain(name, x);
    PlainRunPrefix(RecursiveToken, "?<" + name + ">" + x, g + post, 0);
    SubOpenStep(RecursiveToken, name, x + (g + post));
    PlainRunPrefix(RecursiveToken, lead, o + (x + (g + post)), 0);
  }

  lemma ClosedDirectiveNoOther(n: Needle, name: string, d: string, post: string)
    requires n == NumberedBackrefToken || n == DefineToken
    requires Inert(name) && Inert(d) && PlainRun(post)
    ensures !AnyHit(LexOn(n, Text(SubRecursion(name, d)) + post, 0))
  {
    var tail := "<" + name + "&R=" + d + ">" + post;
    SubDirectiveLexemes(n, name, d, post);
    DirectiveTailPlain(name, d, post);
    PlainRunNoHit(n, tail, 0);
    AnyHitCons(Lexeme(Plain("\\g"), true), LexOn(n, tail, 0));
  }

  lemma ClosedNoOtherSyntax(n: Needle, s: string, lead: string, name: string, x: string, d: string, post: string)
    requires n == NumberedBackrefToken || n == DefineToken
    requires PlainRun(lead) && Inert(name) && PlainRun(x) && Inert(d) && PlainRun(post)
    requires s == lead + Text(CaptureOpen(name)) + x + Text(SubRecursion(name, d)) + post
    ensures !HasUnescaped(s, n)
  {
    var o, g := Text(CaptureOpen(name)), Text(SubRecursion(name, d));
    ClosedSplit(lead, o, x, g, post, name);
    ClosedDirectiveNoOther(n, name, d, post);
    SubHeadPlain(name, x);
    PlainRunPrefix(n, "?<" + name + ">" + x, g + post, 0);
    SubOpenStep(n, name, x + (g + post));
    PlainRunPrefix(n, lead, o + (x + (g + post)), 0);
  }

  /** The parts of `lead o x g post`, each at its position. */
  lemma ClosedParts(s: string, lead: string, o: string, x: string, g: string, post: string)
    requires s == lead + o + x + g + post
    ensures Piece(s, 0, lead) && Piece(s, |lead|, o) && Piece(s, |lead| + |o|, x + (g + post))
  {
    var rest := x + (g + post);
    assert s == lead + (o + rest);
    assert Piece(s, 0, lead + (o + rest));
    PieceSplit(s, 0, lead, o + rest);
    PieceSplit(s, |lead|, o, rest);
  }

  lemma ClosedTailParts(s: string, i: nat, x: string, g: string, post: string)
    requires Piece(s, i, x + (g + post))
    ensures Piece(s, i, x) && Piece(s, i + |x|, g)
  {
    PieceSplit(s, i, x, g + post);
    PieceSplit(s, i + |x|, g, post);
  }

  /** The scan records the closed group's start and stops at the directive. */
  lemma ClosedScan(s: string, lead: string, name: string, x: string, d: string, o: string, g: string)
    requires PlainRun(lead) && PlainRun(x)
    requires WellFormed(CaptureOpen(name)) && WellFormed(SubRecursion(name, d))
    requires o == Text(CaptureOpen(name)) && g == Text(SubRecursion(name, d))
    requires Piece(s, 0, lead) && Piece(s, |lead|, o) && Piece(s, |lead| + |o|, x) && Piece(s, |lead| + |o| + |x|, g)
    ensures Scan(s) == Some(Hit(|lead| + |o| + |x|, SubRecursion(name, d), map[][name := |lead| + |o|]))
  {
    PieceRun(s, 0, lead);
    PieceRun(s, |lead| + |o|, x);
    ScanToSubDirective(s, |lead|, |lead| + |o| + |x|, name, o, d, g);
  }

  /** The closed group's contents end at its own `)`. */
  lemma ClosedContents(s: string, i: nat, inner: string, mid: string)
    requires Inert(inner) && Piece(s, i, inner + ")" + mid)
    ensures GroupContents(s, i) == inner
  {
    assert inner + ")" + mid == inner + (")" + mid);
    PieceSplit(s, i, inner, ")" + mid);
    PieceSplit(s, i + |inner|, ")", mid);
    GroupEndRun(s, i, i + |inner|, 1);
    GroupEndClose(s, i + |inner|);
  }

  /** `lead (?<name> inner ) mid \g<name&R=N> post` passes the pre-checks
      and the scan stops at its directive, having recorded the group. */
  lemma ClosedSubHit(s: string, lead: string, name: string, inner: string, mid: string, d: string, post: string, o: string, x: string, g: string)
    requires ClosedSub(lead, name, inner, mid, d, post)
    requires o == Text(CaptureOpen(name)) && x == inner + ")" + mid && g == Text(SubRecursion(name, d))
    requires s == lead + o + x + g + post
    ensures PreChecksPass(s) && Scan(s) == Some(Hit(|lead| + |o| + |x|, SubRecursion(name, d), map[][name := |lead| + |o|]))
    ensures Piece(s, |lead| + |o|, x)
  {
    ClosedBodyPlain(inner, mid);
    ClosedHasDirective(s, lead, name, x, d, post);
    ClosedNoOtherSyntax(NumberedBackrefToken, s, lead, name, x, d, post);
    ClosedNoOtherSyntax(DefineToken, s, lead, name, x, d, post);
    ClosedParts(s, lead, o, x, g, post);
    ClosedTailParts(s, |lead| + |o|, x, g, post);
    ClosedScan(s, lead, name, x, d, o, g);
  }

  /** A recorded group whose contents are inert, closed by `)`, holds no
      directive, so the reference to it is rejected. */
  lemma InertGroupRejects(s: string, h: Hit, i: nat, inner: string, mid: string)
    requires PreChecksPass(s) && Scan(s) == Some(h) && h.tok.SubRecursion? && ParseDepth(h.tok.depth).Success?
    requires h.starts == map[][h.tok.name := i] && Inert(inner) && Piece(s, i, inner + ")" + mid)
    ensures Recursion(s) == Failure(OutsideReferencedGroup(h.tok.name, h.tok.depth))
  {
    ClosedContents(s, i, inner, mid);
    InertPlain(inner);
    PlainHasNone(GRToken, inner);
    ReferenceLegality(s, h);
  }

  /** A directive after its group has closed is rejected as outside the
      group it names. */
  lemma ClosedSubRejects(s: string, lead: string, name: string, inner: string, mid: string, d: string, post: string)
    requires ClosedSub(lead, name, inner, mid, d, post) && ParseDepth(d).Success?
    requires s == lead + Text(CaptureOpen(name)) + (inner + ")" + mid) + Text(SubRecursion(name, d)) + post
    ensures Recursion(s) == Failure(OutsideReferencedGroup(name, d))
  {
    var o, g, x := Text(CaptureOpen(name)), Text(SubRecursion(name, d)), inner + ")" + mid;
    ClosedSubHit(s, lead, name, inner, mid, d, post, o, x, g);
    InertGroupRejects(s, Hit(|lead| + |o| + |x|, SubRecursion(name, d), map[][name := |lead| + |o|]), |lead| + |o|, inner, mid);
  }
}
