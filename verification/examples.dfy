/** Worked cases from the project's own test suite, stated about the model. */
module Examples {
  import opened Wrappers
  import opened Decimal
  import opened Lexical
  import opened Unescaped
  import opened Unroll
  import opened Expansion
  import opened Shapes
  import opened Atoms

  /** The depth literals the tests accept. */
  lemma DepthsAccepted()
    ensures ParseDepth("2") == Success(2)
    ensures ParseDepth("100") == Success(100)
  {
    assert Value("1") == 1;
    assert Value("10") == 10;
    assert Value("100") == 100;
  }

  /** The depth literals the tests reject: a sign, a leading zero, a
      fraction, a word, and values outside 2..100. */
  lemma DepthsRejected()
    ensures ParseDepth("-2") == Failure(InvalidDepth("-2"))
    ensures ParseDepth("0") == Failure(InvalidDepth("0"))
    ensures ParseDepth("1") == Failure(InvalidDepth("1"))
    ensures ParseDepth("02") == Failure(InvalidDepth("02"))
    ensures ParseDepth("+2") == Failure(InvalidDepth("+2"))
    ensures ParseDepth("2.5") == Failure(InvalidDepth("2.5"))
    ensures ParseDepth("101") == Failure(InvalidDepth("101"))
    ensures ParseDepth("a") == Failure(InvalidDepth("a"))
    ensures ParseDepth("null") == Failure(InvalidDepth("null"))
  {
    assert Value("1") == 1;
    assert Value("10") == 10;
    assert Value("101") == 101;
    assert !IsDigit('.');
  }

  // `a(?R=N)?b` (the global recursion tests).

  lemma GlobalExampleFacts()
    ensures PlainGlobal("a", "2", "?b") && ParseDepth("2") == Success(2)
    ensures "a" + Text(GlobalRecursion("2")) + "?b" == "a(?R=2)?b"
    ensures "a" + Power("(?:a", 2 - 1) + "(?:)" + Power("?b)", 2 - 1) + "?b" == "a(?:a(?:)?b)?b"
  {
    assert Value("2") == 2;
    assert Power("(?:a", 1) == "(?:a" && Power("?b)", 1) == "?b)";
  }

  /** `a(?R=2)?b` becomes `a(?:a(?:)?b)?b`. */
  lemma GlobalExample()
    ensures Recursion("a(?R=2)?b") == Success("a(?:a(?:)?b)?b")
  {
    GlobalExampleFacts();
    GlobalPlainUnrolls("a(?R=2)?b", "a", "2", "?b", "a(?:a(?:)?b)?b");
  }

  /** A depth the model rejects makes `a(?R=N)?b` an error; this covers
      every literal of `DepthsRejected`. */
  lemma GlobalBadDepth(d: string)
    requires Inert(d) && |d| > 0 && ParseDepth(d).Failure?
    ensures Recursion("a(?R=" + d + ")?b") == Failure(InvalidDepth(d))
  {
    InertPlain(d);
    assert PlainGlobal("a", d, "?b");
    assert "a(?R=" + d + ")?b" == "a" + Text(GlobalRecursion(d)) + "?b";
    GlobalPlainRejects("a(?R=" + d + ")?b", "a", d, "?b");
  }

  /** Every accepted depth literal free of group and class syntax makes
      `a(?R=N)?b` unroll into `N - 1` levels. */
  lemma GlobalGoodDepth(d: string)
    requires Inert(d) && |d| > 0 && ParseDepth(d).Success?
    ensures var n := ParseDepth(d).value;
            Recursion("a(?R=" + d + ")?b") == Success("a" + Power("(?:a", n - 1) + "(?:)" + Power("?b)", n - 1) + "?b")
  {
    var n := ParseDepth(d).value;
    InertPlain(d);
    assert PlainGlobal("a", d, "?b");
    assert "a(?R=" + d + ")?b" == "a" + Text(GlobalRecursion(d)) + "?b";
    assert "(?:" + "a" == "(?:a" && "?b" + ")" == "?b)";
    GlobalPlainUnrolls("a(?R=" + d + ")?b", "a", d, "?b",
                       "a" + Power("(?:a", n - 1) + "(?:)" + Power("?b)", n - 1) + "?b");
  }

  lemma SubGoodDepthText(d: string, p: string, q: string)
    ensures "(?<r>a\\g<r&R=" + d + ">?b)" == "" + Text(CaptureOpen("r")) + "a" + Text(SubRecursion("r", d)) + "?b" + ")" + ""
    ensures "(?<r>a" + p + "(?:)" + q + "?b)" == "" + Text(CaptureOpen("r")) + "a" + p + "(?:)" + q + "?b" + ")" + ""
  {
    assert Text(SubRecursion("r", d)) == "\\g<r&R=" + d + ">";
  }

  /** Every accepted depth literal free of group and class syntax and of
      `>` makes `(?<r>a\g<r&R=N>?b)` unroll into `N - 1` levels inside the
      group. */
  lemma SubGoodDepth(d: string)
    requires Inert(d) && |d| > 0 && '>' !in d && ParseDepth(d).Success?
    ensures var n := ParseDepth(d).value;
            Recursion("(?<r>a\\g<r&R=" + d + ">?b)") == Success("(?<r>a" + Power("(?:a", n - 1) + "(?:)" + Power("?b)", n - 1) + "?b)")
  {
    var n := ParseDepth(d).value;
    assert "(?:" + "a" == "(?:a" && "?b" + ")" == "?b)";
    SubGoodDepthAt(d, n, Power("(?:a", n - 1), Power("?b)", n - 1));
  }

  lemma SubGoodDepthAt(d: string, n: nat, p: string, q: string)
    requires Inert(d) && |d| > 0 && '>' !in d && ParseDepth(d) == Success(n)
    requires p == Power("(?:" + "a", n - 1) && q == Power("?b" + ")", n - 1)
    ensures Recursion("(?<r>a\\g<r&R=" + d + ">?b)") == Success("(?<r>a" + p + "(?:)" + q + "?b)")
  {
    SubBadDepthFacts(d);
    SubGoodDepthText(d, p, q);
    SubPlainUnrolls("(?<r>a\\g<r&R=" + d + ">?b)", "", "r", "a", d, "?b", "", "(?<r>a" + p + "(?:)" + q + "?b)");
  }

  lemma DepthLiterals()
    ensures Inert("2") && Inert("100") && '>' !in "2" && '>' !in "100"
    ensures "a(?R=" + "100" + ")?b" == "a(?R=100)?b" && "(?<r>a\\g<r&R=" + "100" + ">?b)" == "(?<r>a\\g<r&R=100>?b)"
    ensures "a(?R=" + "2" + ")?b" == "a(?R=2)?b" && "(?<r>a\\g<r&R=" + "2" + ">?b)" == "(?<r>a\\g<r&R=2>?b)"
  {
  }

  /** The tests' accepted depths in whole patterns: `a(?R=N)?b` and
      `(?<r>a\g<r&R=N>?b)` with `N` = 2 and 100 unroll into 1 and 99 levels. */
  lemma DepthsAcceptedInPatterns()
    ensures Recursion("a(?R=2)?b") == Success("a" + Power("(?:a", 1) + "(?:)" + Power("?b)", 1) + "?b")
    ensures Recursion("(?<r>a\\g<r&R=2>?b)") == Success("(?<r>a" + Power("(?:a", 1) + "(?:)" + Power("?b)", 1) + "?b)")
    ensures Recursion("a(?R=100)?b") == Success("a" + Power("(?:a", 99) + "(?:)" + Power("?b)", 99) + "?b")
    ensures Recursion("(?<r>a\\g<r&R=100>?b)") == Success("(?<r>a" + Power("(?:a", 99) + "(?:)" + Power("?b)", 99) + "?b)")
  {
    DepthsAccepted();
    DepthLiterals();
    GlobalGoodDepth("2");
    SubGoodDepth("2");
    GlobalGoodDepth("100");
    SubGoodDepth("100");
  }

  lemma TwiceFacts()
    ensures PlainRun("a") && PlainRun("2") && PlainRun("?b") && PlainRun("?")
    ensures WellFormed(GlobalRecursion("2")) && ParseDepth("2").Success?
    ensures "a" + Text(GlobalRecursion("2")) + ("?b" + Text(GlobalRecursion("2")) + "?") == "a(?R=2)?b(?R=2)?"
  {
    assert Value("2") == 2;
  }

  /** `a(?R=2)?b(?R=2)?` is rejected: recursion is used twice. */
  lemma TwiceExample()
    ensures Recursion("a(?R=2)?b(?R=2)?") == Failure(RecursionUsedTwice)
  {
    TwiceFacts();
    GlobalTwiceRejects("a(?R=2)?b(?R=2)?", "a", "2", "?b", "2", "?");
  }

  // Escaped directives and directives inside a class are not directives.

  lemma UntouchedFacts()
    ensures PlainRun("a") && PlainRun("2") && PlainRun("?b") && PlainRun("b")
    ensures WellFormed(GlobalRecursion("2"))
    ensures "a" + "\\" + Text(GlobalRecursion("2")) + "?b" == "a\\(?R=2)?b"
    ensures "a" + "[" + Text(GlobalRecursion("2")) + "]" + "b" == "a[(?R=2)]b"
  {
  }

  /** `a\(?R=2)?b` is returned as it is. */
  lemma EscapedExample()
    ensures Recursion("a\\(?R=2)?b") == Success("a\\(?R=2)?b")
  {
    UntouchedFacts();
    EscapedGlobalUntouched("a\\(?R=2)?b", "a", "2", "?b");
  }

  /** `a[(?R=2)]b` is returned as it is. */
  lemma ClassExample()
    ensures Recursion("a[(?R=2)]b") == Success("a[(?R=2)]b")
  {
    UntouchedFacts();
    ClassGlobalUntouched("a[(?R=2)]b", "a", "2", "b");
  }

  // `(?<r>a\g<r&R=N>?b)` (the subpattern recursion tests).

  lemma SubExampleNames()
    ensures Inert("r") && Inert("a") && Inert("2") && Inert("?b")
    ensures WellFormed(CaptureOpen("r")) && WellFormed(SubRecursion("r", "2"))
  {
  }

  lemma SubExampleInput()
    ensures Text(CaptureOpen("r")) + "a" + Text(SubRecursion("r", "2")) + "?b" + ")" == "(?<r>a\\g<r&R=2>?b)"
  {
  }

  lemma SubExampleOutput()
    ensures Text(CaptureOpen("r")) + "a" + Power("(?:" + "a", 2 - 1) + "(?:)" + Power("?b" + ")", 2 - 1) + "?b" + ")"
            == "(?<r>a(?:a(?:)?b)?b)"
  {
    assert Power("(?:a", 1) == "(?:a" && Power("?b)", 1) == "?b)";
  }

  lemma SubExampleSplit(lead: string, trail: string, x: string, y: string, z: string, w: string, m: string)
    requires m == x + y + z + w + ")"
    ensures lead + m + trail == lead + x + y + z + w + ")" + trail
  {
  }

  /** The example's input and output, cut where the general shape lemma
      expects them. */
  lemma SubExampleStrings(lead: string, trail: string)
    ensures lead + "(?<r>a\\g<r&R=2>?b)" + trail
            == lead + Text(CaptureOpen("r")) + "a" + Text(SubRecursion("r", "2")) + "?b" + ")" + trail
    ensures lead + "(?<r>a(?:a(?:)?b)?b)" + trail
            == lead + Text(CaptureOpen("r")) + "a" + Power("(?:" + "a", 2 - 1) + "(?:)" + Power("?b" + ")", 2 - 1) + "?b" + ")" + trail
  {
    SubExampleInput();
    SubExampleOutput();
    var o := Text(CaptureOpen("r"));
    SubExampleSplit(lead, trail, o, "a", Text(SubRecursion("r", "2")), "?b", "(?<r>a\\g<r&R=2>?b)");
    SubExampleSplit(lead, trail, o + "a", Power("(?:" + "a", 2 - 1), "(?:)", Power("?b" + ")", 2 - 1) + "?b", "(?<r>a(?:a(?:)?b)?b)");
  }

  /** The example between plain surroundings, in the general shape. */
  lemma SubExampleUnrolls(lead: string, trail: string, s: string, r: string)
    requires PlainRun(lead) && PlainRun(trail)
    requires s == lead + Text(CaptureOpen("r")) + "a" + Text(SubRecursion("r", "2")) + "?b" + ")" + trail
    requires r == lead + Text(CaptureOpen("r")) + "a" + Power("(?:" + "a", 2 - 1) + "(?:)" + Power("?b" + ")", 2 - 1) + "?b" + ")" + trail
    ensures Recursion(s) == Success(r)
  {
    SubExampleNames();
    DepthsAccepted();
    SubPlainUnrolls(s, lead, "r", "a", "2", "?b", trail, r);
  }

  /** `(?<r>a\g<r&R=2>?b)` becomes `(?<r>a(?:a(?:)?b)?b)` between any
      surroundings that open nothing, such as the anchors `^` and `$`. */
  lemma SubExample(lead: string, trail: string)
    requires PlainRun(lead) && PlainRun(trail)
    ensures Recursion(lead + "(?<r>a\\g<r&R=2>?b)" + trail) == Success(lead + "(?<r>a(?:a(?:)?b)?b)" + trail)
  {
    SubExampleStrings(lead, trail);
    SubExampleUnrolls(lead, trail, lead + "(?<r>a\\g<r&R=2>?b)" + trail, lead + "(?<r>a(?:a(?:)?b)?b)" + trail);
  }

  lemma AnchoredText()
    ensures PlainRun("^") && PlainRun("$")
    ensures "^" + "(?<r>a\\g<r&R=2>?b)" + "$" == "^(?<r>a\\g<r&R=2>?b)$"
    ensures "^" + "(?<r>a(?:a(?:)?b)?b)" + "$" == "^(?<r>a(?:a(?:)?b)?b)$"
  {
  }

  /** `^(?<r>a\g<r&R=2>?b)$` becomes `^(?<r>a(?:a(?:)?b)?b)$`. */
  lemma AnchoredSubExample()
    ensures Recursion("^(?<r>a\\g<r&R=2>?b)$") == Success("^(?<r>a(?:a(?:)?b)?b)$")
  {
    AnchoredText();
    SubExample("^", "$");
  }

  lemma SubBadDepthText(d: string)
    ensures "(?<r>a\\g<r&R=" + d + ">?b)" == "" + Text(CaptureOpen("r")) + "a" + Text(SubRecursion("r", d)) + "?b" + ")" + ""
  {
    assert Text(SubRecursion("r", d)) == "\\g<r&R=" + d + ">";
  }

  lemma SubBadDepthFacts(d: string)
    requires Inert(d) && |d| > 0 && '>' !in d
    ensures PlainSub("", "r", "a", d, "?b", "")
  {
    SubExampleNames();
  }

  /** A depth the model rejects makes `(?<r>a\g<r&R=N>?b)` an error. */
  lemma SubBadDepth(d: string)
    requires Inert(d) && |d| > 0 && '>' !in d && ParseDepth(d).Failure?
    ensures Recursion("(?<r>a\\g<r&R=" + d + ">?b)") == Failure(InvalidDepth(d))
  {
    SubBadDepthFacts(d);
    SubBadDepthText(d);
    SubPlainRejects("(?<r>a\\g<r&R=" + d + ">?b)", "", "r", "a", d, "?b", "");
  }

  // `(?<a>)\g<a&R=2>?`: a reference to a group that is not an ancestor.

  lemma NonAncestorFacts()
    ensures ClosedSub("", "a", "", "", "2", "?") && ParseDepth("2").Success?
    ensures "" + Text(CaptureOpen("a")) + ("" + ")" + "") + Text(SubRecursion("a", "2")) + "?" == "(?<a>)\\g<a&R=2>?"
  {
    assert Value("2") == 2;
  }

  /** `(?<a>)\g<a&R=2>?` is rejected: the group is closed before the
      directive. */
  lemma NonAncestorExample()
    ensures Recursion("(?<a>)\\g<a&R=2>?") == Failure(OutsideReferencedGroup("a", "2"))
  {
    NonAncestorFacts();
    ClosedSubRejects("(?<a>)\\g<a&R=2>?", "", "a", "", "", "2", "?");
  }

  // Numbered subpattern recursion: `\g<1&R=N>` is read as a directive
  // naming a group called `1`. No `(?<1>` opener can precede it, so the
  // directive is rejected as outside its group.

  /** The facts about one atom in front of a list. */
  lemma ConsFacts(a: Atom, xs: seq<Atom>)
    ensures ValidAtoms([a] + xs) <==> ValidAtom(a) && ValidAtoms(xs)
    ensures Sees(RecursiveToken, [a] + xs) <==> NeedleKind(RecursiveToken, AtomToken(a)) || Sees(RecursiveToken, xs)
    ensures GroupNames([a] + xs) == (if a.Group? then {a.name} else {}) + GroupNames(xs)
    ensures Spell([a] + xs) == Text(AtomToken(a)) + Spell(xs)
  {
    ValidCons(a, xs);
    SeesCons(RecursiveToken, a, xs);
    NestingCons(a, xs, 0);
    SpellCons(a, xs);
  }

  /** A reference with depth 2 to a name no atom before it opens. */
  lemma NumberedRejects(pre: seq<Atom>, name: string, post: seq<Atom>, s: string)
    requires ValidAtoms(pre) && ValidAtom(Recurse(name, "2")) && ValidAtoms(post)
    requires !Sees(RecursiveToken, pre) && name !in GroupNames(pre)
    requires s == Spell(pre) + Text(SubRecursion(name, "2")) + Spell(post)
    ensures Recursion(s) == Failure(OutsideReferencedGroup(name, "2"))
  {
    DepthsAccepted();
    UnopenedSpelled(pre, name, "2", post);
  }

  lemma NumberedNames()
    ensures ValidAtom(Group("r")) && ValidAtom(Group("a")) && ValidAtom(Group("b"))
    ensures ValidAtom(Recurse("1", "2")) && ValidAtom(Recurse("2", "2"))
    ensures Text(SubRecursion("1", "2")) == "\\g<1&R=2>" && Text(SubRecursion("2", "2")) == "\\g<2&R=2>"
  {
  }

  /** `^(?<r>a` and `?b)$` as atoms. */
  lemma AnchoredNumberedAtoms(pre: seq<Atom>, post: seq<Atom>)
    requires pre == [Char('^')] + ([Group("r")] + ([Char('a')] + []))
    requires post == [Char('?')] + ([Char('b')] + ([Char(')')] + ([Char('$')] + [])))
    ensures ValidAtoms(pre) && ValidAtoms(post) && !Sees(RecursiveToken, pre) && "1" !in GroupNames(pre)
    ensures Spell(pre) == "^(?<r>a" && Spell(post) == "?b)$"
  {
    NumberedNames();
    ConsFacts(Char('a'), []);
    ConsFacts(Group("r"), [Char('a')] + []);
    ConsFacts(Char('^'), [Group("r")] + ([Char('a')] + []));
    ConsFacts(Char('$'), []);
    ConsFacts(Char(')'), [Char('$')] + []);
    ConsFacts(Char('b'), [Char(')')] + ([Char('$')] + []));
    ConsFacts(Char('?'), [Char('b')] + ([Char(')')] + ([Char('$')] + [])));
  }

  lemma AnchoredNumberedText()
    ensures "^(?<r>a" + Text(SubRecursion("1", "2")) + "?b)$" == "^(?<r>a\\g<1&R=2>?b)$"
  {
  }

  /** `^(?<r>a\g<1&R=2>?b)$` is rejected as outside the referenced group:
      the code reads `1` as a group name, and no group of that name is
      opened. */
  lemma AnchoredNumberedExample()
    ensures Recursion("^(?<r>a\\g<1&R=2>?b)$") == Failure(OutsideReferencedGroup("1", "2"))
  {
    var pre := [Char('^')] + ([Group("r")] + ([Char('a')] + []));
    var post := [Char('?')] + ([Char('b')] + ([Char(')')] + ([Char('$')] + [])));
    AnchoredNumberedAtoms(pre, post);
    NumberedNames();
    AnchoredNumberedText();
    NumberedRejects(pre, "1", post, "^(?<r>a\\g<1&R=2>?b)$");
  }

  /** `(?<a>)` and `?` as atoms. */
  lemma BeforeAtoms(pre: seq<Atom>, post: seq<Atom>)
    requires pre == [Group("a")] + ([Char(')')] + []) && post == [Char('?')] + []
    ensures ValidAtoms(pre) && ValidAtoms(post) && !Sees(RecursiveToken, pre) && "1" !in GroupNames(pre)
    ensures Spell(pre) == "(?<a>)" && Spell(post) == "?"
  {
    NumberedNames();
    ConsFacts(Char(')'), []);
    ConsFacts(Group("a"), [Char(')')] + []);
    ConsFacts(Char('?'), []);
  }

  /** `?(?<a>)` as atoms. */
  lemma AfterAtoms(post: seq<Atom>)
    requires post == [Char('?')] + ([Group("a")] + ([Char(')')] + []))
    ensures ValidAtoms(post) && Spell(post) == "?(?<a>)"
  {
    NumberedNames();
    ConsFacts(Char(')'), []);
    ConsFacts(Group("a"), [Char(')')] + []);
    ConsFacts(Char('?'), [Group("a")] + ([Char(')')] + []));
  }

  /** `(?<a>)(?<b>` and `?)` as atoms. */
  lemma SiblingAtoms(pre: seq<Atom>, post: seq<Atom>)
    requires pre == [Group("a")] + ([Char(')')] + ([Group("b")] + []))
    requires post == [Char('?')] + ([Char(')')] + [])
    ensures ValidAtoms(pre) && ValidAtoms(post) && !Sees(RecursiveToken, pre) && "1" !in GroupNames(pre)
    ensures Spell(pre) == "(?<a>)(?<b>" && Spell(post) == "?)"
  {
    NumberedNames();
    ConsFacts(Group("b"), []);
    ConsFacts(Char(')'), [Group("b")] + []);
    ConsFacts(Group("a"), [Char(')')] + ([Group("b")] + []));
    ConsFacts(Char(')'), []);
    ConsFacts(Char('?'), [Char(')')] + []);
  }

  /** `(?<b>` and `?)(?<a>)` as atoms. */
  lemma LaterAtoms(pre: seq<Atom>, post: seq<Atom>)
    requires pre == [Group("b")] + []
    requires post == [Char('?')] + ([Char(')')] + ([Group("a")] + ([Char(')')] + [])))
    ensures ValidAtoms(pre) && ValidAtoms(post) && !Sees(RecursiveToken, pre) && "2" !in GroupNames(pre)
    ensures Spell(pre) == "(?<b>" && Spell(post) == "?)(?<a>)"
  {
    NumberedNames();
    ConsFacts(Group("b"), []);
    ConsFacts(Char(')'), []);
    ConsFacts(Group("a"), [Char(')')] + []);
    ConsFacts(Char(')'), [Group("a")] + ([Char(')')] + []));
    ConsFacts(Char('?'), [Char(')')] + ([Group("a")] + ([Char(')')] + [])));
  }

  lemma SiblingText()
    ensures "(?<a>)(?<b>" + Text(SubRecursion("1", "2")) + "?)" == "(?<a>)(?<b>\\g<1&R=2>?)"
  {
  }

  lemma LaterText()
    ensures "(?<b>" + Text(SubRecursion("2", "2")) + "?)(?<a>)" == "(?<b>\\g<2&R=2>?)(?<a>)"
  {
  }

  lemma BeforeNumbered()
    ensures Recursion("(?<a>)\\g<1&R=2>?") == Failure(OutsideReferencedGroup("1", "2"))
  {
    var pre, post := [Group("a")] + ([Char(')')] + []), [Char('?')] + [];
    BeforeAtoms(pre, post);
    NumberedNames();
    NumberedRejects(pre, "1", post, "(?<a>)\\g<1&R=2>?");
  }

  lemma AfterNumbered()
    ensures Recursion("\\g<1&R=2>?(?<a>)") == Failure(OutsideReferencedGroup("1", "2"))
  {
    var post := [Char('?')] + ([Group("a")] + ([Char(')')] + []));
    AfterAtoms(post);
    NumberedNames();
    assert Spell([]) == "" && GroupNames([]) == {};
    NumberedRejects([], "1", post, "\\g<1&R=2>?(?<a>)");
  }

  lemma SiblingNumbered()
    ensures Recursion("(?<a>)(?<b>\\g<1&R=2>?)") == Failure(OutsideReferencedGroup("1", "2"))
  {
    var pre := [Group("a")] + ([Char(')')] + ([Group("b")] + []));
    var post := [Char('?')] + ([Char(')')] + []);
    SiblingAtoms(pre, post);
    NumberedNames();
    SiblingText();
    NumberedRejects(pre, "1", post, "(?<a>)(?<b>\\g<1&R=2>?)");
  }

  lemma LaterNumbered()
    ensures Recursion("(?<b>\\g<2&R=2>?)(?<a>)") == Failure(OutsideReferencedGroup("2", "2"))
  {
    var pre := [Group("b")] + [];
    var post := [Char('?')] + ([Char(')')] + ([Group("a")] + ([Char(')')] + [])));
    LaterAtoms(pre, post);
    NumberedNames();
    LaterText();
    NumberedRejects(pre, "2", post, "(?<b>\\g<2&R=2>?)(?<a>)");
  }

  /** The four patterns the tests expect to fail because `\g<1&R=2>` or
      `\g<2&R=2>` names no group opened before it are each rejected as
      outside the referenced group. */
  lemma NonAncestorNumberedExample()
    ensures Recursion("(?<a>)\\g<1&R=2>?") == Failure(OutsideReferencedGroup("1", "2"))
    ensures Recursion("\\g<1&R=2>?(?<a>)") == Failure(OutsideReferencedGroup("1", "2"))
    ensures Recursion("(?<a>)(?<b>\\g<1&R=2>?)") == Failure(OutsideReferencedGroup("1", "2"))
    ensures Recursion("(?<b>\\g<2&R=2>?)(?<a>)") == Failure(OutsideReferencedGroup("2", "2"))
  {
    BeforeNumbered();
    AfterNumbered();
    SiblingNumbered();
    LaterNumbered();
  }

  // `(?<w>\w)0(?R=2)?1\k<w>`: the copy renames the group and its
  // back-reference.

  /** `(?<nm>\w)0` and `?1\k<nm>` as atoms. */
  function NamedPre(nm: string): seq<Atom> {
    [Group(nm)] + ([Escape('w')] + ([Char(')')] + ([Char('0')] + [])))
  }

  function NamedPost(nm: string): seq<Atom> {
    [Char('?')] + ([Char('1')] + ([Ref(nm)] + []))
  }

  lemma NamedAtoms(nm: string)
    requires ValidAtom(Group(nm))
    ensures ValidAtoms(NamedPre(nm)) && ValidAtoms(NamedPost(nm))
    ensures !Sees(RecursiveToken, NamedPre(nm)) && !Sees(RecursiveToken, NamedPost(nm))
  {
    ValidCons(Char('0'), []);
    ValidCons(Char(')'), [Char('0')] + []);
    ValidCons(Escape('w'), [Char(')')] + ([Char('0')] + []));
    ValidCons(Group(nm), [Escape('w')] + ([Char(')')] + ([Char('0')] + [])));
    ValidCons(Ref(nm), []);
    ValidCons(Char('1'), [Ref(nm)] + []);
    ValidCons(Char('?'), [Char('1')] + ([Ref(nm)] + []));
    SeesCons(RecursiveToken, Char('0'), []);
    SeesCons(RecursiveToken, Char(')'), [Char('0')] + []);
    SeesCons(RecursiveToken, Escape('w'), [Char(')')] + ([Char('0')] + []));
    SeesCons(RecursiveToken, Group(nm), [Escape('w')] + ([Char(')')] + ([Char('0')] + [])));
    SeesCons(RecursiveToken, Ref(nm), []);
    SeesCons(RecursiveToken, Char('1'), [Ref(nm)] + []);
    SeesCons(RecursiveToken, Char('?'), [Char('1')] + ([Ref(nm)] + []));
  }

  lemma NamedPreSpelled(nm: string)
    ensures Spell(NamedPre(nm)) == "(?<" + nm + ">\\w)0"
  {
    SpellCons(Char('0'), []);
    SpellCons(Char(')'), [Char('0')] + []);
    SpellCons(Escape('w'), [Char(')')] + ([Char('0')] + []));
    SpellCons(Group(nm), [Escape('w')] + ([Char(')')] + ([Char('0')] + [])));
  }

  lemma NamedPostSpelled(nm: string)
    ensures Spell(NamedPost(nm)) == "?1\\k<" + nm + ">"
  {
    SpellCons(Ref(nm), []);
    SpellCons(Char('1'), [Ref(nm)] + []);
    SpellCons(Char('?'), [Char('1')] + ([Ref(nm)] + []));
  }

  lemma NamedRenamed(nm: string, tag: string)
    ensures Renames(NamedPre(nm), tag, None) == NamedPre(nm + tag)
    ensures Renames(NamedPost(nm), tag, None) == NamedPost(nm + tag)
  {
    RenamesCons(Char('0'), [], tag, None);
    RenamesCons(Char(')'), [Char('0')] + [], tag, None);
    RenamesCons(Escape('w'), [Char(')')] + ([Char('0')] + []), tag, None);
    RenamesCons(Group(nm), [Escape('w')] + ([Char(')')] + ([Char('0')] + [])), tag, None);
    RenamesCons(Ref(nm), [], tag, None);
    RenamesCons(Char('1'), [Ref(nm)] + [], tag, None);
    RenamesCons(Char('?'), [Char('1')] + ([Ref(nm)] + []), tag, None);
  }

  lemma NamedGlobalText()
    ensures Tag(2) == "_$2" && "w" + Tag(2) == "w_$2"
    ensures ValidAtom(Group("w")) && ValidAtom(RecurseAll("2"))
  {
    assert Show(2) == "2";
  }

  lemma NamedPieces()
    ensures "(?<" + "w" + ">\\w)0" == "(?<w>\\w)0" && "?1\\k<" + "w" + ">" == "?1\\k<w>"
    ensures Text(GlobalRecursion("2")) == "(?R=2)"
  {
  }

  lemma NamedGlobalInput(p: string, q: string, s: string)
    requires p == "(?<w>\\w)0" && q == "?1\\k<w>" && s == p + "(?R=2)" + q
    ensures s == "(?<w>\\w)0(?R=2)?1\\k<w>"
  {
  }

  lemma NamedGlobalCopy(p: string, q: string, c: string)
    requires p == "(?<" + "w_$2" + ">\\w)0" && q == "?1\\k<" + "w_$2" + ">"
    requires c == "(?:" + p + "(?:)" + q + ")"
    ensures c == "(?:(?<w_$2>\\w)0(?:)?1\\k<w_$2>)"
  {
    assert p == "(?<w_$2>\\w)0";
    assert q == "?1\\k<w_$2>";
  }

  lemma NamedGlobalResult(p: string, q: string, c: string, r: string)
    requires p == "(?<w>\\w)0" && q == "?1\\k<w>" && c == "(?:(?<w_$2>\\w)0(?:)?1\\k<w_$2>)"
    requires r == p + c + q
    ensures r == "(?<w>\\w)0(?:(?<w_$2>\\w)0(?:)?1\\k<w_$2>)?1\\k<w>"
  {
  }

  lemma NamedGlobalSpelled(pre: seq<Atom>, post: seq<Atom>)
    requires pre == NamedPre("w") && post == NamedPost("w")
    ensures Recursion(Spell(pre) + Text(GlobalRecursion("2")) + Spell(post))
            == Success(Spell(pre) + Nest(Respelling(pre, None), Respelling(post, None), 0, 1) + Spell(post))
  {
    NamedGlobalText();
    NamedAtoms("w");
    DepthsAccepted();
    GlobalSpelled(pre, "2", post);
  }

  lemma NamedNest(pre: seq<Atom>, post: seq<Atom>)
    requires pre == NamedPre("w") && post == NamedPost("w")
    ensures Nest(Respelling(pre, None), Respelling(post, None), 0, 1)
            == "(?:" + Spell(NamedPre("w_$2")) + "(?:)" + Spell(NamedPost("w_$2")) + ")"
  {
    NamedGlobalText();
    NamedRenamed("w", Tag(2));
    var p, q := Respelling(pre, None), Respelling(post, None);
    assert Nest(p, q, 0, 1) == "(?:" + p(2) + Nest(p, q, 1, 1) + q(2) + ")";
  }

  lemma NamedGlobalUnrolls(s: string, r: string)
    requires s == Spell(NamedPre("w")) + Text(GlobalRecursion("2")) + Spell(NamedPost("w"))
    requires r == Spell(NamedPre("w")) + ("(?:" + Spell(NamedPre("w_$2")) + "(?:)" + Spell(NamedPost("w_$2")) + ")") + Spell(NamedPost("w"))
    ensures Recursion(s) == Success(r)
  {
    NamedGlobalSpelled(NamedPre("w"), NamedPost("w"));
    NamedNest(NamedPre("w"), NamedPost("w"));
  }

  lemma NamedGlobalStrings()
    ensures "(?<w>\\w)0(?R=2)?1\\k<w>" == Spell(NamedPre("w")) + Text(GlobalRecursion("2")) + Spell(NamedPost("w"))
    ensures "(?<w>\\w)0(?:(?<w_$2>\\w)0(?:)?1\\k<w_$2>)?1\\k<w>"
            == Spell(NamedPre("w")) + ("(?:" + Spell(NamedPre("w_$2")) + "(?:)" + Spell(NamedPost("w_$2")) + ")") + Spell(NamedPost("w"))
  {
    var p, q := Spell(NamedPre("w")), Spell(NamedPost("w"));
    var c := "(?:" + Spell(NamedPre("w_$2")) + "(?:)" + Spell(NamedPost("w_$2")) + ")";
    NamedPreSpelled("w");
    NamedPostSpelled("w");
    NamedPreSpelled("w_$2");
    NamedPostSpelled("w_$2");
    NamedPieces();
    NamedGlobalInput(p, q, p + Text(GlobalRecursion("2")) + q);
    NamedGlobalCopy(Spell(NamedPre("w_$2")), Spell(NamedPost("w_$2")), c);
    NamedGlobalResult(p, q, c, p + c + q);
  }

  /** `(?<w>\w)0(?R=2)?1\k<w>` becomes
      `(?<w>\w)0(?:(?<w_$2>\w)0(?:)?1\k<w_$2>)?1\k<w>`: the copy's group is
      `w_$2` and the copy's back-reference follows it, while the original
      group and back-reference keep their name. */
  lemma NamedGlobalExample()
    ensures Recursion("(?<w>\\w)0(?R=2)?1\\k<w>") == Success("(?<w>\\w)0(?:(?<w_$2>\\w)0(?:)?1\\k<w_$2>)?1\\k<w>")
  {
    NamedGlobalStrings();
    NamedGlobalUnrolls("(?<w>\\w)0(?R=2)?1\\k<w>", "(?<w>\\w)0(?:(?<w_$2>\\w)0(?:)?1\\k<w_$2>)?1\\k<w>");
  }

  // `^(?<a>a)\k<a>(?<r>(?<b>b)\k<a>\k<b>\k<c>\g<r&R=2>?)(?<c>c)\k<c>$`:
  // the copy renames only the group opened inside `r` and the
  // back-reference to it; `\k<a>` and `\k<c>` keep their targets.

  /** `^(?<a>a)\k<a>`, `(?<nm>b)\k<a>\k<nm>\k<c>`, `?` and `(?<c>c)\k<c>$`
      as atoms. */
  function RefsLead(): seq<Atom> {
    [Char('^')] + ([Group("a")] + ([Char('a')] + ([Char(')')] + ([Ref("a")] + []))))
  }

  function RefsPre(nm: string): seq<Atom> {
    [Group(nm)] + ([Char('b')] + ([Char(')')] + ([Ref("a")] + ([Ref(nm)] + ([Ref("c")] + [])))))
  }

  function RefsPost(): seq<Atom> {
    [Char('?')] + []
  }

  function RefsTrail(): seq<Atom> {
    [Group("c")] + ([Char('c')] + ([Char(')')] + ([Ref("c")] + ([Char('$')] + []))))
  }

  lemma RefsOuterValid()
    ensures ValidAtoms(RefsLead()) && ValidAtoms(RefsPost()) && ValidAtoms(RefsTrail())
  {
    ValidCons(Ref("a"), []);
    ValidCons(Char(')'), [Ref("a")] + []);
    ValidCons(Char('a'), [Char(')')] + ([Ref("a")] + []));
    ValidCons(Group("a"), [Char('a')] + ([Char(')')] + ([Ref("a")] + [])));
    ValidCons(Char('^'), [Group("a")] + ([Char('a')] + ([Char(')')] + ([Ref("a")] + []))));
    ValidCons(Char('?'), []);
    ValidCons(Char('$'), []);
    ValidCons(Ref("c"), [Char('$')] + []);
    ValidCons(Char(')'), [Ref("c")] + ([Char('$')] + []));
    ValidCons(Char('c'), [Char(')')] + ([Ref("c")] + ([Char('$')] + [])));
    ValidCons(Group("c"), [Char('c')] + ([Char(')')] + ([Ref("c")] + ([Char('$')] + []))));
  }

  lemma RefsInnerValid()
    ensures ValidAtoms(RefsPre("b")) && ValidAtom(Group("r")) && ValidAtom(Recurse("r", "2"))
  {
    ValidCons(Ref("c"), []);
    ValidCons(Ref("b"), [Ref("c")] + []);
    ValidCons(Ref("a"), [Ref("b")] + ([Ref("c")] + []));
    ValidCons(Char(')'), [Ref("a")] + ([Ref("b")] + ([Ref("c")] + [])));
    ValidCons(Char('b'), [Char(')')] + ([Ref("a")] + ([Ref("b")] + ([Ref("c")] + []))));
    ValidCons(Group("b"), [Char('b')] + ([Char(')')] + ([Ref("a")] + ([Ref("b")] + ([Ref("c")] + [])))));
  }

  lemma RefsUnseen()
    ensures !Sees(RecursiveToken, RefsLead()) && !Sees(RecursiveToken, RefsPre("b"))
    ensures !Sees(RecursiveToken, RefsPost()) && !Sees(RecursiveToken, RefsTrail())
  {
    SeesCons(RecursiveToken, Ref("a"), []);
    SeesCons(RecursiveToken, Char(')'), [Ref("a")] + []);
    SeesCons(RecursiveToken, Char('a'), [Char(')')] + ([Ref("a")] + []));
    SeesCons(RecursiveToken, Group("a"), [Char('a')] + ([Char(')')] + ([Ref("a")] + [])));
    SeesCons(RecursiveToken, Char('^'), [Group("a")] + ([Char('a')] + ([Char(')')] + ([Ref("a")] + []))));
    SeesCons(RecursiveToken, Ref("c"), []);
    SeesCons(RecursiveToken, Ref("b"), [Ref("c")] + []);
    SeesCons(RecursiveToken, Ref("a"), [Ref("b")] + ([Ref("c")] + []));
    SeesCons(RecursiveToken, Char(')'), [Ref("a")] + ([Ref("b")] + ([Ref("c")] + [])));
    SeesCons(RecursiveToken, Char('b'), [Char(')')] + ([Ref("a")] + ([Ref("b")] + ([Ref("c")] + []))));
    SeesCons(RecursiveToken, Group("b"), [Char('b')] + ([Char(')')] + ([Ref("a")] + ([Ref("b")] + ([Ref("c")] + [])))));
    SeesCons(RecursiveToken, Char('?'), []);
    SeesCons(RecursiveToken, Char('$'), []);
    SeesCons(RecursiveToken, Ref("c"), [Char('$')] + []);
    SeesCons(RecursiveToken, Char(')'), [Ref("c")] + ([Char('$')] + []));
    SeesCons(RecursiveToken, Char('c'), [Char(')')] + ([Ref("c")] + ([Char('$')] + [])));
    SeesCons(RecursiveToken, Group("c"), [Char('c')] + ([Char(')')] + ([Ref("c")] + ([Char('$')] + []))));
  }

  /** The group `r` holds the group `b` and closes where it opened. */
  lemma RefsNesting()
    ensures GroupNames(RefsPre("b") + RefsPost()) == {"b"}
    ensures Inside(RefsPre("b"), 1) && Level(RefsPre("b"), 1) == 1
    ensures Inside(RefsPost(), 1) && Level(RefsPost(), 1) == 1
  {
    NestingCons(Ref("c"), [], 1);
    NestingCons(Ref("b"), [Ref("c")] + [], 1);
    NestingCons(Ref("a"), [Ref("b")] + ([Ref("c")] + []), 1);
    NestingCons(Char(')'), [Ref("a")] + ([Ref("b")] + ([Ref("c")] + [])), 2);
    NestingCons(Char('b'), [Char(')')] + ([Ref("a")] + ([Ref("b")] + ([Ref("c")] + []))), 2);
    NestingCons(Group("b"), [Char('b')] + ([Char(')')] + ([Ref("a")] + ([Ref("b")] + ([Ref("c")] + [])))), 1);
    NestingCons(Char('?'), [], 1);
    GroupNamesAppend(RefsPre("b"), RefsPost());
  }

  /** The copy renames the group `b` and the back-reference to it only. */
  lemma RefsRenamed(tag: string)
    ensures Renames(RefsPre("b"), tag, Some({"b"})) == RefsPre("b" + tag)
    ensures Renames(RefsPost(), tag, Some({"b"})) == RefsPost()
  {
    var scope := Some({"b"});
    RenamesCons(Ref("c"), [], tag, scope);
    RenamesCons(Ref("b"), [Ref("c")] + [], tag, scope);
    RenamesCons(Ref("a"), [Ref("b")] + ([Ref("c")] + []), tag, scope);
    RenamesCons(Char(')'), [Ref("a")] + ([Ref("b")] + ([Ref("c")] + [])), tag, scope);
    RenamesCons(Char('b'), [Char(')')] + ([Ref("a")] + ([Ref("b")] + ([Ref("c")] + []))), tag, scope);
    RenamesCons(Group("b"), [Char('b')] + ([Char(')')] + ([Ref("a")] + ([Ref("b")] + ([Ref("c")] + [])))), tag, scope);
    RenamesCons(Char('?'), [], tag, scope);
  }

  /** The example in the shape of the general lemma for a directive's
      group spelled out in atoms. */
  lemma RefsSpelled(lead: seq<Atom>, pre: seq<Atom>, post: seq<Atom>, trail: seq<Atom>)
    requires lead == RefsLead() && pre == RefsPre("b") && post == RefsPost() && trail == RefsTrail()
    ensures Recursion(Spell(lead) + Text(CaptureOpen("r")) + Spell(pre) + Text(SubRecursion("r", "2")) + Spell(post) + ")" + Spell(trail))
            == Success(Spell(lead) + Text(CaptureOpen("r"))
                       + (Spell(pre) + Nest(Respelling(pre, Some({"b"})), Respelling(post, Some({"b"})), 0, 1) + Spell(post))
                       + ")" + Spell(trail))
  {
    RefsOuterValid();
    RefsInnerValid();
    RefsUnseen();
    RefsNesting();
    DepthsAccepted();
    SubSpelled(lead, "r", pre, "2", post, trail);
  }

  lemma RefsNest(pre: seq<Atom>, post: seq<Atom>)
    requires pre == RefsPre("b") && post == RefsPost()
    ensures Nest(Respelling(pre, Some({"b"})), Respelling(post, Some({"b"})), 0, 1)
            == "(?:" + Spell(RefsPre("b_$2")) + "(?:)" + Spell(RefsPost()) + ")"
  {
    NamedGlobalText();
    assert "b" + Tag(2) == "b_$2";
    RefsRenamed(Tag(2));
    var p, q := Respelling(pre, Some({"b"})), Respelling(post, Some({"b"}));
    assert Nest(p, q, 0, 1) == "(?:" + p(2) + Nest(p, q, 1, 1) + q(2) + ")";
  }

  lemma RefsUnrolls(s: string, r: string)
    requires s == Spell(RefsLead()) + Text(CaptureOpen("r")) + Spell(RefsPre("b")) + Text(SubRecursion("r", "2"))
                  + Spell(RefsPost()) + ")" + Spell(RefsTrail())
    requires r == Spell(RefsLead()) + Text(CaptureOpen("r"))
                  + (Spell(RefsPre("b")) + ("(?:" + Spell(RefsPre("b_$2")) + "(?:)" + Spell(RefsPost()) + ")") + Spell(RefsPost()))
                  + ")" + Spell(RefsTrail())
    ensures Recursion(s) == Success(r)
  {
    RefsSpelled(RefsLead(), RefsPre("b"), RefsPost(), RefsTrail());
    RefsNest(RefsPre("b"), RefsPost());
  }

  // The texts of the example, assembled from pieces short enough to
  // compare character by character.

  lemma RefsLeadSpelled()
    ensures Spell(RefsLead()) == "^(?<a>a)\\k<a>"
  {
    SpellCons(Ref("a"), []);
    SpellCons(Char(')'), [Ref("a")] + []);
    SpellCons(Char('a'), [Char(')')] + ([Ref("a")] + []));
    SpellCons(Group("a"), [Char('a')] + ([Char(')')] + ([Ref("a")] + [])));
    SpellCons(Char('^'), [Group("a")] + ([Char('a')] + ([Char(')')] + ([Ref("a")] + []))));
  }

  lemma RefsPreSpelled(nm: string, o: string, a: string, r: string, c: string)
    requires o == Text(CaptureOpen(nm)) && a == Text(Backref("a")) && r == Text(Backref(nm)) && c == Text(Backref("c"))
    ensures Spell(RefsPre(nm)) == o + ("b" + (")" + (a + (r + (c + "")))))
  {
    SpellCons(Ref("c"), []);
    SpellCons(Ref(nm), [Ref("c")] + []);
    SpellCons(Ref("a"), [Ref(nm)] + ([Ref("c")] + []));
    SpellCons(Char(')'), [Ref("a")] + ([Ref(nm)] + ([Ref("c")] + [])));
    SpellCons(Char('b'), [Char(')')] + ([Ref("a")] + ([Ref(nm)] + ([Ref("c")] + []))));
    SpellCons(Group(nm), [Char('b')] + ([Char(')')] + ([Ref("a")] + ([Ref(nm)] + ([Ref("c")] + [])))));
  }

  lemma RefsPreText()
    ensures Spell(RefsPre("b")) == "(?<b>b)\\k<a>\\k<b>\\k<c>"
  {
    var x := "(?<b>" + ("b" + (")" + ("\\k<a>" + ("\\k<b>" + ("\\k<c>" + "")))));
    assert x == "(?<b>b)\\k<a>\\k<b>\\k<c>" by {
      assert "\\k<c>" + "" == "\\k<c>";
    }
    assert Spell(RefsPre("b")) == x by {
      RefsPreSpelled("b", "(?<b>", "\\k<a>", "\\k<b>", "\\k<c>");
    }
  }

  lemma RefsCopyText()
    ensures Spell(RefsPre("b_$2")) == "(?<b_$2>b)\\k<a>\\k<b_$2>\\k<c>"
  {
    var x := "(?<b_$2>" + ("b" + (")" + ("\\k<a>" + ("\\k<b_$2>" + ("\\k<c>" + "")))));
    assert x == "(?<b_$2>b)\\k<a>\\k<b_$2>\\k<c>" by {
      assert "\\k<c>" + "" == "\\k<c>";
    }
    assert Spell(RefsPre("b_$2")) == x by {
      RefsPreSpelled("b_$2", "(?<b_$2>", "\\k<a>", "\\k<b_$2>", "\\k<c>");
    }
  }

  lemma RefsOuterSpelled()
    ensures Spell(RefsPost()) == "?" && Spell(RefsTrail()) == "(?<c>c)\\k<c>$"
  {
    SpellCons(Char('?'), []);
    SpellCons(Char('$'), []);
    SpellCons(Ref("c"), [Char('$')] + []);
    SpellCons(Char(')'), [Ref("c")] + ([Char('$')] + []));
    SpellCons(Char('c'), [Char(')')] + ([Ref("c")] + ([Char('$')] + [])));
    SpellCons(Group("c"), [Char('c')] + ([Char(')')] + ([Ref("c")] + ([Char('$')] + []))));
  }

  /** The directive's group before and after, and the copy. */
  lemma RefsGroupText()
    ensures Text(CaptureOpen("r")) + "(?<b>b)\\k<a>\\k<b>\\k<c>" + Text(SubRecursion("r", "2")) + "?" + ")"
            == "(?<r>(?<b>b)\\k<a>\\k<b>\\k<c>\\g<r&R=2>?)"
  {
    assert Text(CaptureOpen("r")) == "(?<r>" && Text(SubRecursion("r", "2")) == "\\g<r&R=2>";
    assert "(?<r>" + "(?<b>b)\\k<a>\\k<b>\\k<c>" + "\\g<r&R=2>" + "?" + ")" == "(?<r>(?<b>b)\\k<a>\\k<b>\\k<c>\\g<r&R=2>?)";
  }

  lemma RefsOpenedText()
    ensures Text(CaptureOpen("r")) + "(?<b>b)\\k<a>\\k<b>\\k<c>" == "(?<r>(?<b>b)\\k<a>\\k<b>\\k<c>"
  {
    assert Text(CaptureOpen("r")) == "(?<r>";
  }

  lemma RefsNestText()
    ensures "(?:" + "(?<b_$2>b)\\k<a>\\k<b_$2>\\k<c>" + "(?:)" + "?" + ")" == "(?:(?<b_$2>b)\\k<a>\\k<b_$2>\\k<c>(?:)?)"
  {
  }

  lemma RefsInput(l: string, o: string, p: string, g: string, q: string, t: string, m: string)
    requires m == o + p + g + q + ")"
    ensures l + m + t == l + o + p + g + q + ")" + t
  {
  }

  lemma RefsOutput(l: string, o: string, p: string, c: string, q: string, t: string, op: string, qc: string)
    requires op == o + p && qc == q + ")"
    ensures l + op + c + qc + t == l + o + (p + c + q) + ")" + t
  {
  }

  lemma RefsStrings()
    ensures "^(?<a>a)\\k<a>" + "(?<r>(?<b>b)\\k<a>\\k<b>\\k<c>\\g<r&R=2>?)" + "(?<c>c)\\k<c>$"
            == Spell(RefsLead()) + Text(CaptureOpen("r")) + Spell(RefsPre("b")) + Text(SubRecursion("r", "2"))
               + Spell(RefsPost()) + ")" + Spell(RefsTrail())
    ensures "^(?<a>a)\\k<a>" + "(?<r>(?<b>b)\\k<a>\\k<b>\\k<c>" + "(?:(?<b_$2>b)\\k<a>\\k<b_$2>\\k<c>(?:)?)" + "?)" + "(?<c>c)\\k<c>$"
            == Spell(RefsLead()) + Text(CaptureOpen("r"))
               + (Spell(RefsPre("b")) + ("(?:" + Spell(RefsPre("b_$2")) + "(?:)" + Spell(RefsPost()) + ")") + Spell(RefsPost()))
               + ")" + Spell(RefsTrail())
  {
    RefsLeadSpelled();
    RefsPreText();
    RefsCopyText();
    RefsOuterSpelled();
    RefsGroupText();
    RefsOpenedText();
    RefsNestText();
    var l, o, p, g, q, t := Spell(RefsLead()), Text(CaptureOpen("r")), Spell(RefsPre("b")), Text(SubRecursion("r", "2")), Spell(RefsPost()), Spell(RefsTrail());
    var c := "(?:" + Spell(RefsPre("b_$2")) + "(?:)" + q + ")";
    RefsInput(l, o, p, g, q, t, "(?<r>(?<b>b)\\k<a>\\k<b>\\k<c>\\g<r&R=2>?)");
    RefsOutput(l, o, p, c, q, t, "(?<r>(?<b>b)\\k<a>\\k<b>\\k<c>", "?)");
  }

  /** `^(?<a>a)\k<a>(?<r>(?<b>b)\k<a>\k<b>\k<c>\g<r&R=2>?)(?<c>c)\k<c>$`
      becomes
      `^(?<a>a)\k<a>(?<r>(?<b>b)\k<a>\k<b>\k<c>(?:(?<b_$2>b)\k<a>\k<b_$2>\k<c>(?:)?)?)(?<c>c)\k<c>$`:
      the copy's group is `b_$2` and its back-reference to `b` follows it,
      while the back-references to `a` and `c`, groups outside `r`, keep
      their name. The texts are written in pieces. */
  lemma SubRefsExample()
    ensures Recursion("^(?<a>a)\\k<a>" + "(?<r>(?<b>b)\\k<a>\\k<b>\\k<c>\\g<r&R=2>?)" + "(?<c>c)\\k<c>$")
            == Success("^(?<a>a)\\k<a>" + "(?<r>(?<b>b)\\k<a>\\k<b>\\k<c>" + "(?:(?<b_$2>b)\\k<a>\\k<b_$2>\\k<c>(?:)?)" + "?)" + "(?<c>c)\\k<c>$")
  {
    RefsStrings();
    RefsUnrolls("^(?<a>a)\\k<a>" + "(?<r>(?<b>b)\\k<a>\\k<b>\\k<c>\\g<r&R=2>?)" + "(?<c>c)\\k<c>$",
                "^(?<a>a)\\k<a>" + "(?<r>(?<b>b)\\k<a>\\k<b>\\k<c>" + "(?:(?<b_$2>b)\\k<a>\\k<b_$2>\\k<c>(?:)?)" + "?)" + "(?<c>c)\\k<c>$");
  }
}
