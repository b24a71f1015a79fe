/** The unroller: `makeRecursive` and `repeatWithDepth` (`src/index.js`
    lines 111-156). A recursion of depth `maxDepth` becomes `reps =
    maxDepth - 1` tagged copies of `(?:pre`, the empty group `(?:)`, and
    `reps` tagged copies of `post)`, between the untouched `pre` and `post`. */
module Unroll {
  import opened Wrappers
  import opened Decimal
  import opened Unescaped

  datatype Direction = Forward | Backward

  /** `depthNum` of `repeatWithDepth` (with `startNum` 2): the depth number
      that tags copy `i` of `reps`. */
  function DepthNum(dir: Direction, i: nat, reps: nat): (k: nat)
    requires i < reps
    ensures 2 <= k <= reps + 1
  {
    match dir
    case Forward => i + 2
    case Backward => reps - i + 1
  }

  /** The suffix `_$k` appended to a renamed group or backreference. */
  function Tag(k: nat): string {
    "_$" + Show(k)
  }

  /** The depth numbers of the copies, in the order they are emitted. */
  function Tags(dir: Direction, reps: nat): (ks: seq<nat>)
    ensures |ks| == reps
  {
    seq(reps, i requires 0 <= i < reps => DepthNum(dir, i, reps))
  }

  /** The renamed copy of `expr` for depth number `k`: the callback of
      `repeatWithDepth` applied throughout `expr`. */
  function Renaming(expr: string, scope: Option<set<string>>): nat -> string {
    (k: nat) => Retag(expr, Tag(k), scope)
  }

  /** The copies `copy(k)`, one per depth number `k` in `ks`, in order. */
  function Copies(copy: nat -> string, ks: seq<nat>): string {
    if |ks| == 0 then [] else copy(ks[0]) + Copies(copy, ks[1..])
  }

  /** `repeatWithDepth(expression, reps, namesInRecursed, direction)`;
      `scope` is `None` where the source passes `null`. */
  function RepeatWithDepth(expr: string, reps: nat, scope: Option<set<string>>, dir: Direction): string {
    Copies(Renaming(expr, scope), Tags(dir, reps))
  }

  /** The names the copies may rename backreferences to: in subpattern
      mode, the groups declared in `pre + post`; otherwise every name. */
  function Scope(pre: string, post: string, isSubpattern: bool): (scope: Option<set<string>>)
    ensures scope.Some? <==> isSubpattern
    ensures scope.Some? ==> scope.value == CaptureNames(pre + post)
  {
    if isSubpattern then Some(CaptureNames(pre + post)) else None
  }

  /** `makeRecursive(pre, post, maxDepth, isSubpattern)`. */
  function MakeRecursive(pre: string, post: string, maxDepth: nat, isSubpattern: bool): (r: string)
    requires maxDepth >= 2
    ensures |r| >= |pre| + |post| + 8
    ensures r[..|pre|] == pre && r[|r| - |post|..] == post
  {
    var reps := maxDepth - 1;
    var scope := Scope(pre, post, isSubpattern);
    MakeRecursiveLength(pre, post, reps, scope);
    pre + RepeatWithDepth("(?:" + pre, reps, scope, Forward) + "(?:)"
        + RepeatWithDepth(post + ")", reps, scope, Backward) + post
  }

  // Lengths: renaming never shortens a copy.

  lemma {:induction false} RenderLonger(ls: seq<Lexeme>, tag: string, scope: Option<set<string>>)
    ensures |Render(ls, tag, scope)| >= |Flatten(ls)|
  {
    if |ls| > 0 {
      RenderLonger(ls[1..], tag, scope);
    }
  }

  lemma RetagLonger(s: string, tag: string, scope: Option<set<string>>)
    ensures |Retag(s, tag, scope)| >= |s|
  {
    RenderLonger(Lexemes(CaptureOrBackref, s), tag, scope);
    LexOnFlatten(CaptureOrBackref, s, 0);
  }

  lemma {:induction false} CopiesLonger(expr: string, ks: seq<nat>, scope: Option<set<string>>)
    requires |ks| >= 1
    ensures |Copies(Renaming(expr, scope), ks)| >= |expr|
  {
    RetagLonger(expr, Tag(ks[0]), scope);
  }

  lemma MakeRecursiveLength(pre: string, post: string, reps: nat, scope: Option<set<string>>)
    requires reps >= 1
    ensures |RepeatWithDepth("(?:" + pre, reps, scope, Forward)| >= |pre| + 3
    ensures |RepeatWithDepth(post + ")", reps, scope, Backward)| >= |post| + 1
  {
    CopiesLonger("(?:" + pre, Tags(Forward, reps), scope);
    CopiesLonger(post + ")", Tags(Backward, reps), scope);
  }

  // The tags: forward copies count up from 2, backward copies count down to 2.

  /** The integers `lo, lo + 1, ..., hi - 1`. */
  function Range(lo: nat, hi: nat): (r: seq<nat>)
    ensures |r| == if lo <= hi then hi - lo else 0
    decreases hi - lo
  {
    if lo >= hi then [] else [lo] + Range(lo + 1, hi)
  }

  function Reverse<T>(s: seq<T>): (r: seq<T>)
    ensures |r| == |s|
  {
    if |s| == 0 then [] else Reverse(s[1..]) + [s[0]]
  }

  lemma ReverseCons<T>(x: T, s: seq<T>)
    ensures Reverse([x] + s) == Reverse(s) + [x]
  {
    assert ([x] + s)[0] == x && ([x] + s)[1..] == s;
  }

  lemma RangeCons(lo: nat, hi: nat)
    requires lo < hi
    ensures Range(lo, hi) == [lo] + Range(lo + 1, hi)
  {
  }

  lemma {:induction false} RangeIndex(lo: nat, hi: nat, i: nat)
    requires lo + i < hi
    ensures Range(lo, hi)[i] == lo + i
    decreases hi - lo
  {
    if i > 0 {
      RangeIndex(lo + 1, hi, i - 1);
    }
  }

  lemma {:induction false} ReverseIndex<T>(s: seq<T>, i: nat)
    requires i < |s|
    ensures Reverse(s)[i] == s[|s| - 1 - i]
  {
    if i < |s| - 1 {
      ReverseIndex(s[1..], i);
    }
  }

  /** Forward copy `i` is tagged `i + 2`: the depth numbers are `2, ..., maxDepth`. */
  lemma ForwardTags(reps: nat)
    ensures Tags(Forward, reps) == Range(2, reps + 2)
  {
    forall i | 0 <= i < reps ensures Tags(Forward, reps)[i] == Range(2, reps + 2)[i] {
      RangeIndex(2, reps + 2, i);
    }
  }

  /** The backward depth numbers are the forward ones reversed, so the
      `post` copy that closes a group carries the tag of the `pre` copy that
      opened it. */
  lemma TagsMirror(reps: nat)
    ensures Tags(Backward, reps) == Reverse(Tags(Forward, reps))
  {
    var f := Tags(Forward, reps);
    forall i | 0 <= i < reps ensures Tags(Backward, reps)[i] == Reverse(f)[i] {
      ReverseIndex(f, i);
    }
  }

  // The nesting: an independent, recursive description of the output.

  /** The unrolled recursion from level `j` inward: each level opens a
      non-capturing group, writes the copies `p(k)` and `q(k)` with the same
      depth number `k = j + 2` around the next level, and the innermost level
      is the empty group `(?:)`. */
  function Nest(p: nat -> string, q: nat -> string, j: nat, reps: nat): string
    requires j <= reps
    decreases reps - j
  {
    if j == reps then "(?:)"
    else "(?:" + p(j + 2) + Nest(p, q, j + 1, reps) + q(j + 2) + ")"
  }

  lemma {:induction false} CopiesAppend(copy: nat -> string, a: seq<nat>, b: seq<nat>)
    ensures Copies(copy, a + b) == Copies(copy, a) + Copies(copy, b)
  {
    if |a| == 0 {
      assert a + b == b;
    } else {
      assert (a + b)[0] == a[0] && (a + b)[1..] == a[1..] + b;
      CopiesAppend(copy, a[1..], b);
    }
  }

  lemma CopiesCons(copy: nat -> string, k: nat, ks: seq<nat>)
    ensures Copies(copy, [k] + ks) == copy(k) + Copies(copy, ks)
  {
    assert ([k] + ks)[0] == k && ([k] + ks)[1..] == ks;
  }

  lemma CopiesOne(copy: nat -> string, k: nat)
    ensures Copies(copy, [k]) == copy(k)
  {
    assert [k][1..] == [];
  }

  /** When each forward copy is `(?:` before `p(k)` and each backward copy
      is `q(k)` before `)`, the forward copies from level `j` on, the empty
      group and the backward copies back to level `j` are level `j` of the
      nesting. */
  lemma {:induction false} NestCopies(fw: nat -> string, bw: nat -> string, p: nat -> string, q: nat -> string, j: nat, reps: nat)
    requires forall k :: fw(k) == "(?:" + p(k)
    requires forall k :: bw(k) == q(k) + ")"
    requires j <= reps
    ensures Nest(p, q, j, reps) ==
            Copies(fw, Range(j + 2, reps + 2)) + "(?:)" + Copies(bw, Reverse(Range(j + 2, reps + 2)))
    decreases reps - j
  {
    var ks := Range(j + 2, reps + 2);
    if j == reps {
      assert ks == [];
    } else {
      NestCopies(fw, bw, p, q, j + 1, reps);
      var inner := Range(j + 3, reps + 2);
      RangeCons(j + 2, reps + 2);
      ReverseCons(j + 2, inner);
      CopiesCons(fw, j + 2, inner);
      CopiesAppend(bw, Reverse(inner), [j + 2]);
      CopiesOne(bw, j + 2);
      Regroup("(?:" + p(j + 2), Copies(fw, inner), "(?:)", Copies(bw, Reverse(inner)), q(j + 2) + ")");
    }
  }

  lemma Regroup(a: string, b: string, c: string, d: string, e: string)
    ensures a + (b + c + d) + e == (a + b) + c + (d + e)
  {
  }

  /** Renaming a copy that starts with `(?:` renames what follows it. */
  lemma RenamingAfterOpen(pre: string, scope: Option<set<string>>)
    ensures forall k :: Renaming("(?:" + pre, scope)(k) == "(?:" + Renaming(pre, scope)(k)
  {
    forall k ensures Renaming("(?:" + pre, scope)(k) == "(?:" + Renaming(pre, scope)(k) {
      RetagAfterNonCapturingOpen(pre, Tag(k), scope);
    }
  }

  /** Renaming a copy that ends with `)` renames what precedes it. */
  lemma RenamingBeforeClose(post: string, scope: Option<set<string>>)
    ensures forall k :: Renaming(post + ")", scope)(k) == Renaming(post, scope)(k) + ")"
  {
    forall k ensures Renaming(post + ")", scope)(k) == Renaming(post, scope)(k) + ")" {
      RetagBeforeClose(post, Tag(k), scope);
    }
  }

  /** `makeRecursive` with its tag lists spelled out. */
  lemma MakeRecursiveRanges(pre: string, post: string, maxDepth: nat, isSubpattern: bool)
    requires maxDepth >= 2
    ensures var scope := Scope(pre, post, isSubpattern);
            var ks := Range(2, maxDepth - 1 + 2);
            MakeRecursive(pre, post, maxDepth, isSubpattern) ==
            pre + Copies(Renaming("(?:" + pre, scope), ks) + "(?:)" + Copies(Renaming(post + ")", scope), Reverse(ks)) + post
  {
    ForwardTags(maxDepth - 1);
    TagsMirror(maxDepth - 1);
  }

  /** `makeRecursive` writes `pre`, the nesting from level 0, and `post`:
      the copy of `pre` and the copy of `post` at the same nesting level
      carry the same tag `_$(level + 2)`. */
  lemma MakeRecursiveNests(pre: string, post: string, maxDepth: nat, isSubpattern: bool)
    requires maxDepth >= 2
    ensures var scope := Scope(pre, post, isSubpattern);
            MakeRecursive(pre, post, maxDepth, isSubpattern) ==
            pre + Nest(Renaming(pre, scope), Renaming(post, scope), 0, maxDepth - 1) + post
  {
    var scope := Scope(pre, post, isSubpattern);
    RenamingAfterOpen(pre, scope);
    RenamingBeforeClose(post, scope);
    MakeRecursiveRanges(pre, post, maxDepth, isSubpattern);
    NestsFromCopies(pre, post, Renaming("(?:" + pre, scope), Renaming(post + ")", scope),
                    Renaming(pre, scope), Renaming(post, scope), maxDepth - 1,
                    MakeRecursive(pre, post, maxDepth, isSubpattern));
  }

  /** `NestCopies` from level 0, between `pre` and `post`. */
  lemma NestsFromCopies(pre: string, post: string, fw: nat -> string, bw: nat -> string,
                        p: nat -> string, q: nat -> string, reps: nat, r: string)
    requires forall k :: fw(k) == "(?:" + p(k)
    requires forall k :: bw(k) == q(k) + ")"
    requires r == pre + Copies(fw, Range(2, reps + 2)) + "(?:)" + Copies(bw, Reverse(Range(2, reps + 2))) + post
    ensures r == pre + Nest(p, q, 0, reps) + post
  {
    NestCopies(fw, bw, p, q, 0, reps);
    var a, b := Copies(fw, Range(2, reps + 2)), Copies(bw, Reverse(Range(2, reps + 2)));
    assert pre + a + "(?:)" + b + post == pre + (a + "(?:)" + b) + post;
  }

  // The global shape, when nothing needs renaming.

  /** `n` copies of `s`. */
  function Power(s: string, n: nat): (r: string)
    ensures |r| == n * |s|
  {
    if n == 0 then [] else s + Power(s, n - 1)
  }

  lemma {:induction false} CopiesUntouched(copy: nat -> string, expr: string, ks: seq<nat>)
    requires forall k :: copy(k) == expr
    ensures Copies(copy, ks) == Power(expr, |ks|)
  {
    if |ks| > 0 {
      CopiesUntouched(copy, expr, ks[1..]);
    }
  }

  /** With no named group or backreference in `pre` and `post`, the result
      is `pre`, `reps` copies of `(?:pre`, `(?:)`, `reps` copies of
      `post)`, then `post`. */
  lemma MakeRecursiveShape(pre: string, post: string, maxDepth: nat, isSubpattern: bool)
    requires maxDepth >= 2
    requires !HasUnescaped(pre, CaptureOrBackref) && !HasUnescaped(post, CaptureOrBackref)
    ensures MakeRecursive(pre, post, maxDepth, isSubpattern) ==
            pre + Power("(?:" + pre, maxDepth - 1) + "(?:)" + Power(post + ")", maxDepth - 1) + post
  {
    var reps := maxDepth - 1;
    var scope := Scope(pre, post, isSubpattern);
    var fw, bw := Renaming("(?:" + pre, scope), Renaming(post + ")", scope);
    forall k ensures fw(k) == "(?:" + pre {
      RetagAfterNonCapturingOpen(pre, Tag(k), scope);
      RetagUntouched(pre, Tag(k), scope);
    }
    forall k ensures bw(k) == post + ")" {
      RetagBeforeClose(post, Tag(k), scope);
      RetagUntouched(post, Tag(k), scope);
    }
    CopiesUntouched(fw, "(?:" + pre, Tags(Forward, reps));
    CopiesUntouched(bw, post + ")", Tags(Backward, reps));
  }
}
