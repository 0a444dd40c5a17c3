/**
 The permuting scan of the command line: options with their arguments move in front of the other
 arguments, by exchanging adjacent blocks of argv in place. How an option's text decides whether it
 takes the next argument is a parameter.
 */
module Getopt {
  import opened Bytes

  /** Whether an option takes the next argument of the command line. */
  type TakesNext = string -> bool

  /** A text that is not an option; a lone dash is one. */
  predicate IsNonOption(s: string)
  {
    s == [] || s[0] != '-' || |s| == 1
  }

  /** The arguments split by what they are: options with their arguments and "--", and the others. */
  datatype Groups = Groups(options: seq<string>, others: seq<string>)

  function Classify(args: seq<string>, takesNext: TakesNext): (g: Groups)
    ensures |g.options| + |g.others| == |args|
  {
    if args == [] then Groups([], [])
    else if args[0] == "--" then Groups([args[0]], args[1..])
    else if IsNonOption(args[0]) then
      var g := Classify(args[1..], takesNext);
      Groups(g.options, [args[0]] + g.others)
    else
      var n := OptionSize(args, takesNext);
      var g := Classify(args[n..], takesNext);
      Groups(args[..n] + g.options, g.others)
  }

  /** The number of arguments that belong to the option at the start. */
  function OptionSize(args: seq<string>, takesNext: TakesNext): (n: nat)
    requires args != []
    ensures 0 < n <= |args|
  {
    if takesNext(args[0]) && |args| > 1 then 2 else 1
  }

  // ----- What the classification does -----

  predicate Subsequence(a: seq<string>, b: seq<string>)
  {
    a == [] || (b != [] && if a[0] == b[0] then Subsequence(a[1..], b[1..]) else Subsequence(a, b[1..]))
  }

  lemma {:induction false} SubsequenceDrop(a: seq<string>, b: seq<string>)
    requires a != [] && Subsequence(a, b)
    ensures Subsequence(a[1..], b)
    decreases |b|
  {
    if a[0] == b[0] {
      if a[1..] != [] && a[1] != b[0] {
      } else if a[1..] != [] {
        SubsequenceDrop(a[1..], b[1..]);
      }
    } else {
      SubsequenceDrop(a, b[1..]);
      if a[1..] != [] && a[1] == b[0] {
        SubsequenceDrop(a[1..], b[1..]);
      }
    }
  }

  lemma SubsequenceSkip(a: seq<string>, x: string, b: seq<string>)
    requires Subsequence(a, b)
    ensures Subsequence(a, [x] + b)
  {
    assert ([x] + b)[1..] == b;
    if a != [] && a[0] == x {
      SubsequenceDrop(a, b);
    }
  }

  lemma SubsequenceKeep(x: string, a: seq<string>, b: seq<string>)
    requires Subsequence(a, b)
    ensures Subsequence([x] + a, [x] + b)
  {
    assert ([x] + a)[1..] == a && ([x] + b)[1..] == b;
  }

  lemma {:induction false} SubsequenceOfItself(a: seq<string>)
    ensures Subsequence(a, a)
  {
    if a != [] {
      SubsequenceOfItself(a[1..]);
    }
  }

  /** Both groups keep the order of the command line, and together they are its arguments. */
  lemma {:induction false} ClassifyIsStable(args: seq<string>, takesNext: TakesNext)
    ensures var g := Classify(args, takesNext);
            && Subsequence(g.options, args) && Subsequence(g.others, args)
            && multiset(g.options) + multiset(g.others) == multiset(args)
  {
    var g := Classify(args, takesNext);
    if args == [] {
    } else if args[0] == "--" {
      SplitFirst(args);
      SubsequenceOfItself(args[1..]);
      SubsequenceSkip(args[1..], args[0], args[1..]);
      SubsequenceKeep(args[0], [], args[1..]);
    } else if IsNonOption(args[0]) {
      var r := Classify(args[1..], takesNext);
      SplitFirst(args);
      ClassifyIsStable(args[1..], takesNext);
      SubsequenceSkip(r.options, args[0], args[1..]);
      SubsequenceKeep(args[0], r.others, args[1..]);
    } else {
      var n := OptionSize(args, takesNext);
      var r := Classify(args[n..], takesNext);
      ClassifyIsStable(args[n..], takesNext);
      KeepFront(r.options, r.others, args, n);
    }
  }

  lemma KeepOne(x: string, kept: seq<string>, skipped: seq<string>, args: seq<string>)
    requires Subsequence(kept, args) && Subsequence(skipped, args)
    requires multiset(kept) + multiset(skipped) == multiset(args)
    ensures Subsequence([x] + kept, [x] + args) && Subsequence(skipped, [x] + args)
    ensures multiset([x] + kept) + multiset(skipped) == multiset([x] + args)
  {
    SubsequenceKeep(x, kept, args);
    SubsequenceSkip(skipped, x, args);
    hide Subsequence;
  }

  lemma KeepFront(kept: seq<string>, skipped: seq<string>, args: seq<string>, n: nat)
    requires n <= |args| && Subsequence(kept, args[n..]) && Subsequence(skipped, args[n..])
    requires multiset(kept) + multiset(skipped) == multiset(args[n..])
    ensures Subsequence(args[..n] + kept, args) && Subsequence(skipped, args)
    ensures multiset(args[..n] + kept) + multiset(skipped) == multiset(args)
    decreases n
  {
    hide Subsequence;
    if n == 0 {
      assert args[..0] + kept == kept && args[0..] == args;
    } else {
      var x := args[n - 1];
      assert args[n - 1..] == [x] + args[n..];
      KeepOne(x, kept, skipped, args[n..]);
      KeepFront([x] + kept, skipped, args, n - 1);
      assert args[..n - 1] + ([x] + kept) == args[..n] + kept;
    }
  }

  /** The last option takes an argument and has none. */
  predicate Dangling(args: seq<string>, takesNext: TakesNext)
  {
    args != [] && args[0] != "--" &&
    if IsNonOption(args[0]) then Dangling(args[1..], takesNext)
    else if takesNext(args[0]) && |args| == 1 then true
    else Dangling(args[OptionSize(args, takesNext)..], takesNext)
  }

  predicate AllOthers(args: seq<string>)
  {
    forall i :: 0 <= i < |args| ==> IsNonOption(args[i])
  }

  lemma {:induction false} OthersStay(args: seq<string>, takesNext: TakesNext)
    requires AllOthers(args)
    ensures Classify(args, takesNext) == Groups([], args)
  {
    if args != [] {
      OthersStay(args[1..], takesNext);
    }
  }

  /** The scan ends at an argument "--". */
  predicate EndsScan(args: seq<string>, takesNext: TakesNext)
  {
    args != [] &&
    (args[0] == "--" || EndsScan(args[if IsNonOption(args[0]) then 1 else OptionSize(args, takesNext)..], takesNext))
  }

  /** Without "--" the others are no options. */
  lemma {:induction false} OthersAreOthers(args: seq<string>, takesNext: TakesNext)
    ensures AllOthers(Classify(args, takesNext).others) || EndsScan(args, takesNext)
  {
    if args != [] && args[0] != "--" {
      OthersAreOthers(args[if IsNonOption(args[0]) then 1 else OptionSize(args, takesNext)..], takesNext);
    }
  }

  /** A dash and at least one more character. */
  predicate LooksLikeOption(s: string)
  {
    |s| >= 2 && s[0] == '-'
  }

  /**
   By their characters: without "--" nothing that looks like an option is among the others, so a lone dash is
   among them; and when no option takes an argument, everything in front of them looks like one.
   */
  lemma {:induction false} GroupsByCharacters(args: seq<string>, takesNext: TakesNext)
    ensures var g := Classify(args, takesNext);
            && (!EndsScan(args, takesNext) ==> forall x :: x in g.others ==> !LooksLikeOption(x))
            && ((forall s :: !takesNext(s)) ==> forall x :: x in g.options ==> LooksLikeOption(x))
  {
    if args == [] {
    } else if args[0] == "--" {
      assert LooksLikeOption(args[0]);
    } else if IsNonOption(args[0]) {
      GroupsByCharacters(args[1..], takesNext);
    } else {
      var n := OptionSize(args, takesNext);
      GroupsByCharacters(args[n..], takesNext);
      assert LooksLikeOption(args[0]);
    }
  }

  /** The argument of an option follows it in front. */
  lemma ArgumentFollows(option: string, argument: string, rest: seq<string>, takesNext: TakesNext)
    requires LooksLikeOption(option) && option != "--" && takesNext(option)
    ensures var g := Classify(rest, takesNext);
            Classify([option, argument] + rest, takesNext) == Groups([option, argument] + g.options, g.others)
  {
    var args := [option, argument] + rest;
    assert args[..2] == [option, argument] && args[2..] == rest;
  }

  /**
   Scanning a permuted command line again finds the same options and others, except exactly when the
   last option lacks its argument and there are others: then it takes the first of them.
   */
  lemma RescanIsIdempotent(args: seq<string>, takesNext: TakesNext)
    ensures var g := Classify(args, takesNext);
            Classify(g.options + g.others, takesNext) == g <==> !(Dangling(args, takesNext) && g.others != [])
  {
    OthersAreOthers(args, takesNext);
    RescanWith(args, Classify(args, takesNext).others, takesNext);
  }

  lemma {:induction false} RescanWith(args: seq<string>, tail: seq<string>, takesNext: TakesNext)
    requires AllOthers(tail) || EndsScan(args, takesNext)
    ensures var options := Classify(args, takesNext).options;
            Classify(options + tail, takesNext) == Groups(options, tail) <==> !(Dangling(args, takesNext) && tail != [])
    decreases |args|, 1
  {
    var options := Classify(args, takesNext).options;
    if args == [] {
      assert options + tail == tail;
      OthersStay(tail, takesNext);
    } else if args[0] == "--" {
      assert (options + tail)[1..] == tail;
    } else if IsNonOption(args[0]) {
      RescanWith(args[1..], tail, takesNext);
    } else {
      RescanOption(args, tail, takesNext);
    }
  }

  /** What an option at the start adds to the rest. */
  lemma FirstOption(args: seq<string>, takesNext: TakesNext)
    requires args != [] && args[0] != "--" && !IsNonOption(args[0])
    ensures var n := OptionSize(args, takesNext);
            var r := Classify(args[n..], takesNext);
            && Classify(args, takesNext) == Groups(args[..n] + r.options, r.others)
            && (EndsScan(args, takesNext) <==> EndsScan(args[n..], takesNext))
            && (Dangling(args, takesNext) <==> (takesNext(args[0]) && |args| == 1) || Dangling(args[n..], takesNext))
  {
    hide OptionSize;
  }

  lemma RescanDangling(args: seq<string>, tail: seq<string>, takesNext: TakesNext)
    requires |args| == 1 && args[0] != "--" && !IsNonOption(args[0]) && takesNext(args[0])
    ensures Classify(args, takesNext) == Groups(args, []) && Dangling(args, takesNext)
    ensures Classify(args + tail, takesNext) == Groups(args, tail) <==> tail == []
  {
    FirstOption(args, takesNext);
    FirstOption(args + tail, takesNext);
    assert args[1..] == [] && args[..1] + [] == args && (tail == [] ==> args + tail == args);
    assert Classify([], takesNext) == Groups([], []);
    hide Classify, Dangling;
  }

  lemma OptionBefore(args: seq<string>, rest: seq<string>, takesNext: TakesNext)
    requires args != [] && !(takesNext(args[0]) && |args| == 1)
    ensures var n := OptionSize(args, takesNext);
            var all := args[..n] + rest;
            all[0] == args[0] && OptionSize(all, takesNext) == n && all[..n] == args[..n] && all[n..] == rest
  {}

  lemma {:induction false} RescanOption(args: seq<string>, tail: seq<string>, takesNext: TakesNext)
    requires AllOthers(tail) || EndsScan(args, takesNext)
    requires args != [] && args[0] != "--" && !IsNonOption(args[0])
    ensures var options := Classify(args, takesNext).options;
            Classify(options + tail, takesNext) == Groups(options, tail) <==> !(Dangling(args, takesNext) && tail != [])
    decreases |args|, 0
  {
    hide *;
    var n := OptionSize(args, takesNext);
    if takesNext(args[0]) && |args| == 1 {
      RescanDangling(args, tail, takesNext);
    } else {
      var rest := Classify(args[n..], takesNext).options;
      FirstOption(args, takesNext);
      RescanWith(args[n..], tail, takesNext);
      OptionBefore(args, rest + tail, takesNext);
      FirstOption(args[..n] + (rest + tail), takesNext);
      ConcatAssociative(args[..n], rest, tail);
      SamePrefix(args[..n], Classify(rest + tail, takesNext).options, rest);
    }
  }

  lemma SamePrefix<T>(a: seq<T>, b: seq<T>, c: seq<T>)
    ensures a + b == a + c <==> b == c
  {
    if a + b == a + c {
      assert b == (a + b)[|a|..] && c == (a + c)[|a|..];
    }
  }

  // ----- Exchanging blocks of argv -----

  /** The block from b to m and the block from m to t have changed places. */
  function Rotated<T>(s: seq<T>, b: nat, m: nat, t: nat): (r: seq<T>)
    requires b <= m <= t <= |s|
    ensures |r| == |s|
  {
    s[..b] + s[m..t] + s[b..m] + s[t..]
  }

  /** Two blocks of n arguments, at i and at j, have changed places. */
  function Swapped<T>(s: seq<T>, i: nat, j: nat, n: nat): (r: seq<T>)
    requires i + n <= j && j + n <= |s|
    ensures |r| == |s|
  {
    s[..i] + s[j..j + n] + s[i + n..j] + s[i..i + n] + s[j + n..]
  }

  lemma RotatedPieces<T>(a: seq<T>, x: seq<T>, y: seq<T>, e: seq<T>)
    ensures Rotated(a + x + y + e, |a|, |a| + |x|, |a| + |x| + |y|) == a + y + x + e
  {
    var s := a + x + y + e;
    assert s[..|a|] == a && s[|a|..|a| + |x|] == x;
    assert s[|a| + |x|..|a| + |x| + |y|] == y && s[|a| + |x| + |y|..] == e;
  }

  lemma SwappedPieces<T>(a: seq<T>, x: seq<T>, y: seq<T>, z: seq<T>, e: seq<T>)
    requires |x| == |z|
    ensures Swapped(a + x + y + z + e, |a|, |a| + |x| + |y|, |x|) == a + z + y + x + e
  {
    var s, i, j, n := a + x + y + z + e, |a|, |a| + |x| + |y|, |x|;
    assert s[..i] == a && s[i..i + n] == x && s[i + n..j] == y;
    assert s[j..j + n] == z && s[j + n..] == e;
  }

  lemma Pieces<T>(s: seq<T>, i: nat, j: nat, k: nat, l: nat)
    requires i <= j <= k <= l <= |s|
    ensures s == s[..i] + s[i..j] + s[j..k] + s[k..l] + s[l..]
  {}

  /** The first block is the shorter one: it goes to its final place at the end. */
  lemma RotateShortFirst<T>(s: seq<T>, b: nat, m: nat, t: nat)
    requires b <= m <= t <= |s| && m - b <= t - m
    ensures var n := m - b;
            Rotated(Swapped(s, b, t - n, n), b, m, t - n) == Rotated(s, b, m, t)
  {
    hide *;
    var k := t - (m - b);
    var a, x, y, z, e := s[..b], s[b..m], s[m..k], s[k..t], s[t..];
    Pieces(s, b, m, k, t);
    SwappedPieces(a, x, y, z, e);
    RotatedPieces(a, z, y, x + e);
    RotatedPieces(a, x, y + z, e);
    Regroup(a + z, y, x, e);
    Regroup(a + y, z, x, e);
    Regroup(a, x, y, z);
    Regroup(a, y, z, x);
  }

  /** The second block is not longer: it goes to its final place at the start. */
  lemma RotateShortSecond<T>(s: seq<T>, b: nat, m: nat, t: nat)
    requires b <= m <= t <= |s| && t - m <= m - b
    ensures var n := t - m;
            Rotated(Swapped(s, b, m, n), b + n, m, t) == Rotated(s, b, m, t)
  {
    hide *;
    var k := b + (t - m);
    var a, x, y, z, e := s[..b], s[b..k], s[k..m], s[m..t], s[t..];
    Pieces(s, b, k, m, t);
    SwappedPieces(a, x, y, z, e);
    RotatedPieces(a + z, y, x, e);
    RotatedPieces(a, x + y, z, e);
    Regroup(a, x, y, z);
    Regroup(a, z, x, y);
  }

  lemma RotatedSlices<T>(s: seq<T>, b: nat, m: nat, t: nat)
    requires 1 <= b <= m <= t <= |s|
    ensures var r := Rotated(s, b, m, t);
            && r[..1] == s[..1]
            && r[1..b + (t - m)] == s[1..b] + s[m..t]
            && r[b + (t - m)..t] == s[b..m]
            && r[t..] == s[t..]
  {}

  lemma SwappedNone<T>(s: seq<T>, i: nat, j: nat)
    requires i <= j <= |s|
    ensures Swapped(s, i, j, 0) == s
  {}

  lemma SwappedStep<T>(s: seq<T>, i: nat, j: nat, k: nat)
    requires i + k < j && j + k < |s|
    ensures var r := Swapped(s, i, j, k);
            r[i + k := r[j + k]][j + k := r[i + k]] == Swapped(s, i, j, k + 1)
  {
    hide *;
    var r := Swapped(s, i, j, k);
    var t := r[i + k := r[j + k]][j + k := r[i + k]];
    var u := Swapped(s, i, j, k + 1);
    SwappedAt(s, i, j, k, i + k);
    SwappedAt(s, i, j, k, j + k);
    forall x | 0 <= x < |s|
      ensures t[x] == u[x]
    {
      SwappedAt(s, i, j, k, x);
      SwappedAt(s, i, j, k + 1, x);
    }
  }

  lemma SwappedAt<T>(s: seq<T>, i: nat, j: nat, n: nat, x: nat)
    requires i + n <= j && j + n <= |s| && x < |s|
    ensures Swapped(s, i, j, n)[x] ==
            if i <= x < i + n then s[x - i + j] else if j <= x < j + n then s[x - j + i] else s[x]
  {}

  method SwapBlocks(argv: array<string>, i: nat, j: nat, n: nat)
    requires i + n <= j && j + n <= argv.Length
    modifies argv
    ensures argv[..] == Swapped(old(argv[..]), i, j, n)
  {
    hide Swapped;
    SwappedNone(argv[..], i, j);
    for k := 0 to n
      invariant argv[..] == Swapped(old(argv[..]), i, j, k)
    {
      SwappedStep(old(argv[..]), i, j, k);
      argv[i + k], argv[j + k] := argv[j + k], argv[i + k];
    }
  }

  // ----- The scan on values -----

  /** The command line before and during the scan, and where the scan is. */
  ghost predicate InStep(args: seq<string>, s: seq<string>, optind: int)
  {
    |args| == |s| && 1 <= optind <= |s| && s[..1] == args[..1] && s[optind..] == args[optind..]
  }

  /** Options first, the others from `first` to `last`, and options that did not change places yet. */
  ghost predicate Scanned(args: seq<string>, s: seq<string>, takesNext: TakesNext, first: int, last: int, optind: int)
  {
    && InStep(args, s, optind) && 1 <= first <= last <= optind
    && var r := Classify(args[optind..], takesNext);
       Classify(args[1..], takesNext) == Groups(s[1..first] + s[last..optind] + r.options, s[first..last] + r.others)
  }

  /** The options that were scanned, with their arguments. */
  ghost function Taken(s: seq<string>, first: int, last: int, optind: int): seq<string>
  {
    if 1 <= first <= last <= optind <= |s| then s[1..first] + s[last..optind] else []
  }

  /** Options first, then the others. */
  ghost predicate Gathered(args: seq<string>, s: seq<string>, takesNext: TakesNext, first: int, optind: int)
  {
    Scanned(args, s, takesNext, first, optind, optind)
  }

  /** All options are in front, and optind is at the first of the others. */
  ghost predicate FinishedAt(args: seq<string>, s: seq<string>, takesNext: TakesNext, optind: int)
  {
    |args| == |s| && s != [] &&
    var g := Classify(args[1..], takesNext);
    s == args[..1] + g.options + g.others && optind == 1 + |g.options|
  }

  lemma GatherExchange(args: seq<string>, s: seq<string>, takesNext: TakesNext, first: int, last: int, optind: int)
    requires Scanned(args, s, takesNext, first, last, optind)
    ensures var r := Rotated(s, first, last, optind);
            && Gathered(args, r, takesNext, first + (optind - last), optind)
            && Taken(r, first + (optind - last), optind, optind) == Taken(s, first, last, optind)
  {
    hide Classify, InStep;
    RotatedInStep(args, s, first, last, optind);
    RotatedSlices(s, first, last, optind);
    hide Rotated;
    var r := Rotated(s, first, last, optind);
    assert r[optind..optind] == [];
  }

  lemma RotatedInStep(args: seq<string>, s: seq<string>, first: int, last: int, optind: int)
    requires InStep(args, s, optind) && 1 <= first <= last <= optind
    ensures InStep(args, Rotated(s, first, last, optind), optind) && |args| == |s| && optind <= |s|
  {
    RotatedSlices(s, first, last, optind);
    hide Rotated;
  }

  lemma GatherEmpty(args: seq<string>, s: seq<string>, takesNext: TakesNext, first: int, last: int, optind: int)
    requires Scanned(args, s, takesNext, first, last, optind)
    ensures first == last ==>
              Gathered(args, s, takesNext, optind, optind) &&
              Taken(s, optind, optind, optind) == Taken(s, first, last, optind)
    ensures last == optind ==> Gathered(args, s, takesNext, first, optind)
  {
    hide Classify;
    assert s[optind..optind] == [];
    assert first == last ==> s[first..last] == [] && s[1..optind] == s[1..first] + s[last..optind];
  }

  lemma ClassifyOther(args: seq<string>, i: nat, takesNext: TakesNext)
    requires i < |args| && IsNonOption(args[i])
    ensures var r := Classify(args[i + 1..], takesNext);
            Classify(args[i..], takesNext) == Groups(r.options, [args[i]] + r.others)
  {
    assert args[i..][1..] == args[i + 1..];
  }

  lemma ClassifyOption(args: seq<string>, i: nat, takesNext: TakesNext)
    requires i < |args| && !IsNonOption(args[i]) && args[i] != "--"
    ensures var n := OptionSize(args[i..], takesNext);
            var r := Classify(args[i + n..], takesNext);
            Classify(args[i..], takesNext) == Groups(args[i..i + n] + r.options, r.others)
  {
    var n := OptionSize(args[i..], takesNext);
    assert args[i..][n..] == args[i + n..] && args[i..][..n] == args[i..i + n];
  }

  lemma SuffixStep<T>(args: seq<T>, s: seq<T>, i: nat, n: nat)
    requires |args| == |s| && i < i + n <= |s| && s[i..] == args[i..]
    ensures s[i + n..] == args[i + n..] && s[i] == args[i] && s[i..i + n] == args[i..i + n]
  {
    assert s[i..][n..] == s[i + n..] && args[i..][n..] == args[i + n..];
    assert s[i..][0] == s[i] && args[i..][0] == args[i];
    assert s[i..][..n] == s[i..i + n] && args[i..][..n] == args[i..i + n];
  }

  lemma SkipOther(args: seq<string>, s: seq<string>, takesNext: TakesNext, first: int, optind: int)
    requires Gathered(args, s, takesNext, first, optind)
    requires optind < |s| && IsNonOption(s[optind])
    ensures Gathered(args, s, takesNext, first, optind + 1)
    ensures Taken(s, first, optind + 1, optind + 1) == Taken(s, first, optind, optind)
  {
    SuffixStep(args, s, optind, 1);
    ClassifyOther(args, optind, takesNext);
    hide Classify, IsNonOption;
    SnocSlice(s, first, optind);
    ConcatAssociative(s[first..optind], [s[optind]], Classify(args[optind + 1..], takesNext).others);
  }

  lemma SnocSlice<T>(s: seq<T>, i: nat, j: nat)
    requires i <= j < |s|
    ensures s[i..j] + [s[j]] == s[i..j + 1]
    ensures s[j..j] == s[j + 1..j + 1] == [] && s[j..j + 1] == [s[j]]
  {}

  lemma SplitSlice<T>(s: seq<T>, i: nat, j: nat, k: nat)
    requires i <= j <= k <= |s|
    ensures s[i..k] == s[i..j] + s[j..k]
  {}

  lemma RestOfOption(args: seq<string>, s: seq<string>, i: nat, takesNext: TakesNext)
    requires |args| == |s| && i < |s| && s[i..] == args[i..]
    requires !IsNonOption(s[i]) && s[i] != "--"
    ensures var n := if takesNext(s[i]) && i + 1 < |s| then 2 else 1;
            var r := Classify(args[i + n..], takesNext);
            && Classify(args[i..], takesNext) == Groups(s[i..i + n] + r.options, r.others)
            && s[i + n..] == args[i + n..]
            && s[i..i + n] == if n == 2 then [s[i]] + [s[i + 1]] else [s[i]]
  {
    var n := if takesNext(s[i]) && i + 1 < |s| then 2 else 1;
    SuffixStep(args, s, i, n);
    ClassifyOption(args, i, takesNext);
    FirstTwo(s, i);
    FirstTwo(args, i);
    assert OptionSize(args[i..], takesNext) == n;
  }

  /** The option at optind, with its argument if it takes one and there is one. */
  lemma StepOption(args: seq<string>, s: seq<string>, takesNext: TakesNext, first: int, last: int, optind: int)
    requires Scanned(args, s, takesNext, first, last, optind)
    requires optind < |s| && !IsNonOption(s[optind]) && s[optind] != "--"
    ensures var n := if takesNext(s[optind]) && optind + 1 < |s| then 2 else 1;
            && Scanned(args, s, takesNext, first, last, optind + n)
            && Taken(s, first, last, optind + n) ==
               Taken(s, first, last, optind) + if n == 2 then [s[optind]] + [s[optind + 1]] else [s[optind]]
  {
    hide *;
    ScannedRange(args, s, takesNext, first, last, optind);
    var n := if takesNext(s[optind]) && optind + 1 < |s| then 2 else 1;
    RestOfOption(args, s, optind, takesNext);
    ScannedStep(args, s, takesNext, first, last, optind, n);
    TakenMore(s, first, last, optind, n);
  }

  lemma TakenMore(s: seq<string>, first: int, last: int, optind: int, n: nat)
    requires 1 <= first <= last <= optind && optind + n <= |s|
    ensures Taken(s, first, last, optind + n) == Taken(s, first, last, optind) + s[optind..optind + n]
  {
    SplitSlice(s, last, optind, optind + n);
    ConcatAssociative(s[1..first], s[last..optind], s[optind..optind + n]);
  }

  lemma ScannedRange(args: seq<string>, s: seq<string>, takesNext: TakesNext, first: int, last: int, optind: int)
    requires Scanned(args, s, takesNext, first, last, optind)
    ensures |args| == |s| && 1 <= first <= last <= optind <= |s| && s[optind..] == args[optind..]
  {}

  /** The scan goes on behind n arguments that belong to an option. */
  lemma ScannedStep(args: seq<string>, s: seq<string>, takesNext: TakesNext, first: int, last: int, optind: int, n: nat)
    requires Scanned(args, s, takesNext, first, last, optind) && optind + n <= |s|
    requires s[optind + n..] == args[optind + n..]
    requires var r := Classify(args[optind + n..], takesNext);
             Classify(args[optind..], takesNext) == Groups(s[optind..optind + n] + r.options, r.others)
    ensures Scanned(args, s, takesNext, first, last, optind + n)
  {
    hide Classify;
    SplitSlice(s, last, optind, optind + n);
    Regroup(s[1..first], s[last..optind], s[optind..optind + n], Classify(args[optind + n..], takesNext).options);
  }

  lemma EndOfLine(args: seq<string>, s: seq<string>, takesNext: TakesNext, first: int)
    requires Gathered(args, s, takesNext, first, |s|)
    ensures FinishedAt(args, s, takesNext, first)
    ensures Classify(args[1..], takesNext).options == Taken(s, first, |s|, |s|)
  {
    assert s == s[..1] + s[1..first] + s[first..];
  }

  lemma ClassifyDashes(args: seq<string>, i: nat, takesNext: TakesNext)
    requires i < |args| && args[i] == "--"
    ensures Classify(args[i..], takesNext) == Groups([args[i]], args[i + 1..])
  {
    assert args[i..][0] == args[i] && args[i..][1..] == args[i + 1..];
  }

  lemma EndOfOptions(args: seq<string>, s: seq<string>, takesNext: TakesNext, first: int, optind: int)
    requires Gathered(args, s, takesNext, first, optind)
    requires optind < |s| && s[optind] == "--"
    ensures FinishedAt(args, Rotated(s, first, optind, optind + 1), takesNext, first + 1)
    ensures first == optind ==> Rotated(s, first, optind, optind + 1) == s
    ensures Classify(args[1..], takesNext).options == Taken(s, first, optind, optind) + [s[optind]]
  {
    hide *;
    GatheredMeans(args, s, takesNext, first, optind);
    TakenFront(s, first, optind);
    SuffixStep(args, s, optind, 1);
    ClassifyDashes(args, optind, takesNext);
    RotatedSlices(s, first, optind, optind + 1);
    SnocSlice(s, first, optind);
    var r := Rotated(s, first, optind, optind + 1);
    FourParts(r, first + 1, optind + 1);
    FinishedIs(args, r, takesNext, s[1..first] + [s[optind]], s[first..optind] + args[optind + 1..]);
    if first == optind {
      EmptyBlock(s, first, optind, optind + 1);
    }
  }

  lemma TakenFront(s: seq<string>, first: int, optind: int)
    requires 1 <= first <= optind <= |s|
    ensures Taken(s, first, optind, optind) == s[1..first]
  {
    assert s[optind..optind] == [];
  }

  lemma GatheredMeans(args: seq<string>, s: seq<string>, takesNext: TakesNext, first: int, optind: int)
    requires Gathered(args, s, takesNext, first, optind)
    ensures |args| == |s| && 1 <= first <= optind <= |s| && s[..1] == args[..1]
    ensures s[optind..] == args[optind..]
    ensures var r := Classify(args[optind..], takesNext);
            Classify(args[1..], takesNext) == Groups(s[1..first] + r.options, s[first..optind] + r.others)
  {
    hide Classify;
    assert s[optind..optind] == [];
    assert s[1..first] + [] == s[1..first];
  }

  lemma FinishedIs(args: seq<string>, r: seq<string>, takesNext: TakesNext, options: seq<string>, others: seq<string>)
    requires |args| == |r| && r != [] && Classify(args[1..], takesNext) == Groups(options, others)
    requires r == args[..1] + options + others
    ensures FinishedAt(args, r, takesNext, 1 + |options|)
  {
    hide Classify;
  }

  lemma FourParts<T>(r: seq<T>, i: nat, j: nat)
    requires 1 <= i <= j <= |r|
    ensures r == r[..1] + r[1..i] + (r[i..j] + r[j..])
  {}

  lemma FirstTwo<T>(s: seq<T>, i: nat)
    requires i < |s|
    ensures |s[i..]| == |s| - i && s[i..][0] == s[i] && s[i..i + 1] == [s[i]]
    ensures i + 1 < |s| ==> s[i..i + 2] == [s[i]] + [s[i + 1]]
  {}

  // ----- The scanner -----

  class Scanner {
    const argv: array<string>
    const takesNext: TakesNext
    var optind: int
    var firstNonopt: int
    var lastNonopt: int

    /** The command line before the scan. */
    ghost const args: seq<string>

    ghost predicate Valid()
      reads this, argv
    {
      argv.Length == 0 || Scanned(args, argv[..], takesNext, firstNonopt, lastNonopt, optind)
    }

    ghost predicate Finished()
      reads this, argv
    {
      argv.Length == 0 || FinishedAt(args, argv[..], takesNext, optind)
    }

    /** The options found so far with their arguments. */
    ghost function Found(): seq<string>
      reads this, argv
    {
      Taken(argv[..], firstNonopt, lastNonopt, optind)
    }

    constructor (argv: array<string>, takesNext: TakesNext)
      ensures Valid() && this.argv == argv && this.takesNext == takesNext && args == argv[..] && Found() == []
    {
      this.argv, this.takesNext := argv, takesNext;
      optind, firstNonopt, lastNonopt := 1, 1, 1;
      args := argv[..];
      new;
    }

    /** Moves the others behind the options that follow them. */
    method Exchange()
      requires 0 <= firstNonopt <= lastNonopt <= optind <= argv.Length
      modifies this`firstNonopt, this`lastNonopt, argv
      ensures argv[..] == Rotated(old(argv[..]), old(firstNonopt), old(lastNonopt), optind)
      ensures firstNonopt == old(firstNonopt) + (optind - old(lastNonopt)) && lastNonopt == optind
    {
      hide Rotated, Swapped;
      var bottom, middle, top := firstNonopt, lastNonopt, optind;
      while top > middle && middle > bottom
        invariant firstNonopt == old(firstNonopt) && lastNonopt == old(lastNonopt)
        invariant 0 <= firstNonopt <= bottom <= middle <= top <= optind
        invariant Rotated(argv[..], bottom, middle, top) ==
                  Rotated(old(argv[..]), old(firstNonopt), old(lastNonopt), optind)
        decreases top - bottom
      {
        if top - middle > middle - bottom {
          var len := middle - bottom;
          RotateShortFirst(argv[..], bottom, middle, top);
          SwapBlocks(argv, bottom, top - len, len);
          top := top - len;
        } else {
          var len := top - middle;
          RotateShortSecond(argv[..], bottom, middle, top);
          SwapBlocks(argv, bottom, middle, len);
          bottom := bottom + len;
        }
      }
      EmptyBlock(argv[..], bottom, middle, top);
      firstNonopt := firstNonopt + (optind - lastNonopt);
      lastNonopt := optind;
    }

    /** Brings the others together in front of optind. */
    method Gather()
      requires argv.Length > 0 && Valid()
      modifies this`firstNonopt, this`lastNonopt, argv
      ensures Gathered(args, argv[..], takesNext, firstNonopt, optind)
      ensures Taken(argv[..], firstNonopt, optind, optind) == old(Found())
    {
      ghost var s := argv[..];
      assert Scanned(args, s, takesNext, firstNonopt, lastNonopt, optind);
      assert Found() == Taken(s, firstNonopt, lastNonopt, optind);
      hide *;
      ScannedRange(args, s, takesNext, firstNonopt, lastNonopt, optind);
      GatherExchange(args, s, takesNext, firstNonopt, lastNonopt, optind);
      GatherEmpty(args, s, takesNext, firstNonopt, lastNonopt, optind);
      lastNonopt := if lastNonopt > optind then optind else lastNonopt;
      firstNonopt := if firstNonopt > optind then optind else firstNonopt;
      if firstNonopt != lastNonopt && lastNonopt != optind {
        Exchange();
      } else if lastNonopt != optind {
        firstNonopt := optind;
      }
    }

    /** The argument "--" is the last option; everything behind it belongs to the others. */
    method EndOptions()
      requires 0 <= optind < argv.Length && lastNonopt == optind && argv[optind] == "--"
      requires Gathered(args, argv[..], takesNext, firstNonopt, optind)
      modifies this`optind, this`firstNonopt, this`lastNonopt, argv
      ensures optind == lastNonopt == argv.Length
      ensures FinishedAt(args, argv[..], takesNext, firstNonopt)
      ensures Classify(args[1..], takesNext).options ==
              old(Taken(argv[..], firstNonopt, optind, optind)) + [old(argv[optind])]
    {
      ghost var s := argv[..];
      assert s[optind] == "--" && Scanned(args, s, takesNext, firstNonopt, optind, optind);
      hide *;
      ScannedRange(args, s, takesNext, firstNonopt, optind, optind);
      EndOfOptions(args, s, takesNext, firstNonopt, optind);
      optind := optind + 1;
      if firstNonopt != lastNonopt && lastNonopt != optind {
        Exchange();
      } else if firstNonopt == lastNonopt {
        firstNonopt := optind;
      }
      lastNonopt := argv.Length;
      optind := argv.Length;
    }

    /** Finds the next option; when there is none, all options are in front. */
    method FindNext() returns (found: bool)
      requires Valid()
      modifies this`optind, this`firstNonopt, this`lastNonopt, argv
      ensures found ==>
                && Valid() && Found() == old(Found()) && 0 <= optind < argv.Length && old(optind) <= optind
                && !IsNonOption(argv[optind]) && argv[optind] != "--"
      ensures !found ==>
                && Finished()
                && (argv.Length > 0 ==>
                      |args| > 0 &&
                      var options := Classify(args[1..], takesNext).options;
                      options == old(Found()) || options == old(Found()) + ["--"])
    {
      hide Classify, FinishedAt, Rotated, Taken;
      if argv.Length < 1 {
        return false;
      }
      Gather();
      while optind < argv.Length && IsNonOption(argv[optind])
        invariant Gathered(args, argv[..], takesNext, firstNonopt, optind)
        invariant Taken(argv[..], firstNonopt, optind, optind) == old(Found()) && old(optind) <= optind
      {
        SkipOther(args, argv[..], takesNext, firstNonopt, optind);
        optind := optind + 1;
      }
      lastNonopt := optind;
      if optind == argv.Length {
        EndOfLine(args, argv[..], takesNext, firstNonopt);
      }
      if optind != argv.Length && argv[optind] == "--" {
        EndOptions();
      }
      if optind == argv.Length {
        if firstNonopt != lastNonopt {
          optind := firstNonopt;
        }
        return false;
      }
      assert argv[..][optind..optind] == [];
      return true;
    }

    /** The option at optind with its argument, if it takes one and there is one. */
    method TakeOption() returns (option: seq<string>)
      requires Valid() && 0 <= optind < argv.Length && !IsNonOption(argv[optind]) && argv[optind] != "--"
      modifies this`optind
      ensures Valid() && Found() == old(Found()) + option && option != []
      ensures optind == old(optind) + |option| <= argv.Length
    {
      hide Scanned, Classify, IsNonOption, Taken;
      StepOption(args, argv[..], takesNext, firstNonopt, lastNonopt, optind);
      option := [argv[optind]];
      optind := optind + 1;
      if takesNext(option[0]) && optind < argv.Length {
        option := option + [argv[optind]];
        optind := optind + 1;
      }
    }

    /**
     The whole scan: the options are found in order with their arguments; in the end argv is the command
     name, the options, and the others, as Classify splits the command line, and optind is behind the options.
     */
    method Scan() returns (options: seq<seq<string>>)
      requires Valid() && Found() == []
      modifies this`optind, this`firstNonopt, this`lastNonopt, argv
      ensures Finished()
      ensures argv.Length > 0 ==>
                |args| > 0 &&
                var all := Classify(args[1..], takesNext).options;
                all == Flatten(options) || all == Flatten(options) + ["--"]
    {
      hide Scanned, Classify, FinishedAt, Taken;
      options := [];
      var found := FindNext();
      while found
        invariant found ==>
                    && Valid() && Found() == Flatten(options) && 0 <= optind < argv.Length
                    && !IsNonOption(argv[optind]) && argv[optind] != "--"
        invariant !found ==>
                    && Finished()
                    && (argv.Length > 0 ==>
                          |args| > 0 &&
                          var all := Classify(args[1..], takesNext).options;
                          all == Flatten(options) || all == Flatten(options) + ["--"])
        decreases found, argv.Length - optind
      {
        var option := TakeOption();
        FlattenSnoc(options, option);
        options := options + [option];
        found := FindNext();
      }
    }
  }

  lemma EmptyBlock<T>(s: seq<T>, b: nat, m: nat, t: nat)
    requires b <= m <= t <= |s| && (b == m || m == t)
    ensures Rotated(s, b, m, t) == s
  {}
}
