/**
 TypeScript type texts: filling a template with its arguments, and what a Rust `EitherN`
 becomes.
 */
module TypeTemplate {
  import opened Sequences

  const HOLE := "{}"

  // `match_indices("{}")`, from `from` on.
  function Matches(template: string, from: nat): (r: seq<nat>)
    decreases |template| - from
  {
    if from + 2 > |template| then []
    else if template[from..from + 2] == HOLE then [from] + Matches(template, from + 2)
    else Matches(template, from + 1)
  }

  // The pieces between the holes, by cutting at the first hole over and over.
  function Segments(template: string): (r: seq<string>)
    ensures r != []
  {
    if |template| < 2 then [template]
    else if template[..2] == HOLE then [""] + Segments(template[2..])
    else
      var r := Segments(template[1..]);
      [[template[0]] + r[0]] + r[1..]
  }

  function Interleaved(segments: seq<string>, args: seq<string>): string
    requires |segments| == |args| + 1
  {
    if args == [] then segments[0]
    else segments[0] + args[0] + Interleaved(segments[1..], args[1..])
  }

  // What filling a template means: every hole at once, arguments as they are.
  function Filled(template: string, args: seq<string>): string {
    if |args| + 1 != |Segments(template)| then "any" else Interleaved(Segments(template), args)
  }

  // The same pieces, by position.
  function SegmentsFrom(template: string, from: nat): (r: seq<string>)
    requires from <= |template|
    ensures r != []
    decreases |template| - from
  {
    if from + 2 > |template| then [template[from..]]
    else if template[from..from + 2] == HOLE then [""] + SegmentsFrom(template, from + 2)
    else
      var r := SegmentsFrom(template, from + 1);
      [[template[from]] + r[0]] + r[1..]
  }

  lemma {:induction false} SegmentsByPosition(template: string, from: nat)
    requires from <= |template|
    ensures SegmentsFrom(template, from) == Segments(template[from..])
    decreases |template| - from
  {
    if from + 2 <= |template| {
      Slices(template, from);
      if template[from..from + 2] == HOLE {
        SegmentsByPosition(template, from + 2);
      } else {
        SegmentsByPosition(template, from + 1);
      }
    }
  }

  lemma Slices(template: string, from: nat)
    requires from + 2 <= |template|
    ensures var rest := template[from..];
      && rest[..2] == template[from..from + 2]
      && rest[2..] == template[from + 2..] && rest[1..] == template[from + 1..]
  {
  }

  // Matches and segments, one step at a time.
  predicate InStep(template: string, from: nat, ms: seq<nat>, segs: seq<string>) {
    && from <= |template| && |segs| == |ms| + 1
    && if ms == [] then segs[0] == template[from..]
       else from <= ms[0] && ms[0] + 2 <= |template| && segs[0] == template[from..ms[0]]
  }

  lemma {:induction false} MatchesBetween(template: string, from: nat)
    requires from <= |template|
    ensures InStep(template, from, Matches(template, from), SegmentsFrom(template, from))
    decreases |template| - from
  {
    if from + 2 <= |template| {
      if template[from..from + 2] == HOLE {
        MatchesBetween(template, from + 2);
        assert template[from..from] == "";
      } else {
        MatchesBetween(template, from + 1);
        StepBack(template, from, Matches(template, from + 1), SegmentsFrom(template, from + 1));
      }
    }
  }

  lemma StepBack(template: string, from: nat, ms: seq<nat>, segs: seq<string>)
    requires from < |template| && InStep(template, from + 1, ms, segs)
    ensures InStep(template, from, ms, [[template[from]] + segs[0]] + segs[1..])
  {
    OneCharacterMore(template, from, if ms == [] then |template| else ms[0]);
  }

  // Past a match, both go on from its end.
  lemma {:induction false} AfterAMatch(template: string, from: nat)
    requires from <= |template|
    ensures var ms := Matches(template, from);
      ms != [] ==>
        && ms[0] + 2 <= |template|
        && ms[1..] == Matches(template, ms[0] + 2)
        && SegmentsFrom(template, from)[1..] == SegmentsFrom(template, ms[0] + 2)
    decreases |template| - from
  {
    if from + 2 <= |template| {
      if template[from..from + 2] == HOLE {
        var ms, segs := Matches(template, from + 2), SegmentsFrom(template, from + 2);
        assert ([from] + ms)[1..] == ms && ([""] + segs)[1..] == segs;
      } else {
        AfterAMatch(template, from + 1);
        var segs := SegmentsFrom(template, from + 1);
        assert ([[template[from]] + segs[0]] + segs[1..])[1..] == segs[1..];
      }
    }
  }

  lemma OneCharacterMore(template: string, from: nat, k: nat)
    requires from < k <= |template|
    ensures [template[from]] + template[from + 1..k] == template[from..k]
    ensures template[k..|template|] == template[k..] && template[from + 1..|template|] == template[from + 1..]
    ensures template[from..|template|] == template[from..]
  {
  }

  lemma OneMoreFilled(ret: string, segs: seq<string>, args: seq<string>, i: nat, piece: string)
    requires i < |args| && |segs| == |args[i..]| + 1 && segs[0] == piece
    ensures |segs[1..]| == |args[i + 1..]| + 1
    ensures ret + Interleaved(segs, args[i..]) == ret + piece + args[i] + Interleaved(segs[1..], args[i + 1..])
  {
    assert args[i..][1..] == args[i + 1..];
    var tail := Interleaved(segs[1..], args[i + 1..]);
    assert ret + (piece + args[i] + tail) == ret + piece + args[i] + tail;
  }

  lemma OneMoreMatch(template: string, prev: nat, ret: string, matches: seq<nat>, args: seq<string>, i: nat)
    requires prev <= |template| && i < |args| == |matches| && Matches(template, prev) == matches[i..]
    requires |SegmentsFrom(template, prev)| == |args[i..]| + 1
    ensures prev <= matches[i] && matches[i] + 2 <= |template|
    ensures var next := matches[i] + 2;
      && Matches(template, next) == matches[i + 1..]
      && |SegmentsFrom(template, next)| == |args[i + 1..]| + 1
      && ret + Interleaved(SegmentsFrom(template, prev), args[i..])
         == ret + template[prev..matches[i]] + args[i] + Interleaved(SegmentsFrom(template, next), args[i + 1..])
  {
    MatchesBetween(template, prev);
    AfterAMatch(template, prev);
    assert matches[i..][1..] == matches[i + 1..];
    OneMoreFilled(ret, SegmentsFrom(template, prev), args, i, template[prev..matches[i]]);
  }

  method FillTy(template: string, args: seq<string>) returns (ret: string)
    ensures ret == Filled(template, args)
  {
    var matches := Matches(template, 0);
    MatchesBetween(template, 0);
    SegmentsByPosition(template, 0);
    assert template[0..] == template;
    if |args| != |matches| {
      return "any";
    }
    ret := "";
    var prev := 0;
    assert args[0..] == args && matches[0..] == matches;
    assert "" + Interleaved(Segments(template), args) == Interleaved(Segments(template), args);
    for i := 0 to |args|
      invariant prev <= |template|
      invariant Matches(template, prev) == matches[i..]
      invariant |SegmentsFrom(template, prev)| == |args[i..]| + 1
      invariant Filled(template, args) == ret + Interleaved(SegmentsFrom(template, prev), args[i..])
    {
      OneMoreMatch(template, prev, ret, matches, args, i);
      var index, arg := matches[i], args[i];
      ret := ret + template[prev..index];
      ret := ret + arg;
      prev := index + 2;
    }
    MatchesBetween(template, prev);
    ret := ret + template[prev..];
  }

  // ----- the segments are those of the template, and none of them holds a hole

  function Holes(n: nat): seq<string> {
    seq(n, i => HOLE)
  }

  lemma {:induction false} SegmentsMakeTheTemplate(template: string)
    ensures Interleaved(Segments(template), Holes(|Segments(template)| - 1)) == template
  {
    if |template| >= 2 {
      var n := |Segments(template)| - 1;
      if template[..2] == HOLE {
        SegmentsMakeTheTemplate(template[2..]);
        assert Holes(n)[1..] == Holes(n - 1);
        assert template == HOLE + template[2..];
      } else {
        var r := Segments(template[1..]);
        SegmentsMakeTheTemplate(template[1..]);
        FirstSegmentGrows([template[0]], r, Holes(n));
        assert template == [template[0]] + template[1..];
      }
    }
  }

  lemma FirstSegmentGrows(s: string, segs: seq<string>, args: seq<string>)
    requires |segs| == |args| + 1
    ensures Interleaved([s + segs[0]] + segs[1..], args) == s + Interleaved(segs, args)
  {
    var grown := [s + segs[0]] + segs[1..];
    assert grown[1..] == segs[1..];
    if args != [] {
      Regroup4(s, segs[0], args[0], Interleaved(segs[1..], args[1..]));
    }
  }

  predicate HoleAt(s: string, i: nat) {
    i + 2 <= |s| && s[i..i + 2] == HOLE
  }

  predicate Whole(s: string) {
    forall i | 0 <= i < |s| :: !HoleAt(s, i)
  }

  lemma GrownIsWhole(c: char, s: string)
    requires Whole(s) && (s != "" ==> [c, s[0]] != HOLE)
    ensures Whole([c] + s)
  {
    var t := [c] + s;
    forall i | 0 <= i < |t|
      ensures !HoleAt(t, i)
    {
      if i > 0 {
        assert !HoleAt(s, i - 1);
        assert i + 2 <= |t| ==> t[i..i + 2] == s[i - 1..i - 1 + 2];
      } else {
        assert s != "" ==> t[0..2] == [c, s[0]];
      }
    }
  }

  predicate AllWhole(segs: seq<string>) {
    forall k | 0 <= k < |segs| :: Whole(segs[k])
  }

  lemma WholeAfter(s: string, segs: seq<string>)
    requires Whole(s) && AllWhole(segs)
    ensures AllWhole([s] + segs)
  {
  }

  lemma {:induction false} SegmentsAreWhole(template: string)
    ensures AllWhole(Segments(template))
    ensures Segments(template)[0] != "" ==> template != "" && Segments(template)[0][0] == template[0]
  {
    if |template| < 2 {
      assert Segments(template) == [template];
    } else if template[..2] == HOLE {
      SegmentsAreWhole(template[2..]);
      WholeAfter("", Segments(template[2..]));
    } else {
      var r := Segments(template[1..]);
      SegmentsAreWhole(template[1..]);
      assert template[..2] == [template[0], template[1..][0]];
      GrownIsWhole(template[0], r[0]);
      WholeAfter([template[0]] + r[0], r[1..]);
    }
  }

  function Total(args: seq<string>): nat {
    if args == [] then 0 else |args[0]| + Total(args[1..])
  }

  lemma {:induction false} InterleavedLength(segs: seq<string>, args: seq<string>)
    requires |segs| == |args| + 1
    ensures |Interleaved(segs, args)| == Total(segs) + Total(args)
  {
    if args != [] {
      InterleavedLength(segs[1..], args[1..]);
    } else {
      assert segs[1..] == [];
    }
  }

  lemma {:induction false} HolesTotal(n: nat)
    ensures Total(Holes(n)) == 2 * n
  {
    if n > 0 {
      HolesTotal(n - 1);
      assert Holes(n)[1..] == Holes(n - 1);
    }
  }

  // The filled text is the template less its holes, plus the arguments.
  lemma FilledLength(template: string, args: seq<string>)
    requires |args| + 1 == |Segments(template)|
    ensures |Filled(template, args)| == |template| - 2 * |args| + Total(args)
  {
    var segs := Segments(template);
    SegmentsMakeTheTemplate(template);
    InterleavedLength(segs, Holes(|args|));
    HolesTotal(|args|);
    InterleavedLength(segs, args);
  }

  // Where the k-th argument lands.
  function At(segs: seq<string>, args: seq<string>, k: nat): nat
    requires |segs| == |args| + 1 && k < |args|
  {
    |segs[0]| + if k == 0 then 0 else |args[0]| + At(segs[1..], args[1..], k - 1)
  }

  // Each argument is there word for word, whatever braces it holds.
  lemma {:induction false} ArgumentIsThere(segs: seq<string>, args: seq<string>, k: nat)
    requires |segs| == |args| + 1 && k < |args|
    ensures var p, s := At(segs, args, k), Interleaved(segs, args);
      p + |args[k]| <= |s| && s[p..p + |args[k]|] == args[k]
  {
    var s, rest := Interleaved(segs, args), Interleaved(segs[1..], args[1..]);
    if k > 0 {
      ArgumentIsThere(segs[1..], args[1..], k - 1);
      var skip, p := |segs[0]| + |args[0]|, At(segs[1..], args[1..], k - 1);
      SliceOfTail(segs[0] + args[0], rest, p, |args[k]|);
    }
  }

  lemma SliceOfTail(head: string, tail: string, p: nat, n: nat)
    requires p + n <= |tail|
    ensures (head + tail)[|head| + p..|head| + p + n] == tail[p..p + n]
  {
  }

  // ----- known types

  predicate StartsWith(s: string, prefix: string) {
    |s| >= |prefix| && s[..|prefix|] == prefix
  }

  // KNOWN_TYPES_IGNORE_ARG
  function IgnoredArgs(rustTy: string): set<nat> {
    if rustTy == "HashMap" || rustTy == "IndexMap" then {2}
    else if rustTy == "HashSet" || rustTy == "IndexSet" then {1}
    else {}
  }

  function Unignored(args: seq<string>, ignored: set<nat>): seq<string> {
    if args == [] then []
    else
      var last := |args| - 1;
      Unignored(args[..last], ignored) + if last in ignored then [] else [args[last]]
  }

  function WithoutRepeats(args: seq<string>): seq<string> {
    if args == [] then []
    else
      var acc, cur := WithoutRepeats(args[..|args| - 1]), args[|args| - 1];
      if cur in acc then acc else acc + [cur]
  }

  function HandleKnownType(rustTy: string, knownTy: string, args: seq<string>, isReturnTy: bool): string {
    if rustTy == "()" && isReturnTy then "void"
    else if Matches(knownTy, 0) == [] then knownTy
    else if StartsWith(rustTy, "Either") then
      var unionArgs := WithoutRepeats(args);
      if |unionArgs| == 1 then unionArgs[0] else Filled(knownTy, unionArgs)
    else
      var filtered := Unignored(args, IgnoredArgs(rustTy));
      if StartsWith(rustTy, "Function") && filtered == [] then Filled(knownTy, ["arg?: unknown", "unknown"])
      else Filled(knownTy, filtered)
  }

  // Whether the argument after `n` others is a hasher.
  predicate TakesHasherAfter(rustTy: string, n: nat) {
    || (n == 2 && (rustTy == "HashMap" || rustTy == "IndexMap"))
    || (n == 1 && (rustTy == "HashSet" || rustTy == "IndexSet"))
  }

  // A hasher changes nothing: `HashMap<K, V, S>` reads like `HashMap<K, V>`.
  lemma HasherIsIgnored(rustTy: string, knownTy: string, args: seq<string>, hasher: string, isReturnTy: bool)
    requires TakesHasherAfter(rustTy, |args|)
    ensures HandleKnownType(rustTy, knownTy, args + [hasher], isReturnTy)
      == HandleKnownType(rustTy, knownTy, args, isReturnTy)
  {
    var more := args + [hasher];
    assert more[..|args|] == args;
    assert Unignored(args, IgnoredArgs(rustTy)) + [] == Unignored(args, IgnoredArgs(rustTy));
    assert rustTy[0] == 'H' || rustTy[0] == 'I';
    assert "Either"[0] == 'E';
  }

  lemma {:induction false} NothingIgnored(args: seq<string>, ignored: set<nat>)
    requires forall i | 0 <= i < |args| :: i !in ignored
    ensures Unignored(args, ignored) == args
  {
    if args != [] {
      NothingIgnored(args[..|args| - 1], ignored);
    }
  }

  // No other argument is dropped: any known type but an `Either` has all its arguments
  // filled in, unless one of them is a hasher; a function that says nothing of itself takes
  // and gives anything, and a unit that is returned is void.
  lemma ArgumentsAreFilledIn(rustTy: string, knownTy: string, args: seq<string>, isReturnTy: bool)
    requires !StartsWith(rustTy, "Either")
    requires forall n | 0 <= n < |args| :: !TakesHasherAfter(rustTy, n)
    ensures HandleKnownType(rustTy, knownTy, args, isReturnTy)
      == if isReturnTy && rustTy == "()" then "void"
         else if |Segments(knownTy)| == 1 then knownTy
         else if args == [] && StartsWith(rustTy, "Function") then Filled(knownTy, ["arg?: unknown", "unknown"])
         else Filled(knownTy, args)
  {
    forall i | 0 <= i < |args|
      ensures i !in IgnoredArgs(rustTy)
    {
      assert !TakesHasherAfter(rustTy, i);
    }
    NothingIgnored(args, IgnoredArgs(rustTy));
    MatchesBetween(knownTy, 0);
    SegmentsByPosition(knownTy, 0);
    assert knownTy[0..] == knownTy;
  }

  // The template of `EitherN`.
  function EitherTemplate(n: nat): string
    requires n > 0
  {
    if n == 1 then HOLE else HOLE + " | " + EitherTemplate(n - 1)
  }

  function Joined(args: seq<string>): string
    requires args != []
  {
    if |args| == 1 then args[0] else args[0] + " | " + Joined(args[1..])
  }

  function AfterHole(n: nat): seq<string>
    requires n > 0
  {
    seq(n, i requires 0 <= i < n => if i < n - 1 then " | " else "")
  }

  lemma {:induction false} EitherSegments(n: nat)
    requires n > 0
    ensures Segments(EitherTemplate(n)) == [""] + AfterHole(n)
  {
    if n == 1 {
      assert HOLE + "" == HOLE;
      HoleThen("");
      assert AfterHole(1) == [""];
    } else {
      EitherSegments(n - 1);
      OneMoreHole(EitherTemplate(n - 1));
      BarHeads(n);
    }
  }

  lemma OneMoreHole(rest: string)
    ensures Segments(HOLE + " | " + rest)
      == [""] + ([" | " + Segments(rest)[0]] + Segments(rest)[1..])
  {
    Regroup(HOLE, " | ", rest);
    HoleThen(" | " + rest);
    BarThen(rest);
  }

  lemma HoleThen(rest: string)
    ensures Segments(HOLE + rest) == [""] + Segments(rest)
  {
    assert (HOLE + rest)[..2] == HOLE && (HOLE + rest)[2..] == rest;
  }

  lemma BarHeads(n: nat)
    requires n > 1
    ensures var r := [""] + AfterHole(n - 1);
      [" | " + r[0]] + r[1..] == AfterHole(n)
  {
    assert " | " + "" == " | ";
  }

  lemma StepsOver(c: char, rest: string)
    requires c != '{'
    ensures Segments([c] + rest) == [[c] + Segments(rest)[0]] + Segments(rest)[1..]
  {
    var t := [c] + rest;
    assert t[1..] == rest;
    if rest == "" {
      assert [c] + "" == [c] == t;
    } else {
      assert t[..2][0] == c;
    }
  }

  lemma BarThen(rest: string)
    ensures Segments(" | " + rest) == [" | " + Segments(rest)[0]] + Segments(rest)[1..]
  {
    var r := Segments(rest)[0];
    StepsOver(' ', rest);
    StepsOver('|', [' '] + rest);
    StepsOver(' ', ['|'] + ([' '] + rest));
    assert " | " + rest == [' '] + (['|'] + ([' '] + rest));
    assert " | " + r == [' '] + (['|'] + ([' '] + r));
  }

  lemma {:induction false} EitherInterleaves(args: seq<string>)
    requires args != []
    ensures Interleaved([""] + AfterHole(|args|), args) == Joined(args)
  {
    var segs := [""] + AfterHole(|args|);
    assert segs[1..] == AfterHole(|args|);
    assert "" + args[0] == args[0];
    if |args| == 1 {
      assert args[0] + "" == args[0];
    } else {
      EitherInterleaves(args[1..]);
      FirstSegmentGrows(" | ", [""] + AfterHole(|args| - 1), args[1..]);
      assert " | " + "" == " | ";
      assert ([""] + AfterHole(|args| - 1))[1..] == AfterHole(|args| - 1);
      assert AfterHole(|args|) == [" | "] + AfterHole(|args| - 1);
      assert Interleaved(segs[1..], args[1..]) == " | " + Joined(args[1..]);
      assert args[0] + (" | " + Joined(args[1..])) == args[0] + " | " + Joined(args[1..]);
    }
  }

  predicate Alike(args: seq<string>) {
    forall i | 0 <= i < |args| :: args[i] == args[0]
  }

  // What `EitherN` of these arguments becomes: one type if they are all alike, their union
  // if they are all different, and otherwise `any`.
  lemma EitherExactly(rustTy: string, n: nat, args: seq<string>, isReturnTy: bool)
    requires StartsWith(rustTy, "Either") && n >= 2 && |args| == n
    ensures HandleKnownType(rustTy, EitherTemplate(n), args, isReturnTy)
      == if Alike(args) then args[0]
         else if Distinct(args) then Joined(args)
         else "any"
  {
    RepeatsExactly(args);
    EitherSegments(n);
    assert EitherTemplate(n)[0..2] == HOLE;
    assert rustTy != "()";
    RepeatFacts(args);
    if |WithoutRepeats(args)| == n {
      EitherInterleaves(args);
    }
  }

  // One type is left if all are alike, and all of them if they are all different.
  lemma RepeatsExactly(args: seq<string>)
    requires args != []
    ensures |WithoutRepeats(args)| == 1 <==> Alike(args)
    ensures |WithoutRepeats(args)| == |args| <==> Distinct(args)
  {
    RepeatFacts(args);
    if |WithoutRepeats(args)| == 1 {
      AllAlike(args);
    }
    if Alike(args) {
      OnlyFirst(args);
    }
    if Distinct(args) {
      NothingRepeats(args);
    }
  }

  lemma OnlyFirst(args: seq<string>)
    requires args != [] && Alike(args)
    ensures |WithoutRepeats(args)| == 1
  {
    RepeatFacts(args);
    var once := WithoutRepeats(args);
    forall k | 0 <= k < |once|
      ensures once[k] == once[0]
    {
      assert once[k] in args && once[0] in args;
    }
  }

  lemma {:induction false} NothingRepeats(args: seq<string>)
    requires Distinct(args)
    ensures WithoutRepeats(args) == args
  {
    if args != [] {
      var rest, last := args[..|args| - 1], args[|args| - 1];
      NothingRepeats(rest);
      assert args == rest + [last] && last !in rest;
    }
  }

  lemma {:induction false} RepeatFacts(args: seq<string>)
    ensures |WithoutRepeats(args)| <= |args|
    ensures forall a :: a in WithoutRepeats(args) <==> a in args
    ensures |WithoutRepeats(args)| == |args| ==> WithoutRepeats(args) == args
    ensures Distinct(WithoutRepeats(args))
    ensures args != [] ==> WithoutRepeats(args) != [] && WithoutRepeats(args)[0] == args[0]
  {
    if args != [] {
      var rest, last := args[..|args| - 1], args[|args| - 1];
      assert args == rest + [last];
      RepeatFacts(rest);
    }
  }

  // A reading of type texts as sets of values takes `any` as everything, and the texts at
  // hand joined by bars as their union: no more is asked of it, so that a text which ends
  // in an arrow may take the bars after it as its own in any other place.
  ghost predicate ReadsAnyAsTop(meaning: string -> iset<int>) {
    forall v: int :: v in meaning("any")
  }

  ghost predicate SomeTakes(meaning: string -> iset<int>, args: seq<string>, v: int) {
    exists i :: 0 <= i < |args| && v in meaning(args[i])
  }

  ghost predicate ReadsAsUnion(meaning: string -> iset<int>, args: seq<string>)
    requires args != []
  {
    forall v: int :: v in meaning(Joined(args)) <==> SomeTakes(meaning, args, v)
  }

  // The type printed for `EitherN` takes every value its arguments take, and it takes
  // exactly those if and only if they are all alike, all different, or take everything.
  lemma EitherNeverNarrows(meaning: string -> iset<int>, rustTy: string, n: nat, args: seq<string>, isReturnTy: bool)
    requires StartsWith(rustTy, "Either") && n >= 2 && |args| == n
    requires ReadsAnyAsTop(meaning) && (Distinct(args) ==> ReadsAsUnion(meaning, args))
    ensures var printed := HandleKnownType(rustTy, EitherTemplate(n), args, isReturnTy);
      && (forall v: int :: SomeTakes(meaning, args, v) ==> v in meaning(printed))
      && ((forall v: int :: v in meaning(printed) ==> SomeTakes(meaning, args, v))
          <==> Alike(args) || Distinct(args) || forall v: int :: SomeTakes(meaning, args, v))
  {
    EitherExactly(rustTy, n, args, isReturnTy);
    if Alike(args) {
      forall v: int
        ensures SomeTakes(meaning, args, v) <==> v in meaning(args[0])
      {
        if v in meaning(args[0]) {
          assert v in meaning(args[0]);
        } else if i :| 0 <= i < |args| && v in meaning(args[i]) {
          assert args[i] == args[0];
        }
      }
    }
  }

  lemma AllAlike(args: seq<string>)
    requires |WithoutRepeats(args)| == 1 && args != []
    ensures Alike(args)
  {
    RepeatFacts(args);
    forall i | 0 <= i < |args|
      ensures args[i] == args[0]
    {
      assert args[i] in WithoutRepeats(args);
    }
  }

  // Three arguments, two of them alike, print as `any` and not as the union of the two.
  lemma PartlyAlikeIsAny()
    ensures HandleKnownType("Either3", EitherTemplate(3), ["number", "string", "number"], false) == "any"
  {
    var args := ["number", "string", "number"];
    assert args[0] != args[1] && args[0] == args[2];
    EitherExactly("Either3", 3, args, false);
  }
}
