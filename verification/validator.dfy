/** `validateColorScaleFormat` (src/ui/utils/variableParser.ts:63-122):
    whether a group of variables looks like a colour scale, that is, all
    colour variables, each named by a numeric step on the 50..900 grid. */
module ScaleValidator {
  import opened Wrappers
  import opened Text
  import opened Typography
  import opened VariableParser

  /** `parseInt(parseVariableName(v.name).variable, 10)`, None for NaN. */
  function StepOf(v: VariableData): Option<int> {
    ParseInt(ParseVariableName(v.name).variable, 10)
  }

  /** What the validation reads of one variable: its name, its type and
      the step its leaf name spells. */
  datatype Scanned = Scanned(name: string, vtype: ResolvedType, step: Option<int>)

  function Scan(v: VariableData): Scanned {
    Scanned(v.name, v.vtype, StepOf(v))
  }

  /** The variables as the validation reads them, in input order. */
  function Scans(vars: seq<VariableData>): (xs: seq<Scanned>)
    ensures |xs| == |vars| && forall i | 0 <= i < |vars| :: xs[i] == Scan(vars[i])
  {
    MapSeq(vars, Scan)
  }

  /** `v.type !== 'COLOR'` */
  predicate NotColor(x: Scanned) {
    x.vtype != COLOR
  }

  /** `isNaN(stepNum)` */
  predicate NoStep(x: Scanned) {
    x.step.None?
  }

  predicate HasStep(x: Scanned) {
    x.step.Some?
  }

  /** `s >= 50 && s <= 900 && s % 50 === 0`. JavaScript's `%` truncates,
      but on the steps that pass the first two tests both remainders agree. */
  predicate OnScale(s: int) {
    50 <= s <= 900 && s % 50 == 0
  }

  /** A variable the scale format accepts: a colour whose leaf name
      parses to a step on the grid. */
  predicate Conforms(v: VariableData) {
    v.vtype == COLOR && StepOf(v).Some? && OnScale(StepOf(v).value)
  }

  /** A parsed step off the 50..900 grid. */
  predicate OffGrid(x: Scanned) {
    x.step.Some? && !OnScale(x.step.value)
  }

  /** `sortedSteps.every(...)`: sorting first does not change the answer. */
  predicate AllOnScale(steps: seq<int>) {
    forall s | s in steps :: OnScale(s)
  }

  // ----- sequence helpers -----

  function MapSeq<T, U>(s: seq<T>, f: T -> U): (r: seq<U>)
    ensures |r| == |s| && forall i | 0 <= i < |s| :: r[i] == f(s[i])
  {
    seq(|s|, i requires 0 <= i < |s| => f(s[i]))
  }

  lemma MapAppend<T, U>(a: seq<T>, b: seq<T>, f: T -> U)
    ensures MapSeq(a + b, f) == MapSeq(a, f) + MapSeq(b, f)
  {
  }

  /** `s.filter(p).length` */
  function Count<T>(s: seq<T>, p: T -> bool): (n: nat)
    ensures n <= |s|
  {
    if |s| == 0 then 0 else (if p(s[0]) then 1 else 0) + Count(s[1..], p)
  }

  /** Nothing is counted exactly when no element satisfies `p`. */
  lemma {:induction false} CountZero<T>(s: seq<T>, p: T -> bool)
    ensures Count(s, p) == 0 <==> forall i | 0 <= i < |s| :: !p(s[i])
    decreases |s|
  {
    if |s| > 0 {
      CountZero(s[1..], p);
      assert forall i | 1 <= i < |s| :: s[i] == s[1..][i - 1];
    }
  }

  lemma {:induction false} CountAppend<T>(a: seq<T>, b: seq<T>, p: T -> bool)
    ensures Count(a + b, p) == Count(a, p) + Count(b, p)
    decreases |a|
  {
    if |a| == 0 {
      assert a + b == b;
    } else {
      assert (a + b)[1..] == a[1..] + b;
      CountAppend(a[1..], b, p);
    }
  }

  /** `s.filter(p)` */
  function Filter<T(!new)>(s: seq<T>, p: T -> bool): (r: seq<T>)
    ensures |r| == Count(s, p)
    ensures forall x :: x in r <==> x in s && p(x)
  {
    if |s| == 0 then []
    else
      var rest := Filter(s[1..], p);
      assert forall x :: x in s <==> x == s[0] || x in s[1..];
      (if p(s[0]) then [s[0]] else []) + rest
  }

  // ----- validateColorScaleFormat (variableParser.ts:71-122) -----

  /** `invalidNames`: the names whose step is NaN, in input order. */
  function InvalidNames(xs: seq<Scanned>): (names: seq<string>)
    ensures |names| == Count(xs, NoStep)
  {
    var bad := Filter(xs, NoStep);
    seq(|bad|, i requires 0 <= i < |bad| => bad[i].name)
  }

  /** The invalid names are the names of the variables without a step, in
      input order: none for no variables, and one more at the end for each
      further variable without a step. */
  lemma InvalidNamesSnoc(xs: seq<Scanned>, x: Scanned)
    ensures InvalidNames([]) == []
    ensures InvalidNames(xs + [x]) == InvalidNames(xs) + (if NoStep(x) then [x.name] else [])
  {
    FilterSnoc(xs, x, NoStep);
    var bad := Filter(xs, NoStep);
    var bad' := Filter(xs + [x], NoStep);
    assert forall i | 0 <= i < |bad| :: bad'[i] == bad[i];
  }

  /** `filter` of one more element keeps what it kept and adds that
      element at the end when it passes. */
  lemma {:induction false} FilterSnoc<T(!new)>(xs: seq<T>, x: T, p: T -> bool)
    ensures Filter(xs + [x], p) == Filter(xs, p) + (if p(x) then [x] else [])
  {
    if |xs| == 0 {
      assert xs + [x] == [x];
    } else {
      assert (xs + [x])[1..] == xs[1..] + [x];
      FilterSnoc(xs[1..], x, p);
    }
  }

  /** `steps`: the steps that parse, in input order. */
  function Steps(xs: seq<Scanned>): (steps: seq<int>)
    ensures |steps| == Count(xs, HasStep)
  {
    var ok := Filter(xs, HasStep);
    seq(|ok|, i requires 0 <= i < |ok| => assert ok[i] in ok; ok[i].step.value)
  }

  /** The steps collected are exactly the steps of the variables that have one. */
  lemma StepsContents(xs: seq<Scanned>, s: int)
    ensures s in Steps(xs) <==> exists x | x in xs :: x.step == Some(s)
  {
    var ok := Filter(xs, HasStep);
    var steps := Steps(xs);
    if s in steps {
      var i :| 0 <= i < |steps| && steps[i] == s;
      assert ok[i] in ok;
    }
    if exists x | x in xs :: x.step == Some(s) {
      var x :| x in xs && x.step == Some(s);
      assert x in ok;
      var i :| 0 <= i < |ok| && ok[i] == x;
      assert steps[i] == s;
    }
  }

  /** The parsed steps leave the grid exactly when some variable's step does. */
  lemma OffScaleStep(xs: seq<Scanned>)
    ensures var steps := Steps(xs);
            (|steps| > 0 && !AllOnScale(steps)) <==> exists x | x in xs :: OffGrid(x)
  {
    var steps := Steps(xs);
    if exists x | x in xs :: OffGrid(x) {
      var x :| x in xs && OffGrid(x);
      StepsContents(xs, x.step.value);
    }
    if |steps| > 0 && !AllOnScale(steps) {
      var s :| s in steps && !OnScale(s);
      StepsContents(xs, s);
    }
  }

  /** One entry of `issues`, before it is rendered as text. */
  datatype Issue =
    | NonColor(count: nat)
    | NonNumeric(count: nat, examples: seq<string>)
    | OffScale

  function Min(a: int, b: int): int {
    if a <= b then a else b
  }

  /** The invalid names quoted in the message: `slice(0, 3)`. */
  function Examples(xs: seq<Scanned>): (e: seq<string>)
    ensures |e| == Min(3, Count(xs, NoStep)) && e <= InvalidNames(xs)
  {
    var names := InvalidNames(xs);
    names[..Min(3, |names|)]
  }

  /** The three `if (…) issues.push(…)` of the source, in order. */
  function Report(nonColor: nat, nonNumeric: nat, examples: seq<string>, offScale: bool): seq<Issue> {
    (if nonColor > 0 then [NonColor(nonColor)] else [])
    + (if nonNumeric > 0 then [NonNumeric(nonNumeric, examples)] else [])
    + (if offScale then [OffScale] else [])
  }

  /** Each issue is raised exactly when its condition holds, and no other
      issue is. */
  lemma ReportContents(nonColor: nat, nonNumeric: nat, examples: seq<string>, offScale: bool)
    ensures var r := Report(nonColor, nonNumeric, examples, offScale);
            && (forall i | 0 <= i < |r| :: r[i] in {NonColor(nonColor), NonNumeric(nonNumeric, examples), OffScale})
            && (NonColor(nonColor) in r <==> nonColor > 0)
            && (NonNumeric(nonNumeric, examples) in r <==> nonNumeric > 0)
            && (OffScale in r <==> offScale)
  {
  }

  /** The issues `validateColorScaleFormat` reports, in its order: the
      non-colour variables, the names without a step (the first three of
      them as examples), and parsed steps off the 50..900 grid. Each is
      raised exactly when some variable shows it, and nothing else is. */
  function Issues(xs: seq<Scanned>): (issues: seq<Issue>)
    ensures forall i | 0 <= i < |issues| ::
              issues[i] in {NonColor(Count(xs, NotColor)), NonNumeric(Count(xs, NoStep), Examples(xs)), OffScale}
    ensures NonColor(Count(xs, NotColor)) in issues <==> exists x | x in xs :: NotColor(x)
    ensures NonNumeric(Count(xs, NoStep), Examples(xs)) in issues <==> exists x | x in xs :: NoStep(x)
    ensures OffScale in issues <==> exists x | x in xs :: OffGrid(x)
  {
    var steps := Steps(xs);
    CountZero(xs, NotColor);
    CountZero(xs, NoStep);
    OffScaleStep(xs);
    var off := |steps| > 0 && !AllOnScale(steps);
    ReportContents(Count(xs, NotColor), Count(xs, NoStep), Examples(xs), off);
    Report(Count(xs, NotColor), |InvalidNames(xs)|, Examples(xs), off)
  }

  /** `ColorScaleValidation`, with an absent `suggestedSteps` as None. */
  datatype Validation = Validation(isValid: bool, expectedFormat: string, issues: seq<string>, suggestedSteps: Option<seq<int>>)

  const ExpectedFormat: string := "GroupName/[50-900] (e.g., Primary/500)"

  const SuggestedSteps: seq<int> := [50, 100, 200, 300, 400, 500, 600, 700, 800, 900]

  /** `list.join(sep)` */
  function JoinWith(parts: seq<string>, sep: string): string {
    if |parts| == 0 then ""
    else if |parts| == 1 then parts[0]
    else parts[0] + sep + JoinWith(parts[1..], sep)
  }

  /** The message pushed onto `issues`. */
  function IssueText(issue: Issue): string {
    match issue
    case NonColor(n) => "Contains " + (Decimal(n) + " non-color variable(s)")
    case NonNumeric(n, examples) =>
      Decimal(n) + (" variable(s) with non-numeric names: " + JoinWith(examples, ", ") + (if n > 3 then "..." else ""))
    case OffScale => "Steps do not follow standard scale format (50, 100, 200, ..., 900)"
  }

  /** `validateColorScaleFormat`: a group is a valid scale exactly when it
      is not empty and every variable in it is a colour whose leaf name is
      a step on the 50..900 grid; the suggested steps come with every
      invalid verdict and are themselves on the grid. */
  function Validate(vars: seq<VariableData>): (r: Validation)
    ensures r.isValid <==> |vars| > 0 && forall i | 0 <= i < |vars| :: Conforms(vars[i])
    ensures r.suggestedSteps.Some? <==> !r.isValid
    ensures r.suggestedSteps.Some? ==> AllOnScale(r.suggestedSteps.value)
    ensures r.isValid <==> |r.issues| == 0 && |vars| > 0
    ensures r.suggestedSteps.Some? ==> r.suggestedSteps.value == SuggestedSteps
    ensures r.expectedFormat == ExpectedFormat
  {
    var issues := Issues(Scans(vars));
    var valid := |issues| == 0 && |vars| > 0;
    ScansClean(vars);
    SuggestedOnScale();
    Validation(valid, ExpectedFormat, MapSeq(issues, IssueText), if valid then None else Some(SuggestedSteps))
  }

  /** The issues `validateColorScaleFormat` returns are the ones the three
      checks raise, rendered as text in the same order. */
  lemma ValidateIssues(vars: seq<VariableData>)
    ensures Validate(vars).issues == MapSeq(Issues(Scans(vars)), IssueText)
  {
  }

  /** No issue is raised for `vars` exactly when each is a colour whose
      leaf name parses to a step on the grid. */
  lemma ScansClean(vars: seq<VariableData>)
    ensures |Issues(Scans(vars))| == 0 <==> forall i | 0 <= i < |vars| :: Conforms(vars[i])
  {
    var xs := Scans(vars);
    NoIssues(xs);
    forall i | 0 <= i < |vars|
      ensures (!NotColor(xs[i]) && !NoStep(xs[i]) && !OffGrid(xs[i]))
              <==> Conforms(vars[i])
    {
      ScanFields(vars[i], xs[i]);
    }
  }

  lemma ScanFields(v: VariableData, x: Scanned)
    requires x == Scan(v)
    ensures x.vtype == v.vtype && x.step == StepOf(v)
  {
  }

  /** The suggested steps pass the grid test themselves. */
  lemma SuggestedOnScale()
    ensures AllOnScale(SuggestedSteps)
  {
    forall s | s in SuggestedSteps ensures OnScale(s) {
      assert s == 50 || s == 100 || s == 200 || s == 300 || s == 400 || s == 500
          || s == 600 || s == 700 || s == 800 || s == 900;
    }
  }

  /** No issue is raised exactly when every variable is a colour with a
      step on the grid. */
  lemma NoIssues(xs: seq<Scanned>)
    ensures |Issues(xs)| == 0 <==> forall i | 0 <= i < |xs| :: !NotColor(xs[i]) && !NoStep(xs[i]) && !OffGrid(xs[i])
  {
    var issues := Issues(xs);
    if |issues| > 0 {
      assert issues[0] in issues;
    }
  }

  // ----- the messages -----

  /** The count at the head of the non-numeric message reads back with
      `parseInt`: the message starts with the number it reports. */
  lemma NonNumericCountReads(n: nat, examples: seq<string>)
    ensures ParseInt(IssueText(NonNumeric(n, examples)), 10) == Some(n)
  {
    var d := Decimal(n);
    var rest := " variable(s) with non-numeric names: " + JoinWith(examples, ", ") + (if n > 3 then "..." else "");
    NatDigitsSpec(n, 10);
    ParseIntOfDigits(d, rest, 10);
  }

  /** The count after `Contains ` in the non-colour message reads back the
      same way. */
  lemma NonColorCountReads(n: nat)
    ensures var text := IssueText(NonColor(n));
            |text| > 9 && ParseInt(text[9..], 10) == Some(n)
  {
    var d := Decimal(n);
    var rest := " non-color variable(s)";
    NatDigitsSpec(n, 10);
    ParseIntOfDigits(d, rest, 10);
    DropPrefix("Contains ", d + rest);
  }

  /** When no quoted name holds a dot, the non-numeric message holds one
      exactly when it ends in `...`, that is, exactly when more than three
      names failed. */
  lemma NonNumericEllipsis(n: nat, examples: seq<string>)
    requires forall i | 0 <= i < |examples| :: '.' !in examples[i]
    ensures var text := IssueText(NonNumeric(n, examples));
            && ('.' in text <==> n > 3)
            && (n > 3 ==> |text| >= 3 && text[|text| - 3..] == "...")
  {
    DecimalChars(n);
    JoinWithDotFree(examples, ", ");
    var text := IssueText(NonNumeric(n, examples));
    if n > 3 {
      assert text[|text| - 1] == '.';
    }
  }

  /** Joining dot-free pieces with a dot-free separator gives dot-free text. */
  lemma {:induction false} JoinWithDotFree(parts: seq<string>, sep: string)
    requires forall i | 0 <= i < |parts| :: '.' !in parts[i]
    requires '.' !in sep
    ensures '.' !in JoinWith(parts, sep)
    decreases |parts|
  {
    if |parts| > 1 {
      JoinWithDotFree(parts[1..], sep);
    }
  }

  lemma DropPrefix(p: string, s: string)
    ensures (p + s)[|p|..] == s
  {
  }

  // ----- order does not matter -----

  /** A reordering of `a`: where `a`'s head sits in `b`, and what is left. */
  lemma PermutationHead<T>(a: seq<T>, b: seq<T>) returns (i: nat)
    requires multiset(a) == multiset(b) && |a| > 0
    ensures i < |b| && b[i] == a[0]
    ensures multiset(a[1..]) == multiset(b[..i] + b[i + 1..])
  {
    assert a[0] in multiset(b);
    i :| 0 <= i < |b| && b[i] == a[0];
    var front, back := b[..i], b[i + 1..];
    assert a == [a[0]] + a[1..];
    assert b == front + [b[i]] + back;
    var rest := multiset(front) + multiset(back);
    assert multiset(b) == rest + multiset{a[0]};
    assert multiset(a) == multiset(a[1..]) + multiset{a[0]};
    Cancel(multiset(a[1..]), rest, a[0]);
  }

  /** One copy of the same element can be taken off both sides. */
  lemma Cancel<T>(x: multiset<T>, y: multiset<T>, e: T)
    requires x + multiset{e} == y + multiset{e}
    ensures x == y
  {
    assert forall z :: x[z] == (x + multiset{e})[z] - multiset{e}[z];
    assert forall z :: y[z] == (y + multiset{e})[z] - multiset{e}[z];
  }

  /** A count does not depend on the order of the elements. */
  lemma {:induction false} CountPermutation<T>(a: seq<T>, b: seq<T>, p: T -> bool)
    requires multiset(a) == multiset(b)
    ensures Count(a, p) == Count(b, p)
    decreases |a|
  {
    if |a| == 0 {
      assert |multiset(b)| == 0;
    } else {
      var i := PermutationHead(a, b);
      var front, back := b[..i], b[i + 1..];
      CountPermutation(a[1..], front + back, p);
      assert b == front + ([b[i]] + back);
      CountAppend(front, [b[i]] + back, p);
      CountAppend([b[i]], back, p);
      CountAppend(front, back, p);
    }
  }

  /** Mapping a reordering gives a reordering. */
  lemma {:induction false} MapPermutation<T, U>(a: seq<T>, b: seq<T>, f: T -> U)
    requires multiset(a) == multiset(b)
    ensures multiset(MapSeq(a, f)) == multiset(MapSeq(b, f))
    decreases |a|
  {
    if |a| == 0 {
      assert |multiset(b)| == 0;
      assert MapSeq(a, f) == [] == MapSeq(b, f);
    } else {
      var i := PermutationHead(a, b);
      var rest := b[..i] + b[i + 1..];
      MapPermutation(a[1..], rest, f);
      var mb := MapSeq(b, f);
      assert mb == mb[..i] + [mb[i]] + mb[i + 1..];
      assert MapSeq(rest, f) == mb[..i] + mb[i + 1..];
      assert MapSeq(a, f) == [f(a[0])] + MapSeq(a[1..], f);
    }
  }

  lemma SameElements<T>(a: seq<T>, b: seq<T>)
    requires multiset(a) == multiset(b)
    ensures forall x :: x in a <==> x in b
  {
    forall x ensures x in a <==> x in b {
      assert x in a <==> x in multiset(a);
      assert x in b <==> x in multiset(b);
    }
  }

  /** An issue with its examples dropped: what is left once order no
      longer matters. */
  function Kind(issue: Issue): Issue {
    if issue.NonNumeric? then NonNumeric(issue.count, []) else issue
  }

  lemma ReportKinds(nonColor: nat, nonNumeric: nat, examples: seq<string>, offScale: bool)
    ensures MapSeq(Report(nonColor, nonNumeric, examples, offScale), Kind) == Report(nonColor, nonNumeric, [], offScale)
  {
    var p1 := if nonColor > 0 then [NonColor(nonColor)] else [];
    var p2 := if nonNumeric > 0 then [NonNumeric(nonNumeric, examples)] else [];
    var p3 := if offScale then [OffScale] else [];
    MapAppend(p1 + p2, p3, Kind);
    MapAppend(p1, p2, Kind);
  }

  /** The issues with their examples dropped depend only on the two counts
      and on whether some step is off the grid. */
  lemma IssueKinds(xs: seq<Scanned>)
    ensures MapSeq(Issues(xs), Kind)
              == Report(Count(xs, NotColor), Count(xs, NoStep), [], exists x | x in xs :: OffGrid(x))
  {
    OffScaleStep(xs);
    ReportKinds(Count(xs, NotColor), Count(xs, NoStep), Examples(xs), exists x | x in xs :: OffGrid(x));
  }

  lemma IssuesPermutation(a: seq<Scanned>, b: seq<Scanned>)
    requires multiset(a) == multiset(b)
    ensures MapSeq(Issues(a), Kind) == MapSeq(Issues(b), Kind)
  {
    CountPermutation(a, b, NotColor);
    CountPermutation(a, b, NoStep);
    SameElements(a, b);
    IssueKinds(a);
    IssueKinds(b);
  }

  /** Reordering the variables changes neither the verdict nor which
      issues are raised nor their counts; only the examples quoted may
      differ. */
  lemma ValidatePermutation(a: seq<VariableData>, b: seq<VariableData>)
    requires multiset(a) == multiset(b)
    ensures Validate(a).isValid == Validate(b).isValid
    ensures MapSeq(Issues(Scans(a)), Kind) == MapSeq(Issues(Scans(b)), Kind)
  {
    MapPermutation(a, b, Scan);
    IssuesPermutation(Scans(a), Scans(b));
    NoIssues(Scans(a));
    NoIssues(Scans(b));
    assert |a| == |multiset(a)| == |multiset(b)| == |b|;
  }
}
