/** Where the two engines meet: the scale generator names its variables
    `${baseName}/${step}` (code.ts:499, code.ts:669), and those names are
    what the parser and the scale-format validator read back. */
module ScaleNaming {
  import opened Wrappers
  import opened Text
  import opened InsertionMap
  import opened Typography
  import opened ColorSpace
  import opened ColorScale
  import opened VariableParser
  import opened ScaleValidator

  /** The steps the generator dialog offers when it opens. */
  const DefaultSteps: seq<int> := [50, 100, 200, 300, 400, 500, 600, 700, 800, 900]

  /** A decimal rendering holds digits and perhaps a minus sign, never a slash. */
  lemma DecimalSlashFree(n: int)
    ensures '/' !in Decimal(n)
  {
    DecimalChars(n);
  }

  /** A generated name parses back to the step as its leaf and the last
      segment of the base name as its group. */
  lemma NameParses(baseName: string, step: int)
    ensures var parts := Split(baseName, '/');
            ParseVariableName(VariableName(baseName, step))
              == ParsedVariable(VariableName(baseName, step), Some(parts[|parts| - 1]), Decimal(step))
  {
    DecimalSlashFree(step);
    ParseAppended(baseName, Split(baseName, '/'), Decimal(step));
  }

  /** With a slash-free base name, the group is the whole base name. */
  lemma NameGroup(baseName: string, step: int)
    requires '/' !in baseName
    ensures ParseVariableName(VariableName(baseName, step)).group == Some(baseName)
  {
    NameParses(baseName, step);
    SplitOfSeparatorFree(baseName, '/');
  }

  /** Appending a slash and a slash-free leaf to a name split into `parts`
      gives a name whose group is the last of `parts` and whose leaf is
      the appended one. */
  lemma ParseAppended(base: string, parts: seq<string>, leaf: string)
    requires |parts| >= 1 && (forall i :: 0 <= i < |parts| ==> '/' !in parts[i])
    requires Join(parts, '/') == base && '/' !in leaf
    ensures ParseVariableName(base + "/" + leaf) == ParsedVariable(base + "/" + leaf, Some(parts[|parts| - 1]), leaf)
  {
    var full := parts + [leaf];
    JoinAppend(parts, leaf, '/');
    assert forall i :: 0 <= i < |full| ==> '/' !in full[i] by {
      forall i | 0 <= i < |full| ensures '/' !in full[i] {
        if i < |parts| {
          assert full[i] == parts[i];
        }
      }
    }
    ParseJoin(full);
  }

  /** Joining one more piece puts a separator before it. */
  lemma JoinAppend(parts: seq<string>, last: string, sep: char)
    requires |parts| >= 1
    ensures Join(parts + [last], sep) == Join(parts, sep) + [sep] + last
  {
    assert (parts + [last])[..|parts|] == parts;
  }

  /** The validator reads the generated step back from the name. */
  lemma NameStep(v: VariableData, baseName: string, step: int)
    requires v.name == VariableName(baseName, step)
    ensures StepOf(v) == Some(step)
  {
    NameParses(baseName, step);
    ParseIntOfIntToString(step, 10);
  }

  /** Colour variables named `${baseName}/${step}` from a list of steps
      pass the scale-format check exactly when the list is non-empty and
      every step lies on the 50..900 grid. */
  lemma NamedStepsValidate(vars: seq<VariableData>, baseName: string, steps: seq<int>)
    requires |vars| == |steps|
    requires forall i | 0 <= i < |vars| :: vars[i].vtype == COLOR && vars[i].name == VariableName(baseName, steps[i])
    ensures Validate(vars).isValid <==> |steps| > 0 && AllOnScale(steps)
  {
    StepsRead(vars, baseName, steps);
    ConformsIff(vars, steps);
  }

  /** Each generated name gives its step back. */
  lemma StepsRead(vars: seq<VariableData>, baseName: string, steps: seq<int>)
    requires |vars| == |steps|
    requires forall i | 0 <= i < |vars| :: vars[i].name == VariableName(baseName, steps[i])
    ensures forall i | 0 <= i < |vars| :: StepOf(vars[i]) == Some(steps[i])
  {
    forall i | 0 <= i < |vars| ensures StepOf(vars[i]) == Some(steps[i]) {
      NameStep(vars[i], baseName, steps[i]);
    }
  }

  /** Colour variables whose steps read back as `steps` all conform to the
      scale format exactly when every step lies on the grid. */
  lemma ConformsIff(vars: seq<VariableData>, steps: seq<int>)
    requires |vars| == |steps|
    requires forall i | 0 <= i < |vars| :: vars[i].vtype == COLOR && StepOf(vars[i]) == Some(steps[i])
    ensures (forall i | 0 <= i < |vars| :: Conforms(vars[i]))
            <==> AllOnScale(steps)
  {
    if AllOnScale(steps) {
      forall i | 0 <= i < |vars|
        ensures Conforms(vars[i])
      {
        assert steps[i] in steps;
      }
    } else {
      var s :| s in steps && !OnScale(s);
      var i :| 0 <= i < |steps| && steps[i] == s;
      assert !OnScale(StepOf(vars[i]).value);
    }
  }

  /** Colour variables given the names the preview lists validate exactly
      when the requested steps are non-empty and all on the 50..900 grid,
      whatever the algorithm and however often a step repeats. */
  lemma PreviewNamesValidate(config: ScaleConfig, gamma: Gamma, vars: seq<VariableData>)
    requires IsHexColor(config.baseColor)
    requires |vars| == |PreviewColorScale(config, gamma).value|
    requires forall i | 0 <= i < |vars| ::
               vars[i].vtype == COLOR && vars[i].name == PreviewColorScale(config, gamma).value[i].variableName
    ensures Validate(vars).isValid <==> |config.steps| > 0 && AllOnScale(config.steps)
  {
    var keys := GenerateColorScale(config, gamma).value.keys;
    var scale := GenerateColorScale(config, gamma).value;
    NamedStepsValidate(vars, config.baseName, keys);
    assert forall k :: k in keys <==> k in config.steps by {
      forall k ensures k in keys <==> k in config.steps {
        assert k in keys <==> k in scale.values;
      }
    }
    SameElementsNonEmpty(keys, config.steps);
    assert AllOnScale(keys) <==> AllOnScale(config.steps);
  }

  /** The dialog's default steps are the steps the validator suggests, so
      a scale generated from them validates. */
  lemma DefaultStepsValidate(config: ScaleConfig, gamma: Gamma, vars: seq<VariableData>)
    requires IsHexColor(config.baseColor) && config.steps == DefaultSteps
    requires |vars| == |PreviewColorScale(config, gamma).value|
    requires forall i | 0 <= i < |vars| ::
               vars[i].vtype == COLOR && vars[i].name == PreviewColorScale(config, gamma).value[i].variableName
    ensures DefaultSteps == SuggestedSteps
    ensures Validate(vars).isValid
  {
    SuggestedOnScale();
    PreviewNamesValidate(config, gamma, vars);
  }

  /** All members of `ms` belong to group `k`: filtering by `k` keeps them all. */
  lemma {:induction false} MembersOfSameKey(ms: seq<Member>, k: string)
    requires forall i | 0 <= i < |ms| :: KeyOf(ms[i]) == k
    ensures MembersOf(ms, k) == ms
  {
    if |ms| > 0 {
      var init := ms[..|ms| - 1];
      MembersOfSameKey(init, k);
      assert init + [ms[|ms| - 1]] == ms;
    }
  }

  /** Variables named from one slash-free, non-empty base name form one
      group under that name, holding them all in input order. */
  lemma GeneratedNamesOneGroup(vars: seq<VariableData>, baseName: string, steps: seq<int>,
                               le: (string, string) -> bool)
    requires TotalPreorder(le)
    requires '/' !in baseName && baseName != ""
    requires 0 < |vars| == |steps|
    requires forall i | 0 <= i < |vars| :: vars[i].name == VariableName(baseName, steps[i])
    ensures GroupVariablesByGroup(vars, le) == [Group(baseName, Tags(vars))]
  {
    var ms := Tags(vars);
    forall i | 0 <= i < |ms| ensures KeyOf(ms[i]) == baseName {
      NameGroup(baseName, steps[i]);
    }
    MembersOfSameKey(ms, baseName);
    OnlyGroup(GroupVariablesByGroup(vars, le), ms, baseName);
  }

  /** A grouping of members that all share one key is that single group. */
  lemma OnlyGroup(r: seq<Group>, ms: seq<Member>, k: string)
    requires |ms| > 0 && forall i | 0 <= i < |ms| :: KeyOf(ms[i]) == k
    requires MembersOf(ms, k) == ms
    requires DistinctNames(r)
    requires forall n :: n in Names(r) <==> n in Keys(ms)
    requires forall i | 0 <= i < |r| :: r[i].variables == MembersOf(ms, r[i].groupName)
    ensures r == [Group(k, ms)]
  {
    assert Keys(ms)[0] == k;
    assert k in Names(r);
    forall i | 0 <= i < |r| ensures r[i] == Group(k, ms) {
      assert Names(r)[i] in Keys(ms);
    }
    if |r| > 1 {
      TwoNames(r, k);
      assert false;
    }
  }

  /** Two groups never share a name. */
  lemma TwoNames(r: seq<Group>, k: string)
    requires DistinctNames(r) && |r| > 1
    ensures r[0].groupName != k || r[1].groupName != k
  {
  }
}
