/** Token names and their grouping (src/ui/utils/variableParser.ts:1-61):
    a name is a slash-separated path whose last segment is the variable
    and whose second-to-last segment is its group; the UI lists
    variables group by group. */
module VariableParser {
  import opened Wrappers
  import opened Text
  import opened InsertionMap
  import opened Typography

  // ----- parseVariableName (variableParser.ts:4-31) -----

  /** `ParsedVariable`, with a null group as None. */
  datatype ParsedVariable = ParsedVariable(originalName: string, group: Option<string>, variable: string)

  /** `parseVariableName`. The inner `parts.length >= 2 ? … : null` test is
      always true where it stands, so a name with a slash always has a group. */
  function ParseVariableName(name: string): (p: ParsedVariable)
    ensures p.originalName == name
    ensures p.group.None? <==> '/' !in name
    ensures p.group.None? ==> p.variable == name
    ensures '/' !in p.variable
    ensures p.group.Some? ==> '/' !in p.group.value
  {
    var parts := Split(name, '/');
    if |parts| >= 2 then ParsedVariable(name, Some(parts[|parts| - 2]), parts[|parts| - 1])
    else ParsedVariable(name, None, name)
  }

  /** The group and the variable are the last two segments: the name ends
      with `group/variable`, and that tail is the whole name or follows a
      slash. With the slash-freedom of both parts, this pins them down. */
  lemma ParsedTail(name: string)
    requires ParseVariableName(name).group.Some?
    ensures var p := ParseVariableName(name);
            var tail := p.group.value + "/" + p.variable;
            && |tail| <= |name| && name[|name| - |tail|..] == tail
            && (|tail| == |name| || name[|name| - |tail| - 1] == '/')
  {
    var parts := Split(name, '/');
    var n := |parts|;
    ParseOfParts(name, parts);
    var pre := JoinLastTwo(parts, '/');
    EndsWith(name, pre, parts[n - 2] + "/" + parts[n - 1]);
  }

  /** A string made of a prefix ending in a slash (or of nothing) and a
      tail ends with that tail after a slash (or is the tail). */
  lemma EndsWith(name: string, pre: string, tail: string)
    requires name == pre + tail
    requires |pre| == 0 || pre[|pre| - 1] == '/'
    ensures |tail| <= |name| && name[|name| - |tail|..] == tail
    ensures |tail| == |name| || name[|name| - |tail| - 1] == '/'
  {
    assert name[|pre|..] == tail;
    if |pre| > 0 {
      assert name[|pre| - 1] == pre[|pre| - 1];
    }
  }

  /** A join of two or more pieces ends with the last two around a
      separator, after nothing or after a separator. */
  lemma JoinLastTwo(parts: seq<string>, sep: char) returns (pre: string)
    requires |parts| >= 2
    ensures Join(parts, sep) == pre + (parts[|parts| - 2] + [sep] + parts[|parts| - 1])
    ensures |pre| == 0 || pre[|pre| - 1] == sep
  {
    var n := |parts|;
    var init := parts[..n - 1];
    assert init[|init| - 1] == parts[n - 2];
    if n == 2 {
      pre := [];
    } else {
      assert init[..|init| - 1] == parts[..n - 2];
      pre := Join(parts[..n - 2], sep) + [sep];
    }
  }

  /** Joining slash-free segments with `/` and parsing gives the last two
      segments back. */
  lemma ParseJoin(parts: seq<string>)
    requires |parts| >= 2
    requires forall i | 0 <= i < |parts| :: '/' !in parts[i]
    ensures ParseVariableName(Join(parts, '/'))
              == ParsedVariable(Join(parts, '/'), Some(parts[|parts| - 2]), parts[|parts| - 1])
  {
    var name := Join(parts, '/');
    SplitJoin(parts, '/');
    ParseOfParts(name, parts);
  }

  /** The parse of a name is read off its pieces. */
  lemma ParseOfParts(name: string, parts: seq<string>)
    requires |parts| >= 2 && Split(name, '/') == parts
    ensures ParseVariableName(name) == ParsedVariable(name, Some(parts[|parts| - 2]), parts[|parts| - 1])
  {
  }

  /** The example at the head of variableParser.ts. */
  lemma ParseExample()
    ensures ParseVariableName("Primary/Blue/500") == ParsedVariable("Primary/Blue/500", Some("Blue"), "500")
  {
    var parts := ["Primary", "Blue", "500"];
    assert Join(parts, '/') == "Primary/Blue/500" by {
      assert parts[..2] == ["Primary", "Blue"];
      assert parts[..2][..1] == ["Primary"];
    }
    ParseJoin(parts);
  }

  // ----- groupVariablesByGroup (variableParser.ts:33-61) -----

  /** The fields of a variable the parser and the validator read. */
  datatype VariableData = VariableData(id: string, name: string, vtype: ResolvedType, value: string)

  /** `{ ...variable, parsedName }` */
  datatype Member = Member(variable: VariableData, parsedName: ParsedVariable)

  /** `GroupedVariables` */
  datatype Group = Group(groupName: string, variables: seq<Member>)

  const Ungrouped: string := "Ungrouped"

  /** `parsed.group || 'Ungrouped'`: a null and an empty group both fall back. */
  function GroupKey(p: ParsedVariable): string {
    if p.group.Some? && p.group.value != "" then p.group.value else Ungrouped
  }

  /** `{ ...variable, parsedName: parseVariableName(variable.name) }` */
  function Tag(v: VariableData): Member {
    Member(v, ParseVariableName(v.name))
  }

  /** The tagged input, in input order. */
  function Tags(vars: seq<VariableData>): (ts: seq<Member>)
    ensures |ts| == |vars| && forall i | 0 <= i < |vars| :: ts[i] == Tag(vars[i])
  {
    seq(|vars|, i requires 0 <= i < |vars| => Tag(vars[i]))
  }

  /** The group a tagged variable goes to. */
  function KeyOf(m: Member): string {
    GroupKey(m.parsedName)
  }

  /** The group of each member, in order. */
  function Keys(ms: seq<Member>): (ks: seq<string>)
    ensures |ks| == |ms| && forall i | 0 <= i < |ms| :: ks[i] == KeyOf(ms[i])
  {
    seq(|ms|, i requires 0 <= i < |ms| => KeyOf(ms[i]))
  }

  /** The members of group `k`, in order: the reference the grouping is
      checked against. */
  function MembersOf(ms: seq<Member>, k: string): (r: seq<Member>)
    ensures |r| <= |ms|
  {
    if |ms| == 0 then []
    else
      var m := ms[|ms| - 1];
      MembersOf(ms[..|ms| - 1], k) + if KeyOf(m) == k then [m] else []
  }

  /** The `Map` the `forEach` builds: one entry per group, in order of
      first appearance; CollectContents gives what each entry holds. */
  function Collect(ms: seq<Member>): (g: OrderedMap<string, seq<Member>>)
    ensures Valid(g)
  {
    if |ms| == 0 then Empty()
    else
      var g := Collect(ms[..|ms| - 1]);
      var k := KeyOf(ms[|ms| - 1]);
      Put(g, k, Get(g, k).GetOr([]) + [ms[|ms| - 1]])
  }

  /** The `Map` has an entry for exactly the groups named, holding each
      group's members in input order. */
  lemma {:induction false} CollectContents(ms: seq<Member>)
    ensures forall k :: k in Collect(ms).values <==> k in Keys(ms)
    ensures forall k | k in Collect(ms).values :: Collect(ms).values[k] == MembersOf(ms, k)
  {
    if |ms| > 0 {
      var init := ms[..|ms| - 1];
      var m := ms[|ms| - 1];
      CollectContents(init);
      assert ms == init + [m];
      var g := Collect(init);
      var km := KeyOf(m);
      CollectStep(init, m, g, Put(g, km, Get(g, km).GetOr([]) + [m]));
    }
  }

  /** The step of CollectContents: appending `m` to its group's list keeps
      every entry equal to its group's members. */
  lemma CollectStep(init: seq<Member>, m: Member, g: OrderedMap<string, seq<Member>>,
                    g2: OrderedMap<string, seq<Member>>)
    requires Valid(g)
    requires forall k :: k in g.values <==> k in Keys(init)
    requires forall k | k in g.values :: g.values[k] == MembersOf(init, k)
    requires g2 == Put(g, KeyOf(m), Get(g, KeyOf(m)).GetOr([]) + [m])
    ensures forall k :: k in g2.values <==> k in Keys(init + [m])
    ensures forall k | k in g2.values :: g2.values[k] == MembersOf(init + [m], k)
  {
    var km := KeyOf(m);
    KeysAppend(init, m);
    if km !in g.values {
      NoMembers(init, km);
    }
    forall k | k in g2.values ensures g2.values[k] == MembersOf(init + [m], k) {
      MembersOfAppend(init, m, k);
      if k != km {
        assert Get(g2, k) == Get(g, k);
      }
    }
  }

  /** A group no member names has no members. */
  lemma {:induction false} NoMembers(ms: seq<Member>, k: string)
    requires k !in Keys(ms)
    ensures MembersOf(ms, k) == []
  {
    if |ms| > 0 {
      var init := ms[..|ms| - 1];
      KeysAppend(init, ms[|ms| - 1]);
      assert ms == init + [ms[|ms| - 1]];
      NoMembers(init, k);
    }
  }

  lemma KeysAppend(init: seq<Member>, m: Member)
    ensures Keys(init + [m]) == Keys(init) + [KeyOf(m)]
    ensures (init + [m])[..|init|] == init
  {
  }

  /** Groups appear in the `Map` in the order of their first member. */
  lemma {:induction false} CollectOrder(ms: seq<Member>)
    ensures FirstOccurrenceOrder(Keys(ms), Collect(ms).keys)
  {
    if |ms| > 0 {
      var init := ms[..|ms| - 1];
      var km := KeyOf(ms[|ms| - 1]);
      CollectOrder(init);
      CollectKeysStep(ms);
      ExtendOrder(Keys(init), km, Collect(init).keys);
    }
  }

  /** One more member adds its group at the end of the keys when the group
      is new, and leaves the keys alone otherwise. */
  lemma CollectKeysStep(ms: seq<Member>)
    requires |ms| > 0
    ensures var init := ms[..|ms| - 1];
            var km := KeyOf(ms[|ms| - 1]);
            && Keys(ms) == Keys(init) + [km]
            && Collect(ms).keys == (if km in Keys(init) then Collect(init).keys else Collect(init).keys + [km])
            && forall k :: k in Collect(init).keys <==> k in Keys(init)
  {
    var init := ms[..|ms| - 1];
    var m := ms[|ms| - 1];
    assert ms == init + [m];
    KeysAppend(init, m);
    CollectContents(init);
  }

  /** `Array.from(grouped.entries()).map(...)` */
  function Entries(m: OrderedMap<string, seq<Member>>): (gs: seq<Group>)
    requires Valid(m)
    ensures |gs| == |m.keys|
    ensures forall i | 0 <= i < |gs| :: gs[i] == Group(m.keys[i], m.values[m.keys[i]])
  {
    seq(|m.keys|, i requires 0 <= i < |m.keys| => Group(m.keys[i], m.values[m.keys[i]]))
  }

  /** `localeCompare`, as the order it induces: total and transitive. */
  ghost predicate TotalPreorder(le: (string, string) -> bool) {
    && (forall a, b :: le(a, b) || le(b, a))
    && (forall a, b, c :: le(a, b) && le(b, c) ==> le(a, c))
  }

  /** A collation that never ties two different names. */
  ghost predicate Antisymmetric(le: (string, string) -> bool) {
    forall a, b :: le(a, b) && le(b, a) ==> a == b
  }

  ghost predicate Sorted(gs: seq<Group>, le: (string, string) -> bool) {
    forall i, j | 0 <= i < j < |gs| :: le(gs[i].groupName, gs[j].groupName)
  }

  ghost predicate DistinctNames(gs: seq<Group>) {
    forall i, j | 0 <= i < j < |gs| :: gs[i].groupName != gs[j].groupName
  }

  function Names(gs: seq<Group>): (ns: seq<string>)
    ensures |ns| == |gs| && forall i | 0 <= i < |gs| :: ns[i] == gs[i].groupName
  {
    seq(|gs|, i requires 0 <= i < |gs| => gs[i].groupName)
  }

  /** Inserts `g` before the first group it does not sort after. */
  function Insert(g: Group, sorted: seq<Group>, le: (string, string) -> bool): (r: seq<Group>)
    requires TotalPreorder(le)
    requires Sorted(sorted, le)
    ensures multiset(r) == multiset(sorted) + multiset{g}
    ensures Sorted(r, le)
  {
    if |sorted| == 0 then [g]
    else if le(g.groupName, sorted[0].groupName) then [g] + sorted
    else
      var rest := Insert(g, sorted[1..], le);
      InsertAfterHead(g, sorted, rest, le);
      [sorted[0]] + rest
  }

  /** The head of `sorted` stays in front of the insertion into its tail
      when `g` does not sort before it. */
  lemma InsertAfterHead(g: Group, sorted: seq<Group>, rest: seq<Group>, le: (string, string) -> bool)
    requires TotalPreorder(le)
    requires Sorted(sorted, le) && |sorted| > 0 && !le(g.groupName, sorted[0].groupName)
    requires Sorted(rest, le) && multiset(rest) == multiset(sorted[1..]) + multiset{g}
    ensures Sorted([sorted[0]] + rest, le)
    ensures multiset([sorted[0]] + rest) == multiset(sorted) + multiset{g}
  {
    assert sorted == [sorted[0]] + sorted[1..];
    forall x | x in rest ensures le(sorted[0].groupName, x.groupName) {
      assert x in multiset(rest);
      if x != g {
        assert x in sorted[1..];
      }
    }
    var r := [sorted[0]] + rest;
    forall i, j | 0 <= i < j < |r| ensures le(r[i].groupName, r[j].groupName) {
      if i == 0 {
        assert r[j] in rest;
      } else {
        assert r[i] == rest[i - 1] && r[j] == rest[j - 1];
      }
    }
  }

  /** `.sort((a, b) => a.groupName.localeCompare(b.groupName))`, by
      insertion; SortedUnique shows any sorted arrangement is this one. */
  function SortGroups(gs: seq<Group>, le: (string, string) -> bool): (r: seq<Group>)
    requires TotalPreorder(le)
    ensures multiset(r) == multiset(gs)
    ensures Sorted(r, le)
  {
    if |gs| == 0 then []
    else
      assert gs == [gs[0]] + gs[1..];
      Insert(gs[0], SortGroups(gs[1..], le), le)
  }

  /** `groupVariablesByGroup` */
  function GroupVariablesByGroup(vars: seq<VariableData>, le: (string, string) -> bool): (r: seq<Group>)
    requires TotalPreorder(le)
    ensures Sorted(r, le)
    ensures DistinctNames(r)
    ensures forall k :: k in Names(r) <==> k in Keys(Tags(vars))
    ensures forall i | 0 <= i < |r| :: r[i].variables == MembersOf(Tags(vars), r[i].groupName)
  {
    var g := Collect(Tags(vars));
    CollectContents(Tags(vars));
    var entries := Entries(g);
    var r := SortGroups(entries, le);
    SortedGroupsFacts(g, entries, r);
    r
  }

  /** What sorting the entries keeps: every group is an entry, names stay
      distinct, and every entry is still there. */
  lemma SortedGroupsFacts(m: OrderedMap<string, seq<Member>>, entries: seq<Group>, r: seq<Group>)
    requires Valid(m) && entries == Entries(m)
    requires multiset(r) == multiset(entries)
    ensures forall i | 0 <= i < |r| :: r[i].groupName in m.values && r[i].variables == m.values[r[i].groupName]
    ensures forall k :: k in Names(r) <==> k in m.values
    ensures DistinctNames(r)
  {
    forall i | 0 <= i < |r|
      ensures r[i].groupName in m.values && r[i].variables == m.values[r[i].groupName]
    {
      assert r[i] in multiset(entries);
      var j :| 0 <= j < |entries| && entries[j] == r[i];
    }
    forall k ensures k in Names(r) <==> k in m.values {
      if k in m.values {
        var j :| 0 <= j < |m.keys| && m.keys[j] == k;
        assert entries[j] in multiset(r);
        var i :| 0 <= i < |r| && r[i] == entries[j];
        assert Names(r)[i] == k;
      }
    }
    forall i, j | 0 <= i < j < |r| ensures r[i].groupName != r[j].groupName {
      if r[i].groupName == r[j].groupName {
        assert r[i] == r[j];
        TwoCopies(r, i, j);
        EntriesOnce(m, r[i]);
      }
    }
  }

  /** Two equal positions make two copies. */
  lemma TwoCopies<T>(s: seq<T>, i: nat, j: nat)
    requires i < j < |s| && s[i] == s[j]
    ensures multiset(s)[s[i]] >= 2
  {
    assert s == s[..i] + [s[i]] + s[i + 1..j] + [s[j]] + s[j + 1..];
  }

  /** Each entry is listed once. */
  lemma EntriesOnce(m: OrderedMap<string, seq<Member>>, g: Group)
    requires Valid(m)
    ensures multiset(Entries(m))[g] <= 1
  {
    var es := Entries(m);
    forall i, j | 0 <= i < j < |es| ensures es[i] != es[j] {
      assert m.keys[i] != m.keys[j];
    }
    DistinctOnce(es, g);
  }

  lemma {:induction false} DistinctOnce<T>(s: seq<T>, x: T)
    requires forall i, j | 0 <= i < j < |s| :: s[i] != s[j]
    ensures multiset(s)[x] <= 1
  {
    if |s| > 0 {
      assert s == [s[0]] + s[1..];
      DistinctOnce(s[1..], x);
      if s[0] == x {
        assert x !in s[1..];
      }
    }
  }

  // ----- properties of the grouping -----

  /** Every variable sits in the group its name selects, and that group
      lists it with its parsed name. */
  lemma MemberPlaced(vars: seq<VariableData>, le: (string, string) -> bool, j: nat)
    requires TotalPreorder(le) && j < |vars|
    ensures var r := GroupVariablesByGroup(vars, le);
            exists i | 0 <= i < |r| :: r[i].groupName == KeyOf(Tag(vars[j])) && Tag(vars[j]) in r[i].variables
  {
    var r := GroupVariablesByGroup(vars, le);
    var ms := Tags(vars);
    assert Keys(ms)[j] == KeyOf(ms[j]);
    assert KeyOf(ms[j]) in Names(r);
    var i :| 0 <= i < |r| && Names(r)[i] == KeyOf(ms[j]);
    MembersOfHas(ms, j);
  }

  lemma {:induction false} MembersOfHas(ms: seq<Member>, j: nat)
    requires j < |ms|
    ensures ms[j] in MembersOf(ms, KeyOf(ms[j]))
  {
    var init := ms[..|ms| - 1];
    if j < |ms| - 1 {
      assert init[j] == ms[j];
      MembersOfHas(init, j);
    }
  }

  /** A name with no slash, or with an empty group (`/500`), lands in
      `Ungrouped`. */
  lemma UngroupedFallback(vars: seq<VariableData>, le: (string, string) -> bool, j: nat)
    requires TotalPreorder(le) && j < |vars|
    requires var p := ParseVariableName(vars[j].name); p.group.None? || p.group == Some("")
    ensures var r := GroupVariablesByGroup(vars, le);
            exists i | 0 <= i < |r| :: r[i].groupName == Ungrouped && Tag(vars[j]) in r[i].variables
  {
    MemberPlaced(vars, le, j);
  }

  /** Every member of a group is one of the members grouped, and belongs
      to that group. */
  lemma {:induction false} MembersBelong(ms: seq<Member>, k: string, m: Member)
    requires m in MembersOf(ms, k)
    ensures m in ms && KeyOf(m) == k
  {
    var init := ms[..|ms| - 1];
    if m in MembersOf(init, k) {
      MembersBelong(init, k, m);
    }
  }

  /** Each member of an output group is an input variable with its own
      parsed name. */
  lemma MemberFromInput(vars: seq<VariableData>, le: (string, string) -> bool, i: nat, m: Member)
    requires TotalPreorder(le)
    requires var r := GroupVariablesByGroup(vars, le); i < |r| && m in r[i].variables
    ensures m.variable in vars && m.parsedName == ParseVariableName(m.variable.name)
    ensures KeyOf(m) == GroupVariablesByGroup(vars, le)[i].groupName
  {
    var r := GroupVariablesByGroup(vars, le);
    MembersBelong(Tags(vars), r[i].groupName, m);
    var j :| 0 <= j < |vars| && Tags(vars)[j] == m;
  }

  /** All groups' members, in output order. */
  function Flatten(gs: seq<Group>): seq<Member> {
    if |gs| == 0 then [] else gs[0].variables + Flatten(gs[1..])
  }

  /** The members of the listed groups, one group after another. */
  function MembersOfAll(ms: seq<Member>, ns: seq<string>): seq<Member> {
    if |ns| == 0 then [] else MembersOf(ms, ns[0]) + MembersOfAll(ms, ns[1..])
  }

  /** The grouping is a partition: taken together, the groups hold every
      input variable exactly as often as the input does. */
  lemma GroupsPartition(vars: seq<VariableData>, le: (string, string) -> bool)
    requires TotalPreorder(le)
    ensures multiset(Flatten(GroupVariablesByGroup(vars, le))) == multiset(Tags(vars))
  {
    var r := GroupVariablesByGroup(vars, le);
    FlattenByName(r, Tags(vars));
    forall k | k in Keys(Tags(vars)) ensures k in Names(r) { }
    PartitionByNames(Tags(vars), Names(r));
  }

  /** The group sizes add up to the number of input variables. */
  lemma GroupSizesSum(vars: seq<VariableData>, le: (string, string) -> bool)
    requires TotalPreorder(le)
    ensures |Flatten(GroupVariablesByGroup(vars, le))| == |vars|
  {
    GroupsPartition(vars, le);
    assert |multiset(Flatten(GroupVariablesByGroup(vars, le)))| == |multiset(Tags(vars))|;
  }

  lemma {:induction false} FlattenByName(gs: seq<Group>, ms: seq<Member>)
    requires forall i | 0 <= i < |gs| :: gs[i].variables == MembersOf(ms, gs[i].groupName)
    ensures Flatten(gs) == MembersOfAll(ms, Names(gs))
  {
    if |gs| > 0 {
      FlattenByName(gs[1..], ms);
      assert Names(gs)[1..] == Names(gs[1..]);
    }
  }

  /** Grouping by a duplicate-free list of names that covers every group
      is a permutation of the members. */
  lemma {:induction false} PartitionByNames(ms: seq<Member>, ns: seq<string>)
    requires forall i, j | 0 <= i < j < |ns| :: ns[i] != ns[j]
    requires forall k | k in Keys(ms) :: k in ns
    ensures multiset(MembersOfAll(ms, ns)) == multiset(ms)
  {
    if |ms| > 0 {
      var init := ms[..|ms| - 1];
      var m := ms[|ms| - 1];
      assert ms == init + [m];
      KeysAppend(init, m);
      PartitionByNames(init, ns);
      assert KeyOf(m) in Keys(ms);
      PartitionStep(init, m, ns);
    } else {
      NothingToPartition(ns);
    }
  }

  lemma {:induction false} NothingToPartition(ns: seq<string>)
    ensures MembersOfAll([], ns) == []
  {
    if |ns| > 0 {
      NothingToPartition(ns[1..]);
    }
  }

  /** One more member adds it once, to its group if that is listed. */
  lemma {:induction false} PartitionStep(init: seq<Member>, m: Member, ns: seq<string>)
    requires forall i, j | 0 <= i < j < |ns| :: ns[i] != ns[j]
    ensures multiset(MembersOfAll(init + [m], ns))
              == multiset(MembersOfAll(init, ns)) + if KeyOf(m) in ns then multiset{m} else multiset{}
  {
    if |ns| > 0 {
      var k := KeyOf(m);
      var rest := ns[1..];
      PartitionStep(init, m, rest);
      MembersOfAppend(init, m, ns[0]);
      HeadNotInRest(ns);
      PartitionArith(MembersOf(init, ns[0]), MembersOfAll(init, rest),
                     MembersOf(init + [m], ns[0]), MembersOfAll(init + [m], rest), m, ns[0] == k, k in rest);
      assert k in ns <==> k == ns[0] || k in rest;
    }
  }

  lemma HeadNotInRest(ns: seq<string>)
    requires |ns| > 0
    requires forall i, j | 0 <= i < j < |ns| :: ns[i] != ns[j]
    ensures ns[0] !in ns[1..]
  {
    forall i | 0 <= i < |ns| - 1 ensures ns[1..][i] != ns[0] {
      assert ns[1..][i] == ns[i + 1];
    }
  }

  /** The multiset bookkeeping of PartitionStep: the new member lands in
      the head group or in the rest, not in both. */
  lemma PartitionArith(a: seq<Member>, b: seq<Member>, a2: seq<Member>, b2: seq<Member>, m: Member, here: bool, there: bool)
    requires !(here && there)
    requires a2 == a + if here then [m] else []
    requires multiset(b2) == multiset(b) + if there then multiset{m} else multiset{}
    ensures multiset(a2 + b2) == multiset(a + b) + if here || there then multiset{m} else multiset{}
  {
  }

  /** One more member joins the end of its own group and no other. */
  lemma MembersOfAppend(init: seq<Member>, m: Member, k: string)
    ensures MembersOf(init + [m], k) == MembersOf(init, k) + if KeyOf(m) == k then [m] else []
  {
    assert (init + [m])[..|init|] == init;
  }

  /** Two sorted arrangements of the same groups, with distinct names,
      under a collation with no ties, are the same: the output does not
      depend on how the sort is carried out. */
  lemma {:induction false} SortedUnique(a: seq<Group>, b: seq<Group>, le: (string, string) -> bool)
    requires Antisymmetric(le)
    requires Sorted(a, le) && Sorted(b, le) && DistinctNames(a)
    requires multiset(a) == multiset(b)
    ensures a == b
    decreases |a|
  {
    if |a| == 0 {
      assert |multiset(b)| == 0;
    } else {
      assert |multiset(b)| == |a|;
      SameHead(a, b, le);
      MultisetTail(a, b);
      SortedTail(a, le);
      SortedTail(b, le);
      SortedUnique(a[1..], b[1..], le);
    }
  }

  lemma SortedTail(gs: seq<Group>, le: (string, string) -> bool)
    requires Sorted(gs, le) && |gs| > 0
    ensures Sorted(gs[1..], le)
    ensures DistinctNames(gs) ==> DistinctNames(gs[1..])
  {
    assert forall i | 0 <= i < |gs| - 1 :: gs[1..][i] == gs[i + 1];
  }

  /** Equal multisets with equal heads have equal tails. */
  lemma MultisetTail<T>(a: seq<T>, b: seq<T>)
    requires |a| > 0 && |b| > 0 && a[0] == b[0] && multiset(a) == multiset(b)
    ensures multiset(a[1..]) == multiset(b[1..])
  {
    assert a == [a[0]] + a[1..] && b == [b[0]] + b[1..];
    calc {
      multiset(a[1..]);
      multiset(a) - multiset{a[0]};
      multiset(b) - multiset{b[0]};
      multiset(b[1..]);
    }
  }

  /** Both arrangements start with the same group. */
  lemma SameHead(a: seq<Group>, b: seq<Group>, le: (string, string) -> bool)
    requires Antisymmetric(le)
    requires Sorted(a, le) && Sorted(b, le) && DistinctNames(a)
    requires multiset(a) == multiset(b) && |a| > 0
    ensures |b| > 0 && a[0] == b[0]
  {
    assert |multiset(b)| == |a|;
    assert a[0] in multiset(b) && b[0] in multiset(a);
    var i :| 0 <= i < |b| && b[i] == a[0];
    var j :| 0 <= j < |a| && a[j] == b[0];
  }

  /** Hence the output is the one sorted arrangement of the groups. */
  lemma GroupingUnique(vars: seq<VariableData>, le: (string, string) -> bool, other: seq<Group>)
    requires TotalPreorder(le) && Antisymmetric(le)
    requires Sorted(other, le) && multiset(other) == multiset(Entries(Collect(Tags(vars))))
    ensures other == GroupVariablesByGroup(vars, le)
  {
    var r := GroupVariablesByGroup(vars, le);
    SortedUnique(r, other, le);
  }
}
