/** The list logic of `markAsColorScaleGroup` and `unmarkColorScaleGroup`
    (code.ts:84-126). Reading and writing the record in the document's
    plugin data is left to the caller: each operation takes the stored
    record and returns the record to store. */
module ScaleGroupMetadata {

  /** `ColorScaleGroupMetadata`: the ids of collections and of variables
      marked as colour-scale groups. */
  datatype Metadata = Metadata(collectionIds: seq<string>, variableIds: seq<string>)

  /** The `markType` argument. */
  datatype MarkType = Collection | Variable

  predicate Distinct(s: seq<string>) {
    forall i, j | 0 <= i < j < |s| :: s[i] != s[j]
  }

  /** The list `markType` selects. */
  function ListOf(m: Metadata, t: MarkType): seq<string> {
    match t
    case Collection => m.collectionIds
    case Variable => m.variableIds
  }

  /** `m` with the list `t` selects replaced by `list`. */
  function WithList(m: Metadata, t: MarkType, list: seq<string>): (r: Metadata)
    ensures ListOf(r, t) == list
    ensures ListOf(r, Other(t)) == ListOf(m, Other(t))
  {
    match t
    case Collection => m.(collectionIds := list)
    case Variable => m.(variableIds := list)
  }

  function Other(t: MarkType): MarkType {
    match t
    case Collection => Variable
    case Variable => Collection
  }

  // ----- marking (code.ts:84-106) -----

  /** `ids.forEach(id => { if (!list.includes(id)) list.push(id); })`:
      the list grows at the end by the ids it lacks, each once, in the
      order they first appear in `ids`. */
  function AddMissing(list: seq<string>, ids: seq<string>): (r: seq<string>)
    ensures list <= r
    ensures forall x :: x in r <==> x in list || x in ids
    ensures forall i | |list| <= i < |r| :: r[i] !in list
    ensures Distinct(r[|list|..])
    decreases |ids|
  {
    if |ids| == 0 then list
    else
      var next := if ids[0] in list then list else list + [ids[0]];
      var r := AddMissing(next, ids[1..]);
      AddMissingStep(list, ids, next, r);
      r
  }

  /** The first id is appended when missing; what the rest add comes after it. */
  lemma AddMissingStep(list: seq<string>, ids: seq<string>, next: seq<string>, r: seq<string>)
    requires |ids| > 0
    requires next == if ids[0] in list then list else list + [ids[0]]
    requires next <= r
    requires forall x :: x in r <==> x in next || x in ids[1..]
    requires forall i | |next| <= i < |r| :: r[i] !in next
    requires Distinct(r[|next|..])
    ensures list <= r
    ensures forall x :: x in r <==> x in list || x in ids
    ensures forall i | |list| <= i < |r| :: r[i] !in list
    ensures Distinct(r[|list|..])
  {
    assert forall x :: x in ids <==> x == ids[0] || x in ids[1..];
    AddedOutsideList(list, ids[0], next, r);
    AddedDistinct(list, next, r);
  }

  /** Whatever follows `list` in `r` is missing from `list`. */
  lemma AddedOutsideList(list: seq<string>, first: string, next: seq<string>, r: seq<string>)
    requires next == if first in list then list else list + [first]
    requires next <= r
    requires forall i | |next| <= i < |r| :: r[i] !in next
    ensures forall i | |list| <= i < |r| :: r[i] !in list
  {
    forall i | |list| <= i < |r| ensures r[i] !in list {
      if i >= |next| {
        assert r[i] !in next;
        assert forall x | x in list :: x in next;
      } else {
        assert r[i] == first;
      }
    }
  }

  /** A suffix without duplicates, preceded by at most one element missing
      from it, is still without duplicates. */
  lemma AddedDistinct(list: seq<string>, next: seq<string>, r: seq<string>)
    requires list <= next <= r && |next| <= |list| + 1
    requires forall i | |next| <= i < |r| :: r[i] !in next
    requires Distinct(r[|next|..])
    ensures Distinct(r[|list|..])
  {
    var added := r[|list|..];
    var tail := r[|next|..];
    forall i, j | 0 <= i < j < |added| ensures added[i] != added[j] {
      if |list| + i < |next| {
        assert added[i] == next[|list|];
        assert added[j] == r[|list| + j];
      } else {
        var d := |next| - |list|;
        assert added[i] == tail[i - d] && added[j] == tail[j - d];
      }
    }
  }

  /** The order of what is appended: with no ids the list is unchanged,
      and one more id is pushed at the end exactly when neither the list
      nor the earlier ids hold it. */
  lemma {:induction false} AddMissingSnoc(list: seq<string>, ids: seq<string>, x: string)
    ensures AddMissing(list, []) == list
    ensures AddMissing(list, ids + [x]) == AddMissing(list, ids) + (if x in list || x in ids then [] else [x])
    decreases |ids|
  {
    if |ids| == 0 {
      assert ids + [x] == [x];
    } else {
      var next := if ids[0] in list then list else list + [ids[0]];
      assert (ids + [x])[0] == ids[0] && (ids + [x])[1..] == ids[1..] + [x];
      AddMissingSnoc(next, ids[1..], x);
      assert x in next || x in ids[1..] <==> x in list || x in ids;
    }
  }

  /** `markAsColorScaleGroup(ids, markType)` on the stored record `m`. */
  function Mark(m: Metadata, ids: seq<string>, t: MarkType): (r: Metadata)
    ensures ListOf(m, t) <= ListOf(r, t)
    ensures forall x :: x in ListOf(r, t) <==> x in ListOf(m, t) || x in ids
    ensures ListOf(r, Other(t)) == ListOf(m, Other(t))
  {
    WithList(m, t, AddMissing(ListOf(m, t), ids))
  }

  /** Marking never introduces a duplicate: a list without duplicates stays
      without them, however often `ids` repeats an id. */
  lemma MarkKeepsDistinct(m: Metadata, ids: seq<string>, t: MarkType)
    requires Distinct(ListOf(m, t))
    ensures Distinct(ListOf(Mark(m, ids, t), t))
  {
    var list := ListOf(m, t);
    var r := AddMissing(list, ids);
    forall i, j | 0 <= i < j < |r| ensures r[i] != r[j] {
      if j < |list| {
        assert r[i] == list[i] && r[j] == list[j];
      } else if i < |list| {
        assert r[i] == list[i];
      } else {
        assert r[i] == r[|list|..][i - |list|] && r[j] == r[|list|..][j - |list|];
      }
    }
  }

  /** Ids already in the list add nothing. */
  lemma {:induction false} AddPresent(list: seq<string>, ids: seq<string>)
    requires forall x | x in ids :: x in list
    ensures AddMissing(list, ids) == list
    decreases |ids|
  {
    if |ids| > 0 {
      assert ids[0] in list;
      AddPresent(list, ids[1..]);
    }
  }

  /** Marking the same ids twice is marking them once. */
  lemma MarkIdempotent(m: Metadata, ids: seq<string>, t: MarkType)
    ensures Mark(Mark(m, ids, t), ids, t) == Mark(m, ids, t)
  {
    var once := Mark(m, ids, t);
    AddPresent(ListOf(once, t), ids);
    assert WithList(once, t, ListOf(once, t)) == once;
  }

  // ----- unmarking (code.ts:108-126) -----

  /** `list.filter(id => !ids.includes(id))` */
  function RemoveAll(list: seq<string>, ids: seq<string>): (r: seq<string>)
    ensures |r| <= |list|
    ensures forall x :: x in r <==> x in list && x !in ids
  {
    if |list| == 0 then []
    else
      var rest := RemoveAll(list[1..], ids);
      assert forall x :: x in list <==> x == list[0] || x in list[1..];
      if list[0] in ids then rest else [list[0]] + rest
  }

  /** `unmarkColorScaleGroup(ids, markType)` on the stored record `m`. */
  function Unmark(m: Metadata, ids: seq<string>, t: MarkType): (r: Metadata)
    ensures forall x :: x in ListOf(r, t) <==> x in ListOf(m, t) && x !in ids
    ensures ListOf(r, Other(t)) == ListOf(m, Other(t))
  {
    WithList(m, t, RemoveAll(ListOf(m, t), ids))
  }

  /** Filtering distributes over concatenation: the ids that stay keep
      their relative order. */
  lemma {:induction false} RemoveAllAppend(a: seq<string>, b: seq<string>, ids: seq<string>)
    ensures RemoveAll(a + b, ids) == RemoveAll(a, ids) + RemoveAll(b, ids)
    decreases |a|
  {
    if |a| > 0 {
      ConsAppend(a, b);
      RemoveAllAppend(a[1..], b, ids);
    } else {
      assert a + b == b;
    }
  }

  lemma ConsAppend(a: seq<string>, b: seq<string>)
    requires |a| > 0
    ensures |a + b| > 0 && (a + b)[0] == a[0] && (a + b)[1..] == a[1..] + b
  {
  }

  /** An id that stays occurs as often as before. */
  lemma {:induction false} RemoveAllCounts(list: seq<string>, ids: seq<string>, x: string)
    ensures multiset(RemoveAll(list, ids))[x] == if x in ids then 0 else multiset(list)[x]
    decreases |list|
  {
    if |list| > 0 {
      RemoveAllCounts(list[1..], ids, x);
      assert list == [list[0]] + list[1..];
    }
  }

  /** Unmarking ids right after marking them undoes the mark: the result
      is what unmarking alone gives. */
  lemma UnmarkAfterMark(m: Metadata, ids: seq<string>, t: MarkType)
    ensures Unmark(Mark(m, ids, t), ids, t) == Unmark(m, ids, t)
  {
    var list := ListOf(m, t);
    var r := AddMissing(list, ids);
    var added := r[|list|..];
    assert r == list + added;
    RemoveAllAppend(list, added, ids);
    NoneLeft(added, ids);
    assert RemoveAll(r, ids) == RemoveAll(list, ids);
  }

  /** Filtering out ids from a list made of them leaves nothing. */
  lemma NoneLeft(added: seq<string>, ids: seq<string>)
    requires forall x | x in added :: x in ids
    ensures RemoveAll(added, ids) == []
  {
  }

  /** Unmarking the same ids twice is unmarking them once. */
  lemma UnmarkIdempotent(m: Metadata, ids: seq<string>, t: MarkType)
    ensures Unmark(Unmark(m, ids, t), ids, t) == Unmark(m, ids, t)
  {
    var once := Unmark(m, ids, t);
    KeepAll(ListOf(once, t), ids);
    assert WithList(once, t, ListOf(once, t)) == once;
  }

  /** A list none of whose ids are to be removed is kept whole. */
  lemma {:induction false} KeepAll(list: seq<string>, ids: seq<string>)
    requires forall x | x in list :: x !in ids
    ensures RemoveAll(list, ids) == list
    decreases |list|
  {
    if |list| > 0 {
      assert list[0] in list;
      assert forall x | x in list[1..] :: x in list;
      KeepAll(list[1..], ids);
    }
  }
}
