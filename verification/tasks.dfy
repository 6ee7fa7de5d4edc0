/** The `Task` record and the list-level transformations the todo-list
    handlers are built from: a `map` that flips completion, a `map` that
    replaces text, and a `filter` that drops an id. */
module Tasks {
  import opened Wrappers
  import opened Whitespace

  /** One row of the list; `id` is the creation timestamp in milliseconds. */
  datatype Task = Task(id: int, text: string, completed: bool)

  /** Some task in `ts` carries `id`. */
  predicate HasId(ts: seq<Task>, id: int) {
    exists i :: 0 <= i < |ts| && ts[i].id == id
  }

  /** No two positions of `ts` carry the same id. */
  predicate DistinctIds(ts: seq<Task>) {
    forall i, j :: 0 <= i < j < |ts| ==> ts[i].id != ts[j].id
  }

  /** Every stored text survives `trim`: blank input never reaches the
      list. */
  predicate TextsNonBlank(ts: seq<Task>) {
    forall i :: 0 <= i < |ts| ==> !IsBlank(ts[i].text)
  }

  /** Appending a task with a fresh id keeps ids distinct, and appending
      one with non-blank text keeps every text non-blank. */
  lemma AppendKeepsInvariants(ts: seq<Task>, t: Task)
    ensures DistinctIds(ts) && !HasId(ts, t.id) ==> DistinctIds(ts + [t])
    ensures TextsNonBlank(ts) && !IsBlank(t.text) ==> TextsNonBlank(ts + [t])
  {
    var r := ts + [t];
    assert forall i :: 0 <= i < |ts| ==> r[i] == ts[i];
  }

  /** The number of tasks in `ts` whose id is `id`. */
  function CountId(ts: seq<Task>, id: int): (n: nat)
    ensures n <= |ts|
    ensures n == 0 <==> !HasId(ts, id)
    decreases |ts|
  {
    if ts == [] then 0
    else (if ts[0].id == id then 1 else 0) + CountId(ts[1..], id)
  }

  /** With distinct ids, an id that is present occurs exactly once. */
  lemma {:induction false} CountIdDistinct(ts: seq<Task>, id: int)
    requires DistinctIds(ts) && HasId(ts, id)
    ensures CountId(ts, id) == 1
    decreases |ts|
  {
    var rest := ts[1..];
    assert DistinctIds(rest) by {
      forall i, j | 0 <= i < j < |rest| ensures rest[i].id != rest[j].id {
        assert rest[i] == ts[i + 1] && rest[j] == ts[j + 1];
      }
    }
    if ts[0].id == id {
      assert !HasId(rest, id) by {
        forall i | 0 <= i < |rest| ensures rest[i].id != id {
          assert rest[i] == ts[i + 1];
        }
      }
    } else {
      var k :| 0 <= k < |ts| && ts[k].id == id;
      assert rest[k - 1] == ts[k];
      CountIdDistinct(rest, id);
    }
  }

  /** `a` can be obtained from `b` by deleting elements, keeping order. */
  ghost predicate Subsequence(a: seq<Task>, b: seq<Task>)
    decreases |b|
  {
    if a == [] then true
    else if b == [] then false
    else (a[0] == b[0] && Subsequence(a[1..], b[1..])) || Subsequence(a, b[1..])
  }

  /** The `map` of `toggleTaskCompletion`: exactly the tasks whose id is
      `id` have their completion flipped; ids, texts and order are kept. */
  function Toggle(ts: seq<Task>, id: int): (r: seq<Task>)
    ensures |r| == |ts|
    ensures forall i :: 0 <= i < |ts| ==>
      r[i].id == ts[i].id && r[i].text == ts[i].text &&
      (r[i].completed != ts[i].completed <==> ts[i].id == id)
    decreases |ts|
  {
    if ts == [] then []
    else
      var t := ts[0];
      [if t.id == id then t.(completed := !t.completed) else t] + Toggle(ts[1..], id)
  }

  /** The test `task.id === editingTaskId`, where a missing edit id never
      matches. */
  predicate IsEditing(t: Task, editing: Option<int>) {
    editing == Some(t.id)
  }

  /** The `map` of `updateTask`: exactly the tasks selected by `editing`
      get `text`; every other task, and every id and completion flag, is
      kept in place. */
  function Rename(ts: seq<Task>, editing: Option<int>, text: string): (r: seq<Task>)
    ensures |r| == |ts|
    ensures forall i :: 0 <= i < |ts| ==>
      r[i].id == ts[i].id && r[i].completed == ts[i].completed &&
      r[i].text == (if IsEditing(ts[i], editing) then text else ts[i].text)
    decreases |ts|
  {
    if ts == [] then []
    else
      var t := ts[0];
      [if IsEditing(t, editing) then t.(text := text) else t] + Rename(ts[1..], editing, text)
  }

  /** The `filter` of `deleteTask`: an order-preserving subsequence of `ts`
      with no task of id `id`, and shorter by exactly the number of tasks
      that carry `id` -- so it keeps every other task. */
  function Remove(ts: seq<Task>, id: int): (r: seq<Task>)
    ensures Subsequence(r, ts)
    ensures forall i :: 0 <= i < |r| ==> r[i].id != id
    ensures |r| == |ts| - CountId(ts, id)
    ensures forall t :: t in r <==> t in ts && t.id != id
    ensures !HasId(ts, id) ==> r == ts
    decreases |ts|
  {
    if ts == [] then []
    else if ts[0].id == id then Remove(ts[1..], id)
    else [ts[0]] + Remove(ts[1..], id)
  }

  /** Flipping the same id twice restores the list. */
  lemma ToggleInvolution(ts: seq<Task>, id: int)
    ensures Toggle(Toggle(ts, id), id) == ts
  {
  }

  /** Toggling an id no task carries changes nothing. */
  lemma ToggleAbsent(ts: seq<Task>, id: int)
    requires !HasId(ts, id)
    ensures Toggle(ts, id) == ts
  {
  }

  /** Renaming to a non-blank text keeps every text non-blank. */
  lemma RenameKeepsTextsNonBlank(ts: seq<Task>, editing: Option<int>, text: string)
    ensures TextsNonBlank(ts) && !IsBlank(text) ==> TextsNonBlank(Rename(ts, editing, text))
  {
    var r := Rename(ts, editing, text);
    assert forall i :: 0 <= i < |r| ==> r[i].text == text || r[i].text == ts[i].text;
  }

  /** Renaming with no edit target changes nothing. */
  lemma RenameNone(ts: seq<Task>, text: string)
    ensures Rename(ts, None, text) == ts
  {
  }

  /** Renaming a task to the text it already has changes nothing when ids
      are distinct. */
  lemma RenameSameText(ts: seq<Task>, k: int)
    requires DistinctIds(ts) && 0 <= k < |ts|
    ensures Rename(ts, Some(ts[k].id), ts[k].text) == ts
  {
  }

  /** A subsequence of a list with distinct ids has distinct ids. */
  lemma {:induction false} SubsequenceDistinct(a: seq<Task>, b: seq<Task>)
    requires Subsequence(a, b) && DistinctIds(b)
    ensures DistinctIds(a)
    decreases |b|
  {
    if a != [] {
      var b' := b[1..];
      assert DistinctIds(b') by {
        forall i, j | 0 <= i < j < |b'| ensures b'[i].id != b'[j].id {
          assert b'[i] == b[i + 1] && b'[j] == b[j + 1];
        }
      }
      if a[0] == b[0] && Subsequence(a[1..], b') {
        SubsequenceDistinct(a[1..], b');
        SubsequenceElements(a[1..], b');
        forall i, j | 0 <= i < j < |a| ensures a[i].id != a[j].id {
          if i == 0 {
            assert a[j] == a[1..][j - 1];
            var m :| 0 <= m < |b'| && b'[m] == a[j];
            assert b[m + 1] == a[j];
          } else {
            assert a[i] == a[1..][i - 1] && a[j] == a[1..][j - 1];
          }
        }
      } else {
        SubsequenceDistinct(a, b');
      }
    }
  }

  /** Every element of a subsequence occurs in the larger list. */
  lemma {:induction false} SubsequenceElements(a: seq<Task>, b: seq<Task>)
    requires Subsequence(a, b)
    ensures forall i :: 0 <= i < |a| ==> exists m :: 0 <= m < |b| && b[m] == a[i]
    decreases |b|
  {
    if a != [] {
      var b' := b[1..];
      if a[0] == b[0] && Subsequence(a[1..], b') {
        SubsequenceElements(a[1..], b');
        forall i | 0 <= i < |a| ensures exists m :: 0 <= m < |b| && b[m] == a[i] {
          if i == 0 {
            assert b[0] == a[0];
          } else {
            assert a[i] == a[1..][i - 1];
            var m :| 0 <= m < |b'| && b'[m] == a[i];
            assert b[m + 1] == a[i];
          }
        }
      } else {
        SubsequenceElements(a, b');
        forall i | 0 <= i < |a| ensures exists m :: 0 <= m < |b| && b[m] == a[i] {
          var m :| 0 <= m < |b'| && b'[m] == a[i];
          assert b[m + 1] == a[i];
        }
      }
    }
  }

  /** The subsequence, id-free and length facts of `Remove` pin its result
      down: any list with those three properties is `Remove(ts, id)`. */
  lemma {:induction false} RemoveUnique(ts: seq<Task>, id: int, r: seq<Task>)
    requires Subsequence(r, ts)
    requires forall i :: 0 <= i < |r| ==> r[i].id != id
    requires |r| == |ts| - CountId(ts, id)
    ensures r == Remove(ts, id)
    decreases |ts|
  {
    if ts != [] {
      var ts' := ts[1..];
      if ts[0].id == id {
        // The head is dropped, so `r` must come from the tail.
        if r != [] && r[0] == ts[0] {
          assert false;
        }
        assert Subsequence(r, ts');
        RemoveUnique(ts', id, r);
      } else {
        // The head is kept: otherwise `r` would be too long for the tail.
        if r == [] {
          assert false;
        }
        if r[0] == ts[0] && Subsequence(r[1..], ts') {
          assert forall i :: 0 <= i < |r| - 1 ==> r[1..][i] == r[i + 1];
          RemoveUnique(ts', id, r[1..]);
          assert r == [r[0]] + r[1..];
        } else {
          SubsequenceLength(r, ts', id);
          assert false;
        }
      }
    }
  }

  /** An id-free subsequence of `b` is no longer than the tasks of `b`
      that do not carry `id`. */
  lemma {:induction false} SubsequenceLength(a: seq<Task>, b: seq<Task>, id: int)
    requires Subsequence(a, b)
    requires forall i :: 0 <= i < |a| ==> a[i].id != id
    ensures |a| <= |b| - CountId(b, id)
    decreases |b|
  {
    if a != [] {
      var b' := b[1..];
      if a[0] == b[0] && Subsequence(a[1..], b') {
        assert forall i :: 0 <= i < |a| - 1 ==> a[1..][i] == a[i + 1];
        SubsequenceLength(a[1..], b', id);
      } else {
        SubsequenceLength(a, b', id);
      }
    }
  }

  /** On a list with distinct ids, deleting keeps ids distinct and deletes
      exactly one task when the id is present. */
  lemma {:induction false} RemoveDistinct(ts: seq<Task>, id: int)
    ensures DistinctIds(ts) ==> DistinctIds(Remove(ts, id))
    ensures DistinctIds(ts) && HasId(ts, id) ==> |Remove(ts, id)| == |ts| - 1
  {
    if DistinctIds(ts) {
      SubsequenceDistinct(Remove(ts, id), ts);
      if HasId(ts, id) {
        CountIdDistinct(ts, id);
      }
    }
  }
}
