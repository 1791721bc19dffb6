/**
 * The teacher page's list of exercises (`ExerciseGenerator.exercises` in script.js) and the
 * edits made to it in place: removing one, appending a blank one, reordering after a drag,
 * editing a text, and appending the exercises an AI request returned.
 *
 * The browser's `confirm()` dialog is a boolean input, the order of the exercise items in the
 * page after a drag is a sequence of original indices, and the AI request's outcome is an input
 * (`None` when the request failed).
 */
module ExerciseList {
  import opened Wrappers
  import opened JsString

  datatype Exercise = Exercise(id: int, text: string)

  /** The text `addNewExercise` gives a new exercise. */
  const NewExerciseText: string := "New exercise - click to edit"

  /** `Array.prototype.splice(index, 1)`: where the deletion starts, counting a negative index from the end. */
  function SpliceStart(len: nat, index: int): nat {
    if index < 0 then (if len + index < 0 then 0 else len + index) else if index > len then len else index
  }

  /** `a.splice(index, 1)` on the list: the element at the start index goes, when there is one. */
  function RemoveAt<T>(a: seq<T>, index: int): (r: seq<T>)
    ensures var k := SpliceStart(|a|, index);
      && (k < |a| ==> r == a[..k] + a[k + 1..] && |r| == |a| - 1)
      && (k == |a| ==> r == a)
  {
    var k := SpliceStart(|a|, index);
    if k < |a| then a[..k] + a[k + 1..] else a
  }

  /** A valid index loses exactly that exercise; the others keep their order. */
  lemma RemoveInRange<T>(a: seq<T>, index: int)
    requires 0 <= index < |a|
    ensures |RemoveAt(a, index)| == |a| - 1
    ensures forall j :: 0 <= j < index ==> RemoveAt(a, index)[j] == a[j]
    ensures forall j :: index <= j < |a| - 1 ==> RemoveAt(a, index)[j] == a[j + 1]
  {
  }

  /** Each of `0..n-1` exactly once: the original indices of the items in their new page order. */
  predicate IsPermutation(order: seq<nat>, n: nat) {
    && |order| == n
    && (forall i :: 0 <= i < n ==> order[i] < n)
    && (forall j :: 0 <= j < n ==> j in order)
    && (forall i, j :: 0 <= i < j < n ==> order[i] != order[j])
  }

  /** `newExercises`: the exercises in the order the page shows them. */
  function Reorder<T>(a: seq<T>, order: seq<nat>): (r: seq<T>)
    requires forall i :: 0 <= i < |order| ==> order[i] < |a|
    ensures |r| == |order| && forall i :: 0 <= i < |order| ==> r[i] == a[order[i]]
  {
    if |order| == 0 then [] else [a[order[0]]] + Reorder(a, order[1..])
  }

  /** Reordering by a permutation keeps exactly the same exercises, each as often as before. */
  lemma {:induction false} ReorderIsPermutation<T>(a: seq<T>, order: seq<nat>)
    requires IsPermutation(order, |a|)
    ensures multiset(Reorder(a, order)) == multiset(a)
    decreases |a|
  {
    var n := |a|;
    if n > 0 {
      var p := PositionOfLast(order, n);
      var rest := order[..p] + order[p + 1..];
      RestIsPermutation(order, n, p);
      ReorderIsPermutation(a[..n - 1], rest);
      ReorderLast(a, order, p);
      MultisetLast(a);
    }
  }

  /** Where the largest index sits in a permutation. */
  lemma PositionOfLast(order: seq<nat>, n: nat) returns (p: nat)
    requires IsPermutation(order, n) && n > 0
    ensures p < n && order[p] == n - 1
  {
    assert n - 1 in order;
    p :| 0 <= p < |order| && order[p] == n - 1;
  }

  /** A list's elements are those of all but its last position, and the last one. */
  lemma MultisetLast<T>(a: seq<T>)
    requires |a| > 0
    ensures multiset(a) == multiset(a[..|a| - 1]) + multiset{a[|a| - 1]}
  {
    assert a == a[..|a| - 1] + [a[|a| - 1]];
  }

  /** The reordered list holds the reordering of all but the last exercise, and the last one. */
  lemma ReorderLast<T>(a: seq<T>, order: seq<nat>, p: nat)
    requires IsPermutation(order, |a|) && p < |a| && order[p] == |a| - 1
    ensures var rest := order[..p] + order[p + 1..];
      && (forall i :: 0 <= i < |rest| ==> rest[i] < |a| - 1)
      && multiset(Reorder(a, order)) == multiset(Reorder(a[..|a| - 1], rest)) + multiset{a[|a| - 1]}
  {
    ReorderWithout(a, order, p);
    MultisetWithout(Reorder(a, order), p);
  }

  /** A list's elements are those left after dropping position `p`, and the one at `p`. */
  lemma MultisetWithout<T>(r: seq<T>, p: nat)
    requires p < |r|
    ensures multiset(r) == multiset(r[..p] + r[p + 1..]) + multiset{r[p]}
  {
    assert r == r[..p] + [r[p]] + r[p + 1..];
  }

  /** Taking the largest index out of a permutation leaves a permutation of the rest. */
  lemma RestIsPermutation(order: seq<nat>, n: nat, p: nat)
    requires IsPermutation(order, n) && p < n && order[p] == n - 1
    ensures IsPermutation(order[..p] + order[p + 1..], n - 1)
  {
    var rest := order[..p] + order[p + 1..];
    forall i | 0 <= i < n - 1 ensures rest[i] < n - 1 {
      var q := if i < p then i else i + 1;
      assert rest[i] == order[q] && q != p;
    }
    forall j | 0 <= j < n - 1 ensures j in rest {
      assert j in order;
      var q :| 0 <= q < n && order[q] == j;
      if q < p {
        assert rest[q] == j;
      } else {
        assert rest[q - 1] == j;
      }
    }
    forall i, j | 0 <= i < j < n - 1 ensures rest[i] != rest[j] {
      var qi, qj := if i < p then i else i + 1, if j < p then j else j + 1;
      assert rest[i] == order[qi] && rest[j] == order[qj] && qi < qj;
    }
  }

  /** Dropping position `p` of the order drops position `p` of the reordered list. */
  lemma ReorderWithout<T>(a: seq<T>, order: seq<nat>, p: nat)
    requires IsPermutation(order, |a|) && p < |a| && order[p] == |a| - 1
    ensures var rest := order[..p] + order[p + 1..];
      && (forall i :: 0 <= i < |rest| ==> rest[i] < |a| - 1)
      && Reorder(a[..|a| - 1], rest) == Reorder(a, order)[..p] + Reorder(a, order)[p + 1..]
      && Reorder(a, order)[p] == a[|a| - 1]
  {
    RestIsPermutation(order, |a|, p);
  }

  /** The exercises an AI request returned, numbered on from `count`. */
  function Numbered(texts: seq<string>, count: nat): (r: seq<Exercise>)
    ensures |r| == |texts|
    ensures forall i :: 0 <= i < |r| ==> r[i] == Exercise(count + i + 1, texts[i])
  {
    seq(|texts|, i requires 0 <= i < |texts| => Exercise(count + i + 1, texts[i]))
  }

  /** What `generateAIExercises` did. */
  datatype AiOutcome = BlankPrompt | NoContext | RequestFailed | Added(count: nat)

  /** The texts of the current exercises, one per line: the context sent with the AI request. */
  function ExistingExercises(exercises: seq<Exercise>): string {
    Join(seq(|exercises|, i requires 0 <= i < |exercises| => exercises[i].text), "\n")
  }

  /**
   * After a removal and an addition the new exercise can share its id with a kept one:
   * `addNewExercise` numbers by the list's length, not by the ids in use.
   */
  lemma IdsCanRepeat()
    ensures var kept := RemoveAt([Exercise(1, "a"), Exercise(2, "b")], 0);
      kept + [Exercise(|kept| + 1, NewExerciseText)] == [Exercise(2, "b"), Exercise(2, NewExerciseText)]
  {
  }

  class ExerciseGenerator {
    var exercises: seq<Exercise>

    constructor (loaded: seq<Exercise>)
      ensures exercises == loaded
    {
      exercises := loaded;
    }

    /**
     * `removeExercise(index)`: refused with an alert when one exercise or none is left, kept
     * when the teacher does not confirm, and otherwise the exercise at `index` is spliced out.
     */
    method RemoveExercise(index: int, confirmed: bool) returns (alerted: bool)
      modifies this
      ensures alerted <==> |old(exercises)| <= 1
      ensures exercises == (if alerted || !confirmed then old(exercises) else RemoveAt(old(exercises), index))
    {
      alerted := |exercises| <= 1;
      if alerted {
        return;
      }
      if confirmed {
        exercises := RemoveAt(exercises, index);
      }
    }

    /** `addNewExercise`: one exercise appended, numbered one past the length. */
    method AddNewExercise()
      modifies this
      ensures exercises == old(exercises) + [Exercise(|old(exercises)| + 1, NewExerciseText)]
    {
      var newExercise := Exercise(|exercises| + 1, NewExerciseText);
      exercises := exercises + [newExercise];
    }

    /**
     * `updateExerciseOrder`: the list rebuilt in the page's order after a drag; the same
     * exercises, ids untouched, each exactly once.
     */
    method UpdateExerciseOrder(order: seq<nat>)
      requires IsPermutation(order, |exercises|)
      modifies this
      ensures exercises == Reorder(old(exercises), order)
      ensures multiset(exercises) == multiset(old(exercises))
    {
      var newExercises: seq<Exercise> := [];
      for index := 0 to |order|
        invariant newExercises == Reorder(exercises, order[..index])
      {
        newExercises := newExercises + [exercises[order[index]]];
        assert order[..index + 1][..index] == order[..index];
      }
      assert order[..|order|] == order;
      ReorderIsPermutation(exercises, order);
      exercises := newExercises;
    }

    /** The input listener of script.js:182-184: the edited text replaces the exercise's text. */
    method EditText(index: nat, text: string)
      requires index < |exercises|
      modifies this
      ensures exercises == old(exercises)[index := Exercise(old(exercises)[index].id, text)]
    {
      exercises := exercises[index := Exercise(exercises[index].id, text)];
    }

    /**
     * `generateAIExercises` for a prompt and the request's outcome (`None` when it failed):
     * nothing changes for a blank prompt, an empty list or a failed request; otherwise the
     * returned exercises are appended, numbered on from the current length.
     */
    method GenerateAIExercises(prompt: string, reply: Option<seq<string>>) returns (outcome: AiOutcome)
      modifies this
      ensures Trim(prompt) == [] ==> outcome == BlankPrompt
      ensures Trim(prompt) != [] && |old(exercises)| == 0 ==> outcome == NoContext
      ensures Trim(prompt) != [] && |old(exercises)| > 0 && reply.None? ==> outcome == RequestFailed
      ensures outcome.Added? <==> Trim(prompt) != [] && |old(exercises)| > 0 && reply.Some?
      ensures outcome.Added? ==>
                outcome.count == |reply.value| && exercises == old(exercises) + Numbered(reply.value, |old(exercises)|)
      ensures !outcome.Added? ==> exercises == old(exercises)
    {
      if Trim(prompt) == [] {
        return BlankPrompt;
      }
      if |exercises| == 0 {
        return NoContext;
      }
      if reply.None? {
        return RequestFailed;
      }
      var data := reply.value;
      var newExercises: seq<Exercise> := [];
      for index := 0 to |data|
        invariant newExercises == Numbered(data[..index], |exercises|)
      {
        newExercises := newExercises + [Exercise(|exercises| + index + 1, data[index])];
      }
      assert data[..|data|] == data;
      exercises := exercises + newExercises;
      outcome := Added(|newExercises|);
    }
  }
}
