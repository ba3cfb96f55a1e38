/**
 The task records of the to-do list and the pure operations on a list of them:
 the selection that deleting makes, the per-task updates that toggling and
 editing apply, and the selection that the current filter shows.
 Tasks are values here; the sharing of task objects between lists is not modelled.
 */
module Tasks {
  import opened Sequences

  /** A to-do item. A new task starts with `completed == false`. */
  datatype Task = Task(id: int, description: string, completed: bool)

  /** The filter values the view offers; the store accepts any string. */
  const AllFilter: string := "all"
  const CompletedFilter: string := "completed"
  const PendingFilter: string := "pending"

  predicate HasId(s: seq<Task>, id: int) {
    exists t :: t in s && t.id == id
  }

  /** No two tasks share an id. Nothing in the store enforces this. */
  predicate UniqueIds(s: seq<Task>) {
    forall i, j :: 0 <= i < j < |s| ==> s[i].id != s[j].id
  }

  // ---------------------------------------------------------------------------
  // Deleting

  /** The test deleting applies: a task survives when its id is not `id`. */
  function OtherThan(id: int): Task -> bool {
    (t: Task) => t.id != id
  }

  /** The tasks whose id differs from `id`, in their original order. */
  function Without(s: seq<Task>, id: int): (r: seq<Task>)
    ensures IsSubsequence(r, s)
    ensures forall t :: multiset(r)[t] == (if t.id != id then multiset(s)[t] else 0)
    ensures !HasId(r, id)
  {
    FilterSpec(s, OtherThan(id));
    Filter(s, OtherThan(id))
  }

  /** Deleting an id that no task has leaves the list as it was. */
  lemma DeleteAbsentIsNoop(s: seq<Task>, id: int)
    requires !HasId(s, id)
    ensures Without(s, id) == s
  {
    FilterKeepsAll(s, OtherThan(id));
  }

  /**
   Without is exactly "the non-matching tasks in order": any subsequence of `s`
   that holds each non-matching task as often as `s` does and no matching
   task is Without(s, id).
   */
  lemma DeleteIsExact(s: seq<Task>, id: int, r: seq<Task>)
    requires IsSubsequence(r, s)
    requires forall t :: multiset(r)[t] == (if t.id != id then multiset(s)[t] else 0)
    ensures r == Without(s, id)
  {
    FilterUnique(s, OtherThan(id), r);
  }

  /** With unique ids, deleting the id of the task at `i` removes just that task. */
  lemma DeleteUniqueRemovesOne(s: seq<Task>, i: int)
    requires UniqueIds(s)
    requires 0 <= i < |s|
    ensures Without(s, s[i].id) == s[..i] + s[i + 1..]
  {
    var keep := OtherThan(s[i].id);
    var before, after := s[..i], s[i + 1..];
    assert s == before + [s[i]] + after;
    forall t | t in before + after ensures keep(t) {
      var k :| 0 <= k < |before + after| && (before + after)[k] == t;
      if k < i {
        assert s[k] == t;
      } else {
        assert s[k + 1] == t;
      }
    }
    FilterDropsOne(before, s[i], after, keep);
  }

  /** Deleting keeps ids unique. */
  lemma DeleteKeepsUnique(s: seq<Task>, id: int)
    requires UniqueIds(s)
    ensures UniqueIds(Without(s, id))
  {
    SubsequenceKeepsUnique(Without(s, id), s);
  }

  lemma {:induction false} SubsequenceKeepsUnique(a: seq<Task>, b: seq<Task>)
    requires IsSubsequence(a, b) && UniqueIds(b)
    ensures UniqueIds(a)
    decreases |b|
  {
    if a != [] {
      if a[0] == b[0] && IsSubsequence(a[1..], b[1..]) {
        SubsequenceKeepsUnique(a[1..], b[1..]);
        SubsequenceMultiset(a[1..], b[1..]);
        forall j | 0 < j < |a| ensures a[0].id != a[j].id {
          assert a[j] == a[1..][j - 1];
          assert a[j] in multiset(b[1..]);
          var k :| 0 <= k < |b[1..]| && b[1..][k] == a[j];
          assert b[k + 1] == a[j];
        }
      } else {
        SubsequenceKeepsUnique(a, b[1..]);
      }
    }
  }

  // ---------------------------------------------------------------------------
  // Toggling and editing: a change applied to every task with a matching id

  /** Each task whose id is `id` replaced by `change` of it; the others kept, in place. */
  function Modify(s: seq<Task>, id: int, change: Task -> Task): (r: seq<Task>)
    ensures |r| == |s|
    ensures forall i :: 0 <= i < |s| ==> r[i] == (if s[i].id == id then change(s[i]) else s[i])
  {
    if s == [] then []
    else [if s[0].id == id then change(s[0]) else s[0]] + Modify(s[1..], id, change)
  }

  function Flip(t: Task): Task {
    t.(completed := !t.completed)
  }

  /** The list after toggling `id`. */
  function Toggled(s: seq<Task>, id: int): (r: seq<Task>)
    ensures |r| == |s|
    ensures forall i :: 0 <= i < |s| ==>
      && r[i].id == s[i].id
      && r[i].description == s[i].description
      && (r[i].completed <==> (s[i].completed != (s[i].id == id)))
    ensures !HasId(s, id) ==> r == s
  {
    Modify(s, id, Flip)
  }

  /** The change editing applies to a matching task. */
  function Describe(d: string): Task -> Task {
    (t: Task) => t.(description := d)
  }

  /** The list after editing `id` to `d`. */
  function Edited(s: seq<Task>, id: int, d: string): (r: seq<Task>)
    ensures |r| == |s|
    ensures forall i :: 0 <= i < |s| ==>
      && r[i].id == s[i].id
      && r[i].completed == s[i].completed
      && r[i].description == (if s[i].id == id then d else s[i].description)
    ensures !HasId(s, id) ==> r == s
  {
    Modify(s, id, Describe(d))
  }

  /** Toggling the same id twice restores the list. */
  lemma ToggleTwiceRestores(s: seq<Task>, id: int)
    ensures Toggled(Toggled(s, id), id) == s
  {
  }

  /** Of two edits of the same id, the later one wins. */
  lemma LaterEditWins(s: seq<Task>, id: int, d1: string, d2: string)
    ensures Edited(Edited(s, id, d1), id, d2) == Edited(s, id, d2)
  {
  }

  // ---------------------------------------------------------------------------
  // Filtering the view

  predicate IsCompleted(t: Task) { t.completed }

  predicate IsPending(t: Task) { !t.completed }

  /** Whether a task is shown under `filter`: any unrecognised filter shows everything. */
  predicate Shows(filter: string, t: Task) {
    (filter == CompletedFilter ==> t.completed) && (filter == PendingFilter ==> !t.completed)
  }

  /** The tasks shown under `filter`, in list order. */
  function Select(s: seq<Task>, filter: string): (r: seq<Task>)
    ensures IsSubsequence(r, s)
    ensures forall t :: multiset(r)[t] == (if Shows(filter, t) then multiset(s)[t] else 0)
    ensures filter != CompletedFilter && filter != PendingFilter ==> r == s
  {
    if filter == CompletedFilter then FilterSpec(s, IsCompleted); Filter(s, IsCompleted)
    else if filter == PendingFilter then FilterSpec(s, IsPending); Filter(s, IsPending)
    else SubsequenceReflexive(s); s
  }

  /** Select is the only subsequence of `s` holding exactly the shown tasks. */
  lemma SelectIsExact(s: seq<Task>, filter: string, r: seq<Task>)
    requires IsSubsequence(r, s)
    requires forall t :: multiset(r)[t] == (if Shows(filter, t) then multiset(s)[t] else 0)
    ensures r == Select(s, filter)
  {
    if filter == CompletedFilter {
      FilterUnique(s, IsCompleted, r);
    } else if filter == PendingFilter {
      FilterUnique(s, IsPending, r);
    } else {
      var all := (t: Task) => true;
      FilterUnique(s, all, r);
      FilterKeepsAll(s, all);
    }
  }

  /**
   The completed and the pending views split the list: every task lies in
   exactly one of them, and their sizes add up to the size of the list.
   */
  lemma CompletedPendingPartition(s: seq<Task>)
    ensures |Select(s, CompletedFilter)| + |Select(s, PendingFilter)| == |s|
    ensures multiset(Select(s, CompletedFilter)) + multiset(Select(s, PendingFilter)) == multiset(s)
    ensures forall t :: t in s ==> (t in Select(s, CompletedFilter) <==> t !in Select(s, PendingFilter))
  {
    FilterPartition(s, IsCompleted, IsPending);
    var c, p := Select(s, CompletedFilter), Select(s, PendingFilter);
    forall t | t in s ensures t in c <==> t !in p {
      assert multiset(c)[t] > 0 <==> t.completed;
      assert multiset(p)[t] > 0 <==> !t.completed;
    }
  }

  // ---------------------------------------------------------------------------
  // Adding

  /** Appending a task whose id is not yet used keeps ids unique. */
  lemma AddFreshKeepsUnique(s: seq<Task>, t: Task)
    requires UniqueIds(s) && !HasId(s, t.id)
    ensures UniqueIds(s + [t])
  {
  }
}
