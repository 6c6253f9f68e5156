/** The ordering of the scheduler's job list (Server.ScheduleJob,
    Server.cs:196-218), on the jobs' fire times alone. The method that walks
    and mutates the list is Server.ScheduleJob in module WebServer; this
    module specifies where it puts the new job and what that does to the
    order of the list. */
module JobQueue {

  /** Fire times in non-decreasing order. */
  predicate Sorted(ts: seq<int>) {
    forall i, j :: 0 <= i < j < |ts| ==> ts[i] <= ts[j]
  }

  /** Where the walk stops: the first job strictly later than t, or the end
      of the list (Server.cs:202-207). */
  function FirstLater(ts: seq<int>, t: int): (k: nat)
    ensures k <= |ts|
    ensures forall i :: 0 <= i < k ==> ts[i] <= t
    ensures k < |ts| ==> ts[k] > t
  {
    if ts == [] || ts[0] > t then 0 else 1 + FirstLater(ts[1..], t)
  }

  /** No element occurs twice. */
  predicate Distinct<T(==)>(s: seq<T>) {
    forall i, j :: 0 <= i < j < |s| ==> s[i] != s[j]
  }

  /** Dropping the head of a list without repeats leaves a list without
      repeats that no longer holds the head. */
  lemma DistinctTail<T>(s: seq<T>)
    requires Distinct(s) && s != []
    ensures Distinct(s[1..]) && s[0] !in s[1..]
  {
    forall k | 0 <= k < |s| - 1
      ensures s[1..][k] != s[0]
    {
      assert s[1..][k] == s[k + 1];
    }
  }

  /** Inserting an element not yet present keeps a list without repeats. */
  lemma DistinctInsert<T>(q: seq<T>, k: nat, x: T)
    requires Distinct(q) && k <= |q| && x !in q
    ensures Distinct(InsertAt(q, k, x))
  {
    var r := InsertAt(q, k, x);
    forall i, j | 0 <= i < j < |r|
      ensures r[i] != r[j]
    {
      if i == k {
        assert r[j] == q[j - 1];
      } else if j == k {
        assert r[i] == q[i];
      }
    }
  }

  function InsertAt<T>(q: seq<T>, k: nat, x: T): (r: seq<T>)
    requires k <= |q|
    ensures |r| == |q| + 1 && r[k] == x
    ensures forall i :: 0 <= i < k ==> r[i] == q[i]
    ensures forall i :: k < i < |r| ==> r[i] == q[i - 1]
  {
    q[..k] + [x] + q[k..]
  }

  /** The position the new job takes as the code is written: before the
      first strictly later job (AddBefore, Server.cs:209), and at the front
      when there is none (AddFirst, Server.cs:215). */
  function WrittenIndex(ts: seq<int>, t: int): (k: nat)
    ensures k <= |ts|
  {
    if FirstLater(ts, t) < |ts| then FirstLater(ts, t) else 0
  }

  /** The position that keeps the list ordered: at the end when no job is
      strictly later. */
  function IntendedIndex(ts: seq<int>, t: int): (k: nat)
    ensures k <= |ts|
  {
    FirstLater(ts, t)
  }

  /** The wake handle is set exactly when the walk never advanced: the list
      was empty or its head is strictly later (Server.cs:200, 205, 211, 216). */
  predicate Wakes(ts: seq<int>, t: int) {
    FirstLater(ts, t) == 0
  }

  lemma WakesIff(ts: seq<int>, t: int)
    ensures Wakes(ts, t) <==> (ts == [] || ts[0] > t)
  {
  }

  /** When some queued job is strictly later, the new job goes after every
      job not later than it (including equal times) and before the first
      later one, so an ordered list stays ordered. */
  lemma InsertBeforeLaterKeepsSorted(ts: seq<int>, t: int)
    requires Sorted(ts)
    requires FirstLater(ts, t) < |ts| || ts == []
    ensures Sorted(InsertAt(ts, WrittenIndex(ts, t), t))
  {
    assert WrittenIndex(ts, t) == IntendedIndex(ts, t);
    IntendedInsertKeepsSorted(ts, t);
  }

  /** As written, inserting into an ordered non-empty list keeps it ordered
      exactly when some job is strictly later or every job has the new
      job's time: otherwise the front insertion puts a later job ahead of
      earlier ones. */
  lemma WrittenInsertSortedIff(ts: seq<int>, t: int)
    requires Sorted(ts) && ts != []
    ensures Sorted(InsertAt(ts, WrittenIndex(ts, t), t))
            <==> (FirstLater(ts, t) < |ts| || forall i :: 0 <= i < |ts| ==> ts[i] == t)
  {
    var r := InsertAt(ts, WrittenIndex(ts, t), t);
    if FirstLater(ts, t) < |ts| {
      InsertBeforeLaterKeepsSorted(ts, t);
    } else {
      assert r == [t] + ts;
      if Sorted(r) {
        forall i | 0 <= i < |ts| ensures ts[i] == t {
          assert r[0] <= r[i + 1];
        }
      }
    }
  }

  /** A queue holding one job due at 1, given a job due at 5, becomes
      [5, 1]: the due job now waits behind the later one. */
  lemma AddFirstBreaksOrder()
    ensures InsertAt([1], WrittenIndex([1], 5), 5) == [5, 1]
    ensures !Sorted(InsertAt([1], WrittenIndex([1], 5), 5))
  {
    assert FirstLater([1], 5) == 1 + FirstLater([], 5);
    var r := InsertAt([1], WrittenIndex([1], 5), 5);
    assert r[0] == 5 && r[1] == 1;
  }

  /** With insertion at the end when nothing is later, every insertion keeps
      an ordered list ordered, and jobs with equal times keep their arrival
      order. */
  lemma {:induction false} IntendedInsertKeepsSorted(ts: seq<int>, t: int)
    requires Sorted(ts)
    ensures Sorted(InsertAt(ts, IntendedIndex(ts, t), t))
    ensures forall i :: 0 <= i < IntendedIndex(ts, t) ==> ts[i] <= t
  {
    var k := IntendedIndex(ts, t);
    var r := InsertAt(ts, k, t);
    forall i, j | 0 <= i < j < |r| ensures r[i] <= r[j] {
      if j == k {
        assert r[i] == ts[i];
      } else if i == k {
        assert r[j] == ts[j - 1];
        assert ts[k] <= ts[j - 1];
      } else if j < k {
        assert r[i] == ts[i] && r[j] == ts[j];
      } else if i > k {
        assert r[i] == ts[i - 1] && r[j] == ts[j - 1];
      } else {
        assert r[i] == ts[i] && r[j] == ts[j - 1];
      }
    }
  }
}
