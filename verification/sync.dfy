/** `NullLock`: the single-core ownership cell that wraps every peripheral's
    state. Locking hands the wrapped state to a one-shot unit of work and
    returns that work's result; there is no blocking, retry or failure path.
    Mutation through the `&mut` borrow is modelled as state threading: the
    unit of work returns the new state together with its result. */
module Sync {

  datatype NullLock<T> = NullLock(data: T)

  /** `NullLock::new`: the cell owns exactly the state it was built from. */
  function New<T>(data: T): (l: NullLock<T>)
    ensures l.data == data
  {
    NullLock(data)
  }

  /** `Mutex::lock` for `&NullLock<T>`: run `f` once on the wrapped state.
      The result is `f`'s result unchanged and the cell afterwards holds the
      state `f` left behind. */
  function Lock<T, R>(l: NullLock<T>, f: T -> (T, R)): (r: (NullLock<T>, R))
    ensures r.1 == f(l.data).1
    ensures r.0.data == f(l.data).0
  {
    var (d, res) := f(l.data);
    (NullLock(d), res)
  }

  /** Runs a sequence of units of work through the cell one lock at a time,
      as consecutive driver calls do. */
  function LockEach<T, R>(l: NullLock<T>, fs: seq<T -> (T, R)>): (r: (NullLock<T>, seq<R>))
    ensures |r.1| == |fs|
    decreases |fs|
  {
    if |fs| == 0 then (l, [])
    else
      var (l1, x) := Lock(l, fs[0]);
      var (l2, xs) := LockEach(l1, fs[1..]);
      (l2, [x] + xs)
  }

  /** The state a unit of work leaves behind is exactly the state the next
      lock hands out: two consecutive locks behave as one lock running the
      two units of work back to back. */
  lemma {:induction false} LockThreadsState<T, R>(l: NullLock<T>, f: T -> (T, R), g: T -> (T, R))
    ensures LockEach(l, [f, g]).1 == [f(l.data).1, g(f(l.data).0).1]
    ensures LockEach(l, [f, g]).0.data == g(f(l.data).0).0
  {
    assert [f, g][1..] == [g];

    var (l1, x) := Lock(l, f);
    var (l2, y) := Lock(l1, g);
    var none: seq<T -> (T, R)> := [];
    assert LockEach(l2, none) == (l2, []);
    assert [g][1..] == none;
    assert [y] + [] == [y];
    assert LockEach(l1, [g]) == (l2, [y]);
  }

  /** A unit of work that only reads (returns the state unchanged) leaves the
      cell exactly as it was, however many times it is run. */
  lemma {:induction false} ReadOnlyWorkKeepsState<T, R>(l: NullLock<T>, fs: seq<T -> (T, R)>)
    requires forall i :: 0 <= i < |fs| ==> forall d :: fs[i](d).0 == d
    ensures LockEach(l, fs).0 == l
    decreases |fs|
  {
    if |fs| > 0 {
      ReadOnlyWorkKeepsState(Lock(l, fs[0]).0, fs[1..]);
    }
  }
}
