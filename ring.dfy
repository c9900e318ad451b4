/**
 * Slot arithmetic shared by both queue representations. The slots of a queue
 * of capacity `size` are 0 .. size-1; advancing from the last slot wraps to 0.
 */
module Ring {

  /** The slot after `ind`: one further, or slot 0 once `size` is reached. */
  function NextIndex(ind: nat, size: nat): (r: nat)
    ensures ind < size ==> r < size && r == (ind + 1) % size
  {
    if ind + 1 >= size then 0 else ind + 1
  }

  /** The slot reached from `start` after `k` advances, written without `%`. */
  function Offset(start: nat, k: nat, size: nat): (r: nat)
    requires start < size && k <= size
    ensures r < size
  {
    if start + k < size then start + k else start + k - size
  }

  /** `Offset` is the modular position `(start + k) % size`. */
  lemma OffsetIsMod(start: nat, k: nat, size: nat)
    requires start < size && k <= size
    ensures Offset(start, k, size) == (start + k) % size
  {
    if start + k >= size {
      assert start + k == 1 * size + (start + k - size);
    }
  }

  /** One more advance from the slot reached after `k` advances. */
  lemma OffsetStep(start: nat, k: nat, size: nat)
    requires start < size && k < size
    ensures NextIndex(Offset(start, k, size), size) == Offset(start, k + 1, size)
  {
  }

  /** Advancing first and then `k` times is advancing `k + 1` times. */
  lemma OffsetFromNext(start: nat, k: nat, size: nat)
    requires start < size && k < size
    ensures Offset(NextIndex(start, size), k, size) == Offset(start, k + 1, size)
  {
  }

  /**
   * The `n` values met in `s` starting at slot `start` and advancing with
   * `NextIndex`: the logical contents of a ring whose oldest element is at
   * `start`.
   */
  function Window<T>(s: seq<T>, start: nat, n: nat): (w: seq<T>)
    requires start < |s| && n <= |s|
    ensures |w| == n
    ensures forall i :: 0 <= i < n ==> w[i] == s[Offset(start, i, |s|)]
    decreases n
  {
    if n == 0 then []
    else
      var rest := Window(s, NextIndex(start, |s|), n - 1);
      assert forall i :: 0 < i < n ==> Offset(NextIndex(start, |s|), i - 1, |s|) == Offset(start, i, |s|);
      [s[start]] + rest
  }

  /** Writing `x` at the slot just past the window appends `x` to it. */
  lemma WindowPush<T>(s: seq<T>, start: nat, n: nat, x: T)
    requires start < |s| && n < |s|
    ensures Window(s[Offset(start, n, |s|) := x], start, n + 1) == Window(s, start, n) + [x]
  {
    var s' := s[Offset(start, n, |s|) := x];
    var lhs, rhs := Window(s', start, n + 1), Window(s, start, n) + [x];
    forall i | 0 <= i < n + 1
      ensures lhs[i] == rhs[i]
    {
      if i < n {
        assert Offset(start, i, |s|) != Offset(start, n, |s|);
      }
    }
  }

  /** Removing the oldest element: the window now starts one slot later. */
  lemma WindowPop<T>(s: seq<T>, start: nat, n: nat)
    requires start < |s| && 0 < n <= |s|
    ensures Window(s, start, n)[0] == s[start]
    ensures Window(s, start, n)[1..] == Window(s, NextIndex(start, |s|), n - 1)
  {
  }
}
