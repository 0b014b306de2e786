/**
 * The pattern shared by the symbol-table and section loops of the dumper:
 * examine `n` fixed-size entries in index order, keep the ones the entry
 * decoder selects, and stop at the first read that leaves the image.
 */
module Scan {
  import opened Wrappers
  import opened Bytes

  /** `r` with `p` put in front of its value; a failure is left as it is. */
  function Prepend<T, E>(p: seq<T>, r: Result<seq<T>, E>): Result<seq<T>, E> {
    match r
    case Success(v) => Success(p + v)
    case Failure(e) => Failure(e)
  }

  /** The entries `j..n-1` that `decode` selects, in index order. */
  function Collect<T>(decode: nat -> Result<Option<T>, Malformed>, j: nat, n: nat): (r: Result<seq<T>, Malformed>)
    requires j <= n
    ensures r.Success? ==> |r.value| <= n - j
    ensures r.Failure? ==> exists i :: j <= i < n && decode(i) == Failure(r.error)
    decreases n - j
  {
    if j == n then
      Success([])
    else
      var entry :- decode(j);
      var rest :- Collect(decode, j + 1, n);
      Success(if entry.Some? then [entry.value] + rest else rest)
  }

  lemma PrependNothing<T, E>(r: Result<seq<T>, E>)
    ensures Prepend([], r) == r
  {
    if r.Success? {
      assert [] + r.value == r.value;
    }
  }

  lemma PrependTwice<T, E>(p: seq<T>, q: seq<T>, r: Result<seq<T>, E>)
    ensures Prepend(p, Prepend(q, r)) == Prepend(p + q, r)
  {
    if r.Success? {
      assert p + (q + r.value) == (p + q) + r.value;
    }
  }

  /** One step of a scan: the entry at `j` moves from the pending scan to the prefix. */
  lemma PrependStep<T>(decode: nat -> Result<Option<T>, Malformed>, p: seq<T>, j: nat, n: nat)
    requires j < n && decode(j).Success?
    ensures var entry := decode(j).value;
      Prepend(p, Collect(decode, j, n)) == Prepend(p + (if entry.Some? then [entry.value] else []), Collect(decode, j + 1, n))
  {
    var entry := decode(j).value;
    var rest := Collect(decode, j + 1, n);
    if rest.Success? {
      if entry.Some? {
        assert p + ([entry.value] + rest.value) == (p + [entry.value]) + rest.value;
      } else {
        assert p + [] == p;
      }
    }
  }

  /** The indices in `j..n-1` of the entries `decode` selects, in increasing order. */
  ghost function Selected<T>(decode: nat -> Result<Option<T>, Malformed>, j: nat, n: nat): (idx: seq<nat>)
    requires j <= n
    ensures |idx| <= n - j
    decreases n - j
  {
    if j == n then
      []
    else
      var rest := Selected(decode, j + 1, n);
      if decode(j).Success? && decode(j).value.Some? then [j] + rest else rest
  }

  /** The selected indices lie in `j..n-1`, increase, and are exactly the entries `decode` selects. */
  lemma {:induction false} SelectedIndices<T>(decode: nat -> Result<Option<T>, Malformed>, j: nat, n: nat)
    requires j <= n
    ensures var idx := Selected(decode, j, n);
      && (forall k :: 0 <= k < |idx| ==> j <= idx[k] < n)
      && (forall k, l :: 0 <= k < l < |idx| ==> idx[k] < idx[l])
      && forall i :: j <= i < n ==> (i in idx <==> decode(i).Success? && decode(i).value.Some?)
    decreases n - j
  {
    if j < n {
      SelectedIndices(decode, j + 1, n);
      var idx, later := Selected(decode, j, n), Selected(decode, j + 1, n);
      if decode(j).Success? && decode(j).value.Some? {
        assert idx == [j] + later;
        assert forall k :: 0 < k < |idx| ==> idx[k] == later[k - 1];
      } else {
        assert idx == later;
      }
    }
  }

  /**
   * A successful scan decoded every entry, and its k-th item is the value of
   * the k-th selected entry: exactly the selected entries, in entry order.
   */
  lemma {:induction false} CollectIsSelected<T>(decode: nat -> Result<Option<T>, Malformed>, j: nat, n: nat)
    requires j <= n
    requires Collect(decode, j, n).Success?
    ensures forall i :: j <= i < n ==> decode(i).Success?
    ensures var out, idx := Collect(decode, j, n).value, Selected(decode, j, n);
      |out| == |idx| && forall k :: 0 <= k < |idx| ==> decode(idx[k]) == Success(Some(out[k]))
    decreases n - j
  {
    if j < n {
      CollectIsSelected(decode, j + 1, n);
      var entry := decode(j).value;
      var out, rest := Collect(decode, j, n).value, Collect(decode, j + 1, n).value;
      var idx, later := Selected(decode, j, n), Selected(decode, j + 1, n);
      if entry.Some? {
        assert out == [entry.value] + rest && idx == [j] + later;
        forall k | 0 < k < |idx|
          ensures decode(idx[k]) == Success(Some(out[k]))
        {
          assert idx[k] == later[k - 1] && out[k] == rest[k - 1];
        }
      } else {
        assert out == rest && idx == later;
      }
    }
  }
}
