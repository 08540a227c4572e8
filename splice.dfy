/**
 * Sequence splicing with JavaScript's index clamping. `Array.prototype.splice(k, 0, x)` and
 * `[...s.slice(0, k), x, ...s.slice(k)]` both insert at `min(k, s.length)` for a non-negative
 * `k`; `splice(k, 1)` and `[...s.slice(0, k), ...s.slice(k + 1)]` remove the element at `k`
 * and leave the sequence as it was when `k` is past the end.
 */
module Splice {

  /** The position a non-negative JavaScript start index actually refers to. */
  function Clamp(k: nat, n: nat): (c: nat)
    ensures c <= n
    ensures c == k || (k > n && c == n)
  {
    if k <= n then k else n
  }

  /** `x` inserted before position `k` of `s`; past the end it is appended. */
  function InsertAt<T>(s: seq<T>, k: nat, x: T): (r: seq<T>)
    ensures |r| == |s| + 1
    ensures r[Clamp(k, |s|)] == x
    ensures forall i :: 0 <= i < Clamp(k, |s|) ==> r[i] == s[i]
    ensures forall i :: Clamp(k, |s|) <= i < |s| ==> r[i + 1] == s[i]
  {
    var c := Clamp(k, |s|);
    assert s == s[..c] + s[c..];
    s[..c] + [x] + s[c..]
  }

  /** `s` without its element at `k`; `s` itself when `k` is past the end. */
  function RemoveAt<T>(s: seq<T>, k: nat): (r: seq<T>)
    ensures k < |s| ==> |r| == |s| - 1
    ensures k < |s| ==> forall i :: 0 <= i < k ==> r[i] == s[i]
    ensures k < |s| ==> forall i :: k <= i < |r| ==> r[i] == s[i + 1]
    ensures k >= |s| ==> r == s
  {
    if k < |s| then
      assert s == s[..k] + [s[k]] + s[k + 1..];
      s[..k] + s[k + 1..]
    else s
  }

  /** An insertion adds exactly the inserted element. */
  lemma InsertAtMultiset<T>(s: seq<T>, k: nat, x: T)
    ensures multiset(InsertAt(s, k, x)) == multiset(s) + multiset{x}
  {
    var c := Clamp(k, |s|);
    assert s == s[..c] + s[c..];
    assert InsertAt(s, k, x) == s[..c] + [x] + s[c..];
  }

  /** A removal in range takes out exactly the element at `k`. */
  lemma RemoveAtMultiset<T>(s: seq<T>, k: nat)
    requires k < |s|
    ensures multiset(RemoveAt(s, k)) + multiset{s[k]} == multiset(s)
  {
    assert s == s[..k] + [s[k]] + s[k + 1..];
    assert RemoveAt(s, k) == s[..k] + s[k + 1..];
  }

  /** Putting an element back where it was removed from gives back the original sequence. */
  lemma InsertRemove<T>(s: seq<T>, k: nat)
    requires k < |s|
    ensures InsertAt(RemoveAt(s, k), k, s[k]) == s
  {
    var r := RemoveAt(s, k);
    assert r == s[..k] + s[k + 1..];
    assert r[..k] == s[..k] && r[k..] == s[k + 1..];
    assert s == s[..k] + [s[k]] + s[k + 1..];
  }

  /** An insertion index past the end is the same as appending. */
  lemma InsertPastEnd<T>(s: seq<T>, k: nat, x: T)
    requires k >= |s|
    ensures InsertAt(s, k, x) == s + [x]
  {
  }
}
