/** List lookups the handlers rely on, and the selection differencer behind `change_sources`. */
module Selection {
  import opened Types

  /** First position of `x` in `s`, or None when `x` is absent (where Python's `index` raises). */
  function IndexOf<T(==)>(s: seq<T>, x: T): (r: Option<nat>)
    ensures r.None? <==> x !in s
    ensures r.Some? ==> r.value < |s| && s[r.value] == x
    ensures r.Some? ==> forall j :: 0 <= j < r.value ==> s[j] != x
  {
    if s == [] then None
    else if s[0] == x then Some(0)
    else match IndexOf(s[1..], x)
      case None => None
      case Some(k) => Some(k + 1)
  }

  /** Appending a different element does not move the first position of `x`, nor make an
      absent `x` present. */
  lemma {:induction false} IndexOfAppend<T>(s: seq<T>, a: T, x: T)
    requires a != x
    ensures IndexOf(s + [a], x) == IndexOf(s, x)
  {
    if s != [] {
      assert (s + [a])[0] == s[0] && (s + [a])[1..] == s[1..] + [a];
      IndexOfAppend(s[1..], a, x);
    } else {
      assert ([] + [a])[1..] == [];
    }
  }

  /** The list with the element at position `k` deleted, as a listbox `delete(k)` leaves it. */
  function RemoveAt<T>(s: seq<T>, k: nat): (r: seq<T>)
    requires k < |s|
    ensures |r| == |s| - 1
    ensures forall j :: 0 <= j < k ==> r[j] == s[j]
    ensures forall j :: k <= j < |r| ==> r[j] == s[j + 1]
  {
    s[..k] + s[k + 1..]
  }

  /** Deleting the first occurrence of `x`, defined element by element. */
  function DeleteFirst<T(==)>(s: seq<T>, x: T): (r: seq<T>)
    requires x in s
    ensures IndexOf(s, x).Some? && r == RemoveAt(s, IndexOf(s, x).value)
  {
    if s[0] == x then s[1..]
    else
      var k := IndexOf(s[1..], x).value;
      assert IndexOf(s, x) == Some(k + 1);
      var r := [s[0]] + DeleteFirst(s[1..], x);
      assert r == [s[0]] + RemoveAt(s[1..], k);
      r
  }

  /** Deleting the first occurrences of two different names gives the same list in either order. */
  lemma {:induction false} DeleteFirstCommutes<T>(s: seq<T>, a: T, b: T)
    requires a != b && a in s && b in s
    ensures b in DeleteFirst(s, a) && a in DeleteFirst(s, b)
    ensures DeleteFirst(DeleteFirst(s, a), b) == DeleteFirst(DeleteFirst(s, b), a)
  {
    if s[0] == a {
      assert DeleteFirst(s, a) == s[1..];
      assert DeleteFirst(s, b) == [a] + DeleteFirst(s[1..], b);
    } else if s[0] == b {
      assert DeleteFirst(s, b) == s[1..];
      assert DeleteFirst(s, a) == [b] + DeleteFirst(s[1..], a);
    } else {
      DeleteFirstCommutes(s[1..], a, b);
      var sa := DeleteFirst(s, a);
      var sb := DeleteFirst(s, b);
      assert sa == [s[0]] + DeleteFirst(s[1..], a);
      assert sb == [s[0]] + DeleteFirst(s[1..], b);
      assert DeleteFirst(sa, b) == [s[0]] + DeleteFirst(DeleteFirst(s[1..], a), b);
      assert DeleteFirst(sb, a) == [s[0]] + DeleteFirst(DeleteFirst(s[1..], b), a);
    }
  }

  /** The listbox's `get(i)`: the name at row `i`, or the empty string past the end. */
  function SourceName(sources: seq<string>, i: nat): string
  {
    if i < |sources| then sources[i] else ""
  }

  /** The visibility requests issued for a diff, one per entry, in order. */
  function Requests(sources: seq<string>, diff: seq<Toggle>): (r: seq<Request>)
    ensures |r| == |diff|
    ensures forall k :: 0 <= k < |diff| ==>
      r[k] == SetSourceRender(SourceName(sources, diff[k].index), diff[k].render)
  {
    seq(|diff|, k requires 0 <= k < |diff| => SetSourceRender(SourceName(sources, diff[k].index), diff[k].render))
  }

  /** No index is toggled twice. */
  ghost predicate EachIndexOnce(diff: seq<Toggle>)
  {
    forall j, k :: 0 <= j < k < |diff| ==> diff[j].index != diff[k].index
  }

  /** `diff` disables exactly the indices only in `prev` and enables exactly those only in `next`,
      each once, in any order. */
  ghost predicate Covers(prev: set<nat>, next: set<nat>, diff: seq<Toggle>)
  {
    && EachIndexOnce(diff)
    && (forall k :: 0 <= k < |diff| ==>
          if diff[k].render then diff[k].index in next && diff[k].index !in prev
          else diff[k].index in prev && diff[k].index !in next)
    && (forall i :: i in prev && i !in next ==> Toggle(i, false) in diff)
    && (forall i :: i in next && i !in prev ==> Toggle(i, true) in diff)
  }

  /** Every disable comes before every enable. */
  ghost predicate DisablesFirst(diff: seq<Toggle>)
  {
    forall j, k :: 0 <= j < k < |diff| && diff[j].render ==> diff[k].render
  }

  /** What `change_sources` computes: the symmetric difference, disables first. */
  ghost predicate IsDiffOf(prev: set<nat>, next: set<nat>, diff: seq<Toggle>)
  {
    Covers(prev, next, diff) && DisablesFirst(diff)
  }

  /** The selection differencer. Python iterates the two set differences in an order it does
      not promise; the choice of the next index is left open here as well. */
  method ComputeDiff(prev: set<nat>, next: set<nat>) returns (diff: seq<Toggle>)
    ensures IsDiffOf(prev, next, diff)
    ensures |diff| == |prev - next| + |next - prev|
  {
    diff := [];
    var todo := prev - next;
    while todo != {}
      invariant todo <= prev - next
      invariant |diff| + |todo| == |prev - next|
      invariant forall k :: 0 <= k < |diff| ==>
        !diff[k].render && diff[k].index in prev - next && diff[k].index !in todo
      invariant forall i :: i in prev - next && i !in todo ==> Toggle(i, false) in diff
      invariant EachIndexOnce(diff)
      decreases todo
    {
      var i :| i in todo;
      diff := diff + [Toggle(i, false)];
      todo := todo - {i};
    }
    var disables := |diff|;
    todo := next - prev;
    while todo != {}
      invariant todo <= next - prev
      invariant disables == |prev - next| <= |diff|
      invariant |diff| - disables + |todo| == |next - prev|
      invariant forall k :: 0 <= k < disables ==> !diff[k].render && diff[k].index in prev - next
      invariant forall k :: disables <= k < |diff| ==>
        diff[k].render && diff[k].index in next - prev && diff[k].index !in todo
      invariant forall i :: i in prev - next ==> Toggle(i, false) in diff
      invariant forall i :: i in next - prev && i !in todo ==> Toggle(i, true) in diff
      invariant EachIndexOnce(diff)
      decreases todo
    {
      var i :| i in todo;
      diff := diff + [Toggle(i, true)];
      todo := todo - {i};
    }
  }

  /** The visible set after the server has carried out the toggles in order. */
  function Apply(visible: set<nat>, diff: seq<Toggle>): set<nat>
    decreases |diff|
  {
    if diff == [] then visible
    else
      var t := diff[0];
      Apply(if t.render then visible + {t.index} else visible - {t.index}, diff[1..])
  }

  function Disabled(diff: seq<Toggle>): set<nat>
  {
    set k | 0 <= k < |diff| && !diff[k].render :: diff[k].index
  }

  function Enabled(diff: seq<Toggle>): set<nat>
  {
    set k | 0 <= k < |diff| && diff[k].render :: diff[k].index
  }

  /** When no index is toggled twice, the order of the toggles does not matter. */
  lemma {:induction false} ApplyDistinct(visible: set<nat>, diff: seq<Toggle>)
    requires EachIndexOnce(diff)
    ensures Apply(visible, diff) == visible - Disabled(diff) + Enabled(diff)
    decreases |diff|
  {
    if diff != [] {
      var t, rest := diff[0], diff[1..];
      var v' := if t.render then visible + {t.index} else visible - {t.index};
      assert EachIndexOnce(rest) by {
        forall j, k | 0 <= j < k < |rest| ensures rest[j].index != rest[k].index {
          assert rest[j] == diff[j + 1] && rest[k] == diff[k + 1];
        }
      }
      ApplyDistinct(v', rest);
      assert t.index !in Disabled(rest) + Enabled(rest) by {
        forall k | 0 <= k < |rest| ensures rest[k].index != t.index {
          assert rest[k] == diff[k + 1];
        }
      }
      assert Disabled(diff) == Disabled(rest) + (if t.render then {} else {t.index}) by {
        forall x | x in Disabled(diff) ensures x in Disabled(rest) + (if t.render then {} else {t.index}) {
          var k :| 0 <= k < |diff| && !diff[k].render && diff[k].index == x;
          if k > 0 { assert rest[k - 1] == diff[k]; }
        }
        forall x | x in Disabled(rest) ensures x in Disabled(diff) {
          var k :| 0 <= k < |rest| && !rest[k].render && rest[k].index == x;
          assert diff[k + 1] == rest[k];
        }
      }
      assert Enabled(diff) == Enabled(rest) + (if t.render then {t.index} else {}) by {
        forall x | x in Enabled(diff) ensures x in Enabled(rest) + (if t.render then {t.index} else {}) {
          var k :| 0 <= k < |diff| && diff[k].render && diff[k].index == x;
          if k > 0 { assert rest[k - 1] == diff[k]; }
        }
        forall x | x in Enabled(rest) ensures x in Enabled(diff) {
          var k :| 0 <= k < |rest| && rest[k].render && rest[k].index == x;
          assert diff[k + 1] == rest[k];
        }
      }
    }
  }

  /** Carrying out a diff of `prev` and `next`, in whatever order, leaves exactly `next` visible. */
  lemma ApplyDiff(prev: set<nat>, next: set<nat>, diff: seq<Toggle>)
    requires Covers(prev, next, diff)
    ensures Apply(prev, diff) == next
  {
    ApplyDistinct(prev, diff);
    assert Disabled(diff) == prev - next by {
      forall i | i in prev - next ensures i in Disabled(diff) {
        var k :| 0 <= k < |diff| && diff[k] == Toggle(i, false);
      }
    }
    assert Enabled(diff) == next - prev by {
      forall i | i in next - prev ensures i in Enabled(diff) {
        var k :| 0 <= k < |diff| && diff[k] == Toggle(i, true);
      }
    }
  }

  /** Deselecting row 1 of three selected rows asks for exactly one change: hide row 1. */
  lemma DeselectOneOfThree(diff: seq<Toggle>)
    requires IsDiffOf({0, 1, 2}, {0, 2}, diff)
    requires |diff| == |{0, 1, 2} - {0, 2}| + |{0, 2} - {0, 1, 2}|
    ensures diff == [Toggle(1, false)]
  {
    assert {0, 1, 2} - {0, 2} == {1};
    assert {0, 2} - {0, 1, 2} == {};
    assert Toggle(1, false) in diff;
  }
}
