/** The gating computation of the ring buffer: the smallest current value among
    a slice of sequences. Each sequence is represented by the value its `get()`
    returns at the moment of the call, so the slice becomes a `seq<int>`; the
    model only reads these values and cannot change them. */
module CursorSequence {

  /** The value `Sequence::default()` yields, returned for an empty slice. */
  const DefaultSequence: int := 0

  /** The least value of a non-empty slice. */
  function Min(values: seq<int>): (r: int)
    requires |values| > 0
    ensures forall i :: 0 <= i < |values| ==> r <= values[i]
    ensures exists i :: 0 <= i < |values| && values[i] == r
  {
    if |values| == 1 then values[0]
    else
      var rest := Min(values[1..]);
      assert forall i :: 1 <= i < |values| ==> values[i] == values[1..][i - 1];
      if values[0] <= rest then values[0] else rest
  }

  /** `get_min_cursor_sequence`: the least value in the slice, or the default
      sequence value when the slice is empty. */
  function GetMinCursorSequence(values: seq<int>): (r: int)
    ensures |values| == 0 ==> r == DefaultSequence
    ensures forall i :: 0 <= i < |values| ==> r <= values[i]
    ensures |values| > 0 ==> exists i :: 0 <= i < |values| && values[i] == r
    ensures |values| == 1 ==> r == values[0]
  {
    if |values| == 0 then DefaultSequence else Min(values)
  }

  /** The result depends only on which values occur, not on their order or on
      the position of a sequence in the slice. */
  lemma {:induction false} MinCursorIsOrderIndependent(s: seq<int>, t: seq<int>)
    requires multiset(s) == multiset(t)
    ensures GetMinCursorSequence(s) == GetMinCursorSequence(t)
  {
    if |s| == 0 {
      assert |t| == |multiset(t)| == 0;
    } else {
      assert |t| == |multiset(t)| == |multiset(s)| == |s|;
      var ms, mt := GetMinCursorSequence(s), GetMinCursorSequence(t);
      var i :| 0 <= i < |s| && s[i] == ms;
      var j :| 0 <= j < |t| && t[j] == mt;
      assert ms in multiset(t) by { assert s[i] in multiset(s); }
      assert mt in multiset(s) by { assert t[j] in multiset(t); }
      var i' :| 0 <= i' < |t| && t[i'] == ms;
      var j' :| 0 <= j' < |s| && s[j'] == mt;
      assert mt <= t[i'] && ms <= s[j'];
    }
  }

  /** A barrier's gate over its producer cursor and its upstream sequences is
      the smaller of the two groups' minima. */
  lemma {:induction false} MinCursorOfConcat(s: seq<int>, t: seq<int>)
    requires |s| > 0 && |t| > 0
    ensures GetMinCursorSequence(s + t)
            == if GetMinCursorSequence(s) <= GetMinCursorSequence(t)
               then GetMinCursorSequence(s) else GetMinCursorSequence(t)
  {
    var st := s + t;
    var m, ms, mt := GetMinCursorSequence(st), GetMinCursorSequence(s), GetMinCursorSequence(t);
    var i :| 0 <= i < |s| && s[i] == ms;
    var j :| 0 <= j < |t| && t[j] == mt;
    assert st[i] == ms && st[|s| + j] == mt;
    var k :| 0 <= k < |st| && st[k] == m;
    if k < |s| {
      assert st[k] == s[k];
    } else {
      assert st[k] == t[k - |s|];
    }
  }

  /** When every sequence has advanced (or stayed), the gate has not
      regressed. */
  lemma MinCursorIsMonotone(before: seq<int>, after: seq<int>)
    requires |before| == |after|
    requires forall i :: 0 <= i < |before| ==> before[i] <= after[i]
    ensures GetMinCursorSequence(before) <= GetMinCursorSequence(after)
  {
  }
}
