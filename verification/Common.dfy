/** Values shared by the analysers: optional values, reals extended with
    +infinity (the source's `float('inf')`), and folds over sequences of reals
    (the `sum`, `min` and `max` that pandas and numpy supply). */
module Common {

  datatype Option<+T> = None | Some(value: T)

  /** A real number or +infinity. */
  datatype ExtReal = Finite(r: real) | Infinite

  function Sum(s: seq<real>): real
  {
    if |s| == 0 then 0.0 else Sum(s[..|s| - 1]) + s[|s| - 1]
  }

  lemma {:induction false} SumAppend(s: seq<real>, t: seq<real>)
    ensures Sum(s + t) == Sum(s) + Sum(t)
  {
    if |t| == 0 {
      assert s + t == s;
    } else {
      assert (s + t)[..|s + t| - 1] == s + t[..|t| - 1];
      SumAppend(s, t[..|t| - 1]);
    }
  }

  /** Removing one element lowers the sum by exactly that element. */
  lemma {:induction false} SumRemove(s: seq<real>, i: nat)
    requires i < |s|
    ensures Sum(s[..i] + s[i + 1..]) == Sum(s) - s[i]
  {
    var front, back := s[..i], s[i + 1..];
    assert s == front + ([s[i]] + back);
    SumAppend(front, [s[i]] + back);
    SumAppend([s[i]], back);
    assert [s[i]][..0] == [];
    SumAppend(front, back);
  }

  /** Largest element of a non-empty sequence (numpy `max`). */
  function MaxOf(s: seq<real>): (m: real)
    requires |s| > 0
    ensures m in s
    ensures forall k :: 0 <= k < |s| ==> s[k] <= m
  {
    if |s| == 1 then s[0]
    else
      var m' := MaxOf(s[..|s| - 1]);
      if s[|s| - 1] > m' then s[|s| - 1] else m'
  }

  /** Smallest element of a non-empty sequence (numpy `min`). */
  function MinOf(s: seq<real>): (m: real)
    requires |s| > 0
    ensures m in s
    ensures forall k :: 0 <= k < |s| ==> m <= s[k]
  {
    if |s| == 1 then s[0]
    else
      var m' := MinOf(s[..|s| - 1]);
      if s[|s| - 1] < m' then s[|s| - 1] else m'
  }
}
