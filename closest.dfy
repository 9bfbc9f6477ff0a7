/**
 * The running minimum that every "closest hit" loop of the source performs:
 * walk the candidates in order, skip the missing ones, and replace the best
 * so far only when the new key is strictly smaller, so that the first of
 * several equal minima wins.
 */
module Closest {
  import opened Wrappers

  /** k holds a key that no key is below, and that every earlier key is strictly above */
  ghost predicate IsFirstMin(keys: seq<Option<real>>, k: nat)
  {
    && k < |keys|
    && keys[k].Some?
    && (forall i | 0 <= i < |keys| && keys[i].Some? :: keys[k].value <= keys[i].value)
    && (forall i | 0 <= i < k && keys[i].Some? :: keys[k].value < keys[i].value)
  }

  /** The index the loop ends with, walked as the loop walks: the last key decides against the prefix's best */
  function FirstMin(keys: seq<Option<real>>): (r: Option<nat>)
    ensures r.Some? ==> r.value < |keys| && keys[r.value].Some?
    decreases |keys|
  {
    if |keys| == 0 then None
    else
      var n := |keys| - 1;
      var best := FirstMin(keys[..n]);
      if keys[n].Some? && (best.None? || keys[n].value < keys[best.value].value) then Some(n)
      else best
  }

  /** Extending the candidates by one key is one step of the loop */
  lemma FirstMinSnoc(keys: seq<Option<real>>, n: nat)
    requires n < |keys|
    ensures var best := FirstMin(keys[..n]);
            FirstMin(keys[..n + 1]) ==
              if keys[n].Some? && (best.None? || keys[n].value < keys[best.value].value) then Some(n)
              else best
  {
    assert keys[..n + 1][..n] == keys[..n];
  }

  /** The loop finds nothing exactly when every candidate is missing, and otherwise the first minimum */
  lemma {:induction false} FirstMinCorrect(keys: seq<Option<real>>)
    ensures FirstMin(keys).None? <==> forall i | 0 <= i < |keys| :: keys[i].None?
    ensures FirstMin(keys).Some? ==> IsFirstMin(keys, FirstMin(keys).value)
    decreases |keys|
  {
    if |keys| > 0 {
      var n := |keys| - 1;
      FirstMinCorrect(keys[..n]);
      assert forall i | 0 <= i < n :: keys[..n][i] == keys[i];
    }
  }

  /** At most one index is the first minimum, so what the loops pick is determined by the keys */
  lemma FirstMinUnique(keys: seq<Option<real>>, k: nat)
    requires IsFirstMin(keys, k)
    ensures FirstMin(keys) == Some(k)
  {
    FirstMinCorrect(keys);
  }
}
