/**
 * Membership reconciliation: the two set differences the handlers compute
 * when one side of a user/group membership is replaced wholesale. The keys
 * are group names on the user side and userids on the group side.
 */
module Reconcile {

  /** The edits that turn a current membership set into a desired one. */
  datatype Diff<K> = Diff(toRemove: set<K>, toAdd: set<K>)

  /** Applies a diff to a membership set: remove first, then add. */
  function Apply<K>(current: set<K>, d: Diff<K>): set<K>
  {
    (current - d.toRemove) + d.toAdd
  }

  /**
   * `current - desired` and `desired - current`: removals come from the
   * current set only, additions from the desired set only, no key is both
   * removed and added, and applying the diff yields the desired set.
   */
  function Compute<K>(current: set<K>, desired: set<K>): (d: Diff<K>)
    ensures d.toRemove <= current && d.toRemove !! desired
    ensures d.toAdd <= desired && d.toAdd !! current
    ensures d.toRemove !! d.toAdd
    ensures Apply(current, d) == desired
  {
    Diff(current - desired, desired - current)
  }

  /**
   * The diff is the smallest one that works: every diff that turns `current`
   * into `desired` removes at least these keys and adds at least these keys.
   */
  lemma ComputeIsMinimal<K>(current: set<K>, desired: set<K>, d: Diff<K>)
    requires Apply(current, d) == desired
    ensures Compute(current, desired).toRemove <= d.toRemove
    ensures Compute(current, desired).toAdd <= d.toAdd
  {
    var c := Compute(current, desired);
    forall k | k in c.toRemove ensures k in d.toRemove {
      assert k !in Apply(current, d);
    }
    forall k | k in c.toAdd ensures k in d.toAdd {
      assert k in Apply(current, d);
    }
  }

  /**
   * The diff is the only one that removes only current keys, adds only keys
   * that are not current, and reaches the desired set.
   */
  lemma ComputeIsUnique<K>(current: set<K>, desired: set<K>, d: Diff<K>)
    requires d.toRemove <= current && d.toAdd !! current
    requires Apply(current, d) == desired
    ensures d == Compute(current, desired)
  {
    var c := Compute(current, desired);
    ComputeIsMinimal(current, desired, d);
    forall k | k in d.toRemove ensures k in c.toRemove {
      assert k !in Apply(current, d);
    }
    forall k | k in d.toAdd ensures k in c.toAdd {
      assert k in Apply(current, d);
    }
    assert d.toRemove == c.toRemove;
    assert d.toAdd == c.toAdd;
  }

  /**
   * Reconciling is idempotent: once a diff has been applied, reconciling the
   * result against the same desired set asks for nothing more.
   */
  lemma ReconcileIdempotent<K>(current: set<K>, desired: set<K>)
    ensures Compute(Apply(current, Compute(current, desired)), desired) == Diff({}, {})
  {
  }

  /**
   * The edge cases: equal sets need no edits, an empty current set adds
   * everything desired, an empty desired set removes everything current.
   */
  lemma ComputeEdgeCases<K>(s: set<K>)
    ensures Compute(s, s) == Diff({}, {})
    ensures Compute({}, s) == Diff({}, s)
    ensures Compute(s, {}) == Diff(s, {})
  {
  }
}
