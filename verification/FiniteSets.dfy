/** Cardinalities of finite sets. */
module FiniteSets {
  /** Sets that agree outside one element differ in size by that element only. */
  lemma SizesDiffer(a: set<nat>, b: set<nat>, t: nat)
    requires a - {t} == b - {t}
    ensures |b| == |a| - (if t in a then 1 else 0) + (if t in b then 1 else 0)
  {
    assert a == (a - {t}) + if t in a then {t} else {};
    assert b == (b - {t}) + if t in b then {t} else {};
  }
}
