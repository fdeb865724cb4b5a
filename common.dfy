/** Shared vocabulary of the factorisation: its status, the numeric settings
    it consults, and the tolerance tests it applies. */
module Common {

  /** LU_status: a factorisation is usable (Ok) or must be discarded. */
  datatype Status = Ok | Degenerated

  /** The part of lp_settings the factorisation reads.  `precise` stands for
      numeric_traits<T>::precise(): true when coefficients are exact. */
  datatype LpSettings = LpSettings(
    dropTolerance: real,
    pivotTolerance: real,
    densityThreshold: real,
    precise: bool)

  function Abs(v: real): (r: real)
    ensures r >= 0.0 && (r == v || r == -v)
  {
    if v < 0.0 then -v else v
  }

  /** is_eps_small_general(v, eps): with inexact coefficients `v` lies
      within `eps` of zero; with exact ones it is zero. */
  predicate EpsSmall(precise: bool, v: real, eps: real) {
    if precise then v == 0.0 else -eps < v < eps
  }

  /** abs_val_is_smaller_than_drop_tolerance */
  predicate SmallerThanDrop(s: LpSettings, v: real) {
    EpsSmall(s.precise, v, s.dropTolerance)
  }

  /** abs_val_is_smaller_than_pivot_tolerance */
  predicate SmallerThanPivot(s: LpSettings, v: real) {
    EpsSmall(s.precise, v, s.pivotTolerance)
  }

  /** The settings under which a value that passes the pivot test can be
      divided by: exact coefficients, or a positive pivot tolerance. */
  predicate PivotTestExcludesZero(s: LpSettings) {
    s.precise || s.pivotTolerance > 0.0
  }

  /** The same for the drop test: a value it keeps is non-zero. */
  predicate DropTestExcludesZero(s: LpSettings) {
    s.precise || s.dropTolerance > 0.0
  }

  /** With exact coefficients a tolerance test holds exactly for zero, so
      nothing non-zero is ever dropped. */
  lemma ExactDropsOnlyZero(s: LpSettings, v: real)
    requires s.precise
    ensures SmallerThanDrop(s, v) <==> v == 0.0
    ensures SmallerThanPivot(s, v) <==> v == 0.0
  {
  }

  /** A value that passes a test excluding zero is non-zero. */
  lemma PassedTestIsNonZero(s: LpSettings, v: real)
    ensures PivotTestExcludesZero(s) && !SmallerThanPivot(s, v) ==> v != 0.0
    ensures DropTestExcludesZero(s) && !SmallerThanDrop(s, v) ==> v != 0.0
  {
  }
}
