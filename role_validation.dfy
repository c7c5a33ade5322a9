/**
 * `roleCheck(selector, roles)`: a predicate that selects a key from its
 * input and tests whether that key is one of the allowed roles, with
 * `Array.prototype.includes`.
 */
module RoleValidation {
  import opened JsArray

  /** The predicate `value => roles.includes(selector(value))`. */
  function RoleCheck<D(!new), K(==)>(selector: D -> K, roles: seq<K>): (check: D -> bool)
    ensures forall v :: check(v) <==> selector(v) in roles
  {
    v => Includes(roles, selector(v))
  }

  /** With no roles allowed, nothing passes. */
  lemma NoRolesRejectAll<D(!new), K>(selector: D -> K, v: D)
    ensures !RoleCheck(selector, [])(v)
  {
  }

  /** Only the set of allowed roles matters, not their order or repetition. */
  lemma SameRolesSameCheck<D(!new), K>(selector: D -> K, roles1: seq<K>, roles2: seq<K>, v: D)
    requires forall r :: r in roles1 <==> r in roles2
    ensures RoleCheck(selector, roles1)(v) == RoleCheck(selector, roles2)(v)
  {
  }

  /** Allowing more roles never rejects a value that passed before. */
  lemma MoreRolesAdmitMore<D(!new), K>(selector: D -> K, roles1: seq<K>, roles2: seq<K>, v: D)
    requires forall r :: r in roles1 ==> r in roles2
    requires RoleCheck(selector, roles1)(v)
    ensures RoleCheck(selector, roles2)(v)
  {
  }

  /** Concatenating role lists takes the disjunction of the checks. */
  lemma ConcatenatedRoles<D(!new), K>(selector: D -> K, roles1: seq<K>, roles2: seq<K>, v: D)
    ensures RoleCheck(selector, roles1 + roles2)(v) == (RoleCheck(selector, roles1)(v) || RoleCheck(selector, roles2)(v))
  {
  }

  /** With one allowed role, the check is equality with it. */
  lemma SingleRole<D(!new), K>(selector: D -> K, role: K, v: D)
    ensures RoleCheck(selector, [role])(v) == (selector(v) == role)
  {
  }
}
