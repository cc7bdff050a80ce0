/**
 The part of the engine that counts references: `napi_create_reference`,
 `napi_reference_ref`, `napi_reference_unref`, `napi_delete_reference` and
 `napi_get_reference_value`.

 A reference that was deleted, or never made, is absent from `counts`; every operation
 requires presence, so a verified caller never touches a deleted reference.
 */
module NapiRefs {

  type Ref = nat

  // A JS value, by identity.
  type Value = nat

  class Engine {
    var counts: map<Ref, nat>
    var targets: map<Ref, Value> // of every reference ever made
    var next: Ref

    constructor ()
      ensures Valid() && counts == map[]
    {
      counts, targets, next := map[], map[], 0;
    }

    // References are handed out once; a deleted one is not reused.
    ghost predicate Valid()
      reads this
    {
      && (forall r | r in counts :: r in targets)
      && (forall r | r in targets :: r < next)
    }

    method CreateReference(v: Value, initial: nat) returns (r: Ref)
      requires Valid()
      modifies this
      ensures Valid() && r == old(next) && next == r + 1
      ensures counts == old(counts)[r := initial] && targets == old(targets)[r := v]
    {
      r := next;
      counts, targets, next := counts[r := initial], targets[r := v], next + 1;
    }

    method Reference(r: Ref)
      requires Valid() && r in counts
      modifies this`counts
      ensures Valid() && counts == old(counts)[r := old(counts)[r] + 1]
    {
      counts := counts[r := counts[r] + 1];
    }

    method Unreference(r: Ref) returns (left: nat)
      requires Valid() && r in counts && counts[r] > 0
      modifies this`counts
      ensures Valid() && left == old(counts)[r] - 1 && counts == old(counts)[r := left]
    {
      left := counts[r] - 1;
      counts := counts[r := left];
    }

    method DeleteReference(r: Ref)
      requires Valid() && r in counts
      modifies this`counts
      ensures Valid() && counts == old(counts) - {r}
    {
      counts := counts - {r};
    }

    method GetReferenceValue(r: Ref) returns (v: Value)
      requires Valid() && r in counts
      ensures v == targets[r]
    {
      v := targets[r];
    }
  }
}
