/** JSON Merge Patch (section 2 of RFC 7386) as the enforcement blob applies it
    (src/daemon/enforcement.rs). */
module MergePatch {
  import opened Wrappers

  datatype Json = Null | Scalar(text: string) | Array(items: seq<Json>) | Obj(members: map<string, Json>)

  function Member(v: Json, key: string): Option<Json> {
    if v.Obj? && key in v.members then Some(v.members[key]) else None
  }

  function Keys(v: Json): set<string> {
    if v.Obj? then v.members.Keys else {}
  }

  /** The value a patch member leaves over an existing one, if any: no patch
      member leaves it alone and a null deletes it. */
  function Patched(existing: Option<Json>, patch: Option<Json>): Option<Json>
    decreases patch
  {
    match patch
    case None => existing
    case Some(Null) => None
    case Some(p) => Some(Merge(if existing.Some? then existing.value else Null, p))
  }

  /** MergePatch of section 2 of RFC 7386. */
  function Merge(target: Json, patch: Json): Json
    decreases patch
  {
    if !patch.Obj? then patch
    else
      Obj(map key | key in Keys(target) + patch.members.Keys && !(key in patch.members && patch.members[key].Null?) ::
        if key !in patch.members then target.members[key]
        else Merge(if key in Keys(target) then target.members[key] else Null, patch.members[key]))
  }

  /** Member by member. */
  lemma MergeMember(target: Json, patch: Json, key: string)
    requires patch.Obj?
    ensures Merge(target, patch).Obj?
    ensures Member(Merge(target, patch), key) == Patched(Member(target, key), Member(patch, key))
  {
  }

  lemma SameMembers(a: Json, b: Json)
    requires a.Obj? && b.Obj?
    requires forall key :: Member(a, key) == Member(b, key)
    ensures a == b
  {
    forall key ensures key in a.members <==> key in b.members {
      assert Member(a, key) == Member(b, key);
    }
    forall key | key in a.members ensures a.members[key] == b.members[key] {
      assert Member(a, key) == Member(b, key);
    }
    assert a.members == b.members;
  }

  // ---------------------------------------------------------------------------
  // In place
  // ---------------------------------------------------------------------------

  /** A JSON object that is patched where it stands. */
  class JsonObject {
    var members: map<string, Json>

    constructor (members: map<string, Json>)
      ensures this.members == members
    {
      this.members := members;
    }

    /** One key at a time, in the map's own order, whatever that is. */
    method MergePatch(patch: Json)
      requires patch.Obj?
      modifies this
      ensures Obj(members) == Merge(Obj(old(members)), patch)
      decreases patch
    {
      ghost var target := Obj(members);
      var left := patch.members.Keys;
      while left != {}
        invariant left <= patch.members.Keys
        invariant forall key :: Member(Obj(members), key) == Patched(Member(target, key), if key in left then None else Member(patch, key))
        decreases left
      {
        var key :| key in left;
        assert Member(Obj(members), key) == Member(target, key);
        MergeKey(key, patch);
        left := left - {key};
      }
      forall key ensures Member(Obj(members), key) == Member(Merge(target, patch), key) {
        MergeMember(target, patch, key);
      }
      SameMembers(Obj(members), Merge(target, patch));
    }

    method MergeKey(key: string, patch: Json)
      requires patch.Obj? && key in patch.members
      modifies this
      ensures Member(Obj(members), key) == Patched(Member(Obj(old(members)), key), Some(patch.members[key]))
      ensures forall k :: k != key ==> Member(Obj(members), k) == Member(Obj(old(members)), k)
      decreases patch, 0
    {
      match patch.members[key]
      case Null =>
        members := members - {key};
      case Obj(_) =>
        var entry := if key in members && members[key].Obj? then members[key].members else map[];
        var nested := new JsonObject(entry);
        nested.MergePatch(patch.members[key]);
        MergeIntoEmpty(if key in members then members[key] else Null, patch.members[key]);
        members := members[key := Obj(nested.members)];
      case other =>
        members := members[key := other];
    }
  }

  /** An object patch over anything but an object starts from the empty object. */
  lemma MergeIntoEmpty(target: Json, patch: Json)
    requires patch.Obj?
    ensures !target.Obj? ==> Merge(target, patch) == Merge(Obj(map[]), patch)
  {
  }

  // ---------------------------------------------------------------------------
  // What a merge does to a path
  // ---------------------------------------------------------------------------

  type Path = seq<string>

  function At(v: Json, path: Path): Option<Json> {
    if path == [] then Some(v)
    else
      match Member(v, path[0])
      case None => None
      case Some(child) => At(child, path[1..])
  }

  /** Walking along `path` leaves the patch at a member it does not have. */
  predicate Unreached(patch: Json, path: Path) {
    patch.Obj? && path != [] &&
    match Member(patch, path[0])
    case None => true
    case Some(child) => Unreached(child, path[1..])
  }

  lemma {:induction false} UnreachedIsUnchanged(target: Json, patch: Json, path: Path)
    requires Unreached(patch, path)
    ensures At(Merge(target, patch), path) == At(target, path)
    decreases |path|
  {
    MergeMember(target, patch, path[0]);
    var child := Member(patch, path[0]);
    if child.Some? {
      var existing := if Member(target, path[0]).Some? then Member(target, path[0]).value else Null;
      UnreachedIsUnchanged(existing, child.value, path[1..]);
      assert child.value.Obj? && path[1..] != [];
    }
  }

  /** A patch leaf is stored at its path, or deleted if it is null. */
  lemma {:induction false} LeafIsStored(target: Json, patch: Json, path: Path)
    requires patch.Obj? && At(patch, path).Some? && !At(patch, path).value.Obj?
    ensures At(Merge(target, patch), path) == if At(patch, path) == Some(Null) then None else At(patch, path)
    decreases |path|
  {
    MergeMember(target, patch, path[0]);
    var child := Member(patch, path[0]).value;
    var existing := if Member(target, path[0]).Some? then Member(target, path[0]).value else Null;
    if child.Obj? {
      LeafIsStored(existing, child, path[1..]);
    } else {
      assert path[1..] == [];
    }
  }

  /** A merge stores no null of its own: a null member of the result stood there before. */
  lemma {:induction false} AddsNoNull(target: Json, patch: Json, path: Path)
    requires patch.Obj? && At(Merge(target, patch), path) == Some(Null)
    ensures At(target, path) == Some(Null)
    decreases |path|
  {
    MergeMember(target, patch, path[0]);
    var child := Member(patch, path[0]);
    if child.Some? && child.value.Obj? {
      var existing := if Member(target, path[0]).Some? then Member(target, path[0]).value else Null;
      AddsNoNull(existing, child.value, path[1..]);
      assert path[1..] != [];
    }
  }

  // ---------------------------------------------------------------------------
  // Repeating and reordering
  // ---------------------------------------------------------------------------

  lemma {:induction false} MergeIsIdempotent(target: Json, patch: Json)
    ensures Merge(Merge(target, patch), patch) == Merge(target, patch)
    decreases patch
  {
    if patch.Obj? {
      var once := Merge(target, patch);
      forall key ensures Member(Merge(once, patch), key) == Member(once, key) {
        MergeMember(target, patch, key);
        MergeMember(once, patch, key);
        if key in patch.members && !patch.members[key].Null? {
          MergeIsIdempotent(if key in Keys(target) then target.members[key] else Null, patch.members[key]);
        }
      }
      SameMembers(Merge(once, patch), once);
    }
  }

  /** The patches say the same wherever both speak. */
  ghost predicate Compatible(p: Json, q: Json)
    decreases p
  {
    if p.Obj? && q.Obj?
    then forall key :: key in p.members && key in q.members ==> Compatible(p.members[key], q.members[key])
    else p == q
  }

  lemma {:induction false} CompatibleCommute(target: Json, p: Json, q: Json)
    requires p.Obj? && q.Obj? && Compatible(p, q)
    ensures Merge(Merge(target, p), q) == Merge(Merge(target, q), p)
    decreases p
  {
    var pq, qp := Merge(Merge(target, p), q), Merge(Merge(target, q), p);
    forall key ensures Member(pq, key) == Member(qp, key) {
      MergeMember(target, p, key);
      MergeMember(Merge(target, p), q, key);
      MergeMember(target, q, key);
      MergeMember(Merge(target, q), p, key);
      if key in p.members && key in q.members && p.members[key].Obj? && q.members[key].Obj? {
        CompatibleCommute(if key in Keys(target) then target.members[key] else Null, p.members[key], q.members[key]);
      }
    }
    SameMembers(pq, qp);
  }

  /** From the empty object, incompatible patches show their order. */
  lemma {:induction false} IncompatibleClash(p: Json, q: Json)
    requires p.Obj? && q.Obj? && !Compatible(p, q)
    ensures Merge(Merge(Obj(map[]), p), q) != Merge(Merge(Obj(map[]), q), p)
    decreases p
  {
    var empty := Obj(map[]);
    var key :| key in p.members && key in q.members && !Compatible(p.members[key], q.members[key]);
    var a, b := p.members[key], q.members[key];
    MergeMember(empty, p, key);
    MergeMember(Merge(empty, p), q, key);
    MergeMember(empty, q, key);
    MergeMember(Merge(empty, q), p, key);
    if a.Obj? && b.Obj? {
      IncompatibleClash(a, b);
      MergeIntoEmpty(Null, a);
      MergeIntoEmpty(Null, b);
    }
  }

  /** Two patches commute on every target exactly when they are compatible. */
  lemma CommuteIffCompatible(p: Json, q: Json)
    requires p.Obj? && q.Obj?
    ensures Compatible(p, q) <==> forall target :: Merge(Merge(target, p), q) == Merge(Merge(target, q), p)
  {
    if Compatible(p, q) {
      forall target ensures Merge(Merge(target, p), q) == Merge(Merge(target, q), p) {
        CompatibleCommute(target, p, q);
      }
    } else {
      IncompatibleClash(p, q);
    }
  }
}
