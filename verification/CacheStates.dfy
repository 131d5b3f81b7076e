/** The abstract state of a whole cache: one set state per cache set. */
module CacheStates {
  import opened AgeDomain
  import opened CacheGeometry
  import opened ReplacementPolicy

  /** The value of a whole cache: what each set lists. */
  type Value = seq<Ages>

  function Empty(numSets: nat): Value { seq(numSets, i => map[]) }

  ghost function ViewsOf(sets: seq<CacheSetState>): Value
    reads sets
  {
    seq(|sets|, i requires 0 <= i < |sets| reads sets => sets[i].View())
  }

  /** Set by set join. */
  function JoinValues(kind: Kind, a: Value, b: Value): Value
    requires |a| == |b|
  {
    seq(|a|, i requires 0 <= i < |a| => Join(kind, a[i], b[i]))
  }

  class CacheState {
    const geo: Geometry
    const policy: Policy
    const kind: Kind
    var sets: seq<CacheSetState>

    ghost predicate Valid()
      reads this, sets
    {
      && geo.IsValid() && policy.Valid() && policy.Supports(kind)
      && |sets| == geo.numSets
      && (forall i, j :: 0 <= i < j < |sets| ==> sets[i] != sets[j])
      && (forall i :: 0 <= i < |sets| ==> policy.Owns(sets[i]))
    }

    ghost function View(): Value
      reads this, sets
      ensures Valid() ==> |View()| == geo.numSets
    {
      ViewsOf(sets)
    }

    /** The objects that make up this state. */
    ghost function Repr(): set<object>
      reads this
    {
      {this} + (set s: CacheSetState | s in sets)
    }

    constructor (geo: Geometry, policy: Policy, kind: Kind)
      requires geo.IsValid() && policy.Valid() && policy.Supports(kind)
      ensures Valid() && fresh(Repr())
      ensures this.geo == geo && this.policy == policy && this.kind == kind
      ensures View() == Empty(geo.numSets)
    {
      this.geo, this.policy, this.kind := geo, policy, kind;
      sets := [];
      new;
      var i := 0;
      while i < geo.numSets
        invariant 0 <= i == |sets| <= geo.numSets
        invariant forall j, k :: 0 <= j < k < i ==> sets[j] != sets[k]
        invariant forall j :: 0 <= j < i ==> fresh(sets[j]) && policy.Owns(sets[j]) && sets[j].View() == map[]
      {
        var s := new CacheSetState();
        sets := sets + [s];
        i := i + 1;
      }
      assert View() == Empty(geo.numSets);
    }

    constructor Clone(other: CacheState)
      requires other.Valid()
      ensures Valid() && fresh(Repr())
      ensures geo == other.geo && policy == other.policy && kind == other.kind
      ensures View() == other.View()
    {
      geo, policy, kind := other.geo, other.policy, other.kind;
      sets := [];
      new;
      var i := 0;
      while i < |other.sets|
        invariant 0 <= i == |sets| <= |other.sets| == geo.numSets && other.Valid()
        invariant forall j, k :: 0 <= j < k < i ==> sets[j] != sets[k]
        invariant forall j :: 0 <= j < i ==>
                    fresh(sets[j]) && policy.Owns(sets[j]) && sets[j].View() == other.sets[j].View()
      {
        var s := new CacheSetState.Clone(other.sets[i]);
        sets := sets + [s];
        i := i + 1;
      }
      assert View() == other.View();
    }

    /** Accesses `line`; `present` says whether its set listed it. */
    method Access(line: Line) returns (present: bool)
      requires Valid()
      modifies sets
      ensures Valid() && sets == old(sets)
      ensures var s := geo.SetIndex(line);
              && s < |sets|
              && (present <==> line in old(View())[s])
              && View() == old(View())[s := policy.Transfer(old(View())[s], line)]
    {
      SetIndexInRange(geo, line);
      var s := geo.SetIndex(line);
      present := policy.Contains(sets[s], line);
      policy.Update(sets[s], line);
      assert forall i :: 0 <= i < |sets| && i != s ==> policy.Owns(sets[i]) && sets[i].View() == old(sets[i].View());
      assert View() == old(View())[s := policy.Transfer(old(View())[s], line)];
    }

    /** Forgets everything. */
    method Barrier()
      requires Valid()
      modifies this
      ensures Valid() && fresh(set s: CacheSetState | s in sets)
      ensures View() == Empty(geo.numSets)
    {
      var i := 0;
      while i < |sets|
        invariant 0 <= i <= |sets| == geo.numSets
        invariant forall j :: i <= j < |sets| ==> sets[j] == old(sets)[j]
        invariant forall j, k :: 0 <= j < k < i ==> sets[j] != sets[k]
        invariant forall j :: 0 <= j < i ==> fresh(sets[j]) && policy.Owns(sets[j]) && sets[j].View() == map[]
      {
        var s := new CacheSetState();
        sets := sets[i := s];
        i := i + 1;
      }
      assert View() == Empty(geo.numSets);
    }

    method Equals(other: CacheState) returns (r: bool)
      requires Valid() && other.Valid() && other.policy == policy
      ensures r <==> View() == other.View()
    {
      if |sets| != |other.sets| {
        return false;
      }
      var i := 0;
      while i < |sets|
        invariant 0 <= i <= |sets|
        invariant forall j :: 0 <= j < i ==> sets[j].View() == other.sets[j].View()
      {
        if !policy.Equals(sets[i], other.sets[i]) {
          assert View()[i] != other.View()[i];
          return false;
        }
        i := i + 1;
      }
      assert View() == other.View();
      return true;
    }

    /** Meets one set of `other` into the same set of this state. */
    method JoinSet(other: CacheState, i: nat) returns (changed: bool)
      requires Valid() && other.Valid() && other.policy == policy && other.geo == geo
      requires i < |sets| && forall s :: s in sets ==> s !in other.sets
      modifies sets[i]
      ensures Valid() && sets == old(sets) && other.Valid()
      ensures View() == old(View())[i := Join(kind, old(View())[i], old(other.View())[i])]
      ensures other.View() == old(other.View())
      ensures changed <==> View()[i] != old(View())[i]
    {
      ghost var mine, theirs := View(), other.View();
      assert other.sets[i] in other.sets && sets[i] in sets;
      changed := policy.JoinInto(sets[i], other.sets[i], kind);
      forall j | 0 <= j < |sets| && j != i ensures sets[j].View() == mine[j] && policy.Owns(sets[j]) {
        assert sets[j] != sets[i];
      }
      forall j | 0 <= j < |other.sets| ensures other.sets[j].View() == theirs[j] && policy.Owns(other.sets[j]) {
        assert other.sets[j] in other.sets && other.sets[j] != sets[i];
      }
      assert View() == mine[i := Join(kind, mine[i], theirs[i])];
      assert other.View() == theirs;
    }

    /** Meets `other` into this state, reporting whether anything changed. */
    method JoinWith(other: CacheState) returns (changed: bool)
      requires Valid() && other.Valid() && other.policy == policy && other.geo == geo
      requires forall s :: s in sets ==> s !in other.sets
      modifies sets
      ensures Valid() && sets == old(sets)
      ensures View() == JoinValues(kind, old(View()), old(other.View()))
      ensures changed <==> View() != old(View())
    {
      changed := false;
      ghost var mine, theirs := View(), other.View();
      var i := 0;
      while i < |sets|
        invariant 0 <= i <= |sets| && sets == old(sets) && Valid() && other.Valid()
        invariant View() == JoinedUpTo(kind, mine, theirs, i) && other.View() == theirs
        invariant changed <==> View() != mine
      {
        var c := JoinSet(other, i);
        JoinedStep(kind, mine, theirs, i);
        changed := changed || c;
        i := i + 1;
      }
      assert View() == JoinValues(kind, mine, theirs);
    }
  }

  /** The value with the first `n` sets joined. */
  ghost function JoinedUpTo(kind: Kind, a: Value, b: Value, n: nat): Value
    requires |a| == |b|
  {
    seq(|a|, i requires 0 <= i < |a| => if i < n then Join(kind, a[i], b[i]) else a[i])
  }

  lemma JoinedStep(kind: Kind, a: Value, b: Value, n: nat)
    requires |a| == |b| && n < |a|
    ensures JoinedUpTo(kind, a, b, n + 1) == JoinedUpTo(kind, a, b, n)[n := Join(kind, a[n], b[n])]
    ensures JoinedUpTo(kind, a, b, n + 1) != a <==> JoinedUpTo(kind, a, b, n) != a || Join(kind, a[n], b[n]) != a[n]
  {
    var p, q := JoinedUpTo(kind, a, b, n), JoinedUpTo(kind, a, b, n + 1);
    assert q == p[n := Join(kind, a[n], b[n])];
    if p != a {
      var i :| 0 <= i < |a| && p[i] != a[i];
      assert q[i] != a[i];
    }
    if Join(kind, a[n], b[n]) != a[n] { assert q[n] != a[n]; }
  }
}
