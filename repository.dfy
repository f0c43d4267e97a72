/** Employees/EmployeeRepository.cs: the in-memory employee repository. It
    owns a list of `Employee` objects, assigns identities on creation, renames
    stored employees in place and removes them by object identity. */
module Repository {
  import opened Common
  import opened Entities

  /** The `ArgumentNullException` a mutation throws for a null entity. */
  datatype RepositoryError = ArgumentNull(paramName: string)

  /** How a mutation ends: normally, or with the exception it throws. */
  datatype Outcome = Pass | Fail(error: RepositoryError)

  /** The values of a list of employee objects, position by position. */
  function RecordsOf(es: seq<Employee>): (rs: seq<EmployeeRecord>)
    reads es
    ensures |rs| == |es|
    ensures forall k :: 0 <= k < |es| ==> rs[k] == es[k].Value()
  {
    seq(|es|, k reads es requires 0 <= k < |es| => es[k].Value())
  }

  /** `Max()` of the identities of a non-empty list: an upper bound of them
      that is itself one of them. */
  function MaxNonEmpty(rs: seq<EmployeeRecord>): (m: int)
    requires rs != []
    ensures forall k :: 0 <= k < |rs| ==> rs[k].id <= m
    ensures HasId(rs, m)
    decreases |rs|
  {
    if |rs| == 1 then rs[0].id
    else
      var m := MaxNonEmpty(rs[1..]);
      assert forall k :: 1 <= k < |rs| ==> rs[k] == rs[1..][k - 1];
      if rs[0].id < m then m else rs[0].id
  }

  /** `Select(e => e.Id).DefaultIfEmpty(0).Max()`: the largest identity, or 0
      for an empty list. */
  function MaxId(rs: seq<EmployeeRecord>): (m: Int32)
    ensures forall k :: 0 <= k < |rs| ==> rs[k].id <= m
    ensures rs == [] ==> m == 0
    ensures rs != [] ==> HasId(rs, m)
  {
    if rs == [] then 0 else MaxNonEmpty(rs)
  }

  /** The identity `Create` assigns: the maximum plus one, in unchecked
      32-bit arithmetic, so it wraps to the most negative `int` at the
      ceiling. */
  function NextId(rs: seq<EmployeeRecord>): (id: Int32)
    ensures MaxId(rs) < Int32Max ==> id == MaxId(rs) + 1
    ensures MaxId(rs) == Int32Max ==> id == Int32Min
  {
    Wrap32(MaxId(rs) + 1)
  }

  /** Below the 32-bit ceiling the new identity exceeds every stored one, so
      it is fresh, and it is positive when the stored ones are. */
  lemma NextIdIsFresh(rs: seq<EmployeeRecord>)
    requires MaxId(rs) < Int32Max
    ensures NextId(rs) == MaxId(rs) + 1
    ensures forall k :: 0 <= k < |rs| ==> rs[k].id < NextId(rs)
    ensures !HasId(rs, NextId(rs))
    ensures PositiveIds(rs) ==> NextId(rs) >= 1
  {
    if rs != [] {
      var j :| 0 <= j < |rs| && rs[j].id == MaxId(rs);
      assert PositiveIds(rs) ==> rs[j].id >= 1;
    }
  }

  /** Appending a record whose identity exceeds every stored one keeps the
      identities unique and positive, and the record is found last. */
  lemma AppendFreshKeepsIds(rs: seq<EmployeeRecord>, e: EmployeeRecord)
    requires UniqueIds(rs) && PositiveIds(rs) && e.id >= 1
    requires forall k :: 0 <= k < |rs| ==> rs[k].id < e.id
    ensures UniqueIds(rs + [e]) && PositiveIds(rs + [e])
    ensures FindIndex(rs + [e], e.id) == Some(|rs|)
  {
    FindIndexOfUnique(rs + [e], |rs|);
  }

  /** At the ceiling the increment wraps to the most negative `int`. */
  lemma NextIdWrapsAtCeiling(rs: seq<EmployeeRecord>)
    requires MaxId(rs) == Int32Max
    ensures NextId(rs) == Int32Min
    ensures forall k :: 0 <= k < |rs| ==> NextId(rs) <= rs[k].id
  {
  }

  /** Position of the first occurrence of `x`, as `List.IndexOf` finds it. */
  function IndexOf<T(==)>(s: seq<T>, x: T): (i: nat)
    requires x in s
    ensures i < |s| && s[i] == x
    ensures forall j :: 0 <= j < i ==> s[j] != x
  {
    if s[0] == x then 0
    else
      var i := IndexOf(s[1..], x);
      assert forall j :: 1 <= j <= i + 1 ==> s[j] == s[1..][j - 1];
      i + 1
  }

  /** `List.Remove(x)`: the first occurrence of `x` is dropped and the rest
      keep their order; without an occurrence nothing changes. */
  function RemoveFirst<T(==)>(s: seq<T>, x: T): (r: seq<T>)
    ensures x !in s ==> r == s
    ensures x in s ==> |r| == |s| - 1 && multiset(r) == multiset(s) - multiset{x}
    ensures x in s ==> exists i :: 0 <= i < |s| && s[i] == x && x !in s[..i] && r == s[..i] + s[i + 1..]
  {
    if x in s then
      var i := IndexOf(s, x);
      assert s == s[..i] + [s[i]] + s[i + 1..];
      assert x !in s[..i];
      s[..i] + s[i + 1..]
    else s
  }

  /** Removing one record keeps identities unique and positive, and no
      remaining record carries the removed identity. */
  lemma RemoveAtKeepsIds(rs: seq<EmployeeRecord>, i: nat)
    requires UniqueIds(rs) && PositiveIds(rs) && i < |rs|
    ensures UniqueIds(rs[..i] + rs[i + 1..])
    ensures PositiveIds(rs[..i] + rs[i + 1..])
    ensures !HasId(rs[..i] + rs[i + 1..], rs[i].id)
  {
  }

  /** The stored records after `Update(source)`: the record whose identity is
      `source.id` takes `source`'s first and last name; nothing else moves. */
  function CopyNames(rs: seq<EmployeeRecord>, source: EmployeeRecord): (r: seq<EmployeeRecord>)
    ensures |r| == |rs|
    ensures forall k :: 0 <= k < |rs| ==> r[k].id == rs[k].id
    ensures forall k :: 0 <= k < |rs| && rs[k].id != source.id ==> r[k] == rs[k]
    ensures UniqueIds(rs) ==> forall k :: 0 <= k < |rs| && rs[k].id == source.id ==>
              r[k] == rs[k].(firstName := source.firstName, lastName := source.lastName)
    ensures !HasId(rs, source.id) ==> r == rs
  {
    match FindIndex(rs, source.id)
    case None => rs
    case Some(k) =>
      assert UniqueIds(rs) ==> forall j :: 0 <= j < |rs| && rs[j].id == source.id ==> j == k;
      rs[k := rs[k].(firstName := source.firstName, lastName := source.lastName)]
  }

  class EmployeeRepository {
    /** `_employees`, in insertion order. */
    var employees: seq<Employee>

    constructor ()
      ensures employees == [] && Valid()
    {
      employees := [];
    }

    /** The values currently stored, in list order. */
    function Records(): seq<EmployeeRecord>
      reads this, employees
    {
      RecordsOf(employees)
    }

    /** Stored identities are pairwise distinct and at least 1 (which also
        makes the stored objects pairwise distinct). */
    ghost predicate Valid()
      reads this, employees
    {
      UniqueIds(Records()) && PositiveIds(Records())
    }

    /** `GetById`: the first stored employee with identity `id`, or null. */
    method GetById(id: Int32) returns (e: Employee?)
      ensures e == null <==> !HasId(Records(), id)
      ensures e != null ==> e == employees[FindIndex(Records(), id).value]
    {
      var i := 0;
      while i < |employees|
        invariant 0 <= i <= |employees|
        invariant forall j :: 0 <= j < i ==> employees[j].id != id
      {
        if employees[i].id == id {
          assert FindIndex(Records(), id) == Some(i);
          return employees[i];
        }
        i := i + 1;
      }
      assert !HasId(Records(), id);
      return null;
    }

    /** `GetAll`: the stored objects, in insertion order, as of the call. */
    method GetAll() returns (es: seq<Employee>)
      ensures es == employees
      ensures RecordsOf(es) == Records()
    {
      es := employees;
    }

    /** `Create`: null is refused; otherwise the entity receives identity
        max + 1 (1 when empty) and is appended at the end. */
    method Create(entity: Employee?) returns (r: Outcome)
      requires Valid()
      modifies this, entity
      ensures entity == null ==> r == Fail(ArgumentNull("entity")) && employees == old(employees)
      ensures entity != null ==> r == Pass && employees == old(employees) + [entity]
      ensures entity != null ==> entity.Value() == old(entity.Value()).(id := NextId(old(Records())))
      ensures entity != null && entity !in old(employees) ==>
                Records() == old(Records()) + [entity.Value()]
      ensures entity != null && entity !in old(employees) && MaxId(old(Records())) < Int32Max ==>
                Valid() && FindIndex(Records(), entity.id) == Some(|old(employees)|)
                && forall k :: 0 <= k < |old(employees)| ==> old(Records())[k].id < entity.id
    {
      if entity == null {
        return Fail(ArgumentNull("entity"));
      }
      ghost var before := Records();
      entity.id := NextId(Records());
      employees := employees + [entity];
      r := Pass;
      if entity !in old(employees) {
        assert Records() == before + [entity.Value()];
        if MaxId(before) < Int32Max {
          NextIdIsFresh(before);
          AppendFreshKeepsIds(before, entity.Value());
        }
      }
    }

    /** `Update`: null is refused; otherwise the stored employee with the
        entity's identity, if any, takes the entity's first and last name. */
    method Update(entity: Employee?) returns (r: Outcome)
      requires Valid()
      modifies employees
      ensures employees == old(employees)
      ensures entity == null ==> r == Fail(ArgumentNull("entity")) && Records() == old(Records())
      ensures entity != null ==> r == Pass && Records() == CopyNames(old(Records()), old(entity.Value()))
      ensures Valid()
    {
      if entity == null {
        return Fail(ArgumentNull("entity"));
      }
      ghost var before := Records();
      ghost var source := entity.Value();
      var existing := GetById(entity.id);
      if existing != null {
        ghost var k := FindIndex(before, source.id).value;
        forall j | 0 <= j < |employees| && j != k
          ensures employees[j] != existing
        {
          assert before[j].id != before[k].id;
        }
        existing.firstName := entity.firstName;
        existing.lastName := entity.lastName;
        ghost var after := before[k := before[k].(firstName := source.firstName, lastName := source.lastName)];
        assert forall j :: 0 <= j < |employees| ==> employees[j].Value() == after[j];
        assert Records() == after;
      }
      r := Pass;
    }

    /** `Delete`: null is refused; otherwise the first occurrence of that
        very object is removed, and a missing object changes nothing. */
    method Delete(entity: Employee?) returns (r: Outcome)
      requires Valid()
      modifies this
      ensures entity == null ==> r == Fail(ArgumentNull("entity")) && employees == old(employees)
      ensures entity != null ==> r == Pass && employees == RemoveFirst(old(employees), entity)
      ensures entity != null && entity in old(employees) ==> !HasId(Records(), entity.id)
      ensures Valid()
    {
      if entity == null {
        return Fail(ArgumentNull("entity"));
      }
      var i := 0;
      while i < |employees| && employees[i] != entity
        invariant 0 <= i <= |employees|
        invariant forall j :: 0 <= j < i ==> employees[j] != entity
      {
        i := i + 1;
      }
      if i < |employees| {
        ghost var before := Records();
        assert IndexOf(employees, entity) == i;
        employees := employees[..i] + employees[i + 1..];
        assert Records() == before[..i] + before[i + 1..];
        RemoveAtKeepsIds(before, i);
      } else {
        assert entity !in employees;
      }
      r := Pass;
    }
  }
}
