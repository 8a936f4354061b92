/**
 * The registry of via descriptors of a routing board (package board.infos):
 * an ordered list of via infos in which no two share a name.
 */
module BoardInfos {
  import opened Wrappers

  /**
   * A via info: a name, plus the padstack (by name), the clearance class and the
   * attach-to-SMD flag it consists of. The registry inspects only the name and
   * compares whole elements for equality.
   */
  datatype ViaInfo = ViaInfo(name: string, padstack: string, clearanceClass: int, attachSmdAllowed: bool)

  /** Some element of vias carries the name. */
  ghost predicate HasName(vias: seq<ViaInfo>, name: string) {
    exists i :: 0 <= i < |vias| && vias[i].name == name
  }

  /** The registry invariant: no two elements share a name. */
  ghost predicate UniqueNames(vias: seq<ViaInfo>) {
    forall i, j :: 0 <= i < j < |vias| ==> vias[i].name != vias[j].name
  }

  /** Position i holds the first element of vias that carries the name. */
  ghost predicate IsFirstNamed(vias: seq<ViaInfo>, name: string, i: int) {
    && 0 <= i < |vias|
    && vias[i].name == name
    && forall j :: 0 <= j < i ==> vias[j].name != name
  }

  /** Lookup by name: the first element carrying the name, or None. */
  function FirstNamed(vias: seq<ViaInfo>, name: string): (r: Option<ViaInfo>)
    ensures r.None? <==> !HasName(vias, name)
    ensures r.Some? ==> exists i :: IsFirstNamed(vias, name, i) && vias[i] == r.value
  {
    if vias == [] then None
    else if vias[0].name == name then
      assert IsFirstNamed(vias, name, 0);
      Some(vias[0])
    else
      var r := FirstNamed(vias[1..], name);
      FirstNamedShift(vias, name, r);
      r
  }

  /** The step of FirstNamed that skips a head not carrying the name. */
  lemma FirstNamedShift(vias: seq<ViaInfo>, name: string, r: Option<ViaInfo>)
    requires vias != [] && vias[0].name != name
    requires r.None? <==> !HasName(vias[1..], name)
    requires r.Some? ==> exists i :: IsFirstNamed(vias[1..], name, i) && vias[1..][i] == r.value
    ensures r.None? <==> !HasName(vias, name)
    ensures r.Some? ==> exists i :: IsFirstNamed(vias, name, i) && vias[i] == r.value
  {
    if HasName(vias, name) {
      var i :| 0 <= i < |vias| && vias[i].name == name;
      assert vias[1..][i - 1].name == name;
    }
    if r.Some? {
      var i :| IsFirstNamed(vias[1..], name, i) && vias[1..][i] == r.value;
      assert IsFirstNamed(vias, name, i + 1);
    }
  }

  /** The position of the first element equal to x. */
  function FirstIndexOf(vias: seq<ViaInfo>, x: ViaInfo): (k: nat)
    requires x in vias
    ensures k < |vias| && vias[k] == x && x !in vias[..k]
  {
    if vias[0] == x then 0
    else
      var k := FirstIndexOf(vias[1..], x);
      assert vias[..k + 1] == [vias[0]] + vias[1..][..k];
      k + 1
  }

  /**
   * The list after an add of v: unchanged when the name is taken, otherwise
   * v appended at the end.
   */
  ghost function Added(vias: seq<ViaInfo>, v: ViaInfo): (r: seq<ViaInfo>)
    ensures vias <= r
    ensures |r| == |vias| + (if HasName(vias, v.name) then 0 else 1)
    ensures HasName(r, v.name)
    ensures !HasName(vias, v.name) ==> r[|vias|] == v
    ensures UniqueNames(vias) ==> UniqueNames(r)
  {
    if HasName(vias, v.name) then vias
    else
      assert (vias + [v])[|vias|].name == v.name;
      vias + [v]
  }

  /** The list after removing x: its first occurrence deleted, if it has one. */
  function Removed(vias: seq<ViaInfo>, x: ViaInfo): (r: seq<ViaInfo>)
    ensures x !in vias ==> r == vias
    ensures x in vias ==> exists k :: 0 <= k < |vias| && vias[k] == x && x !in vias[..k] && r == vias[..k] + vias[k + 1..]
    ensures x in vias ==> |r| == |vias| - 1
    ensures multiset(r) == multiset(vias) - multiset{x}
    ensures UniqueNames(vias) ==> UniqueNames(r)
  {
    if x in vias then
      var k := FirstIndexOf(vias, x);
      DeletionCounts(vias, k);
      DeletionKeepsUnique(vias, k);
      vias[..k] + vias[k + 1..]
    else vias
  }

  /** Deleting position k removes exactly one copy of vias[k]. */
  lemma DeletionCounts(vias: seq<ViaInfo>, k: nat)
    requires k < |vias|
    ensures multiset(vias[..k] + vias[k + 1..]) == multiset(vias) - multiset{vias[k]}
  {
    assert vias == vias[..k] + [vias[k]] + vias[k + 1..];
  }

  /** Deleting a position of a list with unique names leaves the names unique. */
  lemma DeletionKeepsUnique(vias: seq<ViaInfo>, k: nat)
    requires k < |vias|
    ensures UniqueNames(vias) ==> UniqueNames(vias[..k] + vias[k + 1..])
  {
    if UniqueNames(vias) {
      var r := vias[..k] + vias[k + 1..];
      forall i, j | 0 <= i < j < |r| ensures r[i].name != r[j].name {
        var i', j' := if i < k then i else i + 1, if j < k then j else j + 1;
        assert r[i] == vias[i'] && r[j] == vias[j'];
      }
    }
  }

  /** After a successful add, lookup by the new name finds the new element. */
  lemma {:induction false} AddedIsFound(vias: seq<ViaInfo>, v: ViaInfo)
    requires !HasName(vias, v.name)
    ensures FirstNamed(Added(vias, v), v.name) == Some(v)
  {
    var r := vias + [v];
    assert r[|vias|].name == v.name;
    assert forall j :: 0 <= j < |vias| ==> r[j] == vias[j] && r[j].name != v.name;
    var i :| IsFirstNamed(r, v.name, i) && r[i] == FirstNamed(r, v.name).value;
    assert IsFirstNamed(r, v.name, i);
    assert i == |vias|;
  }

  /** In a list with unique names, lookup by an element's name finds that element. */
  lemma FoundInUnique(vias: seq<ViaInfo>, i: nat)
    requires UniqueNames(vias) && i < |vias|
    ensures FirstNamed(vias, vias[i].name) == Some(vias[i])
  {
    var name := vias[i].name;
    assert forall j :: 0 <= j < |vias| && j != i ==> vias[j].name != name;
    var k :| IsFirstNamed(vias, name, k) && vias[k] == FirstNamed(vias, name).value;
    assert IsFirstNamed(vias, name, k);
    assert k == i;
  }

  /**
   * Removing an element of a list with unique names leaves no element with its
   * name, so lookup by that name finds nothing.
   */
  lemma RemovedNameGone(vias: seq<ViaInfo>, x: ViaInfo)
    requires UniqueNames(vias) && x in vias
    ensures !HasName(Removed(vias, x), x.name)
    ensures FirstNamed(Removed(vias, x), x.name) == None
  {
    var k := FirstIndexOf(vias, x);
    var r := Removed(vias, x);
    assert r == vias[..k] + vias[k + 1..];
    forall i | 0 <= i < |r| ensures r[i].name != x.name {
      assert r[i] == vias[if i < k then i else i + 1];
    }
  }

  /** The via infos usable for routing, in insertion order, with unique names. */
  class BrdViaInfoList {
    var vinfoList: seq<ViaInfo>

    ghost predicate Valid()
      reads this
    {
      UniqueNames(vinfoList)
    }

    constructor ()
      ensures Valid() && vinfoList == []
    {
      vinfoList := [];
    }

    /** Appends v unless its name is taken; reports whether it was appended. */
    method Add(v: ViaInfo) returns (ok: bool)
      requires Valid()
      modifies this
      ensures Valid()
      ensures ok <==> !HasName(old(vinfoList), v.name)
      ensures vinfoList == Added(old(vinfoList), v)
    {
      var taken := NameExists(v.name);
      if taken {
        return false;
      }
      vinfoList := vinfoList + [v];
      return true;
    }

    /** The elements, for iteration, in insertion order. */
    method Iterator() returns (s: seq<ViaInfo>)
      ensures s == vinfoList
    {
      s := vinfoList;
    }

    /** The number of via infos. */
    method Count() returns (n: int)
      ensures n == |vinfoList|
    {
      n := |vinfoList|;
    }

    /** The element at position no; the position must be in range. */
    method Get(no: int) returns (v: ViaInfo)
      requires 0 <= no < |vinfoList|
      ensures v == vinfoList[no]
    {
      v := vinfoList[no];
    }

    /** Scans for the first element carrying the name; None when there is none. */
    method GetByName(name: string) returns (r: Option<ViaInfo>)
      ensures r == FirstNamed(vinfoList, name)
      ensures r.Some? ==> r.value in vinfoList && r.value.name == name
    {
      var i := 0;
      while i < |vinfoList|
        invariant 0 <= i <= |vinfoList|
        invariant FirstNamed(vinfoList[i..], name) == FirstNamed(vinfoList, name)
      {
        if vinfoList[i].name == name {
          return Some(vinfoList[i]);
        }
        assert vinfoList[i..][1..] == vinfoList[i + 1..];
        i := i + 1;
      }
      return None;
    }

    /** Scans for an element carrying the name. */
    method NameExists(name: string) returns (b: bool)
      ensures b <==> HasName(vinfoList, name)
      ensures b <==> FirstNamed(vinfoList, name).Some?
    {
      var i := 0;
      while i < |vinfoList|
        invariant 0 <= i <= |vinfoList|
        invariant forall j :: 0 <= j < i ==> vinfoList[j].name != name
      {
        if vinfoList[i].name == name {
          return true;
        }
        i := i + 1;
      }
      return false;
    }

    /** Deletes the first element equal to x; reports whether there was one. */
    method Remove(x: ViaInfo) returns (ok: bool)
      requires Valid()
      modifies this
      ensures Valid()
      ensures ok <==> x in old(vinfoList)
      ensures vinfoList == Removed(old(vinfoList), x)
    {
      ok := x in vinfoList;
      vinfoList := Removed(vinfoList, x);
    }
  }

  /** A registry in use: a duplicate name is refused, a fresh one appended. */
  method RegistryScenario()
  {
    var vias := new BrdViaInfoList();
    var a := ViaInfo("v1", "pad_a", 0, false);
    var b := ViaInfo("v1", "pad_b", 1, true);
    var c := ViaInfo("v2", "pad_c", 0, false);
    var ok := vias.Add(a);
    assert ok;
    ok := vias.Add(b);
    assert vias.vinfoList[0].name == "v1";
    assert !ok;
    var n := vias.Count();
    assert n == 1;
    ok := vias.Add(c);
    assert vias.vinfoList == [a, c];
    n := vias.Count();
    assert n == 2;
    var second := vias.Get(1);
    assert second.name == "v2";
  }
}
