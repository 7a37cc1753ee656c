/** A machine team (TCMachineTeamInfo): one fault-domain combination made of
    machines, identified by the sorted list of their machine ids. */
module MachineTeam {
  import opened Bytes
  import opened Text

  type MachineId = seq<byte>

  /** What a team needs of a machine record (TCMachineInfo): its machine id. */
  datatype Machine = Machine(machineID: MachineId)

  /** f applied to each element of s, in order. */
  function MapSeq<A, B>(f: A -> B, s: seq<A>): (r: seq<B>)
    ensures |r| == |s|
  {
    if s == [] then [] else [f(s[0])] + MapSeq(f, s[1..])
  }

  lemma {:induction false} MapSeqIndex<A, B>(f: A -> B, s: seq<A>)
    ensures forall i :: 0 <= i < |s| ==> MapSeq(f, s)[i] == f(s[i])
  {
    if s != [] {
      MapSeqIndex(f, s[1..]);
      forall i | 0 <= i < |s| ensures MapSeq(f, s)[i] == f(s[i]) {
        if i > 0 {
          assert MapSeq(f, s)[i] == MapSeq(f, s[1..])[i - 1];
        }
      }
    }
  }

  function MachineIdOf(m: Machine): MachineId
  {
    m.machineID
  }

  /** The machine ids of a list of machines, in list order. */
  function IdsOf(machines: seq<Machine>): (r: seq<MachineId>)
    ensures |r| == |machines|
    ensures forall i :: 0 <= i < |machines| ==> r[i] == machines[i].machineID
  {
    MapSeqIndex(MachineIdOf, machines);
    MapSeq(MachineIdOf, machines)
  }

  predicate Sorted(s: seq<MachineId>)
  {
    forall i, j :: 0 <= i < j < |s| ==> LessEq(s[i], s[j])
  }

  lemma LessEqTransitive(a: MachineId, b: MachineId, c: MachineId)
    requires LessEq(a, b) && LessEq(b, c)
    ensures LessEq(a, c)
  {
    if a != b && b != c {
      LessTransitive(a, b, c);
    }
  }

  lemma LessEqAntisymmetric(a: MachineId, b: MachineId)
    requires LessEq(a, b) && LessEq(b, a)
    ensures a == b
  {
    LessTrichotomy(a, b);
  }

  /** Inserts x before the first element it does not exceed. */
  function Insert(x: MachineId, s: seq<MachineId>): (r: seq<MachineId>)
    requires Sorted(s)
    ensures Sorted(r)
    ensures |r| == |s| + 1
    ensures multiset(r) == multiset(s) + multiset{x}
  {
    if s == [] then [x]
    else if LessEq(x, s[0]) then
      assert forall j :: 0 <= j < |s| ==> LessEq(x, s[j]) by {
        forall j | 0 <= j < |s| ensures LessEq(x, s[j]) {
          if j > 0 { LessEqTransitive(x, s[0], s[j]); }
        }
      }
      [x] + s
    else
      var t := Insert(x, s[1..]);
      assert s == [s[0]] + s[1..];
      LessTrichotomy(x, s[0]);
      assert forall j :: 0 <= j < |t| ==> LessEq(s[0], t[j]) by {
        forall j | 0 <= j < |t| ensures LessEq(s[0], t[j]) {
          assert t[j] in multiset(t);
          if t[j] != x {
            assert t[j] in multiset(s[1..]);
            var k :| 0 <= k < |s[1..]| && s[1..][k] == t[j];
            assert s[k + 1] == t[j];
          }
        }
      }
      [s[0]] + t
  }

  /** std::sort over machine ids, as an insertion sort. */
  function Sort(s: seq<MachineId>): (r: seq<MachineId>)
    ensures Sorted(r)
    ensures |r| == |s|
    ensures multiset(r) == multiset(s)
  {
    if s == [] then []
    else
      assert s == [s[0]] + s[1..];
      Insert(s[0], Sort(s[1..]))
  }

  lemma MultisetDropFirst<T>(s: seq<T>)
    requires s != []
    ensures multiset(s[1..]) == multiset(s) - multiset{s[0]}
  {
    assert s == [s[0]] + s[1..];
  }

  /** The first element of a sorted list does not exceed any element of it. */
  lemma SortedHead(s: seq<MachineId>, x: MachineId)
    requires Sorted(s) && x in multiset(s)
    ensures LessEq(s[0], x)
  {
    var j :| 0 <= j < |s| && s[j] == x;
    if j > 0 {
      assert LessEq(s[0], s[j]);
    }
  }

  /** A sorted list is determined by its multiset of elements. */
  lemma {:induction false} SortedUnique(a: seq<MachineId>, b: seq<MachineId>)
    requires Sorted(a) && Sorted(b)
    requires multiset(a) == multiset(b)
    ensures a == b
  {
    if a == [] {
      assert |b| == |multiset(b)| == 0;
    } else {
      assert a[0] in multiset(a);
      assert b != [];
      assert b[0] in multiset(b);
      SortedHead(b, a[0]);
      SortedHead(a, b[0]);
      LessEqAntisymmetric(a[0], b[0]);
      MultisetDropFirst(a);
      MultisetDropFirst(b);
      assert Sorted(a[1..]) && Sorted(b[1..]);
      SortedUnique(a[1..], b[1..]);
      assert a == [a[0]] + a[1..] && b == [b[0]] + b[1..];
    }
  }

  /** Each id followed by one space (the stringstream loop). */
  function SpaceTerminated(ids: seq<MachineId>): string
  {
    if ids == [] then "" else BytesToString(ids[0]) + " " + SpaceTerminated(ids[1..])
  }

  function TotalLength(ids: seq<MachineId>): nat
  {
    if ids == [] then 0 else |ids[0]| + 1 + TotalLength(ids[1..])
  }

  /** The rendering has one character per id byte plus one space per id, and
      ends in a space whenever there is an id. */
  lemma {:induction false} SpaceTerminatedShape(ids: seq<MachineId>)
    ensures |SpaceTerminated(ids)| == TotalLength(ids)
    ensures ids != [] ==> SpaceTerminated(ids)[|SpaceTerminated(ids)| - 1] == ' '
  {
    if ids != [] {
      SpaceTerminatedShape(ids[1..]);
    }
  }

  const Unset: string := "[unset]"

  class TCMachineTeamInfo {
    const machines: seq<Machine>
    const id: Uid
    const machineIDs: seq<MachineId>

    /** The state the constructor establishes and nothing later changes. */
    ghost predicate Valid()
    {
      && |machineIDs| == |machines|
      && Sorted(machineIDs)
      && multiset(machineIDs) == multiset(IdsOf(machines))
    }

    /** Copies each machine's id in order, then sorts them; `id` is the
        caller-supplied random unique id (randomUniqueID). Duplicates are kept. */
    constructor (machines: seq<Machine>, id: Uid)
      ensures this.machines == machines && this.id == id
      ensures |machineIDs| == |machines|
      ensures Sorted(machineIDs)
      ensures multiset(machineIDs) == multiset(IdsOf(machines))
      ensures Valid()
    {
      this.machines := machines;
      this.id := id;
      var ids: seq<MachineId> := [];
      var i := 0;
      while i < |machines|
        invariant 0 <= i <= |machines|
        invariant ids == IdsOf(machines)[..i]
      {
        ids := ids + [machines[i].machineID];
        i := i + 1;
      }
      assert IdsOf(machines)[..|machines|] == IdsOf(machines);
      machineIDs := Sort(ids);
    }

    /** size(): the number of machines; the source asserts that this is also
        the number of ids. */
    function Size(): (r: nat)
      requires |machines| == |machineIDs|
      ensures r == |machines| && r == |machineIDs|
    {
      |machineIDs|
    }

    /** getMachineIDsStr(). */
    function MachineIDsStr(): (r: string)
      ensures r == Unset <==> machineIDs == []
      ensures machineIDs != [] ==> r == SpaceTerminated(machineIDs)
    {
      if machineIDs == [] then Unset
      else
        SpaceTerminatedShape(machineIDs);
        assert Unset[6] != ' ';
        SpaceTerminated(machineIDs)
    }

    /** operator==: compares the sorted ids only. */
    predicate Equals(rhs: TCMachineTeamInfo)
    {
      machineIDs == rhs.machineIDs
    }
  }

  /** Two teams are equal exactly when they were built over the same machine
      ids, counted with multiplicity, whatever the order and whatever their
      random ids. */
  lemma EqualsIffSameMachines(t1: TCMachineTeamInfo, t2: TCMachineTeamInfo)
    requires t1.Valid() && t2.Valid()
    ensures t1.Equals(t2) <==> multiset(IdsOf(t1.machines)) == multiset(IdsOf(t2.machines))
  {
    if multiset(IdsOf(t1.machines)) == multiset(IdsOf(t2.machines)) {
      SortedUnique(t1.machineIDs, t2.machineIDs);
    }
  }

  /** Teams built from the same machines in any order render the same string. */
  lemma MachineIDsStrOrderIndependent(t1: TCMachineTeamInfo, t2: TCMachineTeamInfo)
    requires t1.Valid() && t2.Valid()
    requires multiset(IdsOf(t1.machines)) == multiset(IdsOf(t2.machines))
    ensures t1.MachineIDsStr() == t2.MachineIDsStr()
  {
    SortedUnique(t1.machineIDs, t2.machineIDs);
  }

  /** Reordering the machine list does not change the multiset of their ids. */
  lemma IdsOfPermutation(a: seq<Machine>, b: seq<Machine>)
    requires multiset(a) == multiset(b)
    ensures multiset(IdsOf(a)) == multiset(IdsOf(b))
  {
    MapSeqPermutation(MachineIdOf, a, b);
  }

  /** Mapping a permutation gives a permutation. */
  lemma {:induction false} MapSeqPermutation<A, B>(f: A -> B, a: seq<A>, b: seq<A>)
    requires multiset(a) == multiset(b)
    ensures multiset(MapSeq(f, a)) == multiset(MapSeq(f, b))
  {
    if a == [] {
      assert |b| == |multiset(b)| == 0;
    } else {
      assert a[0] in multiset(b);
      var j :| 0 <= j < |b| && b[j] == a[0];
      var b' := b[..j] + b[j + 1..];
      assert multiset(a[1..]) == multiset(b') by {
        MultisetDropFirst(a);
        MultisetRemoveAt(b, j);
      }
      MapSeqPermutation(f, a[1..], b');
      MapSeqRemoveAt(f, b, j);
      assert a == [a[0]] + a[1..];
      MapSeqCons(f, a[0], a[1..]);
    }
  }

  lemma MultisetRemoveAt<T>(s: seq<T>, j: nat)
    requires j < |s|
    ensures multiset(s[..j] + s[j + 1..]) == multiset(s) - multiset{s[j]}
  {
    assert s == s[..j] + ([s[j]] + s[j + 1..]);
  }

  /** Taking out one element takes out its image. */
  lemma MapSeqRemoveAt<A, B>(f: A -> B, b: seq<A>, j: nat)
    requires j < |b|
    ensures multiset(MapSeq(f, b)) == multiset(MapSeq(f, b[..j] + b[j + 1..])) + multiset{f(b[j])}
  {
    var front, back := b[..j], b[j + 1..];
    assert b == front + ([b[j]] + back);
    MapSeqAppend(f, front, [b[j]] + back);
    MapSeqAppend(f, [b[j]], back);
    MapSeqAppend(f, front, back);
    assert MapSeq(f, [b[j]]) == [f(b[j])];
  }

  /** Mapping a concatenation concatenates the mapped parts. */
  lemma {:induction false} MapSeqAppend<A, B>(f: A -> B, x: seq<A>, y: seq<A>)
    ensures MapSeq(f, x + y) == MapSeq(f, x) + MapSeq(f, y)
  {
    if x == [] {
      assert x + y == y;
    } else {
      assert (x + y)[1..] == x[1..] + y;
      MapSeqAppend(f, x[1..], y);
    }
  }

  lemma MapSeqCons<A, B>(f: A -> B, x: A, s: seq<A>)
    ensures multiset(MapSeq(f, [x] + s)) == multiset{f(x)} + multiset(MapSeq(f, s))
  {
    assert ([x] + s)[1..] == s;
    assert MapSeq(f, [x] + s) == [f(x)] + MapSeq(f, s);
  }

  /** Teams built over any two orderings of the same machines are equal,
      render alike and have the same size. */
  lemma PermutedTeamsEqual(t1: TCMachineTeamInfo, t2: TCMachineTeamInfo)
    requires t1.Valid() && t2.Valid()
    requires multiset(t1.machines) == multiset(t2.machines)
    ensures t1.Equals(t2)
    ensures t1.MachineIDsStr() == t2.MachineIDsStr()
    ensures t1.Size() == t2.Size()
  {
    IdsOfPermutation(t1.machines, t2.machines);
    EqualsIffSameMachines(t1, t2);
  }
}
