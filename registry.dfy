/**
  The registry of defined types: a dictionary from names to entities that
  only ever grows.  A definition is refused when its name is taken or when a
  struct or union names a member that is not defined; a refusal leaves the
  dictionary as it was.
 */
module Registry {
  import opened Layout
  import opened DataTypes
  import opened Wrappers


  /** Why a definition or a description was refused. */
  datatype Error = AlreadyDefined(name: string) | Undefined(name: string)

  datatype Outcome = Defined | Refused(error: Error)

  datatype Result<T> = Ok(value: T) | Err(error: Error)

  /** Size and wasted bytes of one layout mode. */
  datatype Block = Block(size: nat, wasted: int)

  /** What describing a type shows. */
  datatype Report =
    | AtomicReport(name: string, size: nat, alignment: nat)
    | StructReport(name: string, unpacked: Block, packed: Block, optimized: Block)
    | UnionReport(name: string, unpacked: Block, packed: Block, optimized: Block)

  /** The first of `names`, in order, that `m` does not define. */
  function FirstUndefined(names: seq<string>, m: map<string, DataType>): (r: Option<string>)
    ensures r.None? <==> forall i :: 0 <= i < |names| ==> names[i] in m
    ensures r.Some? ==> exists i :: 0 <= i < |names| && names[i] == r.value && r.value !in m
                                    && forall j :: 0 <= j < i ==> names[j] in m
  {
    if |names| == 0 then None
    else if names[0] !in m then Some(names[0])
    else
      var r := FirstUndefined(names[1..], m);
      assert r.Some? ==> exists i :: 1 <= i < |names| && names[i] == r.value
                                     && forall j :: 0 <= j < i ==> names[j] in m by {
        if r.Some? {
          var k :| 0 <= k < |names[1..]| && names[1..][k] == r.value
                   && forall j :: 0 <= j < k ==> names[1..][j] in m;
          assert names[k + 1] == r.value;
          assert forall j :: 1 <= j < k + 1 ==> names[j] == names[1..][j - 1];
        }
      }
      r
  }

  /** The entities `names` refer to, in order. */
  function Resolve(names: seq<string>, m: map<string, DataType>): (ts: seq<DataType>)
    requires forall i :: 0 <= i < |names| ==> names[i] in m
    ensures |ts| == |names|
    ensures forall i :: 0 <= i < |names| ==> ts[i] == m[names[i]]
  {
    seq(|names|, i requires 0 <= i < |names| => m[names[i]])
  }

  /** Every member of an aggregate is registered, under its own name. */
  predicate MembersRegistered(t: DataType, m: map<string, DataType>) {
    !t.Atomic? ==> forall i :: 0 <= i < |t.types| ==> t.types[i].name in m && m[t.types[i].name] == t.types[i]
  }

  /** Each entry is stored under its own name, carries the metrics its
      members determine, and refers only to registered members. */
  ghost predicate ValidMap(m: map<string, DataType>) {
    forall n :: n in m ==> m[n].name == n && WellFormed(m[n]) && MembersRegistered(m[n], m)
  }

  /** The report of an entity: its own metrics, with the packed waste worked
      out from the member sizes and no packed or optimized waste for a union. */
  function ReportOf(t: DataType): (r: Report)
    requires WellFormed(t)
    ensures r.name == t.name
    ensures t.Atomic? <==> r.AtomicReport?
    ensures t.Struct? <==> r.StructReport?
    ensures t.Atomic? ==> r == AtomicReport(t.name, t.size, t.alignment)
    ensures r.StructReport? ==>
      && r.packed == Block(SumSizes(Views(t.types)), 0)
      && r.unpacked.size % t.alignment == 0 && r.optimized.size % t.alignment == 0
      && r.unpacked.wasted == r.unpacked.size - r.packed.size >= 0
      && r.optimized.wasted == r.optimized.size - r.packed.size >= 0
    ensures r.UnionReport? ==>
      && r.unpacked.size == r.packed.size == r.optimized.size
      && r.unpacked.size % t.alignment == 0
      && 0 <= r.unpacked.wasted < t.alignment
      && r.packed.wasted == 0 && r.optimized.wasted == 0
  {
    match t
    case Atomic(name, size, alignment) => AtomicReport(name, size, alignment)
    case Struct(name, ts, _, sizeUnpacked, wastedUnpacked, sizePacked, sizeOptimized, wastedOptimized) =>
      StructReport(name, Block(sizeUnpacked, wastedUnpacked),
                   Block(sizePacked, sizePacked - SumSizes(Views(ts))),
                   Block(sizeOptimized, wastedOptimized))
    case Union(name, _, _, sizeUnpacked, wastedUnpacked, sizePacked, sizeOptimized) =>
      UnionReport(name, Block(sizeUnpacked, wastedUnpacked), Block(sizePacked, 0), Block(sizeOptimized, 0))
  }

  class DataTypeManager {
    var dataTypes: map<string, DataType>

    /** Each entry is stored under its own name, carries the metrics its
        members determine, and refers only to registered members. */
    ghost predicate Valid()
      reads this
    {
      ValidMap(dataTypes)
    }

    constructor()
      ensures Valid()
      ensures dataTypes == map[]
    {
      dataTypes := map[];
    }

    /** Registers an atomic type unless its name is taken. */
    method DefineAtomic(name: string, size: nat, alignment: nat) returns (outcome: Outcome)
      requires Valid()
      modifies this
      ensures Valid()
      ensures name in old(dataTypes) ==> outcome == Refused(AlreadyDefined(name)) && dataTypes == old(dataTypes)
      ensures name !in old(dataTypes) ==>
        outcome == Defined && dataTypes == old(dataTypes)[name := Atomic(name, size, alignment)]
    {
      if name in dataTypes {
        return Refused(AlreadyDefined(name));
      }
      AddPreservesValid(dataTypes, name, Atomic(name, size, alignment));
      dataTypes := dataTypes[name := Atomic(name, size, alignment)];
      outcome := Defined;
    }

    /** Scans the member names in order for one that is not defined. */
    method CheckDefined(names: seq<string>) returns (missing: Option<string>)
      ensures missing == FirstUndefined(names, dataTypes)
    {
      var i := 0;
      while i < |names|
        invariant 0 <= i <= |names|
        invariant FirstUndefined(names, dataTypes) == FirstUndefined(names[i..], dataTypes)
      {
        if names[i] !in dataTypes {
          return Some(names[i]);
        }
        assert names[i..][1..] == names[i + 1..];
        i := i + 1;
      }
      return None;
    }

    /** Registers a struct over the named members unless its name is taken or
        a member is not defined. */
    method DefineStruct(name: string, names: seq<string>) returns (outcome: Outcome)
      requires Valid()
      requires name !in dataTypes && (forall i :: 0 <= i < |names| ==> names[i] in dataTypes) ==>
        |names| > 0 && forall i :: 0 <= i < |names| ==> dataTypes[names[i]].alignment > 0
      modifies this
      ensures Valid()
      ensures name in old(dataTypes) ==> outcome == Refused(AlreadyDefined(name)) && dataTypes == old(dataTypes)
      ensures name !in old(dataTypes) && FirstUndefined(names, old(dataTypes)).Some? ==>
        && outcome == Refused(Undefined(FirstUndefined(names, old(dataTypes)).value))
        && dataTypes == old(dataTypes)
      ensures name !in old(dataTypes) && FirstUndefined(names, old(dataTypes)).None? ==>
        && outcome == Defined
        && dataTypes == old(dataTypes)[name := StructOf(name, Resolve(names, old(dataTypes)))]
    {
      if name in dataTypes {
        return Refused(AlreadyDefined(name));
      }
      var missing := CheckDefined(names);
      if missing.Some? {
        return Refused(Undefined(missing.value));
      }
      var ts := Resolve(names, dataTypes);
      var t := NewStruct(name, ts);
      ResolvedRegistered(dataTypes, names, name, t);
      AddPreservesValid(dataTypes, name, t);
      dataTypes := dataTypes[name := t];
      outcome := Defined;
    }

    /** Registers a union over the named members unless its name is taken or
        a member is not defined. */
    method DefineUnion(name: string, names: seq<string>) returns (outcome: Outcome)
      requires Valid()
      requires name !in dataTypes && (forall i :: 0 <= i < |names| ==> names[i] in dataTypes) ==>
        |names| > 0 && exists i :: 0 <= i < |names| && dataTypes[names[i]].alignment > 0
      modifies this
      ensures Valid()
      ensures name in old(dataTypes) ==> outcome == Refused(AlreadyDefined(name)) && dataTypes == old(dataTypes)
      ensures name !in old(dataTypes) && FirstUndefined(names, old(dataTypes)).Some? ==>
        && outcome == Refused(Undefined(FirstUndefined(names, old(dataTypes)).value))
        && dataTypes == old(dataTypes)
      ensures name !in old(dataTypes) && FirstUndefined(names, old(dataTypes)).None? ==>
        && outcome == Defined
        && dataTypes == old(dataTypes)[name := UnionOf(name, Resolve(names, old(dataTypes)))]
    {
      if name in dataTypes {
        return Refused(AlreadyDefined(name));
      }
      var missing := CheckDefined(names);
      if missing.Some? {
        return Refused(Undefined(missing.value));
      }
      var ts := Resolve(names, dataTypes);
      assert UnionComposable(ts) by {
        var k :| 0 <= k < |names| && dataTypes[names[k]].alignment > 0;
        assert ts[k].alignment > 0;
      }
      var t := UnionOf(name, ts);
      ResolvedRegistered(dataTypes, names, name, t);
      AddPreservesValid(dataTypes, name, t);
      dataTypes := dataTypes[name := t];
      outcome := Defined;
    }

    /** Looks a type up and reports it; an unknown name is an error. */
    function Describe(name: string): (r: Result<Report>)
      requires Valid()
      reads this
      ensures r.Err? <==> name !in dataTypes
      ensures r.Err? ==> r.error == Undefined(name)
      ensures r.Ok? ==> r.value.name == name
      ensures r.Ok? ==> (r.value.AtomicReport? <==> dataTypes[name].Atomic?)
      ensures r.Ok? ==> (r.value.StructReport? <==> dataTypes[name].Struct?)
    {
      if name !in dataTypes then Err(Undefined(name)) else Ok(ReportOf(dataTypes[name]))
    }
  }

  /** Adding a well-formed entry under a fresh name, whose own members are
      registered, keeps the registry invariant. */
  lemma AddPreservesValid(m: map<string, DataType>, name: string, t: DataType)
    requires ValidMap(m) && name !in m
    requires t.name == name && WellFormed(t) && MembersRegistered(t, m[name := t])
    ensures ValidMap(m[name := t])
  {
    var m' := m[name := t];
    forall n | n in m'
      ensures m'[n].name == n && WellFormed(m'[n]) && MembersRegistered(m'[n], m')
    {
      if n != name {
        assert m'[n] == m[n];
      }
    }
  }

  /** An aggregate over resolved, registered members has well-formed
      members, which stay registered once the aggregate itself is added. */
  lemma ResolvedRegistered(m: map<string, DataType>, names: seq<string>, name: string, t: DataType)
    requires name !in m && ValidMap(m)
    requires forall i :: 0 <= i < |names| ==> names[i] in m
    requires !t.Atomic? && t.types == Resolve(names, m)
    ensures forall i :: 0 <= i < |t.types| ==> WellFormed(t.types[i])
    ensures MembersRegistered(t, m[name := t])
  {
    forall i | 0 <= i < |t.types|
      ensures WellFormed(t.types[i])
      ensures t.types[i].name in m[name := t] && m[name := t][t.types[i].name] == t.types[i]
    {
      assert t.types[i] == m[names[i]];
    }
  }

  /** A fresh registry holding the atomic types char, int and double. */
  method AtomsSession() returns (manager: DataTypeManager)
    ensures fresh(manager) && manager.Valid()
    ensures manager.dataTypes == map["char" := Char, "int" := Int, "double" := Double]
  {
    manager := new DataTypeManager();
    var o1 := manager.DefineAtomic("char", 1, 1);
    var o2 := manager.DefineAtomic("int", 4, 4);
    var o3 := manager.DefineAtomic("double", 8, 8);
  }

  /** The names char, int and double resolve, in order, to the three atomic
      types the registry holds. */
  lemma AtomsResolve(m: map<string, DataType>, names: seq<string>)
    requires m == map["char" := Char, "int" := Int, "double" := Double]
    requires names == ["char", "int", "double"]
    ensures forall i :: 0 <= i < |names| ==> names[i] in m
    ensures Resolve(names, m) == [Char, Int, Double]
    ensures Composable(Resolve(names, m))
  {
    assert names[0] in m && names[1] in m && names[2] in m;
  }

  /** The report of the struct [char, int, double]. */
  lemma CharIntDoubleReport(name: string, c: DataType, i: DataType, d: DataType)
    requires c == Char && i == Int && d == Double
    ensures WellFormed(StructOf(name, [c, i, d]))
    ensures ReportOf(StructOf(name, [c, i, d])) ==
      StructReport(name, Block(16, 3), Block(13, 0), Block(16, 3))
  {
    CharIntDoubleStruct(name, c, i, d);
    AtomicStructWellFormed(name, [c, i, d]);
    StructReportFields(StructOf(name, [c, i, d]));
  }

  /** A struct over atomic members is well formed. */
  lemma AtomicStructWellFormed(name: string, ts: seq<DataType>)
    requires Composable(ts) && forall i :: 0 <= i < |ts| ==> ts[i].Atomic?
    ensures WellFormed(StructOf(name, ts))
  {
  }

  /** A struct's report shows its cached metrics, with no packed waste. */
  lemma StructReportFields(t: DataType)
    requires WellFormed(t) && t.Struct?
    ensures ReportOf(t) == StructReport(t.name, Block(t.sizeUnpacked, t.wastedUnpacked),
                                        Block(t.sizePacked, 0), Block(t.sizeOptimized, t.wastedOptimized))
  {
    PackedWasteIsZero(t);
  }

  /** Defines a struct over registered members and describes it: the report
      is the one of the struct its resolved members determine. */
  method DefineAndDescribe(manager: DataTypeManager, name: string, names: seq<string>)
    returns (described: Result<Report>)
    requires manager.Valid() && name !in manager.dataTypes
    requires forall i :: 0 <= i < |names| ==> names[i] in manager.dataTypes
    requires Composable(Resolve(names, manager.dataTypes))
    modifies manager
    ensures manager.Valid()
    ensures WellFormed(StructOf(name, Resolve(names, old(manager.dataTypes))))
    ensures described == Ok(ReportOf(StructOf(name, Resolve(names, old(manager.dataTypes)))))
  {
    var outcome := manager.DefineStruct(name, names);
    ResolvedRegistered(old(manager.dataTypes), names, name, StructOf(name, Resolve(names, old(manager.dataTypes))));
    described := manager.Describe(name);
  }

  /** A session: three atomic types, a struct over them, then its
      description. */
  method SeedSession() returns (described: Result<Report>)
    ensures described == Ok(StructReport("S", Block(16, 3), Block(13, 0), Block(16, 3)))
  {
    var manager := AtomsSession();
    var names := ["char", "int", "double"];
    AtomsResolve(manager.dataTypes, names);
    described := DefineAndDescribe(manager, "S", names);
    CharIntDoubleReport("S", Char, Int, Double);
  }

  /** A struct naming a member nobody defined is refused, and so is a second
      definition of a name; neither changes the registry. */
  method RefusalSession() returns (undefined: Outcome, duplicate: Outcome, size: nat)
    ensures undefined == Refused(Undefined("float"))
    ensures duplicate == Refused(AlreadyDefined("char"))
    ensures size == 1
  {
    var manager := new DataTypeManager();
    var o1 := manager.DefineAtomic("char", 1, 1);
    undefined := manager.DefineStruct("T", ["char", "float"]);
    duplicate := manager.DefineAtomic("char", 2, 2);
    size := |manager.dataTypes|;
  }
}
