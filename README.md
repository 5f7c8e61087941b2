# Aggregate layout simulator, Church numerals and person queries

This project models three independent pieces of logic in Dafny.

**The aggregate-type simulator** (`DataTypeManager.py`). It mimics how a compiler lays out structs and unions.
The user registers atomic types with a size and an alignment. Structs and unions are then built over registered names.
- A struct has three layouts:
  - **unpacked**: members in declared order, each placed at the next multiple of its alignment, then tail padding up to the largest alignment;
  - **packed**: the sum of the member sizes;
  - **optimized**: the unpacked walk over the members stably sorted by descending alignment.
- A union takes the largest member size, rounded up to the largest alignment.
- The registry refuses a name that is already taken. It also refuses an aggregate that names an undefined member.

The project splits this into four modules:
- `layout.dfy` (`Layout`): the padding arithmetic, the sort and the size functions. The padding loop is a method proved against them.
- `data_types.dfy` (`DataTypes`): the atomic, struct and union entities, as immutable values built once from their members.
- `registry.dfy` (`Registry`): the registry, a class whose `map` field is updated in place by the define methods.
- `wrappers.dfy` (`Wrappers`): the `Option` type.

**Church numerals** (`pregunta1bI.swift`). These are in `church.dfy` (`ChurchNumerals`): the inductive type, with addition, multiplication and printing proved against natural-number arithmetic.

**Person-set queries** (`pregunta1bII.swift`). These are in `personas.dfy` (`Personas`): the count, the filter of people of age, and the most common name. The most common name comes from a frequency fold into a `map` followed by an argmax.

Points where a compiler would behave differently from `DataTypeManager.py`, and how the model handles them:
- `define_atomic` accepts any size and alignment. No error is raised for a zero alignment, a non-power-of-two alignment or an empty aggregate. Where the code would then divide by zero or take the maximum of nothing, the model has a precondition, not an error result. A struct divides by every member alignment, so all of them must be positive. A union divides only by the largest, so one positive alignment is enough.
- The optimized size is not always at most the unpacked size. `Layout.OptimizedCanBeLarger` exhibits a case where it is larger. `Layout.OptimizedNoLargerForNatural` proves the bound when every alignment is a power of two and every size is a multiple of its alignment.
- In the code, a struct or union used as a member contributes size 0, because its `size` attribute is never set. This is a bug (see Findings). The model keeps the code's view, `DataTypes.AsWrittenViews`, and proves what it yields (`DataTypes.NestedStructAsWritten`). The struct, union and registry operations use the corrected view, which counts a nested aggregate at its natural size. The two views agree whenever every member is atomic (`DataTypes.AsWrittenAgreesOnAtomics`).

## Model

| member | source | states |
|---|---|---|
| Layout.PadTo | DataTypeManager.py:37-39 | the padded offset is a multiple of the alignment, at least the old offset and less than the old offset plus the alignment; an aligned offset is left as it is |
| Layout.SumSizes | DataTypeManager.py:29 | the packed size is at least every member's size |
| Layout.MaxAlignment | DataTypeManager.py:40 | the struct alignment bounds every member alignment and is the alignment of some member; it is 0 only for no members |
| Layout.MaxSize | DataTypeManager.py:77 | the largest size bounds every member size and is the size of some member |
| Layout.Walk | DataTypeManager.py:36-41 | the running offset after the members is at least the sum of their sizes |
| Layout.UnpackedSize | DataTypeManager.py:42-45 | the unpacked size is a multiple of the struct alignment, at least the packed size, and the tail padding is less than the alignment |
| Layout.OptimizedSize | DataTypeManager.py:50-61 | the optimized size is a multiple of the struct alignment and at least the packed size; it equals the unpacked size when the declared order is already non-increasing in alignment |
| Layout.UnionSize | DataTypeManager.py:77-83 | for a non-empty member list whose largest alignment is positive, the union size is a multiple of that alignment, at least the largest member size and less than it plus the alignment |
| Layout.UnionWithZeroAlignment | DataTypeManager.py:77-80 | members (1,0) and (4,4) form a union of 4 bytes: a member of alignment 0 is accepted |
| Layout.OffsetsAligned | DataTypeManager.py:36-41 | each member starts at a multiple of its alignment, after fewer padding bytes than its alignment, does not overlap the member before it, and ends within the unpacked size |
| Layout.WalkPrefixMonotone | DataTypeManager.py:36-41 | the running offset never decreases as members are added |
| Layout.InsertDesc | DataTypeManager.py:50 | inserting a member into the sorted prefix adds exactly one element, the inserted member |
| Layout.SortDesc | DataTypeManager.py:50 | the sort returns as many members as it is given; the lemmas below give its order and contents |
| Layout.SortDescPermutation | DataTypeManager.py:50 | the sort keeps exactly the same members with the same multiplicities |
| Layout.SortDescSorted | DataTypeManager.py:50 | the sorted members are in non-increasing alignment order |
| Layout.SortDescStable | DataTypeManager.py:50 | members of equal alignment keep their declared relative order |
| Layout.SortDescOfDescending | DataTypeManager.py:50 | a list already in non-increasing alignment order is left unchanged |
| Layout.SortDescLayable | DataTypeManager.py:50-56 | sorting keeps the alignments positive and the struct alignment the same |
| Layout.SortDescSum | DataTypeManager.py:57-61 | sorting does not change the sum of the sizes, so the optimized waste is measured against the packed size |
| Layout.OptimizedCanBeLarger | DataTypeManager.py:48-61 | members (1,2),(1,1),(2,2) take 4 bytes in declared order and 6 once sorted, so sorting can add padding |
| Layout.DescendingWalkIsPacked | DataTypeManager.py:51-57 | with power-of-two alignments in non-increasing order and sizes that are multiples of their alignment, the walk inserts no padding |
| Layout.OptimizedNoLargerForNatural | DataTypeManager.py:48-61 | with power-of-two alignments and sizes that are multiples of their alignment, the optimized size is at most the unpacked size |
| Layout.PadToMonotone | DataTypeManager.py:37-39 | padding a smaller offset never gives a larger result |
| Layout.PaddingWalk | DataTypeManager.py:34-45 | the padding loop returns the unpacked size and the struct alignment of the members it walks |
| Layout.CalculateUnpacked | DataTypeManager.py:32-46 | returns the unpacked size, the struct alignment and the waste, which is the size minus the packed size and is never negative |
| Layout.CalculateOptimized | DataTypeManager.py:48-61 | returns the optimized size and its waste, which is never negative, after walking the sorted members |
| Layout.CharIntDoubleExample | DataTypeManager.py:26-85 | char(1,1), int(4,4), double(8,8) have alignment 8, packed size 13, unpacked size 16, optimized size 16 and union size 8 |
| DataTypes.StructOf | DataTypeManager.py:16-61 | a struct's alignment is its largest member alignment; both laid-out sizes are multiples of it; packed size is the sum of member sizes; both wastes are the size minus the packed size and never negative; every member fits in the struct |
| DataTypes.UnionOf | DataTypeManager.py:66-85 | for a non-empty member list with some positive alignment, a union's alignment is its largest member alignment; its three sizes are equal and a multiple of it; its waste is below the alignment; every member fits and the largest one fills all but the waste |
| DataTypes.UnionWithZeroAlignedMember | DataTypeManager.py:75-85 | union [z(1,0), int] is accepted and has alignment 4, size 4 in every mode and no waste |
| DataTypes.InheritedSize | DataTypeManager.py:14-17 | the `size` attribute never exceeds the natural size, and equals it exactly for atomic types and aggregates of size 0 |
| DataTypes.AsWrittenViews | DataTypeManager.py:29-41 | the code's layout sees each member with its inherited size and its own alignment |
| DataTypes.AsWrittenAgreesOnAtomics | DataTypeManager.py:29-41 | over atomic members the code's view and the natural view are the same |
| DataTypes.AsWrittenHidesAggregates | DataTypeManager.py:16-17 | a nested aggregate of positive size is seen by the code as 0 bytes |
| DataTypes.NewStruct | DataTypeManager.py:24-30 | building a struct by running the unpacked walk, the packed sum and the optimized walk yields exactly the struct its members determine |
| DataTypes.PackedWasteIsZero | DataTypeManager.py:29 | the packed waste of every well-formed struct is 0 |
| Layout.CharIntDoubleOptimized | DataTypeManager.py:48-61 | sorting char, int, double by descending alignment lays them out in 16 bytes |
| DataTypes.CharIntDoubleStruct | DataTypeManager.py:16-85 | struct [char, int, double] has alignment 8, unpacked 16 with 3 wasted, packed 13, optimized 16 with 3 wasted; the union has size 8 and no waste |
| DataTypes.NestedStructAsWritten | DataTypeManager.py:17 | reading a nested struct's inherited size, struct [S1, char] is laid out in 8 bytes although S1 itself takes 16 |
| DataTypes.NestedStructCorrected | DataTypeManager.py:41 | counting the nested struct by its natural size (as `StructOf` does), struct [S1, char] takes 24 bytes |
| Registry.Resolve | DataTypeManager.py:109 | the member list holds, in order, the registered entity of each name |
| Registry.FirstUndefined | DataTypeManager.py:105-108 | no name is reported exactly when every member name is defined; a reported name is undefined and every name before it is defined |
| Registry.ReportOf | DataTypeManager.py:144-168 | an atomic report shows the type's size and alignment; a struct report has packed waste 0 and laid-out sizes that are multiples of the alignment with non-negative waste; a union report has three equal sizes, waste below the alignment and no packed or optimized waste |
| Registry.DataTypeManager.constructor | DataTypeManager.py:90-91 | a new registry is empty |
| Registry.DataTypeManager.DefineAtomic | DataTypeManager.py:93-98 | a taken name is refused and the registry is unchanged; otherwise exactly the new atomic entry is added |
| Registry.DataTypeManager.CheckDefined | DataTypeManager.py:105-108 | the scan returns the first member name that is not registered, or none |
| Registry.DataTypeManager.DefineStruct | DataTypeManager.py:100-109 | a taken name or an undefined member is refused and the registry is unchanged; otherwise exactly the struct over the resolved members is added under the new name; the registry invariant is kept |
| Registry.DataTypeManager.DefineUnion | DataTypeManager.py:111-120 | a taken name or an undefined member is refused and the registry is unchanged; otherwise exactly the union over the resolved members is added under the new name; the registry invariant is kept; members of alignment 0 are accepted as long as one alignment is positive |
| Registry.AddPreservesValid | DataTypeManager.py:98-120 | adding a well-formed entry under a fresh name, with its members registered, keeps every entry stored under its own name, well formed and referring only to registered members |
| Registry.ResolvedRegistered | DataTypeManager.py:109-120 | the members of an aggregate built from registered names are well formed and stay registered once the aggregate is added |
| Registry.DataTypeManager.Describe | DataTypeManager.py:122-136 | an unknown name is an error; a known name gets a report of its own kind |
| Registry.DefineAndDescribe | DataTypeManager.py:100-136 | defining a struct over registered members and describing it yields the report of the struct those members determine, and the registry stays valid |
| Registry.CharIntDoubleReport | DataTypeManager.py:144-155 | the report of struct [char, int, double] shows unpacked 16 with 3 wasted, packed 13 with none, optimized 16 with 3 wasted |
| Registry.SeedSession | DataTypeManager.py:93-109 | defining char, int, double and struct S over them, then describing S, reports unpacked 16/3, packed 13/0 and optimized 16/3 |
| Registry.RefusalSession | DataTypeManager.py:95-108 | a struct naming an undefined member and a second definition of a name are both refused, and the registry keeps its one entry |
| ChurchNumerals.FromNat | pregunta1bI.swift:2-5 | the numeral built for n has n successors |
| ChurchNumerals.ToNatInjective | pregunta1bI.swift:2-5 | two numerals with the same number of successors are equal |
| ChurchNumerals.FromNatToNat | pregunta1bI.swift:2-5 | converting a numeral to a number and back gives the same numeral |
| ChurchNumerals.Sumar | pregunta1bI.swift:9-16 | the sum has as many successors as both operands together |
| ChurchNumerals.SumarCeroDerecha | pregunta1bI.swift:9-16 | zero is a right unit of addition |
| ChurchNumerals.SumarSucesorDerecha | pregunta1bI.swift:9-16 | a successor on the right comes out of the sum |
| ChurchNumerals.SumarConmutativa | pregunta1bI.swift:9-16 | addition is commutative |
| ChurchNumerals.SumarAsociativa | pregunta1bI.swift:9-16 | addition is associative |
| ChurchNumerals.Multiplicar | pregunta1bI.swift:19-26 | the product has as many successors as the product of the operands' counts |
| ChurchNumerals.MultiplicarCeroDerecha | pregunta1bI.swift:19-26 | multiplying by zero on the right gives zero |
| ChurchNumerals.MultiplicarConmutativa | pregunta1bI.swift:19-26 | multiplication is commutative |
| ChurchNumerals.Imprimir | pregunta1bI.swift:40-47 | the text of a numeral with n successors has 5n + 4 characters |
| ChurchNumerals.ImprimirForma | pregunta1bI.swift:40-47 | the numeral with n successors prints as n times `Suc(`, then `Cero`, then n closing parentheses |
| ChurchNumerals.ImprimirInjective | pregunta1bI.swift:40-47 | different numerals print differently |
| ChurchNumerals.SumaEjemplo | pregunta1bI.swift:36 | two plus three is the numeral with five successors |
| ChurchNumerals.MultiplicacionEjemplo | pregunta1bI.swift:37 | two times three is the numeral with six successors |
| ChurchNumerals.ImprimirCinco | pregunta1bI.swift:49 | five prints as `Suc(Suc(Suc(Suc(Suc(Cero)))))` |
| ChurchNumerals.ImprimirSeis | pregunta1bI.swift:50 | six prints as `Suc(Suc(Suc(Suc(Suc(Suc(Cero))))))` |
| Personas.CantidadDePersonas | pregunta1bII.swift:14-16 | the number of people bounds how often any name occurs and how many people are of age |
| Personas.MayoresDeEdad | pregunta1bII.swift:20-22 | every person selected is 18 or older, and there are no more of them than people in the set |
| Personas.CantidadEsSumaDeFrecuencias | pregunta1bII.swift:14-16 | the number of people equals the sum of the name counts and bounds the number of people of age |
| Personas.MayoresDeEdadExactos | pregunta1bII.swift:20-22 | everyone selected is 18 or older, and everyone 18 or older is kept as many times as they appear |
| Personas.MayoresDeEdadSubsecuencia | pregunta1bII.swift:20-22 | the people of age keep their original order, a subsequence of the set, and are no more than the set |
| Personas.OcurrenciasPositivas | pregunta1bII.swift:27-29 | a name has a positive count exactly when somebody bears it, and no count exceeds the number of people |
| Personas.Frecuencias | pregunta1bII.swift:27-29 | the dictionary's keys are exactly the names present, and each maps to the number of people bearing it |
| Personas.FrecuenciasSuman | pregunta1bII.swift:27-29 | the counts in the dictionary add up to the number of people |
| Personas.MasFrecuente | pregunta1bII.swift:30 | the chosen candidate is one of the candidates and no candidate has a larger count |
| Personas.NombreMasComun | pregunta1bII.swift:26-31 | there is no answer exactly when the set is empty; otherwise the answer is borne by somebody and no name occurs more often |
| Personas.EjemploMayores | pregunta1bII.swift:36-51 | the sample set has 5 people and its people of age are named Ana, Ana, Pedro, Luis |
| Personas.EjemploOcurrencias | pregunta1bII.swift:36-42 | in the sample set Ana and Luis occur twice, Pedro once and any other name never |
| Personas.EjemploNombreMasComun | pregunta1bII.swift:53-56 | the sample's most common name is Ana or Luis; the two tie |

## Left out

- `sumElementMatrix.c`: not part of this model. It is floating-point summation of random values with timing and manual memory management, with no integer logic to state.
- `manejador.py`: not part of this model. It is an unfinished copy of `DataTypeManager.py` whose layout and describe bodies are empty, and whose registry code is identical.
- `DataTypeManager.run` and `process_action`: the interactive read loop and token parsing are input/output and are not modelled. `SeedSession` and `RefusalSession` stand in for a scripted session.
- The printing in `_describe_atomic`, `_describe_struct` and `_describe_union`: modelled as the `Report` value that would be printed, not as text. Error messages become `Error` values.
- The "unknown type" branch of `describe` cannot occur, because every registered entity is atomic, struct or union.
- Sizes and alignments are `nat`. The code parses them with `int()` and would accept negative numbers, which the model does not represent.
- Registry.DataTypeManager.DefineStruct: requires, when the name is new and every member is defined, a non-empty member list with positive alignments. The code would divide by zero or fail on an empty list there, and raises no error of its own.
- Registry.DataTypeManager.DefineUnion: requires, when the name is new and every member is defined, a non-empty member list with at least one positive alignment. The code takes the maximum of the sizes, which fails on an empty list, and divides only by the largest alignment, which fails when every alignment is 0.
- DataTypes.StructOf: counts a struct or union member at its natural size, where `DataTypeManager.py` counts it as 0 bytes (lines 17, 67, then 29, 41, 57). This is the corrected half of the Findings row. The code's result is modelled only through `DataTypes.AsWrittenViews` and `DataTypes.NestedStructAsWritten`: for S2 = [S1, char] the code gives 8 bytes where `StructOf` gives 24. Over atomic members the two agree (`DataTypes.AsWrittenAgreesOnAtomics`).
- DataTypes.UnionOf: counts a nested aggregate member at its natural size, where the code counts it as 0 bytes. This affects the union size and the union waste (lines 77 and 85).
- DataTypes.NewStruct: runs the walks over the natural sizes of nested aggregates, as `StructOf` does, where the code uses 0.
- Registry.DataTypeManager.DefineStruct and DefineUnion store the corrected metrics of `StructOf` and `UnionOf`. For aggregates with nested struct or union members these differ from what the code stores.
- Registry.DefineAndDescribe: reports the corrected metrics. For a struct with a nested struct or union member, the code would report the smaller sizes of the size-0 view.
- Personas.Frecuencias: names are compared character by character. Swift compares `String` values, and dictionary keys, up to Unicode canonical equivalence: a precomposed "é" and "e" followed by a combining accent are one name to Swift and two here. The same holds for `Ocurrencias` and `NombreMasComun`.
- Structs and unions hold references to their member objects. Those objects never change after construction, so the model holds member values and does not represent the sharing.
- The padding loop appears twice in the code, once per layout. Both copies are modelled by the single method `Layout.PaddingWalk`.
- Personas.NombreMasComun: a Swift dictionary's iteration order is unspecified, so which of several tied names `max(by:)` returns is unspecified. The model scans the names in list order and keeps the earlier one on a tie. Its contract states only that the answer is some name of maximal count.
- Swift `Int` is 64 bits wide. Ages are only compared and counts cannot approach that width, so the model uses unbounded integers.
- The top-level `print` calls of both Swift files are not modelled. Their values appear only in the example lemmas.

## Findings

| source | as written | input that shows it | evidently intended | confidence | as-written member | corrected member |
|---|---|---|---|---|---|---|
| DataTypeManager.py:17 | `StructType` and `UnionType` pass size 0 to the base constructor and never set `size`. The layout code at lines 29, 41, 46, 77 and 85 reads `t.size`, so a struct or union used as a member counts for 0 bytes. | atomics char(1,1), int(4,4), double(8,8); `STRUCT S1 char int double` (16 bytes); `STRUCT S2 S1 char` is laid out in 8 bytes | a nested aggregate occupies its natural (unpacked) size, so S2 takes 24 bytes and every member fits in its struct | high; not executed | DataTypes.NestedStructAsWritten | DataTypes.StructOf |
