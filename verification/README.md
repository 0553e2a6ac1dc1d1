# A model of the ridl backends and tools, proved in Dafny

ridl is an interface definition language. Its toolchain lowers packages of
types and interfaces to Rust crates, to FlatBuffers and proto3 schemas, and to C
headers for its own `podbuf` encoding; an `xtask` crate generates the typed
syntax tree and calibrates the design lints. This project states what those
pieces promise each other and proves it, over every package, grammar rule,
source text or set of findings.

Types are finite trees whose named references go into a package's list of
declarations, so packages may be cyclic. Emitted output is structured data
(derive lists, expressions, tables, members, names), not text, except where the
property is about strings. Code that updates a set, a list, a table or an array
as it goes is a method or a class that does the same; each is proved equal to a
function, or to a declarative statement, about which the lemmas speak.

## The modules

**Recursive analyses with a cycle guard.** `TypeModel` is the lowered package.
`Derives` walks it to decide which declarations may derive `Copy` and `Eq`,
`Defaults` to decide which get a `Default` and with what body; both enter a
declaration's name in a set, refuse a repeat and leave the set as they found it.
`GuardedTraversal` proves once, for any monotone rule, that such a walk computes
the least fixed point. `DeriveLists` shows that the derive lists written
declaration by declaration are justified by one another, under the trait rules
of the Rust types written for the positions, and that none is withheld.
`DefaultValues` evaluates an emitted `Default`; evaluation is stuck where a body
calls a default that is not emitted or may lead back to it, and no emitted
default gets stuck. `DefaultTypes` sets the values against the Rust types.

**The C header.** `EmissionOrder` is the depth-first order of the structs.
`HeadLayout` is the first-fit law that places a head's members, `CStruct` the
rendered member list against the layout rules of a C struct (sections 6.7.2.1
and 6.7.5 of ISO/IEC 9899:2018), for every alignment a compiler may choose that
divides the natural one. `HeadForms` is where a member's size comes from: the
form the layout measures and the C declaration the header writes for it.
`HeadLoads` is the byte loop of the preamble, and what a
reader of one version of a type gets from the head that another wrote. `CNames`
is the keyword escape and the check across the headers of a build.

**Wire schemas.** `FlatBuffersSchema` is the whole walk of a package: the
declared tables, the worklist of induced ones that grows while it is drained,
and the shared namespace. `SchemaMeaning` says, without its functions, what a
schema has to say of the package and which packages can be said. `ProtoEnum` is
the proto3 enum, the scope its values share with everything else, and what a
package writes in it. `FaceClaims` is the Rust counterpart for one interface.

**Tools.** `ThresholdSearch` replaces a search over all thresholds by a finite
one. `SourcePositions` converts line and column to byte offsets of the UTF-8
encoding (section 3 of RFC 3629). `FindingIds` prints, files and checks findings,
`FindingDump` is the dump that makes them from a corpus, and `DumpedDiagnostics`
that it loses none. `CohesionMessage` reads a diagnostic message back.
`PositionalAccessors` is the grammar rule, its references and what it derives;
`AccessorExactness` decides, from the rule, when a child can be found by its
position; `Accessors` is the generator and what the accessors it writes return.
`Text` is string splitting and canonical decimals, `StableSort` a stable sort,
`Division` quotients, `Common` what several modules share.

## Where a property holds only under a condition

In five places the code meets the property one would expect only under a
condition. The code is modelled as it is, and the condition is proved exact.

- `CStruct.CompilerReproducesLayout`: the offsets, the size and the alignment a
  header asserts are the compiler's exactly when no member of no byte (an array
  of exact length zero) comes after a field that takes bytes;
  `NothingAfterAByteFails` is a header that fails. Such a member is written
  `T x[0]`, which section 6.7.6.2 of the standard forbids: it is placed here as
  the compilers that allow it place it, as a member of size zero.
- `EmissionOrder.OrderIsTopologicalIffAcyclic`: every struct is defined before
  it is laid out in another exactly when none lays itself out. The layout gives
  no head to a type that reaches itself
  (crates/ridl-ir/src/projection/podbuf.rs:703-718), so the order of every
  package that gets a header is one a compiler accepts.
- `AccessorExactness.PositionalIsExactIff`: whatever the soundness test says,
  accessors by position return the child they are named for, over every
  derivation, exactly when in no derivation a label of the type appears twice,
  appears without one the rule mentions before it, or stands ahead of one, and no
  child of another type that the cast takes for this one appears without a label
  or ahead of it. `WhereTheTestErrs` compares that with the test: it accepts in
  error exactly the groups in which a label can appear twice
  (`RepeatedLabelIsAccepted` is one) or another child can stand in
  (`OtherAheadIsAccepted`), and refuses in vain exactly those whose labels appear
  once and in order, with any others behind them, all the same
  (`BothOrNeitherIsRefused`).
- `ProtoEnum.EmittedEnumIsValidIff`: an enum that is emitted obeys proto3 exactly
  when the declared numbers are distinct, none of them is retired, and no two
  tombstones project to one reservation. A repeated tombstone draws only a
  warning of the front end (crates/ridl-sem/src/check.rs:3738-3759), and
  `EqualTombstonesAreRefused` is an enum with one. The rules meant are those of
  the language: numbers in the range and each used once, a zero first, names used
  once, and no reserved number or name in use or reserved twice. That the
  compiler also compares value names with the enum's prefix removed is not among
  them; the front end refuses two names that agree in PascalCase.
- `FindingDump.DumpedFindingComesBackIff`: a dumped finding passes the checks
  made of it when it comes back labelled, exactly when the name of its workspace
  holds no backslash, its path is still inside the workspace once backslashes are
  slashes, its message is not blank and its metric is not below the start of the
  search. The dump refuses none of these. `BackslashNameFails` is a workspace
  named `a\b`, which is dumped and whose findings are all refused.

Two other conditions are met by every input the code is given.

- `FaceClaims.SpelledNames`: the tables of types and of event variants of a face
  module refuse a pair of events spelled `_` and `__` and nothing else. A camel
  spelling holds no underscore (`CamelHoldsNoUnderscore`), so for a lowered
  interface these two never refuse, as the comment beside them says
  (`LoweredFaceModule`); only a model written by hand can hold the pair. The third
  table, of provider methods, does refuse: a call named as the reply of a query is
  (`CheckedProvidersMeet`).
- `FindingIds.DumpedFindingValidates`: a record passes its checks only when its
  workspace's name holds no `:`, which is why the dump refuses such a name.

## Model

| member | source | states |
|---|---|---|
| `GuardedTraversal.AnswerIsLeastFixedPoint` | crates/ridl-backend-rust/src/derives.rs:199-244 | a walk that refuses a repeat on its path answers yes, from the empty path, for exactly the items with a finite derivation: a fixed point, inside every closed set |
| `GuardedTraversal.ReachingALoopRefuses` | crates/ridl-backend-rust/src/derives.rs:199-205 | whatever leads to a repeat, at any distance, has no derivation |
| `TypeModel.PathSet.Insert` | crates/ridl-backend-rust/src/lib.rs:1055-1060 | entering a name tells whether it is new and adds only it |
| `TypeModel.PathSet.Remove` | crates/ridl-backend-rust/src/lib.rs:1062-1066 | leaving takes out only that name |
| `Derives.WalkDecl` | crates/ridl-backend-rust/src/derives.rs:199-244 | the walk computes the eligibility of a declaration under the names on its path, and the path set is as it was, on every way out |
| `Derives.WalkSlots` | crates/ridl-backend-rust/src/derives.rs:259-264 | a struct has what all its live fields have; reserved slots do not count |
| `Derives.WalkArms` | crates/ridl-backend-rust/src/derives.rs:199-244 | a union has what all its arms' payloads have |
| `Derives.WalkTuple` | crates/ridl-backend-rust/src/derives.rs:322-335 | a tuple has what all its fields have |
| `Derives.WalkPosition` | crates/ridl-backend-rust/src/derives.rs:271-320 | what a position of any kind has, optionals, vectors and arrays distinguished |
| `Derives.WalkRef` | crates/ridl-backend-rust/src/derives.rs:340-349 | a reference has what its declaration has under the same path; a foreign or unknown one has nothing |
| `Derives.EligibilityIsLeastFixedPoint` | crates/ridl-backend-rust/src/derives.rs:199-349 | for every package, cyclic or not, the eligible declarations are the least fixed point of the one-step rules |
| `Derives.WhatReachesACycleIsRefused` | crates/ridl-backend-rust/src/derives.rs:199-205 | a declaration whose live positions lead to a repeat, at any distance, keeps neither `Copy` nor `Eq` |
| `DeriveLists.Attr` | crates/ridl-backend-rust/src/derives.rs:167-184 | the pushed list is exactly the justified traits, each once, in the conventional order |
| `DeriveLists.DeriveAttr` | crates/ridl-backend-rust/src/derives.rs:111-115 | the list of a declaration: `Copy`, `Eq` and `Hash` where it is in the least fixed point of the rules, `PartialOrd` for a named float or integer, `Ord` for a named integer, in the conventional order |
| `DeriveLists.TupleDeriveAttr` | crates/ridl-backend-rust/src/derives.rs:124-127 | the list of a tuple struct, by what its fields have in the least fixed point, never ordered |
| `DeriveLists.EventDeriveAttr` | crates/ridl-backend-rust/src/derives.rs:145-159 | an event enum derives `Copy` and `Eq` exactly when every payload is in the least fixed point, which is when its type implements them under the lists written |
| `DeriveLists.DeclarationDerivesCompile` | crates/ridl-backend-rust/src/derives.rs:111-184 | each derived trait holds of every type the declaration is made of, under the lists the same pass writes for those types, and brings its supertraits |
| `DeriveLists.DerivedWherePossible` | crates/ridl-backend-rust/src/derives.rs:111-184 | and none is withheld: `Copy`, `Eq` and `Hash` are derived exactly when every type the declaration is made of has them, with nothing missing in it and, for `Copy`, no array |
| `DeriveLists.TupleDerivesCompile` | crates/ridl-backend-rust/src/derives.rs:124-127 | the same of a tuple struct's fields |
| `Defaults.BuildDecl` | crates/ridl-backend-rust/src/defaults.rs:22-35 | the body of a declaration's `Default`, or none, under the stack of names being expanded, which is as it was afterwards |
| `Defaults.BuildSlots` | crates/ridl-backend-rust/src/defaults.rs:92-105 | every live field in slot order, or none at all |
| `Defaults.BuildTuple` | crates/ridl-backend-rust/src/defaults.rs:125-142 | the same of a tuple's fields |
| `Defaults.BuildPosition` | crates/ridl-backend-rust/src/defaults.rs:149-185 | an optional position without an init is absent, any other the value of its kind |
| `Defaults.BuildKind` | crates/ridl-backend-rust/src/defaults.rs:258-318 | the value of a primitive, array, map, tuple or inline scalar |
| `Defaults.BuildNamed` | crates/ridl-backend-rust/src/defaults.rs:187-237 | a declared init decides a named position before the type's own default |
| `Defaults.BuildSamePackage` | crates/ridl-backend-rust/src/defaults.rs:239-256 | a local call, only to a type off the stack that has a default |
| `Defaults.DefaultIsLeastFixedPoint` | crates/ridl-backend-rust/src/defaults.rs:22-256 | a declaration gets a `Default` exactly when it is in the least fixed point of the leaf-recursion rule, read from the inits themselves; what a body may call is what is emitted |
| `DefaultValues.EmittedDefaultHasDeclaredShape` | crates/ridl-backend-rust/src/defaults.rs:92-348 | an emitted default terminates, calls only emitted defaults of lower rank, and gives one value: each live field once in slot order with the text of its init or its declared init, an optional without one absent, elements and entries as few as allowed and given nothing, a named scalar's own text, the init member, no bits, the first arm; it has the declared shape |
| `DefaultTypes.EmittedDefaultIsTyped` | crates/ridl-backend-rust/src/lib.rs:1175-1219 | every live field of an emitted struct default is initialized with a value of the Rust type the same pass writes for the field |
| `EmissionOrder.Walk.Visit` | crates/ridl-backend-podbuf/src/lib.rs:977-997 | seen but unlisted heads are exactly the current path; a visit lists what is reachable and nothing else, each after its dependencies |
| `EmissionOrder.DependenciesAreLaidOut` | crates/ridl-backend-podbuf/src/lib.rs:1534-1545 | the dependencies collected are exactly the heads some field holds inline, itself or in arrays to some depth |
| `EmissionOrder.Order` | crates/ridl-backend-podbuf/src/lib.rs:977-997 | each head reachable from a local head once and no other; a dependency comes first unless it leads back |
| `EmissionOrder.OrderIsTopologicalIffAcyclic` | crates/ridl-backend-podbuf/src/lib.rs:954-997 | a compiler accepts the order exactly when no listed head lays itself out, as no head that has a layout does |
| `HeadLayout.Place` | crates/ridl-ir/src/projection/podbuf.rs:198-216 | every item is at the lowest aligned offset clear of those before it |
| `HeadLayout.LowestClear` | crates/ridl-ir/src/projection/podbuf.rs:198-216 | the search for one item ends at the lowest such offset |
| `HeadLayout.FirstFitIsUnique` | crates/ridl-ir/src/projection/podbuf.rs:189-196 | the law determines every offset |
| `HeadLayout.FirstFitIsOfBytes` | crates/ridl-ir/src/projection/podbuf.rs:189-196 | of items of some byte the law says: no two share a byte, and at any lower aligned offset they would |
| `HeadLayout.AppendedItemsMoveNothing` | crates/ridl-ir/src/projection/podbuf.rs:189-196 | an appended item moves no earlier one |
| `HeadLayout.CollectPads` | crates/ridl-ir/src/projection/podbuf.rs:636-693 | the pads are the gaps between the sorted fields and before the size |
| `HeadLayout.LayOut` | crates/ridl-ir/src/projection/podbuf.rs:636-693 | the head of the law, refused exactly when its rounded end passes 32 bits |
| `CStruct.RenderMembers` | crates/ridl-backend-podbuf/src/lib.rs:1224-1322 | the emitted fields and the pads, sorted by offset and stable |
| `CStruct.SortTiles` | crates/ridl-backend-podbuf/src/lib.rs:1224-1322 | sorting the fields with the pads behind them puts each pad in its gap |
| `CStruct.TilesAgree` | crates/ridl-backend-podbuf/src/lib.rs:1224-1322 | the compiler's rounding lands every member on its recorded offset, and the end on the size, exactly when no empty member is late |
| `CStruct.CompilerReproducesLayout` | crates/ridl-backend-podbuf/src/lib.rs:1224-1322 | for every choice of alignments, the asserted offsets, struct size and struct alignment hold exactly when empty members come first |
| `CStruct.NothingAfterAByteFails` | crates/ridl-backend-podbuf/src/lib.rs:1224-1322 | a byte and then an array of no element: a laid-out head whose assertions no compiler meets |
| `HeadForms.DeclareMember` | crates/ridl-backend-podbuf/src/lib.rs:1040-1095 | a field's declaration: the C type of its innermost element and the array bounds from the outermost in, or none for what takes no byte |
| `HeadForms.DeclaredSize` | crates/ridl-ir/src/projection/podbuf.rs:425-436 | a declared member is as large in C as the layout measures its form, up to the saturation, and what is not declared takes no byte |
| `HeadForms.ElementsAreDeclared` | crates/ridl-backend-podbuf/src/lib.rs:1040-1095 | every element of a form has one index below each bound of its declaration, and the C type represents it: width, sign, float, struct, descriptor |
| `HeadForms.ElementsAgree` | crates/ridl-backend-podbuf/src/lib.rs:1068-1095 | layout and compiler have each element of a nested array at one offset |
| `HeadForms.AlignOfFormIsCAlign` | crates/ridl-ir/src/projection/podbuf.rs:1062-1073 | the alignment of a form is the natural one of its C type |
| `HeadForms.HeaderHoldsIff` | crates/ridl-backend-podbuf/src/lib.rs:1224-1322 | of any forms, every assertion of the header, each member's size among them, holds exactly when empty members come first |
| `HeadLoads.Load` | crates/ridl-backend-podbuf/src/lib.rs:1631-1646 | the loop gives the little-endian value, modulo 64 bits, of bytes inside the head, and 0 otherwise |
| `HeadLoads.ByteWeights` | crates/ridl-backend-podbuf/src/lib.rs:1636-1646 | the byte at a place is the digit of that weight in the value |
| `HeadLoads.ShortLoadIsExact` | crates/ridl-backend-podbuf/src/lib.rs:1636-1646 | up to eight bytes nothing is lost |
| `HeadLoads.Members.Push` | crates/ridl-ir/src/projection/podbuf.rs:594-621 | a flags byte before every eighth optional, each optional given the next bit |
| `HeadLoads.CollectMembers` | crates/ridl-ir/src/projection/podbuf.rs:594-621 | the members of a whole field list |
| `HeadLoads.FieldIsCollected` | crates/ridl-ir/src/projection/podbuf.rs:594-621 | each field has a member of its own, an optional the bit of its number among the optionals, the first of eight just behind their flags field |
| `HeadLoads.MemberCount` | crates/ridl-ir/src/projection/podbuf.rs:594-621 | there is no member but the fields' and a flags field for each eight optionals or part of eight |
| `HeadLoads.EncodeHead` | docs/decisions/ADR-0031-podbuf-projection-rules.md:612-619 | each member's bytes at its offset, zero in every byte of an absent optional and in every byte of no member; no store undoes another |
| `HeadLoads.OwnMembersReadBack` | crates/ridl-backend-podbuf/src/lib.rs:1335-1514 | every member reads back as written |
| `HeadLoads.NewerReaderOlderHead` | docs/decisions/ADR-0031-podbuf-projection-rules.md:621-653 | from an older head, shared members read as written and any part of an appended one reads as zero or lies past the head, wherever first fit put it |
| `HeadLoads.OlderReaderNewerHead` | docs/decisions/ADR-0031-podbuf-projection-rules.md:637-639 | from a newer head, an older reader's members read as written |
| `HeadLoads.PresenceAcrossVersions` | crates/ridl-backend-podbuf/src/lib.rs:1335-1514 | on an older producer's head a presence test is true exactly when the producer has that field and wrote it |
| `HeadLoads.PresenceOfField` | crates/ridl-backend-podbuf/src/lib.rs:1335-1514 | the bit a field's member names says whether the producer wrote the field of that number |
| `HeadLoads.PresenceForOlderReader` | crates/ridl-backend-podbuf/src/lib.rs:1335-1514 | on a newer producer's head an older reader's presence test is true exactly when that field was written, whatever appended optionals share its flags byte |
| `HeadLoads.AbsentReadsAsZero` | docs/decisions/ADR-0031-podbuf-projection-rules.md:612-631 | an optional its producer left absent, or does not have, reads as zero wherever first fit put it, by its own reader and by a newer one |
| `HeadLoads.AbsentForOlderReader` | docs/decisions/ADR-0031-podbuf-projection-rules.md:612-639 | and by an older reader |
| `CNames.StemUndoesEscape` | crates/ridl-backend-podbuf/src/lib.rs:249-268 | a member name is never a keyword, and the accessor's stem is the name before any escape |
| `CNames.MemberNamesDiffer` | crates/ridl-backend-podbuf/src/lib.rs:249-260 | distinct names keep distinct members |
| `CNames.Claims.ClaimName` | crates/ridl-backend-podbuf/src/lib.rs:357-388 | in one header the first claim of a name stands and any second is refused |
| `CNames.CheckCNames` | crates/ridl-backend-podbuf/src/lib.rs:540-585 | one clash for each name with two claimants or more, in name order, and no other |
| `CNames.ClaimantsAreTheEntities` | crates/ridl-backend-podbuf/src/lib.rs:540-565 | the claimants of a name are headers' claims, one for each identity and definition, none missing |
| `CNames.ClashIffTwoEntities` | crates/ridl-backend-podbuf/src/lib.rs:540-585 | a name clashes exactly when two headers claim it with two identities or two definitions |
| `CNames.OrderDoesNotMatter` | crates/ridl-backend-podbuf/src/lib.rs:540-585 | the clashing names do not depend on the order of the packages |
| `FlatBuffersSchema.Schema.Claim` | crates/ridl-backend-flatbuffers/src/lib.rs:223-235 | a name is taken once |
| `FlatBuffersSchema.Schema.ResolvePosition` | crates/ridl-backend-flatbuffers/src/lib.rs:776-912 | the type of a position, what it induces and includes, or a refusal |
| `FlatBuffersSchema.Schema.ResolveField` | crates/ridl-backend-flatbuffers/src/lib.rs:706-721 | the same with the optional rule |
| `FlatBuffersSchema.Schema.NamedType` | crates/ridl-backend-flatbuffers/src/lib.rs:1016-1057 | scalars and enum sets inline, the rest are named, a foreign one with its include |
| `FlatBuffersSchema.Schema.StructRows` | crates/ridl-backend-flatbuffers/src/lib.rs:586-654 | a struct's fields at ordinal less one, a name or ordinal used twice refused |
| `FlatBuffersSchema.Schema.TupleRows` | crates/ridl-backend-flatbuffers/src/lib.rs:1286-1323 | a tuple's positional fields |
| `FlatBuffersSchema.Schema.EntryRows` | crates/ridl-backend-flatbuffers/src/lib.rs:1336-1387 | a map entry's key and value, as its specification has them |
| `FlatBuffersSchema.Schema.UnionRows` | crates/ridl-backend-flatbuffers/src/lib.rs:458-486 | a union's members, distinct under the case transform |
| `FlatBuffersSchema.Schema.ResolveArm` | crates/ridl-backend-flatbuffers/src/lib.rs:517-556 | an arm is a table, or a box around what is not one |
| `FlatBuffersSchema.Schema.ClaimDeclared` | crates/ridl-backend-flatbuffers/src/lib.rs:140-156 | declared names are claimed first, refused exactly when two meet |
| `FlatBuffersSchema.Schema.Walk` | crates/ridl-backend-flatbuffers/src/lib.rs:279-336 | every declaration and its root box, in order; accepted exactly when all resolve and the generated union names are free |
| `FlatBuffersSchema.ItemInduces` | crates/ridl-backend-flatbuffers/src/lib.rs:1165-1232 | what an item induces is smaller than the item, which is why draining ends |
| `FlatBuffersSchema.Schema.Drain` | crates/ridl-backend-flatbuffers/src/lib.rs:1165-1232 | the growing worklist drains, accepted exactly when everything induced resolves, takes no declared name, and under one name is one thing; then all of it is written, each name once |
| `FlatBuffersSchema.Schema.EmitIdentities` | crates/ridl-backend-flatbuffers/src/lib.rs:1519-1549 | the identity enums are written, one for each interface, exactly when their names are free and no two members of one meet |
| `FlatBuffersSchema.Schema.IdentityRows` | crates/ridl-backend-flatbuffers/src/lib.rs:1519-1549 | an identity enum's members, the live interactions at their ordinals, refused exactly when two names meet under the case transform |
| `FlatBuffersSchema.Schema.Generate` | crates/ridl-backend-flatbuffers/src/lib.rs:82-121 | accepted exactly when `Acceptable`; then names are distinct, in the namespace and inside every table, enum and union, as are a table's field ids; every type is a builtin, a type written exactly once or a declared type of an included package, and every package included is named; vectors are one deep; nothing induced is missing |
| `FlatBuffersSchema.TidyStruct` | crates/ridl-backend-flatbuffers/src/lib.rs:586-654 | the fields of a struct that resolves have distinct names and ids, retired ordinals included |
| `FlatBuffersSchema.TidyTuple` | crates/ridl-backend-flatbuffers/src/lib.rs:1286-1323 | the fields of a tuple that resolves have distinct names and ids, being named by position |
| `FlatBuffersSchema.PositionKnown` | crates/ridl-backend-flatbuffers/src/lib.rs:776-912 | a position's type names only what is declared, induced with it or included with it, and no vector of vectors |
| `FlatBuffersSchema.NullExactly` | crates/ridl-backend-flatbuffers/src/lib.rs:706-771 | `= null` stands exactly at an enum with no zero and at an optional scalar or enum |
| `SchemaMeaning.GenerateSchema` | crates/ridl-backend-flatbuffers/src/lib.rs:82-121 | a schema is written exactly for a package whose declarations can be written and whose names are apart, and it means the package: for each struct a table with a row for each member, of its name, at its ordinal less one and with its type; for each union a member for each arm, a table or a box of its type; for each enum its values; the root boxes and the identity enums |
| `SchemaMeaning.PositionCarries` | crates/ridl-backend-flatbuffers/src/lib.rs:776-912 | the type resolved for a position stands for the declared one: scalars by a table of their own, a map a vector of a table whose `key` and `value` have the key's and the value's type, a tuple a table of positional rows, an array a vector of its element, through every induced table |
| `SchemaMeaning.EntryCarries` | crates/ridl-backend-flatbuffers/src/lib.rs:1336-1387 | the table of a map's entries has `key` with the key's type and `value` with the value's |
| `SchemaMeaning.TupleCarries` | crates/ridl-backend-flatbuffers/src/lib.rs:1286-1323 | the table of a tuple has a row for each part, named and numbered by its place, with the part's type |
| `SchemaMeaning.StructMeans` | crates/ridl-backend-flatbuffers/src/lib.rs:586-654 | a live member has the row of its name, at its ordinal less one, with its type and its null marker; a retired one a deprecated byte |
| `SchemaMeaning.ArmMeans` | crates/ridl-backend-flatbuffers/src/lib.rs:517-556 | a union's member for an arm is the table the arm names, or a box with one row of its type |
| `SchemaMeaning.NullIsAt` | crates/ridl-backend-flatbuffers/src/lib.rs:706-771 | the null marker, read off the declared type |
| `SchemaMeaning.ResolvesIff` | crates/ridl-backend-flatbuffers/src/lib.rs:279-336 | everything declared and induced resolves exactly when, in the declarations, references are good, no array holds an array, a map or bytes, ordinals start at one, and names and ordinals of a struct, arms of a union and values of an enum are distinct |
| `SchemaMeaning.ResolveRefers` | crates/ridl-backend-flatbuffers/src/lib.rs:1016-1057 | a reference resolves to the first declaration of its name, in the package before its last dot or in this one |
| `ProtoEnum.SymbolScope.Claim` | crates/ridl-backend-proto/src/lib.rs:179-191 | a name is taken once |
| `ProtoEnum.SymbolScope.EmitEnum` | crates/ridl-backend-proto/src/lib.rs:411-502 | the values and reservations of an enum, accepted exactly when they fit and its own and its values' names are free |
| `ProtoEnum.EmittedEnumSays` | crates/ridl-backend-proto/src/lib.rs:411-502 | every declared value has a line of its own name and number behind the enum's, and every line is of one, but for a zero made up where none is declared; the same of tombstones and reservations |
| `ProtoEnum.LiveDistinct` | crates/ridl-backend-proto/src/lib.rs:429-459 | moving the zero first, or making one up, repeats a number exactly when the declaration does |
| `ProtoEnum.OthersKeepPlace` | crates/ridl-backend-proto/src/lib.rs:443-446 | every nonzero value stays where it is declared among the others |
| `ProtoEnum.EmittedEnumIsValidIff` | crates/ridl-backend-proto/src/lib.rs:411-502 | an emitted enum obeys proto3's rules exactly when numbers are distinct, none is retired, and tombstones differ |
| `ProtoEnum.EqualTombstonesAreRefused` | crates/ridl-backend-proto/src/lib.rs:411-502 | an enum with two equal tombstones: accepted, and not valid proto3 |
| `ProtoEnum.EmitPackage` | crates/ridl-backend-proto/src/lib.rs:253-365 | a package is accepted exactly when each enum and each ordinal of an identity table fits and the names of everything written are pairwise distinct; what is written then has every declaration's own enum or message, a box for each that has no message, every induced message, and every interface's table, and names nothing else |
| `ProtoEnum.EmitTables` | crates/ridl-backend-proto/src/lib.rs:1225-1271 | the identity tables are accepted exactly when every live ordinal fits and each table, its zero and its members take free names |
| `ProtoEnum.TableIsSaid` | crates/ridl-backend-proto/src/lib.rs:1230-1269 | a table holds a zero first, then a line for each live interaction behind the table's name at that interaction's own ordinal and no other, and reserves the retired ordinals and no other |
| `FaceClaims.KeysMeet` | crates/ridl-backend-rust/src/lib.rs:2694-2711 | two names are one identifier only when equal, or `_` and `__` |
| `FaceClaims.KeyIsUsable` | crates/ridl-backend-rust/src/lib.rs:2694-2711 | an identifier is never empty nor a path word, is `_` only for no name, and is the name itself but for a path word with any underscores behind it, `_` and no name |
| `FaceClaims.Table.ClaimDescriptors` | crates/ridl-backend-rust/src/claims.rs:212-237 | the descriptors of an interface are accepted exactly when free and distinct |
| `FaceClaims.SuffixesAreEmitted` | crates/ridl-backend-rust/src/claims.rs:257-281 | the types of a call: three, a sink for an upload, a stream for a streamed reply |
| `FaceClaims.ClaimCall` | crates/ridl-backend-rust/src/claims.rs:257-281 | the types of a call are claimed, no others, and never meet those of another member or one another |
| `FaceClaims.SpelledNames` | crates/ridl-backend-rust/src/claims.rs:242-292 | over accepted descriptors the call types and event variants refuse exactly the underscore pair |
| `FaceClaims.ProviderMethods` | crates/ridl-backend-rust/src/claims.rs:293-318 | provider methods are refused exactly when two calls have one name, or a call is named as the reply of a query is |
| `FaceClaims.FaceModule` | crates/ridl-backend-rust/src/claims.rs:242-318 | over accepted descriptors the three tables refuse exactly the underscore pair and meeting provider methods |
| `FaceClaims.CamelHoldsNoUnderscore` | crates/ridl-ir/src/name.rs:70-81 | no camel spelling holds an underscore |
| `FaceClaims.CamelIsSpelled` | crates/ridl-ir/src/name.rs:70-81 | character by character: an underscore is dropped, the first character and each one after an underscore is put in upper case, any other is kept |
| `FaceClaims.LoweredFaceModule` | crates/ridl-backend-rust/src/claims.rs:242-318 | over accepted descriptors a lowered interface is refused exactly when two provider methods meet, never by the tables of types and variants |
| `FaceClaims.CheckedProvidersMeet` | crates/ridl-backend-rust/src/claims.rs:293-318 | of members the front end keeps apart under `snake_case`, provider methods meet exactly when a call is named as the reply of a query is |
| `ThresholdSearch.Axis` | xtask/src/calibrate.rs:213-262 | the start of the search and one past each observed coordinate, ascending |
| `ThresholdSearch.Thresholds` | xtask/src/calibrate.rs:213-262 | the candidate thresholds of each check |
| `ThresholdSearch.Choose` | xtask/src/calibrate.rs:299-307 | the highest level present, then the most findings, then the least threshold; none when every row is dropped |
| `ThresholdSearch.MapsDown` | xtask/src/calibrate.rs:196-297 | every threshold in scope maps down to a candidate that retains the same findings |
| `ThresholdSearch.SameRetainedSameRow` | xtask/src/calibrate.rs:196-211 | thresholds that retain the same findings have the same counts and level |
| `ThresholdSearch.RowCounts` | xtask/src/calibrate.rs:267-285 | a row's numbers are the sizes of the sets of findings reported and accepted, and its level follows from them |
| `ThresholdSearch.Search` | xtask/src/calibrate.rs:196-307 | the selected row counts the findings its threshold reports and those of them accepted, a warning from ten findings with four in five accepted; among all thresholds at or above the start it has a warning before none, then the most findings, then the least threshold; none is selected exactly when every one reports nothing or less than half accepted |
| `SourcePositions.ByteOffset` | xtask/src/calibrate.rs:395-415 | the offset of the one character or line end at a position, none exactly when there is none |
| `SourcePositions.EncodingIsDecoded` | xtask/src/calibrate.rs:395-415 | a character's bytes stand for it by the table of RFC 3629 |
| `SourcePositions.EncodingIsTheOnlyOne` | xtask/src/calibrate.rs:395-415 | and no other bytes do |
| `SourcePositions.OffsetsFollowPositions` | xtask/src/calibrate.rs:395-415 | offsets are in the order of positions, and determine them |
| `SourcePositions.OffsetBeginsCharacter` | xtask/src/calibrate.rs:849-855 | every offset is a character boundary |
| `SourcePositions.BoundaryIsOffset` | xtask/src/calibrate.rs:849-855 | every character boundary is the offset of a position |
| `SourcePositions.LineCountsNewlines` | xtask/src/calibrate.rs:856-859 | the line is one more than the newline bytes before the offset |
| `FindingIds.FileRecords` | xtask/src/calibrate.rs:458-484 | each check's records, numbered from zero among those of the same path and span |
| `FindingIds.OccurrenceCounts` | xtask/src/calibrate.rs:458-470 | the occurrence of a record is the number of records of its check, path and span before it |
| `FindingIds.DumpedFindingValidates` | xtask/src/calibrate.rs:824-868 | a record of a span passes the ID, workspace, path, range, location, message and metric checks exactly when its workspace's name holds neither `:` nor a backslash, its path is inside the workspace, its message is not blank and its metric not below the start of the search |
| `FindingIds.ValidFindingNamesASpan` | xtask/src/calibrate.rs:827-859 | a finding that passes them is of one span of the text, and is the record of that span unless its ID writes the path with backslashes |
| `FindingIds.NameStandsForItself` | xtask/src/calibrate.rs:372-393 | the relative path of a directory's name is that name exactly when it holds neither `:` nor a backslash |
| `FindingIds.PathStandsForItself` | xtask/src/calibrate.rs:372-393 | what a path has become is its own relative path exactly when it is still inside, as it is without backslashes |
| `FindingIds.InsideDescends` | xtask/src/calibrate.rs:372-393 | from any directory, an accepted path without backslashes and every part of the way along it lead below that directory |
| `FindingIds.ValidFindingIsSearched` | xtask/src/calibrate.rs:848-868 | what validation lets through is what the threshold search takes |
| `FindingIds.CheckOccurrences` | xtask/src/calibrate.rs:1037-1058 | accepted exactly when IDs are new and distinct and indices contiguous from zero |
| `FindingIds.DumpedIdsAreAcceptable` | xtask/src/calibrate.rs:453-484 | what is filed of any workspaces is accepted |
| `FindingIds.ChecksShareNoId` | xtask/src/calibrate.rs:1040-1045 | findings of two checks share no ID |
| `FindingDump.ReadDiagnostics` | xtask/src/calibrate.rs:422-454 | diagnostics are read, in order, exactly when none is an error or `MANI-010` and each calibrated one has a path inside, naming a file and free of the delimiter, a span of its text in order, and a message with a metric |
| `FindingDump.SortIsStable` | xtask/src/calibrate.rs:455-457 | the sort orders by check, then path, start and end, and keeps the records of one key in the order the compiler gave them |
| `FindingDump.RecordsFromJson` | xtask/src/calibrate.rs:417-484 | one workspace's diagnostics read, sorted, numbered and filed, or a refusal |
| `FindingDump.DumpCorpus` | xtask/src/calibrate.rs:710-756 | a corpus is dumped exactly when there is a workspace, no name holds the delimiter, no manifest has a lints table, every check passes and all diagnostics can be read; each check gets its workspaces' records in order |
| `DumpedDiagnostics.CalibratedKeeps` | xtask/src/calibrate.rs:422-454 | what is read is the diagnostics of the calibrated checks, all of them and no other |
| `DumpedDiagnostics.EveryDiagnosticIsDumped` | xtask/src/calibrate.rs:417-484 | every diagnostic of a calibrated check has a finding of its workspace, path and line, with its message and metric, and an ID of its check and byte span |
| `DumpedDiagnostics.AsManyAsDrawn` | xtask/src/calibrate.rs:710-756 | a check has as many findings in a dump as the corpus had diagnostics of it |
| `FindingDump.DumpedFindingComesBackIff` | xtask/src/calibrate.rs:824-868 | each finding of a dump is of a diagnostic of its workspace, and passes the checks exactly when that diagnostic meets the four conditions the dump does not check |
| `FindingDump.EveryDumpedFindingValidates` | xtask/src/calibrate.rs:824-868 | in a corpus without backslashes, blank messages or metrics below the start, every finding of a dump passes the checks against the file its ID names |
| `FindingDump.BackslashNameFails` | xtask/src/calibrate.rs:836-841 | a workspace named with a backslash: dumped, and every finding of it refused |
| `FindingDump.DumpedChecksAreAcceptable` | xtask/src/calibrate.rs:1037-1058 | the findings of each check of a dump pass the occurrence check |
| `CohesionMessage.ReadMembers` | xtask/src/calibrate.rs:153-165 | a group is accepted exactly when its members are words and none was met before |
| `CohesionMessage.ReadGroups` | xtask/src/calibrate.rs:146-172 | a list is accepted exactly when it is well bracketed, of distinct words, and as long as the count says |
| `CohesionMessage.ReadMessage` | xtask/src/calibrate.rs:139-172 | the metric of a whole message |
| `CohesionMessage.PrintedMessageReadsBack` | crates/ridlc/src/design_lints/cohesion.rs:157-171 | a printed message gives back the group count and the smallest size |
| `CohesionMessage.AcceptedMessageIsPrinted` | xtask/src/calibrate.rs:139-172 | an accepted message is the printed form of exactly one list of groups, its count with no leading zero |
| `CohesionMessage.AcceptedListIsPrinted` | xtask/src/calibrate.rs:150-167 | a list that reads is the printed form of what it reads as |
| `Text.NumberOfPrint` | xtask/src/calibrate.rs:102-110 | a number in the word reads back from its printed form |
| `Text.PrintOfNumber` | xtask/src/calibrate.rs:102-110 | a text that reads is that printed form, so leading zeros are refused |
| `Text.DigitWeights` | xtask/src/calibrate.rs:458-470 | the digits of a printed number are those of its powers of ten, the last that of the units |
| `PositionalAccessors.Collect` | xtask/src/codegen.rs:158-198 | the references of a rule body, appended in order with their flags |
| `PositionalAccessors.Merge` | xtask/src/codegen.rs:250-275 | one entry for each label and type in order of first mention, repeated if any mention is, optional if all are |
| `Accessors.Generate` | xtask/src/codegen.rs:227-335 | each accessor written returns, over every tree, the one child of its type and label, where none repeats and nothing else can stand in, or all the children of its type, where nothing else casts to it; no type has two for one label, and a label has one exactly when its type has no other label, or has none repeated and all but the last mandatory; all children are returned exactly where the one label is repeated |
| `Accessors.ChildrenAreExactIff` | xtask/src/codegen.rs:286-312 | an accessor for all children returns exactly the type's own, over every tree, exactly when no other child of a shared kind can appear |
| `Accessors.GroupFlags` | xtask/src/codegen.rs:250-275 | an entry is repeated exactly when some mention of its label is, optional exactly when every one is |
| `PositionalAccessors.KidsAreSelected` | xtask/src/codegen.rs:158-198 | over every derivation the children of a type are picked in order from the references to it, no mandatory one missing |
| `PositionalAccessors.RepeatedLabelIsAccepted` | xtask/src/codegen.rs:313-335 | a rule the test accepts although an accessor is wrong |
| `PositionalAccessors.BothOrNeitherIsRefused` | xtask/src/codegen.rs:313-321 | a rule whose refusal is in vain: the accessors would be exact |
| `AccessorExactness.PositionalIsExactIff` | xtask/src/codegen.rs:313-335 | for any rule, type and kinds, accessors by position are exact over every derivation exactly when every label appears at most once and, by a recursion on the rule, none can appear without or ahead of one mentioned before it, nor any other castable child without or ahead of one |
| `AccessorExactness.WhereTheTestErrs` | xtask/src/codegen.rs:313-321 | the test accepts in error exactly the groups with a label that can appear twice or another child that can stand in, and refuses in vain exactly those where neither can and the labels keep their order |
| `AccessorExactness.AcceptedAccessorsAreExactIff` | xtask/src/codegen.rs:313-335 | positional accessors that pass the test are exact exactly when no label can appear twice and no other castable child can appear without a label or ahead of it |
| `AccessorExactness.PickedIsTheChild` | xtask/src/codegen.rs:313-335 | such an accessor returns the one child of its label, and nothing only for the last and only when optional |
| `AccessorExactness.OtherAheadIsAccepted` | xtask/src/codegen.rs:313-335 | a rule the test accepts although a child of an overlapping type stands ahead |
| `AccessorExactness.ApartKeepsBehind` | xtask/src/codegen.rs:313-335 | where the types of a rule share no kind, no child stands in for another type's |
| `AccessorExactness.WithoutReached` | xtask/src/codegen.rs:158-198 | where the recursion says a label can appear without another, some derivation does it |
| `AccessorExactness.WithoutIsFound` | xtask/src/codegen.rs:158-198 | a derivation in which a label appears without another is one the recursion foresees |
| `AccessorExactness.PrecedenceReached` | xtask/src/codegen.rs:158-198 | where the recursion says a label can stand ahead of another, some derivation does it |
| `AccessorExactness.PrecedenceIsFound` | xtask/src/codegen.rs:158-198 | a derivation in which a label stands ahead of another is one the recursion foresees |

## Left out

- The front end, the lowering and the loader. Unique declaration names are
  assumed of a package where the lemmas say so, and an induced tuple stands
  inline in its type, so the graph of tuple indices is taken to be well founded.
- Text: layout, doc comments, wording of refusals and rendered constraints. A
  refusal is a flag; a constraint's rendered form is a given string.
- The case transforms (`snake_case`, `camel_case`, SCREAMING_SNAKE) are functions
  about which nothing is assumed, except in `FaceClaims`, where `camel_case` is
  modelled and the upper case of a character is taken to hold no new underscore.
- `Defaults.BuildSamePackage`: a stack entry is a declaration's name; that two
  spellings of one local reference are one entry is taken from the lowering.
- `DefaultValues.EmittedDefaultHasDeclaredShape`: the upper bound on a length is
  stated when the minimum does not pass it; a bare string or bytes position is
  empty whatever its init, as the code has it.
- `DeriveLists.DeclarationDerivesCompile`: a foreign type is a path with no known
  traits beyond those every generated type derives.
- `HeadLoads.EncodeHead`: the producer is the rule of the encoder's duty, not the
  Rust codec; tails and descriptors' targets are not modelled.
- `HeadForms.HeaderHoldsIff`: C types are taken at the sizes their names and the
  preamble's assertions give them; an inline head at the size of its own struct.
- `ProtoEnum.EmitPackage`: the fields of messages and unions, and what is refused
  inside them, are not modelled; the names of induced messages are given, each
  once, as the worklist of `FlatBuffersSchema` would give them.
- `ProtoEnum.EmittedEnumIsValidIff`: the compiler's comparison of value names with
  the enum's prefix removed is not among the rules.
- `FindingIds.DumpedFindingValidates`: the labels and reasons added by hand are
  not modelled; how a check reads its metric is any function of the message.
- `FindingDump.DumpCorpus`: failures of the file system, of the build and of
  parsing are not modelled, nor names that are not text; paths are those of Unix,
  with the workspace's own directory taken off already.
- `CohesionMessage.ReadMessage`: only the cohesion lint's message; the other
  three forms have no list structure.
- `ThresholdSearch.Search`: the recall column and the percentages of the summary
  are not modelled, nor the overflow of a coordinate that the parser's upper
  bound excludes.
- `AccessorExactness.PositionalIsExactIff`: trees with error nodes.
- Token accessors, accessor names, the codecs, the descriptors, the clauses and
  the contracts of every backend, the identity tables' text, file and process
  work: they would add only easy members.
- Union discriminants after a retired arm, on which schema and representation are
  recorded as disagreeing.
