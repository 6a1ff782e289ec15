# svd2swift export core, modelled in Dafny

This project models the part of swift-mmio's `svd2swift` generator that turns a
decoded SVD device description into Swift register-interface declarations:

- **Register-property inheritance.** `SVDRegisterProperties` is a record of five
  optional defaults (size, access, protection, reset value, reset mask).
  `merging` combines two of them field by field, and the receiver's values win.
  The export threads these defaults from the device down to every peripheral,
  cluster, register and field (module `Properties`).
- **Write-constraint decoding.** `SVDWriteConstraint.init` tries the
  `writeAsRead`, `useEnumeratedValues` and `range` children in that order. It
  fails with `unknownElement` when none of them decodes (module
  `WriteConstraints`).
- **Peripheral selection.** With an empty selection every peripheral is
  exported; otherwise the selected names are looked up, and an unknown one
  fails. The result is sorted ascending by name (module `Selection`).
- **Declarations** (module `Declarations`):
  - the accessor each node declares in its parent;
  - the type each node declares;
  - the replicas of dimensioned peripherals, clusters and fields, at
    `base + i * stride` (a dimensioned peripheral or cluster without a known
    stride gets no accessor at all);
  - the naming of field types;
  - the narrowing of the five SVD access kinds to four accessor macros.
- **The traversal engine** (module `Engine`):
  - first, a `Device.swift` unit with the accessors of every exported
    peripheral (several for a dimensioned one, none for a dimensioned one
    without a known stride);
  - then, for each peripheral, a breadth-first walk over an explicit work queue
    advanced by an index cursor. Each work item writes its elements' types,
    inside an `extension` scope named by its type path when that path is
    non-empty, and enqueues the children of its elements.

The loop is modelled twice: as the cursor loop the generator runs
(`Engine.RunQueue`) and as a recursive function (`Engine.Traversal`). The
loop is proved to compute the function. This makes the whole export a function
of the device and the export context (`Engine.ExportOutput`).

The generated text is modelled as a list of declaration records (module
`Output`), not as characters. The records are:

- one record per accessor, type opening, typealias and bit field;
- explicit `Indent`/`Outdent` and `CloseScope` records for the writer's
  bookkeeping;
- a `Header` record and a `Flush(unit)` record around each compilation unit.

`Balanced` says that both the indentation counter and the brace counter
return to zero and never go negative.

Schema names become Swift identifiers through `swiftName`, whose sanitisation
rules are not part of this model. It is therefore a parameter of the export
context.

Swift's `UInt64` arithmetic traps on overflow. The model computes addresses,
offsets and bit positions as unbounded naturals. An export that would write a
number above `UInt64.max` ends in `Failure(Overflow)` instead of producing
output. Every emitted number is a sum of non-negative terms, so an
intermediate product that overflows forces the emitted value to overflow too.
One trap is not an emitted number: a dimensioned field without `dimIncrement`
takes its bit count as stride, and Swift counts a range as an `Int`, so a
field wider than `Int.max` bits traps before any copy is written (even for
`dim` 0). That field emits a `Trap` record, which never fits, so the export
ends in `Failure(Overflow)` as well.

`Properties.Effective` threads defaults down a chain of tree levels, one merge
per level. `Engine.ChildItemEffective` shows that each enqueued child adds one
level to that chain.

## Model

| member | source | states |
|---|---|---|
| Properties.RegisterProperties.Merging | Sources/SVD/Models/SVDRegisterProperties.swift:51-58 | For each of the five fields, a value set on the receiver is kept, and a field the receiver leaves unset takes the argument's value. |
| Properties.MergingIdentity | Sources/SVD/Models/SVDRegisterProperties.swift:44-58 | `.none` is a left and a right identity of merging. |
| Properties.MergingIdempotent | Sources/SVD/Models/SVDRegisterProperties.swift:51-58 | Merging a record with itself gives it back. |
| Properties.MergingAssociative | Sources/SVD/Models/SVDRegisterProperties.swift:51-58 | Merging is associative. |
| Properties.EffectiveFactorsThroughRoot | Sources/SVD2Swift/Extensions/SVD+Export.swift:132-141 | Threading defaults down a chain of levels is the chain collapsed on its own, then merged over the root's defaults. |
| Properties.EffectiveAppend | Sources/SVD2Swift/Extensions/SVD+Export.swift:132-141 | Threading through an outer chain and then an inner one equals threading through their concatenation. |
| Properties.EffectiveSizeIsInnermost | Sources/SVD2Swift/Extensions/SVD+Export.swift:409-411 | The size in effect is the size of the innermost level that sets one. |
| Properties.EffectiveSizeFromRoot | Sources/SVD2Swift/Extensions/SVD+Export.swift:409-411 | When no level sets a size, the root's size is in effect. |
| WriteConstraints.Decode | Sources/SVD/Models/SVDWriteConstraint.swift:40-56 | `writeAsRead` wins whenever it decodes. `useEnumeratedValues` is chosen exactly when it decodes and `writeAsRead` does not. `range` is chosen exactly when only it decodes. Decoding fails with `unknownElement(description)` exactly when none decodes. |
| WriteConstraints.DecodeEncode | Sources/SVD/Models/SVDWriteConstraint.swift:17-56 | Decoding the single-child element of a constraint gives that constraint back. |
| WriteConstraints.DecodeDependsOnFirstChild | Sources/SVD/Models/SVDWriteConstraint.swift:40-56 | Two elements that agree on the first child present decode alike, whatever later children either carries: agreeing on a present `writeAsRead` suffices; with no `writeAsRead` in either, agreeing on a present `useEnumeratedValues` suffices; with neither, agreeing on a present `range` suffices. |
| Selection.Lookup | Sources/SVD2Swift/Extensions/SVD+Export.swift:61-64 | A name-keyed lookup finds a peripheral exactly when the name occurs. It returns the last peripheral of that name in document order. |
| Selection.Resolve | Sources/SVD2Swift/Extensions/SVD+Export.swift:65-71 | Succeeds exactly when every selected name exists, with one lookup result per selected name, in selection order. Otherwise it fails on the first unknown name with `unknownPeripheral(name, all names)`. |
| Selection.SortByName | Sources/SVD2Swift/Extensions/SVD+Export.swift:73 | The result is sorted ascending by name and is a permutation of the input. |
| Selection.SortByNameStable | Sources/SVD2Swift/Extensions/SVD+Export.swift:73 | The sort is stable: for every name, the peripherals carrying it appear in the output in their input order. |
| Selection.ExportedPeripherals | Sources/SVD2Swift/Extensions/SVD+Export.swift:57-73 | An empty selection exports a sorted permutation of all peripherals, keeping the document order among equal names. A selection succeeds exactly when every selected name exists. It then exports a sorted permutation of the looked-up peripherals: device peripherals carrying exactly the selected names. A failure names the first unknown selected name. |
| Selection.ExportOrderIndependent | Sources/SVD2Swift/Extensions/SVD+Export.swift:57-73 | The exported name order depends neither on the document order of the peripherals nor on the order of the selection. |
| Declarations.AccessMacro | Sources/SVD2Swift/Extensions/SVD+Export.swift:470-481 | The macro reads exactly when the access allows reading and writes exactly when it allows writing. An absent access gives `Reserved`, and only an absent access does. |
| Declarations.FieldNameAsWritten | Sources/SVD2Swift/Extensions/SVD+Export.swift:441-460 | As written: the suffix is appended on a clash with the register's name, and then an all-lowercase name is uppercased. A suffixed name with an upper-case letter is kept; one without is uppercased. The result has the same letters as the suffixed name and is never all-lowercase. |
| Declarations.FieldNameAsWrittenCollides | Sources/SVD2Swift/Extensions/SVD+Export.swift:445-457 | As written, field `ctrl` of register `CTRL` is named `CTRL`, the register's own name. |
| Declarations.FieldName | Sources/SVD2Swift/Extensions/SVD+Export.swift:441-460 | Corrected: the field type name never equals the register's name. A field named like its register gets the suffix appended to its name, as the generator does. Any other field gets its recased name, suffixed when that recased name is the register's. Its lowercase form is the field's, possibly followed by `_field`. It is never all-lowercase. |
| Declarations.FieldNameAgreesAsWritten | Sources/SVD2Swift/Extensions/SVD+Export.swift:441-460 | The corrected name equals the generator's name except when the field differs from its register's name but recases to it. There the generator gives the register's own name and the corrected name appends the suffix to it. |
| Declarations.Replicas | Sources/SVD2Swift/Extensions/SVD+Export.swift:250-251 | Exactly `count` positions, position `i` at `base + i * stride`. |
| Declarations.ReplicaNamesDistinct | Sources/SVD2Swift/Extensions/SVD+Export.swift:255 | Replica identifiers `name0`, `name1`, … are pairwise distinct. |
| Declarations.PeripheralAccessors | Sources/SVD2Swift/Extensions/SVD+Export.swift:226-270 | A plain peripheral gives one accessor at its base address. A dimensioned one gives exactly `dim` accessors, accessor `i` named with `i` appended at `base + i * stride`. The stride is `dimIncrement`, else the merged size, and without either there is no accessor. Accessors are static exactly when namespaced under an enum device. |
| Declarations.ClusterAccessors | Sources/SVD2Swift/Extensions/SVD+Export.swift:274-314 | The same replica rule for clusters, from the cluster's address offset. |
| Declarations.RegisterAccessors | Sources/SVD2Swift/Extensions/SVD+Export.swift:370-403 | A plain register gives one register accessor. A dimensioned register with a known stride gives exactly one `RegisterArray` with its offset, stride and count, and never copies. Without a stride it gives nothing. |
| Declarations.FieldAccessors | Sources/SVD2Swift/Extensions/SVD+Export.swift:462-511 | The macro comes from the field's access, else the register's. A plain field gives one bit field over its range. A dimensioned field gives `dim` bit fields, copy `i` shifted by `i * stride` bits and named with `i` appended. The stride defaults to the field's width, and a field whose default stride exceeds `Int.max` emits only a `Trap` record. |
| Declarations.FieldAccessorsWidth | Sources/SVD2Swift/Extensions/SVD+Export.swift:483-501 | Every bit field of a field spans exactly the field's width. A field whose default stride exceeds `Int.max` leaves output that does not fit. |
| Declarations.WideFieldStrideTraps | Sources/SVD2Swift/Extensions/SVD+Export.swift:484-486 | A field of `Int.max + 1` bits with `dim` 0 and no `dimIncrement` emits only a trap, so its output does not fit: the stride is computed before the replica loop. |
| Declarations.FieldReplicasDisjoint | Sources/SVD2Swift/Extensions/SVD+Export.swift:484-501 | With the default stride, the replicas of a dimensioned field occupy non-overlapping bit ranges in index order, whenever the stride does not trap. |
| Declarations.PeripheralType | Sources/SVD2Swift/Extensions/SVD+Export.swift:172-224 | The properties passed on are the peripheral's own merged over the inherited ones. A derived peripheral gives only a typealias and no children. Otherwise it gives a register block whose children are its registers and then its clusters, in document order. The output is balanced. |
| Declarations.ClusterType | Sources/SVD2Swift/Extensions/SVD+Export.swift:316-366 | The same for clusters: merged properties, typealias and no children when derived, else registers and then clusters as children. |
| Declarations.RegisterType | Sources/SVD2Swift/Extensions/SVD+Export.swift:405-437 | A register never has children. It writes nothing when its merged size is unknown, and otherwise a balanced `@Register(bitWidth: size)` struct. |
| Declarations.BlockType | Sources/SVD2Swift/Extensions/SVD+Export.swift:184-219 | A register block is balanced and opens with the block's Swift name. Inside it come the registers' accessors and then the clusters' accessors. |
| Declarations.RegisterStruct | Sources/SVD2Swift/Extensions/SVD+Export.swift:411-431 | A register struct is balanced and opens with the register's Swift name and size. Inside it come its fields' bit fields, with an absent field list read as empty. |
| Engine.ChildItem | Sources/SVD2Swift/Extensions/SVD+Export.swift:131-142 | A child item has elements. It sits one level below its parent on the type path, named by the element's Swift name. It inherits the element's own properties merged over the inherited ones. |
| Engine.ChildItemEffective | Sources/SVD2Swift/Extensions/SVD+Export.swift:131-141 | A child below a node that inherited the effective properties of a chain inherits those of the chain extended by the node's own properties. |
| Engine.ChildItemWhen | Sources/SVD2Swift/Extensions/SVD+Export.swift:131-142 | Registers and derived nodes never enqueue. A defining peripheral or cluster enqueues exactly when it has a register or a cluster. |
| Engine.ExportTypes | Sources/SVD2Swift/Extensions/SVD+Export.swift:131-146 | The types of a list of siblings are balanced and hold only node records: no scope extension, header, flush or device namespace. |
| Engine.ExportTypesAppend | Sources/SVD2Swift/Extensions/SVD+Export.swift:131-146 | The types of two lists in a row are the first list's types followed by the second's, so each element's types appear in element order. |
| Engine.ProcessItem | Sources/SVD2Swift/Extensions/SVD+Export.swift:124-151 | A work item's output is balanced. It opens an `extension` scope, as its first record, exactly when its path is non-empty. It never flushes. |
| Engine.ProcessItemNext | Sources/SVD2Swift/Extensions/SVD+Export.swift:135-141 | Every enqueued item has elements and sits one level below its parent on the type path. |
| Engine.ProcessItemEnqueues | Sources/SVD2Swift/Extensions/SVD+Export.swift:131-142 | The items a work item enqueues are its elements' child items, one per element with children, in element order (`ChildItems`, read front to back). Each comes from one element, and every element with children contributes its own. |
| Engine.RunQueue | Sources/SVD2Swift/Extensions/SVD+Export.swift:114-152 | The queue starts with the initial item and holds exactly what the processed items enqueued, in FIFO order. Depth never decreases along the queue (breadth-first), and every item has elements. The output is everything the items wrote, in order. It equals the recursive walk `Traversal`, is balanced and holds no unit boundary. |
| Engine.Drain | Sources/SVD2Swift/Extensions/SVD+Export.swift:114-152 | The recursive walk terminates, because each item enqueues less weight than it carries. What it writes is balanced and holds no unit boundary. |
| Engine.DeviceBody | Sources/SVD2Swift/Extensions/SVD+Export.swift:77-103 | The device body is the exported peripherals' accessors. A namespaced export wraps them in a `struct` (instance members) or `enum` device declaration named by the override or the device's Swift name. That declaration is the only one, and it comes first. |
| Engine.PeripheralListAccessorsAppend | Sources/SVD2Swift/Extensions/SVD+Export.swift:91-98 | The accessors of two lists in a row are the first list's followed by the second's, and a single peripheral contributes exactly its own accessors, so the device unit lists them peripheral by peripheral in export order. |
| Engine.DeviceUnit | Sources/SVD2Swift/Extensions/SVD+Export.swift:75-104 | The device unit is the header, the device body, and one flush as `Device.swift`, at its end. It is balanced. |
| Engine.PeripheralUnit | Sources/SVD2Swift/Extensions/SVD+Export.swift:106-153 | A peripheral's unit is balanced and flushes exactly once, under the peripheral's Swift name with `.swift` appended. |
| Engine.PeripheralUnits | Sources/SVD2Swift/Extensions/SVD+Export.swift:106-153 | The peripherals' units are balanced and flush one unit per peripheral, in order. |
| Engine.ExportOutput | Sources/SVD2Swift/Extensions/SVD+Export.swift:75-153 | The whole output is balanced and flushes `Device.swift` and then one unit per exported peripheral. |
| Engine.ExportDevice | Sources/SVD2Swift/Extensions/SVD+Export.swift:54-155 | A selection failure is returned before anything is written. Otherwise the result is exactly `ExportOutput` of the exported peripherals, or `Overflow` exactly when some number in it does not fit a `UInt64` or it holds a trap. On success the output starts with the device unit and flushes `Device.swift`, then one unit per exported peripheral in ascending name order. It is balanced. |

## Left out

- Output writer, file writing and the header text: the writer is replaced by the
  list of records and `Flush` markers; text formatting (`comment:`, `hex:`,
  `identifier:` interpolation, newline separators between declarations, the
  access-level prefix) has no invariant beyond the order of the records.
- Descriptions and their doc comments: they only become comments.
- `swiftName` sanitisation: defined outside these files; a parameter.
- Case mapping: `lowercased()`/`uppercased()` are modelled on ASCII letters only.
- String ordering: Swift compares strings by Unicode canonical equivalence; the
  model orders them lexicographically by character value.
- Warnings printed for skipped nodes: only the skip is modelled.
- XML decoding, the `@XMLElement` macro and the conformances: library
  machinery; a write-constraint element is modelled by its three optional
  decoded children, the tree by already-decoded datatypes.
- Field enumerations and `SVDEnumerationCaseDataValue`: no logic here, and the
  export does not read them.
- SVD bit-range notations: a field's range is modelled directly as the half-open
  Swift range the export reads.
- Declarations.FieldAccessors: names each field's bit field type with the
  corrected `FieldName`, not with the generator's name as written
  (`FieldNameAsWritten`). The two differ only when an all-lowercase field name
  uppercases to its register's name (`FieldNameAgreesAsWritten`, "Findings").
- Engine.ExportDevice: on a `UInt64` overflow or the `Int` stride trap the generator traps after having
  written the units finished so far; the model reports `Overflow` for the whole
  export and does not describe those earlier units.
- Absent and empty register, cluster and field lists are treated alike, as the
  export does.

## Findings

| source | as written | input that shows it | evidently intended | confidence | as-written member | corrected member |
|---|---|---|---|---|---|---|
| Sources/SVD2Swift/Extensions/SVD+Export.swift:441-460 | the clash with the register's name is checked before an all-lowercase name is uppercased | field `ctrl` in register `CTRL` (identity `swiftName`) gets type name `CTRL`, the register's own type name | check the clash again after uppercasing, so the field type never takes the register's name | high; not executed | Declarations.FieldNameAsWrittenCollides | Declarations.FieldName |
