/** What each node of the tree contributes to the generated text: the
    accessor declared in its parent (`exportAccessor`), the type declared
    for it (`exportType`), field naming, access narrowing and the replica
    arithmetic of dimensioned elements. */
module Declarations {
  import opened Base
  import opened Strings
  import opened Properties
  import opened Svd
  import opened Output

  /** The export options the declarations depend on. `swiftName` turns a
      schema name into a Swift identifier; its sanitisation rules are not
      part of this model, so it is a parameter. */
  datatype Context = Context(
    swiftName: string -> string,
    selectedPeripherals: seq<string>,
    namespaceUnderDevice: bool,
    instanceMemberPeripherals: bool,
    overrideDeviceName: Option<string>)

  /** The nodes that can be exported as a type with accessors. */
  datatype Exportable =
    | PeripheralNode(peripheral: Peripheral)
    | ClusterNode(cluster: Cluster)
    | RegisterNode(register: Register)

  function NodeName(e: Exportable): string {
    match e
    case PeripheralNode(p) => p.name
    case ClusterNode(c) => c.name
    case RegisterNode(r) => r.name
  }

  /** Records a node may emit: no scope extension, header or unit flush,
      which only the traversal engine writes. */
  predicate NodeOutput(s: seq<Out>) {
    forall i :: 0 <= i < |s| ==> !s[i].OpenScope? && !s[i].Flush? && !s[i].Header? && !s[i].DeviceOpen?
  }

  // ---------------------------------------------------------------- access

  predicate Readable(a: Access) {
    a.ReadOnly? || a.ReadWrite? || a.ReadWriteOnce?
  }

  predicate Writable(a: Access) {
    a.WriteOnly? || a.ReadWrite? || a.WriteOnce? || a.ReadWriteOnce?
  }

  predicate MacroReads(m: Macro) {
    m.ReadOnlyMacro? || m.ReadWriteMacro?
  }

  predicate MacroWrites(m: Macro) {
    m.WriteOnlyMacro? || m.ReadWriteMacro?
  }

  /** Narrows the five SVD access kinds to the four accessor macros: the
      macro reads exactly when the access allows reading and writes exactly
      when it allows writing (the "once" restrictions are dropped), and an
      unknown access gives the reserved macro. */
  function AccessMacro(access: Option<Access>): (m: Macro)
    ensures m.ReservedMacro? <==> access.None?
    ensures access.Some? ==> (MacroReads(m) <==> Readable(access.value))
    ensures access.Some? ==> (MacroWrites(m) <==> Writable(access.value))
  {
    match access
    case Some(ReadOnly) => ReadOnlyMacro
    case Some(WriteOnly) => WriteOnlyMacro
    case Some(ReadWrite) => ReadWriteMacro
    case Some(WriteOnce) => WriteOnlyMacro
    case Some(ReadWriteOnce) => ReadWriteMacro
    case None => ReservedMacro
  }

  // ---------------------------------------------------------------- naming

  const FieldSuffix := "_FIELD"

  /** Field type name exactly as the generator computes it: suffix on a clash
      with the register's name, then uppercase an all-lowercase result. The
      second step can re-create the clash the first one avoided; see
      `FieldNameAsWrittenCollides`. */
  function FieldNameAsWritten(swiftName: string -> string, field: Field, register: Register): (r: string)
    ensures var base := if swiftName(field.name) == swiftName(register.name)
                        then swiftName(field.name) + FieldSuffix else swiftName(field.name);
            && Lower(r) == Lower(base)
            && (HasUpperLetter(base) ==> r == base)
            && (!HasUpperLetter(base) ==> r == Upper(base))
    ensures HasLetter(r) ==> r != Lower(r)
  {
    var name := swiftName(field.name);
    var name := if name == swiftName(register.name) then name + FieldSuffix else name;
    RecaseKeepsLetters(name);
    if name == Lower(name) then Upper(name) else name
  }

  /** The field type name: suffixed on a clash with the register's name, as
      the generator does, and also when the recased name would clash, so the
      field never takes its register's name. Used by the rest of the model. */
  function FieldName(swiftName: string -> string, field: Field, register: Register): (r: string)
    ensures r != swiftName(register.name)
    ensures swiftName(field.name) == swiftName(register.name)
            ==> r == swiftName(field.name) + FieldSuffix
    ensures var cased := Recase(swiftName(field.name));
            swiftName(field.name) != swiftName(register.name)
            ==> r == (if cased == swiftName(register.name) then cased + FieldSuffix else cased)
    ensures Lower(r) == Lower(swiftName(field.name))
            || Lower(r) == Lower(swiftName(field.name)) + Lower(FieldSuffix)
    ensures HasLetter(r) ==> r != Lower(r)
  {
    var name := swiftName(field.name);
    var cased := Recase(name);
    RecaseKeepsLetters(name);
    var base := if name == swiftName(register.name) then name else cased;
    if base == swiftName(register.name) then
      SuffixedHasUpper(base);
      LowerAppend(name, FieldSuffix);
      base + FieldSuffix
    else
      cased
  }

  /** Appending the field suffix always gives an upper-case letter. */
  lemma SuffixedHasUpper(name: string)
    ensures Lower(name + FieldSuffix) == Lower(name) + Lower(FieldSuffix)
    ensures name + FieldSuffix != Lower(name + FieldSuffix)
  {
    LowerAppend(name, FieldSuffix);
    assert IsUpperLetter((name + FieldSuffix)[|name| + 1]);
    LowerFixedIff(name + FieldSuffix);
  }

  /** The model's field name and the generator's differ only in the clash the
      generator misses: a field that differs from its register's name but
      recases to it, where the model appends the suffix once more. */
  lemma FieldNameAgreesAsWritten(swiftName: string -> string, field: Field, register: Register)
    ensures var name := swiftName(field.name);
            var reg := swiftName(register.name);
            !(name != reg && Recase(name) == reg)
            ==> FieldName(swiftName, field, register) == FieldNameAsWritten(swiftName, field, register)
    ensures var name := swiftName(field.name);
            var reg := swiftName(register.name);
            name != reg && Recase(name) == reg
            ==> && FieldNameAsWritten(swiftName, field, register) == reg
                && FieldName(swiftName, field, register) == reg + FieldSuffix
  {
    var name := swiftName(field.name);
    RecaseKeepsLetters(name);
    if name == swiftName(register.name) {
      SuffixedHasUpper(name);
      LowerFixedIff(name + FieldSuffix);
    }
  }

  /** Uppercases a name that has no upper-case letter. */
  function Recase(name: string): string {
    if name == Lower(name) then Upper(name) else name
  }

  lemma RecaseKeepsLetters(name: string)
    ensures Lower(Recase(name)) == Lower(name)
    ensures HasUpperLetter(name) ==> Recase(name) == name
    ensures !HasUpperLetter(name) ==> Recase(name) == Upper(name)
    ensures HasLetter(Recase(name)) ==> Recase(name) != Lower(Recase(name))
  {
    LowerFixedIff(name);
    LowerOfUpper(name);
    UpperHasNoLowerLetter(name);
    LowerFixedIff(Recase(name));
  }

  /** The generator as written names field `ctrl` of register `CTRL`
      `CTRL`, the register's own name. */
  lemma FieldNameAsWrittenCollides()
    ensures var field := Field("ctrl", None, RawBitRange(0, 1), Scalar, None);
            var register := Register("CTRL", 0, Scalar, NoProperties, None);
            FieldNameAsWritten(s => s, field, register) == "CTRL"
  {
    var field := Field("ctrl", None, RawBitRange(0, 1), Scalar, None);
    var register := Register("CTRL", 0, Scalar, NoProperties, None);
    assert Lower("ctrl") == "ctrl";
    assert Upper("ctrl") == "CTRL";
  }

  // -------------------------------------------------------------- replicas

  /** Positions of `count` replicas starting at `base`, `stride` apart. */
  function Replicas(base: nat, stride: nat, count: nat): (r: seq<nat>)
    ensures |r| == count
    ensures forall i :: 0 <= i < count ==> r[i] == base + i * stride
    decreases count
  {
    if count == 0 then [] else Replicas(base, stride, count - 1) + [base + (count - 1) * stride]
  }

  /** Replica identifiers `name0`, `name1`, ... are pairwise distinct. */
  lemma ReplicaNamesDistinct(name: string, i: nat, j: nat)
    requires name + Decimal(i) == name + Decimal(j)
    ensures i == j
  {
    assert Decimal(i) == (name + Decimal(i))[|name|..];
    DecimalInjective(i, j);
  }

  /** The stride of a dimensioned peripheral, cluster or register: its own
      `dimIncrement`, else the merged register size, else unknown. */
  function NodeStride(d: Dimension, merged: RegisterProperties): Option<nat> {
    d.dimIncrement.Or(merged.size)
  }

  // ------------------------------------------------------------- accessors

  /** The accessor(s) of a peripheral in the device scope. */
  function PeripheralAccessors(ctx: Context, p: Peripheral, inherited: RegisterProperties): (out: seq<Out>)
    ensures var typeName := ctx.swiftName(p.name);
            var isStatic := ctx.namespaceUnderDevice && !ctx.instanceMemberPeripherals;
            var stride := NodeStride(p.dimension, p.properties.Merging(inherited));
            && (p.dimension.dim.None? ==>
                  out == [PeripheralAccessor(Lower(typeName), typeName, p.baseAddress, isStatic)])
            && (p.dimension.dim.Some? && stride.None? ==> out == [])
            && (p.dimension.dim.Some? && stride.Some? ==>
                  |out| == p.dimension.dim.value
                  && forall i :: 0 <= i < |out| ==>
                       out[i] == PeripheralAccessor(Lower(typeName) + Decimal(i), typeName,
                                                    p.baseAddress + i * stride.value, isStatic))
  {
    var typeName := ctx.swiftName(p.name);
    var instanceName := Lower(typeName);
    var isStatic := ctx.namespaceUnderDevice && !ctx.instanceMemberPeripherals;
    var merged := p.properties.Merging(inherited);
    match p.dimension.dim
    case None => [PeripheralAccessor(instanceName, typeName, p.baseAddress, isStatic)]
    case Some(count) =>
      match NodeStride(p.dimension, merged)
      case None => []
      case Some(stride) =>
        PeripheralReplicas(instanceName, typeName, p.baseAddress, stride, count, isStatic)
  }

  /** `count` accessors of one peripheral type, copy `i` at `i` strides past
      `base` and named with the index appended. */
  function PeripheralReplicas(instanceName: string, typeName: string, base: nat, stride: nat, count: nat, isStatic: bool): (out: seq<Out>)
    ensures |out| == count
    ensures forall i :: 0 <= i < count ==>
              out[i] == PeripheralAccessor(instanceName + Decimal(i), typeName, base + i * stride, isStatic)
  {
    var addresses := Replicas(base, stride, count);
    seq(count, i requires 0 <= i < count =>
      PeripheralAccessor(instanceName + Decimal(i), typeName, addresses[i], isStatic))
  }

  /** The accessor(s) of a cluster inside its parent's type. */
  function ClusterAccessors(ctx: Context, c: Cluster, inherited: RegisterProperties): (out: seq<Out>)
    ensures var typeName := ctx.swiftName(c.name);
            var stride := NodeStride(c.dimension, c.properties.Merging(inherited));
            && (c.dimension.dim.None? ==>
                  out == [ClusterVar(Lower(typeName), typeName, c.addressOffset)])
            && (c.dimension.dim.Some? && stride.None? ==> out == [])
            && (c.dimension.dim.Some? && stride.Some? ==>
                  |out| == c.dimension.dim.value
                  && forall i :: 0 <= i < |out| ==>
                       out[i] == ClusterVar(Lower(typeName) + Decimal(i), typeName,
                                            c.addressOffset + i * stride.value))
  {
    var typeName := ctx.swiftName(c.name);
    var instanceName := Lower(typeName);
    var merged := c.properties.Merging(inherited);
    match c.dimension.dim
    case None => [ClusterVar(instanceName, typeName, c.addressOffset)]
    case Some(count) =>
      match NodeStride(c.dimension, merged)
      case None => []
      case Some(stride) =>
        ClusterReplicas(instanceName, typeName, c.addressOffset, stride, count)
  }

  /** `count` accessors of one cluster type, copy `i` at `i` strides past
      `offset` and named with the index appended. */
  function ClusterReplicas(instanceName: string, typeName: string, offset: nat, stride: nat, count: nat): (out: seq<Out>)
    ensures |out| == count
    ensures forall i :: 0 <= i < count ==>
              out[i] == ClusterVar(instanceName + Decimal(i), typeName, offset + i * stride)
  {
    var offsets := Replicas(offset, stride, count);
    seq(count, i requires 0 <= i < count => ClusterVar(instanceName + Decimal(i), typeName, offsets[i]))
  }

  lemma PeripheralAccessorsClean(ctx: Context, p: Peripheral, inherited: RegisterProperties)
    ensures Neutral(PeripheralAccessors(ctx, p, inherited)) && NodeOutput(PeripheralAccessors(ctx, p, inherited))
  {
  }

  lemma ClusterAccessorsClean(ctx: Context, c: Cluster, inherited: RegisterProperties)
    ensures Neutral(ClusterAccessors(ctx, c, inherited)) && NodeOutput(ClusterAccessors(ctx, c, inherited))
  {
  }

  lemma CleanAppend(a: seq<Out>, b: seq<Out>)
    requires Neutral(a) && NodeOutput(a) && Neutral(b) && NodeOutput(b)
    ensures Neutral(a + b) && NodeOutput(a + b)
  {
  }

  /** The accessor of a register: a dimensioned register is never splatted
      into copies but declared once as a register array. */
  function RegisterAccessors(ctx: Context, r: Register, inherited: RegisterProperties): (out: seq<Out>)
    ensures |out| <= 1
    ensures var typeName := ctx.swiftName(r.name);
            var stride := NodeStride(r.dimension, r.properties.Merging(inherited));
            && (r.dimension.dim.None? ==> out == [RegisterVar(Lower(typeName), typeName, r.addressOffset)])
            && (r.dimension.dim.Some? && stride.None? ==> out == [])
            && (r.dimension.dim.Some? && stride.Some? ==>
                  out == [RegisterArray(Lower(typeName), typeName, r.addressOffset,
                                        stride.value, r.dimension.dim.value)])
    ensures Neutral(out) && NodeOutput(out)
  {
    var typeName := ctx.swiftName(r.name);
    var instanceName := Lower(typeName);
    var merged := r.properties.Merging(inherited);
    match r.dimension.dim
    case None => [RegisterVar(instanceName, typeName, r.addressOffset)]
    case Some(count) =>
      match NodeStride(r.dimension, merged)
      case None => []
      case Some(stride) => [RegisterArray(instanceName, typeName, r.addressOffset, stride, count)]
  }

  /** The bit-field declaration(s) of a field inside its register's type.
      Fields have no register properties of their own: `inherited` is the
      register's merged record, and only its access is consulted. */
  function FieldAccessors(ctx: Context, f: Field, register: Register, inherited: RegisterProperties): (out: seq<Out>)
    ensures FieldDeclared(out, AccessMacro(f.access.Or(inherited.access)), f, FieldName(ctx.swiftName, f, register))
  {
    FieldDecls(AccessMacro(f.access.Or(inherited.access)), f, FieldName(ctx.swiftName, f, register))
  }

  /** `out` declares field `f` as bit fields of type `typeName` with `macro`:
      one over its range when it is plain; otherwise `dim` copies, copy `i`
      shifted by `i` strides and named with `i` appended, the stride being
      `dimIncrement`, else the field's width; or a trap when that width does
      not fit an `Int`. */
  predicate FieldDeclared(out: seq<Out>, macro: Macro, f: Field, typeName: string) {
    var lo := f.bitRange.lowerBound;
    var hi := f.bitRange.upperBound;
    var stride := f.dimension.dimIncrement.GetOr(Width(f.bitRange));
    && (f.dimension.dim.None? ==> out == [FieldVar(macro, lo, hi, Lower(typeName), typeName)])
    && (StrideTraps(f) ==> out == [Trap])
    && (f.dimension.dim.Some? && !StrideTraps(f) ==>
          |out| == f.dimension.dim.value
          && forall i :: 0 <= i < |out| ==>
               out[i] == FieldVar(macro, lo + i * stride, hi + i * stride,
                                  Lower(typeName) + Decimal(i), typeName + Decimal(i)))
  }

  /** The bit-field declaration(s) of field `f` under the type name `typeName`. */
  function FieldDecls(macro: Macro, f: Field, typeName: string): (out: seq<Out>)
    ensures FieldDeclared(out, macro, f, typeName)
  {
    var range := f.bitRange;
    match f.dimension.dim
    case None => [FieldVar(macro, range.lowerBound, range.upperBound, Lower(typeName), typeName)]
    case Some(count) =>
      if StrideTraps(f) then [Trap]
      else
        var stride := f.dimension.dimIncrement.GetOr(Width(range));
        FieldReplicas(macro, range, stride, count, typeName)
  }

  /** A dimensioned field without `dimIncrement` takes its bit count as its
      stride. Swift reads that count as an `Int`, which traps for a range
      wider than `Int.max` bits, before any replica is written. */
  predicate StrideTraps(f: Field) {
    f.dimension.dim.Some? && f.dimension.dimIncrement.None? && Width(f.bitRange) > MaxInt
  }

  /** Every accessor of a field spans exactly the field's width; a field
      whose stride traps makes the output unfit. */
  lemma FieldAccessorsWidth(ctx: Context, f: Field, register: Register, inherited: RegisterProperties)
    ensures !StrideTraps(f) ==> FieldVarsOfWidth(FieldAccessors(ctx, f, register, inherited), Width(f.bitRange))
    ensures StrideTraps(f) ==> !AllFit(FieldAccessors(ctx, f, register, inherited))
    ensures Neutral(FieldAccessors(ctx, f, register, inherited)) && NodeOutput(FieldAccessors(ctx, f, register, inherited))
  {
    var out := FieldAccessors(ctx, f, register, inherited);
    if StrideTraps(f) {
      assert !Fits(out[0]);
      return;
    }
    if f.dimension.dim.Some? {
      var macro := AccessMacro(f.access.Or(inherited.access));
      var typeName := FieldName(ctx.swiftName, f, register);
      var stride := f.dimension.dimIncrement.GetOr(Width(f.bitRange));
      assert out == FieldDecls(macro, f, typeName);
      assert out == FieldReplicas(macro, f.bitRange, stride, f.dimension.dim.value, typeName);
    }
    FieldVarsClean(out, Width(f.bitRange));
  }

  /** A field of `Int.max + 1` bits declared as an array of none still traps:
      the stride is computed before the replica loop. */
  lemma WideFieldStrideTraps(ctx: Context, register: Register, inherited: RegisterProperties)
    ensures var field := Field("f", None, RawBitRange(0, MaxInt + 1), Dimension(Some(0), None), None);
            FieldAccessors(ctx, field, register, inherited) == [Trap]
            && !AllFit(FieldAccessors(ctx, field, register, inherited))
  {
    var field := Field("f", None, RawBitRange(0, MaxInt + 1), Dimension(Some(0), None), None);
    assert StrideTraps(field);
    FieldAccessorsWidth(ctx, field, register, inherited);
  }

  /** Every record is a bit-field accessor spanning `width` bits. */
  predicate FieldVarsOfWidth(s: seq<Out>, width: nat) {
    forall i :: 0 <= i < |s| ==> s[i].FieldVar? && s[i].upperBit - s[i].lowerBit == width
  }

  lemma FieldVarsClean(s: seq<Out>, width: nat)
    requires FieldVarsOfWidth(s, width)
    ensures Neutral(s) && NodeOutput(s)
  {
  }

  /** `count` copies of a bit field, copy `i` shifted up by `i * stride` bits
      and named with the index appended. */
  function FieldReplicas(macro: Macro, range: BitRange, stride: nat, count: nat, typeName: string): (out: seq<Out>)
    ensures |out| == count
    ensures forall i :: 0 <= i < count ==>
              out[i] == FieldVar(macro, range.lowerBound + i * stride, range.upperBound + i * stride,
                                 Lower(typeName) + Decimal(i), typeName + Decimal(i))
    ensures FieldVarsOfWidth(out, Width(range))
  {
    var lows := Replicas(range.lowerBound, stride, count);
    var highs := Replicas(range.upperBound, stride, count);
    seq(count, i requires 0 <= i < count =>
      FieldVar(macro, lows[i], highs[i], Lower(typeName) + Decimal(i), typeName + Decimal(i)))
  }

  /** With the default stride, the replicas of a dimensioned field occupy
      consecutive, non-overlapping bit ranges (when the stride does not trap,
      so that there are replicas). */
  lemma FieldReplicasDisjoint(ctx: Context, f: Field, register: Register, inherited: RegisterProperties, i: nat, j: nat)
    requires f.dimension.dim.Some? && f.dimension.dimIncrement.None?
    requires i < j < f.dimension.dim.value
    ensures var out := FieldAccessors(ctx, f, register, inherited);
            !StrideTraps(f) ==> out[i].upperBit <= out[j].lowerBit
  {
    if !StrideTraps(f) {
      var out := FieldAccessors(ctx, f, register, inherited);
      var w := Width(f.bitRange);
      assert out[i].upperBit == f.bitRange.upperBound + i * w;
      assert out[j].lowerBit == f.bitRange.lowerBound + j * w;
      assert (i + 1) * w == i * w + w;
      MulMonotone(i + 1, j, w);
    }
  }

  lemma MulMonotone(a: nat, b: nat, k: nat)
    requires a <= b
    ensures a * k <= b * k
  {
  }

  // ------------------------------------------------------- lists of nodes

  function RegisterListAccessors(ctx: Context, rs: seq<Register>, inherited: RegisterProperties): (out: seq<Out>)
    ensures Neutral(out) && NodeOutput(out)
    decreases |rs|
  {
    if rs == [] then []
    else
      var prefix := RegisterListAccessors(ctx, rs[..|rs| - 1], inherited);
      var last := RegisterAccessors(ctx, rs[|rs| - 1], inherited);
      CleanAppend(prefix, last);
      prefix + last
  }

  function ClusterListAccessors(ctx: Context, cs: seq<Cluster>, inherited: RegisterProperties): (out: seq<Out>)
    ensures Neutral(out) && NodeOutput(out)
    decreases |cs|
  {
    if cs == [] then []
    else
      var prefix := ClusterListAccessors(ctx, cs[..|cs| - 1], inherited);
      var last := ClusterAccessors(ctx, cs[|cs| - 1], inherited);
      ClusterAccessorsClean(ctx, cs[|cs| - 1], inherited);
      CleanAppend(prefix, last);
      prefix + last
  }

  function FieldListAccessors(ctx: Context, fs: seq<Field>, register: Register, inherited: RegisterProperties): (out: seq<Out>)
    ensures Neutral(out) && NodeOutput(out)
    decreases |fs|
  {
    if fs == [] then []
    else
      var prefix := FieldListAccessors(ctx, fs[..|fs| - 1], register, inherited);
      var last := FieldAccessors(ctx, fs[|fs| - 1], register, inherited);
      FieldAccessorsWidth(ctx, fs[|fs| - 1], register, inherited);
      CleanAppend(prefix, last);
      prefix + last
  }

  function RegisterNodes(rs: seq<Register>): (r: seq<Exportable>)
    ensures |r| == |rs|
    ensures forall i :: 0 <= i < |rs| ==> r[i] == RegisterNode(rs[i])
  {
    seq(|rs|, i requires 0 <= i < |rs| => RegisterNode(rs[i]))
  }

  function ClusterNodes(cs: seq<Cluster>): (r: seq<Exportable>)
    ensures |r| == |cs|
    ensures forall i :: 0 <= i < |cs| ==> r[i] == ClusterNode(cs[i])
  {
    seq(|cs|, i requires 0 <= i < |cs| => ClusterNode(cs[i]))
  }

  // ----------------------------------------------------------------- types

  /** What exporting a node's type yields: its declarations, the children to
      export next (one level deeper), and the properties they inherit. */
  datatype Exported = Exported(out: seq<Out>, children: seq<Exportable>, properties: RegisterProperties)

  /** The body of a `@RegisterBlock` type: register accessors, then cluster
      accessors, wrapped in an indented block. */
  function BlockType(ctx: Context, name: string, rs: seq<Register>, cs: seq<Cluster>, merged: RegisterProperties): (out: seq<Out>)
    ensures Balanced(out) && NodeOutput(out)
    ensures |out| >= 4 && out[0] == RegisterBlockOpen(ctx.swiftName(name)) && out[|out| - 1] == CloseScope
    ensures out[2..|out| - 2] == RegisterListAccessors(ctx, rs, merged) + ClusterListAccessors(ctx, cs, merged)
  {
    var body := RegisterListAccessors(ctx, rs, merged) + ClusterListAccessors(ctx, cs, merged);
    NodeBlock(RegisterBlockOpen(ctx.swiftName(name)), body);
    assert Block(RegisterBlockOpen(ctx.swiftName(name)), body)[2..|body| + 2] == body;
    Block(RegisterBlockOpen(ctx.swiftName(name)), body)
  }

  /** A type declaration around neutral declarations is balanced and
      stays within what a node may emit. */
  lemma NodeBlock(open: Out, body: seq<Out>)
    requires open.RegisterBlockOpen? || open.RegisterOpen?
    requires Neutral(body) && NodeOutput(body)
    ensures Balanced(Block(open, body)) && NodeOutput(Block(open, body))
  {
    BalancedNeutral(body);
    BalancedBlock(open, body);
    var r := Block(open, body);
    forall i | 0 <= i < |r|
      ensures !r[i].OpenScope? && !r[i].Flush? && !r[i].Header? && !r[i].DeviceOpen?
    {
      if 2 <= i < |r| - 2 {
        assert r[i] == body[i - 2];
      }
    }
  }

  /** A peripheral's type: an alias when it derives from another one,
      otherwise a register block whose children are its registers followed
      by its clusters. */
  function PeripheralType(ctx: Context, p: Peripheral, inherited: RegisterProperties): (r: Exported)
    ensures r.properties == p.properties.Merging(inherited)
    ensures p.derivedFrom.Some? ==>
              r.out == [Typealias(ctx.swiftName(p.name), p.derivedFrom.value)] && r.children == []
    ensures p.derivedFrom.None? ==>
              r.children == RegisterNodes(PeripheralRegisters(p)) + ClusterNodes(PeripheralClusters(p))
              && |r.out| > 0 && r.out[0] == RegisterBlockOpen(ctx.swiftName(p.name))
    ensures Balanced(r.out) && NodeOutput(r.out)
  {
    var merged := p.properties.Merging(inherited);
    match p.derivedFrom
    case Some(target) =>
      BalancedNeutral([Typealias(ctx.swiftName(p.name), target)]);
      Exported([Typealias(ctx.swiftName(p.name), target)], [], merged)
    case None =>
      var rs := PeripheralRegisters(p);
      var cs := PeripheralClusters(p);
      Exported(BlockType(ctx, p.name, rs, cs, merged), RegisterNodes(rs) + ClusterNodes(cs), merged)
  }

  /** A cluster's type, on the same pattern as a peripheral's. */
  function ClusterType(ctx: Context, c: Cluster, inherited: RegisterProperties): (r: Exported)
    ensures r.properties == c.properties.Merging(inherited)
    ensures c.derivedFrom.Some? ==>
              r.out == [Typealias(ctx.swiftName(c.name), c.derivedFrom.value)] && r.children == []
    ensures c.derivedFrom.None? ==>
              r.children == RegisterNodes(ClusterRegisters(c)) + ClusterNodes(ClusterClusters(c))
              && |r.out| > 0 && r.out[0] == RegisterBlockOpen(ctx.swiftName(c.name))
    ensures Balanced(r.out) && NodeOutput(r.out)
  {
    var merged := c.properties.Merging(inherited);
    match c.derivedFrom
    case Some(target) =>
      BalancedNeutral([Typealias(ctx.swiftName(c.name), target)]);
      Exported([Typealias(ctx.swiftName(c.name), target)], [], merged)
    case None =>
      var rs := ClusterRegisters(c);
      var cs := ClusterClusters(c);
      Exported(BlockType(ctx, c.name, rs, cs, merged), RegisterNodes(rs) + ClusterNodes(cs), merged)
  }

  /** A register's type: a `@Register` struct of its fields when its merged
      size is known, nothing otherwise. A register never has children. */
  function RegisterType(ctx: Context, reg: Register, inherited: RegisterProperties): (r: Exported)
    ensures r.properties == reg.properties.Merging(inherited)
    ensures r.children == []
    ensures r.properties.size.None? ==> r.out == []
    ensures r.properties.size.Some? ==>
              |r.out| > 0 && r.out[0] == RegisterOpen(ctx.swiftName(reg.name), r.properties.size.value)
    ensures Balanced(r.out) && NodeOutput(r.out)
  {
    var merged := reg.properties.Merging(inherited);
    match merged.size
    case None =>
      BalancedNeutral([]);
      Exported([], [], merged)
    case Some(size) => Exported(RegisterStruct(ctx, reg, size, merged), [], merged)
  }

  /** The `@Register(bitWidth:)` struct of a register, one accessor per field. */
  function RegisterStruct(ctx: Context, reg: Register, size: nat, merged: RegisterProperties): (out: seq<Out>)
    ensures Balanced(out) && NodeOutput(out)
    ensures |out| >= 4 && out[0] == RegisterOpen(ctx.swiftName(reg.name), size) && out[|out| - 1] == CloseScope
    ensures out[2..|out| - 2] == FieldListAccessors(ctx, reg.fields.GetOr([]), reg, merged)
  {
    var body := FieldListAccessors(ctx, reg.fields.GetOr([]), reg, merged);
    NodeBlock(RegisterOpen(ctx.swiftName(reg.name), size), body);
    assert Block(RegisterOpen(ctx.swiftName(reg.name), size), body)[2..|body| + 2] == body;
    Block(RegisterOpen(ctx.swiftName(reg.name), size), body)
  }

  function ExportType(ctx: Context, e: Exportable, inherited: RegisterProperties): Exported {
    match e
    case PeripheralNode(p) => PeripheralType(ctx, p, inherited)
    case ClusterNode(c) => ClusterType(ctx, c, inherited)
    case RegisterNode(r) => RegisterType(ctx, r, inherited)
  }
}
