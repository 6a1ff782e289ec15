/** The generated Swift text, seen as a list of declaration records rather
    than characters, together with the indentation and brace bookkeeping of
    the output writer. */
module Output {
  import opened Base

  /** The four bit-field accessor macros a field can be declared with. */
  datatype Macro = ReadOnlyMacro | WriteOnlyMacro | ReadWriteMacro | ReservedMacro

  /** The declaration kind of the device-level namespace. */
  datatype DeviceKind = StructKind | EnumKind

  datatype Out =
    | Header                                        // the generated-file header
    | DeviceOpen(kind: DeviceKind, typeName: string) // `struct Dev {` or `enum Dev {`
    | PeripheralAccessor(name: string, typeName: string, address: nat, isStatic: bool)
    | RegisterBlockOpen(typeName: string)           // `@RegisterBlock struct T {`
    | RegisterOpen(typeName: string, bitWidth: nat) // `@Register(bitWidth: n) struct T {`
    | Typealias(typeName: string, target: string)
    | ClusterVar(name: string, typeName: string, offset: nat)
    | RegisterVar(name: string, typeName: string, offset: nat)
    | RegisterArray(name: string, typeName: string, offset: nat, stride: nat, count: nat)
    | FieldVar(macro: Macro, lowerBit: nat, upperBit: nat, name: string, typeName: string)
    | OpenScope(path: seq<string>)                  // `extension A.B {`
    | CloseScope                                    // `}`
    | Indent
    | Outdent
    | Flush(unit: string)                           // hand one compilation unit to the writer
    | Trap                                          // a Swift runtime trap: the generator stops

  /** The two nesting counters the writer keeps balanced. */
  datatype Counter = Indentation | Braces

  function Delta(c: Counter, o: Out): int {
    match c
    case Indentation =>
      if o.Indent? then 1 else if o.Outdent? then -1 else 0
    case Braces =>
      if o.DeviceOpen? || o.RegisterBlockOpen? || o.RegisterOpen? || o.OpenScope? then 1
      else if o.CloseScope? then -1
      else 0
  }

  /** Runs a counter over `s` from `depth`; `None` once it would go negative. */
  function Walk(c: Counter, depth: nat, s: seq<Out>): Option<nat>
    decreases |s|
  {
    if s == [] then Some(depth)
    else if depth + Delta(c, s[0]) < 0 then None
    else Walk(c, depth + Delta(c, s[0]), s[1..])
  }

  /** Every `indent()` is matched by a later `outdent()`, and every opened
      block by a later `}`, never closing more than was opened. */
  predicate Balanced(s: seq<Out>) {
    Walk(Indentation, 0, s) == Some(0) && Walk(Braces, 0, s) == Some(0)
  }

  lemma {:induction false} WalkAppend(c: Counter, d: nat, a: seq<Out>, b: seq<Out>)
    ensures Walk(c, d, a + b) == (match Walk(c, d, a) case Some(e) => Walk(c, e, b) case None => None)
    decreases |a|
  {
    if a != [] {
      assert (a + b)[0] == a[0];
      assert (a + b)[1..] == a[1..] + b;
      if d + Delta(c, a[0]) >= 0 {
        WalkAppend(c, d + Delta(c, a[0]), a[1..], b);
      }
    } else {
      assert a + b == b;
    }
  }

  lemma {:induction false} WalkShift(c: Counter, d: nat, k: nat, s: seq<Out>)
    requires Walk(c, d, s).Some?
    ensures Walk(c, d + k, s) == Some(Walk(c, d, s).value + k)
    decreases |s|
  {
    if s != [] {
      WalkShift(c, d + Delta(c, s[0]), k, s[1..]);
    }
  }

  lemma BalancedAppend(a: seq<Out>, b: seq<Out>)
    requires Balanced(a) && Balanced(b)
    ensures Balanced(a + b)
  {
    WalkAppend(Indentation, 0, a, b);
    WalkAppend(Braces, 0, a, b);
  }

  /** A block: its opening record (which writes `{`), an indented body,
      and the closing `}`. */
  function Block(open: Out, body: seq<Out>): (r: seq<Out>)
    ensures |r| == |body| + 4
    ensures r[0] == open && r[1] == Indent && r[|r| - 2] == Outdent && r[|r| - 1] == CloseScope
    ensures forall i :: 0 <= i < |body| ==> r[i + 2] == body[i]
  {
    [open, Indent] + body + [Outdent, CloseScope]
  }

  /** Opening a block, indenting, a balanced body, outdenting and closing
      the block is balanced. */
  lemma BalancedBlock(open: Out, body: seq<Out>)
    requires Delta(Braces, open) == 1 && Delta(Indentation, open) == 0
    requires Balanced(body)
    ensures Balanced(Block(open, body))
  {
    BlockWalk(Indentation, open, body);
    BlockWalk(Braces, open, body);
  }

  lemma BlockWalk(c: Counter, open: Out, body: seq<Out>)
    requires Delta(Braces, open) == 1 && Delta(Indentation, open) == 0
    requires Walk(c, 0, body) == Some(0)
    ensures Walk(c, 0, Block(open, body)) == Some(0)
  {
    var head: seq<Out> := [open, Indent];
    var tail: seq<Out> := [Outdent, CloseScope];
    assert Walk(c, 0, head) == Some(1) by {
      assert head[1..] == [Indent];
      assert [Indent][1..] == [];
    }
    assert Walk(c, 1, tail) == Some(0) by {
      assert tail[1..] == [CloseScope];
      assert [CloseScope][1..] == [];
    }
    WalkShift(c, 0, 1, body);
    WalkAppend(c, 0, head, body);
    WalkAppend(c, 0, head + body, tail);
  }

  /** Records that neither indent nor open or close a block. */
  predicate Neutral(s: seq<Out>) {
    forall i :: 0 <= i < |s| ==> Delta(Indentation, s[i]) == 0 && Delta(Braces, s[i]) == 0
  }

  /** Records with no effect on either counter are balanced on their own. */
  lemma BalancedNeutral(s: seq<Out>)
    requires Neutral(s)
    ensures Balanced(s)
    decreases |s|
  {
    if s != [] {
      BalancedNeutral(s[1..]);
    }
  }

  /** The largest value a Swift `UInt64` holds. */
  const MaxUInt64: nat := 0xFFFF_FFFF_FFFF_FFFF

  /** The largest value a Swift `Int` holds on a 64-bit host. */
  const MaxInt: nat := 0x7FFF_FFFF_FFFF_FFFF

  /** Every number in the record is representable as a `UInt64`, and the
      record is not a trap. */
  predicate Fits(o: Out) {
    match o
    case PeripheralAccessor(_, _, address, _) => address <= MaxUInt64
    case RegisterOpen(_, bitWidth) => bitWidth <= MaxUInt64
    case ClusterVar(_, _, offset) => offset <= MaxUInt64
    case RegisterVar(_, _, offset) => offset <= MaxUInt64
    case RegisterArray(_, _, offset, stride, count) =>
      offset <= MaxUInt64 && stride <= MaxUInt64 && count <= MaxUInt64
    case FieldVar(_, lo, hi, _, _) => lo <= MaxUInt64 && hi <= MaxUInt64
    case Trap => false
    case _ => true
  }

  predicate AllFit(s: seq<Out>) {
    forall i :: 0 <= i < |s| ==> Fits(s[i])
  }
}
