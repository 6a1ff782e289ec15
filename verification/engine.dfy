/** The export traversal engine: the device unit with the accessors of
    every exported peripheral, then, per peripheral, a breadth-first walk
    over an explicit work queue advanced by an index cursor, where each work
    item writes the types of a list of sibling nodes, inside an `extension`
    scope when its type path is non-empty, and enqueues their children. */
module Engine {
  import opened Base
  import opened Properties
  import opened Svd
  import opened Output
  import opened Declarations
  import opened Selection

  /** A queued list of sibling nodes, the type path they are nested in and
      the properties they inherit. */
  datatype WorkItem = WorkItem(elements: seq<Exportable>, path: seq<string>, properties: RegisterProperties)

  /** What processing some work yields: records written and items enqueued. */
  datatype Step = Step(out: seq<Out>, next: seq<WorkItem>)

  function OwnProperties(e: Exportable): RegisterProperties {
    match e
    case PeripheralNode(p) => p.properties
    case ClusterNode(c) => c.properties
    case RegisterNode(r) => r.properties
  }

  /** The work item that exporting `e` enqueues: its children, one level
      deeper on the type path, inheriting its merged properties; nothing
      when it has no children. */
  function ChildItem(ctx: Context, e: Exportable, path: seq<string>, inherited: RegisterProperties): (w: Option<WorkItem>)
    ensures w.Some? ==> w.value.path == path + [ctx.swiftName(NodeName(e))]
    ensures w.Some? ==> w.value.properties == OwnProperties(e).Merging(inherited)
    ensures w.Some? ==> |w.value.elements| > 0
  {
    var x := ExportType(ctx, e, inherited);
    if x.children == [] then None
    else Some(WorkItem(x.children, path + [ctx.swiftName(NodeName(e))], x.properties))
  }

  /** Every level a child item descends merges one more record into the
      chain of defaults: a child below a node that inherited the effective
      properties of `chain` inherits those of `chain` extended by the
      node's own. */
  lemma ChildItemEffective(ctx: Context, e: Exportable, path: seq<string>, chain: seq<RegisterProperties>, root: RegisterProperties)
    ensures var w := ChildItem(ctx, e, path, Effective(chain, root));
            w.Some? ==> w.value.properties == Effective(chain + [OwnProperties(e)], root)
  {
    assert (chain + [OwnProperties(e)])[..|chain|] == chain;
  }

  /** Aliases and registers never enqueue anything; a defining peripheral or
      cluster enqueues exactly when it has a register or a cluster. */
  lemma ChildItemWhen(ctx: Context, e: Exportable, path: seq<string>, inherited: RegisterProperties)
    ensures e.RegisterNode? ==> ChildItem(ctx, e, path, inherited).None?
    ensures e.PeripheralNode? && e.peripheral.derivedFrom.Some? ==> ChildItem(ctx, e, path, inherited).None?
    ensures e.ClusterNode? && e.cluster.derivedFrom.Some? ==> ChildItem(ctx, e, path, inherited).None?
    ensures e.PeripheralNode? && e.peripheral.derivedFrom.None? ==>
              (ChildItem(ctx, e, path, inherited).Some? <==>
                 |PeripheralRegisters(e.peripheral)| + |PeripheralClusters(e.peripheral)| > 0)
    ensures e.ClusterNode? && e.cluster.derivedFrom.None? ==>
              (ChildItem(ctx, e, path, inherited).Some? <==>
                 |ClusterRegisters(e.cluster)| + |ClusterClusters(e.cluster)| > 0)
  {
  }

  /** The type declarations of a list of siblings, in order. */
  function ExportTypes(ctx: Context, es: seq<Exportable>, inherited: RegisterProperties): (out: seq<Out>)
    ensures Balanced(out) && NodeOutput(out)
    decreases |es|
  {
    if es == [] then
      BalancedNeutral([]);
      []
    else
      var init := ExportTypes(ctx, es[..|es| - 1], inherited);
      var x := ExportType(ctx, es[|es| - 1], inherited);
      BalancedAppend(init, x.out);
      NodeOutputAppend(init, x.out);
      init + x.out
  }

  /** The types of a list of siblings are each element's types, in element
      order. */
  lemma {:induction false} ExportTypesAppend(ctx: Context, a: seq<Exportable>, b: seq<Exportable>, inherited: RegisterProperties)
    ensures ExportTypes(ctx, a + b, inherited) == ExportTypes(ctx, a, inherited) + ExportTypes(ctx, b, inherited)
    decreases |b|
  {
    if b == [] {
      assert a + b == a;
      assert ExportTypes(ctx, b, inherited) == [];
    } else {
      ExportTypesAppend(ctx, a, b[..|b| - 1], inherited);
      ExportTypesAppendStep(ctx, a, b, inherited);
    }
  }

  lemma ExportTypesAppendStep(ctx: Context, a: seq<Exportable>, b: seq<Exportable>, inherited: RegisterProperties)
    requires b != []
    requires ExportTypes(ctx, a + b[..|b| - 1], inherited)
             == ExportTypes(ctx, a, inherited) + ExportTypes(ctx, b[..|b| - 1], inherited)
    ensures ExportTypes(ctx, a + b, inherited) == ExportTypes(ctx, a, inherited) + ExportTypes(ctx, b, inherited)
  {
    var init := b[..|b| - 1];
    assert (a + b)[..|a + b| - 1] == a + init;
    assert (a + b)[|a + b| - 1] == b[|b| - 1];
    ExportTypesLast(ctx, a + b, inherited);
    ExportTypesLast(ctx, b, inherited);
    ConcatAssociative(ExportTypes(ctx, a, inherited), ExportTypes(ctx, init, inherited), ExportType(ctx, b[|b| - 1], inherited).out);
  }


  lemma ExportTypesLast(ctx: Context, es: seq<Exportable>, inherited: RegisterProperties)
    requires es != []
    ensures ExportTypes(ctx, es, inherited)
            == ExportTypes(ctx, es[..|es| - 1], inherited) + ExportType(ctx, es[|es| - 1], inherited).out
  {
  }

  lemma NodeOutputAppend(a: seq<Out>, b: seq<Out>)
    requires NodeOutput(a) && NodeOutput(b)
    ensures NodeOutput(a + b)
  {
  }

  /** The items enqueued for a list of siblings: the child item of each
      element that has one, in element order. */
  function Enqueued(child: Exportable -> Option<WorkItem>, es: seq<Exportable>): seq<WorkItem>
    decreases |es|
  {
    if es == [] then []
    else
      Enqueued(child, es[..|es| - 1]) + child(es[|es| - 1]).ToSeq()
  }

  /** Each enqueued item comes from one element, and every element with a
      child item contributes it. */
  lemma {:induction false} EnqueuedOrigins(child: Exportable -> Option<WorkItem>, es: seq<Exportable>)
    ensures forall k :: 0 <= k < |Enqueued(child, es)| ==>
              exists j :: 0 <= j < |es| && child(es[j]) == Some(Enqueued(child, es)[k])
    ensures forall j :: 0 <= j < |es| && child(es[j]).Some? ==> child(es[j]).value in Enqueued(child, es)
    decreases |es|
  {
    if es != [] {
      var n := |es| - 1;
      var init := es[..n];
      EnqueuedOrigins(child, init);
      var initNext := Enqueued(child, init);
      var next := Enqueued(child, es);
      assert next == initNext + child(es[n]).ToSeq();
      forall k | 0 <= k < |next|
        ensures exists j :: 0 <= j < |es| && child(es[j]) == Some(next[k])
      {
        if k < |initNext| {
          var j :| 0 <= j < |init| && child(init[j]) == Some(initNext[k]);
          assert init[j] == es[j];
        } else {
          assert child(es[n]) == Some(next[k]);
        }
      }
      forall j | 0 <= j < |es| && child(es[j]).Some?
        ensures child(es[j]).value in next
      {
        if j < n {
          assert init[j] == es[j];
        }
      }
    } else {
      assert Enqueued(child, es) == [];
    }
  }

  /** The items a list of siblings enqueues, read front to back: one child
      item per element that has children, in element order. */
  function ChildItems(child: Exportable -> Option<WorkItem>, es: seq<Exportable>): seq<WorkItem>
    decreases |es|
  {
    if es == [] then []
    else child(es[0]).ToSeq() + ChildItems(child, es[1..])
  }

  lemma {:induction false} ChildItemsAppend(child: Exportable -> Option<WorkItem>, a: seq<Exportable>, b: seq<Exportable>)
    ensures ChildItems(child, a + b) == ChildItems(child, a) + ChildItems(child, b)
    decreases |a|
  {
    if a == [] {
      assert a + b == b;
    } else {
      assert (a + b)[1..] == a[1..] + b;
      assert (a + b)[0] == a[0];
      ChildItemsAppend(child, a[1..], b);
      ConcatAssociative(child(a[0]).ToSeq(), ChildItems(child, a[1..]), ChildItems(child, b));
    }
  }

  /** The queue's view of a list of siblings agrees with reading it front to back. */
  lemma {:induction false} EnqueuedInOrder(child: Exportable -> Option<WorkItem>, es: seq<Exportable>)
    ensures Enqueued(child, es) == ChildItems(child, es)
    decreases |es|
  {
    if es != [] {
      var init := es[..|es| - 1];
      var last := es[|es| - 1];
      EnqueuedInOrder(child, init);
      ChildItemsAppend(child, init, [last]);
      assert [last][1..] == [];
      assert es == init + [last];
    }
  }

  /** The child item of an element, as a function of the element. */
  function ChildOf(ctx: Context, path: seq<string>, inherited: RegisterProperties): Exportable -> Option<WorkItem> {
    e => ChildItem(ctx, e, path, inherited)
  }

  /** The types of a list of siblings, in order, and the items they enqueue. */
  function ExportElements(ctx: Context, es: seq<Exportable>, path: seq<string>, inherited: RegisterProperties): (r: Step)
    ensures Balanced(r.out) && NodeOutput(r.out)
  {
    Step(ExportTypes(ctx, es, inherited), Enqueued(ChildOf(ctx, path, inherited), es))
  }

  /** The items a list of siblings enqueues are exactly the child items of
      its elements: each comes from one element, and every element with
      children contributes its item. */
  lemma ExportElementsOrigins(ctx: Context, es: seq<Exportable>, path: seq<string>, inherited: RegisterProperties)
    ensures var next := ExportElements(ctx, es, path, inherited).next;
            forall k :: 0 <= k < |next| ==>
              exists j :: 0 <= j < |es| && ChildItem(ctx, es[j], path, inherited) == Some(next[k])
    ensures var next := ExportElements(ctx, es, path, inherited).next;
            forall j :: 0 <= j < |es| && ChildItem(ctx, es[j], path, inherited).Some? ==>
              ChildItem(ctx, es[j], path, inherited).value in next
  {
    var child := ChildOf(ctx, path, inherited);
    var next := Enqueued(child, es);
    EnqueuedOrigins(child, es);
    forall k | 0 <= k < |next|
      ensures exists j :: 0 <= j < |es| && ChildItem(ctx, es[j], path, inherited) == Some(next[k])
    {
      var j :| 0 <= j < |es| && child(es[j]) == Some(next[k]);
      assert child(es[j]) == ChildItem(ctx, es[j], path, inherited);
    }
    forall j | 0 <= j < |es| && ChildItem(ctx, es[j], path, inherited).Some?
      ensures ChildItem(ctx, es[j], path, inherited).value in next
    {
      assert child(es[j]) == ChildItem(ctx, es[j], path, inherited);
    }
  }

  /** One iteration of the queue loop: an `extension` scope named by the
      item's path (only when the path is non-empty) around its elements'
      types. */
  function ProcessItem(ctx: Context, item: WorkItem): (r: Step)
    ensures Balanced(r.out)
    ensures item.path != [] ==> |r.out| > 0 && r.out[0] == OpenScope(item.path)
    ensures forall i :: 0 <= i < |r.out| && r.out[i].OpenScope? ==> i == 0 && item.path != []
    ensures forall i :: 0 <= i < |r.out| ==> !r.out[i].Flush? && !r.out[i].Header?
  {
    var body := ExportElements(ctx, item.elements, item.path, item.properties);
    if item.path == [] then body
    else
      ScopeBlock(item.path, body.out);
      Step(Block(OpenScope(item.path), body.out), body.next)
  }

  /** An `extension` scope around node declarations opens exactly one scope,
      at its start. */
  lemma ScopeBlock(path: seq<string>, body: seq<Out>)
    requires Balanced(body) && NodeOutput(body)
    ensures var r := Block(OpenScope(path), body);
            && Balanced(r)
            && (forall i :: 0 <= i < |r| && r[i].OpenScope? ==> i == 0)
            && (forall i :: 0 <= i < |r| ==> !r[i].Flush? && !r[i].Header?)
  {
    BalancedBlock(OpenScope(path), body);
    var r := Block(OpenScope(path), body);
    forall i | 0 <= i < |r|
      ensures (r[i].OpenScope? ==> i == 0) && !r[i].Flush? && !r[i].Header?
    {
      if 2 <= i < |r| - 2 {
        assert r[i] == body[i - 2];
      }
    }
  }

  /** Every item a work item enqueues has elements and sits one level below
      it on the type path. */
  lemma ProcessItemNext(ctx: Context, item: WorkItem)
    ensures var next := ProcessItem(ctx, item).next;
            forall k :: 0 <= k < |next| ==>
              |next[k].elements| > 0 && |next[k].path| == |item.path| + 1 && next[k].path[..|item.path|] == item.path
  {
    var next := ProcessItem(ctx, item).next;
    ExportElementsNext(ctx, item.elements, item.path, item.properties);
    assert next == ExportElements(ctx, item.elements, item.path, item.properties).next;
    forall k | 0 <= k < |next|
      ensures |next[k].elements| > 0 && |next[k].path| == |item.path| + 1 && next[k].path[..|item.path|] == item.path
    {
      assert next[k] == ExportElements(ctx, item.elements, item.path, item.properties).next[k];
    }
  }

  lemma ExportElementsNext(ctx: Context, es: seq<Exportable>, path: seq<string>, inherited: RegisterProperties)
    ensures var next := ExportElements(ctx, es, path, inherited).next;
            forall k :: 0 <= k < |next| ==>
              |next[k].elements| > 0 && |next[k].path| == |path| + 1 && next[k].path[..|path|] == path
  {
    var next := ExportElements(ctx, es, path, inherited).next;
    ExportElementsOrigins(ctx, es, path, inherited);
    forall k | 0 <= k < |next|
      ensures |next[k].elements| > 0 && |next[k].path| == |path| + 1 && next[k].path[..|path|] == path
    {
      var j :| 0 <= j < |es| && ChildItem(ctx, es[j], path, inherited) == Some(next[k]);
    }
  }

  /** The queue items a work item adds are exactly the child items of its
      elements, one per element with children, in element order: each added
      item comes from one element, and every element with children adds its
      item. */
  lemma ProcessItemEnqueues(ctx: Context, item: WorkItem)
    ensures ProcessItem(ctx, item).next == ChildItems(ChildOf(ctx, item.path, item.properties), item.elements)
    ensures var next := ProcessItem(ctx, item).next;
            forall k :: 0 <= k < |next| ==>
              exists j :: 0 <= j < |item.elements|
                && ChildItem(ctx, item.elements[j], item.path, item.properties) == Some(next[k])
    ensures var next := ProcessItem(ctx, item).next;
            forall j :: 0 <= j < |item.elements| && ChildItem(ctx, item.elements[j], item.path, item.properties).Some? ==>
              ChildItem(ctx, item.elements[j], item.path, item.properties).value in next
  {
    var next := ProcessItem(ctx, item).next;
    var body := ExportElements(ctx, item.elements, item.path, item.properties);
    ExportElementsOrigins(ctx, item.elements, item.path, item.properties);
    EnqueuedInOrder(ChildOf(ctx, item.path, item.properties), item.elements);
    assert next == body.next;
    forall k | 0 <= k < |next|
      ensures exists j :: 0 <= j < |item.elements|
                && ChildItem(ctx, item.elements[j], item.path, item.properties) == Some(next[k])
    {
      assert next[k] == body.next[k];
      var j :| 0 <= j < |item.elements| && ChildItem(ctx, item.elements[j], item.path, item.properties) == Some(body.next[k]);
    }
  }

  /** Everything written while processing `items` in order with `process`. */
  function EmitAll(process: WorkItem -> Step, items: seq<WorkItem>): seq<Out>
    decreases |items|
  {
    if items == [] then []
    else EmitAll(process, items[..|items| - 1]) + process(items[|items| - 1]).out
  }

  /** Everything enqueued while processing `items` in order with `process`. */
  function NextAll(process: WorkItem -> Step, items: seq<WorkItem>): seq<WorkItem>
    decreases |items|
  {
    if items == [] then []
    else NextAll(process, items[..|items| - 1]) + process(items[|items| - 1]).next
  }

  // ------------------------------------------------------------- weights

  function NodeWeight(e: Exportable): nat {
    match e
    case PeripheralNode(p) => 1 + |PeripheralRegisters(p)| + ClustersWeight(PeripheralClusters(p))
    case ClusterNode(c) => ClusterWeight(c)
    case RegisterNode(_) => 1
  }

  function NodesWeight(es: seq<Exportable>): nat
    decreases |es|
  {
    if es == [] then 0 else NodesWeight(es[..|es| - 1]) + NodeWeight(es[|es| - 1])
  }

  /** The number of tree nodes still reachable from the queued items. */
  function ItemsWeight(items: seq<WorkItem>): nat
    decreases |items|
  {
    if items == [] then 0 else ItemsWeight(items[..|items| - 1]) + NodesWeight(items[|items| - 1].elements)
  }

  lemma {:induction false} NodesWeightAppend(a: seq<Exportable>, b: seq<Exportable>)
    ensures NodesWeight(a + b) == NodesWeight(a) + NodesWeight(b)
    decreases |b|
  {
    if b != [] {
      assert (a + b)[..|a + b| - 1] == a + b[..|b| - 1];
      NodesWeightAppend(a, b[..|b| - 1]);
    } else {
      assert a + b == a;
    }
  }

  lemma {:induction false} ItemsWeightAppend(a: seq<WorkItem>, b: seq<WorkItem>)
    ensures ItemsWeight(a + b) == ItemsWeight(a) + ItemsWeight(b)
    decreases |b|
  {
    if b != [] {
      assert (a + b)[..|a + b| - 1] == a + b[..|b| - 1];
      ItemsWeightAppend(a, b[..|b| - 1]);
    } else {
      assert a + b == a;
    }
  }

  lemma {:induction false} RegisterNodesWeight(rs: seq<Register>)
    ensures NodesWeight(RegisterNodes(rs)) == |rs|
    decreases |rs|
  {
    if rs != [] {
      assert RegisterNodes(rs)[..|rs| - 1] == RegisterNodes(rs[..|rs| - 1]);
      RegisterNodesWeight(rs[..|rs| - 1]);
    }
  }

  lemma {:induction false} ClusterNodesWeight(cs: seq<Cluster>)
    ensures NodesWeight(ClusterNodes(cs)) == ClustersWeight(cs)
    decreases |cs|
  {
    if cs != [] {
      assert ClusterNodes(cs)[..|cs| - 1] == ClusterNodes(cs[..|cs| - 1]);
      ClusterNodesWeight(cs[..|cs| - 1]);
    }
  }

  /** The children a node hands to the next level weigh less than the node. */
  lemma ChildrenLighter(ctx: Context, e: Exportable, inherited: RegisterProperties)
    ensures NodesWeight(ExportType(ctx, e, inherited).children) < NodeWeight(e)
  {
    match e
    case PeripheralNode(p) =>
      NodesWeightAppend(RegisterNodes(PeripheralRegisters(p)), ClusterNodes(PeripheralClusters(p)));
      RegisterNodesWeight(PeripheralRegisters(p));
      ClusterNodesWeight(PeripheralClusters(p));
    case ClusterNode(c) =>
      NodesWeightAppend(RegisterNodes(ClusterRegisters(c)), ClusterNodes(ClusterClusters(c)));
      RegisterNodesWeight(ClusterRegisters(c));
      ClusterNodesWeight(ClusterClusters(c));
    case RegisterNode(_) =>
  }

  /** When every child item weighs less than its element, the items
      enqueued for a list weigh less than the list, by at least one per
      element. */
  lemma {:induction false} EnqueuedLighter(child: Exportable -> Option<WorkItem>, es: seq<Exportable>)
    requires forall e :: child(e).Some? ==> NodesWeight(child(e).value.elements) < NodeWeight(e)
    ensures ItemsWeight(Enqueued(child, es)) + |es| <= NodesWeight(es)
    decreases |es|
  {
    if es != [] {
      var n := |es| - 1;
      var tail := child(es[n]).ToSeq();
      EnqueuedLighter(child, es[..n]);
      ItemsWeightAppend(Enqueued(child, es[..n]), tail);
      if child(es[n]).Some? {
        assert ItemsWeight(tail) == NodesWeight(child(es[n]).value.elements) by {
          assert tail[..0] == [];
        }
      }
    }
  }

  lemma ExportElementsLighter(ctx: Context, es: seq<Exportable>, path: seq<string>, inherited: RegisterProperties)
    ensures ItemsWeight(ExportElements(ctx, es, path, inherited).next) + |es| <= NodesWeight(es)
  {
    var child := ChildOf(ctx, path, inherited);
    forall e | child(e).Some?
      ensures NodesWeight(child(e).value.elements) < NodeWeight(e)
    {
      assert child(e) == ChildItem(ctx, e, path, inherited);
      ChildrenLighter(ctx, e, inherited);
    }
    EnqueuedLighter(child, es);
  }

  lemma ProcessItemLighter(ctx: Context, item: WorkItem)
    requires |item.elements| > 0
    ensures ItemsWeight(ProcessItem(ctx, item).next) < NodesWeight(item.elements)
  {
    ExportElementsLighter(ctx, item.elements, item.path, item.properties);
  }

  // --------------------------------------------------------------- queue

  /** What the queue walk relies on from the processing of one item: its
      output is balanced and never ends a unit, each item it enqueues is
      non-empty and one level deeper, and what it enqueues weighs less than
      the item itself, so the walk terminates. */
  ghost predicate WellBehaved(process: WorkItem -> Step) {
    && (forall w :: Balanced(process(w).out))
    && (forall w, i :: 0 <= i < |process(w).out| ==> !process(w).out[i].Flush? && !process(w).out[i].Header?)
    && (forall w, k :: 0 <= k < |process(w).next| ==>
          |process(w).next[k].elements| > 0 && |process(w).next[k].path| == |w.path| + 1)
    && (forall w: WorkItem :: |w.elements| > 0 ==> ItemsWeight(process(w).next) < NodesWeight(w.elements))
  }

  /** How the export processes a work item under `ctx`. */
  function Process(ctx: Context): WorkItem -> Step {
    w => ProcessItem(ctx, w)
  }

  /** Processing work items as the export does is well behaved. */
  lemma ProcessItemWellBehaved(ctx: Context)
    ensures WellBehaved(Process(ctx))
  {
    var process := Process(ctx);
    forall w, k | 0 <= k < |process(w).next|
      ensures |process(w).next[k].elements| > 0 && |process(w).next[k].path| == |w.path| + 1
    {
      ProcessItemNext(ctx, w);
    }
    forall w: WorkItem | |w.elements| > 0
      ensures ItemsWeight(process(w).next) < NodesWeight(w.elements)
    {
      ProcessItemLighter(ctx, w);
    }
  }

  /** The per-peripheral walk. The queue starts with `initial`; each pass
      takes the item under the cursor, writes its output and appends the
      items it enqueues; the walk ends when the cursor reaches the end. */
  method RunQueue(ctx: Context, initial: WorkItem) returns (out: seq<Out>, queue: seq<WorkItem>)
    requires |initial.elements| > 0
    ensures |queue| > 0 && queue[0] == initial
    ensures queue == [initial] + NextAll(Process(ctx), queue)
    ensures out == EmitAll(Process(ctx), queue)
    ensures forall i, j :: 0 <= i < j < |queue| ==> |queue[i].path| <= |queue[j].path|
    ensures forall k :: 0 <= k < |queue| ==> |queue[k].elements| > 0
    ensures Balanced(out)
    ensures forall i :: 0 <= i < |out| ==> !out[i].Flush? && !out[i].Header?
    ensures out == Traversal(ctx, initial)
  {
    ProcessItemWellBehaved(ctx);
    out, queue := DrainQueue(Process(ctx), initial);
  }

  /** What the walk from `initial` writes, as a recursive function. */
  function Traversal(ctx: Context, initial: WorkItem): (out: seq<Out>)
    requires |initial.elements| > 0
    ensures Balanced(out)
    ensures forall i :: 0 <= i < |out| ==> !out[i].Flush? && !out[i].Header?
  {
    ProcessItemWellBehaved(ctx);
    Drain(Process(ctx), [initial], 0)
  }

  /** The walk as a recursive function: what processing the queue from
      `cursor` to its end writes, the queue growing by what each processed
      item enqueues. It ends because every item enqueues less weight than
      it carries. */
  function Drain(process: WorkItem -> Step, queue: seq<WorkItem>, cursor: nat): (out: seq<Out>)
    requires WellBehaved(process)
    requires cursor <= |queue|
    requires forall k :: cursor <= k < |queue| ==> |queue[k].elements| > 0
    ensures Balanced(out)
    ensures forall i :: 0 <= i < |out| ==> !out[i].Flush? && !out[i].Header?
    decreases ItemsWeight(queue[cursor..])
  {
    if cursor == |queue| then
      BalancedNeutral([]);
      []
    else
      var step := process(queue[cursor]);
      WellBehavedStep(process, queue[cursor]);
      WeightStep(queue, cursor, step.next);
      NonEmptyFrom(queue, cursor, step.next);
      var rest := Drain(process, queue + step.next, cursor + 1);
      BalancedAppend(step.out, rest);
      UnflushedAppend(step.out, rest);
      step.out + rest
  }

  lemma NonEmptyFrom(queue: seq<WorkItem>, cursor: nat, next: seq<WorkItem>)
    requires forall k :: cursor <= k < |queue| ==> |queue[k].elements| > 0
    requires forall k :: 0 <= k < |next| ==> |next[k].elements| > 0
    ensures forall k :: cursor <= k < |queue + next| ==> |(queue + next)[k].elements| > 0
  {
    forall k | cursor <= k < |queue + next|
      ensures |(queue + next)[k].elements| > 0
    {
      if k >= |queue| {
        assert (queue + next)[k] == next[k - |queue|];
      }
    }
  }

  /** Part of the loop invariant of the walk: what has been written,
      followed by what the rest of the queue will write, is the whole walk. */
  ghost predicate DrainState(process: WorkItem -> Step, initial: WorkItem, queue: seq<WorkItem>, cursor: nat, out: seq<Out>) {
    && WellBehaved(process)
    && |initial.elements| > 0
    && cursor <= |queue|
    && (forall k :: cursor <= k < |queue| ==> |queue[k].elements| > 0)
    && out + Drain(process, queue, cursor) == Drain(process, [initial], 0)
  }

  /** One pass of the loop moves the item under the cursor from what is
      still to be written to what has been written. */
  lemma DrainAdvance(process: WorkItem -> Step, initial: WorkItem, queue: seq<WorkItem>, cursor: nat, out: seq<Out>)
    requires cursor < |queue| && DrainState(process, initial, queue, cursor, out)
    ensures var step := process(queue[cursor]);
            DrainState(process, initial, queue + step.next, cursor + 1, out + step.out)
  {
    var step := process(queue[cursor]);
    WellBehavedStep(process, queue[cursor]);
    NonEmptyFrom(queue, cursor, step.next);
    ConcatAssociative(out, step.out, Drain(process, queue + step.next, cursor + 1));
  }

  lemma DrainFinish(process: WorkItem -> Step, initial: WorkItem, queue: seq<WorkItem>, out: seq<Out>)
    requires DrainState(process, initial, queue, |queue|, out)
    ensures out == Drain(process, [initial], 0)
  {
    assert out + [] == out;
  }

  /** The queue loop for any well-behaved way of processing an item. */
  method DrainQueue(process: WorkItem -> Step, initial: WorkItem) returns (out: seq<Out>, queue: seq<WorkItem>)
    requires WellBehaved(process)
    requires |initial.elements| > 0
    ensures |queue| > 0 && queue[0] == initial
    ensures queue == [initial] + NextAll(process, queue)
    ensures out == EmitAll(process, queue)
    ensures forall i, j :: 0 <= i < j < |queue| ==> |queue[i].path| <= |queue[j].path|
    ensures forall k :: 0 <= k < |queue| ==> |queue[k].elements| > 0
    ensures Balanced(out)
    ensures forall i :: 0 <= i < |out| ==> !out[i].Flush? && !out[i].Header?
    ensures out == Drain(process, [initial], 0)
  {
    queue := [initial];
    out := [];
    var cursor := 0;
    ghost var done: seq<WorkItem> := [];
    QueueStart(process, initial);
    while cursor < |queue|
      invariant cursor == |done| <= |queue|
      invariant QueueState(process, initial, done, queue, out)
      invariant DrainState(process, initial, queue, cursor, out)
      decreases ItemsWeight(queue[cursor..])
    {
      var step := process(queue[cursor]);
      WellBehavedStep(process, queue[cursor]);
      DrainAdvance(process, initial, queue, cursor, out);
      QueueAdvance(process, initial, done, queue, out);
      out := out + step.out;
      queue := queue + step.next;
      done := done + [queue[cursor]];
      cursor := cursor + 1;
    }
    QueueFinish(process, initial, done, queue, out);
    DrainFinish(process, initial, queue, out);
  }

  /** The loop invariant of the walk: the items `done` form the front of
      the queue, the queue holds exactly `initial` and what they enqueued,
      `out` is what they wrote, and the queue is ordered by depth with
      nothing deeper than one level below the last processed item. */
  ghost predicate QueueState(process: WorkItem -> Step, initial: WorkItem, done: seq<WorkItem>, queue: seq<WorkItem>, out: seq<Out>) {
    && |done| <= |queue|
    && (forall i :: 0 <= i < |done| ==> done[i] == queue[i])
    && queue == [initial] + NextAll(process, done)
    && out == EmitAll(process, done)
    && Balanced(out)
    && (forall i :: 0 <= i < |out| ==> !out[i].Flush? && !out[i].Header?)
    && (forall k :: 0 <= k < |queue| ==> |queue[k].elements| > 0)
    && (forall i, j :: 0 <= i < j < |queue| ==> |queue[i].path| <= |queue[j].path|)
    && (done == [] ==> |queue| == 1)
    && (done != [] ==> forall j :: |done| <= j < |queue| ==> |queue[j].path| <= |done[|done| - 1].path| + 1)
  }

  lemma QueueStart(process: WorkItem -> Step, initial: WorkItem)
    requires |initial.elements| > 0
    ensures QueueState(process, initial, [], [initial], [])
  {
    BalancedNeutral([]);
  }

  /** One pass of the walk keeps the invariant and lowers the weight still queued. */
  lemma QueueAdvance(process: WorkItem -> Step, initial: WorkItem, done: seq<WorkItem>, queue: seq<WorkItem>, out: seq<Out>)
    requires |done| < |queue|
    requires QueueState(process, initial, done, queue, out)
    requires StepFacts(queue[|done|], process(queue[|done|]))
    ensures var item := queue[|done|];
            var step := process(item);
            && QueueState(process, initial, done + [item], queue + step.next, out + step.out)
            && ItemsWeight((queue + step.next)[|done| + 1..]) < ItemsWeight(queue[|done|..])
  {
    var cursor := |done|;
    var item := queue[cursor];
    var step := process(item);
    PrefixStep(process, done, item);
    NonEmptyStep(queue, step.next);
    WeightStep(queue, cursor, step.next);
    DepthStep(queue, cursor, step.next);
    BalancedAppend(out, step.out);
    UnflushedAppend(out, step.out);
    PrefixExtend(done, queue, step.next);
    QueueStep(process, initial, queue, done, item);
  }

  /** What processing one item guarantees, as `WellBehaved` states it for all items. */
  ghost predicate StepFacts(item: WorkItem, step: Step) {
    && Balanced(step.out)
    && (forall i :: 0 <= i < |step.out| ==> !step.out[i].Flush? && !step.out[i].Header?)
    && (forall k :: 0 <= k < |step.next| ==>
          |step.next[k].elements| > 0 && |step.next[k].path| == |item.path| + 1)
    && (|item.elements| > 0 ==> ItemsWeight(step.next) < NodesWeight(item.elements))
  }

  lemma WellBehavedStep(process: WorkItem -> Step, item: WorkItem)
    requires WellBehaved(process)
    ensures StepFacts(item, process(item))
  {
  }

  lemma NonEmptyStep(queue: seq<WorkItem>, next: seq<WorkItem>)
    requires forall k :: 0 <= k < |queue| ==> |queue[k].elements| > 0
    requires forall k :: 0 <= k < |next| ==> |next[k].elements| > 0
    ensures forall k :: 0 <= k < |queue + next| ==> |(queue + next)[k].elements| > 0
  {
  }

  lemma PrefixExtend(done: seq<WorkItem>, queue: seq<WorkItem>, next: seq<WorkItem>)
    requires |done| < |queue|
    requires forall i :: 0 <= i < |done| ==> done[i] == queue[i]
    ensures forall i :: 0 <= i < |done| + 1 ==> (done + [queue[|done|]])[i] == (queue + next)[i]
  {
  }

  lemma QueueFinish(process: WorkItem -> Step, initial: WorkItem, done: seq<WorkItem>, queue: seq<WorkItem>, out: seq<Out>)
    requires |done| == |queue|
    requires QueueState(process, initial, done, queue, out)
    ensures |queue| > 0 && queue[0] == initial
    ensures queue == [initial] + NextAll(process, queue)
    ensures out == EmitAll(process, queue)
    ensures forall i, j :: 0 <= i < j < |queue| ==> |queue[i].path| <= |queue[j].path|
    ensures forall k :: 0 <= k < |queue| ==> |queue[k].elements| > 0
    ensures Balanced(out)
    ensures forall i :: 0 <= i < |out| ==> !out[i].Flush? && !out[i].Header?
  {
    assert done == queue;
  }

  /** Processing one more item appends what it enqueues to the queue. */
  lemma QueueStep(process: WorkItem -> Step, initial: WorkItem, queue: seq<WorkItem>, done: seq<WorkItem>, item: WorkItem)
    requires queue == [initial] + NextAll(process, done)
    ensures queue + process(item).next == [initial] + NextAll(process, done + [item])
  {
    PrefixStep(process, done, item);
  }

  lemma UnflushedAppend(a: seq<Out>, b: seq<Out>)
    requires forall i :: 0 <= i < |a| ==> !a[i].Flush? && !a[i].Header?
    requires forall i :: 0 <= i < |b| ==> !b[i].Flush? && !b[i].Header?
    ensures forall i :: 0 <= i < |a + b| ==> !(a + b)[i].Flush? && !(a + b)[i].Header?
  {
  }

  /** Processing one more item extends what has been written and enqueued. */
  lemma PrefixStep(process: WorkItem -> Step, done: seq<WorkItem>, item: WorkItem)
    ensures NextAll(process, done + [item]) == NextAll(process, done) + process(item).next
    ensures EmitAll(process, done + [item]) == EmitAll(process, done) + process(item).out
  {
    assert (done + [item])[..|done|] == done;
  }

  /** Processing the item under the cursor lowers the weight still queued. */
  lemma WeightStep(queue: seq<WorkItem>, cursor: nat, next: seq<WorkItem>)
    requires cursor < |queue|
    requires ItemsWeight(next) < NodesWeight(queue[cursor].elements)
    ensures ItemsWeight((queue + next)[cursor + 1..]) < ItemsWeight(queue[cursor..])
  {
    var rest := queue[cursor + 1..];
    assert queue[cursor..] == [queue[cursor]] + rest;
    assert (queue + next)[cursor + 1..] == rest + next;
    ReplaceHead(queue[cursor], rest, next);
  }

  lemma ReplaceHead(item: WorkItem, rest: seq<WorkItem>, next: seq<WorkItem>)
    requires ItemsWeight(next) < NodesWeight(item.elements)
    ensures ItemsWeight(rest + next) < ItemsWeight([item] + rest)
  {
    ItemsWeightAppend([item], rest);
    ItemsWeightAppend(rest, next);
    assert ItemsWeight([item]) == NodesWeight(item.elements) by {
      assert [item][..0] == [];
    }
  }

  /** Appending items one level below the cursor's item keeps the queue
      ordered by depth: the walk is breadth-first. */
  lemma DepthStep(queue: seq<WorkItem>, cursor: nat, next: seq<WorkItem>)
    requires cursor < |queue|
    requires forall i, j :: 0 <= i < j < |queue| ==> |queue[i].path| <= |queue[j].path|
    requires cursor == 0 ==> |queue| == 1
    requires 0 < cursor ==> forall j :: cursor <= j < |queue| ==> |queue[j].path| <= |queue[cursor - 1].path| + 1
    requires forall k :: 0 <= k < |next| ==> |next[k].path| == |queue[cursor].path| + 1
    ensures var after := queue + next;
            && (forall i, j :: 0 <= i < j < |after| ==> |after[i].path| <= |after[j].path|)
            && (forall j :: cursor + 1 <= j < |after| ==> |after[j].path| <= |after[cursor].path| + 1)
  {
    var after := queue + next;
    forall i, j | 0 <= i < j < |after|
      ensures |after[i].path| <= |after[j].path|
    {
      if j >= |queue| {
        assert after[j] == next[j - |queue|];
        if i >= |queue| {
          assert after[i] == next[i - |queue|];
        } else if i > cursor {
          assert |after[i].path| <= |queue[cursor - 1].path| + 1;
          assert |queue[cursor - 1].path| <= |queue[cursor].path|;
        } else if i < cursor {
          assert |queue[i].path| <= |queue[cursor].path|;
        }
      }
    }
    forall j | cursor + 1 <= j < |after|
      ensures |after[j].path| <= |after[cursor].path| + 1
    {
      if j >= |queue| {
        assert after[j] == next[j - |queue|];
      } else {
        assert |queue[cursor - 1].path| <= |queue[cursor].path|;
      }
    }
  }

  // -------------------------------------------------------------- device

  /** One compilation unit: the generated-file header, the declarations,
      and the hand-off to the writer under the unit's name. */
  function Unit(name: string, body: seq<Out>): seq<Out> {
    [Header] + body + [Flush(name)]
  }

  /** A unit around balanced, unflushed declarations is balanced, begins
      with the header and names exactly itself, at its end. */
  lemma UnitShape(name: string, body: seq<Out>)
    requires Balanced(body)
    requires forall i :: 0 <= i < |body| ==> !body[i].Flush?
    ensures var u := Unit(name, body);
            && Balanced(u)
            && |u| == |body| + 2 && u[0] == Header && u[|u| - 1] == Flush(name)
            && (forall i :: 0 <= i < |u| - 1 ==> !u[i].Flush?)
            && Units(u) == [name]
  {
    BalancedNeutral([Header]);
    BalancedNeutral([Flush(name)]);
    BalancedAppend([Header], body);
    BalancedAppend([Header] + body, [Flush(name)]);
    UnitsNone([Header] + body);
    UnitsAppend([Header] + body, [Flush(name)]);
    assert Units([Flush(name)]) == [name] by {
      assert [Flush(name)][..0] == [];
    }
    var u := Unit(name, body);
    forall i | 0 <= i < |u| - 1
      ensures !u[i].Flush?
    {
      if 0 < i {
        assert u[i] == body[i - 1];
      }
    }
  }

  /** The declarations of the device unit: every exported peripheral's
      accessor(s), inside a device namespace when requested. */
  function DeviceBody(ctx: Context, device: Device, ps: seq<Peripheral>): (out: seq<Out>)
    ensures Balanced(out)
    ensures forall i :: 0 <= i < |out| ==> !out[i].Flush?
    ensures var accessors := PeripheralListAccessors(ctx, ps, device.properties);
            var kind := if ctx.instanceMemberPeripherals then StructKind else EnumKind;
            && (ctx.namespaceUnderDevice ==>
                  && |out| == |accessors| + 4
                  && out[0] == DeviceOpen(kind, DeviceName(ctx, device))
                  && forall i :: 0 <= i < |accessors| ==> out[i + 2] == accessors[i])
            && (!ctx.namespaceUnderDevice ==> out == accessors)
    ensures forall i :: 0 <= i < |out| && out[i].DeviceOpen? ==> i == 0 && ctx.namespaceUnderDevice
  {
    var accessors := PeripheralListAccessors(ctx, ps, device.properties);
    BalancedNeutral(accessors);
    if ctx.namespaceUnderDevice then
      var kind := if ctx.instanceMemberPeripherals then StructKind else EnumKind;
      var open := DeviceOpen(kind, DeviceName(ctx, device));
      BalancedBlock(open, accessors);
      NoFlushBlock(open, accessors);
      Block(open, accessors)
    else
      accessors
  }

  /** A block around node declarations flushes nothing and opens a device
      namespace at most at its start. */
  lemma NoFlushBlock(open: Out, body: seq<Out>)
    requires !open.Flush? && NodeOutput(body)
    ensures forall i :: 0 <= i < |Block(open, body)| ==>
              !Block(open, body)[i].Flush? && (Block(open, body)[i].DeviceOpen? ==> i == 0)
  {
    var r := Block(open, body);
    forall i | 0 <= i < |r|
      ensures !r[i].Flush? && (r[i].DeviceOpen? ==> i == 0)
    {
      if 2 <= i < |r| - 2 {
        assert r[i] == body[i - 2];
      }
    }
  }

  /** The device compilation unit: the header, the device body, the flush. */
  function DeviceUnit(ctx: Context, device: Device, ps: seq<Peripheral>): (out: seq<Out>)
    ensures Balanced(out)
    ensures |out| >= 2 && out[0] == Header && out[|out| - 1] == Flush(DeviceUnitName)
    ensures out[1..|out| - 1] == DeviceBody(ctx, device, ps)
    ensures forall i :: 0 <= i < |out| - 1 ==> !out[i].Flush?
    ensures Units(out) == [DeviceUnitName]
  {
    var body := DeviceBody(ctx, device, ps);
    UnitShape(DeviceUnitName, body);
    assert Unit(DeviceUnitName, body)[1..|body| + 1] == body;
    Unit(DeviceUnitName, body)
  }

  const DeviceUnitName := "Device.swift"

  function DeviceName(ctx: Context, device: Device): string {
    ctx.overrideDeviceName.GetOr(ctx.swiftName(device.name))
  }

  function UnitName(ctx: Context, p: Peripheral): string {
    ctx.swiftName(p.name) + ".swift"
  }

  /** Peripheral accessors all read the device's own properties. */
  function PeripheralListAccessors(ctx: Context, ps: seq<Peripheral>, inherited: RegisterProperties): (out: seq<Out>)
    ensures Neutral(out) && NodeOutput(out)
    decreases |ps|
  {
    if ps == [] then []
    else
      var prefix := PeripheralListAccessors(ctx, ps[..|ps| - 1], inherited);
      var last := PeripheralAccessors(ctx, ps[|ps| - 1], inherited);
      PeripheralAccessorsClean(ctx, ps[|ps| - 1], inherited);
      CleanAppend(prefix, last);
      prefix + last
  }

  /** The device unit lists each peripheral's accessors, in order. */
  lemma {:induction false} PeripheralListAccessorsAppend(ctx: Context, a: seq<Peripheral>, b: seq<Peripheral>, inherited: RegisterProperties)
    ensures PeripheralListAccessors(ctx, a + b, inherited)
            == PeripheralListAccessors(ctx, a, inherited) + PeripheralListAccessors(ctx, b, inherited)
    ensures |b| == 1 ==> PeripheralListAccessors(ctx, b, inherited) == PeripheralAccessors(ctx, b[0], inherited)
    decreases |b|
  {
    if b == [] {
      assert a + b == a;
    } else {
      var init := b[..|b| - 1];
      assert (a + b)[..|a + b| - 1] == a + init;
      assert (a + b)[|a + b| - 1] == b[|b| - 1];
      PeripheralListAccessorsAppend(ctx, a, init, inherited);
      ConcatAssociative(PeripheralListAccessors(ctx, a, inherited), PeripheralListAccessors(ctx, init, inherited),
                        PeripheralAccessors(ctx, b[|b| - 1], inherited));
      if |b| == 1 {
        assert init == [];
      }
    }
  }

  /** The compilation units named by the flushes in `out`, in order. */
  function Units(out: seq<Out>): seq<string>
    decreases |out|
  {
    if out == [] then []
    else Units(out[..|out| - 1]) + (if out[|out| - 1].Flush? then [out[|out| - 1].unit] else [])
  }

  lemma {:induction false} UnitsAppend(a: seq<Out>, b: seq<Out>)
    ensures Units(a + b) == Units(a) + Units(b)
    decreases |b|
  {
    if b != [] {
      assert (a + b)[..|a + b| - 1] == a + b[..|b| - 1];
      UnitsAppend(a, b[..|b| - 1]);
    } else {
      assert a + b == a;
    }
  }

  lemma {:induction false} UnitsNone(s: seq<Out>)
    requires forall i :: 0 <= i < |s| ==> !s[i].Flush?
    ensures Units(s) == []
    decreases |s|
  {
    if s != [] {
      UnitsNone(s[..|s| - 1]);
    }
  }

  lemma UnitNamesLast(ctx: Context, ps: seq<Peripheral>)
    requires ps != []
    ensures UnitNames(ctx, ps) == UnitNames(ctx, ps[..|ps| - 1]) + [UnitName(ctx, ps[|ps| - 1])]
  {
  }

  function UnitNames(ctx: Context, ps: seq<Peripheral>): (r: seq<string>)
    ensures |r| == |ps|
    ensures forall i :: 0 <= i < |ps| ==> r[i] == UnitName(ctx, ps[i])
  {
    seq(|ps|, i requires 0 <= i < |ps| => UnitName(ctx, ps[i]))
  }

  /** The types a peripheral's extensions are nested in: the device
      namespace when requested, otherwise none. */
  function ParentTypes(ctx: Context, device: Device): seq<string> {
    if ctx.namespaceUnderDevice then [DeviceName(ctx, device)] else []
  }

  /** The unit of one exported peripheral: the walk started from the
      peripheral alone, under the parent types, inheriting the device's
      properties. */
  function PeripheralUnit(ctx: Context, device: Device, p: Peripheral): (out: seq<Out>)
    ensures Balanced(out) && Units(out) == [UnitName(ctx, p)]
  {
    var body := Traversal(ctx, WorkItem([PeripheralNode(p)], ParentTypes(ctx, device), device.properties));
    UnitShape(UnitName(ctx, p), body);
    Unit(UnitName(ctx, p), body)
  }

  /** The units of `ps`, one per peripheral, in order. */
  function PeripheralUnits(ctx: Context, device: Device, ps: seq<Peripheral>): (out: seq<Out>)
    ensures Balanced(out) && Units(out) == UnitNames(ctx, ps)
    decreases |ps|
  {
    if ps == [] then
      BalancedNeutral([]);
      []
    else
      var init := PeripheralUnits(ctx, device, ps[..|ps| - 1]);
      var last := PeripheralUnit(ctx, device, ps[|ps| - 1]);
      BalancedAppend(init, last);
      UnitsAppend(init, last);
      UnitNamesLast(ctx, ps);
      init + last
  }

  lemma PeripheralUnitsLast(ctx: Context, device: Device, ps: seq<Peripheral>)
    requires ps != []
    ensures PeripheralUnits(ctx, device, ps)
            == PeripheralUnits(ctx, device, ps[..|ps| - 1]) + PeripheralUnit(ctx, device, ps[|ps| - 1])
  {
  }

  /** Everything the export of `ps` writes: the device unit, then the
      peripherals' units in order. */
  function ExportOutput(ctx: Context, device: Device, ps: seq<Peripheral>): (out: seq<Out>)
    ensures Balanced(out)
    ensures Units(out) == [DeviceUnitName] + UnitNames(ctx, ps)
  {
    var deviceUnit := DeviceUnit(ctx, device, ps);
    var units := PeripheralUnits(ctx, device, ps);
    BalancedAppend(deviceUnit, units);
    UnitsAppend(deviceUnit, units);
    deviceUnit + units
  }

  /** The whole export. An unknown selected peripheral fails before anything
      is written; a value that does not fit a `UInt64`, or a field stride
      that does not fit an `Int`, traps in the generator and is reported as
      `Overflow`. Otherwise the output is the
      device unit followed by one unit per exported peripheral, in ascending
      name order, each one balanced. */
  method ExportDevice(ctx: Context, device: Device) returns (r: Result<seq<Out>, ExportError>)
    ensures var chosen := ExportedPeripherals(ctx.selectedPeripherals, device.peripherals);
            chosen.Failure? ==> r == Failure(chosen.error)
    ensures var chosen := ExportedPeripherals(ctx.selectedPeripherals, device.peripherals);
            chosen.Success? ==>
              var all := ExportOutput(ctx, device, chosen.value);
              r == (if AllFit(all) then Success(all) else Failure(Overflow))
    ensures r.Failure? ==> r.error.Overflow? || ExportedPeripherals(ctx.selectedPeripherals, device.peripherals).Failure?
    ensures r.Success? ==>
              var chosen := ExportedPeripherals(ctx.selectedPeripherals, device.peripherals);
              && chosen.Success?
              && Units(r.value) == [DeviceUnitName] + UnitNames(ctx, chosen.value)
              && |DeviceUnit(ctx, device, chosen.value)| <= |r.value|
              && r.value[..|DeviceUnit(ctx, device, chosen.value)|] == DeviceUnit(ctx, device, chosen.value)
              && Balanced(r.value)
              && AllFit(r.value)
  {
    var chosen := ExportedPeripherals(ctx.selectedPeripherals, device.peripherals);
    if chosen.Failure? {
      return Failure(chosen.error);
    }
    var ps := chosen.value;
    var deviceUnit := DeviceUnit(ctx, device, ps);
    var out := deviceUnit;
    DeviceStart(ctx, device, ps);
    var parentTypes := ParentTypes(ctx, device);
    var i := 0;
    while i < |ps|
      invariant i <= |ps|
      invariant DeviceState(ctx, device, ps, i, out)
    {
      var scopes, _ := RunQueue(ctx, WorkItem([PeripheralNode(ps[i])], parentTypes, device.properties));
      var unit := Unit(UnitName(ctx, ps[i]), scopes);
      DeviceAdvance(ctx, device, ps, i, out, unit);
      out := out + unit;
      i := i + 1;
    }
    DeviceFinish(ctx, device, ps, out);
    if !AllFit(out) {
      return Failure(Overflow);
    }
    return Success(out);
  }

  /** The loop invariant of the export: the device unit, then the units
      of the peripherals exported so far. */
  ghost predicate DeviceState(ctx: Context, device: Device, ps: seq<Peripheral>, i: nat, out: seq<Out>) {
    && i <= |ps|
    && out == DeviceUnit(ctx, device, ps) + PeripheralUnits(ctx, device, ps[..i])
  }

  lemma DeviceStart(ctx: Context, device: Device, ps: seq<Peripheral>)
    ensures DeviceState(ctx, device, ps, 0, DeviceUnit(ctx, device, ps))
  {
    assert ps[..0] == [];
    assert DeviceUnit(ctx, device, ps) + [] == DeviceUnit(ctx, device, ps);
  }

  /** Appending the next peripheral's unit keeps the invariant. */
  lemma DeviceAdvance(ctx: Context, device: Device, ps: seq<Peripheral>, i: nat, out: seq<Out>, unit: seq<Out>)
    requires i < |ps| && DeviceState(ctx, device, ps, i, out)
    requires unit == Unit(UnitName(ctx, ps[i]),
                          Traversal(ctx, WorkItem([PeripheralNode(ps[i])], ParentTypes(ctx, device), device.properties)))
    ensures DeviceState(ctx, device, ps, i + 1, out + unit)
  {
    assert unit == PeripheralUnit(ctx, device, ps[i]);
    PeripheralUnitsLast(ctx, device, ps[..i + 1]);
    assert ps[..i + 1][..i] == ps[..i];
    ConcatAssociative(DeviceUnit(ctx, device, ps), PeripheralUnits(ctx, device, ps[..i]), unit);
  }

  lemma DeviceFinish(ctx: Context, device: Device, ps: seq<Peripheral>, out: seq<Out>)
    requires DeviceState(ctx, device, ps, |ps|, out)
    ensures out == ExportOutput(ctx, device, ps)
    ensures Units(out) == [DeviceUnitName] + UnitNames(ctx, ps)
    ensures Balanced(out)
    ensures |DeviceUnit(ctx, device, ps)| <= |out| && out[..|DeviceUnit(ctx, device, ps)|] == DeviceUnit(ctx, device, ps)
  {
    assert ps[..|ps|] == ps;
  }

}
