/** The decoded SVD tree the generator consumes: device, peripherals,
    clusters, registers and fields. Descriptions are omitted: they only
    become comments in the generated text. */
module Svd {
  import opened Base
  import opened Properties
  import opened WriteConstraints

  /** Replication of an element: `dim` copies, `dimIncrement` apart. */
  datatype Dimension = Dimension(dim: Option<nat>, dimIncrement: Option<nat>)

  const Scalar := Dimension(None, None)

  /** A half-open bit range `lowerBound ..< upperBound`, as a Swift `Range`. */
  datatype RawBitRange = RawBitRange(lowerBound: nat, upperBound: nat)

  type BitRange = r: RawBitRange | r.lowerBound <= r.upperBound
    witness RawBitRange(0, 0)

  function Width(r: BitRange): nat {
    r.upperBound - r.lowerBound
  }

  datatype Field = Field(
    name: string,
    access: Option<Access>,
    bitRange: BitRange,
    dimension: Dimension,
    writeConstraint: Option<WriteConstraint>)

  datatype Register = Register(
    name: string,
    addressOffset: nat,
    dimension: Dimension,
    properties: RegisterProperties,
    fields: Option<seq<Field>>)

  /** The optional list of clusters nested in a cluster. A dedicated type
      rather than `Option<seq<Cluster>>`, so that every nested cluster is
      structurally smaller than the cluster holding it. */
  datatype ClusterList = NoClusters | Clusters(items: seq<Cluster>)

  datatype Cluster = Cluster(
    name: string,
    addressOffset: nat,
    derivedFrom: Option<string>,
    dimension: Dimension,
    properties: RegisterProperties,
    register: Option<seq<Register>>,
    cluster: ClusterList)

  /** The `registers` element of a peripheral: its registers and clusters. */
  datatype RegisterBlock = RegisterBlock(register: seq<Register>, cluster: seq<Cluster>)

  datatype Peripheral = Peripheral(
    name: string,
    baseAddress: nat,
    derivedFrom: Option<string>,
    dimension: Dimension,
    properties: RegisterProperties,
    registers: Option<RegisterBlock>)

  datatype Device = Device(
    name: string,
    properties: RegisterProperties,
    peripherals: seq<Peripheral>)

  function ClusterRegisters(c: Cluster): seq<Register> {
    c.register.GetOr([])
  }

  function ClusterClusters(c: Cluster): seq<Cluster> {
    match c.cluster
    case Clusters(cs) => cs
    case NoClusters => []
  }

  function PeripheralRegisters(p: Peripheral): seq<Register> {
    match p.registers
    case Some(b) => b.register
    case None => []
  }

  function PeripheralClusters(p: Peripheral): seq<Cluster> {
    match p.registers
    case Some(b) => b.cluster
    case None => []
  }

  function Names(ps: seq<Peripheral>): (r: seq<string>)
    ensures |r| == |ps|
    ensures forall i :: 0 <= i < |ps| ==> r[i] == ps[i].name
  {
    seq(|ps|, i requires 0 <= i < |ps| => ps[i].name)
  }

  /** The number of nodes in a cluster's subtree; it bounds the export walk. */
  function ClusterWeight(c: Cluster): nat
    decreases c
  {
    1 + |c.register.GetOr([])| + (match c.cluster case Clusters(cs) => ClustersWeight(cs) case NoClusters => 0)
  }

  function ClustersWeight(cs: seq<Cluster>): nat
    decreases cs
  {
    if cs == [] then 0 else ClustersWeight(cs[..|cs| - 1]) + ClusterWeight(cs[|cs| - 1])
  }
}
