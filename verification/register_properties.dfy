/** The inheritable register-property record of an SVD description and the
    merge that threads defaults down the device tree. */
module Properties {
  import opened Base

  /** Access rights of a register or field. */
  datatype Access = ReadOnly | WriteOnly | ReadWrite | WriteOnce | ReadWriteOnce

  /** Protection level: secure, non-secure or privileged. */
  datatype Protection = Secure | NonSecure | Privileged

  /** Five optional defaults; `None` means "not given at this level". */
  datatype RegisterProperties = RegisterProperties(
    size: Option<nat>,
    access: Option<Access>,
    protection: Option<Protection>,
    resetValue: Option<nat>,
    resetMask: Option<nat>)
  {
    /** Field-wise `self ?? other`: the receiver's values win, the argument
        only fills the gaps. The engine calls it as `own.Merging(inherited)`. */
    function Merging(other: RegisterProperties): (r: RegisterProperties)
      ensures size.Some? ==> r.size == size
      ensures access.Some? ==> r.access == access
      ensures protection.Some? ==> r.protection == protection
      ensures resetValue.Some? ==> r.resetValue == resetValue
      ensures resetMask.Some? ==> r.resetMask == resetMask
      ensures size.None? ==> r.size == other.size
      ensures access.None? ==> r.access == other.access
      ensures protection.None? ==> r.protection == other.protection
      ensures resetValue.None? ==> r.resetValue == other.resetValue
      ensures resetMask.None? ==> r.resetMask == other.resetMask
    {
      RegisterProperties(
        size.Or(other.size),
        access.Or(other.access),
        protection.Or(other.protection),
        resetValue.Or(other.resetValue),
        resetMask.Or(other.resetMask))
    }
  }

  /** The record with nothing set. */
  const NoProperties := RegisterProperties(None, None, None, None, None)

  lemma MergingIdentity(a: RegisterProperties)
    ensures NoProperties.Merging(a) == a
    ensures a.Merging(NoProperties) == a
  {
  }

  lemma MergingIdempotent(a: RegisterProperties)
    ensures a.Merging(a) == a
  {
  }

  lemma MergingAssociative(a: RegisterProperties, b: RegisterProperties, c: RegisterProperties)
    ensures a.Merging(b.Merging(c)) == a.Merging(b).Merging(c)
  {
  }

  /** The properties in effect below a chain of tree levels, outermost first:
      each level merges its own properties over what it inherited. */
  function Effective(chain: seq<RegisterProperties>, root: RegisterProperties): RegisterProperties
    decreases |chain|
  {
    if chain == [] then root
    else chain[|chain| - 1].Merging(Effective(chain[..|chain| - 1], root))
  }

  /** Thanks to associativity, a chain can be collapsed into one record
      independently of what the root provides. */
  lemma {:induction false} EffectiveFactorsThroughRoot(chain: seq<RegisterProperties>, root: RegisterProperties)
    ensures Effective(chain, root) == Effective(chain, NoProperties).Merging(root)
    decreases |chain|
  {
    if chain != [] {
      var init := chain[..|chain| - 1];
      EffectiveFactorsThroughRoot(init, root);
      MergingAssociative(chain[|chain| - 1], Effective(init, NoProperties), root);
    }
  }

  /** Threading through `outer` and then `inner` is threading through both. */
  lemma {:induction false} EffectiveAppend(outer: seq<RegisterProperties>, inner: seq<RegisterProperties>, root: RegisterProperties)
    ensures Effective(outer + inner, root) == Effective(inner, Effective(outer, root))
    decreases |inner|
  {
    if inner != [] {
      var init := inner[..|inner| - 1];
      assert (outer + inner)[..|outer + inner| - 1] == outer + init;
      assert (outer + inner)[|outer + inner| - 1] == inner[|inner| - 1];
      EffectiveAppend(outer, init, root);
    } else {
      assert outer + inner == outer;
    }
  }

  /** Child overrides parent, first defined wins: the effective size is the
      size of the innermost level that sets one, else the root's. */
  lemma {:induction false} EffectiveSizeIsInnermost(chain: seq<RegisterProperties>, root: RegisterProperties, i: nat)
    requires i < |chain|
    requires chain[i].size.Some?
    requires forall j :: i < j < |chain| ==> chain[j].size.None?
    ensures Effective(chain, root).size == chain[i].size
    decreases |chain|
  {
    if i < |chain| - 1 {
      EffectiveSizeIsInnermost(chain[..|chain| - 1], root, i);
    }
  }

  /** When no level sets a size, the root's size shows through. */
  lemma {:induction false} EffectiveSizeFromRoot(chain: seq<RegisterProperties>, root: RegisterProperties)
    requires forall j :: 0 <= j < |chain| ==> chain[j].size.None?
    ensures Effective(chain, root).size == root.size
    decreases |chain|
  {
    if chain != [] {
      EffectiveSizeFromRoot(chain[..|chain| - 1], root);
    }
  }
}
