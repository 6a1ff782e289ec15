/** Which peripherals a device export covers, and in which order: all of
    them when no selection is given, otherwise the selected ones (each
    must exist), always sorted ascending by name. */
module Selection {
  import opened Base
  import opened Strings
  import opened Svd

  /** Why an export fails. Selection reports only `UnknownPeripheral`;
      `Overflow` is reported by `Engine.ExportDevice` when the output holds a
      number that does not fit, or a trap. */
  datatype ExportError =
    | UnknownPeripheral(name: string, validNames: seq<string>)
    | Overflow

  /** The peripheral a name-keyed dictionary built in document order maps
      `name` to: the last peripheral of that name. */
  function Lookup(ps: seq<Peripheral>, name: string): (r: Option<Peripheral>)
    ensures r.Some? <==> name in Names(ps)
    ensures r.Some? ==> exists i :: 0 <= i < |ps| && ps[i] == r.value
                                   && forall j :: i < j < |ps| ==> ps[j].name != name
    ensures r.Some? ==> r.value.name == name
    decreases |ps|
  {
    if ps == [] then None
    else if ps[|ps| - 1].name == name then Some(ps[|ps| - 1])
    else
      assert Names(ps) == Names(ps[..|ps| - 1]) + [ps[|ps| - 1].name];
      Lookup(ps[..|ps| - 1], name)
  }

  /** Looks up each selected name in order, failing on the first unknown one
      with the list of every peripheral name of the device. */
  function Resolve(selection: seq<string>, ps: seq<Peripheral>): (r: Result<seq<Peripheral>, ExportError>)
    ensures r.Success? <==> forall i :: 0 <= i < |selection| ==> selection[i] in Names(ps)
    ensures r.Success? ==> |r.value| == |selection|
    ensures r.Success? ==> forall i :: 0 <= i < |selection| ==> Lookup(ps, selection[i]) == Some(r.value[i])
    ensures r.Failure? ==>
              exists k :: 0 <= k < |selection| && selection[k] !in Names(ps)
                          && (forall j :: 0 <= j < k ==> selection[j] in Names(ps))
                          && r.error == UnknownPeripheral(selection[k], Names(ps))
    decreases |selection|
  {
    if selection == [] then Success([])
    else
      match Lookup(ps, selection[0])
      case None => Failure(UnknownPeripheral(selection[0], Names(ps)))
      case Some(p) =>
        match Resolve(selection[1..], ps)
        case Failure(e) => Failure(e)
        case Success(rest) => Success([p] + rest)
  }

  // ------------------------------------------------------------- ordering

  predicate SortedByName(s: seq<Peripheral>) {
    forall i, j :: 0 <= i < j < |s| ==> !Less(s[j].name, s[i].name)
  }

  predicate SortedStrings(s: seq<string>) {
    forall i, j :: 0 <= i < j < |s| ==> !Less(s[j], s[i])
  }

  /** Inserts `x` after every element whose name is not greater. */
  function Insert(x: Peripheral, s: seq<Peripheral>): (r: seq<Peripheral>)
    ensures multiset(r) == multiset(s) + multiset{x}
    ensures SortedByName(s) ==> SortedByName(r)
    decreases |s|
  {
    if s == [] then [x]
    else if Less(x.name, s[0].name) then
      InsertFront(x, s);
      [x] + s
    else
      var rest := Insert(x, s[1..]);
      InsertBehind(x, s, rest);
      [s[0]] + rest
  }

  lemma InsertBehind(x: Peripheral, s: seq<Peripheral>, rest: seq<Peripheral>)
    requires s != [] && !Less(x.name, s[0].name)
    requires multiset(rest) == multiset(s[1..]) + multiset{x}
    requires SortedByName(s[1..]) ==> SortedByName(rest)
    ensures multiset([s[0]] + rest) == multiset(s) + multiset{x}
    ensures SortedByName(s) ==> SortedByName([s[0]] + rest)
  {
    assert s == [s[0]] + s[1..];
    if SortedByName(s) {
      forall y | y in rest
        ensures !Less(y.name, s[0].name)
      {
        assert y in multiset(rest);
        if y != x {
          assert y in multiset(s[1..]);
          var k :| 0 <= k < |s[1..]| && s[1..][k] == y;
          assert s[k + 1] == y;
        }
      }
      SortedCons(s[0], rest);
    }
  }

  /** A sorted sequence stays sorted behind a head no greater than any of it. */
  lemma SortedCons(h: Peripheral, t: seq<Peripheral>)
    requires SortedByName(t)
    requires forall y :: y in t ==> !Less(y.name, h.name)
    ensures SortedByName([h] + t)
  {
    var r := [h] + t;
    forall i, j | 0 <= i < j < |r|
      ensures !Less(r[j].name, r[i].name)
    {
      assert r[j] == t[j - 1];
      if i == 0 {
        assert r[j] in t;
      } else {
        assert r[i] == t[i - 1];
      }
    }
  }

  lemma InsertFront(x: Peripheral, s: seq<Peripheral>)
    requires s != [] && Less(x.name, s[0].name)
    ensures SortedByName(s) ==> SortedByName([x] + s)
  {
    if SortedByName(s) {
      forall j | 0 <= j < |s|
        ensures !Less(s[j].name, x.name)
      {
        if Less(s[j].name, x.name) {
          LessTransitive(s[j].name, x.name, s[0].name);
          if j == 0 {
            LessIrreflexive(s[0].name);
          }
        }
      }
    }
  }

  /** Swift's `sorted { $0.name < $1.name }`: ascending by name, same
      elements, and stable: each element is inserted behind every earlier
      one whose name is not greater (see `SortByNameStable`). */
  function SortByName(s: seq<Peripheral>): (r: seq<Peripheral>)
    ensures SortedByName(r)
    ensures multiset(r) == multiset(s)
    decreases |s|
  {
    if s == [] then []
    else
      var init := s[..|s| - 1];
      assert s == init + [s[|s| - 1]];
      Insert(s[|s| - 1], SortByName(init))
  }

  /** The elements of `s` named `n`, in their order in `s`. */
  function Named(s: seq<Peripheral>, n: string): seq<Peripheral>
    decreases |s|
  {
    if s == [] then []
    else (if s[0].name == n then [s[0]] else []) + Named(s[1..], n)
  }

  lemma {:induction false} NamedAppend(a: seq<Peripheral>, b: seq<Peripheral>, n: string)
    ensures Named(a + b, n) == Named(a, n) + Named(b, n)
    decreases |a|
  {
    if a == [] {
      assert a + b == b;
    } else {
      assert (a + b)[1..] == a[1..] + b;
      assert (a + b)[0] == a[0];
      NamedAppend(a[1..], b, n);
      ConcatAssociative(if a[0].name == n then [a[0]] else [], Named(a[1..], n), Named(b, n));
    }
  }

  lemma {:induction false} NamedNone(s: seq<Peripheral>, n: string)
    requires forall i :: 0 <= i < |s| ==> s[i].name != n
    ensures Named(s, n) == []
    decreases |s|
  {
    if s != [] {
      NamedNone(s[1..], n);
    }
  }

  /** Inserting into a sorted sequence puts `x` behind every element of the
      same name. */
  lemma {:induction false} InsertStable(x: Peripheral, s: seq<Peripheral>, n: string)
    requires SortedByName(s)
    ensures Named(Insert(x, s), n) == Named(s, n) + Named([x], n)
    decreases |s|
  {
    if s == [] {
      assert Named([x], n) == (if x.name == n then [x] else []) + Named([], n);
    } else if Less(x.name, s[0].name) {
      InsertStableFront(x, s, n);
    } else {
      SortedTail(s);
      InsertStable(x, s[1..], n);
      NamedBehindHead(s[0], s[1..], Insert(x, s[1..]), x, n);
      assert s == [s[0]] + s[1..];
    }
  }

  /** Putting the head back in front of both sides keeps the equation. */
  lemma NamedBehindHead(h: Peripheral, rest: seq<Peripheral>, t: seq<Peripheral>, x: Peripheral, n: string)
    requires Named(t, n) == Named(rest, n) + Named([x], n)
    ensures Named([h] + t, n) == Named([h] + rest, n) + Named([x], n)
  {
    NamedAppend([h], t, n);
    NamedAppend([h], rest, n);
    ConcatAssociative(Named([h], n), Named(rest, n), Named([x], n));
  }

  /** In front of a sorted sequence whose first name is greater, `x` is the
      only element of its name. */
  lemma InsertStableFront(x: Peripheral, s: seq<Peripheral>, n: string)
    requires SortedByName(s) && s != [] && Less(x.name, s[0].name)
    ensures Named([x] + s, n) == Named(s, n) + Named([x], n)
  {
    assert Named([x], n) == (if x.name == n then [x] else []) + Named([], n);
    NamedAppend([x], s, n);
    if x.name == n {
      forall i | 0 <= i < |s|
        ensures s[i].name != n
      {
        if i == 0 {
          LessIrreflexive(n);
        }
      }
      NamedNone(s, n);
    }
  }

  lemma SortedTail(s: seq<Peripheral>)
    requires SortedByName(s) && s != []
    ensures SortedByName(s[1..])
  {
    forall i, j | 0 <= i < j < |s[1..]|
      ensures !Less(s[1..][j].name, s[1..][i].name)
    {
      assert s[1..][j] == s[j + 1] && s[1..][i] == s[i + 1];
    }
  }

  /** The sort is stable: for every name, the elements carrying it appear
      in the output in their input order. */
  lemma {:induction false} SortByNameStable(s: seq<Peripheral>, n: string)
    ensures Named(SortByName(s), n) == Named(s, n)
    decreases |s|
  {
    if s != [] {
      var init := s[..|s| - 1];
      var x := s[|s| - 1];
      SortByNameStable(init, n);
      SortByNameLast(s);
      InsertStable(x, SortByName(init), n);
      NamedAppend(init, [x], n);
      assert s == init + [x];
    }
  }

  lemma SortByNameLast(s: seq<Peripheral>)
    requires s != []
    ensures SortByName(s) == Insert(s[|s| - 1], SortByName(s[..|s| - 1]))
  {
  }

  /** The peripherals a device export writes, in output order. */
  function ExportedPeripherals(selection: seq<string>, ps: seq<Peripheral>): (r: Result<seq<Peripheral>, ExportError>)
    ensures r.Success? ==> SortedByName(r.value)
    ensures selection == [] ==> r.Success? && multiset(r.value) == multiset(ps)
    ensures selection == [] ==> forall n :: Named(r.value, n) == Named(ps, n)
    ensures selection != [] ==>
              (r.Success? <==> forall i :: 0 <= i < |selection| ==> selection[i] in Names(ps))
    ensures selection != [] && r.Success? ==>
              && Resolve(selection, ps).Success?
              && multiset(r.value) == multiset(Resolve(selection, ps).value)
              && multiset(Names(r.value)) == multiset(selection)
              && forall p :: p in r.value ==> p in ps
    ensures r.Failure? ==>
              exists k :: 0 <= k < |selection| && selection[k] !in Names(ps)
                          && (forall j :: 0 <= j < k ==> selection[j] in Names(ps))
                          && r.error == UnknownPeripheral(selection[k], Names(ps))
  {
    if selection == [] then
      assert forall n :: Named(SortByName(ps), n) == Named(ps, n) by {
        forall n
          ensures Named(SortByName(ps), n) == Named(ps, n)
        {
          SortByNameStable(ps, n);
        }
      }
      Success(SortByName(ps))
    else
      match Resolve(selection, ps)
      case Failure(e) => Failure(e)
      case Success(chosen) =>
        ResolvedNames(selection, ps, chosen);
        var sorted := SortByName(chosen);
        NamesPermutation(sorted, chosen);
        assert forall p :: p in sorted ==> p in multiset(chosen);
        Success(sorted)
  }

  /** The resolved peripherals carry the selected names, in selection order,
      and all come from the device. */
  lemma ResolvedNames(selection: seq<string>, ps: seq<Peripheral>, chosen: seq<Peripheral>)
    requires Resolve(selection, ps) == Success(chosen)
    ensures Names(chosen) == selection
    ensures forall p :: p in chosen ==> p in ps
  {
    forall i | 0 <= i < |selection|
      ensures Names(chosen)[i] == selection[i]
    {
      assert Lookup(ps, selection[i]) == Some(chosen[i]);
    }
    forall p | p in chosen
      ensures p in ps
    {
      var i :| 0 <= i < |chosen| && chosen[i] == p;
      assert Lookup(ps, selection[i]) == Some(p);
    }
  }

  // ------------------------------------------------- order independence

  lemma NamesAppend(a: seq<Peripheral>, b: seq<Peripheral>)
    ensures Names(a + b) == Names(a) + Names(b)
  {
  }

  /** Taking one element out of a sequence takes it out of its multiset. */
  lemma MultisetRemove<T>(s: seq<T>, k: nat)
    requires k < |s|
    ensures multiset(s) == multiset(s[..k] + s[k + 1..]) + multiset{s[k]}
  {
    assert s == s[..k] + [s[k]] + s[k + 1..];
  }

  lemma MultisetCancel<T>(x: multiset<T>, y: multiset<T>, e: T)
    requires x + multiset{e} == y + multiset{e}
    ensures x == y
  {
    assert x == (x + multiset{e}) - multiset{e};
    assert y == (y + multiset{e}) - multiset{e};
  }

  /** Permuting peripherals permutes their names. */
  lemma {:induction false} NamesPermutation(a: seq<Peripheral>, b: seq<Peripheral>)
    requires multiset(a) == multiset(b)
    ensures multiset(Names(a)) == multiset(Names(b))
    decreases |a|
  {
    if a == [] {
      assert |b| == |multiset(b)| == 0;
    } else {
      assert a[0] in multiset(b);
      var k :| 0 <= k < |b| && b[k] == a[0];
      var rest := b[..k] + b[k + 1..];
      PermutationRemove(a, b, k);
      NamesPermutation(a[1..], rest);
      NamesHead(a);
      NamesRemove(b, k);
    }
  }

  lemma PermutationRemove<T>(a: seq<T>, b: seq<T>, k: nat)
    requires multiset(a) == multiset(b)
    requires a != [] && k < |b| && b[k] == a[0]
    ensures multiset(a[1..]) == multiset(b[..k] + b[k + 1..])
  {
    MultisetRemove(b, k);
    MultisetRemove(a, 0);
    assert a[..0] + a[1..] == a[1..];
    MultisetCancel(multiset(a[1..]), multiset(b[..k] + b[k + 1..]), a[0]);
  }

  lemma NamesHead(a: seq<Peripheral>)
    requires a != []
    ensures multiset(Names(a)) == multiset(Names(a[1..])) + multiset{a[0].name}
  {
    assert Names(a) == [a[0].name] + Names(a[1..]);
  }

  lemma NamesRemove(b: seq<Peripheral>, k: nat)
    requires k < |b|
    ensures multiset(Names(b)) == multiset(Names(b[..k] + b[k + 1..])) + multiset{b[k].name}
  {
    MultisetRemove(Names(b), k);
    assert Names(b)[..k] + Names(b)[k + 1..] == Names(b[..k] + b[k + 1..]);
  }

  /** Two sorted arrangements of the same names are the same sequence. */
  lemma {:induction false} SortedStringsUnique(a: seq<string>, b: seq<string>)
    requires SortedStrings(a) && SortedStrings(b)
    requires multiset(a) == multiset(b)
    ensures a == b
    decreases |a|
  {
    if a == [] {
      assert |b| == |multiset(b)| == 0;
    } else {
      SortedHeadsEqual(a, b);
      MultisetTail(a);
      MultisetTail(b);
      SortedStringsTail(a);
      SortedStringsTail(b);
      SortedStringsUnique(a[1..], b[1..]);
      assert a == [a[0]] + a[1..];
      assert b == [b[0]] + b[1..];
    }
  }

  /** Two sorted arrangements of one multiset start with the same string. */
  lemma SortedHeadsEqual(a: seq<string>, b: seq<string>)
    requires SortedStrings(a) && SortedStrings(b)
    requires multiset(a) == multiset(b) && a != []
    ensures b != [] && a[0] == b[0]
  {
    assert a[0] in multiset(b);
    var k :| 0 <= k < |b| && b[k] == a[0];
    assert !Less(a[0], b[0]) by {
      if k > 0 {
        assert !Less(b[k], b[0]);
      } else {
        LessIrreflexive(b[0]);
      }
    }
    assert b[0] in multiset(a);
    var m :| 0 <= m < |a| && a[m] == b[0];
    assert !Less(b[0], a[0]) by {
      if m > 0 {
        assert !Less(a[m], a[0]);
      } else {
        LessIrreflexive(a[0]);
      }
    }
    LessAntisymmetric(a[0], b[0]);
  }

  lemma MultisetTail<T>(s: seq<T>)
    requires s != []
    ensures multiset(s[1..]) == multiset(s) - multiset{s[0]}
  {
    assert s == [s[0]] + s[1..];
  }

  lemma SortedStringsTail(s: seq<string>)
    requires SortedStrings(s) && s != []
    ensures SortedStrings(s[1..])
  {
    forall i, j | 0 <= i < j < |s[1..]|
      ensures !Less(s[1..][j], s[1..][i])
    {
      assert s[1..][j] == s[j + 1] && s[1..][i] == s[i + 1];
    }
  }

  lemma SortedNames(s: seq<Peripheral>)
    requires SortedByName(s)
    ensures SortedStrings(Names(s))
  {
  }

  /** The output order depends only on which names are exported, not on the
      document order of the peripherals nor on the order of the selection. */
  lemma ExportOrderIndependent(sel1: seq<string>, ps1: seq<Peripheral>, sel2: seq<string>, ps2: seq<Peripheral>)
    requires ExportedPeripherals(sel1, ps1).Success? && ExportedPeripherals(sel2, ps2).Success?
    requires sel1 == [] <==> sel2 == []
    requires sel1 == [] ==> multiset(ps1) == multiset(ps2)
    requires sel1 != [] ==> multiset(sel1) == multiset(sel2)
    ensures Names(ExportedPeripherals(sel1, ps1).value) == Names(ExportedPeripherals(sel2, ps2).value)
  {
    var r1 := ExportedPeripherals(sel1, ps1).value;
    var r2 := ExportedPeripherals(sel2, ps2).value;
    SortedNames(r1);
    SortedNames(r2);
    if sel1 == [] {
      NamesPermutation(r1, r2);
    }
    SortedStringsUnique(Names(r1), Names(r2));
  }
}
