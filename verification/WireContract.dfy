/** The maps behind the generated proto and the wire lock: the type and the number of
    every telemetry field. */
module WireContract {
  import opened Wrappers
  import opened CanSpec
  import opened WireTypes
  import opened Ledger

  type Encoded = c: Contract | c.bitLength > 0 witness Contract(1, Unsigned, 1.0, 0.0, Flag, false, None)

  /** A telemetry binding: its claim, the signal's contract and the frames of its message. */
  datatype Binding = Binding(claim: Claim, signal: Encoded, frames: nat)

  /** A field that the gateway produces itself. */
  datatype External = External(group: string, field: string, id: nat, repeated: bool, element: ProtoType)

  datatype FieldType = FieldType(element: ProtoType, repeated: bool, count: Option<nat>)

  /** A shared source states its signal's contract in the ledger. */
  ghost predicate AllFaithful(bs: seq<Binding>) {
    forall i :: 0 <= i < |bs| && bs[i].claim.shared && !bs[i].claim.isBit ==> bs[i].claim.contract == Some(bs[i].signal)
  }

  function TypeOf(b: Binding): ProtoType {
    ElementType(b.signal, b.claim.isBit)
  }

  function ExternalKey(x: External): Key { (x.group, x.field) }

  function ClaimOf(x: External): Claim {
    Claim(x.group, x.field, x.id, x.repeated, 0, false, false, None, None, true)
  }

  /** The claims in the order in which the ledger sees them. */
  function ClaimsOf(bs: seq<Binding>, xs: seq<External>): (r: seq<Claim>)
    ensures |r| == |bs| + |xs|
    ensures forall i :: 0 <= i < |bs| ==> r[i] == bs[i].claim
    ensures forall i :: 0 <= i < |xs| ==> r[|bs| + i] == ClaimOf(xs[i])
  {
    seq(|bs|, i requires 0 <= i < |bs| => bs[i].claim) + seq(|xs|, i requires 0 <= i < |xs| => ClaimOf(xs[i]))
  }

  // ---- the maps -----------------------------------------------------------------

  function Added(b: Binding, key: Key): nat {
    if KeyOf(b.claim) == key && b.claim.repeated then b.frames else 0
  }

  /** The number of elements of a repeated field. */
  function Slots(bs: seq<Binding>, key: Key): nat {
    if bs == [] then 0 else Slots(bs[..|bs| - 1], key) + Added(bs[|bs| - 1], key)
  }

  /** The last binding of a field. */
  function LastOf(bs: seq<Binding>, key: Key): Option<Binding> {
    if bs == [] then None
    else if KeyOf(bs[|bs| - 1].claim) == key then Some(bs[|bs| - 1])
    else LastOf(bs[..|bs| - 1], key)
  }

  function LastExternal(xs: seq<External>, key: Key): Option<External> {
    if xs == [] then None
    else if ExternalKey(xs[|xs| - 1]) == key then Some(xs[|xs| - 1])
    else LastExternal(xs[..|xs| - 1], key)
  }

  function Rendered(b: Binding, slots: nat): FieldType {
    FieldType(TypeOf(b), b.claim.repeated, if b.claim.repeated then Some(slots) else None)
  }

  /** What the external field of that name, or else the last binding of the field and all
      its repeated ones, make of it. */
  function TypeFor(bs: seq<Binding>, xs: seq<External>, key: Key): Option<FieldType> {
    match LastExternal(xs, key)
    case Some(x) => Some(FieldType(x.element, x.repeated, None))
    case None =>
      match LastOf(bs, key)
      case Some(b) => Some(Rendered(b, Slots(bs, key)))
      case None => None
  }

  function IdFor(bs: seq<Binding>, xs: seq<External>, key: Key): Option<nat> {
    match LastExternal(xs, key)
    case Some(x) => Some(x.id)
    case None =>
      match LastOf(bs, key)
      case Some(b) => Some(b.claim.id)
      case None => None
  }

  ghost predicate TypesAre(types: map<Key, FieldType>, bs: seq<Binding>, xs: seq<External>) {
    forall key {:trigger TypeFor(bs, xs, key)} ::
      (key in types <==> TypeFor(bs, xs, key).Some?) && (key in types ==> types[key] == TypeFor(bs, xs, key).value)
  }

  ghost predicate IdsAre(ids: map<Key, nat>, bs: seq<Binding>, xs: seq<External>) {
    forall key {:trigger IdFor(bs, xs, key)} ::
      (key in ids <==> IdFor(bs, xs, key).Some?) && (key in ids ==> ids[key] == IdFor(bs, xs, key).value)
  }

  ghost predicate SlotsAre(slots: map<Key, nat>, bs: seq<Binding>) {
    forall key {:trigger Slots(bs, key)} :: Slots(bs, key) == if key in slots then slots[key] else 0
  }

  /** `field_types` and `field_ids`. */
  method FieldMaps(bs: seq<Binding>, xs: seq<External>) returns (types: map<Key, FieldType>, ids: map<Key, nat>)
    ensures TypesAre(types, bs, xs) && IdsAre(ids, bs, xs)
  {
    types, ids := map[], map[];
    var slots: map<Key, nat> := map[];
    for k := 0 to |bs|
      invariant TypesAre(types, bs[..k], []) && IdsAre(ids, bs[..k], []) && SlotsAre(slots, bs[..k])
    {
      assert bs[..k + 1] == bs[..k] + [bs[k]];
      types, ids, slots := AddBinding(types, ids, slots, bs[..k], bs[k]);
    }
    assert bs[..|bs|] == bs;
    for k := 0 to |xs|
      invariant TypesAre(types, bs, xs[..k]) && IdsAre(ids, bs, xs[..k])
    {
      assert xs[..k + 1] == xs[..k] + [xs[k]];
      types, ids := AddExternal(types, ids, bs, xs[..k], xs[k]);
    }
    assert xs[..|xs|] == xs;
  }

  method AddExternal(
    types: map<Key, FieldType>, ids: map<Key, nat>, ghost bs: seq<Binding>, ghost before: seq<External>, x: External)
    returns (types': map<Key, FieldType>, ids': map<Key, nat>)
    requires TypesAre(types, bs, before) && IdsAre(ids, bs, before)
    ensures TypesAre(types', bs, before + [x]) && IdsAre(ids', bs, before + [x])
  {
    forall other
      ensures LastExternal(before + [x], other) ==
        if other == ExternalKey(x) then Some(x) else LastExternal(before, other)
      ensures TypeFor(bs, before + [x], other) ==
        if other == ExternalKey(x) then Some(FieldType(x.element, x.repeated, None)) else TypeFor(bs, before, other)
      ensures IdFor(bs, before + [x], other) == if other == ExternalKey(x) then Some(x.id) else IdFor(bs, before, other)
    {
      assert (before + [x])[..|before|] == before;
    }
    types' := types[ExternalKey(x) := FieldType(x.element, x.repeated, None)];
    ids' := ids[ExternalKey(x) := x.id];
  }

  method AddBinding(
    types: map<Key, FieldType>, ids: map<Key, nat>, slots: map<Key, nat>, ghost before: seq<Binding>, b: Binding)
    returns (types': map<Key, FieldType>, ids': map<Key, nat>, slots': map<Key, nat>)
    requires TypesAre(types, before, []) && IdsAre(ids, before, []) && SlotsAre(slots, before)
    ensures TypesAre(types', before + [b], []) && IdsAre(ids', before + [b], []) && SlotsAre(slots', before + [b])
  {
    var key := KeyOf(b.claim);
    forall other
      ensures Slots(before + [b], other) == Slots(before, other) + Added(b, other)
      ensures TypeFor(before + [b], [], other) ==
        if other == key then Some(Rendered(b, Slots(before, key) + Added(b, key))) else TypeFor(before, [], other)
      ensures IdFor(before + [b], [], other) == if other == key then Some(b.claim.id) else IdFor(before, [], other)
    {
      OneMore(before, b, other);
    }
    slots' := slots;
    if b.claim.repeated {
      slots' := slots[key := (if key in slots then slots[key] else 0) + b.frames];
      types' := types[key := FieldType(TypeOf(b), true, Some(slots'[key]))];
    } else {
      types' := types[key := FieldType(TypeOf(b), false, None)];
    }
    ids' := ids[key := b.claim.id];
  }

  lemma OneMore(before: seq<Binding>, b: Binding, key: Key)
    ensures Slots(before + [b], key) == Slots(before, key) + Added(b, key)
    ensures LastOf(before + [b], key) == if KeyOf(b.claim) == key then Some(b) else LastOf(before, key)
  {
    assert (before + [b])[..|before|] == before;
  }

  // ---- what an accepted ledger fixes --------------------------------------------

  lemma {:induction false} LastOfIsBinding(bs: seq<Binding>, key: Key)
    ensures LastOf(bs, key).Some? ==> LastOf(bs, key).value in bs && KeyOf(LastOf(bs, key).value.claim) == key
    ensures LastOf(bs, key).None? ==> forall b :: b in bs ==> KeyOf(b.claim) != key
  {
    if bs != [] {
      LastOfIsBinding(bs[..|bs| - 1], key);
      assert bs == bs[..|bs| - 1] + [bs[|bs| - 1]];
    }
  }

  lemma {:induction false} LastExternalIsField(xs: seq<External>, key: Key)
    ensures LastExternal(xs, key).Some? ==>
      LastExternal(xs, key).value in xs && ExternalKey(LastExternal(xs, key).value) == key
    ensures LastExternal(xs, key).None? ==> forall x :: x in xs ==> ExternalKey(x) != key
  {
    if xs != [] {
      LastExternalIsField(xs[..|xs| - 1], key);
      assert xs == xs[..|xs| - 1] + [xs[|xs| - 1]];
    }
  }

  ghost predicate Accepted(bs: seq<Binding>, xs: seq<External>, groups: set<string>) {
    AllFaithful(bs) && ClaimsOk(ClaimsOf(bs, xs), groups)
  }

  /** Two different entries of an accepted ledger that claim one field are compatible. */
  lemma ClaimsMatch(claims: seq<Claim>, groups: set<string>, i: nat, j: nat)
    requires ClaimsOk(claims, groups) && i < |claims| && j < |claims| && i != j
    requires KeyOf(claims[i]) == KeyOf(claims[j])
    ensures Compatible(claims[i], claims[j])
  {
    if i < j {
      assert PairOk(claims[i], claims[j]);
    } else {
      assert PairOk(claims[j], claims[i]);
    }
  }

  /** Bindings of one field agree on its ID and on being repeated; those of a scalar also
      on its type. */
  lemma BindingsAgree(bs: seq<Binding>, xs: seq<External>, groups: set<string>, a: Binding, b: Binding)
    requires Accepted(bs, xs, groups) && a in bs && b in bs && KeyOf(a.claim) == KeyOf(b.claim)
    ensures a.claim.repeated == b.claim.repeated && a.claim.id == b.claim.id
    ensures !a.claim.repeated ==> TypeOf(a) == TypeOf(b)
  {
    var claims := ClaimsOf(bs, xs);
    var i :| 0 <= i < |bs| && bs[i] == a;
    var j :| 0 <= j < |bs| && bs[j] == b;
    assert SingleOk(claims[i], groups) && SingleOk(claims[j], groups);
    if i != j {
      ClaimsMatch(claims, groups, i, j);
    }
  }

  lemma ExternalKeysDiffer(bs: seq<Binding>, xs: seq<External>, groups: set<string>, i: nat, j: nat)
    requires Accepted(bs, xs, groups) && i < j < |xs|
    ensures ExternalKey(xs[i]) != ExternalKey(xs[j])
  {
    var claims := ClaimsOf(bs, xs);
    assert PairOk(claims[|bs| + i], claims[|bs| + j]);
  }

  /** An external field shares its name with no other external field and no scalar one. */
  lemma ExternalIsAlone(bs: seq<Binding>, xs: seq<External>, groups: set<string>, x: External)
    requires Accepted(bs, xs, groups) && x in xs
    ensures forall y :: y in xs && ExternalKey(y) == ExternalKey(x) ==> y == x
    ensures forall b :: b in bs && KeyOf(b.claim) == ExternalKey(x) ==>
      b.claim.repeated && x.repeated && b.claim.id == x.id
  {
    var claims := ClaimsOf(bs, xs);
    var i :| 0 <= i < |xs| && xs[i] == x;
    forall y | y in xs && ExternalKey(y) == ExternalKey(x) ensures y == x {
      var j :| 0 <= j < |xs| && xs[j] == y;
      if i < j {
        ExternalKeysDiffer(bs, xs, groups, i, j);
      } else if j < i {
        ExternalKeysDiffer(bs, xs, groups, j, i);
      }
    }
    forall b | b in bs && KeyOf(b.claim) == ExternalKey(x)
      ensures b.claim.repeated && x.repeated && b.claim.id == x.id
    {
      var j :| 0 <= j < |bs| && bs[j] == b;
      ClaimsMatch(claims, groups, j, |bs| + i);
    }
  }

  /** Each binding of a scalar field determines the field's type and number. */
  lemma ScalarTypeIsBindingsType(bs: seq<Binding>, xs: seq<External>, groups: set<string>, b: Binding)
    requires Accepted(bs, xs, groups) && b in bs && !b.claim.repeated
    ensures TypeFor(bs, xs, KeyOf(b.claim)) == Some(FieldType(TypeOf(b), false, None))
    ensures IdFor(bs, xs, KeyOf(b.claim)) == Some(b.claim.id)
  {
    var key := KeyOf(b.claim);
    LastOfIsBinding(bs, key);
    LastExternalIsField(xs, key);
    if LastExternal(xs, key).Some? {
      ExternalIsAlone(bs, xs, groups, LastExternal(xs, key).value);
    } else {
      BindingsAgree(bs, xs, groups, b, LastOf(bs, key).value);
    }
  }

  /** And so does an external field. */
  lemma ExternalTypeIsDeclared(bs: seq<Binding>, xs: seq<External>, groups: set<string>, x: External)
    requires Accepted(bs, xs, groups) && x in xs
    ensures TypeFor(bs, xs, ExternalKey(x)) == Some(FieldType(x.element, x.repeated, None))
    ensures IdFor(bs, xs, ExternalKey(x)) == Some(x.id)
  {
    LastExternalIsField(xs, ExternalKey(x));
    ExternalIsAlone(bs, xs, groups, x);
  }

  // ---- any order of the bindings ------------------------------------------------

  lemma {:induction false} SlotsIgnoreOrder(bs: seq<Binding>, bs': seq<Binding>, key: Key)
    requires multiset(bs) == multiset(bs')
    ensures Slots(bs, key) == Slots(bs', key)
    decreases |bs|
  {
    if bs == [] {
      assert |bs'| == |multiset(bs')| == |multiset(bs)| == 0;
    } else {
      var b, rest := bs[|bs| - 1], bs[..|bs| - 1];
      Without(bs, |bs| - 1);
      assert bs[..|bs| - 1] + bs[|bs|..] == rest;
      assert b in multiset(bs');
      var n :| 0 <= n < |bs'| && bs'[n] == b;
      Without(bs', n);
      SlotsIgnoreOrder(rest, bs'[..n] + bs'[n + 1..], key);
      SlotsWithout(bs', n, key);
    }
  }

  lemma Without<T>(bs: seq<T>, n: nat)
    requires n < |bs|
    ensures multiset(bs[..n] + bs[n + 1..]) == multiset(bs) - multiset{bs[n]}
  {
    assert bs == bs[..n] + [bs[n]] + bs[n + 1..];
  }

  lemma {:induction false} SlotsWithout(bs: seq<Binding>, n: nat, key: Key)
    requires n < |bs|
    ensures Slots(bs, key) == Slots(bs[..n] + bs[n + 1..], key) + Added(bs[n], key)
    decreases |bs|
  {
    var rest := bs[..|bs| - 1];
    if n == |bs| - 1 {
      assert bs[..n] + bs[n + 1..] == rest;
    } else {
      SlotsWithout(rest, n, key);
      var without := bs[..n] + bs[n + 1..];
      assert without[..|without| - 1] == rest[..n] + rest[n + 1..];
    }
  }

  lemma SameMembers<T>(bs: seq<T>, bs': seq<T>)
    requires multiset(bs) == multiset(bs')
    ensures forall b :: b in bs <==> b in bs'
  {
    forall b ensures b in bs <==> b in bs' {
      assert b in bs <==> b in multiset(bs);
      assert b in bs' <==> b in multiset(bs');
    }
  }

  /** Numbers, the types of scalar and external fields, and the length of repeated ones do
      not depend on any order. */
  lemma ContractIgnoresOrder(
    bs: seq<Binding>, bs': seq<Binding>, xs: seq<External>, xs': seq<External>, groups: set<string>, key: Key)
    requires multiset(bs) == multiset(bs') && multiset(xs) == multiset(xs')
    requires Accepted(bs, xs, groups) && Accepted(bs', xs', groups)
    ensures IdFor(bs, xs, key) == IdFor(bs', xs', key)
    ensures TypeFor(bs, xs, key).Some? == TypeFor(bs', xs', key).Some? == IdFor(bs, xs, key).Some?
    ensures TypeFor(bs, xs, key).Some? ==> var t, t' := TypeFor(bs, xs, key).value, TypeFor(bs', xs', key).value;
      && t.repeated == t'.repeated && t.count == t'.count
      && (!t.repeated || t.count.None? ==> t == t')
  {
    SameMembers(bs, bs');
    SameMembers(xs, xs');
    LastOfIsBinding(bs, key);
    LastOfIsBinding(bs', key);
    LastExternalIsField(xs, key);
    LastExternalIsField(xs', key);
    if LastExternal(xs, key).Some? {
      ExternalTypeIsDeclared(bs', xs', groups, LastExternal(xs, key).value);
    } else if LastOf(bs, key).Some? {
      SlotsIgnoreOrder(bs, bs', key);
      BindingsAgree(bs, xs, groups, LastOf(bs, key).value, LastOf(bs', key).value);
    }
  }
}
