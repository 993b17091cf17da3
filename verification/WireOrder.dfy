/** Which parts of the wire contract depend on the order of a spec's parts. */
module WireOrder {
  import opened Wrappers
  import opened Bits
  import opened CanSpec
  import opened WireTypes
  import opened Ledger
  import opened WireContract

  // ---- the orders a spec can have -----------------------------------------------

  /** The telemetry of a spec: the bindings of each message's signals, those of each
      bitfield type's bits, and the external fields. */
  datatype Telemetry = Telemetry(messages: seq<seq<Binding>>, bitfields: seq<seq<Binding>>, externals: seq<External>)

  function Flattened(blocks: seq<seq<Binding>>): seq<Binding> {
    if blocks == [] then [] else Flattened(blocks[..|blocks| - 1]) + blocks[|blocks| - 1]
  }

  /** `telemetry_bindings`: bits come after all signals. */
  function BindingsOf(t: Telemetry): seq<Binding> {
    Flattened(t.messages) + Flattened(t.bitfields)
  }

  function Bags(blocks: seq<seq<Binding>>): (r: seq<multiset<Binding>>)
    ensures |r| == |blocks| && forall i :: 0 <= i < |r| ==> r[i] == multiset(blocks[i])
  {
    seq(|blocks|, i requires 0 <= i < |blocks| => multiset(blocks[i]))
  }

  /** Messages and bitfield types may be listed in any order, and so may the signals of a
      message; the bits of a bitfield keep theirs, which is their place in the frame. */
  ghost predicate Reordered(t: Telemetry, t': Telemetry) {
    && multiset(Bags(t.messages)) == multiset(Bags(t'.messages))
    && multiset(t.bitfields) == multiset(t'.bitfields)
    && multiset(t.externals) == multiset(t'.externals)
  }

  function ElementFor(t: Telemetry, key: Key): Option<ProtoType> {
    match TypeFor(BindingsOf(t), t.externals, key)
    case Some(f) => Some(f.element)
    case None => None
  }

  predicate Binds(block: seq<Binding>, key: Key) { LastOf(block, key).Some? }

  predicate BitsBind(t: Telemetry, key: Key) {
    exists i :: 0 <= i < |t.bitfields| && Binds(t.bitfields[i], key)
  }

  /** The bindings that some order makes the last of the field: of each bitfield the last
      one, if any bitfield binds it at all, and otherwise those of all signals. */
  ghost predicate MayBeLast(t: Telemetry, key: Key, b: Binding) {
    KeyOf(b.claim) == key &&
    if BitsBind(t, key)
    then exists i :: 0 <= i < |t.bitfields| && LastOf(t.bitfields[i], key) == Some(b)
    else exists i :: 0 <= i < |t.messages| && b in t.messages[i]
  }

  lemma {:induction false} LastOfJoined(x: seq<Binding>, y: seq<Binding>, key: Key)
    ensures LastOf(x + y, key) == if Binds(y, key) then LastOf(y, key) else LastOf(x, key)
  {
    if y == [] {
      assert x + y == x;
    } else {
      assert (x + y)[..|x + y| - 1] == x + y[..|y| - 1];
      LastOfJoined(x, y[..|y| - 1], key);
    }
  }

  lemma {:induction false} LastOfFlattened(blocks: seq<seq<Binding>>, key: Key)
    ensures Binds(Flattened(blocks), key) ==>
      exists i :: 0 <= i < |blocks| && LastOf(blocks[i], key) == LastOf(Flattened(blocks), key)
    ensures !Binds(Flattened(blocks), key) ==> forall i :: 0 <= i < |blocks| ==> !Binds(blocks[i], key)
  {
    if blocks != [] {
      var rest, last := blocks[..|blocks| - 1], blocks[|blocks| - 1];
      LastOfFlattened(rest, key);
      LastOfJoined(Flattened(rest), last, key);
      assert forall i :: 0 <= i < |blocks| ==> blocks[i] == if i < |rest| then rest[i] else last;
      if Binds(Flattened(blocks), key) && !Binds(last, key) {
        var i :| 0 <= i < |rest| && LastOf(rest[i], key) == LastOf(Flattened(rest), key);
        assert LastOf(blocks[i], key) == LastOf(Flattened(blocks), key);
      }
    }
  }

  /** The last binding is one of those that may be. */
  lemma LastMayBeLast(t: Telemetry, key: Key)
    ensures match LastOf(BindingsOf(t), key)
      case Some(b) => MayBeLast(t, key, b)
      case None => forall b :: !MayBeLast(t, key, b)
  {
    LastOfJoined(Flattened(t.messages), Flattened(t.bitfields), key);
    LastOfFlattened(t.messages, key);
    LastOfFlattened(t.bitfields, key);
    LastOfIsBinding(BindingsOf(t), key);
    match LastOf(BindingsOf(t), key) {
      case Some(b) =>
        if !BitsBind(t, key) {
          var i :| 0 <= i < |t.messages| && LastOf(t.messages[i], key) == Some(b);
          LastOfIsBinding(t.messages[i], key);
        }
      case None =>
        forall i | 0 <= i < |t.messages| ensures forall b :: b in t.messages[i] ==> KeyOf(b.claim) != key {
          LastOfIsBinding(t.messages[i], key);
        }
    }
  }

  lemma MayBeLastIgnoresOrder(t: Telemetry, t': Telemetry, key: Key, b: Binding)
    requires Reordered(t, t') && MayBeLast(t, key, b)
    ensures MayBeLast(t', key, b)
  {
    SameMembers(t.bitfields, t'.bitfields);
    SameMembers(Bags(t.messages), Bags(t'.messages));
    BitsBindInAnyOrder(t, t', key);
    if BitsBind(t, key) {
      var i :| 0 <= i < |t.bitfields| && LastOf(t.bitfields[i], key) == Some(b);
      assert t.bitfields[i] in t'.bitfields;
    } else {
      var i :| 0 <= i < |t.messages| && b in t.messages[i];
      assert Bags(t.messages)[i] in Bags(t'.messages);
      var j :| 0 <= j < |t'.messages| && multiset(t'.messages[j]) == multiset(t.messages[i]);
      SameMembers(t'.messages[j], t.messages[i]);
    }
  }

  lemma BitsBindInAnyOrder(t: Telemetry, t': Telemetry, key: Key)
    requires forall block :: block in t.bitfields <==> block in t'.bitfields
    ensures BitsBind(t, key) == BitsBind(t', key)
  {
    if i :| 0 <= i < |t.bitfields| && Binds(t.bitfields[i], key) {
      assert t.bitfields[i] in t'.bitfields;
    }
    if i :| 0 <= i < |t'.bitfields| && Binds(t'.bitfields[i], key) {
      assert t'.bitfields[i] in t.bitfields;
    }
  }

  function ToEnd<T>(xs: seq<T>, n: nat): (r: seq<T>)
    requires n < |xs|
    ensures multiset(r) == multiset(xs)
  {
    assert xs == xs[..n] + [xs[n]] + xs[n + 1..];
    xs[..n] + xs[n + 1..] + [xs[n]]
  }

  /** Each of them is the last in some order. */
  lemma CanBeLast(t: Telemetry, key: Key, b: Binding) returns (t': Telemetry)
    requires MayBeLast(t, key, b)
    ensures Reordered(t, t') && t'.externals == t.externals && LastOf(BindingsOf(t'), key) == Some(b)
  {
    if BitsBind(t, key) {
      var i :| 0 <= i < |t.bitfields| && LastOf(t.bitfields[i], key) == Some(b);
      t' := t.(bitfields := ToEnd(t.bitfields, i));
      LastBlockDecides(t'.bitfields, key);
    } else {
      var i :| 0 <= i < |t.messages| && b in t.messages[i];
      var messages := SignalToEnd(t.messages, i, key, b);
      t' := t.(messages := messages);
      LastOfFlattened(t.bitfields, key);
    }
    LastOfJoined(Flattened(t'.messages), Flattened(t'.bitfields), key);
  }

  lemma SignalToEnd(messages: seq<seq<Binding>>, i: nat, key: Key, b: Binding) returns (moved: seq<seq<Binding>>)
    requires i < |messages| && b in messages[i] && KeyOf(b.claim) == key
    ensures multiset(Bags(messages)) == multiset(Bags(moved)) && LastOf(Flattened(moved), key) == Some(b)
  {
    var n :| 0 <= n < |messages[i]| && messages[i][n] == b;
    var last := ToEnd(messages[i], n);
    moved := messages[..i] + messages[i + 1..] + [last];
    assert Bags(moved) == ToEnd(Bags(messages), i);
    assert last[|last| - 1] == b;
    LastBlockDecides(moved, key);
  }

  lemma LastBlockDecides(blocks: seq<seq<Binding>>, key: Key)
    requires blocks != [] && Binds(blocks[|blocks| - 1], key)
    ensures LastOf(Flattened(blocks), key) == LastOf(blocks[|blocks| - 1], key)
  {
    LastOfJoined(Flattened(blocks[..|blocks| - 1]), blocks[|blocks| - 1], key);
  }

  /** No order of the spec changes the field's element type. */
  ghost predicate TypeIgnoresOrder(t: Telemetry, key: Key) {
    forall t': Telemetry :: Reordered(t, t') ==> ElementFor(t', key) == ElementFor(t, key)
  }

  /** The bindings that may be the last have one type. */
  ghost predicate LastTypesAgree(t: Telemetry, key: Key) {
    forall a, b :: MayBeLast(t, key, a) && MayBeLast(t, key, b) ==> TypeOf(a) == TypeOf(b)
  }

  ghost predicate IsExternal(t: Telemetry, key: Key) {
    exists x :: x in t.externals && ExternalKey(x) == key
  }

  /** The element type of a field that is not external is the same in every order of the
      spec exactly when the bindings that may be the last have one type. */
  lemma RepeatedTypeIgnoresOrderIff(t: Telemetry, key: Key)
    requires !IsExternal(t, key)
    ensures TypeIgnoresOrder(t, key) <==> LastTypesAgree(t, key)
  {
    if TypeIgnoresOrder(t, key) {
      forall a, b | MayBeLast(t, key, a) && MayBeLast(t, key, b) ensures TypeOf(a) == TypeOf(b) {
        LastTypeIsElement(t, key, a);
        LastTypeIsElement(t, key, b);
      }
    }
    if LastTypesAgree(t, key) {
      forall t': Telemetry | Reordered(t, t') ensures ElementFor(t', key) == ElementFor(t, key) {
        SameElement(t, t', key);
      }
    }
  }

  lemma LastTypeIsElement(t: Telemetry, key: Key, b: Binding)
    requires !IsExternal(t, key) && TypeIgnoresOrder(t, key) && MayBeLast(t, key, b)
    ensures ElementFor(t, key) == Some(TypeOf(b))
  {
    var t' := CanBeLast(t, key, b);
    LastExternalIsField(t.externals, key);
    assert ElementFor(t', key) == Some(TypeOf(b));
  }

  lemma SameElement(t: Telemetry, t': Telemetry, key: Key)
    requires !IsExternal(t, key) && LastTypesAgree(t, key) && Reordered(t, t')
    ensures ElementFor(t', key) == ElementFor(t, key)
  {
    SameMembers(t.externals, t'.externals);
    LastExternalIsField(t.externals, key);
    LastExternalIsField(t'.externals, key);
    LastMayBeLast(t, key);
    LastMayBeLast(t', key);
    if LastOf(BindingsOf(t), key).Some? {
      MayBeLastIgnoresOrder(t, t', key, LastOf(BindingsOf(t), key).value);
    }
    if LastOf(BindingsOf(t'), key).Some? {
      MayBeLastIgnoresOrder(t', t, key, LastOf(BindingsOf(t'), key).value);
    }
  }

  const TENTHS: Binding :=
    Binding(Claim("pack", "temps", 1, true, 0, false, false, None, Some("M"), true),
      Contract(8, Unsigned, 0.1, 0.0, PhysicalUnit("C"), false, None), 1)

  const WHOLES: Binding :=
    Binding(Claim("pack", "temps", 1, true, 1, false, false, None, Some("M"), true),
      Contract(8, Unsigned, 1.0, 0.0, PhysicalUnit("C"), false, None), 1)

  /** A message that binds an array to a scaled and to an unscaled signal: both orders are
      accepted, and they give the array different element types. */
  lemma OrderCanChangeType()
    ensures var t, t' := Telemetry([[TENTHS, WHOLES]], [], []), Telemetry([[WHOLES, TENTHS]], [], []);
      var groups := [Group("pack", 2, [], [])];
      && LedgerOk(ClaimsOf(BindingsOf(t), []), groups) && LedgerOk(ClaimsOf(BindingsOf(t'), []), groups)
      && Reordered(t, t')
      && ElementFor(t, ("pack", "temps")) == Some(Uint32) && ElementFor(t', ("pack", "temps")) == Some(Float)
  {
    var t, t' := Telemetry([[TENTHS, WHOLES]], [], []), Telemetry([[WHOLES, TENTHS]], [], []);
    OneMessage(TENTHS, WHOLES);
    OneMessage(WHOLES, TENTHS);
    TwoClaimsAccepted(TENTHS.claim, WHOLES.claim);
    TwoClaimsAccepted(WHOLES.claim, TENTHS.claim);
    TwoTypes();
    Swapped(TENTHS, WHOLES);
  }

  lemma Swapped(a: Binding, b: Binding)
    ensures Reordered(Telemetry([[a, b]], [], []), Telemetry([[b, a]], [], []))
  {
    assert Bags([[a, b]])[0] == Bags([[b, a]])[0];
    assert Bags([[a, b]]) == Bags([[b, a]]);
  }

  lemma OneMessage(a: Binding, b: Binding)
    ensures BindingsOf(Telemetry([[a, b]], [], [])) == [a, b]
    ensures ClaimsOf([a, b], []) == [a.claim, b.claim]
    ensures KeyOf(b.claim) == ("pack", "temps") ==>
      ElementFor(Telemetry([[a, b]], [], []), ("pack", "temps")) == Some(TypeOf(b))
  {
    assert [[a, b]][..0] == [];
    assert Flattened([[a, b]]) == [] + [a, b];
  }

  lemma TwoTypes()
    ensures TypeOf(WHOLES) == Uint32 && TypeOf(TENTHS) == Float
  {
    BytePowers();
    assert (0.0).Floor == 0;
    assert RawMax(8, Unsigned) == 255;
  }

  lemma TwoClaimsAccepted(c: Claim, d: Claim)
    requires {c, d} == {TENTHS.claim, WHOLES.claim} && c != d
    ensures LedgerOk([c, d], [Group("pack", 2, [], [])])
  {
    var g := Group("pack", 2, [], []);
    assert [g][0] == g;
    assert "pack" in GroupNames([g]);
    assert LowerSnake("temps");
    assert Range(2) == {1};
    assert [c, d][0] == c && [c, d][1] == d;
    assert LiveIds([c, d], "pack") == {1} by {
      assert c in [c, d];
    }
    assert SetOf<nat>([]) == {} && SetOf<string>([]) == {};
  }

  // ---- the lines of the wire lock -----------------------------------------------

  datatype Line = Line(field: string, id: nat, fieldType: FieldType)

  ghost predicate HasLine(bs: seq<Binding>, xs: seq<External>, group: string, line: Line) {
    TypeFor(bs, xs, (group, line.field)) == Some(line.fieldType) && IdFor(bs, xs, (group, line.field)) == Some(line.id)
  }

  /** A group's lines in `manifest`: one per field, by number. */
  ghost predicate IsManifest(lines: seq<Line>, bs: seq<Binding>, xs: seq<External>, group: string) {
    && (forall line :: line in lines <==> HasLine(bs, xs, group, line))
    && ByNumber(lines)
  }

  ghost predicate ByNumber(lines: seq<Line>) {
    forall i, j :: 0 <= i < j < |lines| ==> lines[i] != lines[j] && lines[i].id <= lines[j].id
  }

  function Placed(line: Line, lines: seq<Line>): seq<Line> {
    if lines == [] || line.id <= lines[0].id then [line] + lines else [lines[0]] + Placed(line, lines[1..])
  }

  lemma {:induction false} PlacedInOrder(line: Line, lines: seq<Line>)
    requires ByNumber(lines) && line !in lines
    ensures ByNumber(Placed(line, lines))
    ensures forall other :: other in Placed(line, lines) <==> other == line || other in lines
  {
    if lines != [] && line.id > lines[0].id {
      var first, rest := lines[0], lines[1..];
      assert lines == [first] + rest;
      PlacedInOrder(line, rest);
      var placed := Placed(line, rest);
      forall j | 0 <= j < |placed| ensures first != placed[j] && first.id <= placed[j].id {
        assert placed[j] in placed;
        if placed[j] != line {
          var i :| 0 <= i < |rest| && rest[i] == placed[j];
          assert lines[i + 1] == placed[j];
        }
      }
    }
  }

  /** The group's part of `manifest`: one line per field, sorted. */
  method ManifestLines(
    types: map<Key, FieldType>, ids: map<Key, nat>, group: string, ghost bs: seq<Binding>, ghost xs: seq<External>)
    returns (lines: seq<Line>)
    requires TypesAre(types, bs, xs) && IdsAre(ids, bs, xs)
    ensures IsManifest(lines, bs, xs, group)
  {
    lines := [];
    var keys := types.Keys;
    while keys != {}
      invariant keys <= types.Keys && ByNumber(lines)
      invariant forall line: Line ::
        line in lines <==> (group, line.field) !in keys && HasLine(bs, xs, group, line)
    {
      var key :| key in keys;
      keys := keys - {key};
      if key.0 == group {
        assert TypeFor(bs, xs, key).Some? && IdFor(bs, xs, key).Some?;
        var line := Line(key.1, ids[key], types[key]);
        assert (group, line.field) == key && HasLine(bs, xs, group, line);
        PlacedInOrder(line, lines);
        lines := Placed(line, lines);
      }
    }
  }

  lemma LineHasClaim(bs: seq<Binding>, xs: seq<External>, group: string, line: Line) returns (i: nat)
    requires HasLine(bs, xs, group, line)
    ensures i < |ClaimsOf(bs, xs)|
    ensures var c := ClaimsOf(bs, xs)[i]; c.group == group && c.field == line.field && c.id == line.id
  {
    var key := (group, line.field);
    LastOfIsBinding(bs, key);
    LastExternalIsField(xs, key);
    if LastExternal(xs, key).Some? {
      var n :| 0 <= n < |xs| && xs[n] == LastExternal(xs, key).value;
      i := |bs| + n;
    } else {
      i :| 0 <= i < |bs| && bs[i] == LastOf(bs, key).value;
    }
  }

  /** In an accepted spec the lines of a group have different numbers. */
  lemma LinesDiffer(bs: seq<Binding>, xs: seq<External>, groups: set<string>, group: string, a: Line, b: Line)
    requires Accepted(bs, xs, groups) && HasLine(bs, xs, group, a) && HasLine(bs, xs, group, b)
    ensures a.id == b.id ==> a == b
  {
    var i := LineHasClaim(bs, xs, group, a);
    var j := LineHasClaim(bs, xs, group, b);
    FieldIdBijective(ClaimsOf(bs, xs), groups, i, j);
  }

  ghost predicate Ascending(lines: seq<Line>) {
    forall i, j :: 0 <= i < j < |lines| ==> lines[i].id < lines[j].id
  }

  lemma {:induction false} AscendingLinesAreEqual(a: seq<Line>, b: seq<Line>)
    requires Ascending(a) && Ascending(b) && forall line :: line in a <==> line in b
    ensures a == b
    decreases |a|
  {
    EmptyTogether(a, b);
    if a != [] {
      var x, y := a[|a| - 1], b[|b| - 1];
      assert x in b && y in a;
      assert x == y;
      var s, t := a[..|a| - 1], b[..|b| - 1];
      assert a == s + [x] && b == t + [x];
      assert x !in s && x !in t;
      forall line ensures line in s <==> line in t {
        assert line in a <==> line in s || line == x;
        assert line in b <==> line in t || line == y;
      }
      AscendingLinesAreEqual(s, t);
    }
  }

  lemma EmptyTogether(a: seq<Line>, b: seq<Line>)
    requires forall line :: line in a <==> line in b
    ensures a == [] <==> b == []
  {
    if a != [] {
      assert a[0] in b;
    }
    if b != [] {
      assert b[0] in a;
    }
  }

  lemma ManifestAscends(lines: seq<Line>, bs: seq<Binding>, xs: seq<External>, groups: set<string>, group: string)
    requires Accepted(bs, xs, groups) && IsManifest(lines, bs, xs, group)
    ensures Ascending(lines)
  {
    forall i, j | 0 <= i < j < |lines| ensures lines[i].id < lines[j].id {
      assert lines[i] in lines && lines[j] in lines;
      LinesDiffer(bs, xs, groups, group, lines[i], lines[j]);
    }
  }

  /** The lines of scalar fields are the same in every order of the spec, and the whole
      group is if the type of no array depends on it. */
  lemma ManifestIgnoresOrder(
    t: Telemetry, t': Telemetry, groups: set<string>, group: string, lines: seq<Line>, lines': seq<Line>)
    requires Reordered(t, t')
    requires Accepted(BindingsOf(t), t.externals, groups) && Accepted(BindingsOf(t'), t'.externals, groups)
    requires IsManifest(lines, BindingsOf(t), t.externals, group) &&
      IsManifest(lines', BindingsOf(t'), t'.externals, group)
    ensures forall line: Line :: !line.fieldType.repeated ==> (line in lines <==> line in lines')
    ensures (forall field :: IsExternal(t, (group, field)) || LastTypesAgree(t, (group, field))) ==> lines == lines'
  {
    var bs, bs' := BindingsOf(t), BindingsOf(t');
    BindingsAreReordered(t, t');
    forall field ensures SameLine(t, t', (group, field)) {
      LineIgnoresOrder(t, t', groups, (group, field));
    }
    if forall field :: IsExternal(t, (group, field)) || LastTypesAgree(t, (group, field)) {
      forall line ensures line in lines <==> line in lines' {
        assert SameLine(t, t', (group, line.field));
      }
      ManifestAscends(lines, bs, t.externals, groups, group);
      ManifestAscends(lines', bs', t'.externals, groups, group);
      AscendingLinesAreEqual(lines, lines');
    }
    forall line: Line | !line.fieldType.repeated ensures line in lines <==> line in lines' {
      assert SameLine(t, t', (group, line.field));
    }
  }

  /** The field's number is the same, and its type if it is scalar or may be. */
  ghost predicate SameLine(t: Telemetry, t': Telemetry, key: Key) {
    var a, b := TypeFor(BindingsOf(t), t.externals, key), TypeFor(BindingsOf(t'), t'.externals, key);
    && IdFor(BindingsOf(t), t.externals, key) == IdFor(BindingsOf(t'), t'.externals, key)
    && (a.Some? <==> b.Some?)
    && (a.Some? ==> a.value.repeated == b.value.repeated)
    && (a.Some? && !a.value.repeated ==> a == b)
    && (IsExternal(t, key) || LastTypesAgree(t, key) ==> a == b)
  }

  lemma LineIgnoresOrder(t: Telemetry, t': Telemetry, groups: set<string>, key: Key)
    requires Reordered(t, t') && multiset(BindingsOf(t)) == multiset(BindingsOf(t'))
    requires Accepted(BindingsOf(t), t.externals, groups) && Accepted(BindingsOf(t'), t'.externals, groups)
    ensures SameLine(t, t', key)
  {
    ContractIgnoresOrder(BindingsOf(t), BindingsOf(t'), t.externals, t'.externals, groups, key);
    LastExternalIsField(t.externals, key);
    if !IsExternal(t, key) && LastTypesAgree(t, key) {
      SameElement(t, t', key);
    }
  }

  lemma BindingsAreReordered(t: Telemetry, t': Telemetry)
    requires Reordered(t, t')
    ensures multiset(BindingsOf(t)) == multiset(BindingsOf(t'))
  {
    FlattenedIgnoresOrder(t.messages, t'.messages);
    BagsIgnoreOrder(t.bitfields, t'.bitfields);
    FlattenedIgnoresOrder(t.bitfields, t'.bitfields);
  }

  function Dropped<T>(xs: seq<T>, n: nat): (r: seq<T>)
    requires n < |xs|
    ensures |r| == |xs| - 1
  {
    xs[..n] + xs[n + 1..]
  }

  lemma {:induction false} BagsIgnoreOrder(x: seq<seq<Binding>>, y: seq<seq<Binding>>)
    requires multiset(x) == multiset(y)
    ensures multiset(Bags(x)) == multiset(Bags(y))
    decreases |x|
  {
    if x == [] {
      assert |y| == |multiset(y)| == |multiset(x)| == 0;
    } else {
      assert x[0] in multiset(y);
      var n :| 0 <= n < |y| && y[n] == x[0];
      Without(x, 0);
      Without(y, n);
      BagsIgnoreOrder(Dropped(x, 0), Dropped(y, n));
      BagsDropped(x, 0);
      BagsDropped(y, n);
    }
  }

  lemma BagsDropped(x: seq<seq<Binding>>, n: nat)
    requires n < |x|
    ensures Bags(Dropped(x, n)) == Dropped(Bags(x), n)
    ensures multiset(Bags(x)) == multiset(Bags(Dropped(x, n))) + multiset{multiset(x[n])}
  {
    var bags := Bags(x);
    assert Bags(Dropped(x, n)) == Dropped(bags, n);
    Without(bags, n);
    assert bags[n] in multiset(bags);
  }

  lemma {:induction false} FlattenedIgnoresOrder(x: seq<seq<Binding>>, y: seq<seq<Binding>>)
    requires multiset(Bags(x)) == multiset(Bags(y))
    ensures multiset(Flattened(x)) == multiset(Flattened(y))
    decreases |x|
  {
    if x == [] {
      assert |Bags(y)| == |multiset(Bags(y))| == |multiset(Bags(x))| == 0;
    } else {
      assert Bags(x)[0] in multiset(Bags(y));
      var n :| 0 <= n < |y| && Bags(y)[n] == Bags(x)[0];
      SameBagsWithout(x, y, n);
      FlattenedIgnoresOrder(Dropped(x, 0), Dropped(y, n));
      FlattenedWithout(x, 0);
      FlattenedWithout(y, n);
    }
  }

  lemma SameBagsWithout(x: seq<seq<Binding>>, y: seq<seq<Binding>>, n: nat)
    requires multiset(Bags(x)) == multiset(Bags(y)) && x != [] && n < |y| && Bags(y)[n] == Bags(x)[0]
    ensures multiset(x[0]) == multiset(y[n])
    ensures multiset(Bags(Dropped(x, 0))) == multiset(Bags(Dropped(y, n)))
  {
    BagsDropped(x, 0);
    BagsDropped(y, n);
    SameRest(multiset(Bags(Dropped(x, 0))), multiset(Bags(Dropped(y, n))), Bags(x)[0]);
  }

  lemma SameRest<T>(a: multiset<T>, b: multiset<T>, e: T)
    requires a + multiset{e} == b + multiset{e}
    ensures a == b
  {
    assert a == (a + multiset{e}) - multiset{e};
    assert b == (b + multiset{e}) - multiset{e};
  }

  lemma FlattenedJoined(blocks: seq<seq<Binding>>, last: seq<Binding>)
    ensures Flattened(blocks + [last]) == Flattened(blocks) + last
    ensures multiset(Flattened(blocks + [last])) == multiset(Flattened(blocks)) + multiset(last)
  {
    assert (blocks + [last])[..|blocks|] == blocks;
  }

  lemma {:induction false} FlattenedInserted(x: seq<seq<Binding>>, block: seq<Binding>, y: seq<seq<Binding>>)
    ensures multiset(Flattened(x + [block] + y)) == multiset(Flattened(x + y)) + multiset(block)
    decreases |y|
  {
    if y == [] {
      assert x + [block] + y == x + [block] && x + y == x;
      FlattenedJoined(x, block);
    } else {
      var rest, last := y[..|y| - 1], y[|y| - 1];
      FlattenedInserted(x, block, rest);
      assert x + [block] + y == x + [block] + rest + [last] && x + y == x + rest + [last];
      FlattenedJoined(x + [block] + rest, last);
      FlattenedJoined(x + rest, last);
    }
  }

  lemma FlattenedWithout(blocks: seq<seq<Binding>>, n: nat)
    requires n < |blocks|
    ensures multiset(Flattened(blocks)) == multiset(Flattened(Dropped(blocks, n))) + multiset(blocks[n])
  {
    SplitAt(blocks, n);
    FlattenedInserted(blocks[..n], blocks[n], blocks[n + 1..]);
  }

  lemma SplitAt<T>(xs: seq<T>, n: nat)
    requires n < |xs|
    ensures xs == xs[..n] + [xs[n]] + xs[n + 1..]
  {
  }
}
