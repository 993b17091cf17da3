/** The ledger of telemetry field IDs: which specs the validator accepts, and why the
    wire contract of an accepted spec does not depend on the order of its parts. */
module Ledger {
  import opened Wrappers
  import opened CanSpec
  import opened WireTypes

  /** One claim of a field in a group, by a telemetry binding or an external field; `typed`
      fails only for an external field that declares no type. */
  datatype Claim = Claim(
    group: string, field: string, id: nat, repeated: bool, arrayIndex: nat,
    shared: bool, isBit: bool, contract: Option<Contract>, producer: Option<string>,
    typed: bool)

  datatype Group = Group(name: string, nextFreeId: nat, reservedIds: seq<nat>, reservedNames: seq<string>)

  type Key = (string, string)

  function KeyOf(c: Claim): Key { (c.group, c.field) }

  /** What the ledger remembers of a field. */
  datatype Entry = Entry(
    id: nat, repeated: bool, indexes: set<nat>, shared: bool,
    contract: Option<Contract>, producers: set<Option<string>>)

  // ---- what an accepted ledger is ---------------------------------------------

  predicate SingleOk(c: Claim, groups: set<string>) {
    && (c.shared ==> !c.repeated && !c.isBit)
    && c.typed && c.group in groups && LowerSnake(c.field) && c.id != 0
  }

  /** Two claims may bind the same field: both shared with one contract and from
      different messages, or both repeated at different indexes. */
  predicate Compatible(c: Claim, d: Claim) {
    && c.id == d.id
    && ((c.shared && d.shared && c.contract == d.contract && c.producer != d.producer) ||
        (c.repeated && d.repeated && c.arrayIndex != d.arrayIndex))
  }

  predicate PairOk(c: Claim, d: Claim) {
    && (c.field == d.field ==> c.group == d.group)
    && (c.group == d.group ==> if c.field == d.field then Compatible(c, d) else c.id != d.id)
  }

  ghost predicate ClaimsOk(claims: seq<Claim>, groups: set<string>) {
    && (forall i :: 0 <= i < |claims| ==> SingleOk(claims[i], groups))
    && (forall i, j :: 0 <= i < j < |claims| ==> PairOk(claims[i], claims[j]))
  }

  ghost function LiveFields(claims: seq<Claim>, group: string): set<string> {
    set c | c in claims && c.group == group :: c.field
  }

  ghost function LiveIds(claims: seq<Claim>, group: string): set<nat> {
    set c | c in claims && c.group == group :: c.id
  }

  /** The IDs from 1 up to, not including, `next`. */
  function Range(next: nat): (r: set<nat>)
    ensures forall n :: n in r <==> 1 <= n < next
  {
    if next <= 1 then {} else Range(next - 1) + {next - 1}
  }

  function SetOf<T>(s: seq<T>): set<T> {
    set x | x in s
  }

  /** Live IDs and tombstones partition 1..next_free_id-1; no tombstoned name lives. */
  ghost predicate PartitionOk(claims: seq<Claim>, g: Group) {
    && LiveIds(claims, g.name) !! SetOf(g.reservedIds)
    && LiveIds(claims, g.name) + SetOf(g.reservedIds) == Range(g.nextFreeId)
    && LiveFields(claims, g.name) !! SetOf(g.reservedNames)
  }

  ghost predicate LedgerOk(claims: seq<Claim>, groups: seq<Group>) {
    && ClaimsOk(claims, GroupNames(groups))
    && forall k :: 0 <= k < |groups| ==> PartitionOk(claims, groups[k])
  }

  function GroupNames(groups: seq<Group>): set<string> {
    set k | 0 <= k < |groups| :: groups[k].name
  }

  // ---- the check ----------------------------------------------------------------

  /** While no error is reported, the tables summarise the claims so far. */
  ghost predicate Summarises(live: map<Key, Entry>, names: map<string, string>, claims: seq<Claim>) {
    && (forall c {:trigger SummarisesClaim(live, names, c)} :: c in claims ==> SummarisesClaim(live, names, c))
    && (forall key {:trigger HasCause(live[key], key, claims)} :: key in live ==> HasCause(live[key], key, claims))
    && (forall field :: field in names ==> exists c :: c in claims && c.field == field)
  }

  ghost predicate SummarisesClaim(live: map<Key, Entry>, names: map<string, string>, c: Claim) {
    && KeyOf(c) in live && EntryMatches(live[KeyOf(c)], c)
    && c.field in names && names[c.field] == c.group
  }

  predicate EntryMatches(e: Entry, c: Claim) {
    && e.id == c.id && e.repeated == c.repeated && e.shared == c.shared
    && (c.shared ==> e.contract == c.contract)
    && c.arrayIndex in e.indexes && c.producer in e.producers
  }

  /** Everything in an entry comes from some claim of its key. */
  ghost predicate HasCause(e: Entry, key: Key, claims: seq<Claim>) {
    && (exists c :: c in claims && KeyOf(c) == key)
    && (forall n :: n in e.indexes ==> exists c :: c in claims && KeyOf(c) == key && c.arrayIndex == n)
    && (forall p :: p in e.producers ==> exists c :: c in claims && KeyOf(c) == key && c.producer == p)
  }

  /** `record` and the check of `shared_source`: the tables after one claim, and the
      errors it reports. */
  method Record(
    live: map<Key, Entry>, names: map<string, string>, c: Claim, groups: set<string>, ghost claims: seq<Claim>)
    returns (live': map<Key, Entry>, names': map<string, string>, errors: nat)
    ensures Summarises(live, names, claims) && ClaimsOk(claims, groups) ==>
      && (errors == 0 <==> ClaimsOk(claims + [c], groups))
      && (errors == 0 ==> Summarises(live', names', claims + [c]))
  {
    live', names', errors := live, names, 0;
    if ClaimsOk(claims, groups) {
      ExtendClaims(claims, c, groups);
    }
    if c.shared && (c.repeated || c.isBit) {
      errors := errors + 1;
    }
    if !c.typed {
      errors := errors + 1;
    }
    if c.group !in groups || !LowerSnake(c.field) || c.id == 0 {
      errors := errors + 1;
      return;
    }
    var found: nat;
    live', found := RecordField(live, c);
    errors := errors + found;
    if c.field !in names {
      names' := names[c.field := c.group];
    } else if names[c.field] != c.group {
      errors := errors + 1;
    }
    if Summarises(live, names, claims) && ClaimsOk(claims, groups) && SingleOk(c, groups) {
      RecordIsExact(live, names, claims, c, groups);
      if errors == 0 {
        SummaryExtends(live, names, claims, c, groups);
      }
    }
  }

  /** The field's entry rejects the claim. */
  predicate EntryRejects(e: Entry, c: Claim) {
    || e.id != c.id
    || if e.shared && c.shared && !c.repeated then e.contract != c.contract || c.producer in e.producers
       else if !(e.repeated && c.repeated) then true
       else c.arrayIndex in e.indexes
  }

  predicate FieldRejects(live: map<Key, Entry>, c: Claim) {
    if KeyOf(c) in live then EntryRejects(live[KeyOf(c)], c)
    else exists key :: key in live && key.0 == c.group && live[key].id == c.id
  }

  function WithClaim(live: map<Key, Entry>, c: Claim): map<Key, Entry> {
    if KeyOf(c) in live then
      var e := live[KeyOf(c)];
      live[KeyOf(c) := e.(indexes := e.indexes + {c.arrayIndex}, producers := e.producers + {c.producer})]
    else
      live[KeyOf(c) := Entry(c.id, c.repeated, {c.arrayIndex}, c.shared, c.contract, {c.producer})]
  }

  method RecordField(live: map<Key, Entry>, c: Claim) returns (live': map<Key, Entry>, errors: nat)
    ensures errors == 0 <==> !FieldRejects(live, c)
    ensures live' == WithClaim(live, c)
  {
    errors := 0;
    var key := KeyOf(c);
    if key !in live {
      var clashes := set k | k in live && k.0 == c.group && live[k].id == c.id;
      errors := |clashes|;
      if k :| k in live && k.0 == c.group && live[k].id == c.id {
        assert k in clashes;
      }
      live' := live[key := Entry(c.id, c.repeated, {c.arrayIndex}, c.shared, c.contract, {c.producer})];
    } else {
      var e := live[key];
      if e.id != c.id {
        errors := errors + 1;
      }
      if e.shared && c.shared && !c.repeated {
        if e.contract != c.contract {
          errors := errors + 1;
        }
        if c.producer in e.producers {
          errors := errors + 1;
        }
      } else if !(e.repeated && c.repeated) {
        errors := errors + 1;
      } else if c.arrayIndex in e.indexes {
        errors := errors + 1;
      }
      live' := live[key := e.(indexes := e.indexes + {c.arrayIndex}, producers := e.producers + {c.producer})];
    }
  }

  lemma ExtendClaims(claims: seq<Claim>, c: Claim, groups: set<string>)
    requires ClaimsOk(claims, groups)
    ensures ClaimsOk(claims + [c], groups) <==>
      SingleOk(c, groups) && forall d :: d in claims ==> PairOk(d, c)
  {
    var all := claims + [c];
    assert forall i :: 0 <= i < |all| ==> all[i] == if i < |claims| then claims[i] else c;
    if ClaimsOk(all, groups) {
      assert SingleOk(all[|claims|], groups);
      forall i | 0 <= i < |claims| ensures PairOk(claims[i], c) {
        assert PairOk(all[i], all[|claims|]);
      }
    }
  }

  lemma Summarised(live: map<Key, Entry>, names: map<string, string>, claims: seq<Claim>, groups: set<string>, d: Claim)
    requires Summarises(live, names, claims) && ClaimsOk(claims, groups) && d in claims
    ensures SummarisesClaim(live, names, d) && SingleOk(d, groups)
  {
  }

  /** A well-formed claim is rejected exactly when some earlier claim conflicts with it. */
  lemma RecordIsExact(
    live: map<Key, Entry>, names: map<string, string>, claims: seq<Claim>, c: Claim, groups: set<string>)
    requires Summarises(live, names, claims) && ClaimsOk(claims, groups) && SingleOk(c, groups)
    ensures Rejects(live, names, c) <==> exists d :: d in claims && !PairOk(d, c)
  {
    if Rejects(live, names, c) {
      var d := RejectionHasCause(live, names, claims, c, groups);
    }
    if d :| d in claims && !PairOk(d, c) {
      ConflictIsRejected(live, names, claims, d, c, groups);
    }
  }

  predicate Rejects(live: map<Key, Entry>, names: map<string, string>, c: Claim) {
    FieldRejects(live, c) || (c.field in names && names[c.field] != c.group)
  }

  lemma ConflictIsRejected(
    live: map<Key, Entry>, names: map<string, string>, claims: seq<Claim>, d: Claim, c: Claim, groups: set<string>)
    requires Summarises(live, names, claims) && ClaimsOk(claims, groups) && SingleOk(c, groups)
    requires d in claims && !PairOk(d, c)
    ensures Rejects(live, names, c)
  {
    Summarised(live, names, claims, groups, d);
    if d.group == c.group && d.field != c.field {
      assert KeyOf(d) in live && KeyOf(d).0 == c.group;
      if KeyOf(c) in live {
        assert HasCause(live[KeyOf(c)], KeyOf(c), claims);
        var d' :| d' in claims && KeyOf(d') == KeyOf(c);
        Summarised(live, names, claims, groups, d');
        AnyTwoOk(claims, groups, d, d');
      }
    }
  }

  lemma AnyTwoOk(claims: seq<Claim>, groups: set<string>, c: Claim, d: Claim)
    requires ClaimsOk(claims, groups) && c in claims && d in claims && c != d
    ensures PairOk(c, d)
  {
    var i :| 0 <= i < |claims| && claims[i] == c;
    var j :| 0 <= j < |claims| && claims[j] == d;
    if i < j {
      assert PairOk(claims[i], claims[j]);
    } else {
      assert PairOk(claims[j], claims[i]);
    }
  }

  lemma RejectionHasCause(
    live: map<Key, Entry>, names: map<string, string>, claims: seq<Claim>, c: Claim, groups: set<string>)
    returns (d: Claim)
    requires Summarises(live, names, claims) && ClaimsOk(claims, groups) && SingleOk(c, groups)
    requires Rejects(live, names, c)
    ensures d in claims && !PairOk(d, c)
  {
    var key := KeyOf(c);
    if c.field in names && names[c.field] != c.group {
      d :| d in claims && d.field == c.field;
      Summarised(live, names, claims, groups, d);
    } else if key !in live {
      var k :| k in live && k.0 == c.group && live[k].id == c.id;
      assert HasCause(live[k], k, claims);
      d :| d in claims && KeyOf(d) == k;
      Summarised(live, names, claims, groups, d);
    } else {
      d := EntryRejectionHasCause(live, names, claims, c, groups);
    }
  }

  lemma EntryRejectionHasCause(
    live: map<Key, Entry>, names: map<string, string>, claims: seq<Claim>, c: Claim, groups: set<string>)
    returns (d: Claim)
    requires Summarises(live, names, claims) && ClaimsOk(claims, groups) && SingleOk(c, groups)
    requires KeyOf(c) in live && EntryRejects(live[KeyOf(c)], c)
    ensures d in claims && !PairOk(d, c)
  {
    var key := KeyOf(c);
    var e := live[key];
    assert HasCause(e, key, claims);
    d :| d in claims && KeyOf(d) == key;
    Summarised(live, names, claims, groups, d);
    if PairOk(d, c) {
      if e.shared {
        d :| d in claims && KeyOf(d) == key && d.producer == c.producer;
      } else {
        d :| d in claims && KeyOf(d) == key && d.arrayIndex == c.arrayIndex;
      }
      Summarised(live, names, claims, groups, d);
    }
  }

  lemma SummaryExtends(
    live: map<Key, Entry>, names: map<string, string>, claims: seq<Claim>, c: Claim, groups: set<string>)
    requires Summarises(live, names, claims) && ClaimsOk(claims, groups) && SingleOk(c, groups)
    requires forall d :: d in claims ==> PairOk(d, c)
    ensures Summarises(WithClaim(live, c), WithName(names, c), claims + [c])
  {
    var live', names' := WithClaim(live, c), WithName(names, c);
    var all := claims + [c];
    forall d | d in all ensures SummarisesClaim(live', names', d) {
      if d in claims {
        Summarised(live, names, claims, groups, d);
        StaysSummarised(live, names, c, groups, d);
      } else {
        LastIsSummarised(live, names, claims, c, groups);
      }
    }
    forall key | key in live' ensures HasCause(live'[key], key, all) {
      CauseExtends(live, claims, c, key);
    }
    forall field | field in names' ensures exists d :: d in all && d.field == field {
      if field in names {
        var d :| d in claims && d.field == field;
        assert d in all;
      } else {
        assert c in all;
      }
    }
  }

  function WithName(names: map<string, string>, c: Claim): map<string, string> {
    if c.field in names then names else names[c.field := c.group]
  }

  lemma StaysSummarised(live: map<Key, Entry>, names: map<string, string>, c: Claim, groups: set<string>, d: Claim)
    requires SummarisesClaim(live, names, d) && SingleOk(d, groups) && SingleOk(c, groups) && PairOk(d, c)
    ensures SummarisesClaim(WithClaim(live, c), WithName(names, c), d)
  {
  }

  lemma CauseExtends(live: map<Key, Entry>, claims: seq<Claim>, c: Claim, key: Key)
    requires key in live ==> HasCause(live[key], key, claims)
    requires key in WithClaim(live, c)
    ensures HasCause(WithClaim(live, c)[key], key, claims + [c])
  {
    var e := WithClaim(live, c)[key];
    var all := claims + [c];
    assert c in all && forall d :: d in claims ==> d in all;
    if key in live {
      var d :| d in claims && KeyOf(d) == key;
      assert d in all;
    }
    forall n | n in e.indexes ensures exists d :: d in all && KeyOf(d) == key && d.arrayIndex == n {
      if key in live && n in live[key].indexes {
        var d :| d in claims && KeyOf(d) == key && d.arrayIndex == n;
        assert d in all;
      }
    }
    forall p | p in e.producers ensures exists d :: d in all && KeyOf(d) == key && d.producer == p {
      if key in live && p in live[key].producers {
        var d :| d in claims && KeyOf(d) == key && d.producer == p;
        assert d in all;
      }
    }
  }

  lemma LastIsSummarised(
    live: map<Key, Entry>, names: map<string, string>, claims: seq<Claim>, c: Claim, groups: set<string>)
    requires Summarises(live, names, claims) && ClaimsOk(claims, groups) && SingleOk(c, groups)
    requires forall d :: d in claims ==> PairOk(d, c)
    ensures SummarisesClaim(WithClaim(live, c), WithName(names, c), c)
  {
    if KeyOf(c) in live {
      assert HasCause(live[KeyOf(c)], KeyOf(c), claims);
      var d :| d in claims && KeyOf(d) == KeyOf(c);
      Summarised(live, names, claims, groups, d);
    }
    if c.field in names {
      var d :| d in claims && d.field == c.field;
      Summarised(live, names, claims, groups, d);
    }
  }

  /** `_check_ledgers`: no error exactly for an accepted ledger. */
  method CheckLedgers(claims: seq<Claim>, groups: seq<Group>) returns (errors: nat)
    ensures errors == 0 <==> LedgerOk(claims, groups)
  {
    var live, names, found := CheckClaims(claims, GroupNames(groups));
    errors := found;
    for k := 0 to |groups|
      invariant errors == 0 ==> Summarises(live, names, claims)
      invariant errors == 0 <==>
        ClaimsOk(claims, GroupNames(groups)) && forall i :: 0 <= i < k ==> PartitionOk(claims, groups[i])
    {
      var more := CheckPartition(live, groups[k], claims, names);
      errors := errors + more;
    }
  }

  method CheckClaims(claims: seq<Claim>, groups: set<string>)
    returns (live: map<Key, Entry>, names: map<string, string>, errors: nat)
    ensures errors == 0 <==> ClaimsOk(claims, groups)
    ensures errors == 0 ==> Summarises(live, names, claims)
  {
    live, names, errors := map[], map[], 0;
    for k := 0 to |claims|
      invariant errors == 0 <==> ClaimsOk(claims[..k], groups)
      invariant errors == 0 ==> Summarises(live, names, claims[..k])
    {
      ghost var before := claims[..k];
      assert claims[..k + 1] == before + [claims[k]];
      PrefixOk(before, claims[k], groups);
      var found: nat;
      live, names, found := Record(live, names, claims[k], groups, before);
      errors := errors + found;
    }
    assert claims[..|claims|] == claims;
  }

  lemma PrefixOk(claims: seq<Claim>, c: Claim, groups: set<string>)
    ensures ClaimsOk(claims + [c], groups) ==> ClaimsOk(claims, groups)
  {
    var all := claims + [c];
    assert forall i :: 0 <= i < |claims| ==> all[i] == claims[i];
    if ClaimsOk(all, groups) {
      forall i | 0 <= i < |claims| ensures SingleOk(claims[i], groups) { assert SingleOk(all[i], groups); }
      forall i, j | 0 <= i < j < |claims| ensures PairOk(claims[i], claims[j]) { assert PairOk(all[i], all[j]); }
    }
  }

  /** The partition rules of one group. */
  method CheckPartition(
    live: map<Key, Entry>, g: Group, ghost claims: seq<Claim>, ghost names: map<string, string>)
    returns (errors: nat)
    ensures Summarises(live, names, claims) ==> (errors == 0 <==> PartitionOk(claims, g))
  {
    errors := PartitionErrors(EntryIds(live, g.name), SetOf(g.reservedIds), Range(g.nextFreeId),
                              EntryFields(live, g.name), SetOf(g.reservedNames));
    if Summarises(live, names, claims) {
      LiveSets(live, names, claims, g.name);
    }
  }

  method PartitionErrors(
    ids: set<nat>, reserved: set<nat>, expected: set<nat>, fields: set<string>, reservedNames: set<string>)
    returns (errors: nat)
    ensures errors == 0 <==> ids !! reserved && ids + reserved == expected && fields !! reservedNames
  {
    errors := 0;
    if ids * reserved != {} {
      errors := errors + 1;
    }
    if expected - ids - reserved != {} {
      errors := errors + 1;
    }
    if (ids + reserved) - expected != {} {
      errors := errors + 1;
    }
    var revived := fields * reservedNames;
    errors := errors + |revived|;
    DisjointByMeet(ids, reserved);
    DisjointByMeet(fields, reservedNames);
    PartitionBySets(ids, reserved, expected);
    assert |revived| == 0 <==> revived == {};
  }

  lemma DisjointByMeet<T>(a: set<T>, b: set<T>)
    ensures a * b == {} <==> a !! b
  {
    assert forall x :: x in a && x in b <==> x in a * b;
  }

  lemma PartitionBySets(a: set<nat>, b: set<nat>, whole: set<nat>)
    ensures whole - a - b == {} && (a + b) - whole == {} <==> a + b == whole
  {
    if whole - a - b == {} && (a + b) - whole == {} {
      forall n | n in whole ensures n in a + b { assert n !in whole - a - b; }
      forall n | n in a + b ensures n in whole { assert n !in (a + b) - whole; }
    }
  }

  function EntryIds(live: map<Key, Entry>, group: string): set<nat> {
    set key | key in live && key.0 == group :: live[key].id
  }

  function EntryFields(live: map<Key, Entry>, group: string): set<string> {
    set key | key in live && key.0 == group :: key.1
  }

  lemma LiveSets(live: map<Key, Entry>, names: map<string, string>, claims: seq<Claim>, group: string)
    requires Summarises(live, names, claims)
    ensures EntryIds(live, group) == LiveIds(claims, group) && EntryFields(live, group) == LiveFields(claims, group)
  {
    forall c | c in claims && c.group == group
      ensures c.id in EntryIds(live, group) && c.field in EntryFields(live, group)
    {
      ClaimIsLive(live, names, claims, c);
    }
    forall key | key in live && key.0 == group
      ensures live[key].id in LiveIds(claims, group) && key.1 in LiveFields(claims, group)
    {
      LiveIsClaimed(live, names, claims, key);
    }
  }

  lemma ClaimIsLive(live: map<Key, Entry>, names: map<string, string>, claims: seq<Claim>, c: Claim)
    requires Summarises(live, names, claims) && c in claims
    ensures c.id in EntryIds(live, c.group) && c.field in EntryFields(live, c.group)
  {
    assert SummarisesClaim(live, names, c);
    assert KeyOf(c) in live && KeyOf(c).0 == c.group;
  }

  lemma LiveIsClaimed(live: map<Key, Entry>, names: map<string, string>, claims: seq<Claim>, key: Key)
    requires Summarises(live, names, claims) && key in live
    ensures live[key].id in LiveIds(claims, key.0) && key.1 in LiveFields(claims, key.0)
  {
    assert HasCause(live[key], key, claims);
    var c :| c in claims && KeyOf(c) == key;
    assert SummarisesClaim(live, names, c);
    assert c.group == key.0 && c.field == key.1;
  }

  // ---- consequences ---------------------------------------------------------------

  /** Every accepted claim names a known group, a positive ID, a type and a field of lower
      case letters, digits and underscores that starts with a letter. */
  lemma AcceptedClaimIsNamed(claims: seq<Claim>, groups: set<string>, c: Claim)
    requires ClaimsOk(claims, groups) && c in claims
    ensures c.group in groups && c.id >= 1 && c.typed && (c.shared ==> !c.repeated && !c.isBit)
    ensures c.field != "" && c.field[0] != '_' && !('0' <= c.field[0] <= '9')
    ensures forall ch :: ch in c.field ==> 'a' <= ch <= 'z' || ch == '_' || ch in "0123456789"
  {
    var i :| 0 <= i < |claims| && claims[i] == c;
    assert SingleOk(claims[i], groups);
    forall ch | ch in c.field ensures 'a' <= ch <= 'z' || ch == '_' || ch in "0123456789" {
      DigitIsListed(ch);
    }
  }

  lemma DigitIsListed(ch: char)
    ensures '0' <= ch <= '9' ==> ch in "0123456789"
  {
    var digits := "0123456789";
    if '0' <= ch <= '9' {
      assert digits[ch as int - '0' as int] == ch;
    }
  }

  /** In an accepted ledger fields and IDs of a group determine each other. */
  lemma FieldIdBijective(claims: seq<Claim>, groups: set<string>, i: nat, j: nat)
    requires ClaimsOk(claims, groups) && i < |claims| && j < |claims| && claims[i].group == claims[j].group
    ensures claims[i].field == claims[j].field <==> claims[i].id == claims[j].id
  {
    if i < j {
      assert PairOk(claims[i], claims[j]);
    } else if j < i {
      assert PairOk(claims[j], claims[i]);
    }
  }

  lemma {:induction false} FieldsAndIdsAreAsMany(claims: seq<Claim>, groups: set<string>, group: string)
    requires ClaimsOk(claims, groups)
    ensures |LiveFields(claims, group)| == |LiveIds(claims, group)|
  {
    if claims == [] {
      assert LiveFields(claims, group) == {} && LiveIds(claims, group) == {};
    } else {
      var c, rest := claims[|claims| - 1], claims[..|claims| - 1];
      assert claims == rest + [c];
      PrefixOk(rest, c, groups);
      FieldsAndIdsAreAsMany(rest, groups, group);
      LiveExtends(rest, c, group);
      if c.group == group {
        NewTogether(claims, groups, rest, c);
      }
    }
  }

  lemma LiveExtends(rest: seq<Claim>, c: Claim, group: string)
    ensures LiveFields(rest + [c], group) == LiveFields(rest, group) + if c.group == group then {c.field} else {}
    ensures LiveIds(rest + [c], group) == LiveIds(rest, group) + if c.group == group then {c.id} else {}
  {
    assert forall d :: d in rest + [c] <==> d in rest || d == c;
  }

  lemma NewTogether(claims: seq<Claim>, groups: set<string>, rest: seq<Claim>, c: Claim)
    requires ClaimsOk(claims, groups) && claims == rest + [c]
    ensures c.field in LiveFields(rest, c.group) <==> c.id in LiveIds(rest, c.group)
  {
    forall d | d in rest && d.group == c.group ensures d.field == c.field <==> d.id == c.id {
      var i :| 0 <= i < |rest| && rest[i] == d;
      FieldIdBijective(claims, groups, i, |rest|);
    }
    if c.field in LiveFields(rest, c.group) {
      var d :| d in rest && d.group == c.group && d.field == c.field;
      assert d.id in LiveIds(rest, c.group);
    }
    if c.id in LiveIds(rest, c.group) {
      var d :| d in rest && d.group == c.group && d.id == c.id;
      assert d.field in LiveFields(rest, c.group);
    }
  }

  lemma {:induction false} RangeSize(next: nat)
    ensures |Range(next)| == if next == 0 then 0 else next - 1
  {
    if next > 1 {
      RangeSize(next - 1);
      assert next - 1 !in Range(next - 1);
    }
  }

  /** Live fields and distinct tombstones together count to next_free_id - 1. */
  lemma LedgerCounts(claims: seq<Claim>, groups: seq<Group>, k: nat)
    requires LedgerOk(claims, groups) && k < |groups|
    ensures |LiveFields(claims, groups[k].name)| + |SetOf(groups[k].reservedIds)| ==
      if groups[k].nextFreeId == 0 then 0 else groups[k].nextFreeId - 1
  {
    var g := groups[k];
    assert PartitionOk(claims, g);
    FieldsAndIdsAreAsMany(claims, GroupNames(groups), g.name);
    RangeSize(g.nextFreeId);
    assert |LiveIds(claims, g.name) + SetOf(g.reservedIds)| == |LiveIds(claims, g.name)| + |SetOf(g.reservedIds)|;
  }

  // ---- order ------------------------------------------------------------------------

  /** Acceptance in terms of the claims alone: no claim occurs twice, and any two
      different ones are compatible. */
  ghost predicate ClaimsOkUnordered(claims: multiset<Claim>, groups: set<string>) {
    && (forall c :: c in claims ==> claims[c] == 1 && SingleOk(c, groups))
    && (forall c, d :: c in claims && d in claims && c != d ==> PairOk(c, d))
  }

  lemma OkIsUnordered(claims: seq<Claim>, groups: set<string>)
    ensures ClaimsOk(claims, groups) <==> ClaimsOkUnordered(multiset(claims), groups)
  {
    if ClaimsOk(claims, groups) {
      forall c | c in multiset(claims) ensures multiset(claims)[c] == 1 && SingleOk(c, groups) {
        OccursOnce(claims, groups, c);
        var i :| 0 <= i < |claims| && claims[i] == c;
      }
      forall c, d | c in multiset(claims) && d in multiset(claims) && c != d ensures PairOk(c, d) {
        AnyTwoOk(claims, groups, c, d);
      }
    }
    if ClaimsOkUnordered(multiset(claims), groups) {
      forall i | 0 <= i < |claims| ensures SingleOk(claims[i], groups) {
        assert claims[i] in multiset(claims);
      }
      forall i, j | 0 <= i < j < |claims| ensures PairOk(claims[i], claims[j]) {
        if claims[i] == claims[j] {
          OccursTwice(claims, i, j);
        }
        assert claims[i] in multiset(claims) && claims[j] in multiset(claims);
      }
    }
  }

  lemma OccursTwice(claims: seq<Claim>, i: nat, j: nat)
    requires i < j < |claims| && claims[i] == claims[j]
    ensures multiset(claims)[claims[i]] >= 2
  {
    assert claims == claims[..j] + claims[j..];
    assert claims[i] in multiset(claims[..j]) && claims[j] in multiset(claims[j..]);
    assert claims[..j][i] == claims[i] && claims[j..][0] == claims[j];
  }

  lemma {:induction false} OccursOnce(claims: seq<Claim>, groups: set<string>, c: Claim)
    requires ClaimsOk(claims, groups) && c in multiset(claims)
    ensures multiset(claims)[c] == 1
  {
    var last, rest := claims[|claims| - 1], claims[..|claims| - 1];
    assert claims == rest + [last];
    PrefixOk(rest, last, groups);
    if last == c {
      forall i | 0 <= i < |rest| ensures rest[i] != c {
        assert PairOk(claims[i], claims[|rest|]) && SingleOk(claims[i], groups);
      }
      assert c !in multiset(rest);
    } else {
      OccursOnce(rest, groups, c);
    }
  }

  /** Files, messages and signals may come in any order: the verdict is the same. */
  lemma VerdictIgnoresOrder(claims: seq<Claim>, claims': seq<Claim>, groups: seq<Group>)
    requires multiset(claims) == multiset(claims')
    ensures LedgerOk(claims, groups) <==> LedgerOk(claims', groups)
  {
    OkIsUnordered(claims, GroupNames(groups));
    OkIsUnordered(claims', GroupNames(groups));
    forall c ensures c in claims <==> c in claims' {
      assert c in claims <==> c in multiset(claims);
      assert c in claims' <==> c in multiset(claims');
    }
    forall g: string
      ensures LiveIds(claims, g) == LiveIds(claims', g) && LiveFields(claims, g) == LiveFields(claims', g)
    {
    }
  }
}
