/** The logger's column order: natural, number-aware comparison of names. */
module NaturalOrder {
  import opened Numbers
  import opened BitWalk

  type Name = seq<uint8>

  datatype Ordering = Less | Equal | Greater

  predicate IsDigit(b: uint8) { 48 <= b <= 57 }

  /** The digits are the characters 0 to 9, and stand for these numbers. */
  lemma DigitsAreAscii(b: uint8)
    ensures IsDigit(b) <==> exists k :: 0 <= k < 10 && DigitOf(b, k)
    ensures forall k: nat :: k < 10 && DigitOf(b, k) ==> Decimal([b]) == k
  {
    if IsDigit(b) {
      assert DigitOf(b, b - 48);
    }
    forall k: nat | k < 10 && DigitOf(b, k) ensures IsDigit(b) && Decimal([b]) == k {
      assert Decimal([b][..0]) == 0;
    }
  }

  predicate DigitOf(b: uint8, k: int)
    requires 0 <= k < 10
  {
    "0123456789"[k] as int == b
  }

  // ---- numbers ----------------------------------------------------------------

  /** Length of the leading run of digits. */
  function DigitRun(s: Name): (n: nat)
    ensures n <= |s| && forall i :: 0 <= i < n ==> IsDigit(s[i])
    ensures n < |s| ==> !IsDigit(s[n])
  {
    if s == [] || !IsDigit(s[0]) then 0 else 1 + DigitRun(s[1..])
  }

  function Decimal(digits: Name): nat
    requires forall i :: 0 <= i < |digits| ==> IsDigit(digits[i])
  {
    if digits == [] then 0
    else
      assert IsDigit(digits[|digits| - 1]);
      Decimal(digits[..|digits| - 1]) * 10 + (digits[|digits| - 1] - 48)
  }

  /** Decimal is positional: a leading digit counts for a power of ten. */
  lemma {:induction false} DecimalIsPositional(digits: Name)
    requires digits != [] && forall i :: 0 <= i < |digits| ==> IsDigit(digits[i])
    ensures IsDigit(digits[0]) && forall i :: 0 <= i < |digits[1..]| ==> IsDigit(digits[1..][i])
    ensures Decimal(digits) == (digits[0] - 48) * Pow10(|digits| - 1) + Decimal(digits[1..])
    decreases |digits|
  {
    assert IsDigit(digits[0]);
    assert forall i :: 0 <= i < |digits[1..]| ==> digits[1..][i] == digits[i + 1];
    if |digits| > 1 {
      var n := |digits|;
      var front, rest := digits[..n - 1], digits[1..];
      DecimalIsPositional(front);
      assert front[1..] == rest[..n - 2] && rest[n - 2] == digits[n - 1];
      TimesTen(front[0] - 48, Pow10(n - 2));
    }
  }

  lemma TimesTen(d: nat, p: nat)
    ensures d * p * 10 == d * (10 * p)
  {
  }

  function Pow10(n: nat): nat { if n == 0 then 1 else 10 * Pow10(n - 1) }

  /** Over-long runs saturate. */
  function Saturated(n: nat): nat { if n > U64_MAX then U64_MAX else n }

  method TakeNumber(s: Name) returns (number: nat, rest: Name)
    ensures var n := DigitRun(s); number == Saturated(Decimal(s[..n])) && rest == s[n..]
  {
    var end := 0;
    while end < |s| && IsDigit(s[end])
      invariant end <= |s| && end <= DigitRun(s)
    {
      end := end + 1;
    }
    number := Saturated(Decimal(s[..end]));
    rest := s[end..];
  }

  // ---- tokens -----------------------------------------------------------------

  datatype Token = Num(n: nat) | Byte(b: uint8)

  /** Maximal digit runs as saturated numbers, every other byte by itself. */
  function Tokens(s: Name): (t: seq<Token>)
    ensures s == [] <==> t == []
    decreases |s|
  {
    if s == [] then []
    else if IsDigit(s[0]) then
      var n := DigitRun(s);
      [Num(Saturated(Decimal(s[..n])))] + Tokens(s[n..])
    else [Byte(s[0])] + Tokens(s[1..])
  }

  function CompareNat(a: nat, b: nat): Ordering {
    if a < b then Less else if a > b then Greater else Equal
  }

  /** Numbers sort before other bytes. */
  function CompareToken(a: Token, b: Token): Ordering {
    match (a, b)
    case (Num(m), Num(n)) => CompareNat(m, n)
    case (Num(_), Byte(_)) => Less
    case (Byte(_), Num(_)) => Greater
    case (Byte(x), Byte(y)) => CompareNat(x, y)
  }

  /** Lexicographic, a proper prefix first. */
  function Lexicographic(a: seq<Token>, b: seq<Token>): Ordering {
    if a == [] then if b == [] then Equal else Less
    else if b == [] then Greater
    else
      var c := CompareToken(a[0], b[0]);
      if c.Equal? then Lexicographic(a[1..], b[1..]) else c
  }

  /** Numbers by size, other bytes by value, a number before any other byte. */
  predicate TokenBefore(a: Token, b: Token) {
    match (a, b)
    case (Num(m), Num(n)) => m < n
    case (Num(_), Byte(_)) => true
    case (Byte(_), Num(_)) => false
    case (Byte(x), Byte(y)) => x < y
  }

  /** At the first difference, position `n`, `a` has the earlier token or has ended. */
  predicate BeforeAt(a: seq<Token>, b: seq<Token>, n: nat) {
    && n <= |a| && n < |b| && a[..n] == b[..n]
    && (n == |a| || TokenBefore(a[n], b[n]))
  }

  ghost predicate Before(a: seq<Token>, b: seq<Token>) {
    exists n: nat :: BeforeAt(a, b, n)
  }

  lemma {:induction false} LessIffBefore(a: seq<Token>, b: seq<Token>)
    ensures Lexicographic(a, b) == Less <==> Before(a, b)
  {
    if a == [] || b == [] {
      if b != [] {
        assert BeforeAt(a, b, 0);
      }
    } else if a[0] == b[0] {
      LessIffBefore(a[1..], b[1..]);
      if n: nat :| BeforeAt(a[1..], b[1..], n) {
        assert a[..n + 1] == [a[0]] + a[1..][..n] && b[..n + 1] == [b[0]] + b[1..][..n];
        assert BeforeAt(a, b, n + 1);
      }
      if n: nat :| BeforeAt(a, b, n) {
        LaterDifference(a, b, n);
        assert BeforeAt(a[1..], b[1..], n - 1);
      }
    } else {
      if TokenBefore(a[0], b[0]) {
        assert BeforeAt(a, b, 0);
      }
      if n: nat :| BeforeAt(a, b, n) {
        assert n > 0 ==> a[..n][0] == b[..n][0];
      }
    }
  }

  lemma LaterDifference(a: seq<Token>, b: seq<Token>, n: nat)
    requires a != [] && b != [] && a[0] == b[0] && BeforeAt(a, b, n)
    ensures n > 0 && BeforeAt(a[1..], b[1..], n - 1)
  {
    assert a[1..][..n - 1] == a[..n][1..] && b[1..][..n - 1] == b[..n][1..];
  }

  method NaturalCmp(a: Name, b: Name) returns (r: Ordering)
    ensures r == Lexicographic(Tokens(a), Tokens(b))
    ensures r == Less <==> Before(Tokens(a), Tokens(b))
    ensures r == Greater <==> Before(Tokens(b), Tokens(a))
    ensures r == Equal <==> Tokens(a) == Tokens(b)
  {
    LessIffBefore(Tokens(a), Tokens(b));
    LessIffBefore(Tokens(b), Tokens(a));
    Reversed(Tokens(b), Tokens(a));
    EqualIffSameTokens(Tokens(a), Tokens(b));
    var x, y := a, b;
    while true
      invariant Lexicographic(Tokens(a), Tokens(b)) == Lexicographic(Tokens(x), Tokens(y))
      decreases |x|
    {
      if x == [] && y == [] {
        return Equal;
      } else if x == [] {
        return Less;
      } else if y == [] {
        return Greater;
      }
      var xDigit, yDigit := IsDigit(x[0]), IsDigit(y[0]);
      TokensStep(x);
      TokensStep(y);
      if xDigit && yDigit {
        var m, xRest := TakeNumber(x);
        var n, yRest := TakeNumber(y);
        if m != n {
          return CompareNat(m, n);
        }
        x, y := xRest, yRest;
      } else if xDigit != yDigit {
        return if xDigit then Less else Greater;
      } else {
        if x[0] != y[0] {
          return CompareNat(x[0], y[0]);
        }
        x, y := x[1..], y[1..];
      }
    }
  }

  lemma TokensStep(s: Name)
    requires s != []
    ensures Tokens(s) != []
    ensures IsDigit(s[0]) ==>
      Tokens(s)[0] == Num(Saturated(Decimal(s[..DigitRun(s)]))) && Tokens(s)[1..] == Tokens(s[DigitRun(s)..])
    ensures !IsDigit(s[0]) ==> Tokens(s)[0] == Byte(s[0]) && Tokens(s)[1..] == Tokens(s[1..])
  {
  }

  // ---- it is a total preorder -----------------------------------------------------

  function Natural(a: Name, b: Name): Ordering { Lexicographic(Tokens(a), Tokens(b)) }

  predicate NotAfter(a: Name, b: Name) { Natural(a, b) != Greater }

  /** Names compare equal exactly when they have the same tokens. */
  lemma {:induction false} EqualIffSameTokens(a: seq<Token>, b: seq<Token>)
    ensures Lexicographic(a, b) == Equal <==> a == b
  {
    if a != [] && b != [] {
      EqualIffSameTokens(a[1..], b[1..]);
      assert a == [a[0]] + a[1..] && b == [b[0]] + b[1..];
    }
  }

  lemma {:induction false} Reversed(a: seq<Token>, b: seq<Token>)
    ensures Lexicographic(a, b) == Less <==> Lexicographic(b, a) == Greater
  {
    if a != [] && b != [] {
      Reversed(a[1..], b[1..]);
    }
  }

  lemma {:induction false} Transitive(a: seq<Token>, b: seq<Token>, c: seq<Token>)
    requires Lexicographic(a, b) != Greater && Lexicographic(b, c) != Greater
    ensures Lexicographic(a, c) != Greater
    ensures Lexicographic(a, b) == Less || Lexicographic(b, c) == Less ==> Lexicographic(a, c) == Less
  {
    if a != [] && b != [] && c != [] && CompareToken(a[0], b[0]).Equal? && CompareToken(b[0], c[0]).Equal? {
      Transitive(a[1..], b[1..], c[1..]);
    }
  }

  lemma NaturalIsTotalPreorder(a: Name, b: Name, c: Name)
    ensures NotAfter(a, a)
    ensures NotAfter(a, b) || NotAfter(b, a)
    ensures NotAfter(a, b) && NotAfter(b, c) ==> NotAfter(a, c)
    ensures NotAfter(a, b) && NotAfter(b, a) <==> Tokens(a) == Tokens(b)
  {
    EqualIffSameTokens(Tokens(a), Tokens(a));
    EqualIffSameTokens(Tokens(a), Tokens(b));
    Reversed(Tokens(a), Tokens(b));
    Reversed(Tokens(b), Tokens(a));
    if NotAfter(a, b) && NotAfter(b, c) {
      Transitive(Tokens(a), Tokens(b), Tokens(c));
    }
  }

  // ---- the columns ------------------------------------------------------------------

  /** A stable sort, standing for the library's. */
  function Sorted(keys: seq<Name>): seq<Name> {
    if keys == [] then [] else Inserted(keys[0], Sorted(keys[1..]))
  }

  function Inserted(key: Name, sorted: seq<Name>): seq<Name> {
    if sorted == [] || NotAfter(key, sorted[0]) then [key] + sorted
    else [sorted[0]] + Inserted(key, sorted[1..])
  }

  /** A name by its ASCII characters. */
  function Ascii(s: string): (r: Name)
    requires forall i :: 0 <= i < |s| ==> s[i] < 128 as char
    ensures |r| == |s| && forall i :: 0 <= i < |r| ==> r[i] == s[i] as int
  {
    seq(|s|, i requires 0 <= i < |s| => s[i] as int)
  }

  const TIME: Name := Ascii("time")
  const PACKET_ID: Name := Ascii("packet_id")

  predicate Leading(key: Name) { key == TIME || key == PACKET_ID }

  function Others(keys: seq<Name>): seq<Name> {
    if keys == [] then [] else (if Leading(keys[0]) then [] else [keys[0]]) + Others(keys[1..])
  }

  function OrderHeaders(keys: seq<Name>): seq<Name> {
    Lead(keys) + Sorted(Others(keys))
  }

  ghost predicate InOrder(keys: seq<Name>) {
    forall i, j :: 0 <= i < j < |keys| ==> NotAfter(keys[i], keys[j])
  }

  lemma {:induction false} InsertedAdds(key: Name, sorted: seq<Name>)
    ensures multiset(Inserted(key, sorted)) == multiset(sorted) + multiset{key}
  {
    if sorted != [] && !NotAfter(key, sorted[0]) {
      InsertedAdds(key, sorted[1..]);
      assert sorted == [sorted[0]] + sorted[1..];
    }
  }

  lemma PrecedesSorted(first: Name, sorted: seq<Name>)
    requires InOrder(sorted) && (sorted == [] || NotAfter(first, sorted[0]))
    ensures InOrder([first] + sorted)
  {
    forall j | 0 <= j < |sorted| ensures NotAfter(first, sorted[j]) {
      if j > 0 {
        NaturalIsTotalPreorder(first, sorted[0], sorted[j]);
      }
    }
  }

  lemma {:induction false} InsertedIsSorted(key: Name, sorted: seq<Name>)
    requires InOrder(sorted)
    ensures InOrder(Inserted(key, sorted))
  {
    if sorted == [] || NotAfter(key, sorted[0]) {
      PrecedesSorted(key, sorted);
    } else {
      InsertedIsSorted(key, sorted[1..]);
      NaturalIsTotalPreorder(key, sorted[0], key);
      PrecedesSorted(sorted[0], Inserted(key, sorted[1..]));
    }
  }

  lemma {:induction false} SortedIsSorted(keys: seq<Name>)
    ensures InOrder(Sorted(keys)) && multiset(Sorted(keys)) == multiset(keys)
  {
    if keys != [] {
      SortedIsSorted(keys[1..]);
      InsertedIsSorted(keys[0], Sorted(keys[1..]));
      InsertedAdds(keys[0], Sorted(keys[1..]));
      assert keys == [keys[0]] + keys[1..];
    }
  }

  /** The keys that compare equal to `key`, in order. */
  function Class(keys: seq<Name>, key: Name): seq<Name> {
    if keys == [] then [] else (if Natural(keys[0], key) == Equal then [keys[0]] else []) + Class(keys[1..], key)
  }

  lemma {:induction false} InsertedIsStable(key: Name, sorted: seq<Name>, k: Name)
    ensures Class(Inserted(key, sorted), k) == Class([key] + sorted, k)
  {
    assert ([key] + sorted)[1..] == sorted;
    if sorted != [] && !NotAfter(key, sorted[0]) {
      InsertedIsStable(key, sorted[1..], k);
      var first, rest := sorted[0], Inserted(key, sorted[1..]);
      assert ([first] + rest)[1..] == rest && ([key] + sorted[1..])[1..] == sorted[1..];
      EqualIffSameTokens(Tokens(key), Tokens(k));
      EqualIffSameTokens(Tokens(first), Tokens(k));
      EqualIffSameTokens(Tokens(key), Tokens(first));
    }
  }

  /** Names that compare equal keep their order. */
  lemma {:induction false} SortedIsStable(keys: seq<Name>, k: Name)
    ensures Class(Sorted(keys), k) == Class(keys, k)
  {
    if keys != [] {
      SortedIsStable(keys[1..], k);
      InsertedIsStable(keys[0], Sorted(keys[1..]), k);
      assert ([keys[0]] + Sorted(keys[1..]))[1..] == Sorted(keys[1..]);
    }
  }

  ghost predicate Distinct(keys: seq<Name>) {
    forall i, j :: 0 <= i < j < |keys| ==> keys[i] != keys[j]
  }

  /** The leading names that occur, in their fixed order. */
  function Lead(keys: seq<Name>): seq<Name> {
    (if TIME in keys then [TIME] else []) + (if PACKET_ID in keys then [PACKET_ID] else [])
  }

  lemma {:induction false} OthersSplit(keys: seq<Name>)
    requires Distinct(keys)
    ensures multiset(keys) == multiset(Lead(keys)) + multiset(Others(keys))
    ensures forall k :: k in Others(keys) ==> !Leading(k)
  {
    if keys != [] {
      var first, tail := keys[0], keys[1..];
      assert keys == [first] + tail;
      FirstIsNew(keys);
      OthersSplit(tail);
      LeadGrows(first, tail);
      OthersGrow(first, tail);
      assert multiset(keys) == multiset{first} + multiset(tail);
    }
  }

  lemma FirstIsNew(keys: seq<Name>)
    requires keys != [] && Distinct(keys)
    ensures keys[0] !in keys[1..] && Distinct(keys[1..])
  {
    assert forall i :: 0 <= i < |keys[1..]| ==> keys[1..][i] == keys[i + 1];
  }

  lemma OthersGrow(first: Name, tail: seq<Name>)
    ensures multiset(Others([first] + tail)) ==
      multiset(Others(tail)) + if Leading(first) then multiset{} else multiset{first}
  {
    assert ([first] + tail)[1..] == tail;
  }

  lemma LeadGrows(first: Name, tail: seq<Name>)
    requires first !in tail
    ensures multiset(Lead([first] + tail)) ==
      multiset(Lead(tail)) + if Leading(first) then multiset{first} else multiset{}
  {
    DifferentLeaders();
    assert forall k :: k in [first] + tail <==> k == first || k in tail;
  }

  lemma DifferentLeaders()
    ensures TIME != PACKET_ID
  {
    assert |TIME| == 4 && |PACKET_ID| == 9;
  }

  /** No name but the leading two stands behind a later one in natural order. */
  ghost predicate NaturallyOrdered(h: seq<Name>) {
    forall i, j :: 0 <= i < j < |h| && !Leading(h[i]) ==> !Leading(h[j]) && !Before(Tokens(h[j]), Tokens(h[i]))
  }

  /** On distinct keys: a permutation, in natural order behind the leading names. */
  lemma HeadersAreOrdered(keys: seq<Name>)
    requires Distinct(keys)
    ensures multiset(OrderHeaders(keys)) == multiset(keys)
    ensures NaturallyOrdered(OrderHeaders(keys))
  {
    var others := Others(keys);
    SortedIsSorted(others);
    OthersSplit(keys);
    forall k | k in Sorted(others) ensures !Leading(k) {
      assert k in multiset(Sorted(others));
      assert k in multiset(others);
    }
    RestIsOrdered(Lead(keys), Sorted(others));
  }

  lemma RestIsOrdered(lead: seq<Name>, rest: seq<Name>)
    requires InOrder(rest) && (forall k :: k in lead ==> Leading(k)) && forall k :: k in rest ==> !Leading(k)
    ensures NaturallyOrdered(lead + rest)
  {
    var h, n := lead + rest, |lead|;
    assert forall k :: 0 <= k < n ==> h[k] in lead;
    forall i, j | 0 <= i < j < |h| && !Leading(h[i]) ensures !Leading(h[j]) && !Before(Tokens(h[j]), Tokens(h[i])) {
      assert i >= n;
      assert h[i] == rest[i - n] && h[j] == rest[j - n];
      NotBeforeIfNotAfter(h[i], h[j]);
    }
  }

  lemma NotBeforeIfNotAfter(a: Name, b: Name)
    requires NotAfter(a, b)
    ensures !Before(Tokens(b), Tokens(a))
  {
    Reversed(Tokens(b), Tokens(a));
    LessIffBefore(Tokens(b), Tokens(a));
  }

  /** "time" comes first if it occurs, and "packet_id" directly behind it or first. */
  lemma LeadersComeFirst(keys: seq<Name>)
    ensures Ascii("time") in keys ==> OrderHeaders(keys) != [] && OrderHeaders(keys)[0] == Ascii("time")
    ensures Ascii("packet_id") in keys ==>
      var at := if Ascii("time") in keys then 1 else 0;
      at < |OrderHeaders(keys)| && OrderHeaders(keys)[at] == Ascii("packet_id")
  {
  }
}
