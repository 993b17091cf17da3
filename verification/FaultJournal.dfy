/** The brake-latch journal in one flash page.

A record is a value and its complement. Erasing sets every bit of the page;
programming a word only clears bits, and power may fail after any of them. */
module FaultJournal {
  import opened Numbers
  import opened Bits

  const RECORDS: nat := 256

  const ONES: uint32 := 0xFFFF_FFFF

  /** A 64-bit flash word, by halves. */
  datatype Word = Word(low: uint32, high: uint32)

  const ERASED := Word(ONES, ONES)

  /** `~v`. */
  function Complement(v: uint32): uint32 { ONES - v }

  /** `Valid`: the halves are complements. */
  predicate IsRecord(r: Word) { r.low == Complement(r.high) }

  function RecordOf(value: uint32): Word { Word(value, Complement(value)) }

  /** What programming `record` over an erased word may leave when it is cut short:
      some of the bits to clear are still set. */
  ghost predicate PartlyProgrammed(left: Word, record: Word) {
    Contains(left.low, record.low) && Contains(left.high, record.high)
  }

  /** Every bit set in `w` is set in `v`. */
  ghost predicate Contains(v: uint32, w: uint32) {
    forall j: nat :: j < 32 && Bit(w, j) ==> Bit(v, j)
  }

  /** The complement flips all 32 bits. */
  lemma ComplementFlips(v: uint32, j: nat)
    requires j < 32
    ensures Bit(Complement(v), j) == !Bit(v, j)
  {
    WordPowers(16, 32, 64);
    FlipAll(v, 32, j);
  }

  lemma {:induction false} FlipAll(v: nat, n: nat, j: nat)
    requires v < Pow2(n) && j < n
    ensures Bit(Pow2(n) - 1 - v, j) == !Bit(v, j)
  {
    assert (Pow2(n) - 1 - v) / 2 == Pow2(n - 1) - 1 - v / 2;
    if j > 0 {
      FlipAll(v / 2, n - 1, j - 1);
    }
  }

  /** A flash word as one number. */
  function WordValue(w: Word): nat { w.low + TWO_TO_32 * w.high }

  /** A record is the value in the low half and its complement in the high half. */
  lemma RecordLayout(value: uint32)
    ensures WordValue(RecordOf(value)) == value + (0xFFFF_FFFF - value) * 0x1_0000_0000
    ensures WordValue(ERASED) == 0xFFFF_FFFF_FFFF_FFFF
  {
  }

  /** A torn record is never mistaken for a complete one. */
  lemma OnlyCompleteIsValid(left: Word, value: uint32)
    requires PartlyProgrammed(left, RecordOf(value))
    ensures IsRecord(left) <==> left == RecordOf(value)
  {
    if IsRecord(left) {
      forall j: nat | j < 32 ensures Bit(left.low, j) == Bit(value, j) {
        ComplementFlips(value, j);
        ComplementFlips(left.high, j);
      }
      WordPowers(16, 32, 64);
      SameBitsSameWord(left.low, value, 32);
    }
  }

  // ---- the page as a value ------------------------------------------------------

  /** Number of words before the first erased one. */
  function Used(page: seq<Word>): (n: nat)
    ensures n <= |page| && forall i :: 0 <= i < n ==> page[i] != ERASED
    ensures n < |page| ==> page[n] == ERASED
  {
    if page == [] || page[0] == ERASED then 0 else 1 + Used(page[1..])
  }

  /** The most recent complete record, or 0. */
  function Latest(records: seq<Word>): uint32 {
    if records == [] then 0
    else if IsRecord(records[|records| - 1]) then records[|records| - 1].low
    else Latest(records[..|records| - 1])
  }

  function Latched(page: seq<Word>): uint32 {
    Latest(page[..Used(page)])
  }

  /** The words written so far are a prefix of the page. */
  ghost predicate Journal(page: seq<Word>) {
    |page| == RECORDS && forall i :: Used(page) <= i < |page| ==> page[i] == ERASED
  }

  function ErasedPage(): (page: seq<Word>)
    ensures Used(page) == 0
  {
    seq(RECORDS, _ => ERASED)
  }

  /** One save as the environment lets it happen: `erased` when a full page could be
      erased, `left` the word found in the slot afterwards. */
  datatype Save = Save(value: uint32, erased: bool, left: Word)

  ghost predicate Possible(s: Save) {
    PartlyProgrammed(s.left, RecordOf(s.value))
  }

  function Saved(page: seq<Word>, s: Save): seq<Word>
    requires |page| == RECORDS
  {
    if Latched(page) == s.value then page
    else if Used(page) < RECORDS then page[Used(page) := s.left]
    else if s.erased then ErasedPage()[0 := s.left]
    else page
  }

  // ---- the driver -----------------------------------------------------------------

  class FaultStore {
    const dualBank: bool
    const page: array<Word>

    constructor (dualBank: bool)
      ensures fresh(page) && page.Length == RECORDS && page[..] == ErasedPage() && this.dualBank == dualBank
    {
      this.dualBank := dualBank;
      page := new Word[RECORDS](_ => ERASED);
    }

    method LoadFaultLatch() returns (value: uint32)
      requires page.Length == RECORDS
      ensures value == if dualBank then Latched(page[..]) else 0
    {
      if !dualBank {
        return 0;
      }
      value := 0;
      var i := 0;
      while i < RECORDS
        invariant i <= RECORDS && i <= Used(page[..])
        invariant value == Latest(page[..i])
      {
        var r := page[i];
        if r == ERASED {
          break;
        }
        assert page[..i + 1] == page[..i] + [r];
        assert page[..][i] == r;
        if IsRecord(r) {
          value := r.low;
        }
        i := i + 1;
      }
      assert page[..][..i] == page[..i];
    }

    /** The page is only ever erased when full and only ever programmed where erased. */
    method SaveFaultLatch(s: Save)
      requires page.Length == RECORDS && Possible(s)
      modifies page
      ensures page[..] == if dualBank then Saved(old(page[..]), s) else old(page[..])
    {
      if !dualBank {
        return;
      }
      var current := LoadFaultLatch();
      if current == s.value {
        return;
      }
      var slot := RECORDS;
      var i := 0;
      while i < RECORDS
        invariant i <= RECORDS && slot == RECORDS && i <= Used(page[..])
      {
        assert page[..][i] == page[i];
        if page[i] == ERASED {
          slot := i;
          break;
        }
        i := i + 1;
      }
      if slot == RECORDS {
        if !s.erased {
          return;
        }
        ErasePage();
        slot := 0;
      }
      ProgramDoubleWord(slot, RecordOf(s.value), s.left);
    }

    method ErasePage()
      requires page.Length == RECORDS
      modifies page
      ensures page[..] == ErasedPage()
    {
      for i := 0 to RECORDS
        invariant forall k :: 0 <= k < i ==> page[k] == ERASED
      {
        page[i] := ERASED;
      }
    }

    /** Clears bits of an erased word; `left` tells how far it came. */
    method ProgramDoubleWord(slot: nat, record: Word, left: Word)
      requires page.Length == RECORDS && slot < RECORDS
      requires page[slot] == ERASED && PartlyProgrammed(left, record)
      modifies page
      ensures page[..] == old(page[..])[slot := left]
    {
      page[slot] := left;
    }
  }

  // ---- crash atomicity --------------------------------------------------------------

  lemma {:induction false} UsedIs(page: seq<Word>, n: nat)
    requires n <= |page| && (forall i :: 0 <= i < n ==> page[i] != ERASED) && (n < |page| ==> page[n] == ERASED)
    ensures Used(page) == n
  {
    if n > 0 {
      UsedIs(page[1..], n - 1);
    }
  }

  /** One save keeps the journal a prefix of the page and uses at most one more word,
      unless it starts a full page afresh. */
  lemma SaveKeepsJournal(page: seq<Word>, s: Save)
    requires Journal(page) && Possible(s)
    ensures Journal(Saved(page, s))
    ensures var grows := Latched(page) != s.value && s.left != ERASED;
      Used(Saved(page, s)) ==
        if Latched(page) == s.value then Used(page)
        else if Used(page) < RECORDS then Used(page) + (if grows then 1 else 0)
        else if s.erased then if grows then 1 else 0
        else Used(page)
  {
    var n := Used(page);
    var after := Saved(page, s);
    if Latched(page) != s.value {
      if n < RECORDS {
        UsedIs(after, if s.left != ERASED then n + 1 else n);
      } else if s.erased {
        UsedIs(after, if s.left != ERASED then 1 else 0);
      }
    }
  }

  /** Whatever moment power fails in a save, the latch read afterwards is the new value
      exactly when the record is complete, and else the old one; only a save that erased
      the full page loses the old value, and then reads 0. */
  lemma SaveIsAtomic(page: seq<Word>, s: Save)
    requires Journal(page) && Possible(s)
    ensures Latched(Saved(page, s)) ==
      if Latched(page) == s.value then s.value
      else if Used(page) == RECORDS && !s.erased then Latched(page)
      else if s.left == RecordOf(s.value) then s.value
      else if Used(page) == RECORDS then 0
      else Latched(page)
  {
    var n := Used(page);
    var after := Saved(page, s);
    SaveKeepsJournal(page, s);
    OnlyCompleteIsValid(s.left, s.value);
    if Latched(page) != s.value {
      if n < RECORDS {
        AppendedLatch(page, n, s.left);
      } else if s.erased {
        AppendedLatch(ErasedPage(), 0, s.left);
      }
    }
  }

  lemma AppendedLatch(page: seq<Word>, n: nat, left: Word)
    requires n == Used(page) < |page| && forall i :: n <= i < |page| ==> page[i] == ERASED
    ensures Latched(page[n := left]) == if left != ERASED && IsRecord(left) then left.low else Latched(page)
  {
    var after := page[n := left];
    if left == ERASED {
      assert after == page;
    } else {
      UsedIs(after, n + 1);
      assert after[..n + 1] == page[..n] + [left];
      assert (page[..n] + [left])[..n] == page[..n];
    }
  }

  // ---- whole runs ---------------------------------------------------------------------

  datatype Wear = Wear(page: seq<Word>, erases: nat, written: nat)

  /** The page after a run of saves, the erases it cost and the words it wrote. */
  function After(run: seq<Save>): Wear
  {
    if run == [] then Wear(ErasedPage(), 0, 0)
    else
      var w, s := After(run[..|run| - 1]), run[|run| - 1];
      if |w.page| != RECORDS || Latched(w.page) == s.value then w
      else
        var full := Used(w.page) == RECORDS;
        if full && !s.erased then w
        else Wear(Saved(w.page, s), w.erases + (if full then 1 else 0), w.written + (if s.left != ERASED then 1 else 0))
  }

  /** Over every run the journal stays a prefix of the page, and every 256 words
      written cost one erase. */
  lemma {:induction false} WearIsConserved(run: seq<Save>)
    requires forall k :: 0 <= k < |run| ==> Possible(run[k])
    ensures Journal(After(run).page)
    ensures After(run).written == 256 * After(run).erases + Used(After(run).page)
  {
    if run != [] {
      WearIsConserved(run[..|run| - 1]);
      SaveKeepsJournal(After(run[..|run| - 1]).page, run[|run| - 1]);
    }
  }

  /** Every save of the run took effect: its value was new and its record completed. */
  ghost predicate AllEffective(run: seq<Save>) {
    forall k :: 0 <= k < |run| ==>
      run[k].left == RecordOf(run[k].value) && run[k].erased && Latched(After(run[..k]).page) != run[k].value
  }

  lemma {:induction false} EffectiveSavesAllWrite(run: seq<Save>)
    requires AllEffective(run)
    ensures (forall k :: 0 <= k < |run| ==> Possible(run[k])) && After(run).written == |run|
    ensures run != [] ==> Used(After(run).page) > 0
  {
    forall k | 0 <= k < |run| ensures Possible(run[k]) {
    }
    if run != [] {
      var prior, s := run[..|run| - 1], run[|run| - 1];
      forall k | 0 <= k < |prior|
        ensures prior[k].left == RecordOf(prior[k].value) && prior[k].erased &&
          Latched(After(prior[..k]).page) != prior[k].value
      {
        assert prior[..k] == run[..k];
      }
      EffectiveSavesAllWrite(prior);
      WearIsConserved(prior);
      assert run[..|run| - 1] == prior;
        SaveKeepsJournal(After(prior).page, s);
    }
  }

  /** From an erased page, n effective changes of the latch cost (n-1)/256 erases. */
  lemma WearBound(run: seq<Save>)
    requires AllEffective(run) && run != []
    ensures After(run).erases == (|run| - 1) / 256
  {
    EffectiveSavesAllWrite(run);
    WearIsConserved(run);
    var used := Used(After(run).page);
    assert |run| - 1 == RECORDS * After(run).erases + (used - 1) && 0 <= used - 1 < RECORDS;
  }

  /** What the latch reads after a run: the value of the last save that took effect,
      if no page was lost to an incomplete save since, and else 0. */
  function Expected(run: seq<Save>): uint32 {
    if run == [] then 0
    else
      var prior, s := run[..|run| - 1], run[|run| - 1];
      var full := Used(After(prior).page) == RECORDS;
      if Expected(prior) == s.value || (full && !s.erased) then Expected(prior)
      else if s.left == RecordOf(s.value) then s.value
      else if full then 0
      else Expected(prior)
  }

  lemma {:induction false} LatchAfterRun(run: seq<Save>)
    requires forall k :: 0 <= k < |run| ==> Possible(run[k])
    ensures Latched(After(run).page) == Expected(run)
  {
    if run != [] {
      var prior := run[..|run| - 1];
      LatchAfterRun(prior);
      WearIsConserved(prior);
      SaveIsAtomic(After(prior).page, run[|run| - 1]);
    }
  }
}
