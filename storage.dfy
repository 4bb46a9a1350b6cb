/**
 * The history store of lib/storage.ts: one persisted slot holding the list
 * of saved calculations, newest first, capped at 50 entries. Every
 * operation reads the whole list, transforms it and writes it back whole.
 */
module Storage {
  import opened Types

  const MaxEntries: nat := 50

  /** The persisted slot: no entry, an entry that does not parse, or a parsed list. */
  datatype Slot = Absent | Corrupt | Present(records: seq<Calculation>)

  /** `unshift` then truncate to the cap (lib/storage.ts:7-15). */
  function Prepend(list: seq<Calculation>, c: Calculation): (r: seq<Calculation>)
    ensures |r| == if |list| + 1 <= MaxEntries then |list| + 1 else MaxEntries
    ensures r[0] == c && r[1..] <= list
    ensures |list| < MaxEntries ==> r == [c] + list
  {
    var l := [c] + list;
    if |l| > MaxEntries then l[..MaxEntries] else l
  }

  /** `calculations.filter((calc) => calc.id !== id)` (lib/storage.ts:34). */
  function Without(list: seq<Calculation>, id: string): (r: seq<Calculation>)
    ensures |r| <= |list|
    ensures forall i :: 0 <= i < |r| ==> r[i].id != id
    ensures forall x :: x in r <==> x in list && x.id != id
    ensures (forall i :: 0 <= i < |list| ==> list[i].id != id) ==> r == list
  {
    if list == [] then []
    else
      var tail := Without(list[1..], id);
      assert forall x :: x in list <==> x == list[0] || x in list[1..];
      if list[0].id != id then [list[0]] + tail else tail
  }

  /** Deleting keeps the survivors in their original order: it distributes over concatenation. */
  lemma {:induction false} WithoutConcat(a: seq<Calculation>, b: seq<Calculation>, id: string)
    ensures Without(a + b, id) == Without(a, id) + Without(b, id)
  {
    if a == [] {
      assert a + b == b;
    } else {
      assert (a + b)[0] == a[0] && (a + b)[1..] == a[1..] + b;
      WithoutConcat(a[1..], b, id);
    }
  }

  /** Saves carry no id check: two records with one id can both be stored, and deleting that id removes both. */
  lemma DuplicateIds(list: seq<Calculation>, a: Calculation, b: Calculation)
    requires a.id == b.id && |list| + 2 <= MaxEntries
    ensures Prepend(Prepend(list, a), b) == [b, a] + list
    ensures a !in Without(Prepend(Prepend(list, a), b), a.id)
    ensures b !in Without(Prepend(Prepend(list, a), b), a.id)
  {
  }

  function Take(s: seq<Calculation>, n: nat): (r: seq<Calculation>)
    ensures |r| == if |s| <= n then |s| else n
    ensures r <= s
  {
    if |s| <= n then s else s[..n]
  }

  function Reverse(s: seq<Calculation>): (r: seq<Calculation>)
    ensures |r| == |s|
    ensures forall i :: 0 <= i < |s| ==> r[i] == s[|s| - 1 - i]
  {
    if s == [] then [] else Reverse(s[1..]) + [s[0]]
  }

  /** The list after saving `cs[0]`, then `cs[1]`, and so on. */
  function SaveAll(list: seq<Calculation>, cs: seq<Calculation>): seq<Calculation>
    decreases cs
  {
    if cs == [] then list else SaveAll(Prepend(list, cs[0]), cs[1..])
  }

  lemma TakeOfTake(a: seq<Calculation>, b: seq<Calculation>, n: nat)
    ensures Take(a + Take(b, n), n) == Take(a + b, n)
  {
    if |b| > n {
      assert (a + b)[..n] == (a + b[..n])[..n];
    }
  }

  /**
   * The cap keeps the most recent saves: after any run of saves the list
   * is the new records, newest first, followed by the old list, cut to 50.
   */
  lemma {:induction false} SaveAllKeepsNewest(list: seq<Calculation>, cs: seq<Calculation>)
    requires |list| <= MaxEntries
    ensures SaveAll(list, cs) == Take(Reverse(cs) + list, MaxEntries)
    decreases cs
  {
    if cs == [] {
      assert Reverse(cs) + list == list;
    } else {
      var c, later := cs[0], cs[1..];
      SaveAllKeepsNewest(Prepend(list, c), later);
      TakeOfTake(Reverse(later), [c] + list, MaxEntries);
      calc {
        Reverse(later) + ([c] + list);
        (Reverse(later) + [c]) + list;
        Reverse(cs) + list;
      }
    }
  }

  /** After at least 50 saves the list is exactly the 50 most recent records, newest first. */
  lemma CapKeepsFiftyNewest(list: seq<Calculation>, cs: seq<Calculation>)
    requires |list| <= MaxEntries && |cs| >= MaxEntries
    ensures SaveAll(list, cs) == Reverse(cs[|cs| - MaxEntries..])
  {
    SaveAllKeepsNewest(list, cs);
    var r := Reverse(cs);
    assert Take(r + list, MaxEntries) == r[..MaxEntries];
  }

  class HistoryStore {
    /** The localStorage entry under the key "vaddi-calculator-history". */
    var slot: Slot

    constructor (initial: Slot)
      ensures slot == initial
    {
      slot := initial;
    }

    /** The list `getCalculations` reports for the current slot. */
    function Contents(): seq<Calculation>
      reads this
    {
      if slot.Present? then slot.records else []
    }

    /** Every list this store writes holds at most 50 records. */
    predicate Bounded()
      reads this
    {
      slot.Present? ==> |slot.records| <= MaxEntries
    }

    /**
     * `getCalculations` (lib/storage.ts:20-30): the stored list as it is,
     * or an empty list when the slot is absent or does not parse; it never fails.
     */
    method GetCalculations() returns (list: seq<Calculation>)
      ensures slot.Present? ==> list == slot.records
      ensures slot.Absent? || slot.Corrupt? ==> list == []
    {
      match slot
      case Absent => list := [];
      case Corrupt => list := [];
      case Present(records) => list := records;
    }

    /** `saveCalculation` (lib/storage.ts:6-18): prepend, truncate to 50, write back. */
    method SaveCalculation(calculation: Calculation)
      modifies this
      ensures slot == Present(Prepend(old(Contents()), calculation))
      ensures Bounded()
      ensures old(slot).Absent? || old(slot).Corrupt? ==> slot == Present([calculation])
    {
      var calculations := GetCalculations();
      calculations := [calculation] + calculations;
      if |calculations| > MaxEntries {
        calculations := calculations[..MaxEntries];
      }
      slot := Present(calculations);
    }

    /** `deleteCalculation` (lib/storage.ts:32-36): drop every record with this id and write the rest back. */
    method DeleteCalculation(id: string)
      modifies this
      ensures slot == Present(Without(old(Contents()), id))
      ensures old(Bounded()) ==> Bounded()
      ensures old(slot).Absent? || old(slot).Corrupt? ==> slot == Present([])
    {
      var calculations := GetCalculations();
      var updatedCalculations := Without(calculations, id);
      slot := Present(updatedCalculations);
    }

    /** `clearCalculations` (lib/storage.ts:38-40): remove the entry. */
    method ClearCalculations()
      modifies this
      ensures slot == Absent && Contents() == []
    {
      slot := Absent;
    }
  }
}
