/** The kernel symbol index: filter, selection sort of two parallel arrays, binary search. */
module Ksym {
  import opened Options

  const NUM_MAX: nat := 1024             // KALLSYMS_NUM_MAX
  const PAGE_OFFSET: nat := 0xC000_0000
  const WORD: nat := 0x1_0000_0000

  /** An ELF symbol: its value and the offset of its name in the string table. */
  datatype Symbol = Symbol(value: nat, name: nat)

  /** A table entry: an address and where its name string is. */
  datatype Entry = Entry(addr: nat, name: nat)

  /** Where the kernel text and the string table are. */
  datatype Layout = Layout(textStart: nat, textEnd: nat, strtab: nat)

  predicate IsKernelText(l: Layout, addr: nat) {
    addr > (l.textStart + PAGE_OFFSET) % WORD && addr < (l.textEnd + PAGE_OFFSET) % WORD
  }

  function ToEntry(l: Layout, s: Symbol): Entry {
    Entry(s.value, (l.strtab + s.name) % WORD)
  }

  /** The text symbols, in symbol-table order. */
  function TextEntries(l: Layout, symtab: seq<Symbol>): seq<Entry> {
    if symtab == [] then []
    else
      var s := symtab[|symtab| - 1];
      TextEntries(l, symtab[..|symtab| - 1]) + (if IsKernelText(l, s.value) then [ToEntry(l, s)] else [])
  }

  lemma {:induction false} TextEntriesPrefix(l: Layout, symtab: seq<Symbol>, i: nat)
    requires i <= |symtab|
    ensures |TextEntries(l, symtab[..i])| <= |TextEntries(l, symtab)|
    decreases |symtab|
  {
    if i == |symtab| {
      assert symtab[..i] == symtab;
    } else {
      var before := symtab[..|symtab| - 1];
      TextEntriesPrefix(l, before, i);
      assert before[..i] == symtab[..i];
    }
  }

  /** `s` lies strictly inside the kernel text as linked at 3 GiB, and `e` has its value and the
      address of its name: addresses are 32-bit words. */
  ghost predicate Lists(l: Layout, s: Symbol, e: Entry) {
    && (l.textStart + 0xC000_0000) % 0x1_0000_0000 < s.value < (l.textEnd + 0xC000_0000) % 0x1_0000_0000
    && e.addr == s.value && e.name == (l.strtab + s.name) % 0x1_0000_0000
  }

  /** An entry of the filtered table comes from a text symbol, and every text symbol has one. */
  lemma {:induction false} TextEntriesExact(l: Layout, symtab: seq<Symbol>, e: Entry)
    ensures e in TextEntries(l, symtab) <==> exists s :: s in symtab && Lists(l, s, e)
  {
    if symtab != [] {
      var before, s := symtab[..|symtab| - 1], symtab[|symtab| - 1];
      assert symtab == before + [s];
      TextEntriesExact(l, before, e);
      assert Lists(l, s, e) <==> IsKernelText(l, s.value) && ToEntry(l, s) == e;
      assert forall t :: t in symtab <==> t in before || t == s;
    }
  }

  /** One entry for each, in symbol-table order. */
  lemma {:induction false} TextEntriesOrder(l: Layout, before: seq<Symbol>, s: Symbol, after: seq<Symbol>)
    requires exists e :: Lists(l, s, e)
    ensures var e := Entry(s.value, (l.strtab + s.name) % 0x1_0000_0000);
            TextEntries(l, before + [s] + after) == TextEntries(l, before) + [e] + TextEntries(l, after)
  {
    var all := before + [s] + after;
    if after == [] {
      assert all[..|all| - 1] == before;
    } else {
      assert all[..|all| - 1] == before + [s] + after[..|after| - 1];
      TextEntriesOrder(l, before, s, after[..|after| - 1]);
    }
  }

  predicate Sorted(s: seq<Entry>) {
    forall i, j | 0 <= i < j < |s| :: s[i].addr <= s[j].addr
  }

  /** The linear scan: the first index holding the greatest address that is not above `a`. */
  function Scan(s: seq<Entry>, a: nat): (r: Option<nat>)
    ensures r.None? <==> forall i | 0 <= i < |s| :: s[i].addr > a
    ensures r.Some? ==>
              && r.value < |s| && s[r.value].addr <= a
              && (forall i | 0 <= i < |s| && s[i].addr <= a :: s[i].addr <= s[r.value].addr)
              && (forall i | 0 <= i < r.value :: s[i].addr != s[r.value].addr)
  {
    if s == [] then None
    else
      var n := |s| - 1;
      var r := Scan(s[..n], a);
      if s[n].addr <= a && (r.None? || s[r.value].addr < s[n].addr) then Some(n) else r
  }

  /** Only one index can answer the scan. */
  lemma ScanUnique(s: seq<Entry>, a: nat, i: nat)
    requires i < |s| && s[i].addr <= a
    requires forall j | 0 <= j < |s| && s[j].addr <= a :: s[j].addr <= s[i].addr
    requires forall j | 0 <= j < i :: s[j].addr != s[i].addr
    ensures Scan(s, a) == Some(i)
  {
    var r := Scan(s, a);
    if r.Some? { assert s[r.value].addr == s[i].addr; }
  }

  function Swapped(s: seq<Entry>, i: nat, j: nat): seq<Entry>
    requires i < |s| && j < |s|
  {
    s[i := s[j]][j := s[i]]
  }

  /** The first i entries are in place: each is least among itself and what follows. */
  predicate SortedUpTo(s: seq<Entry>, i: nat) {
    forall j, k | 0 <= j < i && j < k < |s| :: s[j].addr <= s[k].addr
  }

  /** Bringing a least remaining entry to place i puts one more entry in place. */
  lemma SwapPlaces(s: seq<Entry>, i: nat, idx: nat)
    requires SortedUpTo(s, i) && i <= idx < |s|
    requires forall k | i <= k < |s| :: s[idx].addr <= s[k].addr
    ensures SortedUpTo(Swapped(s, i, idx), i + 1)
    ensures multiset(Swapped(s, i, idx)) == multiset(s)
  {
  }

  class Kallsyms {
    const addrs: array<nat>
    const names: array<nat>
    var num: nat

    /** The static tables. */
    constructor ()
      ensures addrs.Length == names.Length == 1024 && addrs != names && num == 0
      ensures fresh(addrs) && fresh(names)
      ensures forall i | 0 <= i < NUM_MAX :: addrs[i] == 0 && names[i] == 0
    {
      addrs := new nat[NUM_MAX](_ => 0);
      names := new nat[NUM_MAX](_ => 0);
      num := 0;
    }

    predicate Shape()
      reads this
    {
      addrs.Length == names.Length == NUM_MAX && addrs != names && num <= NUM_MAX
    }

    /** The two arrays read side by side. */
    ghost function Table(): seq<Entry>
      requires Shape()
      reads this, addrs, names
    {
      seq(num, i requires 0 <= i < num && Shape() reads this, addrs, names => Entry(addrs[i], names[i]))
    }

    method Collect(l: Layout, symtab: seq<Symbol>)
      requires Shape() && |TextEntries(l, symtab)| <= 1024
      modifies this, addrs, names
      ensures Shape() && Table() == TextEntries(l, symtab)
    {
      num := 0;
      for i := 0 to |symtab|
        invariant Shape() && Table() == TextEntries(l, symtab[..i])
      {
        assert symtab[..i + 1][..i] == symtab[..i];
        TextEntriesPrefix(l, symtab, i + 1);
        if IsKernelText(l, symtab[i].value) {
          ghost var before := Table();
          addrs[num] := symtab[i].value;
          names[num] := (l.strtab + symtab[i].name) % WORD;
          num := num + 1;
          assert Table() == before + [ToEntry(l, symtab[i])];
        }
      }
      assert symtab[..|symtab|] == symtab;
    }

    /** The first index from i on with the least address. */
    method SelectMin(i: nat) returns (idx: nat)
      requires Shape() && i < num
      ensures i <= idx < num
      ensures forall k | i <= k < num :: addrs[idx] <= addrs[k]
    {
      idx := i;
      var addrT := addrs[idx];
      for k := i + 1 to num
        invariant i <= idx < num && addrT == addrs[idx]
        invariant forall j | i <= j < k :: addrs[idx] <= addrs[j]
      {
        if addrT > addrs[k] {
          idx := k;
          addrT := addrs[k];
        }
      }
    }

    method Swap(i: nat, idx: nat)
      requires Shape() && i < idx < num
      modifies addrs, names
      ensures Table() == Swapped(old(Table()), i, idx)
    {
      var addrT, nameT := addrs[idx], names[idx];
      addrs[idx] := addrs[i];
      names[idx] := names[i];
      addrs[i] := addrT;
      names[i] := nameT;
    }

    /** Selection sort of both arrays together. */
    method Sort()
      requires Shape()
      modifies addrs, names
      ensures Sorted(Table()) && multiset(Table()) == multiset(old(Table()))
    {
      for i := 0 to num
        invariant Shape() && multiset(Table()) == multiset(old(Table()))
        invariant SortedUpTo(Table(), i)
      {
        var idx := SelectMin(i);
        ghost var t := Table();
        assert forall k | i <= k < num :: t[k].addr == addrs[k];
        SwapPlaces(t, i, idx);
        if i != idx {
          Swap(i, idx);
        } else {
          assert Swapped(t, i, idx) == t;
        }
      }
    }

    method Load(l: Layout, symtab: seq<Symbol>)
      requires Shape() && |TextEntries(l, symtab)| <= 1024
      modifies this, addrs, names
      ensures Shape() && Sorted(Table()) && multiset(Table()) == multiset(TextEntries(l, symtab))
    {
      Collect(l, symtab);
      Sort();
    }

    /** Binary search, then back to the first of a run of equal addresses. */
    method GetSymbolPos(addr: nat) returns (low: nat, offset: nat)
      requires Shape() && Sorted(Table()) && addr < WORD
      ensures Scan(Table(), addr) == if num > 0 && addrs[0] <= addr then Some(low) else None
      ensures Scan(Table(), addr).None? ==> low == 0
      ensures low < NUM_MAX && offset == (addr - addrs[low]) % WORD
    {
      low := 0;
      var high := num;
      while high - low > 1
        invariant low <= high <= num && (num > 0 ==> low < high)
        invariant low > 0 ==> addrs[low] <= addr
        invariant forall i | high <= i < num :: addr < Table()[i].addr
        decreases high - low
      {
        var mid := low + (high - low) / 2;
        if addrs[mid] <= addr {
          low := mid;
        } else {
          high := mid;
          assert forall i | mid <= i < num :: Table()[mid].addr <= Table()[i].addr;
        }
      }
      ghost var found := low;
      while low > 0 && addrs[low - 1] == addrs[low]
        invariant 0 <= low <= found && (found > 0 ==> found < num)
        invariant forall i | low <= i <= found && found > 0 :: addrs[i] == addrs[found]
      {
        low := low - 1;
      }
      offset := (addr - addrs[low]) % WORD;
      if num > 0 {
        assert Table()[0].addr == addrs[0] && Table()[low].addr == addrs[low] && Table()[found].addr == addrs[found];
        if addrs[0] <= addr {
          FirstOfRun(Table(), addr, low, found);
        }
      }
    }

    method LookupName(addr: nat) returns (name: nat, offset: nat)
      requires Shape() && Sorted(Table()) && addr < WORD
      ensures num > 0 && addrs[0] <= addr ==>
                var r := Scan(Table(), addr);
                r.Some? && name == Table()[r.value].name && offset == addr - Table()[r.value].addr
      ensures num == 0 || addr < addrs[0] ==> name == names[0] && offset == (addr - addrs[0]) % 0x1_0000_0000
    {
      var idx;
      idx, offset := GetSymbolPos(addr);
      name := names[idx];
    }
  }

  /** On a sorted table the start of the run of equals is the scan's answer. */
  lemma FirstOfRun(s: seq<Entry>, a: nat, low: nat, found: nat)
    requires Sorted(s) && low <= found < |s| && s[found].addr <= a
    requires forall i | found < i < |s| :: a < s[i].addr
    requires s[low].addr == s[found].addr
    requires low > 0 ==> s[low - 1].addr != s[low].addr
    ensures Scan(s, a) == Some(low)
  {
    forall j | 0 <= j < low ensures s[j].addr != s[low].addr {
      assert s[j].addr <= s[low - 1].addr <= s[low].addr;
    }
    ScanUnique(s, a, low);
  }

  /** End to end: any sorted rearrangement of the text symbols answers a lookup with the
      name of an ELF text symbol whose value is the greatest at or below the address. */
  lemma LookupNamesSymbol(l: Layout, symtab: seq<Symbol>, table: seq<Entry>, a: nat)
    requires multiset(table) == multiset(TextEntries(l, symtab))
    requires Scan(table, a).Some?
    ensures var e := table[Scan(table, a).value];
            && e.addr <= a
            && (exists s :: s in symtab && Lists(l, s, e))
            && (forall s, other | s in symtab && Lists(l, s, other) && s.value <= a :: s.value <= e.addr)
  {
    var e := table[Scan(table, a).value];
    assert e in multiset(table);
    TextEntriesExact(l, symtab, e);
    forall s, other | s in symtab && Lists(l, s, other) && s.value <= a
      ensures s.value <= e.addr
    {
      TextEntriesExact(l, symtab, other);
      assert other in multiset(table);
      var i :| 0 <= i < |table| && table[i] == other;
    }
  }
}
