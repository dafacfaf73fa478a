/**
 * The symbol table of src/symbol_table.c: an append-only array of
 * (name, address) pairs with pairwise distinct names, searched linearly,
 * whose backing array doubles when an insertion finds it full.
 *
 * The entries in use are abstracted as a `seq<Symbol>`; the functions on
 * such sequences (Named, Lookup, Inserted) are the specification the class
 * methods are proved against, and the assembler passes reuse them.
 */
module Symbols {
  import opened Common

  /** One binding of the table (struct Symbol). */
  datatype Symbol = Symbol(name: string, address: int)

  predicate NamesDistinct(entries: seq<Symbol>) {
    forall i, j :: 0 <= i < j < |entries| ==> entries[i].name != entries[j].name
  }

  /** Some entry carries this name. */
  predicate Named(entries: seq<Symbol>, name: string) {
    exists i :: 0 <= i < |entries| && entries[i].name == name
  }

  /** The address bound to name by the first entry that carries it. */
  function Lookup(entries: seq<Symbol>, name: string): (r: Option<int>)
    ensures r.None? <==> !Named(entries, name)
    ensures r.Some? ==> exists i :: 0 <= i < |entries| && entries[i] == Symbol(name, r.value)
  {
    if entries == [] then None
    else
      var init := Lookup(entries[..|entries| - 1], name);
      if init.Some? then
        assert entries[..|entries| - 1] <= entries;
        init
      else if entries[|entries| - 1].name == name then Some(entries[|entries| - 1].address)
      else
        assert forall i :: 0 <= i < |entries| - 1 ==> entries[i] == entries[..|entries| - 1][i];
        None
  }

  /** The entries after an insert-if-absent of (name, address). */
  function Inserted(entries: seq<Symbol>, name: string, address: int): seq<Symbol> {
    if Named(entries, name) then entries else entries + [Symbol(name, address)]
  }

  /** When names are distinct, the one entry carrying a name is the one Lookup reports. */
  lemma LookupDistinct(entries: seq<Symbol>, i: nat)
    requires NamesDistinct(entries) && i < |entries|
    ensures Lookup(entries, entries[i].name) == Some(entries[i].address)
  {
  }

  /** Appending entries never changes the address of a name already present: the first binding wins. */
  lemma {:induction false} LookupPrefix(entries: seq<Symbol>, more: seq<Symbol>, name: string)
    requires Named(entries, name)
    ensures Lookup(entries + more, name) == Lookup(entries, name)
  {
    if more != [] {
      var all := entries + more;
      assert all[..|all| - 1] == entries + more[..|more| - 1];
      LookupPrefix(entries, more[..|more| - 1], name);
      assert Lookup(all[..|all| - 1], name).Some?;
    } else {
      assert entries + more == entries;
    }
  }

  /** Entries that do not carry a name are skipped by the search for it. */
  lemma {:induction false} LookupSkip(entries: seq<Symbol>, more: seq<Symbol>, name: string)
    requires !Named(entries, name)
    ensures Lookup(entries + more, name) == Lookup(more, name)
  {
    var all := entries + more;
    if more != [] {
      assert all[..|all| - 1] == entries + more[..|more| - 1];
      LookupSkip(entries, more[..|more| - 1], name);
      assert all[|all| - 1] == more[|more| - 1];
    } else {
      assert all == entries;
    }
  }

  /** Insert-if-absent keeps names distinct, binds name, and leaves every other name as it was. */
  lemma InsertedFacts(entries: seq<Symbol>, name: string, address: int)
    ensures NamesDistinct(entries) ==> NamesDistinct(Inserted(entries, name, address))
    ensures Named(Inserted(entries, name, address), name)
    ensures Lookup(Inserted(entries, name, address), name)
         == if Named(entries, name) then Lookup(entries, name) else Some(address)
    ensures forall other :: other != name ==>
              Lookup(Inserted(entries, name, address), other) == Lookup(entries, other)
    ensures entries <= Inserted(entries, name, address)
  {
    var r := Inserted(entries, name, address);
    if !Named(entries, name) {
      assert r[..|r| - 1] == entries;
      assert r[|r| - 1] == Symbol(name, address);
    }
  }

  /**
   * struct SymbolTable: the backing array `symbols` holds `capacity` slots
   * of which the first `size` are in use.
   */
  class SymbolTable {
    var symbols: array<Symbol>
    var size: nat
    var capacity: nat

    /** The table invariant: capacity is the array length, is positive, bounds size, and names are distinct. */
    ghost predicate Valid()
      reads this, symbols
    {
      symbols.Length == capacity && 0 < capacity && size <= capacity
      && NamesDistinct(symbols[..size])
    }

    /** The entries in use, in insertion order. */
    function Contents(): seq<Symbol>
      reads this, symbols
      requires size <= symbols.Length
    {
      symbols[..size]
    }

    /** symbol_table_init: an empty table with room for initialCapacity entries. */
    constructor (initialCapacity: nat)
      requires initialCapacity > 0
      ensures Valid() && fresh(symbols)
      ensures size == 0 && capacity == initialCapacity && Contents() == []
    {
      symbols := new Symbol[initialCapacity];
      size := 0;
      capacity := initialCapacity;
    }

    /** symbol_table_contains: a linear scan over the entries in use. */
    method Contains(name: string) returns (found: bool)
      requires Valid()
      ensures found <==> Named(Contents(), name)
    {
      var i := 0;
      while i < size
        invariant 0 <= i <= size
        invariant forall k :: 0 <= k < i ==> symbols[k].name != name
      {
        if symbols[i].name == name {
          assert Contents()[i].name == name;
          return true;
        }
        i := i + 1;
      }
      return false;
    }

    /**
     * symbol_table_get_address: `address` is the caller's out-variable; it is
     * overwritten with the bound address when name is present and returned
     * untouched otherwise.
     */
    method GetAddress(name: string, address: int) returns (found: bool, result: int)
      requires Valid()
      ensures found <==> Named(Contents(), name)
      ensures found ==> Lookup(Contents(), name) == Some(result)
      ensures !found ==> result == address
    {
      var i := 0;
      while i < size
        invariant 0 <= i <= size
        invariant forall k :: 0 <= k < i ==> symbols[k].name != name
      {
        if symbols[i].name == name {
          LookupDistinct(Contents(), i);
          return true, symbols[i].address;
        }
        i := i + 1;
      }
      return false, address;
    }

    /**
     * symbol_table_add: insert-if-absent. A present name leaves the table as
     * it was and gives false; otherwise the array is doubled when full, the
     * pair is written at index `size`, and size grows by one.
     */
    method Add(name: string, address: int) returns (added: bool)
      requires Valid()
      modifies this, symbols
      ensures Valid()
      ensures symbols == old(symbols) || fresh(symbols)
      ensures added <==> !Named(old(Contents()), name)
      ensures Contents() == Inserted(old(Contents()), name, address)
      ensures size == if added then old(size) + 1 else old(size)
      ensures capacity == if added && old(size) == old(capacity) then 2 * old(capacity) else old(capacity)
    {
      var present := Contains(name);
      if present {
        return false;
      }
      if size >= capacity {
        var newCapacity := capacity * 2;
        var grown := new Symbol[newCapacity];
        var i := 0;
        while i < size
          invariant 0 <= i <= size
          invariant forall k :: 0 <= k < i ==> grown[k] == symbols[k]
          modifies grown
        {
          grown[i] := symbols[i];
          i := i + 1;
        }
        assert grown[..size] == symbols[..size];
        symbols := grown;
        capacity := newCapacity;
      }
      ghost var before := symbols[..size];
      symbols[size] := Symbol(name, address);
      size := size + 1;
      assert symbols[..size] == before + [Symbol(name, address)];
      return true;
    }

    /** symbol_table_free: release the storage; the table is empty and has no capacity left. */
    method Free()
      modifies this
      ensures size == 0 && capacity == 0 && symbols.Length == 0
    {
      symbols := new Symbol[0];
      size := 0;
      capacity := 0;
    }
  }
}
