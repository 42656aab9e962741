/**
  Symbol lookup of libdl/dl.c: the walk of one bucket's chain in `dlsym`, against
  a linear scan of the symbol table.
 */
module DlSym {
  import opened Base
  import opened DlHash

  /** The fields of Elf32_Sym that `dlsym` reads. */
  datatype Symbol = Symbol(name: nat, value: word)

  /** The parts of `dl_handle_t` that `dlsym` reads; `None` is a null pointer. */
  datatype Library = Library(
    hashtab: Option<seq<word>>,
    dynsym: Option<seq<Symbol>>,
    dynstr: Option<seq<byte>>,
    nsyms: nat,
    bias: word)

  /** The C string at an offset of the string table, whose last byte is a NUL. */
  function NameAt(strtab: seq<byte>, off: nat): seq<byte>
    requires off < |strtab| && strtab[|strtab| - 1] == 0
    decreases |strtab| - off
  {
    if strtab[off] == 0 then [] else [strtab[off]] + NameAt(strtab, off + 1)
  }

  /** It is what stands there up to the next NUL. */
  lemma {:induction false} NameIsCString(strtab: seq<byte>, off: nat)
    requires off < |strtab| && strtab[|strtab| - 1] == 0
    ensures var n := NameAt(strtab, off);
            && off + |n| < |strtab| && strtab[off + |n|] == 0 && 0 !in n
            && forall i :: 0 <= i < |n| ==> n[i] == strtab[off + i]
    decreases |strtab| - off
  {
    if strtab[off] != 0 {
      NameIsCString(strtab, off + 1);
      var n, m := NameAt(strtab, off), NameAt(strtab, off + 1);
      forall i | 0 <= i < |n| ensures n[i] == strtab[off + i] {
        assert i > 0 ==> n[i] == m[i - 1] && m[i - 1] == strtab[off + 1 + (i - 1)];
      }
    }
  }

  /** The tables one lookup works on, once all three pointers are set. */
  datatype Tables = Tables(hash: seq<word>, syms: seq<Symbol>, strs: seq<byte>, nsyms: nat) {
    /** The sizes agree, and every name lies inside the string table. */
    predicate Shaped() {
      && |hash| >= 2 && hash[0] > 0 && hash[1] == nsyms
      && |hash| == 2 + (hash[0] as int) + (hash[1] as int) && nsyms <= |syms|
      && |strs| > 0 && strs[|strs| - 1] == 0 && forall i :: 0 <= i < nsyms ==> syms[i].name < |strs|
    }

    function Bucket(b: nat): word
      requires Shaped() && b < hash[0]
    {
      hash[2 + b]
    }

    function Chain(i: nat): word
      requires Shaped() && i < nsyms
    {
      hash[2 + (hash[0] as int) + i]
    }

    /** Symbol `i` has this name and is defined. */
    predicate Defines(i: nat, name: seq<byte>)
      requires Shaped()
    {
      0 < i < nsyms && NameAt(strs, syms[i].name) == name && syms[i].value != 0
    }

    function Slot(name: seq<byte>): nat
      requires Shaped()
      ensures Slot(name) < hash[0]
    {
      HashOf(name) % hash[0]
    }

    /** From `idx`, the chain links visit exactly `list` and end with 0. */
    predicate IsChain(idx: nat, list: seq<nat>)
      requires Shaped()
      decreases |list|
    {
      if |list| == 0 then idx == 0
      else idx == list[0] && 0 < idx < nsyms && IsChain(Chain(idx), list[1..])
    }

    /** Every bucket heads a finite chain, and every defined symbol is on the chain of its hash. */
    ghost predicate WellFormed(chains: seq<seq<nat>>) {
      && Shaped()
      && |chains| == hash[0]
      && (forall b :: 0 <= b < |chains| ==> IsChain(Bucket(b), chains[b]))
      && (forall i: nat :: 0 < i < nsyms && syms[i].value != 0 ==> i in chains[Slot(NameAt(strs, syms[i].name))])
    }
  }

  /** What a linear scan of dynsym[1 .. nsyms) would find. */
  ghost predicate Scanned(t: Tables, name: seq<byte>)
    requires t.Shaped()
  {
    exists i: nat :: t.Defines(i, name)
  }

  /** The walk of one chain: it ends, and it finds a definition exactly when a linear scan would. */
  method Walk(t: Tables, name: seq<byte>, ghost chains: seq<seq<nat>>) returns (found: Option<nat>)
    requires t.WellFormed(chains) && 0 !in name
    ensures found.Some? <==> Scanned(t, name)
    ensures found.Some? ==> t.Defines(found.value, name)
  {
    var h := ElfHash(name);
    var nbucket := t.hash[0];
    var b := h % nbucket;
    var idx: nat := t.hash[2 + b];
    ghost var done: seq<nat>, list := [], chains[b];
    while idx != 0 && idx < t.nsyms
      invariant t.IsChain(idx, list)
      invariant chains[b] == done + list
      invariant forall k :: 0 <= k < |done| ==> !t.Defines(done[k], name)
      decreases |list|
    {
      if NameAt(t.strs, t.syms[idx].name) == name && t.syms[idx].value != 0 {
        assert t.Defines(idx, name);
        return Some(idx);
      }
      done, list := done + [idx], list[1..];
      idx := t.hash[2 + (nbucket as int) + idx];
    }
    assert list == [] && chains[b] == done;
    assert b == t.Slot(name);
    return None;
  }

  /** The tables of a library are usable: if all three are there, they form a hash table. */
  ghost predicate Usable(l: Library, chains: seq<seq<nat>>) {
    l.hashtab.Some? && l.dynsym.Some? && l.dynstr.Some? ==> TablesOf(l).WellFormed(chains)
  }

  function TablesOf(l: Library): Tables
    requires l.hashtab.Some? && l.dynsym.Some? && l.dynstr.Some?
  {
    Tables(l.hashtab.value, l.dynsym.value, l.dynstr.value, l.nsyms)
  }

  /**
    `dlsym`: null without a handle, a name or the tables; otherwise the address of
    a defined symbol of that name exactly when the symbol table has one.
   */
  method Dlsym(handle: Option<Library>, symbol: Option<seq<byte>>, ghost chains: seq<seq<nat>>)
    returns (r: Option<word>)
    requires handle.Some? ==> Usable(handle.value, chains)
    requires symbol.Some? ==> 0 !in symbol.value
    ensures handle.None? || symbol.None? ==> r == None
    ensures handle.Some? && symbol.Some? ==>
              var l := handle.value;
              if l.hashtab.None? || l.dynsym.None? || l.dynstr.None? then r == None
              else
                && (r.Some? <==> Scanned(TablesOf(l), symbol.value))
                && (r.Some? ==> exists i: nat ::
                      && TablesOf(l).Defines(i, symbol.value)
                      && r.value == (l.bias + l.dynsym.value[i].value) % UINT32_RANGE)
  {
    if handle.None? || symbol.None? {
      return None;
    }
    var l := handle.value;
    if l.hashtab.None? || l.dynsym.None? || l.dynstr.None? {
      return None;
    }
    var t := TablesOf(l);
    var found := Walk(t, symbol.value, chains);
    if found.None? {
      return None;
    }
    assert t.Defines(found.value, symbol.value);
    return Some((l.bias + t.syms[found.value].value) % UINT32_RANGE);
  }

  // ----- a table

  /**
    Two buckets and the symbols "a" (97), "b" (98) and "c" (99): bucket 0 heads the
    chain of "b", bucket 1 the chain of "a" and "c".
   */
  const EXAMPLE: Tables := Tables(
    [2, 4, 2, 1, 0, 3, 0, 0],
    [Symbol(0, 0), Symbol(1, 0x100), Symbol(3, 0x200), Symbol(5, 0x300)],
    [0, 97, 0, 98, 0, 99, 0],
    4)

  lemma {:induction false} ExampleIsWellFormed(t: Tables, chains: seq<seq<nat>>)
    requires t == EXAMPLE && chains == [[2], [1, 3]]
    ensures t.WellFormed(chains)
    ensures NameAt(t.strs, 1) == [97] && NameAt(t.strs, 3) == [98] && NameAt(t.strs, 5) == [99]
  {
    assert NameAt(t.strs, 2) == [] && NameAt(t.strs, 4) == [] && NameAt(t.strs, 6) == [];
    assert chains[0][1..] == [] && chains[1][1..] == [3] && [3][1..] == [];
    assert t.IsChain(2, chains[0]) && t.IsChain(1, chains[1]) by {
      assert t.Chain(2) == 0 && t.Chain(1) == 3 && t.Chain(3) == 0;
      assert t.IsChain(3, [3]);
    }
    OneCharacter(97);
    OneCharacter(98);
    OneCharacter(99);
    forall i: nat | 0 < i < 4 ensures i in chains[t.Slot(NameAt(t.strs, t.syms[i].name))] {
      assert i == 1 || i == 2 || i == 3;
    }
  }

  lemma {:induction false} OneCharacter(c: byte)
    requires c < 0x80
    ensures HashOf([c]) == c
  {
    ShortHash([c]);
    assert [c][1..] == [];
  }
}
