/**
 A clone of a function whose stores are not all to persistent memory (src/FixGenerator.cpp:184-336).
 */
module MixedStores {
  import opened Ir
  import opened Flushing
  import opened FixGeneration
  import opened OverlappingFixes
  import opened SharedLine

  /** Pointers 0 and 3 may point to persistent memory, but 3 is not known to the alias analysis; 1 is a stack
      variable, and 2 points to volatile memory. */
  const POINTERS := PmDesc({(F0, 1)}, {(F0, 0), (F0, 1), (F0, 2)}, {(F0, 0), (F0, 1), (F0, 3)})

  const STORES: seq<Instr> := [Store(1, 0), Store(2, 1), Store(3, 2), Store(4, 3)]

  /** Only the store through pointer 0 gets a flush. */
  lemma OneStoreFlushed()
    ensures ExpandFunction(Fn(STORES), FlushAll(POINTERS, C))
            == Fn([Store(1, 0), Flush(0, true), Store(2, 1), Store(3, 2), Store(4, 3)])
  {
    hide Expand;
    var change := FlushAll(POINTERS, C);
    assert STORES == [STORES[0]] + ([STORES[1]] + ([STORES[2]] + [STORES[3]]));
    ExpandSingle(STORES[3], change);
    ExpandHead(STORES[2], [STORES[3]], change);
    ExpandHead(STORES[1], [STORES[2]] + [STORES[3]], change);
    ExpandHead(STORES[0], [STORES[1]] + ([STORES[2]] + [STORES[3]]), change);
    assert change(STORES[0]) == [Store(1, 0), Flush(0, true)];
    assert change(STORES[1]) == [STORES[1]] && change(STORES[2]) == [STORES[2]] && change(STORES[3]) == [STORES[3]];
    assert Expand(STORES, change) == [Store(1, 0), Flush(0, true), Store(2, 1), Store(3, 2), Store(4, 3)];
  }
}
